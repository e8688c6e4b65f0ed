/** The tree object: its root, the recorded construction steps and the code table. */
module TreeModel {
  import opened NodeModel
  import opened CodeGenerator

  class HuffmanTree {
    var root: Option<Node>
    var constructionSteps: seq<seq<Node>>
    var code: map<char, string>

    /** A new tree has no root, no construction steps and an empty code table. */
    constructor ()
      ensures root == None && constructionSteps == [] && code == map[]
    {
      root := None;
      constructionSteps := [];
      code := map[];
    }

    method SetRoot(root: Option<Node>)
      modifies this
      ensures this.root == root
      ensures constructionSteps == old(constructionSteps) && code == old(code)
    {
      this.root := root;
    }

    /** Appends one snapshot; the steps recorded before are kept as they were. */
    method AddConstructionSteps(step: seq<Node>)
      modifies this
      ensures constructionSteps == old(constructionSteps) + [step]
      ensures root == old(root) && code == old(code)
    {
      constructionSteps := constructionSteps + [step];
    }

    /** Runs code generation from the root with the empty path, writing into
        the existing table without clearing it.  A missing root fails. */
    method GenerateMycode()
      requires root.Some?
      modifies this
      ensures root == old(root) && constructionSteps == old(constructionSteps)
      ensures code == old(code) + CodeTable(root.value, "")
    {
      code := GenerateCode(root.value, code, "");
    }
  }

  /** Generating the codes a second time from the same root leaves the table
      as the first run left it. */
  lemma GenerateCodeIdempotent(code: map<char, string>, root: Node)
    ensures (code + CodeTable(root, "")) + CodeTable(root, "") == code + CodeTable(root, "")
  {
    var t := CodeTable(root, "");
    assert forall c :: c in (code + t) + t ==> ((code + t) + t)[c] == (code + t)[c];
  }
}
