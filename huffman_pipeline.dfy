/** The whole run: build the tree of a text, generate its codes, compress the
    text with them and decompress the result. */
module HuffmanPipeline {
  import opened NodeModel
  import opened SortedNodesCreator
  import opened CodeGenerator
  import opened TreeModel
  import opened TreeBuilder
  import opened Compressor
  import opened Decompressor

  /** The code table generated for `text`: the paths to the leaves of the
      tree built from its sorted leaves; it has a code for exactly the
      characters of the text. */
  function HuffmanCode(text: string, keyOrder: seq<char>): (code: map<char, string>)
    requires IsKeyOrder(keyOrder, text) && |text| > 0
    ensures forall c :: c in code <==> c in text
  {
    BuiltTreeProperties(text, keyOrder);
    CodeTable(Root(SortedLeaves(text, keyOrder)), "")
  }

  /** The generated table is prefix-free, and each character's code is the
      one path from the root to a leaf holding it; with two or more distinct
      characters no code is empty, and with one the single code is empty. */
  lemma HuffmanCodeProperties(text: string, keyOrder: seq<char>)
    requires IsKeyOrder(keyOrder, text) && |text| > 0
    ensures PrefixFree(HuffmanCode(text, keyOrder))
    ensures forall c, path :: LeadsTo(Root(SortedLeaves(text, keyOrder)), path, c) <==>
              c in HuffmanCode(text, keyOrder) && HuffmanCode(text, keyOrder)[c] == path
    ensures |keyOrder| >= 2 ==> forall c :: c in HuffmanCode(text, keyOrder) ==> HuffmanCode(text, keyOrder)[c] != []
    ensures |keyOrder| == 1 ==> HuffmanCode(text, keyOrder) == map[text[0] := ""]
  {
    var leaves := SortedLeaves(text, keyOrder);
    BuiltTreeProperties(text, keyOrder);
    SortedLeavesProperties(text, keyOrder);
    StepsConserve(leaves);
    CodeTablePrefixFree(Root(leaves), "");
    var root, code := Root(leaves), HuffmanCode(text, keyOrder);
    forall c, path ensures LeadsTo(root, path, c) <==> c in code && code[c] == path {
      if LeadsTo(root, path, c) {
        PathIsCode(root, "", path, c);
      }
      if c in code && code[c] == path {
        CodeIsPath(root, "", c);
        assert path[|""|..] == path;
      }
    }
    if |keyOrder| == 1 {
      assert Root(leaves) == leaves[0];
      assert keyOrder[0] in text && text[0] in keyOrder;
      assert leaves[0].ch == text[0];
    }
  }

  /** Every text over the characters of `text` survives compression and
      decompression with the code generated for `text`, whatever order the
      decompressor visits the table in, once `text` has two distinct
      characters. */
  lemma PipelineRoundTrip(text: string, keyOrder: seq<char>, entryOrder: seq<char>, t: string)
    requires IsKeyOrder(keyOrder, text) && |text| > 0 && |keyOrder| >= 2
    requires forall c :: c in entryOrder <==> c in text
    requires forall i :: 0 <= i < |t| ==> t[i] in text
    ensures var code := HuffmanCode(text, keyOrder);
      Decode(Encode(t, code), Inverse(code, entryOrder)) == t
  {
    var code := HuffmanCode(text, keyOrder);
    HuffmanCodeProperties(text, keyOrder);
    InverseIsInverseOf(code, entryOrder);
    RoundTrip(code, Inverse(code, entryOrder), t);
  }

  /** A text with a single distinct character gets the empty code, compresses
      to no bits and decompresses to the empty text: it is not recovered. */
  lemma PipelineSingleSymbol(text: string, keyOrder: seq<char>, entryOrder: seq<char>)
    requires IsKeyOrder(keyOrder, text) && |text| > 0 && |keyOrder| == 1
    requires forall c :: c in entryOrder <==> c in text
    ensures var code := HuffmanCode(text, keyOrder);
      && Encode(text, code) == []
      && Decode(Encode(text, code), Inverse(code, entryOrder)) == []
      && Decode(Encode(text, code), Inverse(code, entryOrder)) != text
  {
    var code := HuffmanCode(text, keyOrder);
    HuffmanCodeProperties(text, keyOrder);
    forall i | 0 <= i < |text| ensures text[i] == text[0] {
      assert text[i] in keyOrder && text[0] in keyOrder;
    }
    EmptyCodeLosesText(text[0], Inverse(code, entryOrder), text);
  }

  /** Builds the tree, generates the codes, compresses `text` and decompresses
      the bits.  `keyOrder` is the order the frequency table yields its
      characters in and `entryOrder` the order the code table yields its
      entries in. */
  method CompressThenDecompress(text: string, keyOrder: seq<char>, entryOrder: seq<char>)
    returns (bits: string, decoded: string)
    requires IsKeyOrder(keyOrder, text) && |text| > 0
    requires forall c :: c in entryOrder <==> c in text
    ensures bits == Encode(text, HuffmanCode(text, keyOrder))
    ensures |keyOrder| >= 2 ==> decoded == text
    ensures |keyOrder| == 1 ==> bits == [] && decoded == []
  {
    var tree := BuildHuffmanTree(text, keyOrder);
    tree.GenerateMycode();
    UnionEmpty(CodeTable(tree.root.value, ""));
    bits := Compress(text, tree);
    decoded := Decompress(bits, tree, entryOrder);
    if |keyOrder| >= 2 {
      PipelineRoundTrip(text, keyOrder, entryOrder, text);
    } else {
      PipelineSingleSymbol(text, keyOrder, entryOrder);
    }
  }
}
