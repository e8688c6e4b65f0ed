/** Greedy construction of the Huffman tree from the sorted leaves, recording
    the working list before every merge and once more at the end. */
module TreeBuilder {
  import opened NodeModel
  import opened SortedNodesCreator
  import opened TreeModel

  /** The position of the first element whose frequency is strictly greater
      than `f`, or the length of the list when there is none. */
  function FirstGreater(w: seq<Node>, f: nat): (k: nat)
    ensures k <= |w|
    ensures forall i :: 0 <= i < k ==> w[i].freq <= f
    ensures k < |w| ==> w[k].freq > f
  {
    if w == [] || w[0].freq > f then 0 else 1 + FirstGreater(w[1..], f)
  }

  /** `n` placed before the first strictly greater element, so after every
      element of equal frequency; the other elements keep their order. */
  function Insert(w: seq<Node>, n: Node): (r: seq<Node>)
    ensures |r| == |w| + 1 && r[FirstGreater(w, n.freq)] == n
  {
    var k := FirstGreater(w, n.freq);
    w[..k] + [n] + w[k..]
  }

  /** Inserting adds exactly `n` and keeps every other element. */
  lemma InsertPermutation(w: seq<Node>, n: Node)
    ensures |Insert(w, n)| == |w| + 1
    ensures multiset(Insert(w, n)) == multiset(w) + multiset{n}
  {
    var k := FirstGreater(w, n.freq);
    assert w == w[..k] + w[k..];
  }

  /** The element at position `i` after inserting. */
  lemma InsertAt(w: seq<Node>, n: Node, i: nat)
    requires i <= |w|
    ensures var k := FirstGreater(w, n.freq);
      && |Insert(w, n)| == |w| + 1
      && Insert(w, n)[i] == (if i < k then w[i] else if i == k then n else w[i - 1])
  {
  }

  /** Inserting into an ascending list keeps it ascending. */
  lemma InsertSorted(w: seq<Node>, n: Node)
    requires Sorted(w)
    ensures Sorted(Insert(w, n))
  {
    var k := FirstGreater(w, n.freq);
    var r := Insert(w, n);
    InsertAt(w, n, 0);
    forall i, j | 0 <= i < j < |r| ensures r[i].freq <= r[j].freq {
      InsertAt(w, n, i);
      InsertAt(w, n, j);
      if i == k && j > k {
        assert w[k].freq <= w[j - 1].freq;
      }
    }
  }

  /** The merge of the first two nodes: first removed is the left child, second
      the right, and the new node's frequency is their sum. */
  function MergeStep(w: seq<Node>): (r: seq<Node>)
    requires |w| >= 2
    ensures |r| == |w| - 1
  {
    InsertPermutation(w[2..], Internal(w[0].freq + w[1].freq, w[0], w[1]));
    Insert(w[2..], Internal(w[0].freq + w[1].freq, w[0], w[1]))
  }

  /** One pass of the construction loop moves the recorded list into the
      steps and leaves the rest of the steps and the root to the merged list. */
  lemma MergeStepRecorded(w: seq<Node>, node1: Node, afterFirst: seq<Node>, node2: Node,
                          rest: seq<Node>, n: Node, next: seq<Node>)
    requires |w| >= 2
    requires node1 == w[0] && afterFirst == w[1..]
    requires node2 == afterFirst[0] && rest == afterFirst[1..]
    requires n == Internal(node1.freq + node2.freq, node1, node2)
    requires next == Insert(rest, n)
    ensures next == MergeStep(w)
  {
    assert rest == w[2..] && node2 == w[1];
  }

  /** The snapshots the construction records from working list `w`: the list
      before each merge, then the final list. */
  function Steps(w: seq<Node>): (r: seq<seq<Node>>)
    ensures |r| >= 1 && r[0] == w
    decreases |w|
  {
    if |w| <= 1 then [w] else [w] + Steps(MergeStep(w))
  }

  /** The node left when the merging stops. */
  function Root(w: seq<Node>): (r: Node)
    requires |w| >= 1
    ensures |w| >= 2 ==> r.Internal?
    decreases |w|
  {
    if |w| == 1 then w[0] else Root(MergeStep(w))
  }

  /** n >= 1 nodes give n snapshots: the first is the start list, each later
      one is the merge of the one before, each is one shorter than the one
      before, and the last holds only the root. */
  lemma {:induction false} StepsShape(w: seq<Node>)
    requires |w| >= 1
    ensures |Steps(w)| == |w|
    ensures Steps(w)[0] == w
    ensures forall k :: 0 <= k < |w| ==> |Steps(w)[k]| == |w| - k
    ensures forall k :: 0 <= k < |w| - 1 ==> Steps(w)[k + 1] == MergeStep(Steps(w)[k])
    ensures Steps(w)[|w| - 1] == [Root(w)]
    decreases |w|
  {
    if |w| == 1 {
      assert w == [w[0]];
    } else {
      var w' := MergeStep(w);
      StepsShape(w');
      var s := Steps(w);
      assert s == [w] + Steps(w');
      forall k | 0 <= k < |w| - 1 ensures |s[k]| >= 2 && s[k + 1] == MergeStep(s[k]) {
        if k > 0 {
          assert s[k] == Steps(w')[k - 1] && |Steps(w')[k - 1]| == |w'| - (k - 1);
        } else {
          assert s[0] == w && s[1] == Steps(w')[0];
        }
      }
    }
  }

  /** One snapshot and the next: the next is the merge of this one. */
  lemma StepAt(w: seq<Node>, k: nat)
    requires 0 <= k < |w| - 1
    ensures |Steps(w)| == |w| && |Steps(w)[k]| == |w| - k
    ensures Steps(w)[k + 1] == MergeStep(Steps(w)[k])
  {
    StepsShape(w);
  }

  /** One pass of the construction loop: the pieces it takes apart and the
      list it builds are the next snapshot, and the snapshot it recorded
      extends the recorded prefix by one. */
  lemma Advance(w: seq<Node>, k: nat, actualStep: seq<Node>, node1: Node, afterFirst: seq<Node>,
                node2: Node, rest: seq<Node>, n: Node, next: seq<Node>)
    requires k < |w| - 1 && |Steps(w)| == |w| && actualStep == Steps(w)[k] && |actualStep| >= 2
    requires node1 == actualStep[0] && afterFirst == actualStep[1..]
    requires node2 == afterFirst[0] && rest == afterFirst[1..]
    requires n == Internal(node1.freq + node2.freq, node1, node2)
    requires next == Insert(rest, n)
    ensures next == Steps(w)[k + 1] && |next| == |w| - k - 1
    ensures Steps(w)[..k] + [actualStep] == Steps(w)[..k + 1]
  {
    MergeStepRecorded(actualStep, node1, afterFirst, node2, rest, n, next);
    StepAt(w, k);
    TakeNext(Steps(w), k);
    StepsShape(w);
  }

  /** The first snapshot is the start list and the last holds only the root. */
  lemma StepsEnds(w: seq<Node>)
    requires |w| >= 1
    ensures |Steps(w)| == |w| && Steps(w)[0] == w && Steps(w)[|w| - 1] == [Root(w)]
  {
    StepsShape(w);
  }

  /** Extending a prefix of a sequence by its next element. */
  lemma TakeNext<T>(s: seq<T>, k: nat)
    requires k < |s|
    ensures s[..k] + [s[k]] == s[..k + 1]
  {
  }

  /** Every snapshot of an ascending start list is ascending. */
  lemma {:induction false} StepsSorted(w: seq<Node>)
    requires Sorted(w)
    ensures forall k :: 0 <= k < |Steps(w)| ==> Sorted(Steps(w)[k])
    decreases |w|
  {
    if |w| > 1 {
      var w' := MergeStep(w);
      InsertSorted(w[2..], Internal(w[0].freq + w[1].freq, w[0], w[1]));
      assert Sorted(w');
      StepsSorted(w');
      forall k | 0 <= k < |Steps(w)| ensures Sorted(Steps(w)[k]) {
        if k > 0 {
          assert Steps(w)[k] == Steps(w')[k - 1];
        }
      }
    }
  }

  /** The first two nodes of a list, as a list of their own, followed by the rest. */
  lemma FrontPair(w: seq<Node>)
    requires |w| >= 2
    ensures w == [w[0], w[1]] + w[2..]
    ensures SumFreq([w[0], w[1]]) == w[0].freq + w[1].freq
    ensures CharsOf([w[0], w[1]]) == LeafChars(w[0]) + LeafChars(w[1])
  {
    var p, q := [w[0], w[1]], [w[1]];
    assert p[0] == w[0] && p[1..] == q && q[0] == w[1] && q[1..] == [];
    assert SumFreq(q) == w[1].freq + SumFreq([]);
    assert SumFreq(p) == w[0].freq + SumFreq(q);
    assert CharsOf(q) == LeafChars(w[1]) + CharsOf([]);
    assert CharsOf(p) == LeafChars(w[0]) + CharsOf(q);
    assert w == p + w[2..];
  }

  /** The rest of the list with the merged node put last. */
  lemma MergeStepReordered(w: seq<Node>)
    requires |w| >= 2
    ensures multiset(MergeStep(w)) ==
              multiset(w[2..] + [Internal(w[0].freq + w[1].freq, w[0], w[1])])
  {
    InsertPermutation(w[2..], Internal(w[0].freq + w[1].freq, w[0], w[1]));
  }

  /** The totals of the merged list: the rest plus the merged node. */
  lemma MergeStepParts(w: seq<Node>)
    requires |w| >= 2
    ensures SumFreq(MergeStep(w)) == SumFreq(w[2..]) + (w[0].freq + w[1].freq)
    ensures CharsOf(MergeStep(w)) == CharsOf(w[2..]) + (LeafChars(w[0]) + LeafChars(w[1]))
  {
    var n := Internal(w[0].freq + w[1].freq, w[0], w[1]);
    MergeStepReordered(w);
    SumFreqPermutation(MergeStep(w), w[2..] + [n]);
    SumFreqConcat(w[2..], [n]);
    CharsOfPermutation(MergeStep(w), w[2..] + [n]);
    CharsOfConcat(w[2..], [n]);
    assert [n][1..] == [];
  }

  /** The totals of a list: its first two nodes plus the rest. */
  lemma FrontParts(w: seq<Node>)
    requires |w| >= 2
    ensures SumFreq(w) == (w[0].freq + w[1].freq) + SumFreq(w[2..])
    ensures CharsOf(w) == (LeafChars(w[0]) + LeafChars(w[1])) + CharsOf(w[2..])
  {
    FrontPair(w);
    SumFreqConcat([w[0], w[1]], w[2..]);
    CharsOfConcat([w[0], w[1]], w[2..]);
  }

  lemma MergeStepWellFormed(w: seq<Node>)
    requires |w| >= 2
    requires forall i :: 0 <= i < |w| ==> WellFormed(w[i])
    ensures forall i :: 0 <= i < |MergeStep(w)| ==> WellFormed(MergeStep(w)[i])
  {
    var n := Internal(w[0].freq + w[1].freq, w[0], w[1]);
    var r := MergeStep(w);
    MergeStepReordered(w);
    forall i | 0 <= i < |r| ensures WellFormed(r[i]) {
      assert r[i] in multiset(w[2..] + [n]);
      if r[i] != n {
        var j :| 0 <= j < |w[2..]| && w[2..][j] == r[i];
        assert w[j + 2] == r[i];
      }
    }
  }

  /** A merge keeps the total frequency and the leaf characters of the list,
      and builds a well-formed node from well-formed ones. */
  lemma MergeStepConserves(w: seq<Node>)
    requires |w| >= 2
    ensures SumFreq(MergeStep(w)) == SumFreq(w)
    ensures CharsOf(MergeStep(w)) == CharsOf(w)
    ensures (forall i :: 0 <= i < |w| ==> WellFormed(w[i])) ==>
              forall i :: 0 <= i < |MergeStep(w)| ==> WellFormed(MergeStep(w)[i])
  {
    MergeStepParts(w);
    FrontParts(w);
    if forall i :: 0 <= i < |w| ==> WellFormed(w[i]) {
      MergeStepWellFormed(w);
    }
  }

  /** Every snapshot has the same total frequency, and the root's frequency is
      that total; the root has all leaf characters and is well-formed. */
  lemma {:induction false} StepsConserve(w: seq<Node>)
    requires |w| >= 1
    ensures forall k :: 0 <= k < |Steps(w)| ==> SumFreq(Steps(w)[k]) == SumFreq(w)
    ensures Root(w).freq == SumFreq(w)
    ensures LeafChars(Root(w)) == CharsOf(w)
    ensures (forall i :: 0 <= i < |w| ==> WellFormed(w[i])) ==> WellFormed(Root(w))
    decreases |w|
  {
    if |w| == 1 {
      assert w[1..] == [];
    } else {
      var w' := MergeStep(w);
      MergeStepConserves(w);
      StepsConserve(w');
      forall k | 0 <= k < |Steps(w)| ensures SumFreq(Steps(w)[k]) == SumFreq(w) {
        if k > 0 {
          assert Steps(w)[k] == Steps(w')[k - 1];
        }
      }
    }
  }

  /** Inserting a node adds its leaves to the list's total. */
  lemma InsertLeafCount(w: seq<Node>, n: Node)
    ensures LeafCounts(Insert(w, n)) == LeafCounts(w) + LeafCount(n)
  {
    var k := FirstGreater(w, n.freq);
    LeafCountsConcat(w[..k] + [n], w[k..]);
    LeafCountsConcat(w[..k], [n]);
    assert [n][1..] == [];
    SplitJoin(w, k);
    LeafCountsConcat(w[..k], w[k..]);
  }

  /** The leaves of a list: those of its first two nodes plus the rest's. */
  lemma FrontLeafCount(w: seq<Node>)
    requires |w| >= 2
    ensures LeafCounts(w) == LeafCount(w[0]) + LeafCount(w[1]) + LeafCounts(w[2..])
  {
    assert w[1..][0] == w[1] && w[1..][1..] == w[2..];
  }

  /** A merge keeps the number of leaves of the list. */
  lemma MergeStepLeafCount(w: seq<Node>)
    requires |w| >= 2
    ensures LeafCounts(MergeStep(w)) == LeafCounts(w)
  {
    InsertLeafCount(w[2..], Internal(w[0].freq + w[1].freq, w[0], w[1]));
    FrontLeafCount(w);
  }

  /** The root has as many leaves as the trees of the start list together. */
  lemma {:induction false} RootLeafCount(w: seq<Node>)
    requires |w| >= 1
    ensures LeafCount(Root(w)) == LeafCounts(w)
    decreases |w|
  {
    if |w| == 1 {
      assert w[1..] == [];
    } else {
      MergeStepLeafCount(w);
      RootLeafCount(MergeStep(w));
    }
  }

  /** No character sits at two leaves of the root exactly when the start list
      has as many distinct leaf characters as leaves: that is, when every
      tree of the list has distinct leaves and no two trees share one. */
  lemma RootDistinctLeaves(w: seq<Node>)
    requires |w| >= 1
    ensures DistinctLeaves(Root(w)) <==> |CharsOf(w)| == LeafCounts(w)
  {
    StepsConserve(w);
    RootLeafCount(w);
    LeafCharsCount(Root(w));
  }

  /** The sorted leaves of a non-empty text, as the construction uses them. */
  lemma StartList(text: string, keyOrder: seq<char>)
    requires IsKeyOrder(keyOrder, text)
    requires |text| > 0
    ensures |keyOrder| >= 1
    ensures var leaves := SortedLeaves(text, keyOrder);
      && |leaves| == |keyOrder| && Sorted(leaves) && SumFreq(leaves) == |text|
      && (forall c :: c in CharsOf(leaves) <==> c in text)
      && (forall i :: 0 <= i < |leaves| ==> WellFormed(leaves[i]))
  {
    assert text[0] in keyOrder;
    SortedLeavesProperties(text, keyOrder);
  }

  /** What the construction from a non-empty text yields: one snapshot per
      distinct character, each ascending, one node shorter than the one before
      and with total frequency the text length; the root carries that total,
      is well-formed and has each of the text's characters at exactly one
      leaf, and no other. */
  lemma BuiltTreeProperties(text: string, keyOrder: seq<char>)
    requires IsKeyOrder(keyOrder, text)
    requires |text| > 0
    ensures |keyOrder| >= 1
    ensures var steps := Steps(SortedLeaves(text, keyOrder));
      && |steps| == |keyOrder|
      && forall k :: 0 <= k < |steps| ==>
           && |steps[k]| == |keyOrder| - k
           && Sorted(steps[k])
           && SumFreq(steps[k]) == |text|
    ensures var root := Root(SortedLeaves(text, keyOrder));
      && root.freq == |text| && WellFormed(root) && DistinctLeaves(root)
      && forall c :: c in LeafChars(root) <==> c in text
  {
    BuiltSteps(text, keyOrder);
    BuiltRoot(text, keyOrder);
  }

  /** The snapshots part of `BuiltTreeProperties`. */
  lemma BuiltSteps(text: string, keyOrder: seq<char>)
    requires IsKeyOrder(keyOrder, text)
    requires |text| > 0
    ensures |keyOrder| >= 1
    ensures var steps := Steps(SortedLeaves(text, keyOrder));
      && |steps| == |keyOrder|
      && forall k :: 0 <= k < |steps| ==>
           && |steps[k]| == |keyOrder| - k
           && Sorted(steps[k])
           && SumFreq(steps[k]) == |text|
  {
    StartList(text, keyOrder);
    var leaves := SortedLeaves(text, keyOrder);
    StepsShape(leaves);
    StepsSorted(leaves);
    StepsConserve(leaves);
  }

  /** The root part of `BuiltTreeProperties`. */
  lemma BuiltRoot(text: string, keyOrder: seq<char>)
    requires IsKeyOrder(keyOrder, text)
    requires |text| > 0
    ensures |keyOrder| >= 1
    ensures var root := Root(SortedLeaves(text, keyOrder));
      && root.freq == |text| && WellFormed(root) && DistinctLeaves(root)
      && forall c :: c in LeafChars(root) <==> c in text
  {
    StartList(text, keyOrder);
    var leaves := SortedLeaves(text, keyOrder);
    StepsConserve(leaves);
    SortedLeavesCount(text, keyOrder);
    RootDistinctLeaves(leaves);
  }

  /** Inserts `newNode` by scanning from the front for the first element whose
      frequency is strictly greater, as a list iterator does: step past it,
      step back, add; or add at the end when the scan finds none. */
  method InsertBeforeFirstGreater(nodes: seq<Node>, newNode: Node) returns (r: seq<Node>)
    ensures r == Insert(nodes, newNode)
  {
    var pos := 0;
    var found := false;
    while pos < |nodes| && !found
      invariant 0 <= pos <= |nodes|
      invariant forall i :: 0 <= i < pos ==> nodes[i].freq <= newNode.freq
      invariant found ==> pos < |nodes| && nodes[pos].freq > newNode.freq
      decreases |nodes| - pos, if found then 0 else 1
    {
      var compareNode := nodes[pos];
      if compareNode.freq > newNode.freq {
        found := true;
      } else {
        pos := pos + 1;
      }
    }
    assert pos == FirstGreater(nodes, newNode.freq);
    r := nodes[..pos] + [newNode] + nodes[pos..];
  }

  /** Builds the tree of `text`: sorts its leaves, then while more than one
      node is left records a copy of the working list, removes the first two,
      joins them under a new node and inserts that node back in order;
      finally records the one-node list and makes its node the root.  Empty
      text has no node to take as root and fails. */
  method BuildHuffmanTree(text: string, keyOrder: seq<char>) returns (res: HuffmanTree)
    requires IsKeyOrder(keyOrder, text)
    requires |text| > 0
    ensures |keyOrder| >= 1
    ensures fresh(res)
    ensures res.constructionSteps == Steps(SortedLeaves(text, keyOrder))
    ensures res.root == Some(Root(SortedLeaves(text, keyOrder)))
    ensures res.code == map[]
    ensures |res.constructionSteps| == |keyOrder|
    ensures forall k :: 0 <= k < |res.constructionSteps| ==>
              && |res.constructionSteps[k]| == |keyOrder| - k
              && Sorted(res.constructionSteps[k])
              && SumFreq(res.constructionSteps[k]) == |text|
    ensures res.root.value.freq == |text| && WellFormed(res.root.value)
    ensures DistinctLeaves(res.root.value)
    ensures forall c :: c in LeafChars(res.root.value) <==> c in text
  {
    res := new HuffmanTree();
    var listNodes := Sort(text, keyOrder);
    assert text[0] in keyOrder;
    MergeToRoot(res, listNodes);
    BuiltTreeProperties(text, keyOrder);
  }

  /** The loop of the construction on the tree `res` starting from the
      ascending leaves: while more than one node remains, record the working
      list, take the first two nodes off the front, join them under a new node
      and insert it; then record the last list and make its node the root. */
  method MergeToRoot(res: HuffmanTree, listNodes: seq<Node>)
    requires |listNodes| >= 1
    requires res.constructionSteps == [] && res.root == None && res.code == map[]
    modifies res
    ensures res.constructionSteps == Steps(listNodes)
    ensures res.root == Some(Root(listNodes)) && res.code == map[]
  {
    var nodes := listNodes;
    ghost var steps := Steps(listNodes);
    ghost var k := 0;
    StepsEnds(listNodes);
    while |nodes| > 1
      invariant 0 <= k < |steps| && nodes == steps[k] && |nodes| == |listNodes| - k
      invariant res.constructionSteps == steps[..k]
      invariant res.root == None && res.code == map[]
      decreases |nodes|
    {
      var actualStep := nodes;
      res.AddConstructionSteps(actualStep);
      var node1 := nodes[0];
      nodes := nodes[1..];
      ghost var afterFirst := nodes;
      var node2 := nodes[0];
      nodes := nodes[1..];
      var newFrequency := node1.freq + node2.freq;
      var newNode := Internal(newFrequency, node1, node2);
      ghost var rest := nodes;
      nodes := InsertBeforeFirstGreater(nodes, newNode);
      Advance(listNodes, k, actualStep, node1, afterFirst, node2, rest, newNode, nodes);
      k := k + 1;
    }
    var actualStep := nodes;
    res.AddConstructionSteps(actualStep);
    TakeNext(steps, k);
    assert steps[..k + 1] == steps;
    res.SetRoot(Some(nodes[0]));
  }
}
