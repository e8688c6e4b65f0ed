/** Turning a text into its leaves, sorted by ascending frequency. */
module SortedNodesCreator {
  import opened NodeModel
  import opened MergeSort
  import opened FrequencyCounter

  /** `keyOrder` lists each distinct character of `text` exactly once.  It
      stands for the iteration order of the frequency map, which the hash map
      leaves unspecified; it decides the order of equal-frequency leaves. */
  predicate IsKeyOrder(keyOrder: seq<char>, text: seq<char>) {
    Distinct(keyOrder) && forall c :: c in keyOrder <==> c in text
  }

  /** One leaf per listed character, holding that character's count in `text`,
      in list order. */
  function LeavesFor(keys: seq<char>, text: seq<char>): (r: seq<Node>)
    ensures |r| == |keys|
    ensures forall i :: 0 <= i < |keys| ==> r[i] == Leaf(keys[i], multiset(text)[keys[i]])
  {
    if keys == [] then []
    else
      var c := keys[|keys| - 1];
      LeavesFor(keys[..|keys| - 1], text) + [Leaf(c, multiset(text)[c])]
  }

  /** The list `sort` returns. */
  function SortedLeaves(text: seq<char>, keyOrder: seq<char>): (r: seq<Node>)
    ensures |r| == |keyOrder|
    ensures multiset(r) == multiset(LeavesFor(keyOrder, text))
  {
    MergeSortedPermutation(LeavesFor(keyOrder, text));
    MergeSorted(LeavesFor(keyOrder, text))
  }

  lemma {:induction false} LeavesForSum(keys: seq<char>, text: seq<char>)
    ensures SumFreq(LeavesFor(keys, text)) == SumCounts(keys, multiset(text))
  {
    if keys != [] {
      var c := keys[|keys| - 1];
      LeavesForSum(keys[..|keys| - 1], text);
      SumFreqConcat(LeavesFor(keys[..|keys| - 1], text), [Leaf(c, multiset(text)[c])]);
    }
  }

  lemma LeavesForChars(keys: seq<char>, text: seq<char>, c: char)
    ensures c in CharsOf(LeavesFor(keys, text)) <==> c in keys
  {
    var r := LeavesFor(keys, text);
    CharsOfMember(r, c);
    if c in keys {
      var i :| 0 <= i < |keys| && keys[i] == c;
      assert c in LeafChars(r[i]);
    }
  }

  /** The sorted leaves: ascending, a stable reordering of the leaves built in
      key order, one per distinct character with that character's count, with
      total frequency the length of the text. */
  lemma SortedLeavesProperties(text: seq<char>, keyOrder: seq<char>)
    requires IsKeyOrder(keyOrder, text)
    ensures var r := SortedLeaves(text, keyOrder);
      && Sorted(r)
      && |r| == |keyOrder|
      && multiset(r) == multiset(LeavesFor(keyOrder, text))
      && (forall f :: WithFreq(r, f) == WithFreq(LeavesFor(keyOrder, text), f))
      && (forall i :: 0 <= i < |r| ==>
            r[i].Leaf? && r[i].ch in text && r[i].freq == multiset(text)[r[i].ch])
      && (forall c :: c in CharsOf(r) <==> c in text)
      && SumFreq(r) == |text|
  {
    var leaves := LeavesFor(keyOrder, text);
    var r := SortedLeaves(text, keyOrder);
    MergeSortedSorted(leaves);
    MergeSortedPermutation(leaves);
    forall f ensures WithFreq(r, f) == WithFreq(leaves, f) {
      MergeSortedStable(leaves, f);
    }
    forall i | 0 <= i < |r|
      ensures r[i].Leaf? && r[i].ch in text && r[i].freq == multiset(text)[r[i].ch]
    {
      assert r[i] in multiset(leaves);
      var k :| 0 <= k < |leaves| && leaves[k] == r[i];
    }
    CharsOfPermutation(r, leaves);
    forall c ensures c in CharsOf(r) <==> c in text {
      LeavesForChars(keyOrder, text, c);
    }
    SumFreqPermutation(r, leaves);
    LeavesForSum(keyOrder, text);
    CountsSumToLength(keyOrder, text);
  }

  /** The sorted leaves of a text hold as many distinct characters as
      leaves: one leaf per distinct character. */
  lemma SortedLeavesCount(text: seq<char>, keyOrder: seq<char>)
    requires IsKeyOrder(keyOrder, text)
    ensures var r := SortedLeaves(text, keyOrder);
      LeafCounts(r) == |keyOrder| && |CharsOf(r)| == |keyOrder|
  {
    var r := SortedLeaves(text, keyOrder);
    SortedLeavesProperties(text, keyOrder);
    AllLeavesCount(r);
    assert CharsOf(r) == set c | c in keyOrder;
    DistinctCard(keyOrder);
  }

  /** Counts the characters, makes one leaf per map entry in the map's
      iteration order, and merge-sorts the leaves by frequency. */
  method Sort(initialText: seq<char>, keyOrder: seq<char>) returns (res: seq<Node>)
    requires IsKeyOrder(keyOrder, initialText)
    ensures res == SortedLeaves(initialText, keyOrder)
    ensures Sorted(res) && |res| == |keyOrder|
    ensures forall f :: WithFreq(res, f) == WithFreq(LeavesFor(keyOrder, initialText), f)
    ensures forall i :: 0 <= i < |res| ==>
              res[i].Leaf? && res[i].ch in initialText && res[i].freq == multiset(initialText)[res[i].ch]
    ensures SumFreq(res) == |initialText|
    ensures initialText == [] ==> res == []
  {
    var text := initialText;
    var freq := GetFrequency(text);
    var leaves: seq<Node> := [];
    var i := 0;
    while i < |keyOrder|
      invariant 0 <= i <= |keyOrder|
      invariant leaves == LeavesFor(keyOrder[..i], text)
    {
      var c := keyOrder[i];
      assert keyOrder[..i + 1][..i] == keyOrder[..i];
      leaves := leaves + [Leaf(c, freq[c])];
      i := i + 1;
    }
    assert keyOrder[..|keyOrder|] == keyOrder;
    res := MergeSort.MergeSort(leaves);
    SortedLeavesProperties(text, keyOrder);
  }
}
