/** Stable ascending merge sort of node lists by frequency. */
module MergeSort {
  import opened NodeModel

  /** The elements of `s` whose frequency is `f`, in their order in `s`.
      A reordering is stable when it keeps every such subsequence. */
  function WithFreq(s: seq<Node>, f: nat): seq<Node> {
    if s == [] then [] else (if s[0].freq == f then [s[0]] else []) + WithFreq(s[1..], f)
  }

  lemma {:induction false} WithFreqConcat(s: seq<Node>, t: seq<Node>, f: nat)
    ensures WithFreq(s + t, f) == WithFreq(s, f) + WithFreq(t, f)
  {
    if s == [] {
      assert s + t == t;
    } else {
      assert (s + t)[1..] == s[1..] + t;
      WithFreqConcat(s[1..], t, f);
      var h := if s[0].freq == f then [s[0]] else [];
      assert WithFreq(s + t, f) == h + WithFreq(s[1..] + t, f);
      ConcatAssoc(h, WithFreq(s[1..], f), WithFreq(t, f));
    }
  }

  /** A list with no element of frequency `f` has an empty `f` class. */
  lemma {:induction false} WithFreqAbsent(s: seq<Node>, f: nat)
    requires forall i :: 0 <= i < |s| ==> s[i].freq != f
    ensures WithFreq(s, f) == []
  {
    if s != [] {
      WithFreqAbsent(s[1..], f);
    }
  }

  /** The list the merge of `a` and `b` produces: on equal frequencies the
      element of `a` is taken first. */
  function Merged(a: seq<Node>, b: seq<Node>): (r: seq<Node>)
    ensures |r| == |a| + |b|
    decreases |a| + |b|
  {
    if a == [] then b
    else if b == [] then a
    else if a[0].freq <= b[0].freq then [a[0]] + Merged(a[1..], b)
    else [b[0]] + Merged(a, b[1..])
  }

  /** The merge is a permutation of its two inputs together. */
  lemma {:induction false} MergedPermutation(a: seq<Node>, b: seq<Node>)
    ensures multiset(Merged(a, b)) == multiset(a) + multiset(b)
    decreases |a| + |b|
  {
    if a != [] && b != [] {
      if a[0].freq <= b[0].freq {
        MergedPermutation(a[1..], b);
        HeadTail(a);
        assert Merged(a, b) == [a[0]] + Merged(a[1..], b);
      } else {
        MergedPermutation(a, b[1..]);
        HeadTail(b);
        assert Merged(a, b) == [b[0]] + Merged(a, b[1..]);
      }
    }
  }

  /** A list that is sorted and starts with an element no larger than the rest. */
  lemma ConsSorted(x: Node, s: seq<Node>)
    requires Sorted(s)
    requires forall y :: y in s ==> x.freq <= y.freq
    ensures Sorted([x] + s)
  {
    forall i, j | 0 <= i < j < |[x] + s| ensures ([x] + s)[i].freq <= ([x] + s)[j].freq {
      if i > 0 {
        assert ([x] + s)[i] == s[i - 1] && ([x] + s)[j] == s[j - 1];
      } else {
        assert ([x] + s)[j] in s;
      }
    }
  }

  /** Merging two ascending lists gives an ascending list. */
  lemma {:induction false} MergedSorted(a: seq<Node>, b: seq<Node>)
    requires Sorted(a) && Sorted(b)
    ensures Sorted(Merged(a, b))
    decreases |a| + |b|
  {
    if a != [] && b != [] {
      if a[0].freq <= b[0].freq {
        var rest := Merged(a[1..], b);
        MergedSorted(a[1..], b);
        MergedPermutation(a[1..], b);
        forall y | y in rest ensures a[0].freq <= y.freq {
          assert y in multiset(rest);
          if y in a[1..] {
            var k :| 0 <= k < |a[1..]| && a[1..][k] == y;
            assert a[k + 1] == y;
          } else {
            assert y in b;
          }
        }
        ConsSorted(a[0], rest);
      } else {
        var rest := Merged(a, b[1..]);
        MergedSorted(a, b[1..]);
        MergedPermutation(a, b[1..]);
        forall y | y in rest ensures b[0].freq <= y.freq {
          assert y in multiset(rest);
          if y in b[1..] {
            var k :| 0 <= k < |b[1..]| && b[1..][k] == y;
            assert b[k + 1] == y;
          } else {
            assert y in a;
          }
        }
        ConsSorted(b[0], rest);
      }
    }
  }

  /** Merging two ascending lists is stable: in each frequency class the
      elements of `a` come first, in their order, then those of `b`. */
  lemma {:induction false} MergedStable(a: seq<Node>, b: seq<Node>, f: nat)
    requires Sorted(a) && Sorted(b)
    ensures WithFreq(Merged(a, b), f) == WithFreq(a, f) + WithFreq(b, f)
    decreases |a| + |b|
  {
    if a == [] {
      assert WithFreq(a, f) == [];
    } else if b == [] {
      assert WithFreq(b, f) == [];
    } else if a[0].freq <= b[0].freq {
      var rest := Merged(a[1..], b);
      MergedStable(a[1..], b, f);
      assert ([a[0]] + rest)[1..] == rest;
      var h := if a[0].freq == f then [a[0]] else [];
      assert WithFreq(Merged(a, b), f) == h + WithFreq(rest, f);
      ConcatAssoc(h, WithFreq(a[1..], f), WithFreq(b, f));
    } else {
      var rest := Merged(a, b[1..]);
      MergedStable(a, b[1..], f);
      assert ([b[0]] + rest)[1..] == rest;
      var h := if b[0].freq == f then [b[0]] else [];
      assert WithFreq(Merged(a, b), f) == h + WithFreq(rest, f);
      assert WithFreq(b, f) == h + WithFreq(b[1..], f);
      if b[0].freq == f {
        WithFreqAbsent(a, f);
        assert [] + WithFreq(b[1..], f) == WithFreq(b[1..], f);
      } else {
        assert [] + (WithFreq(a, f) + WithFreq(b[1..], f)) == WithFreq(a, f) + WithFreq(b[1..], f);
      }
    }
  }

  lemma MergedSortedStable(a: seq<Node>, b: seq<Node>)
    requires Sorted(a) && Sorted(b)
    ensures Sorted(Merged(a, b))
    ensures forall f :: WithFreq(Merged(a, b), f) == WithFreq(a, f) + WithFreq(b, f)
  {
    MergedSorted(a, b);
    forall f ensures WithFreq(Merged(a, b), f) == WithFreq(a, f) + WithFreq(b, f) {
      MergedStable(a, b, f);
    }
  }

  /** The list `mergeSort` returns. */
  function MergeSorted(a: seq<Node>): (r: seq<Node>)
    ensures |r| == |a|
    decreases |a|
  {
    if |a| <= 1 then a
    else Merged(MergeSorted(a[..|a| / 2]), MergeSorted(a[|a| / 2..]))
  }

  /** Sorting only reorders. */
  lemma {:induction false} MergeSortedPermutation(a: seq<Node>)
    ensures multiset(MergeSorted(a)) == multiset(a)
    decreases |a|
  {
    if |a| > 1 {
      var mid := |a| / 2;
      MergeSortedPermutation(a[..mid]);
      MergeSortedPermutation(a[mid..]);
      MergedPermutation(MergeSorted(a[..mid]), MergeSorted(a[mid..]));
      SplitMultiset(a, mid);
    }
  }

  lemma {:induction false} MergeSortedSorted(a: seq<Node>)
    ensures Sorted(MergeSorted(a))
    decreases |a|
  {
    if |a| > 1 {
      MergeSortedSorted(a[..|a| / 2]);
      MergeSortedSorted(a[|a| / 2..]);
      MergedSorted(MergeSorted(a[..|a| / 2]), MergeSorted(a[|a| / 2..]));
    }
  }

  lemma {:induction false} MergeSortedStable(a: seq<Node>, f: nat)
    ensures WithFreq(MergeSorted(a), f) == WithFreq(a, f)
    decreases |a|
  {
    if |a| > 1 {
      var mid := |a| / 2;
      var left, right := MergeSorted(a[..mid]), MergeSorted(a[mid..]);
      MergeSortedStable(a[..mid], f);
      MergeSortedStable(a[mid..], f);
      MergeSortedSorted(a[..mid]);
      MergeSortedSorted(a[mid..]);
      MergedStable(left, right, f);
      assert WithFreq(MergeSorted(a), f) == WithFreq(a[..mid], f) + WithFreq(a[mid..], f);
      WithFreqConcat(a[..mid], a[mid..], f);
      SplitJoin(a, mid);
    }
  }

  /** The merge of what is left of `a` and `b` from positions `i` and `j`. */
  ghost function MergedFrom(a: seq<Node>, b: seq<Node>, i: nat, j: nat): seq<Node>
    requires i <= |a| && j <= |b|
    decreases |a| - i + |b| - j
  {
    if i == |a| then b[j..]
    else if j == |b| then a[i..]
    else if a[i].freq <= b[j].freq then [a[i]] + MergedFrom(a, b, i + 1, j)
    else [b[j]] + MergedFrom(a, b, i, j + 1)
  }

  /** Merging from positions is merging the remaining suffixes. */
  lemma {:induction false} MergedFromSuffixes(a: seq<Node>, b: seq<Node>, i: nat, j: nat)
    requires i <= |a| && j <= |b|
    ensures MergedFrom(a, b, i, j) == Merged(a[i..], b[j..])
    decreases |a| - i + |b| - j
  {
    if i < |a| && j < |b| {
      assert a[i..][0] == a[i] && a[i..][1..] == a[i + 1..];
      assert b[j..][0] == b[j] && b[j..][1..] == b[j + 1..];
      if a[i].freq <= b[j].freq {
        MergedFromSuffixes(a, b, i + 1, j);
      } else {
        MergedFromSuffixes(a, b, i, j + 1);
      }
    } else if i == |a| {
      assert a[i..] == [];
    } else {
      assert b[j..] == [];
    }
  }

  /** Moving one element from the front of the rest onto the end of the output. */
  lemma Shift(res: seq<Node>, x: Node, rest: seq<Node>, whole: seq<Node>)
    requires res + ([x] + rest) == whole
    ensures (res + [x]) + rest == whole
  {
    ConcatAssoc(res, [x], rest);
  }

  /** Merges two lists, taking from `a` while its head is no larger than `b`'s. */
  method Merge(a: seq<Node>, b: seq<Node>) returns (res: seq<Node>)
    ensures res == Merged(a, b)
    ensures |res| == |a| + |b| && multiset(res) == multiset(a) + multiset(b)
    ensures Sorted(a) && Sorted(b) ==> Sorted(res)
    ensures Sorted(a) && Sorted(b) ==>
              forall f :: WithFreq(res, f) == WithFreq(a, f) + WithFreq(b, f)
  {
    res := [];
    var i, j := 0, 0;
    ghost var whole := MergedFrom(a, b, 0, 0);
    while i < |a| && j < |b|
      invariant 0 <= i <= |a| && 0 <= j <= |b|
      invariant res + MergedFrom(a, b, i, j) == whole
    {
      if a[i].freq <= b[j].freq {
        Shift(res, a[i], MergedFrom(a, b, i + 1, j), whole);
        res := res + [a[i]];
        i := i + 1;
      } else {
        Shift(res, b[j], MergedFrom(a, b, i, j + 1), whole);
        res := res + [b[j]];
        j := j + 1;
      }
    }
    while i < |a|
      invariant 0 <= i <= |a| && (i == |a| || j == |b|)
      invariant res + MergedFrom(a, b, i, j) == whole
    {
      assert a[i..] == [a[i]] + a[i + 1..];
      Shift(res, a[i], MergedFrom(a, b, i + 1, j), whole);
      res := res + [a[i]];
      i := i + 1;
    }
    while j < |b|
      invariant 0 <= j <= |b|
      invariant res + MergedFrom(a, b, i, j) == whole
    {
      assert b[j..] == [b[j]] + b[j + 1..];
      Shift(res, b[j], MergedFrom(a, b, i, j + 1), whole);
      res := res + [b[j]];
      j := j + 1;
    }
    assert res + [] == res;
    MergedFromSuffixes(a, b, 0, 0);
    assert a[0..] == a && b[0..] == b;
    MergedPermutation(a, b);
    if Sorted(a) && Sorted(b) {
      MergedSortedStable(a, b);
    }
  }

  /** Sorts by splitting at the middle and merging the sorted halves. */
  method MergeSort(a: seq<Node>) returns (r: seq<Node>)
    ensures r == MergeSorted(a)
    ensures |a| <= 1 ==> r == a
    ensures Sorted(r) && multiset(r) == multiset(a)
    ensures forall f :: WithFreq(r, f) == WithFreq(a, f)
    decreases |a|
  {
    if |a| <= 1 {
      return a;
    }
    var mid := |a| / 2;
    var left := MergeSort(a[..mid]);
    var right := MergeSort(a[mid..]);
    r := Merge(left, right);
    SplitJoin(a, mid);
    forall f ensures WithFreq(r, f) == WithFreq(a, f) {
      WithFreqConcat(a[..mid], a[mid..], f);
    }
  }
}
