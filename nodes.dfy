/** Huffman tree nodes.

    The algorithms work on `Node` values: a node's children are attached once,
    when the merge that creates it happens, and never change afterwards, so a
    node is modelled as an immutable value.  `HuffmanNode` is the mutable
    object the model package exposes, with its constructor, setters and leaf
    test. */
module NodeModel {

  datatype Option<T> = None | Some(value: T)

  /** A leaf for one character, or an internal merge point with both children. */
  datatype Node =
    | Leaf(ch: char, freq: nat)
    | Internal(freq: nat, left: Node, right: Node)

  /** Ascending (non-decreasing) by frequency. */
  predicate Sorted(s: seq<Node>) {
    forall i, j :: 0 <= i < j < |s| ==> s[i].freq <= s[j].freq
  }

  /** Every internal node's frequency is the sum of its children's. */
  predicate WellFormed(t: Node) {
    match t
    case Leaf(_, _) => true
    case Internal(f, l, r) => f == l.freq + r.freq && WellFormed(l) && WellFormed(r)
  }

  /** The characters at the leaves of a tree. */
  function LeafChars(t: Node): set<char> {
    match t
    case Leaf(c, _) => {c}
    case Internal(_, l, r) => LeafChars(l) + LeafChars(r)
  }

  /** No character occurs at two leaves. */
  predicate DistinctLeaves(t: Node) {
    match t
    case Leaf(_, _) => true
    case Internal(_, l, r) =>
      DistinctLeaves(l) && DistinctLeaves(r) && LeafChars(l) !! LeafChars(r)
  }

  /** The number of leaves of a tree. */
  function LeafCount(t: Node): nat {
    match t
    case Leaf(_, _) => 1
    case Internal(_, l, r) => LeafCount(l) + LeafCount(r)
  }

  /** A tree has at most as many leaf characters as leaves, and exactly as
      many just when no character occurs at two leaves. */
  lemma {:induction false} LeafCharsCount(t: Node)
    ensures |LeafChars(t)| <= LeafCount(t)
    ensures |LeafChars(t)| == LeafCount(t) <==> DistinctLeaves(t)
  {
    match t
    case Leaf(_, _) =>
    case Internal(_, l, r) =>
      LeafCharsCount(l);
      LeafCharsCount(r);
      var a, b := LeafChars(l), LeafChars(r);
      assert |a + b| + |a * b| == |a| + |b|;
      if a !! b {
        assert a * b == {};
      } else {
        var x :| x in a && x in b;
        assert x in a * b;
      }
  }

  /** Total frequency of a list of nodes. */
  function SumFreq(s: seq<Node>): nat {
    if s == [] then 0 else s[0].freq + SumFreq(s[1..])
  }

  /** The characters at the leaves of all the trees in a list. */
  function CharsOf(s: seq<Node>): set<char> {
    if s == [] then {} else LeafChars(s[0]) + CharsOf(s[1..])
  }

  /** Total number of leaves of the trees in a list. */
  function LeafCounts(s: seq<Node>): nat {
    if s == [] then 0 else LeafCount(s[0]) + LeafCounts(s[1..])
  }

  lemma {:induction false} SumFreqConcat(s: seq<Node>, t: seq<Node>)
    ensures SumFreq(s + t) == SumFreq(s) + SumFreq(t)
  {
    if s != [] {
      assert (s + t)[1..] == s[1..] + t;
      SumFreqConcat(s[1..], t);
    } else {
      assert s + t == t;
    }
  }

  lemma {:induction false} LeafCountsConcat(s: seq<Node>, t: seq<Node>)
    ensures LeafCounts(s + t) == LeafCounts(s) + LeafCounts(t)
  {
    if s != [] {
      assert (s + t)[1..] == s[1..] + t;
      LeafCountsConcat(s[1..], t);
    } else {
      assert s + t == t;
    }
  }

  /** A list of leaves has one leaf per element. */
  lemma {:induction false} AllLeavesCount(s: seq<Node>)
    requires forall i :: 0 <= i < |s| ==> s[i].Leaf?
    ensures LeafCounts(s) == |s|
  {
    if s != [] {
      AllLeavesCount(s[1..]);
    }
  }

  /** Concatenation is associative. */
  lemma ConcatAssoc<T>(x: seq<T>, y: seq<T>, z: seq<T>)
    ensures x + (y + z) == (x + y) + z
  {
  }

  /** A non-empty sequence is its initial part followed by its last element. */
  lemma InitLast<T>(s: seq<T>)
    requires |s| > 0
    ensures s == s[..|s| - 1] + [s[|s| - 1]]
  {
  }

  /** A non-empty list holds its first element and the elements of its tail. */
  lemma HeadTail(s: seq<Node>)
    requires s != []
    ensures multiset(s) == multiset{s[0]} + multiset(s[1..])
  {
    assert s == [s[0]] + s[1..];
  }

  /** Cutting a list anywhere and joining the halves gives it back. */
  lemma SplitJoin(s: seq<Node>, k: nat)
    requires k <= |s|
    ensures s[..k] + s[k..] == s
  {
  }

  /** A list holds the elements of its two halves around any cut. */
  lemma SplitMultiset(s: seq<Node>, k: nat)
    requires k <= |s|
    ensures multiset(s) == multiset(s[..k]) + multiset(s[k..])
  {
    SplitJoin(s, k);
  }

  /** A list is what comes before position `i`, the element there, and what comes after. */
  lemma Decompose(t: seq<Node>, i: nat)
    requires i < |t|
    ensures t == t[..i] + ([t[i]] + t[i + 1..])
  {
    assert t[i..] == [t[i]] + t[i + 1..];
    assert t == t[..i] + t[i..];
  }

  /** Taking the element at `i` out of a list removes its frequency from the total. */
  lemma RemoveAt(t: seq<Node>, i: nat)
    requires i < |t|
    ensures SumFreq(t) == t[i].freq + SumFreq(t[..i] + t[i + 1..])
    ensures multiset(t[..i] + t[i + 1..]) == multiset(t) - multiset{t[i]}
  {
    Decompose(t, i);
    SumFreqConcat(t[..i], [t[i]] + t[i + 1..]);
    SumFreqConcat([t[i]], t[i + 1..]);
    SumFreqConcat(t[..i], t[i + 1..]);
  }

  /** Reordering a list does not change its total frequency. */
  lemma {:induction false} SumFreqPermutation(s: seq<Node>, t: seq<Node>)
    requires multiset(s) == multiset(t)
    ensures SumFreq(s) == SumFreq(t)
  {
    if s == [] {
      assert |multiset(t)| == 0;
    } else {
      assert s[0] in multiset(t);
      var i :| 0 <= i < |t| && t[i] == s[0];
      RemoveAt(t, i);
      HeadTail(s);
      SumFreqPermutation(s[1..], t[..i] + t[i + 1..]);
    }
  }

  lemma {:induction false} CharsOfConcat(s: seq<Node>, t: seq<Node>)
    ensures CharsOf(s + t) == CharsOf(s) + CharsOf(t)
  {
    if s != [] {
      assert (s + t)[1..] == s[1..] + t;
      CharsOfConcat(s[1..], t);
    } else {
      assert s + t == t;
    }
  }

  /** A character is in `CharsOf(s)` exactly when some tree of `s` has it at a leaf. */
  lemma {:induction false} CharsOfMember(s: seq<Node>, c: char)
    ensures c in CharsOf(s) <==> exists i :: 0 <= i < |s| && c in LeafChars(s[i])
  {
    if s != [] {
      CharsOfMember(s[1..], c);
      if c in CharsOf(s[1..]) {
        var i :| 0 <= i < |s[1..]| && c in LeafChars(s[1..][i]);
        assert c in LeafChars(s[i + 1]);
      }
      if exists i :: 0 <= i < |s| && c in LeafChars(s[i]) {
        var i :| 0 <= i < |s| && c in LeafChars(s[i]);
        if i > 0 {
          assert c in LeafChars(s[1..][i - 1]);
        }
      }
    }
  }

  /** Reordering a list does not change the characters at its leaves. */
  lemma CharsOfPermutation(s: seq<Node>, t: seq<Node>)
    requires multiset(s) == multiset(t)
    ensures CharsOf(s) == CharsOf(t)
  {
    forall c | c in CharsOf(s) ensures c in CharsOf(t) {
      CharsOfMember(s, c);
      var i :| 0 <= i < |s| && c in LeafChars(s[i]);
      assert s[i] in multiset(t);
      var j :| 0 <= j < |t| && t[j] == s[i];
      CharsOfMember(t, c);
    }
    forall c | c in CharsOf(t) ensures c in CharsOf(s) {
      CharsOfMember(t, c);
      var j :| 0 <= j < |t| && c in LeafChars(t[j]);
      assert t[j] in multiset(s);
      var i :| 0 <= i < |s| && s[i] == t[j];
      CharsOfMember(s, c);
    }
  }

  /** The mutable node object: a character (absent on merge points), a
      frequency and two child references. */
  class HuffmanNode {
    var character: Option<char>
    var frequency: int
    var left: HuffmanNode?
    var right: HuffmanNode?

    /** A new node holds the given character and frequency and has no children. */
    constructor (character: Option<char>, frequency: int)
      ensures this.character == character && this.frequency == frequency
      ensures left == null && right == null
      ensures IsLeaf()
    {
      this.character := character;
      this.frequency := frequency;
      left := null;
      right := null;
    }

    /** A node is a leaf exactly when it has neither child. */
    predicate IsLeaf(): (b: bool)
      reads this
      ensures b <==> left == null && right == null
    {
      left == null && right == null
    }

    method SetCharacter(character: Option<char>)
      modifies this
      ensures this.character == character
      ensures frequency == old(frequency) && left == old(left) && right == old(right)
    {
      this.character := character;
    }

    method SetFrequency(frequency: int)
      modifies this
      ensures this.frequency == frequency
      ensures character == old(character) && left == old(left) && right == old(right)
    {
      this.frequency := frequency;
    }

    method SetLeft(left: HuffmanNode?)
      modifies this
      ensures this.left == left
      ensures character == old(character) && frequency == old(frequency) && right == old(right)
    {
      this.left := left;
    }

    method SetRight(right: HuffmanNode?)
      modifies this
      ensures this.right == right
      ensures character == old(character) && frequency == old(frequency) && left == old(left)
    {
      this.right := right;
    }
  }
}
