/** Counting how often each character occurs in a text. */
module FrequencyCounter {

  /** No character is listed twice. */
  predicate Distinct(keys: seq<char>) {
    forall i, j :: 0 <= i < j < |keys| ==> keys[i] != keys[j]
  }

  /** A list without repeats has as many distinct elements as entries. */
  lemma {:induction false} DistinctCard(keys: seq<char>)
    requires Distinct(keys)
    ensures |set c | c in keys| == |keys|
  {
    if keys != [] {
      var rest := keys[1..];
      assert Distinct(rest) by {
        forall i, j | 0 <= i < j < |rest| ensures rest[i] != rest[j] {
          assert rest[i] == keys[i + 1] && rest[j] == keys[j + 1];
        }
      }
      DistinctCard(rest);
      assert (set c | c in keys) == {keys[0]} + (set c | c in rest);
      assert keys[0] !in (set c | c in rest);
    }
  }

  /** Builds the count map in one pass: the first occurrence of a character
      puts 1, every later one adds 1. */
  method GetFrequency(text: seq<char>) returns (res: map<char, nat>)
    ensures forall c :: c in res <==> c in text
    ensures forall c :: c in res ==> res[c] == multiset(text)[c]
    ensures forall c :: c in res ==> res[c] >= 1
    ensures text == [] ==> res == map[]
  {
    res := map[];
    var i := 0;
    while i < |text|
      invariant 0 <= i <= |text|
      invariant forall c :: c in res <==> c in text[..i]
      invariant forall c :: c in res ==> res[c] == multiset(text[..i])[c]
    {
      var currChar := text[i];
      assert text[..i + 1] == text[..i] + [currChar];
      if currChar in res {
        res := res[currChar := res[currChar] + 1];
      } else {
        res := res[currChar := 1];
      }
      i := i + 1;
    }
    assert text[..|text|] == text;
  }

  /** The total of the counts `m` gives to the characters `keys`, taken in that order. */
  function SumCounts(keys: seq<char>, m: multiset<char>): nat {
    if keys == [] then 0 else SumCounts(keys[..|keys| - 1], m) + m[keys[|keys| - 1]]
  }

  lemma {:induction false} SumCountsAdd(keys: seq<char>, m1: multiset<char>, m2: multiset<char>)
    ensures SumCounts(keys, m1 + m2) == SumCounts(keys, m1) + SumCounts(keys, m2)
  {
    if keys != [] {
      SumCountsAdd(keys[..|keys| - 1], m1, m2);
    }
  }

  lemma {:induction false} SumCountsAbsent(keys: seq<char>, x: char)
    requires x !in keys
    ensures SumCounts(keys, multiset{x}) == 0
  {
    if keys != [] {
      assert keys[..|keys| - 1] <= keys;
      SumCountsAbsent(keys[..|keys| - 1], x);
    }
  }

  /** One occurrence of a listed character adds exactly one to the total. */
  lemma {:induction false} SumCountsSingle(keys: seq<char>, x: char)
    requires Distinct(keys) && x in keys
    ensures SumCounts(keys, multiset{x}) == 1
  {
    var init := keys[..|keys| - 1];
    assert keys == init + [keys[|keys| - 1]];
    if keys[|keys| - 1] == x {
      assert x !in init;
      SumCountsAbsent(init, x);
    } else {
      SumCountsSingle(init, x);
    }
  }

  lemma {:induction false} SumCountsEmpty(keys: seq<char>)
    ensures SumCounts(keys, multiset{}) == 0
  {
    if keys != [] {
      SumCountsEmpty(keys[..|keys| - 1]);
    }
  }

  /** Over any duplicate-free listing of the characters that occur, the counts
      add up to the length of the text. */
  lemma {:induction false} CountsSumToLength(keys: seq<char>, text: seq<char>)
    requires Distinct(keys)
    requires forall c :: c in text ==> c in keys
    ensures SumCounts(keys, multiset(text)) == |text|
  {
    if text == [] {
      SumCountsEmpty(keys);
    } else {
      var init := text[..|text| - 1];
      var x := text[|text| - 1];
      assert text == init + [x];
      assert multiset(text) == multiset(init) + multiset{x};
      CountsSumToLength(keys, init);
      SumCountsAdd(keys, multiset(init), multiset{x});
      SumCountsSingle(keys, x);
    }
  }
}
