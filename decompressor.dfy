/** Decoding a bit string greedily with the inverse of the code table. */
module Decompressor {
  import opened NodeModel
  import opened TreeModel
  import opened CodeGenerator
  import opened Compressor

  /** The inverse table built by visiting the entries in `keys` order: each
      code maps to its character, and a later character with the same code
      overwrites an earlier one. */
  function Inverse(code: map<char, string>, keys: seq<char>): (inv: map<string, char>)
    requires forall c :: c in keys ==> c in code
    ensures forall s :: s in inv ==> inv[s] in keys && code[inv[s]] == s
  {
    if keys == [] then map[]
    else
      var c := keys[|keys| - 1];
      Inverse(code, keys[..|keys| - 1])[code[c] := c]
  }

  /** `inv` maps exactly the codes of `code`, each to a character that has it. */
  ghost predicate InverseOf(inv: map<string, char>, code: map<char, string>) {
    && (forall s :: s in inv ==> inv[s] in code && code[inv[s]] == s)
    && (forall c :: c in code ==> code[c] in inv)
  }

  lemma {:induction false} InverseEntries(code: map<char, string>, keys: seq<char>)
    requires forall c :: c in keys ==> c in code
    ensures forall c :: c in keys ==> code[c] in Inverse(code, keys)
  {
    if keys != [] {
      InverseEntries(code, keys[..|keys| - 1]);
      assert keys == keys[..|keys| - 1] + [keys[|keys| - 1]];
    }
  }

  /** Whatever the visiting order, the table built is an inverse of the code
      table when every character is visited. */
  lemma InverseIsInverseOf(code: map<char, string>, keys: seq<char>)
    requires forall c :: c in keys <==> c in code
    ensures InverseOf(Inverse(code, keys), code)
  {
    InverseEntries(code, keys);
  }

  /** A character that no later-visited character shares its code with is
      the one its code maps back to: the last write wins. */
  lemma {:induction false} InverseLastWins(code: map<char, string>, keys: seq<char>, i: nat)
    requires forall c :: c in keys ==> c in code
    requires i < |keys|
    requires forall j :: i < j < |keys| ==> code[keys[j]] != code[keys[i]]
    ensures code[keys[i]] in Inverse(code, keys) && Inverse(code, keys)[code[keys[i]]] == keys[i]
  {
    if i < |keys| - 1 {
      var init := keys[..|keys| - 1];
      assert init[i] == keys[i];
      InverseLastWins(code, init, i);
    }
  }

  /** With prefix-free codes no two characters share a code, so an inverse
      sends each code back to its own character. */
  lemma InverseOfPrefixFree(inv: map<string, char>, code: map<char, string>, c: char)
    requires PrefixFree(code) && InverseOf(inv, code)
    requires c in code
    ensures code[c] in inv && inv[code[c]] == c
  {
    var d := inv[code[c]];
    assert code[d] == code[c];
  }

  /** The greedy decoder: append one bit to the buffer `curr`; when the buffer
      is a known code, emit its character and empty the buffer.  The empty
      buffer itself is never looked up, and a buffer left over at the end is
      dropped. */
  function DecodeFrom(bits: string, curr: string, inv: map<string, char>): (r: string)
    ensures |r| <= |bits|
    ensures forall i :: 0 <= i < |r| ==> r[i] in inv.Values
    decreases |bits|
  {
    if bits == [] then []
    else
      var next := curr + [bits[0]];
      if next in inv then [inv[next]] + DecodeFrom(bits[1..], "", inv)
      else DecodeFrom(bits[1..], next, inv)
  }

  /** Decoding from the empty buffer: no more characters than bits, only
      characters of the inverse table, and nothing from no bits. */
  function Decode(bits: string, inv: map<string, char>): (r: string)
    ensures |r| <= |bits|
    ensures forall i :: 0 <= i < |r| ==> r[i] in inv.Values
    ensures bits == [] ==> r == []
  {
    DecodeFrom(bits, "", inv)
  }

  /** Bits that never complete a code, together with the buffer, decode to
      nothing: they are dropped without an error. */
  lemma {:induction false} TrailingBitsDropped(bits: string, curr: string, inv: map<string, char>)
    requires forall k :: 1 <= k <= |bits| ==> curr + bits[..k] !in inv
    ensures DecodeFrom(bits, curr, inv) == []
    decreases |bits|
  {
    if bits != [] {
      var next := curr + [bits[0]];
      assert next == curr + bits[..1];
      forall k | 1 <= k <= |bits[1..]| ensures next + bits[1..][..k] !in inv {
        assert next + bits[1..][..k] == curr + bits[..k + 1];
      }
      TrailingBitsDropped(bits[1..], next, inv);
    }
  }

  /** Reading the rest `v` of a non-empty prefix-free codeword whose first
      part `u` is already buffered emits exactly that codeword's character:
      no shorter buffer is a code. */
  lemma {:induction false} DecodeCodeword(code: map<char, string>, inv: map<string, char>,
                                          c: char, u: string, v: string, rest: string)
    requires PrefixFree(code) && InverseOf(inv, code)
    requires c in code && code[c] == u + v && |v| >= 1
    ensures DecodeFrom(v + rest, u, inv) == [c] + DecodeFrom(rest, "", inv)
    decreases |v|
  {
    var next := u + [v[0]];
    assert (v + rest)[0] == v[0] && (v + rest)[1..] == v[1..] + rest;
    if |v| == 1 {
      assert next == code[c];
      InverseOfPrefixFree(inv, code, c);
    } else {
      assert code[c] == next + v[1..];
      assert |next| < |code[c]| && next <= code[c];
      assert next !in inv;
      DecodeCodeword(code, inv, c, next, v[1..], rest);
    }
  }

  /** Decoding the encoding of `t` followed by anything yields `t` followed by
      the decoding of the rest, when the table is prefix-free, has no empty
      code and holds every character of `t`. */
  lemma {:induction false} DecodeEncode(code: map<char, string>, inv: map<string, char>,
                                        t: string, rest: string)
    requires PrefixFree(code) && InverseOf(inv, code)
    requires forall c :: c in code ==> code[c] != []
    requires forall i :: 0 <= i < |t| ==> t[i] in code
    ensures DecodeFrom(Encode(t, code) + rest, "", inv) == t + DecodeFrom(rest, "", inv)
    decreases |t|
  {
    if t == [] {
      assert Encode(t, code) + rest == rest;
    } else {
      var init, x := t[..|t| - 1], t[|t| - 1];
      var w := code[x];
      var tail := DecodeFrom(rest, "", inv);
      assert Encode(t, code) + rest == Encode(init, code) + (w + rest) by {
        ConcatAssoc(Encode(init, code), w, rest);
      }
      assert DecodeFrom(w + rest, "", inv) == [x] + tail by {
        assert w == [] + w;
        DecodeCodeword(code, inv, x, [], w, rest);
      }
      DecodeEncode(code, inv, init, w + rest);
      InitLast(t);
      ConcatAssoc(init, [x], tail);
    }
  }

  /** The round trip: decoding an encoding gives the text back. */
  lemma RoundTrip(code: map<char, string>, inv: map<string, char>, t: string)
    requires PrefixFree(code) && InverseOf(inv, code)
    requires forall c :: c in code ==> code[c] != []
    requires forall i :: 0 <= i < |t| ==> t[i] in code
    ensures Decode(Encode(t, code), inv) == t
  {
    DecodeEncode(code, inv, t, []);
    assert Encode(t, code) + [] == Encode(t, code);
  }

  /** A table whose only code is empty encodes every text of its one
      character as nothing, which decodes to nothing: the text is lost. */
  lemma {:induction false} EmptyCodeLosesText(c: char, inv: map<string, char>, t: string)
    requires forall i :: 0 <= i < |t| ==> t[i] == c
    ensures Encode(t, map[c := ""]) == []
    ensures Decode(Encode(t, map[c := ""]), inv) == []
    decreases |t|
  {
    if t != [] {
      EmptyCodeLosesText(c, inv, t[..|t| - 1]);
    }
  }

  /** Builds the inverse table from the entries in `keyOrder` order, then
      reads the bits one at a time, emitting a character whenever the buffer
      equals a known code. */
  method Decompress(encodedText: string, tree: HuffmanTree, keyOrder: seq<char>)
    returns (res: string)
    requires forall c :: c in keyOrder <==> c in tree.code
    ensures res == Decode(encodedText, Inverse(tree.code, keyOrder))
    ensures encodedText == [] ==> res == []
  {
    var code := tree.code;
    var codeToLetter: map<string, char> := map[];
    var k := 0;
    while k < |keyOrder|
      invariant 0 <= k <= |keyOrder|
      invariant codeToLetter == Inverse(code, keyOrder[..k])
    {
      var c := keyOrder[k];
      assert keyOrder[..k + 1][..k] == keyOrder[..k];
      codeToLetter := codeToLetter[code[c] := c];
      k := k + 1;
    }
    assert keyOrder[..|keyOrder|] == keyOrder;
    var sb := "";
    var curr := "";
    var i := 0;
    while i < |encodedText|
      invariant 0 <= i <= |encodedText|
      invariant sb + DecodeFrom(encodedText[i..], curr, codeToLetter) == Decode(encodedText, codeToLetter)
    {
      assert encodedText[i..][0] == encodedText[i] && encodedText[i..][1..] == encodedText[i + 1..];
      curr := curr + [encodedText[i]];
      if curr in codeToLetter {
        sb := sb + [codeToLetter[curr]];
        curr := "";
      }
      i := i + 1;
    }
    assert sb + [] == sb;
    res := sb;
  }
}
