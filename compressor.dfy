/** Encoding a text as the concatenation of its characters' codes. */
module Compressor {
  import opened NodeModel
  import opened TreeModel

  /** What one table lookup appends: the character's code, or the four
      characters "null" when the table has no entry for it (the string form
      of the missing value; there is no error). */
  function CodeOf(code: map<char, string>, c: char): (r: string)
    ensures c in code ==> r == code[c]
    ensures c !in code ==> r == "null"
  {
    if c in code then code[c] else "null"
  }

  /** The codes of the characters of `text`, concatenated in text order;
      when every character has a non-empty code there is at least one bit
      per character. */
  function Encode(text: string, code: map<char, string>): (r: string)
    ensures (forall i :: 0 <= i < |text| ==> text[i] in code && code[text[i]] != []) ==>
              |r| >= |text|
  {
    if text == [] then [] else Encode(text[..|text| - 1], code) + CodeOf(code, text[|text| - 1])
  }

  /** The sum of the lengths of what each character appends. */
  function CodeLengths(text: string, code: map<char, string>): nat {
    if text == [] then 0 else |CodeOf(code, text[0])| + CodeLengths(text[1..], code)
  }

  /** Encoding is a homomorphism: the encoding of a concatenation is the
      concatenation of the encodings. */
  lemma {:induction false} EncodeConcat(s: string, t: string, code: map<char, string>)
    ensures Encode(s + t, code) == Encode(s, code) + Encode(t, code)
    decreases |t|
  {
    if t == [] {
      assert s + t == s;
    } else {
      var init := t[..|t| - 1];
      var last := t[|t| - 1];
      assert (s + t)[..|s + t| - 1] == s + init;
      assert (s + t)[|s + t| - 1] == last;
      EncodeConcat(s, init, code);
      ConcatAssoc(Encode(s, code), Encode(init, code), CodeOf(code, last));
    }
  }

  /** The output is as long as the codes of the text's characters together. */
  lemma {:induction false} EncodeLength(text: string, code: map<char, string>)
    ensures |Encode(text, code)| == CodeLengths(text, code)
  {
    if text != [] {
      assert text == [text[0]] + text[1..];
      EncodeConcat([text[0]], text[1..], code);
      EncodeLength(text[1..], code);
      assert [text[0]][..0] == [];
    }
  }

  /** A character missing from the table puts "null" into the output at its
      place, between the encodings of what comes before and after it. */
  lemma EncodeUnknownSymbol(s: string, c: char, t: string, code: map<char, string>)
    requires c !in code
    ensures Encode(s + [c] + t, code) == Encode(s, code) + "null" + Encode(t, code)
  {
    EncodeConcat(s + [c], t, code);
    EncodeConcat(s, [c], code);
    assert [c][..0] == [];
  }

  /** Appends, for each character of the text in order, its table entry. */
  method Compress(text: string, tree: HuffmanTree) returns (res: string)
    ensures res == Encode(text, tree.code)
    ensures |res| == CodeLengths(text, tree.code)
    ensures text == [] ==> res == []
  {
    var sb := "";
    var code := tree.code;
    var i := 0;
    while i < |text|
      invariant 0 <= i <= |text|
      invariant sb == Encode(text[..i], code)
    {
      var c := text[i];
      assert text[..i + 1][..i] == text[..i];
      sb := sb + CodeOf(code, c);
      i := i + 1;
    }
    assert text[..|text|] == text;
    EncodeLength(text, code);
    res := sb;
  }
}
