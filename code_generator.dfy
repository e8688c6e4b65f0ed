/** Assigning each leaf character the path from the root to its leaf. */
module CodeGenerator {
  import opened NodeModel

  /** No code is a prefix of the code of another character. */
  ghost predicate PrefixFree(code: map<char, string>) {
    forall a, b :: a in code && b in code && a != b ==> !(code[a] <= code[b])
  }

  /** `path` ('0' = left, '1' = right) leads from `t` to a leaf holding `c`. */
  ghost predicate LeadsTo(t: Node, path: string, c: char)
    decreases t
  {
    match t
    case Leaf(d, _) => path == [] && d == c
    case Internal(_, l, r) =>
      |path| > 0 &&
      ((path[0] == '0' && LeadsTo(l, path[1..], c)) || (path[0] == '1' && LeadsTo(r, path[1..], c)))
  }

  /** The table the traversal from `t` with accumulated path `prefix` writes:
      each leaf character gets `prefix` followed by its path, and every code
      extends `prefix`; below an internal node every code is strictly longer.
      Where a character sits at two leaves the later write, the right one, wins. */
  function CodeTable(t: Node, prefix: string): (m: map<char, string>)
    ensures m.Keys == LeafChars(t)
    ensures forall c :: c in m ==> prefix <= m[c]
    ensures t.Internal? ==> forall c :: c in m ==> |m[c]| > |prefix|
  {
    match t
    case Leaf(c, _) => map[c := prefix]
    case Internal(_, l, r) => CodeTable(l, prefix + "0") + CodeTable(r, prefix + "1")
  }

  /** Walks the tree: a leaf puts the accumulated path for its character and
      stops; an internal node recurses left with "0" and then right with "1".
      Entries for characters not in the tree are left as they were. */
  method GenerateCode(tree: Node, codeMap: map<char, string>, encoding: string)
    returns (m: map<char, string>)
    ensures m == codeMap + CodeTable(tree, encoding)
    ensures m.Keys == codeMap.Keys + LeafChars(tree)
    ensures forall c :: c in codeMap && c !in LeafChars(tree) ==> m[c] == codeMap[c]
    ensures tree.Leaf? ==> m == codeMap[tree.ch := encoding]
    decreases tree
  {
    if tree.Leaf? {
      m := codeMap[tree.ch := encoding];
      return;
    }
    m := GenerateCode(tree.left, codeMap, encoding + "0");
    m := GenerateCode(tree.right, m, encoding + "1");
    UnionAssociative(codeMap, CodeTable(tree.left, encoding + "0"), CodeTable(tree.right, encoding + "1"));
  }

  lemma UnionAssociative(a: map<char, string>, b: map<char, string>, c: map<char, string>)
    ensures (a + b) + c == a + (b + c)
  {
  }

  /** Writing a table into an empty map gives that table. */
  lemma UnionEmpty(m: map<char, string>)
    ensures map[] + m == m
  {
  }

  /** The codes of any tree are prefix-free: two different characters end at
      different leaves, and the first bit where their paths part differs. */
  lemma {:induction false} CodeTablePrefixFree(t: Node, prefix: string)
    ensures PrefixFree(CodeTable(t, prefix))
  {
    match t
    case Leaf(_, _) =>
    case Internal(_, l, r) =>
      var p0, p1 := prefix + "0", prefix + "1";
      var lt, rt := CodeTable(l, p0), CodeTable(r, p1);
      var m := CodeTable(t, prefix);
      CodeTablePrefixFree(l, p0);
      CodeTablePrefixFree(r, p1);
      forall a, b | a in m && b in m && a != b ensures !(m[a] <= m[b]) {
        var k := |prefix|;
        if a in rt && b !in rt {
          assert p1 <= m[a] && p0 <= m[b];
          assert m[a][k] == '1' && m[b][k] == '0';
        } else if a !in rt && b in rt {
          assert p0 <= m[a] && p1 <= m[b];
          assert m[a][k] == '0' && m[b][k] == '1';
        }
      }
  }

  /** A code extending `prefix` and then bit `b`, read from the end of the
      prefix, starts with `b` and continues with the rest. */
  lemma PathStep(code: string, prefix: string, b: char)
    requires prefix + [b] <= code
    ensures |code[|prefix|..]| > 0 && code[|prefix|..][0] == b
    ensures code[|prefix|..][1..] == code[|prefix| + 1..]
  {
    assert code[|prefix|] == (prefix + [b])[|prefix|];
  }

  /** Each character's code, after the prefix, is a path to a leaf holding it. */
  lemma {:induction false} CodeIsPath(t: Node, prefix: string, c: char)
    requires c in CodeTable(t, prefix)
    ensures LeadsTo(t, CodeTable(t, prefix)[c][|prefix|..], c)
  {
    match t
    case Leaf(_, _) =>
    case Internal(_, l, r) =>
      var code := CodeTable(t, prefix)[c];
      if c in CodeTable(r, prefix + "1") {
        CodeIsPath(r, prefix + "1", c);
        PathStep(code, prefix, '1');
      } else {
        CodeIsPath(l, prefix + "0", c);
        PathStep(code, prefix, '0');
      }
  }

  lemma {:induction false} LeadsToLeaf(t: Node, path: string, c: char)
    requires LeadsTo(t, path, c)
    ensures c in LeafChars(t)
  {
    match t
    case Leaf(_, _) =>
    case Internal(_, l, r) =>
      if path[0] == '0' && LeadsTo(l, path[1..], c) {
        LeadsToLeaf(l, path[1..], c);
      } else {
        LeadsToLeaf(r, path[1..], c);
      }
  }

  /** Moving the first bit of a path onto the prefix. */
  lemma ExtendPrefix(prefix: string, path: string)
    requires |path| > 0
    ensures prefix + [path[0]] + path[1..] == prefix + path
  {
    assert path == [path[0]] + path[1..];
    ConcatAssoc(prefix, [path[0]], path[1..]);
  }

  /** When no character sits at two leaves, a path to the leaf of `c` is
      exactly the code of `c` after the prefix. */
  lemma {:induction false} PathIsCode(t: Node, prefix: string, path: string, c: char)
    requires DistinctLeaves(t)
    requires LeadsTo(t, path, c)
    ensures c in CodeTable(t, prefix) && CodeTable(t, prefix)[c] == prefix + path
  {
    match t
    case Leaf(_, _) =>
    case Internal(_, l, r) =>
      if path[0] == '0' && LeadsTo(l, path[1..], c) {
        PathIsCode(l, prefix + "0", path[1..], c);
        LeadsToLeaf(l, path[1..], c);
        assert c !in CodeTable(r, prefix + "1");
        ExtendPrefix(prefix, path);
      } else {
        PathIsCode(r, prefix + "1", path[1..], c);
        ExtendPrefix(prefix, path);
      }
  }
}
