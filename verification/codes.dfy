/** Code generation: a walk from the root that records, at each leaf, the
    path taken to reach it, with 0 for a step to the left child and 1 for a
    step to the right child. */
module CodeTable {
  import opened Results
  import opened Bits
  import opened HuffmanTree

  /** The subtree reached by following `path` from the root, if the path
      does not run off a leaf. */
  function Follow(t: Tree, path: Code): Option<Tree>
    decreases |path|
  {
    if |path| == 0 then Some(t)
    else match t
      case Leaf(_, _) => None
      case Node(_, l, r) => Follow(if path[0] == 0 then l else r, path[1..])
  }

  /** Following `path` from the root ends exactly at a leaf labelled `c`. */
  predicate LeafAt(t: Tree, path: Code, c: char) {
    var s := Follow(t, path);
    s.Some? && s.value.Leaf? && s.value.ch == c
  }

  /** The walk, threading the table through the left subtree and then the
      right: a leaf records the current prefix for its character (replacing
      any earlier entry), an internal node extends the prefix by 0 and by 1.
      Keys already present and not met again keep their codes. */
  function BuildCodes(node: Tree, prefix: Code, codes: map<char, Code>): (r: map<char, Code>)
    ensures r.Keys == codes.Keys + LeafSet(node)
    ensures forall c :: c in codes && c !in LeafSet(node) ==> r[c] == codes[c]
  {
    match node
    case Leaf(c, _) => codes[c := prefix]
    case Node(_, l, rt) => BuildCodes(rt, prefix + [1], BuildCodes(l, prefix + [0], codes))
  }

  /** The table for a whole tree: the walk from the root with the empty
      prefix and an empty table. */
  function Codes(t: Tree): (codes: map<char, Code>)
    ensures codes.Keys == LeafSet(t)
  {
    BuildCodes(t, [], map[])
  }

  /** `code` extends `prefix` by a path from the root of `t` to the leaf
      labelled `c`. */
  predicate PathBelow(t: Tree, prefix: Code, code: Code, c: char) {
    IsPrefix(prefix, code) && LeafAt(t, code[|prefix|..], c)
  }

  /** With distinct leaf characters, each leaf's character is recorded with
      the prefix followed by the path to that leaf. */
  lemma {:induction false} BuildCodesPaths(t: Tree, prefix: Code, codes: map<char, Code>)
    requires DistinctLeaves(t)
    ensures forall c :: c in LeafSet(t) ==> PathBelow(t, prefix, BuildCodes(t, prefix, codes)[c], c)
  {
    match t
    case Leaf(_, _) =>
    case Node(_, l, rt) =>
      var m := BuildCodes(l, prefix + [0], codes);
      var r := BuildCodes(rt, prefix + [1], m);
      BuildCodesPaths(l, prefix + [0], codes);
      BuildCodesPaths(rt, prefix + [1], m);
      forall c | c in LeafSet(t)
        ensures PathBelow(t, prefix, r[c], c)
      {
        var code := r[c];
        var b := if c in LeafSet(l) then 0 else 1;
        var sub := if b == 0 then l else rt;
        assert PathBelow(sub, prefix + [b], code, c);
        assert code[..|prefix|] == (prefix + [b])[..|prefix|];
        assert code[|prefix|..] == [b] + code[|prefix| + 1..];
      }
  }

  /** Following `p` then `s` is following `p + s`. */
  lemma {:induction false} FollowAppend(t: Tree, p: Code, s: Code)
    requires Follow(t, p).Some?
    ensures Follow(t, p + s) == Follow(Follow(t, p).value, s)
    decreases |p|
  {
    if 0 < |p| {
      match t
      case Leaf(_, _) =>
      case Node(_, l, r) =>
        assert (p + s)[1..] == p[1..] + s;
        FollowAppend(if p[0] == 0 then l else r, p[1..], s);
    } else {
      assert p + s == s;
    }
  }

  /** A leaf reached by a path is one of the tree's leaves. */
  lemma {:induction false} LeafAtInLeafSet(t: Tree, path: Code, c: char)
    requires LeafAt(t, path, c)
    ensures c in LeafSet(t)
    decreases |path|
  {
    if 0 < |path| {
      match t
      case Node(_, l, r) =>
        LeafAtInLeafSet(if path[0] == 0 then l else r, path[1..], c);
    }
  }

  /** With distinct leaf characters, a character labels the end of at most
      one path. */
  lemma {:induction false} LeafPathUnique(t: Tree, p: Code, p': Code, c: char)
    requires DistinctLeaves(t) && LeafAt(t, p, c) && LeafAt(t, p', c)
    ensures p == p'
    decreases |p|
  {
    match t
    case Leaf(_, _) =>
    case Node(_, l, r) =>
      var sub := if p[0] == 0 then l else r;
      var sub' := if p'[0] == 0 then l else r;
      LeafAtInLeafSet(sub, p[1..], c);
      LeafAtInLeafSet(sub', p'[1..], c);
      assert p[0] == p'[0];
      LeafPathUnique(sub, p[1..], p'[1..], c);
      assert p == [p[0]] + p[1..];
      assert p' == [p'[0]] + p'[1..];
  }

  /** The table maps exactly the leaf characters, and a character's code is
      the path from the root to its leaf: a path ends at the leaf labelled
      `c` if and only if it is the code of `c`. */
  lemma CodesArePaths(t: Tree)
    requires DistinctLeaves(t)
    ensures Codes(t).Keys == LeafSet(t)
    ensures forall c, p :: LeafAt(t, p, c) <==> c in Codes(t) && Codes(t)[c] == p
  {
    BuildCodesPaths(t, [], map[]);
    forall c, p
      ensures LeafAt(t, p, c) <==> c in Codes(t) && Codes(t)[c] == p
    {
      if c in Codes(t) {
        assert Codes(t)[c][0..] == Codes(t)[c];
      }
      if LeafAt(t, p, c) {
        LeafAtInLeafSet(t, p, c);
        assert Codes(t)[c][0..] == Codes(t)[c];
        LeafPathUnique(t, p, Codes(t)[c], c);
      }
    }
  }

  /** No code of one character is a prefix of, or equal to, the code of
      another. */
  ghost predicate PrefixFree(codes: map<char, Code>) {
    forall a, b :: a in codes && b in codes && a != b ==> !IsPrefix(codes[a], codes[b])
  }

  /** The codes of a tree with distinct leaf characters are prefix-free:
      following a shorter code ends at a leaf, from which no longer path
      continues. */
  lemma CodesPrefixFree(t: Tree)
    requires DistinctLeaves(t)
    ensures PrefixFree(Codes(t))
  {
    var codes := Codes(t);
    CodesArePaths(t);
    forall a, b | a in codes && b in codes && a != b
      ensures !IsPrefix(codes[a], codes[b])
    {
      assert LeafAt(t, codes[a], a) && LeafAt(t, codes[b], b);
      if IsPrefix(codes[a], codes[b]) {
        var rest := codes[b][|codes[a]|..];
        assert codes[b] == codes[a] + rest;
        FollowAppend(t, codes[a], rest);
      }
    }
  }

  /** A tree has an internal root exactly when every code is non-empty; a
      single leaf gets the empty code. */
  lemma CodesNonEmpty(t: Tree)
    requires DistinctLeaves(t)
    ensures t.Node? <==> forall c :: c in Codes(t) ==> |Codes(t)[c]| > 0
    ensures t.Leaf? ==> Codes(t) == map[t.ch := []]
  {
    CodesArePaths(t);
    if t.Node? {
      forall c | c in Codes(t)
        ensures |Codes(t)[c]| > 0
      {
        assert LeafAt(t, Codes(t)[c], c);
      }
    } else {
      assert t.ch in Codes(t);
    }
  }
}
