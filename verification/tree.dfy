/** The Huffman tree. A leaf carries a character and its count; an internal
    node carries no character, the sum of its children's counts, and exactly
    two children. A forest is the content of the priority queue: a sequence
    of trees whose order is irrelevant to what it holds. */
module HuffmanTree {
  import opened Frequency

  datatype Tree = Leaf(ch: char, freq: nat) | Node(freq: nat, left: Tree, right: Tree)

  /** Trees are compared by their counts alone, strictly. */
  predicate Less(a: Tree, b: Tree) {
    a.freq < b.freq
  }

  /** Every internal node's count is the sum of its children's. */
  ghost predicate WellFormed(t: Tree) {
    match t
    case Leaf(_, _) => true
    case Node(f, l, r) => f == l.freq + r.freq && WellFormed(l) && WellFormed(r)
  }

  /** The (character, count) pairs at the leaves, with multiplicity. */
  function LeafEntries(t: Tree): multiset<Entry> {
    match t
    case Leaf(c, f) => multiset{(c, f)}
    case Node(_, l, r) => LeafEntries(l) + LeafEntries(r)
  }

  /** The characters at the leaves. */
  function LeafSet(t: Tree): set<char> {
    match t
    case Leaf(c, _) => {c}
    case Node(_, l, r) => LeafSet(l) + LeafSet(r)
  }

  /** The leaf characters are the characters of the leaf entries. */
  lemma {:induction false} LeafSetEntries(t: Tree)
    ensures forall e :: e in LeafEntries(t) ==> e.0 in LeafSet(t)
    ensures forall c :: c in LeafSet(t) ==> exists f: nat :: (c, f) in LeafEntries(t)
  {
    match t
    case Leaf(_, _) =>
    case Node(_, l, r) =>
      LeafSetEntries(l);
      LeafSetEntries(r);
  }

  /** No character labels two leaves. */
  ghost predicate DistinctLeaves(t: Tree) {
    match t
    case Leaf(_, _) => true
    case Node(_, l, r) => LeafSet(l) !! LeafSet(r) && DistinctLeaves(l) && DistinctLeaves(r)
  }

  /** Each entry occurs once and no two entries share a character. */
  ghost predicate UniqueChars(m: multiset<Entry>) {
    && (forall e :: e in m ==> m[e] == 1)
    && (forall e, e' :: e in m && e' in m && e.0 == e'.0 ==> e == e')
  }

  /** Uniqueness of a union holds of each part, and the parts share no
      character. */
  lemma UniqueSplit(a: multiset<Entry>, b: multiset<Entry>)
    requires UniqueChars(a + b)
    ensures UniqueChars(a) && UniqueChars(b)
    ensures forall e, e' :: e in a && e' in b ==> e.0 != e'.0
  {
    forall e | e in a
      ensures a[e] == 1
    {
      assert (a + b)[e] == a[e] + b[e];
    }
    forall e | e in b
      ensures b[e] == 1
    {
      assert (a + b)[e] == a[e] + b[e];
    }
    forall e, e' | e in a && e' in a && e.0 == e'.0
      ensures e == e'
    {
      assert e in a + b && e' in a + b;
    }
    forall e, e' | e in b && e' in b && e.0 == e'.0
      ensures e == e'
    {
      assert e in a + b && e' in a + b;
    }
    forall e, e' | e in a && e' in b
      ensures e.0 != e'.0
    {
      assert (a + b)[e] == a[e] + b[e];
      assert (a + b)[e'] == a[e'] + b[e'];
    }
  }

  /** A tree whose leaf entries are unique has distinct leaf characters. */
  lemma {:induction false} UniqueLeavesDistinct(t: Tree)
    requires UniqueChars(LeafEntries(t))
    ensures DistinctLeaves(t)
  {
    match t
    case Leaf(_, _) =>
    case Node(_, l, r) =>
      LeafSetEntries(l);
      LeafSetEntries(r);
      UniqueSplit(LeafEntries(l), LeafEntries(r));
      UniqueLeavesDistinct(l);
      UniqueLeavesDistinct(r);
      forall c | c in LeafSet(l)
        ensures c !in LeafSet(r)
      {
        var f: nat :| (c, f) in LeafEntries(l);
      }
  }

  /** A tree with distinct leaf characters has as many characters as
      leaves, so an internal node has at least two. */
  lemma {:induction false} NodeHasTwoChars(t: Tree)
    requires DistinctLeaves(t)
    ensures t.Node? <==> |LeafSet(t)| >= 2
  {
    match t
    case Leaf(_, _) =>
    case Node(_, l, r) =>
      LeafSetNonEmpty(l);
      LeafSetNonEmpty(r);
      assert |LeafSet(l) + LeafSet(r)| == |LeafSet(l)| + |LeafSet(r)|;
  }

  lemma {:induction false} LeafSetNonEmpty(t: Tree)
    ensures |LeafSet(t)| >= 1
  {
    match t
    case Leaf(c, _) =>
    case Node(_, l, r) =>
      LeafSetNonEmpty(l);
      var c :| c in LeafSet(l);
      assert c in LeafSet(t);
  }

  /** All leaf entries of a forest. */
  function ForestEntries(q: seq<Tree>): multiset<Entry> {
    if |q| == 0 then multiset{} else ForestEntries(q[..|q| - 1]) + LeafEntries(q[|q| - 1])
  }

  /** The sum of the root counts of a forest. */
  function ForestWeight(q: seq<Tree>): nat {
    if |q| == 0 then 0 else ForestWeight(q[..|q| - 1]) + q[|q| - 1].freq
  }

  lemma {:induction false} ForestConcat(a: seq<Tree>, b: seq<Tree>)
    ensures ForestEntries(a + b) == ForestEntries(a) + ForestEntries(b)
    ensures ForestWeight(a + b) == ForestWeight(a) + ForestWeight(b)
    decreases |b|
  {
    if |b| == 0 {
      assert a + b == a;
    } else {
      assert (a + b)[..|a + b| - 1] == a + b[..|b| - 1];
      ForestConcat(a, b[..|b| - 1]);
    }
  }

  /** Taking one tree out of a forest takes out exactly its leaves and its
      weight. */
  lemma RemoveTree(b: seq<Tree>, k: nat)
    requires k < |b|
    ensures var b' := b[..k] + b[k + 1..];
      && multiset(b') == multiset(b) - multiset{b[k]}
      && ForestEntries(b) == ForestEntries(b') + LeafEntries(b[k])
      && ForestWeight(b) == ForestWeight(b') + b[k].freq
  {
    var x := b[k];
    assert b == b[..k] + ([x] + b[k + 1..]);
    assert multiset(b) == multiset(b[..k]) + multiset{x} + multiset(b[k + 1..]);
    ForestConcat(b[..k], [x] + b[k + 1..]);
    ForestConcat([x], b[k + 1..]);
    ForestConcat(b[..k], b[k + 1..]);
    assert [x][..0] == [];
  }

  /** What a forest holds depends only on which trees it holds, not on
      their order. */
  lemma {:induction false} ForestPermutation(a: seq<Tree>, b: seq<Tree>)
    requires multiset(a) == multiset(b)
    ensures ForestEntries(a) == ForestEntries(b)
    ensures ForestWeight(a) == ForestWeight(b)
    decreases |a|
  {
    if |a| == 0 {
      assert |multiset(b)| == 0;
    } else {
      var x := a[|a| - 1];
      var a' := a[..|a| - 1];
      assert a == a' + [x];
      assert multiset(a') == multiset(a) - multiset{x};
      assert x in multiset(b);
      var k :| 0 <= k < |b| && b[k] == x;
      RemoveTree(b, k);
      ForestPermutation(a', b[..k] + b[k + 1..]);
    }
  }
}
