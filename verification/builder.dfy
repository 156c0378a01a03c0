/** Greedy construction of the Huffman tree: one leaf per distinct character
    enters the priority queue in key order; then, while more than one tree
    remains, the two smallest are popped and joined under a new internal
    node, the first popped on the left. */
module TreeBuilder {
  import opened Results
  import opened Frequency
  import opened HuffmanTree
  import opened PriorityQueue

  /** Distinct first components make every entry of a list unique. */
  lemma {:induction false} ItemsUnique(s: seq<Entry>)
    requires forall i, j :: 0 <= i < j < |s| ==> s[i].0 != s[j].0
    ensures UniqueChars(multiset(s))
  {
    if |s| > 0 {
      var p := s[..|s| - 1];
      var x := s[|s| - 1];
      assert s == p + [x];
      ItemsUnique(p);
      assert x !in multiset(p) by {
        assert forall i :: 0 <= i < |p| ==> p[i].0 != x.0;
      }
      forall e | e in multiset(s) && e != x
        ensures e in multiset(p) && e.0 != x.0
      {
        assert e in p;
        var i :| 0 <= i < |p| && p[i] == e;
      }
    }
  }

  /** Joins the two trees taken from the queue. */
  function Join(x: Tree, y: Tree): (z: Tree)
    ensures LeafEntries(z) == LeafEntries(x) + LeafEntries(y)
    ensures WellFormed(x) && WellFormed(y) ==> WellFormed(z)
  {
    Node(x.freq + y.freq, x, y)
  }

  /** Pushing a tree adds its leaves and its count to the forest. */
  lemma PushedForest(q: seq<Tree>, q': seq<Tree>, t: Tree)
    requires multiset(q') == multiset(q) + multiset{t}
    ensures ForestEntries(q') == ForestEntries(q) + LeafEntries(t)
    ensures ForestWeight(q') == ForestWeight(q) + t.freq
  {
    ForestPermutation(q', q + [t]);
    assert (q + [t])[..|q|] == q;
  }

  lemma PrefixStep(items: seq<Entry>, i: nat)
    requires i < |items|
    ensures multiset(items[..i + 1]) == multiset(items[..i]) + multiset{items[i]}
    ensures Total(items[..i + 1]) == Total(items[..i]) + items[i].1
  {
    assert items[..i + 1] == items[..i] + [items[i]];
    assert items[..i + 1][..i] == items[..i];
  }

  /** Every tree of the forest is well formed. */
  ghost predicate AllWellFormed(q: seq<Tree>) {
    forall t :: t in q ==> WellFormed(t)
  }

  /** Pushing a well-formed tree keeps every tree well formed. */
  lemma PushedWellFormed(q: seq<Tree>, q': seq<Tree>, t: Tree)
    requires AllWellFormed(q) && WellFormed(t)
    requires multiset(q') == multiset(q) + multiset{t}
    ensures AllWellFormed(q')
  {
    forall u | u in q'
      ensures WellFormed(u)
    {
      assert u in multiset(q');
      if u != t {
        assert u in multiset(q);
      }
    }
  }

  /** The forest holds exactly the given entries as leaves, and its weight
      is their total. */
  ghost predicate HoldsEntries(q: seq<Tree>, s: seq<Entry>) {
    ForestEntries(q) == multiset(s) && ForestWeight(q) == Total(s)
  }

  /** Pushing the leaf of the next entry extends what the forest holds by
      that entry. */
  lemma PushedLeaf(q: seq<Tree>, q': seq<Tree>, items: seq<Entry>, i: nat)
    requires i < |items| && HoldsEntries(q, items[..i])
    requires multiset(q') == multiset(q) + multiset{Leaf(items[i].0, items[i].1)}
    ensures HoldsEntries(q', items[..i + 1])
  {
    PushedForest(q, q', Leaf(items[i].0, items[i].1));
    PrefixStep(items, i);
  }

  /** Pushes one leaf per entry, in order. The queue then holds exactly the
      entries as leaves. */
  method LeafQueue(items: seq<Entry>) returns (q: seq<Tree>)
    ensures IsHeap(q) && |q| == |items|
    ensures AllWellFormed(q)
    ensures ForestEntries(q) == multiset(items)
    ensures ForestWeight(q) == Total(items)
  {
    q := [];
    for i := 0 to |items|
      invariant IsHeap(q) && |q| == i
      invariant AllWellFormed(q)
      invariant HoldsEntries(q, items[..i])
    {
      var leaf := Leaf(items[i].0, items[i].1);
      var q' := Push(q, leaf);
      PushedLeaf(q, q', items, i);
      PushedWellFormed(q, q', leaf);
      q := q';
    }
    assert items[..|items|] == items;
  }

  /** Two trees appended to a forest add what their join adds. */
  lemma AppendPair(q2: seq<Tree>, x: Tree, y: Tree)
    ensures ForestEntries(q2 + [x, y]) == ForestEntries(q2) + LeafEntries(Join(x, y))
    ensures ForestWeight(q2 + [x, y]) == ForestWeight(q2) + Join(x, y).freq
  {
    ForestConcat(q2, [x, y]);
    assert [x, y][..1] == [x];
    assert [x][..0] == [];
    assert ForestEntries([x]) == LeafEntries(x) && ForestWeight([x]) == x.freq;
    assert ForestEntries([x, y]) == LeafEntries(x) + LeafEntries(y);
    assert ForestWeight([x, y]) == x.freq + y.freq;
  }

  /** Replacing two popped trees by their join keeps the forest's leaves
      and weight. */
  lemma JoinedForest(q: seq<Tree>, q2: seq<Tree>, x: Tree, y: Tree, q3: seq<Tree>)
    requires multiset(q) == multiset(q2) + multiset{y} + multiset{x}
    requires multiset(q3) == multiset(q2) + multiset{Join(x, y)}
    ensures ForestEntries(q3) == ForestEntries(q)
    ensures ForestWeight(q3) == ForestWeight(q)
  {
    PushedForest(q2, q3, Join(x, y));
    assert multiset(q) == multiset(q2 + [x, y]);
    ForestPermutation(q, q2 + [x, y]);
    AppendPair(q2, x, y);
  }

  /** Repeatedly pops two trees and pushes their join until at most one
      tree remains. Each round shrinks the queue by one; the leaves and the
      total weight of the forest never change. */
  method MergeAll(q0: seq<Tree>) returns (q: seq<Tree>)
    requires IsHeap(q0)
    requires AllWellFormed(q0)
    ensures IsHeap(q)
    ensures |q| == if |q0| == 0 then 0 else 1
    ensures AllWellFormed(q)
    ensures ForestEntries(q) == ForestEntries(q0)
    ensures ForestWeight(q) == ForestWeight(q0)
  {
    q := q0;
    while 1 < |q|
      invariant IsHeap(q)
      invariant |q0| == 0 <==> |q| == 0
      invariant AllWellFormed(q)
      invariant ForestEntries(q) == ForestEntries(q0)
      invariant ForestWeight(q) == ForestWeight(q0)
      decreases |q|
    {
      var x, q1 := Pop(q);
      var y, q2 := Pop(q1);
      assert x.value in multiset(q);
      assert y.value in multiset(q1);
      assert y.value in multiset(q);
      var z := Join(x.value, y.value);
      var q3 := Push(q2, z);
      JoinedForest(q, q2, x.value, y.value, q3);
      assert AllWellFormed(q2) by {
        forall t | t in q2
          ensures WellFormed(t)
        {
          assert t in multiset(q);
        }
      }
      PushedWellFormed(q2, q3, z);
      q := q3;
    }
  }

  /** The frequency table of a text lists its distinct characters, each
      once, with its number of occurrences. */
  lemma TableEntries(text: string, d: Dict)
    requires Valid(d)
    requires forall c :: c in d.counts <==> c in text
    requires forall c :: c in d.counts ==> d.counts[c] == multiset(text)[c]
    ensures UniqueChars(multiset(Items(d)))
    ensures forall c :: c in text ==> (c, multiset(text)[c]) in multiset(Items(d))
    ensures forall e :: e in multiset(Items(d)) ==> e.0 in text && e.1 == multiset(text)[e.0]
  {
    var items := Items(d);
    ItemsUnique(items);
    forall c | c in text
      ensures (c, multiset(text)[c]) in multiset(items)
    {
      var k :| 0 <= k < |d.keys| && d.keys[k] == c;
      assert items[k] in multiset(items);
    }
    forall e | e in multiset(items)
      ensures e.0 in text && e.1 == multiset(text)[e.0]
    {
      assert e in items;
    }
  }

  /** A tree whose leaf entries are a text's distinct characters, each once
      with its count, has the text's alphabet as its leaf characters. */
  lemma LeavesOfText(text: string, t: Tree)
    requires UniqueChars(LeafEntries(t))
    requires forall c :: c in text ==> (c, multiset(text)[c]) in LeafEntries(t)
    requires forall e :: e in LeafEntries(t) ==> e.0 in text && e.1 == multiset(text)[e.0]
    ensures DistinctLeaves(t)
    ensures LeafSet(t) == Alphabet(text)
  {
    UniqueLeavesDistinct(t);
    LeafSetEntries(t);
    forall c | c in LeafSet(t)
      ensures c in Alphabet(text)
    {
      var f: nat :| (c, f) in LeafEntries(t);
    }
    forall c | c in Alphabet(text)
      ensures c in LeafSet(t)
    {
      assert (c, multiset(text)[c]) in LeafEntries(t);
    }
  }

  /** A tree whose leaves are a text's frequency table has the text's
      distinct characters as leaves, each once with its count. */
  lemma TableLeaves(text: string, d: Dict, t: Tree)
    requires Valid(d)
    requires forall c :: c in d.counts <==> c in text
    requires forall c :: c in d.counts ==> d.counts[c] == multiset(text)[c]
    requires LeafEntries(t) == multiset(Items(d))
    ensures DistinctLeaves(t)
    ensures LeafSet(t) == Alphabet(text)
    ensures forall e :: e in LeafEntries(t) ==> e.1 == multiset(text)[e.0]
  {
    TableEntries(text, d);
    LeavesOfText(text, t);
  }

  /** For a non-empty text the result is a well-formed tree whose leaves are
      exactly the text's distinct characters, each once and with its number
      of occurrences, so the root's count is the text's length. For the
      empty text the final pop finds the queue empty. */
  method BuildHuffmanTree(text: string) returns (r: Result<Tree>)
    ensures |text| == 0 <==> r.Err?
    ensures r.Err? ==> r.error == EmptyQueue
    ensures r.Ok? ==> WellFormed(r.value) && DistinctLeaves(r.value)
    ensures r.Ok? ==> r.value.freq == |text|
    ensures r.Ok? ==> LeafSet(r.value) == Alphabet(text)
    ensures r.Ok? ==> forall e :: e in LeafEntries(r.value) ==> e.1 == multiset(text)[e.0]
  {
    var frequency := CalculateFrequencies(text);
    var items := Items(frequency);
    assert |text| == 0 <==> |items| == 0 by {
      if 0 < |text| {
        assert text[0] in frequency.counts;
      }
      if 0 < |items| {
        assert frequency.keys[0] in frequency.counts;
      }
    }
    var q := LeafQueue(items);
    q := MergeAll(q);
    var root, rest := Pop(q);
    if root.None? {
      return Err(EmptyQueue);
    }
    assert q == [root.value];
    assert [root.value][..0] == [];
    TableLeaves(text, frequency, root.value);
    r := Ok(root.value);
  }
}
