/** The priority queue: a binary min-heap stored in a sequence, ordered by
    the trees' counts with a strict `<` and no further tie-breaking. Each
    operation takes the queue's contents and returns the new contents. */
module PriorityQueue {
  import opened Results
  import opened HuffmanTree

  function Parent(i: nat): nat
    requires 0 < i
  {
    (i - 1) / 2
  }

  /** No element's count is smaller than its parent's. */
  ghost predicate IsHeap(q: seq<Tree>) {
    forall i :: 0 < i < |q| ==> q[Parent(i)].freq <= q[i].freq
  }

  /** The root of a heap has a minimal count. */
  lemma {:induction false} RootIsMin(q: seq<Tree>, i: nat)
    requires IsHeap(q) && i < |q|
    ensures q[0].freq <= q[i].freq
    decreases i
  {
    if 0 < i {
      RootIsMin(q, Parent(i));
    }
  }

  /** Exchanges two elements. */
  function Swap(q: seq<Tree>, i: nat, j: nat): (r: seq<Tree>)
    requires i < |q| && j < |q|
    ensures |r| == |q| && r[i] == q[j] && r[j] == q[i]
    ensures forall k :: 0 <= k < |q| && k != i && k != j ==> r[k] == q[k]
    ensures multiset(r) == multiset(q)
  {
    q[i := q[j]][j := q[i]]
  }

  /** The heap order holds at every element except `k`. */
  ghost predicate HeapExcept(q: seq<Tree>, k: nat) {
    forall i :: 0 < i < |q| && i != k ==> q[Parent(i)].freq <= q[i].freq
  }

  /** The heap order holds at every element whose parent is not `k`. */
  ghost predicate HeapBelowExcept(q: seq<Tree>, k: nat) {
    forall i :: 0 < i < |q| && Parent(i) != k ==> q[Parent(i)].freq <= q[i].freq
  }

  /** The parent of `k` is no larger than the children of `k`. */
  ghost predicate BridgesChildren(q: seq<Tree>, k: nat) {
    0 < k < |q| ==> forall i :: 0 < i < |q| && Parent(i) == k ==> q[Parent(k)].freq <= q[i].freq
  }

  /** One swap of the sift-up loop moves the one disorder up to the parent. */
  lemma SiftUpStep(r: seq<Tree>, c: nat)
    requires 0 < c < |r| && r[c].freq < r[Parent(c)].freq
    requires HeapExcept(r, c) && BridgesChildren(r, c)
    ensures HeapExcept(Swap(r, c, Parent(c)), Parent(c))
    ensures BridgesChildren(Swap(r, c, Parent(c)), Parent(c))
  {
    var p := Parent(c);
    var r' := Swap(r, c, p);
    forall i | 0 < i < |r| && i != p
      ensures r'[Parent(i)].freq <= r'[i].freq
    {
      if i == c {
      } else if Parent(i) == c {
        assert r'[c] == r[p];
      } else if Parent(i) == p {
        assert r[p].freq <= r[i].freq;
      } else {
        assert r'[i] == r[i] && r'[Parent(i)] == r[Parent(i)];
      }
    }
    if 0 < p {
      forall i | 0 < i < |r| && Parent(i) == p
        ensures r'[Parent(p)].freq <= r'[i].freq
      {
        assert Parent(p) < p;
        assert r'[Parent(p)] == r[Parent(p)];
        assert r[Parent(p)].freq <= r[p].freq;
        if i != c {
          assert r'[i] == r[i];
        }
      }
    }
  }

  /** Appends the node and swaps it with its parent while its count is
      strictly smaller. The result is a heap holding the old contents plus
      the node. */
  method Push(q: seq<Tree>, node: Tree) returns (r: seq<Tree>)
    requires IsHeap(q)
    ensures |r| == |q| + 1
    ensures multiset(r) == multiset(q) + multiset{node}
    ensures IsHeap(r)
  {
    r := q + [node];
    var current := |r| - 1;
    while 0 < current && Less(r[current], r[Parent(current)])
      invariant 0 <= current < |r| == |q| + 1
      invariant multiset(r) == multiset(q) + multiset{node}
      invariant HeapExcept(r, current)
      invariant BridgesChildren(r, current)
      decreases current
    {
      SiftUpStep(r, current);
      var parent := Parent(current);
      r := Swap(r, current, parent);
      current := parent;
    }
  }

  /** The two children of `k` are `2k + 1` and `2k + 2`. */
  lemma Children(k: nat, i: nat)
    requires 0 < i
    ensures Parent(i) == k <==> i == 2 * k + 1 || i == 2 * k + 2
  {
  }

  /** One swap of the sift-down recursion moves the one disorder down to
      the swapped child. */
  lemma SiftDownStep(q: seq<Tree>, index: nat, m: nat)
    requires index < m < |q| && Parent(m) == index
    requires q[m].freq < q[index].freq
    requires forall i :: 0 < i < |q| && Parent(i) == index ==> q[m].freq <= q[i].freq
    requires HeapBelowExcept(q, index) && BridgesChildren(q, index)
    ensures HeapBelowExcept(Swap(q, index, m), m)
    ensures BridgesChildren(Swap(q, index, m), m)
  {
    var s := Swap(q, index, m);
    forall i | 0 < i < |q| && Parent(i) != m
      ensures s[Parent(i)].freq <= s[i].freq
    {
      if i == m {
      } else if Parent(i) == index {
        assert s[i] == q[i];
      } else if i == index {
        assert Parent(index) < index;
        assert s[Parent(i)] == q[Parent(i)];
      } else {
        assert s[i] == q[i];
        assert Parent(i) != index;
        assert s[Parent(i)] == q[Parent(i)];
      }
    }
    forall i | 0 < i < |q| && Parent(i) == m
      ensures s[Parent(m)].freq <= s[i].freq
    {
      assert i != index && i != m;
      assert s[i] == q[i];
    }
  }

  /** Sifts the element at `index` down: swaps it with its smaller child
      while some child's count is strictly smaller. Requires the heap order
      to hold everywhere except between `index` and its children, and the
      parent of `index` to be no larger than those children. */
  method Heapify(q: seq<Tree>, index: nat) returns (r: seq<Tree>)
    requires HeapBelowExcept(q, index)
    requires BridgesChildren(q, index)
    ensures |r| == |q|
    ensures multiset(r) == multiset(q)
    ensures IsHeap(r)
    decreases |q| - index
  {
    var smallest := index;
    var left := 2 * index + 1;
    var right := 2 * index + 2;
    if left < |q| && Less(q[left], q[smallest]) {
      smallest := left;
    }
    if right < |q| && Less(q[right], q[smallest]) {
      smallest := right;
    }
    forall i | 0 < i < |q| && Parent(i) == index
      ensures q[smallest].freq <= q[i].freq
    {
      Children(index, i);
    }
    if smallest != index {
      Children(index, smallest);
      SiftDownStep(q, index, smallest);
      r := Heapify(Swap(q, index, smallest), smallest);
    } else {
      r := q;
    }
  }

  /** Removes and returns the root. A one-element queue is simply emptied;
      otherwise the last element moves to the root and is sifted down. An
      empty queue has no root to return. */
  method Pop(q: seq<Tree>) returns (top: Option<Tree>, rest: seq<Tree>)
    requires IsHeap(q)
    ensures |q| == 0 ==> top == None && rest == q
    ensures 0 < |q| ==> top == Some(q[0])
    ensures 0 < |q| ==> forall i :: 0 <= i < |q| ==> q[0].freq <= q[i].freq
    ensures 0 < |q| ==> |rest| == |q| - 1 && multiset(rest) + multiset{q[0]} == multiset(q)
    ensures IsHeap(rest)
  {
    if |q| == 1 {
      return Some(q[0]), [];
    }
    if |q| == 0 {
      return None, q;
    }
    forall i | 0 <= i < |q|
      ensures q[0].freq <= q[i].freq
    {
      RootIsMin(q, i);
    }
    var last := q[|q| - 1];
    var moved := q[..|q| - 1][0 := last];
    assert q == [q[0]] + q[1..|q| - 1] + [last];
    assert moved == [last] + q[1..|q| - 1];
    rest := Heapify(moved, 0);
    top := Some(q[0]);
  }
}
