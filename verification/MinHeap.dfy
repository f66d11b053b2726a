/** The binary heap of the external merge sort: sift down, sift up, push, pop, and heap sort in place. */
module MinHeap {
  // ---- Order ----

  /** A comparator returns 1 exactly if its first argument ranks below the second. */
  predicate Less<T>(rank: T -> int, x: T, y: T) {
    rank(x) < rank(y)
  }

  ghost predicate SortedUp<T>(s: seq<T>, rank: T -> int) {
    forall i, j :: 0 <= i < j < |s| ==> rank(s[i]) <= rank(s[j])
  }

  function Parent(i: int): int {
    if i <= 0 then -1 else (i - 1) / 2
  }

  /** Below node lo, and except at the children of hole, no child ranks above its parent: at the top stands the largest. */
  ghost predicate Heaped<T>(s: seq<T>, n: nat, rank: T -> int, lo: int, hole: int) {
    n <= |s| && forall j :: 0 < j < n && Parent(j) >= lo && Parent(j) != hole ==> rank(s[j]) <= rank(s[Parent(j)])
  }

  /** The children of the hole are small enough for the node above it. */
  ghost predicate Bridged<T>(s: seq<T>, n: nat, rank: T -> int, lo: int, hole: nat) {
    n <= |s| && forall j :: 0 < j < n && Parent(j) == hole && hole > 0 && Parent(hole) >= lo ==> rank(s[j]) <= rank(s[Parent(hole)])
  }

  lemma {:induction false} RootLargest<T>(s: seq<T>, n: nat, rank: T -> int, i: nat)
    requires Heaped(s, n, rank, 0, -1) && i < n
    ensures rank(s[i]) <= rank(s[0])
    decreases i
  {
    if i > 0 {
      RootLargest(s, n, rank, Parent(i));
    }
  }

  lemma SwapPermutes<T>(s: seq<T>, i: nat, j: nat)
    requires i < |s| && j < |s|
    ensures multiset(s[i := s[j]][j := s[i]]) == multiset(s)
  {
  }

  // ---- Sifting down ----

  /** The largest of a node and its children. */
  method LargestOf<T>(a: array<T>, idx: nat, n: nat, rank: T -> int) returns (largest: nat)
    requires idx < n <= a.Length
    ensures largest < n && (largest == idx || (largest > idx && Parent(largest) == idx && rank(a[largest]) > rank(a[idx])))
    ensures forall j :: 0 < j < n && Parent(j) == idx ==> rank(a[j]) <= rank(a[largest])
  {
    largest := idx;
    var left, right := 2 * idx + 1, 2 * idx + 2;
    if left < n && Less(rank, a[largest], a[left]) {
      largest := left;
    }
    if right < n && Less(rank, a[largest], a[right]) {
      largest := right;
    }
    assert forall j :: 0 < j && Parent(j) == idx ==> j == left || j == right;
  }

  lemma SiftStep<T>(s: seq<T>, t: seq<T>, n: nat, rank: T -> int, lo: int, idx: nat, largest: nat)
    requires Heaped(s, n, rank, lo, idx) && Bridged(s, n, rank, lo, idx) && lo <= idx < largest < n && Parent(largest) == idx
    requires rank(s[largest]) > rank(s[idx]) && forall j :: 0 < j < n && Parent(j) == idx ==> rank(s[j]) <= rank(s[largest])
    requires t == s[idx := s[largest]][largest := s[idx]]
    ensures Heaped(t, n, rank, lo, largest) && Bridged(t, n, rank, lo, largest)
  {
    forall j | 0 < j < n && Parent(j) >= lo && Parent(j) != largest ensures rank(t[j]) <= rank(t[Parent(j)]) {
      if j == idx {
        assert rank(s[largest]) <= rank(s[Parent(idx)]);
      } else if j != largest && Parent(j) != idx {
        assert t[j] == s[j] && t[Parent(j)] == s[Parent(j)];
      }
    }
    forall j | 0 < j < n && Parent(j) == largest ensures rank(t[j]) <= rank(t[idx]) {
      assert rank(s[j]) <= rank(s[largest]);
    }
  }

  /** The node at start sinks until the heap is in order from lo on. */
  method SiftDown<T>(a: array<T>, start: nat, n: nat, rank: T -> int, ghost lo: int, ghost was: seq<T>)
    requires start < n <= a.Length && lo <= start && was == a[..]
    requires Heaped(was, n, rank, lo, start) && Bridged(was, n, rank, lo, start)
    modifies a
    ensures Heaped(a[..], n, rank, lo, -1) && multiset(a[..]) == multiset(was) && a[n..] == was[n..]
  {
    var idx := start;
    while true
      invariant lo <= idx < n && Heaped(a[..], n, rank, lo, idx) && Bridged(a[..], n, rank, lo, idx)
      invariant multiset(a[..]) == multiset(was) && a[n..] == was[n..]
      decreases n - idx
    {
      var largest := LargestOf(a, idx, n, rank);
      if largest == idx {
        InOrder(a[..], n, rank, lo, idx);
        return;
      }
      ghost var s := a[..];
      SwapPermutes(s, idx, largest);
      a[idx], a[largest] := a[largest], a[idx];
      assert a[..] == s[idx := s[largest]][largest := s[idx]];
      SiftStep(s, a[..], n, rank, lo, idx, largest);
      idx := largest;
    }
  }

  lemma InOrder<T>(s: seq<T>, n: nat, rank: T -> int, lo: int, idx: nat)
    requires Heaped(s, n, rank, lo, idx) && idx < n && forall j :: 0 < j < n && Parent(j) == idx ==> rank(s[j]) <= rank(s[idx])
    ensures Heaped(s, n, rank, lo, -1)
  {
  }

  // ---- Heap sort ----

  /** The part from n on is sorted and ranks above everything before it. */
  ghost predicate SortedFrom<T>(s: seq<T>, n: nat, rank: T -> int) {
    n <= |s| && SortedUp(s[n..], rank) && forall i, j :: 0 <= i < n <= j < |s| ==> rank(s[i]) <= rank(s[j])
  }

  lemma {:induction false} SameMultisetBound<T>(s: seq<T>, t: seq<T>, n: nat, rank: T -> int)
    requires multiset(s) == multiset(t) && |s| == |t| && n <= |s| && s[n..] == t[n..] && SortedFrom(s, n, rank)
    ensures SortedFrom(t, n, rank)
  {
    FrontPermutes(s, t, n);
    forall i, j | 0 <= i < n <= j < |t| ensures rank(t[i]) <= rank(t[j]) {
      assert t[..n][i] in multiset(s[..n]);
      var k :| 0 <= k < n && s[..n][k] == t[i];
      assert s[n..][j - n] == t[n..][j - n];
    }
  }

  /** Moving the root behind the shrunk heap. */
  lemma ExtractStep<T>(s: seq<T>, t: seq<T>, end: nat, rank: T -> int)
    requires 0 < end < |s| && Heaped(s, end + 1, rank, 0, -1) && SortedFrom(s, end + 1, rank)
    requires t == s[0 := s[end]][end := s[0]]
    ensures SortedFrom(t, end, rank) && Heaped(t, end, rank, 0, 0) && Bridged(t, end, rank, 0, 0)
  {
    forall i | 0 <= i < end + 1 ensures rank(s[i]) <= rank(s[0]) {
      RootLargest(s, end + 1, rank, i);
    }
    assert t[end..] == [s[0]] + s[end + 1..];
    forall j | 0 < j < end && Parent(j) != 0 ensures rank(t[j]) <= rank(t[Parent(j)]) {
      assert t[j] == s[j] && t[Parent(j)] == s[Parent(j)];
    }
  }

  /** Build the heap from the last parent up. */
  method BuildHeap<T>(a: array<T>, rank: T -> int)
    modifies a
    ensures Heaped(a[..], a.Length, rank, 0, -1) && multiset(a[..]) == multiset(old(a[..]))
  {
    for i := a.Length / 2 downto 0
      invariant Heaped(a[..], a.Length, rank, i, -1) && multiset(a[..]) == multiset(old(a[..]))
    {
      SiftDown(a, i, a.Length, rank, i, a[..]);
    }
  }

  /** The largest element goes behind the heap; what took its place sinks. */
  method Extract<T>(a: array<T>, end: nat, rank: T -> int, ghost was: seq<T>)
    requires 0 < end < a.Length && was == a[..] && Heaped(was, end + 1, rank, 0, -1) && SortedFrom(was, end + 1, rank)
    modifies a
    ensures Heaped(a[..], end, rank, 0, -1) && SortedFrom(a[..], end, rank) && multiset(a[..]) == multiset(was)
  {
    a[0], a[end] := a[end], a[0];
    ghost var now := a[..];
    SwapPermutes(was, 0, end);
    assert now == was[0 := was[end]][end := was[0]];
    ExtractStep(was, now, end, rank);
    SiftDown(a, 0, end, rank, 0, now);
    SameMultisetBound(now, a[..], end, rank);
  }

  /** heap_sort: a sorted permutation, in place. */
  method HeapSort<T>(a: array<T>, rank: T -> int)
    modifies a
    ensures SortedUp(a[..], rank) && multiset(a[..]) == multiset(old(a[..]))
  {
    if a.Length <= 1 {
      return;
    }
    BuildHeap(a, rank);
    var end: nat := a.Length - 1;
    while end > 0
      invariant end < a.Length && Heaped(a[..], end + 1, rank, 0, -1) && SortedFrom(a[..], end + 1, rank)
      invariant multiset(a[..]) == multiset(old(a[..]))
    {
      Extract(a, end, rank, a[..]);
      end := end - 1;
    }
    AllSorted(a[..], rank);
  }

  lemma AllSorted<T>(s: seq<T>, rank: T -> int)
    requires s != [] && SortedFrom(s, 1, rank)
    ensures SortedUp(s, rank)
  {
    forall i, j | 0 <= i < j < |s| ensures rank(s[i]) <= rank(s[j]) {
      if i > 0 {
        assert s[1..][i - 1] == s[i] && s[1..][j - 1] == s[j];
      }
    }
  }

  // ---- The merge heap ----

  /** An entry and the run it comes from. */
  datatype HeapNode<T> = HeapNode(entry: T, run: nat)

  /** The smallest entry belongs to the top. */
  function NodeRank<T>(rank: T -> int): HeapNode<T> -> int {
    (n: HeapNode<T>) => -rank(n.entry)
  }

  /** In order but for node i, whose children already fit below its parent. */
  ghost predicate Rising<T>(s: seq<T>, n: nat, rank: T -> int, i: nat) {
    && n <= |s| && i < n
    && (forall j :: 0 < j < n && j != i ==> rank(s[j]) <= rank(s[Parent(j)]))
    && (forall j :: 0 < j < n && Parent(j) == i && i > 0 ==> rank(s[j]) <= rank(s[Parent(i)]))
  }

  lemma RiseStep<T>(s: seq<T>, t: seq<T>, n: nat, rank: T -> int, i: nat)
    requires Rising(s, n, rank, i) && i > 0 && rank(s[i]) > rank(s[Parent(i)])
    requires t == s[i := s[Parent(i)]][Parent(i) := s[i]]
    ensures Rising(t, n, rank, Parent(i))
  {
    var p := Parent(i);
    forall j | 0 < j < n && j != p ensures rank(t[j]) <= rank(t[Parent(j)]) {
      if j != i && Parent(j) != i && Parent(j) != p {
        assert t[j] == s[j] && t[Parent(j)] == s[Parent(j)];
      }
    }
    forall j | 0 < j < n && Parent(j) == p && p > 0 ensures rank(t[j]) <= rank(t[Parent(p)]) {
      assert rank(s[p]) <= rank(s[Parent(p)]);
    }
  }

  method SiftUp<T>(a: array<T>, start: nat, n: nat, rank: T -> int, ghost was: seq<T>)
    requires start < n <= a.Length && was == a[..] && Rising(was, n, rank, start)
    modifies a
    ensures Heaped(a[..], n, rank, 0, -1) && multiset(a[..]) == multiset(was) && a[n..] == was[n..]
  {
    var i: nat := start;
    while i > 0
      invariant i < n && Rising(a[..], n, rank, i) && multiset(a[..]) == multiset(was) && a[n..] == was[n..]
      decreases i
    {
      var p: nat := Parent(i);
      if !Less(rank, a[p], a[i]) {
        break;
      }
      ghost var s := a[..];
      SwapPermutes(s, i, p);
      a[i], a[p] := a[p], a[i];
      assert a[..] == s[i := s[p]][p := s[i]];
      RiseStep(s, a[..], n, rank, i);
      i := p;
    }
    Risen(a[..], n, rank, i);
  }

  lemma Risen<T>(s: seq<T>, n: nat, rank: T -> int, i: nat)
    requires Rising(s, n, rank, i) && (i > 0 ==> rank(s[i]) <= rank(s[Parent(i)]))
    ensures Heaped(s, n, rank, 0, -1)
  {
  }

  /** A permutation that keeps the part from n on permutes the part before it. */
  lemma FrontPermutes<T>(s: seq<T>, t: seq<T>, n: nat)
    requires multiset(s) == multiset(t) && |s| == |t| && n <= |s| && s[n..] == t[n..]
    ensures multiset(s[..n]) == multiset(t[..n])
  {
    assert s == s[..n] + s[n..] && t == t[..n] + t[n..];
    assert multiset(s) == multiset(s[..n]) + multiset(s[n..]) && multiset(t) == multiset(t[..n]) + multiset(t[n..]);
    assert multiset(s[n..]) == multiset(t[n..]);
    assert multiset(s[..n]) == multiset(s) - multiset(s[n..]) && multiset(t[..n]) == multiset(t) - multiset(t[n..]);
  }

  lemma Smallest<T>(s: seq<HeapNode<T>>, n: nat, rank: T -> int)
    requires Heaped(s, n, NodeRank(rank), 0, -1) && n > 0
    ensures s[0] in multiset(s[..n]) && forall m :: m in multiset(s[..n]) ==> rank(s[0].entry) <= rank(m.entry)
  {
    assert s[..n][0] == s[0];
    forall m | m in multiset(s[..n]) ensures rank(s[0].entry) <= rank(m.entry) {
      var i :| 0 <= i < n && s[..n][i] == m;
      RootLargest(s, n, NodeRank(rank), i);
    }
  }

  /** The last node in the place of the root. */
  lemma WithoutRoot<T>(s: seq<T>, t: seq<T>, n: nat, rank: T -> int)
    requires 0 < n < |s| && Heaped(s, n + 1, rank, 0, -1) && t == s[0 := s[n]]
    ensures Heaped(t, n, rank, 0, 0) && Bridged(t, n, rank, 0, 0) && multiset(t[..n]) == multiset(s[..n + 1]) - multiset{s[0]}
  {
    assert s[..n + 1] == [s[0]] + s[1..n] + [s[n]];
    assert t[..n] == [s[n]] + s[1..n];
    forall j | 0 < j < n && Parent(j) != 0 ensures rank(t[j]) <= rank(t[Parent(j)]) {
      assert t[j] == s[j] && t[Parent(j)] == s[Parent(j)];
    }
  }

  /** A node behind the heap may rise. */
  lemma AtEnd<T>(s: seq<T>, t: seq<T>, n: nat, rank: T -> int, x: T)
    requires n < |s| && Heaped(s, n, rank, 0, -1) && t == s[n := x]
    ensures Rising(t, n + 1, rank, n) && multiset(t[..n + 1]) == multiset(s[..n]) + multiset{x}
  {
    assert t[..n + 1] == s[..n] + [x];
    forall j | 0 < j < n + 1 && j != n ensures rank(t[j]) <= rank(t[Parent(j)]) {
      assert t[j] == s[j] && t[Parent(j)] == s[Parent(j)];
    }
  }

  /** x joins the heap of the first n elements. */
  method Append<T>(a: array<T>, n: nat, rank: T -> int, x: T, ghost was: seq<T>)
    requires n < a.Length && was == a[..] && Heaped(was, n, rank, 0, -1)
    modifies a
    ensures Heaped(a[..], n + 1, rank, 0, -1) && multiset(a[..n + 1]) == multiset(was[..n]) + multiset{x}
  {
    a[n] := x;
    ghost var t := a[..];
    AtEnd(was, t, n, rank, x);
    SiftUp(a, n, n + 1, rank, t);
    FrontOf(a, t, n + 1);
  }

  /** The root leaves the heap of the first n elements. */
  method RemoveRoot<T>(a: array<T>, n: nat, rank: T -> int, ghost was: seq<T>)
    requires 0 < n <= a.Length && was == a[..] && Heaped(was, n, rank, 0, -1)
    modifies a
    ensures Heaped(a[..], n - 1, rank, 0, -1) && multiset(a[..n - 1]) == multiset(was[..n]) - multiset{was[0]}
  {
    if n > 1 {
      a[0] := a[n - 1];
      ghost var t := a[..];
      WithoutRoot(was, t, n - 1, rank);
      SiftDown(a, 0, n - 1, rank, 0, t);
      FrontOf(a, t, n - 1);
    } else {
      assert was[..1] == [was[0]];
    }
  }

  lemma FrontOf<T>(a: array<T>, t: seq<T>, n: nat)
    requires n <= a.Length == |t| && multiset(a[..]) == multiset(t) && a[n..] == t[n..]
    ensures multiset(a[..n]) == multiset(t[..n])
  {
    FrontPermutes(t, a[..], n);
    assert a[..][..n] == a[..n] && a[..][n..] == a[n..];
  }

  class Heap<T(0)> {
    const nodes: array<HeapNode<T>>
    const rank: T -> int
    var size: nat

    constructor (capacity: nat, r: T -> int)
      ensures fresh(nodes) && rank == r && nodes.Length == capacity && size == 0 && Valid()
    {
      nodes, rank, size := new HeapNode<T>[capacity], r, 0;
    }

    ghost predicate Valid()
      reads this, nodes
    {
      size <= nodes.Length && Heaped(nodes[..], size, NodeRank(rank), 0, -1)
    }

    ghost function Contents(): multiset<HeapNode<T>>
      requires Valid()
      reads this, nodes
    {
      multiset(nodes[..size])
    }

    /** heap_push: a full heap drops the entry. */
    method Push(entry: T, run: nat)
      requires Valid()
      modifies this, nodes
      ensures Valid()
      ensures Contents() == if old(size) < nodes.Length then old(Contents()) + multiset{HeapNode(entry, run)} else old(Contents())
      ensures size == if old(size) < nodes.Length then old(size) + 1 else old(size)
    {
      if size >= nodes.Length {
        return;
      }
      Append(nodes, size, NodeRank(rank), HeapNode(entry, run), nodes[..]);
      size := size + 1;
    }

    /** heap_pop: a node with a least entry, unless the heap is empty. */
    method Pop() returns (ok: bool, node: HeapNode<T>)
      requires Valid()
      modifies this, nodes
      ensures Valid() && (ok <==> old(size) > 0)
      ensures !ok ==> size == 0 && Contents() == old(Contents())
      ensures ok ==> size == old(size) - 1 && node in old(Contents()) && Contents() == old(Contents()) - multiset{node}
      ensures ok ==> forall m :: m in old(Contents()) ==> rank(node.entry) <= rank(m.entry)
    {
      ok, node := size > 0, *;
      if ok {
        Smallest(nodes[..], size, rank);
        node := nodes[0];
        RemoveRoot(nodes, size, NodeRank(rank), nodes[..]);
        size := size - 1;
      }
    }
  }
}
