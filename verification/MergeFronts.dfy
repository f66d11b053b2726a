/** The abstract state of a k-way merge: how much of every run is taken, and the multiset of elements at the fronts. */
module MergeFronts {
  import opened Totals
  import opened MinHeap

  // ---- Elements of runs ----

  /** All elements of the first m runs, up to the given positions. */
  ghost function Consumed<T>(rs: seq<seq<T>>, taken: seq<nat>, m: nat): multiset<T>
    requires m <= |rs| == |taken| && Within(rs, taken)
  {
    if m == 0 then multiset{} else Consumed(rs, taken, m - 1) + multiset(rs[m - 1][..taken[m - 1]])
  }

  ghost predicate Within<T>(rs: seq<seq<T>>, taken: seq<nat>) {
    |rs| == |taken| && forall b :: 0 <= b < |rs| ==> taken[b] <= |rs[b]|
  }

  lemma {:induction false} ConsumedSame<T>(rs: seq<seq<T>>, taken: seq<nat>, next: seq<nat>, m: nat)
    requires Within(rs, taken) && Within(rs, next) && m <= |rs| && forall c :: 0 <= c < m ==> next[c] == taken[c]
    ensures Consumed(rs, next, m) == Consumed(rs, taken, m)
  {
    if m > 0 {
      ConsumedSame(rs, taken, next, m - 1);
    }
  }

  lemma OneMore<T>(r: seq<T>, t: nat)
    requires t < |r|
    ensures multiset(r[..t + 1]) == multiset(r[..t]) + multiset{r[t]}
  {
    assert r[..t + 1] == r[..t] + [r[t]];
  }

  lemma {:induction false} ConsumeOne<T>(rs: seq<seq<T>>, taken: seq<nat>, next: seq<nat>, b: nat, m: nat)
    requires Within(rs, taken) && Within(rs, next) && b < m <= |rs| && next[b] == taken[b] + 1
    requires forall c :: 0 <= c < |rs| && c != b ==> next[c] == taken[c]
    ensures Consumed(rs, next, m) == Consumed(rs, taken, m) + multiset{rs[b][taken[b]]}
  {
    if b < m - 1 {
      ConsumeOne(rs, taken, next, b, m - 1);
    } else {
      ConsumedSame(rs, taken, next, m - 1);
      OneMore(rs[b], taken[b]);
    }
  }

  // ---- Fronts ----

  /** Run b still has elements; node is the next one. */
  ghost predicate IsFront<T>(rs: seq<seq<T>>, taken: seq<nat>, node: HeapNode<T>) {
    node.run < |rs| == |taken| && taken[node.run] < |rs[node.run]| && rs[node.run][taken[node.run]] == node.entry
  }

  /** A heap that holds the fronts of the fed runs, once each. */
  ghost predicate HoldsFronts<T(!new)>(heap: multiset<HeapNode<T>>, rs: seq<seq<T>>, taken: seq<nat>, fed: set<nat>) {
    forall n :: heap[n] == if IsFront(rs, taken, n) && n.run in fed then 1 else 0
  }

  /** Without the front that was popped, its run is not fed; how far that run is taken does not show. */
  lemma PopFront<T(!new)>(heap: multiset<HeapNode<T>>, rs: seq<seq<T>>, taken: seq<nat>, fed: set<nat>, n: HeapNode<T>, next: seq<nat>)
    requires HoldsFronts(heap, rs, taken, fed) && n in heap && |rs| == |taken| == |next|
    requires forall c :: 0 <= c < |rs| && c != n.run ==> next[c] == taken[c]
    ensures n.run in fed && IsFront(rs, taken, n) && HoldsFronts(heap - multiset{n}, rs, next, fed - {n.run})
  {
  }

  /** The next element of a run, if it has one, makes the run a fed one. */
  lemma PushFront<T(!new)>(heap: multiset<HeapNode<T>>, rs: seq<seq<T>>, taken: seq<nat>, fed: set<nat>, b: nat)
    requires HoldsFronts(heap, rs, taken, fed) && b < |rs| == |taken| && b !in fed
    ensures if taken[b] < |rs[b]| then HoldsFronts(heap + multiset{HeapNode(rs[b][taken[b]], b)}, rs, taken, fed + {b})
            else HoldsFronts(heap, rs, taken, fed + {b})
  {
  }

  ghost function RunsOf<T>(nodes: seq<HeapNode<T>>): (r: seq<nat>)
    ensures |r| == |nodes|
  {
    seq(|nodes|, i requires 0 <= i < |nodes| => nodes[i].run)
  }

  /** There is room for another front. */
  lemma RoomForFront<T(!new)>(nodes: seq<HeapNode<T>>, rs: seq<seq<T>>, taken: seq<nat>, fed: set<nat>, b: nat)
    requires HoldsFronts(multiset(nodes), rs, taken, fed) && b < |rs| == |taken| && b !in fed
    ensures |nodes| < |rs|
  {
    var runs := RunsOf(nodes);
    forall i | 0 <= i < |nodes| ensures runs[i] < |rs| && runs[i] != b {
      assert nodes[i] in multiset(nodes);
    }
    forall i, j | 0 <= i < j < |nodes| ensures runs[i] != runs[j] {
      if runs[i] == runs[j] {
        assert nodes[i] in multiset(nodes) && nodes[j] in multiset(nodes);
        assert nodes[i] == nodes[j];
        TwiceMultiset(nodes, i, j);
      }
    }
    forall i | 0 <= i < |nodes| ensures (runs + [b])[i] != b {
    }
    DistinctBelow(runs + [b], |rs|);
  }

  ghost function Below(n: nat): (r: set<nat>)
    ensures |r| == n && forall x: nat :: x in r <==> x < n
  {
    if n == 0 then {} else Below(n - 1) + {n - 1}
  }

  lemma FrontHeld<T(!new)>(heap: multiset<HeapNode<T>>, rs: seq<seq<T>>, taken: seq<nat>, b: nat)
    requires HoldsFronts(heap, rs, taken, Below(|rs|)) && b < |rs| == |taken| && taken[b] < |rs[b]|
    ensures HeapNode(rs[b][taken[b]], b) in heap
  {
    assert heap[HeapNode(rs[b][taken[b]], b)] == 1;
  }

  /** No front left: every run is taken to its end. */
  lemma NoFronts<T(!new)>(rs: seq<seq<T>>, taken: seq<nat>)
    requires Within(rs, taken) && HoldsFronts(multiset{}, rs, taken, Below(|rs|))
    ensures forall b :: 0 <= b < |rs| ==> taken[b] == |rs[b]|
  {
    if b: nat :| b < |rs| && taken[b] != |rs[b]| {
      FrontHeld(multiset{}, rs, taken, b);
      assert false;
    }
  }

  // ---- The merged output ----

  ghost predicate AllSortedUp<T>(rs: seq<seq<T>>, rank: T -> int) {
    forall b :: 0 <= b < |rs| ==> SortedUp(rs[b], rank)
  }

  /** What is out: exactly the taken prefixes, sorted, nothing larger than what is left. */
  ghost predicate Emitted<T>(out: seq<T>, rs: seq<seq<T>>, taken: seq<nat>, rank: T -> int) {
    && Within(rs, taken) && SortedUp(out, rank) && multiset(out) == Consumed(rs, taken, |rs|)
    && forall i, b :: 0 <= i < |out| && 0 <= b < |rs| && taken[b] < |rs[b]| ==> rank(out[i]) <= rank(rs[b][taken[b]])
  }

  lemma TakenOne<T>(rs: seq<seq<T>>, taken: seq<nat>, n: HeapNode<T>, next: seq<nat>)
    requires Within(rs, taken) && IsFront(rs, taken, n) && next == taken[n.run := taken[n.run] + 1]
    ensures Within(rs, next) && Consumed(rs, next, |rs|) == Consumed(rs, taken, |rs|) + multiset{n.entry}
  {
    ConsumeOne(rs, taken, next, n.run, |rs|);
  }

  /** One step of the merge: a front that is least among all goes out. */
  ghost predicate Stepped<T>(rs: seq<seq<T>>, taken: seq<nat>, next: seq<nat>, rank: T -> int, n: HeapNode<T>) {
    && IsFront(rs, taken, n) && next == taken[n.run := taken[n.run] + 1]
    && forall b :: 0 <= b < |rs| && taken[b] < |rs[b]| ==> rank(n.entry) <= rank(rs[b][taken[b]])
  }

  /** Emitting a least front. */
  lemma {:induction false} EmitLeast<T>(out: seq<T>, rs: seq<seq<T>>, taken: seq<nat>, rank: T -> int, n: HeapNode<T>, next: seq<nat>)
    requires Emitted(out, rs, taken, rank) && AllSortedUp(rs, rank) && Stepped(rs, taken, next, rank, n)
    ensures Emitted(out + [n.entry], rs, next, rank)
  {
    TakenOne(rs, taken, n, next);
    assert multiset(out + [n.entry]) == multiset(out) + multiset{n.entry};
    forall b | 0 <= b < |rs| && next[b] < |rs[b]| ensures rank(n.entry) <= rank(rs[b][next[b]]) {
      assert SortedUp(rs[b], rank) && taken[b] <= next[b];
    }
    forall i | 0 <= i < |out| ensures rank(out[i]) <= rank(n.entry) {
    }
  }

  /** A node that is least in the heap is a least front. */
  lemma LeastFront<T(!new)>(heap: multiset<HeapNode<T>>, rs: seq<seq<T>>, taken: seq<nat>, rank: T -> int, n: HeapNode<T>)
    requires HoldsFronts(heap, rs, taken, Below(|rs|)) && |rs| == |taken| && forall m :: m in heap ==> rank(n.entry) <= rank(m.entry)
    ensures forall b :: 0 <= b < |rs| && taken[b] < |rs[b]| ==> rank(n.entry) <= rank(rs[b][taken[b]])
  {
    forall b | 0 <= b < |rs| && taken[b] < |rs[b]| ensures rank(n.entry) <= rank(rs[b][taken[b]]) {
      FrontHeld(heap, rs, taken, b);
    }
  }
}
