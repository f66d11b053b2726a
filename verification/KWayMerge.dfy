/** The k-way merge that the host drives call by call, refilling the enclave's buffers from its runs. */
module KWayMerge {
  import opened Totals
  import opened MinHeap
  import opened MergeFronts

  const MERGE_SORT_K: nat := 8

  // ---- The host's side ----

  /** The part of MergeSortManager that answers refill requests. */
  class RunStore<T> {
    var runs: seq<seq<T>>
    var runPositions: seq<nat>
    var currentMergeIndices: seq<nat>

    constructor (rs: seq<seq<T>>)
      ensures runs == rs && currentMergeIndices == []
    {
      runs, runPositions, currentMergeIndices := rs, [], [];
    }

    /** The buffers of a merge read different runs, from where they stand. */
    ghost predicate Serving()
      reads this
    {
      && |runPositions| == |runs| && NoRepeats(currentMergeIndices)
      && (forall b :: 0 <= b < |currentMergeIndices| ==> currentMergeIndices[b] < |runs|)
      && (forall r :: 0 <= r < |runs| ==> runPositions[r] <= |runs[r]|)
    }

    ghost function Run(b: nat): seq<T>
      requires Serving() && b < |currentMergeIndices|
      reads this
    {
      runs[currentMergeIndices[b]]
    }

    ghost function Position(b: nat): nat
      requires Serving() && b < |currentMergeIndices|
      reads this
    {
      runPositions[currentMergeIndices[b]]
    }

    /** Start serving the runs with these indices from their beginnings. */
    method Serve(indices: seq<nat>)
      requires NoRepeats(indices) && forall b :: 0 <= b < |indices| ==> indices[b] < |runs|
      modifies `runPositions, `currentMergeIndices
      ensures Serving() && currentMergeIndices == indices && forall b :: 0 <= b < |indices| ==> Position(b) == 0
    {
      currentMergeIndices := indices;
      runPositions := seq(|runs|, _ => 0);
    }

    /** handle_refill_buffer: the next entries of the run behind a buffer; none for an unknown buffer. */
    method Refill(b: nat, bufferSize: nat) returns (chunk: seq<T>)
      requires Serving()
      modifies `runPositions
      ensures Serving()
      ensures b >= |currentMergeIndices| ==> chunk == [] && runPositions == old(runPositions)
      ensures b < |currentMergeIndices| ==>
        && Position(b) == old(Position(b)) + |chunk| && chunk == Run(b)[old(Position(b))..Position(b)]
        && (bufferSize > 0 && chunk == [] ==> Position(b) == |Run(b)|)
        && forall c :: 0 <= c < |currentMergeIndices| && c != b ==> Position(c) == old(Position(c))
    {
      if b >= |currentMergeIndices| {
        return [];
      }
      var r := currentMergeIndices[b];
      var pos := runPositions[r];
      var remaining := |runs[r]| - pos;
      var toCopy := if bufferSize < remaining then bufferSize else remaining;
      chunk := runs[r][pos..pos + toCopy];
      runPositions := runPositions[r := pos + toCopy];
    }
  }

  // ---- The enclave's side ----

  /** The position in run r that comes after what the heap holds, when t elements are out. */
  ghost function NextOf<T>(r: seq<T>, t: nat): nat {
    if t < |r| then t + 1 else |r|
  }

  /** The positions after the fed runs' fronts, and of the other runs' fronts. */
  ghost predicate NextIs<T>(rs: seq<seq<T>>, taken: seq<nat>, next: seq<nat>, fed: set<nat>) {
    |rs| == |taken| == |next| && forall b :: 0 <= b < |rs| ==> next[b] == if b in fed then NextOf(rs[b], taken[b]) else taken[b]
  }

  /** A buffer holds the stretch of its run from next to the host's position. */
  ghost predicate Fed<T>(r: seq<T>, next: nat, buffer: seq<T>, pos: nat, position: nat, exhausted: bool) {
    && next <= position <= |r| && pos <= |buffer| && buffer[pos..] == r[next..position]
    && (exhausted ==> position == |r|)
  }

  lemma FedFront<T>(r: seq<T>, next: nat, buffer: seq<T>, pos: nat, position: nat, exhausted: bool)
    requires Fed(r, next, buffer, pos, position, exhausted) && pos < |buffer|
    ensures next < |r| && buffer[pos] == r[next] && Fed(r, next + 1, buffer, pos + 1, position, exhausted)
  {
    assert buffer[pos] == buffer[pos..][0];
    assert buffer[pos + 1..] == buffer[pos..][1..] && r[next + 1..position] == r[next..position][1..];
  }

  /** A least node of the heap is a step of the merge, after which its run waits. */
  lemma LeastNode<T(!new)>(node: HeapNode<T>, before: multiset<HeapNode<T>>, rs: seq<seq<T>>, was: seq<nat>, now: seq<nat>, next: seq<nat>, rank: T -> int)
    requires |rs| == |was| && HoldsFronts(before, rs, was, Below(|rs|)) && node in before
    requires forall m :: m in before ==> rank(node.entry) <= rank(m.entry)
    requires now == if node.run < |was| then was[node.run := was[node.run] + 1] else was
    requires Within(rs, was) && NextIs(rs, was, next, Below(|rs|))
    ensures Stepped(rs, was, now, rank, node) && HoldsFronts(before - multiset{node}, rs, now, Below(|rs|) - {node.run})
    ensures Within(rs, now) && NextIs(rs, now, next, Below(|rs|) - {node.run})
  {
    LeastFront(before, rs, was, rank, node);
    assert before[node] == 1 && IsFront(rs, was, node);
    PopFront(before, rs, was, Below(|rs|), node, now);
  }

  class MergeState<T(0, !new)> {
    const k: nat
    const rank: T -> int
    const bufferSize: nat
    const heap: Heap<T>
    const host: RunStore<T>

    var buffers: seq<seq<T>>
    var bufferPos: seq<nat>
    var runExhausted: seq<bool>

    /** The runs, and how many elements of each are out. */
    ghost const rs: seq<seq<T>>
    ghost var taken: seq<nat>
    /** Where the buffers continue their runs. */
    ghost var next: seq<nat>

    constructor (runCount: nat, r: T -> int, size: nat, store: RunStore<T>)
      requires store.Serving() && |store.currentMergeIndices| == runCount
      requires forall b :: 0 <= b < runCount ==> store.Position(b) == 0
      ensures fresh(heap) && fresh(heap.nodes) && host == store && rank == r && bufferSize == size && k == runCount
      ensures |rs| == k && forall b :: 0 <= b < k ==> rs[b] == store.Run(b)
      ensures heap.Valid() && heap.size == 0
      ensures Shaped() && taken == seq(k, _ => 0) && next == taken && BuffersFed()
    {
      k, rank, bufferSize, host := runCount, r, size, store;
      heap := new Heap<T>(runCount, r);
      buffers, bufferPos, runExhausted := seq(runCount, _ => []), seq(runCount, _ => 0), seq(runCount, _ => false);
      ghost var all, indices := store.runs, store.currentMergeIndices;
      rs := seq(runCount, b requires 0 <= b < runCount => all[indices[b]]);
      taken, next := seq(runCount, _ => 0), seq(runCount, _ => 0);
    }

    ghost predicate Shaped()
      reads this, heap, heap.nodes, host
    {
      && heap.Valid() && heap.rank == rank && heap.nodes.Length == k && host.Serving()
      && |rs| == |taken| == |next| == |buffers| == |bufferPos| == |runExhausted| == |host.currentMergeIndices| == k
      && Within(rs, taken) && forall b :: 0 <= b < k ==> rs[b] == host.Run(b)
    }

    /** Every buffer holds the stretch of its run from next to the host's position. */
    ghost predicate BuffersFed()
      requires Shaped()
      reads this, heap, heap.nodes, host
    {
      forall b :: 0 <= b < k ==> Fed(rs[b], next[b], buffers[b], bufferPos[b], host.Position(b), runExhausted[b])
    }

    /** The heap holds the next element of every fed run. */
    ghost predicate HeapAt(fed: set<nat>)
      requires heap.Valid()
      reads this, heap, heap.nodes
    {
      HoldsFronts(heap.Contents(), rs, taken, fed)
    }

    /** The other runs wait for their next element. */
    ghost predicate Waiting(fed: set<nat>)
      reads this, heap, heap.nodes, host
    {
      Shaped() && HeapAt(fed) && BuffersFed() && NextIs(rs, taken, next, fed)
    }

    /** Between two calls: every run is fed. */
    ghost predicate Valid()
      reads this, heap, heap.nodes, host
    {
      Waiting(Below(k))
    }

    /** An empty buffer is refilled, unless its run is exhausted. */
    method RefillBuffer(b: nat, ghost fed: set<nat>)
      requires Waiting(fed) && b < k && b !in fed && bufferSize > 0
      modifies this`buffers, this`bufferPos, this`runExhausted, host`runPositions
      ensures Waiting(fed)
      ensures bufferPos[b] == |buffers[b]| ==> taken[b] == |rs[b]|
    {
      if bufferPos[b] >= |buffers[b]| && !runExhausted[b] {
        var chunk := host.Refill(b, bufferSize);
        if chunk != [] {
          buffers, bufferPos := buffers[b := chunk], bufferPos[b := 0];
        } else {
          runExhausted := runExhausted[b := true];
        }
      }
    }

    /** The front of the buffer goes to the heap. */
    method PushNext(b: nat, ghost fed: set<nat>)
      requires Waiting(fed) && b < k && b !in fed && bufferPos[b] < |buffers[b]|
      modifies heap, heap.nodes
      ensures Shaped() && HeapAt(fed + {b}) && BuffersFed()
    {
      FedFront(rs[b], next[b], buffers[b], bufferPos[b], host.Position(b), runExhausted[b]);
      PushFront(heap.Contents(), rs, taken, fed, b);
      RoomForFront(heap.nodes[..heap.size], rs, taken, fed, b);
      heap.Push(buffers[b][bufferPos[b]], b);
    }

    /** The buffer goes on behind its front. */
    method SkipFront(b: nat, ghost fed: set<nat>)
      requires Shaped() && BuffersFed() && NextIs(rs, taken, next, fed) && b < k && b !in fed && bufferPos[b] < |buffers[b]|
      modifies `bufferPos, `next
      ensures Shaped() && BuffersFed() && NextIs(rs, taken, next, fed + {b})
    {
      FedFront(rs[b], next[b], buffers[b], bufferPos[b], host.Position(b), runExhausted[b]);
      bufferPos, next := bufferPos[b := bufferPos[b] + 1], next[b := next[b] + 1];
    }

    /** The next element of run b, if there is one, goes to the heap. */
    method Feed(b: nat, ghost fed: set<nat>)
      requires Waiting(fed) && b < k && b !in fed && bufferSize > 0
      modifies this, heap, heap.nodes, host`runPositions
      ensures Waiting(fed + {b}) && taken == old(taken)
    {
      RefillBuffer(b, fed);
      if bufferPos[b] < |buffers[b]| {
        PushNext(b, fed);
        SkipFront(b, fed);
      } else {
        PushFront(heap.Contents(), rs, taken, fed, b);
      }
    }

    /** Initial fill: every run is fed. */
    method FeedAll()
      requires Waiting({}) && bufferSize > 0
      modifies this, heap, heap.nodes, host`runPositions
      ensures Valid() && taken == old(taken)
    {
      assert Below(0) == {};
      for b := 0 to k
        invariant Waiting(Below(b)) && taken == old(taken)
      {
        Feed(b, Below(b));
        assert Below(b + 1) == Below(b) + {b};
      }
    }

    ghost predicate Finished()
      reads this
    {
      |rs| == |taken| && forall b :: 0 <= b < |rs| ==> taken[b] == |rs[b]|
    }

    /** heap_pop: nothing but the heap changes. */
    method PopNode(ghost before: multiset<HeapNode<T>>) returns (ok: bool, node: HeapNode<T>)
      requires Valid() && before == heap.Contents()
      modifies heap, heap.nodes
      ensures Shaped() && BuffersFed()
      ensures if ok then node in before && heap.Contents() == before - multiset{node} else HeapAt(Below(k)) && Finished()
      ensures ok ==> forall m :: m in before ==> rank(node.entry) <= rank(m.entry)
    {
      ok, node := heap.Pop();
      if !ok {
        NoFronts(rs, taken);
      }
    }

    /** What popping a node means for the merge. */
    ghost method Took(node: HeapNode<T>, before: multiset<HeapNode<T>>, was: seq<nat>)
      requires Shaped() && BuffersFed() && NextIs(rs, taken, next, Below(k))
      requires was == taken && HoldsFronts(before, rs, was, Below(k)) && node in before
      requires heap.Contents() == before - multiset{node} && forall m :: m in before ==> rank(node.entry) <= rank(m.entry)
      modifies `taken
      ensures Waiting(Below(k) - {node.run}) && Stepped(rs, was, taken, rank, node)
    {
      ghost var now := if node.run < |was| then was[node.run := was[node.run] + 1] else was;
      LeastNode(node, before, rs, was, now, next, rank);
      taken := now;
    }

    /** A least element leaves the heap; its run has to be fed again. */
    method TakeLeast(ghost was: seq<nat>) returns (ok: bool, node: HeapNode<T>, ghost fed: set<nat>)
      requires Valid() && was == taken
      modifies `taken, heap, heap.nodes
      ensures Waiting(fed) && fed == if ok then Below(k) - {node.run} else Below(k)
      ensures if ok then Stepped(rs, was, taken, rank, node) else taken == was && Finished()
    {
      ghost var before := heap.Contents();
      assert HoldsFronts(before, rs, was, Below(k));
      ok, node := PopNode(before);
      fed := Below(k);
      if ok {
        Took(node, before, was);
        fed := fed - {node.run};
      }
    }

    /** One round of the merge loop: one more element, unless there is none. */
    method Emit(ghost was: seq<nat>) returns (ok: bool, node: HeapNode<T>)
      requires Valid() && was == taken && bufferSize > 0
      modifies this, heap, heap.nodes, host`runPositions
      ensures Valid()
      ensures if ok then Stepped(rs, was, taken, rank, node) else taken == was && Finished()
    {
      ghost var fed;
      ok, node, fed := TakeLeast(was);
      if ok {
        assert fed + {node.run} == Below(k);
        Feed(node.run, fed);
      }
    }

    /** What earlier calls have returned: sorted, and exactly the elements that are taken, every run from its front. */
    ghost predicate Returned(sofar: seq<T>)
      reads this
    {
      AllSortedUp(rs, rank) && Emitted(sofar, rs, taken, rank)
    }

    /** ecall_k_way_merge_process: up to capacity more elements. */
    method Process(capacity: nat, ghost sofar: seq<T>) returns (output: seq<T>, complete: bool)
      requires Valid() && Returned(sofar) && bufferSize > 0
      modifies this, heap, heap.nodes, host`runPositions
      ensures Valid() && Returned(sofar + output)
      ensures |output| <= capacity && (!complete ==> |output| == capacity)
      ensures complete ==> Finished()
    {
      output, complete := [], false;
      assert sofar + [] == sofar;
      while |output| < capacity
        invariant |output| <= capacity && Valid() && Returned(sofar + output)
      {
        ghost var was := taken;
        var ok, node := Emit(was);
        if !ok {
          complete := true;
          break;
        }
        EmitLeast(sofar + output, rs, was, rank, node, taken);
        Reassociate(sofar, output, [node.entry]);
        output := output + [node.entry];
      }
    }
  }

  /** ecall_k_way_merge_init: null unless 1 to MERGE_SORT_K runs are to be merged. */
  method KWayMergeInit<T(0, !new)>(k: nat, rank: T -> int, bufferSize: nat, store: RunStore<T>) returns (m: MergeState?<T>)
    requires store.Serving() && |store.currentMergeIndices| == k && bufferSize > 0
    requires forall b :: 0 <= b < k ==> store.Position(b) == 0
    modifies store`runPositions
    ensures m == null <==> k == 0 || k > MERGE_SORT_K
    ensures m != null ==> fresh(m) && fresh(m.heap) && fresh(m.heap.nodes) && m.host == store && m.rank == rank && m.bufferSize == bufferSize
    ensures m != null ==> m.Valid() && m.k == k && forall b :: 0 <= b < k ==> m.rs[b] == store.Run(b)
    ensures m != null && AllSortedUp(m.rs, rank) ==> m.Returned([])
  {
    if k == 0 || k > MERGE_SORT_K {
      return null;
    }
    m := new MergeState(k, rank, bufferSize, store);
    NothingConsumed(m.rs, m.taken, k);
    m.FeedAll();
  }

  lemma {:induction false} NothingConsumed<T>(rs: seq<seq<T>>, taken: seq<nat>, m: nat)
    requires Within(rs, taken) && m <= |rs| && forall b :: 0 <= b < |rs| ==> taken[b] == 0
    ensures Consumed(rs, taken, m) == multiset{}
  {
    if m > 0 {
      NothingConsumed(rs, taken, m - 1);
    }
  }
}
