/** MergeSortManager: sorted runs from the enclave's heap sort, merged in rounds until one is left. */
module MergeSort {
  import opened Totals
  import opened MinHeap
  import opened MergeFronts
  import opened KWayMerge

  ghost function Elements<T>(rs: seq<seq<T>>): multiset<T> {
    if rs == [] then multiset{} else Elements(rs[..|rs| - 1]) + multiset(rs[|rs| - 1])
  }

  lemma ElementsSnoc<T>(rs: seq<seq<T>>, r: seq<T>)
    ensures Elements(rs + [r]) == Elements(rs) + multiset(r)
  {
    assert (rs + [r])[..|rs|] == rs;
  }

  lemma {:induction false} ElementsConcat<T>(rs: seq<seq<T>>, ss: seq<seq<T>>)
    ensures Elements(rs + ss) == Elements(rs) + Elements(ss)
  {
    if ss == [] {
      assert rs + ss == rs;
    } else {
      var m := |ss| - 1;
      ElementsConcat(rs, ss[..m]);
      assert (rs + ss)[..|rs + ss| - 1] == rs + ss[..m];
    }
  }

  // ---- One merge ----

  /** When everything is taken, everything is out. */
  lemma {:induction false} AllConsumed<T>(rs: seq<seq<T>>, taken: seq<nat>, m: nat)
    requires Within(rs, taken) && m <= |rs| && forall b :: 0 <= b < |rs| ==> taken[b] == |rs[b]|
    ensures Consumed(rs, taken, m) == Elements(rs[..m])
  {
    if m > 0 {
      AllConsumed(rs, taken, m - 1);
      assert rs[..m][..m - 1] == rs[..m - 1];
      assert rs[m - 1][..taken[m - 1]] == rs[m - 1];
    }
  }

  ghost function Lengths<T>(rs: seq<seq<T>>, m: nat): nat
    requires m <= |rs|
  {
    if m == 0 then 0 else Lengths(rs, m - 1) + |rs[m - 1]|
  }

  lemma {:induction false} ConsumedFew<T>(rs: seq<seq<T>>, taken: seq<nat>, m: nat)
    requires Within(rs, taken) && m <= |rs|
    ensures |Consumed(rs, taken, m)| <= Lengths(rs, m)
  {
    if m > 0 {
      ConsumedFew(rs, taken, m - 1);
      assert |multiset(rs[m - 1][..taken[m - 1]])| == taken[m - 1];
    }
  }

  lemma OutputBounded<T>(out: seq<T>, rs: seq<seq<T>>, taken: seq<nat>, rank: T -> int)
    requires Emitted(out, rs, taken, rank)
    ensures |out| <= Lengths(rs, |rs|)
  {
    ConsumedFew(rs, taken, |rs|);
    assert |multiset(out)| == |out|;
  }

  lemma OutputComplete<T>(out: seq<T>, rs: seq<seq<T>>, taken: seq<nat>, rank: T -> int)
    requires Emitted(out, rs, taken, rank) && forall b :: 0 <= b < |rs| ==> taken[b] == |rs[b]|
    ensures SortedUp(out, rank) && multiset(out) == Elements(rs)
  {
    AllConsumed(rs, taken, |rs|);
    assert rs[..|rs|] == rs;
  }

  /** Drives the enclave's merge to its end, bufferSize elements a call. */
  method Drain<T(0, !new)>(m: MergeState<T>, rank: T -> int) returns (result: seq<T>)
    requires m.Valid() && m.Returned([]) && m.bufferSize > 0 && m.rank == rank
    modifies m, m.heap, m.heap.nodes, m.host`runPositions
    ensures SortedUp(result, rank) && multiset(result) == Elements(m.rs)
  {
    result := [];
    var complete := false;
    while !complete
      invariant m.Valid() && m.Returned(result) && (complete ==> m.Finished())
      decreases Lengths(m.rs, |m.rs|) - |result|, !complete
    {
      var output;
      output, complete := m.Process(m.bufferSize, result);
      result := result + output;
      OutputBounded(result, m.rs, m.taken, rank);
    }
    OutputComplete(result, m.rs, m.taken, rank);
  }

  ghost function RunsAt<T>(rs: seq<seq<T>>, indices: seq<nat>): (r: seq<seq<T>>)
    requires forall b :: 0 <= b < |indices| ==> indices[b] < |rs|
    ensures |r| == |indices|
  {
    seq(|indices|, b requires 0 <= b < |indices| => rs[indices[b]])
  }

  lemma OneRun<T>(r: seq<T>)
    ensures Elements([r]) == multiset(r)
  {
    ElementsSnoc([], r);
    assert [] + [r] == [r];
  }

  /** The merge proper, in the enclave. */
  method MergeMany<T(0, !new)>(store: RunStore<T>, indices: seq<nat>, rank: T -> int, bufferSize: nat) returns (result: seq<T>)
    requires NoRepeats(indices) && 0 < |indices| <= MERGE_SORT_K && bufferSize > 0
    requires forall b :: 0 <= b < |indices| ==> indices[b] < |store.runs|
    requires AllSortedUp(store.runs, rank)
    modifies store`runPositions, store`currentMergeIndices
    ensures SortedUp(result, rank) && multiset(result) == Elements(RunsAt(store.runs, indices))
  {
    store.Serve(indices);
    var m := KWayMergeInit(|indices|, rank, bufferSize, store);
    assert m.rs == RunsAt(store.runs, indices);
    result := Drain(m, rank);
  }

  /** k_way_merge: one sorted run out of those with the given indices. */
  method KWayMergeRuns<T(0, !new)>(store: RunStore<T>, indices: seq<nat>, rank: T -> int, bufferSize: nat) returns (result: seq<T>)
    requires NoRepeats(indices) && |indices| <= MERGE_SORT_K && bufferSize > 0
    requires forall b :: 0 <= b < |indices| ==> indices[b] < |store.runs|
    requires AllSortedUp(store.runs, rank)
    modifies store`runPositions, store`currentMergeIndices
    ensures SortedUp(result, rank) && multiset(result) == Elements(RunsAt(store.runs, indices))
  {
    var k := |indices|;
    if k == 0 {
      return [];
    }
    if k == 1 {
      SingleRun(store.runs, indices);
      return store.runs[indices[0]];
    }
    result := MergeMany(store, indices, rank, bufferSize);
  }

  lemma SingleRun<T>(rs: seq<seq<T>>, indices: seq<nat>)
    requires |indices| == 1 && indices[0] < |rs|
    ensures Elements(RunsAt(rs, indices)) == multiset(rs[indices[0]])
  {
    OneRun(rs[indices[0]]);
    assert RunsAt(rs, indices) == [rs[indices[0]]];
  }

  // ---- Rounds ----

  ghost function Range(first: nat, end: nat): (r: seq<nat>)
    requires first <= end
    ensures |r| == end - first && forall i :: 0 <= i < |r| ==> r[i] == first + i
  {
    seq(end - first, i requires 0 <= i < end - first => first + i)
  }

  /** The indices first to end - 1. */
  method IndexRange(first: nat, end: nat) returns (indices: seq<nat>)
    requires first <= end
    ensures indices == Range(first, end)
  {
    indices := [];
    for j := first to end
      invariant indices == Range(first, j)
    {
      indices := indices + [j];
    }
  }

  method MergeGroup<T(0, !new)>(store: RunStore<T>, first: nat, end: nat, rank: T -> int, bufferSize: nat) returns (merged: seq<T>)
    requires AllSortedUp(store.runs, rank) && bufferSize > 0 && first <= end <= |store.runs| && end - first <= MERGE_SORT_K
    modifies store`runPositions, store`currentMergeIndices
    ensures SortedUp(merged, rank) && multiset(merged) == Elements(store.runs[first..end])
  {
    var indices := IndexRange(first, end);
    merged := KWayMergeRuns(store, indices, rank, bufferSize);
    assert RunsAt(store.runs, indices) == store.runs[first..end];
  }

  lemma RoundStep<T>(runs: seq<seq<T>>, newRuns: seq<seq<T>>, merged: seq<T>, first: nat, end: nat)
    requires first <= end <= |runs| && Elements(newRuns) == Elements(runs[..first]) && multiset(merged) == Elements(runs[first..end])
    ensures Elements(newRuns + [merged]) == Elements(runs[..end])
  {
    ElementsSnoc(newRuns, merged);
    ElementsConcat(runs[..first], runs[first..end]);
    assert runs[..end] == runs[..first] + runs[first..end];
  }

  /** One round: every MERGE_SORT_K neighbouring runs become one. */
  method MergeRound<T(0, !new)>(store: RunStore<T>, rank: T -> int, bufferSize: nat) returns (newRuns: seq<seq<T>>)
    requires AllSortedUp(store.runs, rank) && bufferSize > 0
    modifies store`runPositions, store`currentMergeIndices
    ensures AllSortedUp(newRuns, rank) && Elements(newRuns) == Elements(store.runs)
    ensures |store.runs| <= |newRuns| * MERGE_SORT_K < |store.runs| + MERGE_SORT_K
  {
    newRuns := [];
    var i, n := 0, |store.runs|;
    ghost var done: nat := 0;
    while i < n
      invariant i == |newRuns| * MERGE_SORT_K < n + MERGE_SORT_K && done == if i < n then i else n
      invariant AllSortedUp(newRuns, rank) && Elements(newRuns) == Elements(store.runs[..done])
    {
      var end := if i + MERGE_SORT_K < n then i + MERGE_SORT_K else n;
      var merged := MergeGroup(store, i, end, rank, bufferSize);
      RoundStep(store.runs, newRuns, merged, i, end);
      newRuns := newRuns + [merged];
      i, done := i + MERGE_SORT_K, end;
    }
    assert store.runs[..n] == store.runs;
  }

  /** merge_runs_recursive: rounds get shorter, since a round leaves fewer runs than it found unless there is only one. */
  method MergeRuns<T(0, !new)>(store: RunStore<T>, rank: T -> int, bufferSize: nat)
    requires AllSortedUp(store.runs, rank) && bufferSize > 0 && store.runs != []
    modifies store
    ensures |store.runs| == 1 && AllSortedUp(store.runs, rank) && Elements(store.runs) == old(Elements(store.runs))
  {
    while |store.runs| > 1
      invariant store.runs != [] && AllSortedUp(store.runs, rank) && Elements(store.runs) == old(Elements(store.runs))
      decreases |store.runs|
    {
      var newRuns := MergeRound(store, rank, bufferSize);
      store.runs := newRuns;
    }
  }

  // ---- The sort ----

  /** sort_run_in_enclave. */
  method SortRun<T(0)>(run: seq<T>, rank: T -> int) returns (sorted: seq<T>)
    ensures SortedUp(sorted, rank) && multiset(sorted) == multiset(run)
  {
    var a := new T[|run|](i requires 0 <= i < |run| => run[i]);
    assert a[..] == run;
    HeapSort(a, rank);
    sorted := a[..];
  }

  /** create_sorted_runs: runs of runSize rows, the last one maybe shorter. */
  method CreateSortedRuns<T(0)>(table: seq<T>, rank: T -> int, runSize: nat) returns (runs: seq<seq<T>>)
    requires runSize > 0
    ensures AllSortedUp(runs, rank) && Elements(runs) == multiset(table) && (table != [] ==> runs != [])
  {
    runs := [];
    var start: nat := 0;
    while start < |table|
      invariant start <= |table| && (start > 0 ==> runs != [])
      invariant AllSortedUp(runs, rank) && Elements(runs) == multiset(table[..start])
    {
      var end := if start + runSize < |table| then start + runSize else |table|;
      var sorted := SortRun(table[start..end], rank);
      ElementsSnoc(runs, sorted);
      assert table[..end] == table[..start] + table[start..end];
      runs := runs + [sorted];
      start := end;
    }
    assert table[..|table|] == table;
  }

  /** sort: a sorted permutation of the table, whatever the sizes of runs and buffers. */
  method Sort<T(0, !new)>(table: seq<T>, rank: T -> int, runSize: nat, bufferSize: nat) returns (result: seq<T>)
    requires runSize > 0 && bufferSize > 0
    ensures SortedUp(result, rank) && multiset(result) == multiset(table)
  {
    if |table| <= 1 {
      return table;
    }
    var runs := CreateSortedRuns(table, rank, runSize);
    var store := new RunStore(runs);
    MergeRuns(store, rank, bufferSize);
    OneRun(store.runs[0]);
    assert store.runs == [store.runs[0]];
    result := store.runs[0];
  }
}
