/** EcallBatchCollector: a deduplicating write-back cache in front of the enclave, and the table passes that use it. */
module BatchCollector {
  import opened Totals

  const BATCH_NO_PARAM: int := -1

  /** A host entry; the collector tells entries apart by identity. */
  class Cell<T> {
    var value: T

    constructor (v: T)
      ensures value == v
    {
      value := v;
    }
  }

  /** What one operation code does in the enclave: to a pair of entries, or to a single one. */
  datatype Kernel<!T> = Kernel(pair: (T, T, seq<int>) -> (T, T), single: (T, seq<int>) -> T)

  datatype BatchOperation = BatchOperation(idx1: nat, idx2: int, extraParams: seq<int>)

  // ---- Direct execution ----

  ghost predicate Fits(o: BatchOperation, n: nat) {
    o.idx1 < n && o.idx2 < n
  }

  /** One operation on entries addressed by position. */
  function Step<T>(k: Kernel<T>, s: seq<T>, o: BatchOperation): (r: seq<T>)
    requires Fits(o, |s|)
    ensures |r| == |s|
  {
    if o.idx2 < 0 then s[o.idx1 := k.single(s[o.idx1], o.extraParams)]
    else
      var r := k.pair(s[o.idx1], s[o.idx2], o.extraParams);
      s[o.idx1 := r.0][o.idx2 := r.1]
  }

  ghost predicate AllFit(ops: seq<BatchOperation>, n: nat) {
    forall i :: 0 <= i < |ops| ==> Fits(ops[i], n)
  }

  /** Operations one after the other. */
  ghost function Run<T>(k: Kernel<T>, s: seq<T>, ops: seq<BatchOperation>): (r: seq<T>)
    requires AllFit(ops, |s|)
    ensures |r| == |s|
  {
    if ops == [] then s else Step(k, Run(k, s, ops[..|ops| - 1]), ops[|ops| - 1])
  }

  /** Data behind the operands stays as it is. */
  lemma {:induction false} RunLonger<T>(k: Kernel<T>, s: seq<T>, x: T, ops: seq<BatchOperation>)
    requires AllFit(ops, |s|)
    ensures Run(k, s + [x], ops) == Run(k, s, ops) + [x]
  {
    if ops != [] {
      RunLonger(k, s, x, ops[..|ops| - 1]);
    }
  }

  lemma RunSnoc<T>(k: Kernel<T>, s: seq<T>, ops: seq<BatchOperation>, o: BatchOperation)
    requires AllFit(ops, |s|) && Fits(o, |s|)
    ensures AllFit(ops + [o], |s|) && Run(k, s, ops + [o]) == Step(k, Run(k, s, ops), o)
  {
    assert (ops + [o])[..|ops|] == ops;
  }

  /** The dispatcher loop over plaintext rows. */
  method Dispatch<T>(k: Kernel<T>, data: seq<T>, ops: seq<BatchOperation>) returns (r: seq<T>)
    requires AllFit(ops, |data|)
    ensures r == Run(k, data, ops)
  {
    r := data;
    assert ops[..0] == [];
    for i := 0 to |ops|
      invariant AllFit(ops[..i], |data|) && r == Run(k, data, ops[..i])
    {
      assert ops[..i + 1] == ops[..i] + [ops[i]];
      RunSnoc(k, data, ops[..i], ops[i]);
      r := Step(k, r, ops[i]);
    }
    assert ops[..|ops|] == ops;
  }

  // ---- The collector ----

  /** The cells hold exactly these values. */
  ghost predicate Values<T>(cells: seq<Cell<T>>, s: seq<T>)
    reads cells
  {
    |s| == |cells| && forall i :: 0 <= i < |cells| ==> cells[i].value == s[i]
  }

  class Collector<T> {
    const kernel: Kernel<T>
    const maxBatchSize: nat
    /** The entries that operations may name. */
    ghost const cells: seq<Cell<T>>

    var entryMap: map<Cell<T>, nat>
    var entryPointers: seq<Cell<T>>
    var batchData: seq<T>
    var operations: seq<BatchOperation>

    constructor (k: Kernel<T>, maxSize: nat, ghost all: seq<Cell<T>>, ghost s: seq<T>)
      requires NoRepeats(all) && Values(all, s)
      ensures kernel == k && cells == all && operations == [] && Valid() && Holds(s)
    {
      kernel, maxBatchSize, cells := k, maxSize, all;
      entryMap, entryPointers, batchData, operations := map[], [], [], [];
    }

    /** Each cached entry is cached once. */
    ghost predicate Indexed()
      reads this
    {
      && NoRepeats(cells) && |entryPointers| == |batchData|
      && (forall i :: 0 <= i < |entryPointers| ==>
          entryPointers[i] in cells && entryPointers[i] in entryMap && entryMap[entryPointers[i]] == i)
      && (forall e :: e in entryMap ==> entryMap[e] < |entryPointers| && entryPointers[entryMap[e]] == e)
    }

    /** The cache holds the values that the entries still have on the host. */
    ghost predicate Valid()
      reads this, cells
    {
      && Indexed() && AllFit(operations, |batchData|)
      && forall i :: 0 <= i < |entryPointers| ==> batchData[i] == entryPointers[i].value
    }

    /** The value of an entry once everything pending is done. */
    ghost function Seen(e: Cell<T>): T
      requires Valid()
      reads this, cells, e
    {
      if e in entryMap then Run(kernel, batchData, operations)[entryMap[e]] else e.value
    }

    /** The entries as the operations added so far leave them. */
    ghost predicate Holds(s: seq<T>)
      requires Valid()
      reads this, cells
    {
      |s| == |cells| && forall i :: 0 <= i < |cells| ==> Seen(cells[i]) == s[i]
    }

    /** An operation on cached copies does to them what it does to the entries. */
    lemma StepCommutes(s: seq<T>, o: BatchOperation, op: BatchOperation)
      requires Valid() && Holds(s) && Fits(o, |cells|) && cells[o.idx1] in entryMap && entryMap[cells[o.idx1]] == op.idx1
      requires if o.idx2 < 0 then op.idx2 < 0 else cells[o.idx2] in entryMap && entryMap[cells[o.idx2]] == op.idx2
      requires o.extraParams == op.extraParams
      ensures AllFit(operations + [op], |batchData|)
      ensures forall m :: 0 <= m < |cells| ==>
        (if cells[m] in entryMap then Run(kernel, batchData, operations + [op])[entryMap[cells[m]]] else cells[m].value) == Step(kernel, s, o)[m]
    {
      RunSnoc(kernel, batchData, operations, op);
      var now, t := Run(kernel, batchData, operations), Step(kernel, s, o);
      assert Seen(cells[o.idx1]) == s[o.idx1];
      forall m | 0 <= m < |cells|
        ensures (if cells[m] in entryMap then Step(kernel, now, op)[entryMap[cells[m]]] else cells[m].value) == t[m]
      {
        assert Seen(cells[m]) == s[m];
        assert m != o.idx1 ==> cells[m] != cells[o.idx1];
        if o.idx2 >= 0 {
          assert Seen(cells[o.idx2]) == s[o.idx2];
          assert m != o.idx2 ==> cells[m] != cells[o.idx2];
        }
      }
    }

    /** The batch position of an entry, which is cached if it is not yet. */
    method Intern(e: Cell<T>, ghost s: seq<T>) returns (idx: nat)
      requires Valid() && Holds(s) && e in cells
      modifies `entryMap, `entryPointers, `batchData
      ensures Valid() && Holds(s) && e in entryMap && entryMap[e] == idx
      ensures forall f :: f in old(entryMap) ==> f in entryMap && entryMap[f] == old(entryMap[f])
    {
      if e in entryMap {
        idx := entryMap[e];
      } else {
        RunLonger(kernel, batchData, e.value, operations);
        idx := |batchData|;
        entryMap := entryMap[e := idx];
        entryPointers := entryPointers + [e];
        batchData := batchData + [e.value];
        assert Valid();
        forall m | 0 <= m < |cells| ensures Seen(cells[m]) == s[m] {
          assert old(Seen(cells[m])) == s[m];
        }
      }
    }

    /** add_operation on two entries: as if the operation had been applied at once. */
    method AddPair(e1: Cell<T>, e2: Cell<T>, params: seq<int>, ghost i: nat, ghost j: nat, ghost s: seq<T>)
      requires Valid() && Holds(s) && i < |cells| && j < |cells| && e1 == cells[i] && e2 == cells[j]
      modifies this, cells
      ensures Valid() && Holds(Step(kernel, s, BatchOperation(i, j, params)))
    {
      var idx1 := Intern(e1, s);
      var idx2 := Intern(e2, s);
      var op := BatchOperation(idx1, idx2, params);
      StepCommutes(s, BatchOperation(i, j, params), op);
      operations := operations + [op];
      assert Holds(Step(kernel, s, BatchOperation(i, j, params)));
      if |operations| >= maxBatchSize {
        Flush(Step(kernel, s, BatchOperation(i, j, params)));
      }
    }

    /** add_operation on one entry. */
    method AddSingle(e: Cell<T>, params: seq<int>, ghost i: nat, ghost s: seq<T>)
      requires Valid() && Holds(s) && i < |cells| && e == cells[i]
      modifies this, cells
      ensures Valid() && Holds(Step(kernel, s, BatchOperation(i, BATCH_NO_PARAM, params)))
    {
      var idx := Intern(e, s);
      var op := BatchOperation(idx, BATCH_NO_PARAM, params);
      StepCommutes(s, BatchOperation(i, BATCH_NO_PARAM, params), op);
      operations := operations + [op];
      assert Holds(Step(kernel, s, BatchOperation(i, BATCH_NO_PARAM, params)));
      if |operations| >= maxBatchSize {
        Flush(Step(kernel, s, BatchOperation(i, BATCH_NO_PARAM, params)));
      }
    }

    /** The cached results go back to the entries they came from. */
    method WriteBack(ghost s: seq<T>)
      requires Indexed() && |s| == |cells|
      requires forall m :: 0 <= m < |cells| ==> (if cells[m] in entryMap then batchData[entryMap[cells[m]]] else cells[m].value) == s[m]
      modifies cells
      ensures Values(cells, s)
    {
      for i := 0 to |entryPointers|
        invariant forall m :: 0 <= m < |cells| ==>
          (if cells[m] in entryMap && entryMap[cells[m]] >= i then batchData[entryMap[cells[m]]] else cells[m].value) == s[m]
      {
        entryPointers[i].value := batchData[i];
      }
    }

    /** flush: the batch goes through the enclave and back into the entries. */
    method Flush(ghost s: seq<T>)
      requires Valid() && Holds(s)
      modifies this, cells
      ensures Valid() && Holds(s) && Values(cells, s) && operations == []
    {
      batchData := Dispatch(kernel, batchData, operations);
      operations := [];
      WriteBack(s);
      entryMap, entryPointers, batchData := map[], [], [];
    }
  }

  // ---- Table passes ----

  /** Every adjacent pair from left to right, the first m of them, directly on the rows. */
  ghost function LinearPass<T>(k: Kernel<T>, s: seq<T>, params: seq<int>, m: nat): (r: seq<T>)
    requires m < |s|
    ensures |r| == |s|
  {
    if m == 0 then s else Step(k, LinearPass(k, s, params, m - 1), BatchOperation(m - 1, m, params))
  }

  /** batched_linear_pass: overlapping pairs, wherever the batches end. */
  method BatchedLinearPass<T>(entries: seq<Cell<T>>, k: Kernel<T>, params: seq<int>, maxSize: nat, ghost s: seq<T>)
    requires NoRepeats(entries) && Values(entries, s)
    modifies entries
    ensures Values(entries, if |s| < 2 then s else LinearPass(k, s, params, |s| - 1))
  {
    if |entries| < 2 {
      return;
    }
    var c := new Collector(k, maxSize, entries, s);
    for i := 0 to |entries| - 1
      invariant c.Valid() && c.Holds(LinearPass(k, s, params, i))
    {
      c.AddPair(entries[i], entries[i + 1], params, i, i + 1, LinearPass(k, s, params, i));
    }
    c.Flush(LinearPass(k, s, params, |s| - 1));
  }

  /** The value that the pass carries along: what the second operand of pair m - 1 has become. */
  ghost function Carry<T>(k: Kernel<T>, s: seq<T>, params: seq<int>, m: nat): T
    requires m < |s|
  {
    if m == 0 then s[0] else k.pair(Carry(k, s, params, m - 1), s[m], params).1
  }

  /** A pass is a scan: row i ends as the first result of its pair with the next, the last row as what is carried. */
  lemma {:induction false} LinearPassScans<T>(k: Kernel<T>, s: seq<T>, params: seq<int>, m: nat)
    requires m < |s|
    ensures var r := LinearPass(k, s, params, m);
      && (forall i :: 0 <= i < m ==> r[i] == k.pair(Carry(k, s, params, i), s[i + 1], params).0)
      && r[m] == Carry(k, s, params, m) && r[m + 1..] == s[m + 1..]
  {
    if m > 0 {
      LinearPassScans(k, s, params, m - 1);
      var before := LinearPass(k, s, params, m - 1);
      assert before[m] == before[m..][0] == s[m];
      assert before[m + 1..] == before[m..][1..];
    }
  }

  /** The first m rows of both tables paired up; the second table follows the first. */
  ghost function ParallelPass<T>(k: Kernel<T>, s: seq<T>, n: nat, params: seq<int>, m: nat): (r: seq<T>)
    requires m <= n && |s| == n + n
    ensures |r| == |s|
  {
    if m == 0 then s else Step(k, ParallelPass(k, s, n, params, m - 1), BatchOperation(m - 1, n + m - 1, params))
  }

  /** Each pair is computed from the rows as they were. */
  lemma {:induction false} ParallelPassPairs<T>(k: Kernel<T>, s: seq<T>, n: nat, params: seq<int>, m: nat, i: nat)
    requires m <= n && |s| == n + n && i < n
    ensures var r := ParallelPass(k, s, n, params, m);
      (r[i], r[n + i]) == if i < m then k.pair(s[i], s[n + i], params) else (s[i], s[n + i])
  {
    if m > 0 {
      ParallelPassPairs(k, s, n, params, m - 1, i);
    }
  }

  lemma SplitValues<T>(a: seq<Cell<T>>, b: seq<Cell<T>>, s: seq<T>)
    requires |s| == |a| + |b|
    ensures Values(a + b, s) <==> Values(a, s[..|a|]) && Values(b, s[|a|..])
  {
    if Values(a + b, s) {
      forall i | 0 <= i < |a| ensures a[i].value == s[i] {
        assert (a + b)[i] == a[i];
      }
      forall i | 0 <= i < |b| ensures b[i].value == s[|a| + i] {
        assert (a + b)[|a| + i] == b[i];
      }
    }
  }

  /** All pairs of two tables of one size; s are the rows of both, one table after the other. */
  method PairUp<T>(entries: seq<Cell<T>>, other: seq<Cell<T>>, k: Kernel<T>, params: seq<int>, maxSize: nat, ghost s: seq<T>)
    requires NoRepeats(entries + other) && Values(entries + other, s) && |entries| == |other|
    modifies entries + other
    ensures Values(entries + other, ParallelPass(k, s, |entries|, params, |entries|))
  {
    ghost var n := |entries|;
    var c := new Collector(k, maxSize, entries + other, s);
    for i := 0 to |entries|
      invariant c.Valid() && c.Holds(ParallelPass(k, s, n, params, i))
    {
      c.AddPair(entries[i], other[i], params, i, n + i, ParallelPass(k, s, n, params, i));
    }
    c.Flush(ParallelPass(k, s, n, params, n));
  }

  /** batched_parallel_pass: false if the tables differ in size. */
  method BatchedParallelPass<T>(entries: seq<Cell<T>>, other: seq<Cell<T>>, k: Kernel<T>, params: seq<int>, maxSize: nat, ghost s: seq<T>, ghost t: seq<T>)
    returns (ok: bool)
    requires NoRepeats(entries + other) && Values(entries, s) && Values(other, t)
    modifies entries + other
    ensures ok <==> |s| == |t|
    ensures !ok ==> Values(entries, s) && Values(other, t)
    ensures ok ==> forall i :: 0 <= i < |entries| ==> (entries[i].value, other[i].value) == k.pair(s[i], t[i], params)
  {
    if |entries| != |other| {
      return false;
    }
    SplitValues(entries, other, s + t);
    PairUp(entries, other, k, params, maxSize, s + t);
    ghost var r := ParallelPass(k, s + t, |s|, params, |s|);
    SplitValues(entries, other, r);
    forall i | 0 <= i < |s| ensures (r[i], r[|s| + i]) == k.pair(s[i], t[i], params) {
      ParallelPassPairs(k, s + t, |s|, params, |s|, i);
    }
    ok := true;
  }

  /** The first m rows mapped. */
  ghost function MapRows<T>(k: Kernel<T>, s: seq<T>, params: seq<int>, m: nat): (r: seq<T>)
    requires m <= |s|
    ensures |r| == |s|
    ensures forall i :: 0 <= i < |s| ==> r[i] == if i < m then k.single(s[i], params) else s[i]
  {
    if m == 0 then s else Step(k, MapRows(k, s, params, m - 1), BatchOperation(m - 1, BATCH_NO_PARAM, params))
  }

  /** Copies of the rows of a table. */
  method CopyRows<T>(entries: seq<Cell<T>>, ghost s: seq<T>) returns (copy: seq<Cell<T>>)
    requires Values(entries, s)
    ensures fresh(copy) && NoRepeats(copy) && Values(copy, s)
  {
    copy := [];
    for i := 0 to |entries|
      invariant |copy| == i && fresh(copy) && NoRepeats(copy)
      invariant forall j :: 0 <= j < i ==> copy[j].value == s[j]
    {
      var e := new Cell(entries[i].value);
      copy := copy + [e];
    }
  }

  /** batched_map: a new table; the rows of the old one are not touched. */
  method BatchedMap<T>(entries: seq<Cell<T>>, k: Kernel<T>, params: seq<int>, maxSize: nat, ghost s: seq<T>) returns (result: seq<Cell<T>>)
    requires Values(entries, s)
    ensures fresh(result) && |result| == |entries|
    ensures forall i :: 0 <= i < |result| ==> result[i].value == k.single(s[i], params)
  {
    result := CopyRows(entries, s);
    var c := new Collector(k, maxSize, result, s);
    for i := 0 to |result|
      invariant c.Valid() && c.Holds(MapRows(k, s, params, i))
    {
      c.AddSingle(result[i], params, i, MapRows(k, s, params, i));
    }
    c.Flush(MapRows(k, s, params, |s|));
  }

  /** The pairs at a distance, the last m of them, from right to left. */
  ghost function DistanceLoop<T>(k: Kernel<T>, s: seq<T>, distance: nat, params: seq<int>, m: nat): (r: seq<T>)
    requires distance + m <= |s|
    ensures |r| == |s|
    decreases m
  {
    if m == 0 then s else
      var i := |s| - distance - m;
      Step(k, DistanceLoop(k, s, distance, params, m - 1), BatchOperation(i, i + distance, params))
  }

  /** The whole pass: the loop, which ends with the pair at 0, and that pair a second time. */
  ghost function DistancePass<T>(k: Kernel<T>, s: seq<T>, distance: nat, params: seq<int>): (r: seq<T>)
    requires distance <= |s|
    ensures |r| == |s|
  {
    var once := DistanceLoop(k, s, distance, params, |s| - distance);
    if distance < |s| then Step(k, once, BatchOperation(0, distance, params)) else once
  }

  /** batched_distribute_pass. */
  method BatchedDistancePass<T>(entries: seq<Cell<T>>, distance: nat, k: Kernel<T>, params: seq<int>, maxSize: nat, ghost s: seq<T>)
    requires NoRepeats(entries) && Values(entries, s) && distance <= |entries|
    modifies entries
    ensures Values(entries, DistancePass(k, s, distance, params))
  {
    var c := new Collector(k, maxSize, entries, s);
    AddPairsAt(c, entries, distance, params, s);
    if distance < |entries| {
      c.AddPair(entries[0], entries[distance], params, 0, distance, DistanceLoop(k, s, distance, params, |s| - distance));
    }
    c.Flush(DistancePass(k, s, distance, params));
  }

  /** The loop of the pass. */
  method AddPairsAt<T>(c: Collector<T>, entries: seq<Cell<T>>, distance: nat, params: seq<int>, ghost s: seq<T>)
    requires c.Valid() && c.Holds(s) && c.cells == entries && distance <= |entries|
    modifies c, entries
    ensures c.Valid() && c.Holds(DistanceLoop(c.kernel, s, distance, params, |s| - distance))
  {
    for i := |entries| - distance downto 0
      invariant c.Valid() && c.Holds(DistanceLoop(c.kernel, s, distance, params, |s| - distance - i))
    {
      ghost var done := DistanceLoop(c.kernel, s, distance, params, |s| - distance - i - 1);
      c.AddPair(entries[i], entries[i + distance], params, i, i + distance, done);
    }
  }

  // ---- The pair that is added twice ----

  /** Applying the kernel to its own results changes nothing. */
  ghost predicate Idempotent<T(!new)>(k: Kernel<T>, params: seq<int>) {
    forall x, y :: Settled(k, params, x, y)
  }

  ghost predicate Settled<T>(k: Kernel<T>, params: seq<int>, x: T, y: T) {
    var p := k.pair(x, y, params);
    k.pair(p.0, p.1, params) == p
  }

  /** What the pair at 0 holds before the loop gets to it. */
  ghost function BeforeLast<T>(k: Kernel<T>, s: seq<T>, distance: nat, params: seq<int>): (r: seq<T>)
    requires 0 < distance < |s|
    ensures |r| == |s|
  {
    DistanceLoop(k, s, distance, params, |s| - distance - 1)
  }

  /** The pass is the loop exactly if the kernel has settled the pair at 0. */
  lemma SecondPair<T>(k: Kernel<T>, s: seq<T>, distance: nat, params: seq<int>)
    requires 0 < distance < |s|
    ensures var b := BeforeLast(k, s, distance, params);
      DistancePass(k, s, distance, params) == DistanceLoop(k, s, distance, params, |s| - distance)
      <==> Settled(k, params, b[0], b[distance])
  {
    var b, once := BeforeLast(k, s, distance, params), DistanceLoop(k, s, distance, params, |s| - distance);
    assert once == Step(k, b, BatchOperation(0, distance, params));
    var p := k.pair(b[0], b[distance], params);
    assert once[0] == p.0 && once[distance] == p.1;
    var q := k.pair(p.0, p.1, params);
    var twice := Step(k, once, BatchOperation(0, distance, params));
    assert twice[0] == q.0 && twice[distance] == q.1;
  }

  /** It is on every table and at every distance exactly for the idempotent kernels. */
  lemma PassIsLoop<T(!new)>(k: Kernel<T>, params: seq<int>)
    ensures Idempotent(k, params) <==>
      forall s: seq<T>, d: nat :: 0 < d < |s| ==> DistancePass(k, s, d, params) == DistanceLoop(k, s, d, params, |s| - d)
  {
    forall s: seq<T>, d: nat | Idempotent(k, params) && 0 < d < |s|
      ensures DistancePass(k, s, d, params) == DistanceLoop(k, s, d, params, |s| - d)
    {
      SecondPair(k, s, d, params);
    }
    if forall s: seq<T>, d: nat :: 0 < d < |s| ==> DistancePass(k, s, d, params) == DistanceLoop(k, s, d, params, |s| - d) {
      forall x, y ensures Settled(k, params, x, y) {
        SecondPair(k, [x, y], 1, params);
        assert DistancePass(k, [x, y], 1, params) == DistanceLoop(k, [x, y], 1, params, |[x, y]| - 1);
      }
    }
  }

  ghost function Swapping<T>(): Kernel<T> {
    Kernel((x: T, y: T, p: seq<int>) => (y, x), (x: T, p: seq<int>) => x)
  }

  /** A kernel that always swaps: two rows at distance 1 come back as they were, although the loop exchanges them. */
  lemma SwappedBack<T>(x: T, y: T)
    requires x != y
    ensures DistancePass(Swapping(), [x, y], 1, []) == [x, y]
    ensures DistanceLoop(Swapping(), [x, y], 1, [], 1) == [y, x]
  {
    assert DistanceLoop(Swapping(), [x, y], 1, [], 0) == [x, y];
  }
}
