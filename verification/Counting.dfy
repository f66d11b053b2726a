/** The two counting phases over all tables: bottom_up and top_down. */
module Counting {
  import opened Records
  import opened Combined
  import opened BottomUp
  import opened TopDown
  import opened JoinTree

  /** The loaded tables are separate arrays, and every node names one of them. */
  ghost predicate Loaded(rows: seq<array<Entry>>, tree: seq<JoinNode>) {
    && (forall i, j :: 0 <= i < j < |rows| ==> rows[i] != rows[j])
    && (forall k :: 0 <= k < |tree| ==> tree[k].tableIdx < |rows|)
  }

  /** db is the content of the tables, node by node. */
  ghost predicate Holds(rows: seq<array<Entry>>, tree: seq<JoinNode>, db: seq<seq<Entry>>)
    requires Loaded(rows, tree)
    reads rows
  {
    |db| == |tree| && forall k :: 0 <= k < |tree| ==> rows[tree[k].tableIdx][..] == db[k]
  }

  ghost function ByNode(rows: seq<array<Entry>>, tree: seq<JoinNode>): (db: seq<seq<Entry>>)
    requires Loaded(rows, tree)
    reads rows
    ensures Holds(rows, tree, db)
  {
    seq(|tree|, k requires 0 <= k < |tree| reads rows => rows[tree[k].tableIdx][..])
  }

  // ---- Initialisation ----

  function Reset(e: Entry, r: nat): Entry {
    Entry(NullValue, r, 1, 0, 0, e.attributes)
  }

  ghost function ResetTable(t: seq<Entry>): (r: seq<Entry>)
    ensures |r| == |t|
  {
    seq(|t|, i requires 0 <= i < |t| => Reset(t[i], i))
  }

  ghost function ResetAll(db: seq<seq<Entry>>): (r: seq<seq<Entry>>)
    ensures |r| == |db|
  {
    seq(|db|, k requires 0 <= k < |db| => ResetTable(db[k]))
  }

  method InitTable(a: array<Entry>)
    modifies a
    ensures a[..] == ResetTable(old(a[..]))
  {
    ghost var was := a[..];
    for r := 0 to a.Length
      invariant forall j :: 0 <= j < a.Length ==> a[j] == if j < r then ResetTable(was)[j] else was[j]
    {
      a[r] := Reset(a[r], r);
    }
  }

  method InitTables(rows: seq<array<Entry>>)
    requires forall i, j :: 0 <= i < j < |rows| ==> rows[i] != rows[j]
    modifies rows
    ensures forall t :: 0 <= t < |rows| ==> rows[t][..] == ResetTable(old(rows[t][..]))
  {
    for t := 0 to |rows|
      invariant forall j :: 0 <= j < t ==> rows[j][..] == ResetTable(old(rows[j][..]))
      invariant forall j :: t <= j < |rows| ==> rows[j][..] == old(rows[j][..])
    {
      InitTable(rows[t]);
    }
  }

  lemma ResetCounted(tree: seq<JoinNode>, db: seq<seq<Entry>>)
    requires InputOk(tree, db)
    ensures InputOk(tree, ResetAll(db)) && AllIndexed(ResetAll(db)) && LocalUpTo(tree, ResetAll(db), 0)
  {
    var d := ResetAll(db);
    forall k | 0 <= k < |db| ensures d[k] == ResetTable(db[k]) {
    }
    forall k | IsEdge(tree, k) ensures SafeColumn(d[k], tree[k].joinCol) && SafeColumn(d[Parent(tree, k)], tree[k].parentJoinCol) {
      assert d[k] == ResetTable(db[k]) && d[Parent(tree, k)] == ResetTable(db[Parent(tree, k)]);
    }
  }

  // ---- Bottom-up ----

  lemma BottomUpReady(tree: seq<JoinNode>, db: seq<seq<Entry>>, n: nat)
    requires InputOk(tree, db) && AllIndexed(db) && IsEdge(tree, n)
    ensures EdgeReady(tree[n], db[Parent(tree, n)], db[n])
  {
  }

  /** One edge of bottom_up. */
  method BottomUpEdge(rows: seq<array<Entry>>, tree: seq<JoinNode>, n: nat, ghost db: seq<seq<Entry>>) returns (ghost d: seq<seq<Entry>>)
    requires Loaded(rows, tree) && Holds(rows, tree, db)
    requires IsEdge(tree, n) && InputOk(tree, db) && AllIndexed(db) && LocalUpTo(tree, db, n)
    modifies rows[tree[tree[n].parentIdx].tableIdx]
    ensures Holds(rows, tree, d) && SameTables(db, d)
    ensures InputOk(tree, d) && AllIndexed(d) && LocalUpTo(tree, d, n + 1)
  {
    BottomUpReady(tree, db, n);
    ComputeLocalMult(tree[n], rows[tree[tree[n].parentIdx].tableIdx], rows[tree[n].tableIdx]);
    d := ApplyLocal(tree, db, n);
    ApplyLocalStep(tree, db, n);
    SameTablesOk(tree, db, d);
  }

  /** The equations that hold once the nodes before n are processed; the rows are still those of first. */
  ghost predicate Ascended(tree: seq<JoinNode>, first: seq<seq<Entry>>, db: seq<seq<Entry>>, n: nat) {
    && n <= |tree| && SameTables(ResetAll(first), db)
    && InputOk(tree, db) && AllIndexed(db) && LocalUpTo(tree, db, n)
  }

  method InitPhase(rows: seq<array<Entry>>, tree: seq<JoinNode>, ghost first: seq<seq<Entry>>) returns (ghost db: seq<seq<Entry>>)
    requires Loaded(rows, tree) && Holds(rows, tree, first) && InputOk(tree, first)
    modifies rows
    ensures Holds(rows, tree, db) && Ascended(tree, first, db, 0)
  {
    InitTables(rows);
    db := ResetAll(first);
    ResetCounted(tree, first);
  }

  /** One step of the post-order: the edge above n, if there is one. */
  method Ascend(rows: seq<array<Entry>>, tree: seq<JoinNode>, n: nat, ghost first: seq<seq<Entry>>, ghost db: seq<seq<Entry>>)
    returns (ghost d: seq<seq<Entry>>)
    requires Loaded(rows, tree) && Holds(rows, tree, db) && Ascended(tree, first, db, n) && n < |tree|
    modifies rows
    ensures Holds(rows, tree, d) && Ascended(tree, first, d, n + 1)
  {
    if tree[n].parentIdx >= 0 {
      d := BottomUpEdge(rows, tree, n, db);
    } else {
      d := db;
    }
  }

  /** bottom_up: local_mult of every row, children before parents. */
  method BottomUpPhase(rows: seq<array<Entry>>, tree: seq<JoinNode>) returns (ghost db: seq<seq<Entry>>)
    requires Loaded(rows, tree) && InputOk(tree, ByNode(rows, tree))
    modifies rows
    ensures Holds(rows, tree, db) && InputOk(tree, db) && AllIndexed(db) && LocalOk(tree, db)
    ensures SameTables(ResetAll(old(ByNode(rows, tree))), db)
  {
    ghost var first := ByNode(rows, tree);
    db := InitPhase(rows, tree, first);
    for n := 0 to |tree|
      invariant Holds(rows, tree, db) && Ascended(tree, first, db, n)
    {
      db := Ascend(rows, tree, n, first, db);
    }
  }

  // ---- Top-down ----

  function RootEntry(e: Entry): Entry {
    e.(finalMult := e.localMult, foreignSum := 0)
  }

  ghost function RootTable(t: seq<Entry>): (r: seq<Entry>)
    ensures |r| == |t|
  {
    seq(|t|, i requires 0 <= i < |t| => RootEntry(t[i]))
  }

  /** The root's rows start from their local multiplicities. */
  method InitRoot(a: array<Entry>)
    modifies a
    ensures a[..] == RootTable(old(a[..]))
  {
    ghost var was := a[..];
    for r := 0 to a.Length
      invariant forall j :: 0 <= j < a.Length ==> a[j] == if j < r then RootTable(was)[j] else was[j]
    {
      a[r] := RootEntry(a[r]);
    }
  }

  lemma RootReady(tree: seq<JoinNode>, db: seq<seq<Entry>>)
    requires InputOk(tree, db) && AllIndexed(db) && LocalOk(tree, db)
    ensures var m := |tree| - 1; var d := db[m := RootTable(db[m])];
      InputOk(tree, d) && AllIndexed(d) && LocalOk(tree, d) && FinalFrom(tree, d, m) && SameTables(db, d)
  {
    var m := |tree| - 1;
    var d := db[m := RootTable(db[m])];
    LocalSame(tree, db, d);
    SameTablesOk(tree, db, d);
  }

  /** One edge of top_down. */
  method TopDownEdge(rows: seq<array<Entry>>, tree: seq<JoinNode>, k: nat, ghost db: seq<seq<Entry>>) returns (ghost d: seq<seq<Entry>>)
    requires Loaded(rows, tree) && Holds(rows, tree, db) && InputOk(tree, db) && AllIndexed(db) && LocalOk(tree, db)
    requires FinalFrom(tree, db, k + 1) && IsEdge(tree, k)
    modifies rows[tree[k].tableIdx]
    ensures Holds(rows, tree, d) && InputOk(tree, d) && AllIndexed(d) && LocalOk(tree, d)
    ensures SameTables(db, d) && FinalFrom(tree, d, k)
  {
    TopReadyAt(tree, db, k);
    ComputeFinalMult(tree[k], rows[tree[tree[k].parentIdx].tableIdx], rows[tree[k].tableIdx]);
    d := ApplyFinal(tree, db, k);
    ApplyFinalStep(tree, db, k);
    EdgeFinalSame(tree[k], db[Parent(tree, k)], db[k]);
    LocalSame(tree, db, d);
    SameTablesOk(tree, db, d);
  }

  /** The equations that hold once the nodes from k on are processed. */
  ghost predicate Descended(tree: seq<JoinNode>, db: seq<seq<Entry>>, k: nat) {
    InputOk(tree, db) && AllIndexed(db) && LocalOk(tree, db) && FinalFrom(tree, db, k)
  }

  method InitIfRoot(rows: seq<array<Entry>>, tree: seq<JoinNode>, n: nat, ghost was: seq<seq<Entry>>) returns (ghost db: seq<seq<Entry>>)
    requires Loaded(rows, tree) && Holds(rows, tree, was) && TreeOk(tree) && n < |tree|
    modifies rows
    ensures Holds(rows, tree, db)
    ensures db == if n == |tree| - 1 then was[n := RootTable(was[n])] else was
  {
    db := was;
    if tree[n].parentIdx < 0 {
      InitRoot(rows[tree[n].tableIdx]);
      db := was[n := RootTable(was[n])];
    }
  }

  method InitRoots(rows: seq<array<Entry>>, tree: seq<JoinNode>, ghost was: seq<seq<Entry>>) returns (ghost db: seq<seq<Entry>>)
    requires Loaded(rows, tree) && Holds(rows, tree, was)
    requires InputOk(tree, was) && AllIndexed(was) && LocalOk(tree, was)
    modifies rows
    ensures Holds(rows, tree, db) && Descended(tree, db, |tree| - 1) && SameTables(was, db)
  {
    var root := |tree| - 1;
    RootReady(tree, was);
    db := was;
    for n := 0 to |tree|
      invariant Holds(rows, tree, db)
      invariant db == if n <= root then was else was[root := RootTable(was[root])]
    {
      db := InitIfRoot(rows, tree, n, db);
    }
  }

  /** top_down: final_mult and foreign_sum of every row, parents before children. */
  method TopDownPhase(rows: seq<array<Entry>>, tree: seq<JoinNode>, ghost was: seq<seq<Entry>>) returns (ghost db: seq<seq<Entry>>)
    requires Loaded(rows, tree) && Holds(rows, tree, was)
    requires InputOk(tree, was) && AllIndexed(was) && LocalOk(tree, was)
    modifies rows
    ensures Holds(rows, tree, db) && Counted(tree, db) && SameTables(was, db)
  {
    db := InitRoots(rows, tree, was);
    var k := |tree|;
    while k > 0
      invariant 0 <= k <= |tree|
      invariant Holds(rows, tree, db) && SameTables(was, db)
      invariant Descended(tree, db, if k == |tree| then k - 1 else k)
    {
      k := k - 1;
      if tree[k].parentIdx >= 0 {
        db := TopDownEdge(rows, tree, k, db);
      }
    }
  }
}
