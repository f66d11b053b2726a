/** The four phases end to end: bottom-up, top-down, distribute-expand, align-concat. */
module Pipeline {
  import opened Totals
  import opened Records
  import opened TrimmedRows
  import opened Combined
  import opened TopDown
  import opened JoinTree
  import opened JoinSpec
  import opened Columns
  import opened Counting
  import opened Distribute
  import opened AttachSums
  import opened WholeJoin
  import opened Align
  import opened AlignConcat

  // ---- Final multiplicities are not negative ----

  lemma QuotientNotNegative(x: int, w: int)
    requires 0 <= x && 0 <= w
    ensures 0 <= x / Safe(w)
  {
  }

  lemma SharesNotNegative(n: JoinNode, parent: seq<Entry>, child: seq<Entry>, x: int)
    requires Counts(parent) && NonNegative(child)
    ensures 0 <= JoinedShares(n, parent, child, x)
  {
    var f := Inside(Reverse(n), Share(n, child), x);
    forall i | 0 <= i < |parent| ensures 0 <= f(parent[i]) {
      MatchSumNonNegative(n, child, Attr(parent[i].attributes, n.parentJoinCol));
      QuotientNotNegative(parent[i].finalMult, MatchSum(n, child, Attr(parent[i].attributes, n.parentJoinCol)));
    }
    TotalNonNegative(parent, f);
  }

  lemma {:induction false} FinalNotNegative(tree: seq<JoinNode>, db: seq<seq<Entry>>, k: nat)
    requires Counted(tree, db) && k < |tree|
    ensures Counts(db[k])
    decreases |tree| - k
  {
    LocalNonNegative(tree, db, |db|);
    if k < |tree| - 1 {
      FinalNotNegative(tree, db, Parent(tree, k));
    }
    forall i | 0 <= i < |db[k]| ensures 0 <= db[k][i].finalMult {
      RowNotNegative(tree, db, k, i);
    }
  }

  lemma RowNotNegative(tree: seq<JoinNode>, db: seq<seq<Entry>>, k: nat, i: nat)
    requires Counted(tree, db) && k < |tree| && i < |db[k]| && NonNegative(db[k])
    requires k < |tree| - 1 ==> Counts(db[Parent(tree, k)])
    ensures 0 <= db[k][i].finalMult
  {
    assert NodeFinal(tree, db, k) && RowFinal(tree, db, k, db[k][i]);
    if k < |tree| - 1 {
      SharesNotNegative(tree[k], db[Parent(tree, k)], db[k], Attr(db[k][i].attributes, tree[k].joinCol));
      ProductNotNegative(JoinedShares(tree[k], db[Parent(tree, k)], db[k], Attr(db[k][i].attributes, tree[k].joinCol)), db[k][i].localMult);
    }
  }

  // ---- Handing over to distribute and align ----

  lemma SameRowsChain(a: seq<seq<Entry>>, b: seq<seq<Entry>>, c: seq<seq<Entry>>)
    requires SameTables(a, b) && SameTables(b, c)
    ensures SameTables(a, c)
  {
    forall k | 0 <= k < |a| ensures SameRows(a[k], c[k]) {
      assert SameRows(a[k], b[k]) && SameRows(b[k], c[k]);
    }
  }

  lemma ResetData(first: seq<seq<Entry>>)
    ensures Data(ResetAll(first)) == Data(first)
  {
    forall k | 0 <= k < |first| ensures RowsOf(ResetAll(first)[k]) == RowsOf(first[k]) {
      assert ResetAll(first)[k] == ResetTable(first[k]);
    }
  }

  lemma ResetUntagged(first: seq<seq<Entry>>, db: seq<seq<Entry>>, k: nat)
    requires SameTables(ResetAll(first), db) && k < |db|
    ensures Untagged(db[k])
  {
    assert SameRows(ResetAll(first)[k], db[k]) && ResetAll(first)[k] == ResetTable(first[k]);
  }

  lemma CountedIsPrepared(tree: seq<JoinNode>, first: seq<seq<Entry>>, db: seq<seq<Entry>>, widths: seq<nat>)
    requires Counted(tree, db) && SameTables(ResetAll(first), db)
    requires RowsWide(Data(first), widths) && ColumnsExist(tree, widths)
    ensures Prepared(tree, db, widths) && Data(db) == Data(first)
  {
    SameData(ResetAll(first), db);
    ResetData(first);
    forall k | 0 <= k < |db| ensures PlainRows(db[k]) && Untagged(db[k]) {
      FinalNotNegative(tree, db, k);
      ResetUntagged(first, db, k);
      assert Indexed(db[k]);
    }
  }

  /** distribute_expand: one expanded table per node. */
  method ExpandTables(rows: seq<array<Entry>>, tree: seq<JoinNode>, ghost db: seq<seq<Entry>>) returns (expanded: seq<array<TRow>>)
    requires Loaded(rows, tree) && Holds(rows, tree, db) && forall k :: 0 <= k < |db| ==> PlainRows(db[k])
    ensures fresh(expanded) && Separate(expanded) && Waiting(expanded, db, [])
  {
    expanded := [];
    for k := 0 to |tree|
      invariant |expanded| == k && fresh(expanded) && Separate(expanded)
      invariant forall j :: 0 <= j < k ==> HasCopies(expanded[j][..], db[j])
    {
      var out := ExpandSingleTable(rows[tree[k].tableIdx]);
      expanded := expanded + [out];
    }
  }

  /** The counting phases: multiplicities on the rows of the input. */
  method CountTables(rows: seq<array<Entry>>, tree: seq<JoinNode>, widths: seq<nat>) returns (ghost db: seq<seq<Entry>>)
    requires Loaded(rows, tree) && InputOk(tree, ByNode(rows, tree))
    requires RowsWide(Data(ByNode(rows, tree)), widths) && ColumnsExist(tree, widths)
    modifies rows
    ensures Holds(rows, tree, db) && Prepared(tree, db, widths) && Data(db) == old(Data(ByNode(rows, tree)))
  {
    ghost var first := ByNode(rows, tree);
    ghost var was := BottomUpPhase(rows, tree);
    db := TopDownPhase(rows, tree, was);
    SameRowsChain(ResetAll(first), was, db);
    CountedIsPrepared(tree, first, db, widths);
  }

  /**
   * The join of the loaded tables. For every listing of the tuples that satisfy all bands, the result holds the same
   * rows with the same multiplicities, whatever bits drove the shuffles and however the sorts broke ties.
   */
  method RunJoin(rows: seq<array<Entry>>, tree: seq<JoinNode>, widths: seq<nat>) returns (res: ResultTable, ghost ts: seq<Tuple>)
    requires Loaded(rows, tree) && InputOk(tree, ByNode(rows, tree))
    requires RowsWide(Data(ByNode(rows, tree)), widths) && ColumnsExist(tree, widths)
    modifies rows
    ensures fresh(res) && fresh(res.rows)
    ensures ListsJoin(ts, tree, old(Data(ByNode(rows, tree))))
    ensures IsJoin(Attrs(res.rows[..]), tree, old(Data(ByNode(rows, tree))), AttachOrder(tree))
    ensures res.width == Width(AttachOrder(tree), widths)
  {
    ghost var db := CountTables(rows, tree, widths);
    var expanded := ExpandTables(rows, tree, db);
    res, ts := AlignTables(expanded, tree, widths, db);
  }
}
