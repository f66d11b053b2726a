/** From the constraints of a query to its result: the rows that the join returns are those that satisfy the constraints. */
module QueryAnswer {
  import opened Totals
  import opened Records
  import opened JoinTree
  import opened JoinSpec
  import opened Counting
  import opened Columns
  import opened GroupsOfCopies
  import opened WholeJoin
  import opened Align
  import opened AlignConcat
  import opened Pipeline
  import opened HostLayout
  import opened Conditions
  import opened TreeVariants
  import opened JoinGraph
  import opened PostorderWalk
  import opened SerializedTree
  import opened VariantShape
  import opened Serializer
  import opened VariantArrays
  import opened UnrolledTrees

  // ---- Columns of the array ----

  /** c is the first column of table k with its name. */
  ghost predicate FirstColumn(tables: seq<LoadedTable>, k: nat, c: int) {
    var cols := ColsOfTable(tables, k);
    0 <= c < |cols| && forall j :: 0 <= j < c ==> cols[j] != cols[c]
  }

  /** The record's columns are found in its table and in its parent's. */
  ghost predicate RecordFound(n: NodeInfo, tables: seq<LoadedTable>) {
    var p := TableIndex(tables, n.parentTable, 0);
    p >= 0 && FirstColumn(tables, n.tableIdx, n.joinCol) && FirstColumn(tables, p, n.parentJoinCol)
  }

  ghost predicate AllFoundIn(ns: seq<NodeInfo>, tables: seq<LoadedTable>) {
    forall i :: 0 <= i < |ns| ==> RecordFound(ns[i], tables)
  }

  lemma FoundConcat(a: seq<NodeInfo>, b: seq<NodeInfo>, tables: seq<LoadedTable>)
    requires AllFoundIn(a, tables) && AllFoundIn(b, tables)
    ensures AllFoundIn(a + b, tables)
  {
  }

  lemma KidFound(v: nat, kid: RTree, tables: seq<LoadedTable>)
    requires DistinctNames(tables) && v < |tables| && LinkFound(v, kid, tables)
    ensures RecordFound(KidInfo(tables, v, kid.table, kid.link), tables)
  {
    TableIndexUnique(tables, v, 0);
    FoundIsFirst(tables, kid.table, kid.link.source.col);
    FoundIsFirst(tables, v, kid.link.target.col);
  }

  lemma FoundIsFirst(tables: seq<LoadedTable>, k: nat, name: string)
    requires name in ColsOfTable(tables, k)
    ensures FirstColumn(tables, k, ColIndex(ColsOfTable(tables, k), name, 0))
  {
    ColumnFoundExactly(ColsOfTable(tables, k), name);
  }

  lemma {:induction false} KidsFound(v: nat, us: seq<RTree>, tables: seq<LoadedTable>, constraints: seq<Constraint>)
    requires DistinctNames(tables) && v < |tables| && KidsLinked(v, us, tables, constraints)
    ensures AllFoundIn(KidsPost(v, us, tables), tables)
    decreases us, 0
  {
    if us != [] {
      assert KidLinked(v, us[0], tables, constraints);
      SubtreeFound(v, us[0], tables, constraints);
      KidsFound(v, us[1..], tables, constraints);
      FoundConcat(PostOrder(us[0], KidInfo(tables, v, us[0].table, us[0].link), tables), KidsPost(v, us[1..], tables), tables);
    }
  }

  lemma {:induction false} SubtreeFound(v: nat, u: RTree, tables: seq<LoadedTable>, constraints: seq<Constraint>)
    requires DistinctNames(tables) && v < |tables| && KidLinked(v, u, tables, constraints)
    ensures AllFoundIn(PostOrder(u, KidInfo(tables, v, u.table, u.link), tables), tables)
    decreases u, 1
  {
    var self := KidInfo(tables, v, u.table, u.link);
    KidFound(v, u, tables);
    BelowLinked(u, tables, constraints, (c: Column) => 0);
    KidsFound(u.table, u.kids, tables, constraints);
    PostOrderOf(u, self, tables);
    FoundConcat(KidsPost(u.table, u.kids, tables), [self], tables);
  }

  /** Every edge of the array names the first columns of that name. */
  ghost predicate ColumnsResolved(ds: seq<NodeDesc>, tables: seq<LoadedTable>) {
    forall i :: 0 <= i < |ds| - 1 ==> EdgeResolved(ds, i, tables)
  }

  ghost predicate EdgeResolved(ds: seq<NodeDesc>, i: nat, tables: seq<LoadedTable>)
    requires i < |ds|
  {
    0 <= ds[i].parentIdx < |ds| && FirstColumn(tables, ds[i].tableIdx, ds[i].joinCol)
    && FirstColumn(tables, ds[ds[i].parentIdx].tableIdx, ds[i].parentJoinCol)
  }

  lemma {:induction false} ArrayEdgeResolved(ds: seq<NodeDesc>, ns: seq<NodeInfo>, i: nat, root: nat, ts: set<int>, tables: seq<LoadedTable>,
                                             constraints: seq<Constraint>)
    requires NamedTables(tables) && Serial(ns, root, ts, tables, constraints) && Described(ds, ns, tables, |ns|)
    requires i < |ns| - 1 && (forall x :: x in ts ==> 0 <= x < |tables|) && RecordFound(ns[i], tables)
    ensures EdgeResolved(ds, i, tables)
  {
    ParentIsLater(ds, ns, root, ts, tables, constraints, i);
    var p := ds[i].parentIdx;
    assert ParentAt(ns, ns[i], p, tables);
    assert ds[p].tableIdx == ns[p].tableIdx && ns[p].tableIdx in TableSet(ns);
    TableIndexUnique(tables, ns[p].tableIdx, 0);
    ParentNamed(ns, i, tables, constraints);
  }

  lemma {:induction false} ArrayResolved(ds: seq<NodeDesc>, u: RTree, tables: seq<LoadedTable>, constraints: seq<Constraint>)
    requires NamedTables(tables) && Linked(u, tables, constraints) && ColumnsFound(u, tables) && ArrayOf(ds, u, tables, constraints)
    requires forall x :: x in Tables(u) ==> 0 <= x < |tables|
    ensures ColumnsResolved(ds, tables)
  {
    var ns := PostOrder(u, RootInfo(u.table), tables);
    var below := KidsPost(u.table, u.kids, tables);
    PostOrderOf(u, RootInfo(u.table), tables);
    BelowLinked(u, tables, constraints, (c: Column) => 0);
    KidsFound(u.table, u.kids, tables, constraints);
    forall i | 0 <= i < |ds| - 1 ensures EdgeResolved(ds, i, tables) {
      assert ns[i] == below[i];
      ArrayEdgeResolved(ds, ns, i, u.table, Tables(u), tables, constraints);
    }
  }

  // ---- The values of a tuple ----

  /** The node of the table with this name, from node i on; -1 if there is none. */
  ghost function NodeNamed(ds: seq<NodeDesc>, tables: seq<LoadedTable>, name: string, i: nat): (r: int)
    requires i <= |ds|
    ensures r == -1 || i <= r < |ds|
    decreases |ds| - i
  {
    if i == |ds| then -1 else if NameOfTable(tables, ds[i].tableIdx) == name then i else NodeNamed(ds, tables, name, i + 1)
  }

  /** What tuple t says for a column of the query: the value in the row that it picks for the column's table. */
  ghost function ValueAt(ds: seq<NodeDesc>, tables: seq<LoadedTable>, data: seq<seq<seq<int>>>, t: Tuple): Column -> int {
    (c: Column) =>
      var k := NodeNamed(ds, tables, c.table, 0);
      if k < 0 then 0 else Attr(RowAt(data, t, k), ColIndex(ColsOfTable(tables, ds[k].tableIdx), c.col, 0))
  }

  /** Nodes stand for different loaded tables. */
  ghost predicate NodesLoaded(ds: seq<NodeDesc>, tables: seq<LoadedTable>) {
    && (forall i :: 0 <= i < |ds| ==> ds[i].tableIdx < |tables|)
    && (forall i, j :: 0 <= i < j < |ds| ==> ds[i].tableIdx != ds[j].tableIdx)
  }

  lemma {:induction false} NodeFound(ds: seq<NodeDesc>, tables: seq<LoadedTable>, k: nat, i: nat)
    requires DistinctNames(tables) && NodesLoaded(ds, tables) && i <= k < |ds|
    ensures NodeNamed(ds, tables, NameOfTable(tables, ds[k].tableIdx), i) == k
    decreases k - i
  {
    if i < k {
      assert ds[i].tableIdx != ds[k].tableIdx;
      NodeFound(ds, tables, k, i + 1);
    }
  }

  lemma ValueOfColumn(ds: seq<NodeDesc>, tables: seq<LoadedTable>, data: seq<seq<seq<int>>>, t: Tuple, k: nat, c: int)
    requires DistinctNames(tables) && NodesLoaded(ds, tables) && k < |ds| && FirstColumn(tables, ds[k].tableIdx, c)
    ensures ValueAt(ds, tables, data, t)(ColumnAt(tables, ds[k].tableIdx, c)) == Attr(RowAt(data, t, k), c)
  {
    NodeFound(ds, tables, k, 0);
    ColumnFoundExactly(ColsOfTable(tables, ds[k].tableIdx), ColsOfTable(tables, ds[k].tableIdx)[c]);
  }

  lemma EdgeAgrees(ds: seq<NodeDesc>, tables: seq<LoadedTable>, data: seq<seq<seq<int>>>, t: Tuple, i: nat)
    requires DistinctNames(tables) && NodesLoaded(ds, tables) && TreeOk(AsTree(ds)) && i < |ds| - 1 && EdgeResolved(ds, i, tables)
    ensures BandHolds(ds, i, tables, ValueAt(ds, tables, data, t)) <==> EdgeHolds(AsTree(ds), data, t, i)
  {
    ValueOfColumn(ds, tables, data, t, i, ds[i].joinCol);
    ValueOfColumn(ds, tables, data, t, ds[i].parentIdx, ds[i].parentJoinCol);
  }

  /** t picks a row of every table. */
  ghost predicate PicksRows(ds: seq<NodeDesc>, data: seq<seq<seq<int>>>, t: Tuple) {
    (forall k: nat :: k in t <==> k < |ds|) && forall k :: k in t ==> k < |data| && t[k] < |data[k]|
  }

  lemma EdgesAgree(ds: seq<NodeDesc>, tables: seq<LoadedTable>, data: seq<seq<seq<int>>>, t: Tuple)
    requires DistinctNames(tables) && NodesLoaded(ds, tables) && TreeOk(AsTree(ds)) && ColumnsResolved(ds, tables)
    ensures BandsHold(ds, tables, ValueAt(ds, tables, data, t)) <==>
      forall c :: IsEdge(AsTree(ds), c) ==> EdgeHolds(AsTree(ds), data, t, c)
  {
    forall i | 0 <= i < |ds| - 1
      ensures 0 <= ds[i].parentIdx < |ds|
      ensures BandHolds(ds, i, tables, ValueAt(ds, tables, data, t)) <==> EdgeHolds(AsTree(ds), data, t, i)
    {
      assert EdgeResolved(ds, i, tables);
      EdgeAgrees(ds, tables, data, t, i);
    }
    if forall c :: IsEdge(AsTree(ds), c) ==> EdgeHolds(AsTree(ds), data, t, c) {
      forall i | 0 <= i < |ds| - 1 ensures BandHolds(ds, i, tables, ValueAt(ds, tables, data, t)) {
        assert IsEdge(AsTree(ds), i);
      }
    }
  }

  lemma QueryParts(ds: seq<NodeDesc>, names: seq<string>, tables: seq<LoadedTable>, constraints: seq<Constraint>, val: Column -> int)
    requires ArrayForQuery(ds, names, tables, constraints)
    ensures TreeOk(AsTree(ds)) && (BandsHold(ds, tables, val) <==> Satisfied(constraints, val))
  {
  }

  /** The tuples of the join are the choices of rows whose values satisfy the constraints. */
  lemma TuplesSatisfy(ds: seq<NodeDesc>, names: seq<string>, tables: seq<LoadedTable>, constraints: seq<Constraint>, data: seq<seq<seq<int>>>, t: Tuple)
    requires ArrayForQuery(ds, names, tables, constraints) && DistinctNames(tables) && NodesLoaded(ds, tables) && ColumnsResolved(ds, tables)
    ensures JoinTuple(AsTree(ds), data, t) <==> PicksRows(ds, data, t) && Satisfied(constraints, ValueAt(ds, tables, data, t))
  {
    QueryParts(ds, names, tables, constraints, ValueAt(ds, tables, data, t));
    EdgesAgree(ds, tables, data, t);
  }

  // ---- Running the query ----

  /** The rows of every loaded table: as wide as its columns say, attributes in the safe range. */
  ghost predicate RowsFit(rows: seq<array<Entry>>, tables: seq<LoadedTable>)
    reads rows
  {
    && |rows| == |tables| && (forall i, j :: 0 <= i < j < |rows| ==> rows[i] != rows[j])
    && forall k :: 0 <= k < |rows| ==> TableFits(rows[k][..], |tables[k].colNames|)
  }

  ghost predicate TableFits(t: seq<Entry>, width: nat) {
    forall i :: 0 <= i < |t| ==> |t[i].attributes| == width && forall c :: 0 <= c < width ==> SafeAttr(t[i].attributes[c])
  }

  lemma ArrayNodesLoaded(ds: seq<NodeDesc>, names: seq<string>, tables: seq<LoadedTable>, constraints: seq<Constraint>)
    requires ArrayForQuery(ds, names, tables, constraints) && AllLoaded(names, tables)
    ensures NodesLoaded(ds, tables)
  {
    forall i | 0 <= i < |ds| ensures ds[i].tableIdx < |tables| {
      assert ds[i].tableIdx in FromTables(names, tables);
    }
    forall i, j | 0 <= i < j < |ds| ensures ds[i].tableIdx != ds[j].tableIdx {
      assert AsTree(ds)[i].tableIdx != AsTree(ds)[j].tableIdx;
    }
  }

  /** The node array as the join takes it. */
  method TreeOf(ds: seq<NodeDesc>) returns (tree: seq<JoinNode>)
    ensures tree == AsTree(ds)
  {
    tree := [];
    for i := 0 to |ds|
      invariant |tree| == i && forall j :: 0 <= j < i ==> tree[j] == AsJoinNode(ds[j])
    {
      tree := tree + [AsJoinNode(ds[i])];
    }
  }

  /** Columns per node. */
  method WidthsOf(ds: seq<NodeDesc>, tables: seq<LoadedTable>) returns (widths: seq<nat>)
    requires NodesLoaded(ds, tables)
    ensures NodeWidths(widths, ds, tables)
  {
    widths := [];
    for i := 0 to |ds|
      invariant |widths| == i && forall j :: 0 <= j < i ==> widths[j] == |tables[ds[j].tableIdx].colNames|
    {
      widths := widths + [|tables[ds[i].tableIdx].colNames|];
    }
  }

  ghost predicate NodeWidths(widths: seq<nat>, ds: seq<NodeDesc>, tables: seq<LoadedTable>)
    requires NodesLoaded(ds, tables)
  {
    |widths| == |ds| && forall j :: 0 <= j < |ds| ==> widths[j] == |tables[ds[j].tableIdx].colNames|
  }

  /** The attribute rows of the tables, node by node. */
  ghost function NodeData(rows: seq<array<Entry>>, ds: seq<NodeDesc>): seq<seq<seq<int>>>
    requires Loaded(rows, AsTree(ds))
    reads rows
  {
    Data(ByNode(rows, AsTree(ds)))
  }

  /** What the join needs of its input. */
  lemma InputFits(rows: seq<array<Entry>>, ds: seq<NodeDesc>, tables: seq<LoadedTable>, widths: seq<nat>)
    requires RowsFit(rows, tables) && NodesLoaded(ds, tables) && TreeOk(AsTree(ds)) && ColumnsResolved(ds, tables) && NodeWidths(widths, ds, tables)
    ensures Loaded(rows, AsTree(ds)) && InputOk(AsTree(ds), ByNode(rows, AsTree(ds)))
    ensures RowsWide(NodeData(rows, ds), widths) && ColumnsExist(AsTree(ds), widths)
  {
    var tree := AsTree(ds);
    forall k | 0 <= k < |ds| ensures TableFits(ByNode(rows, tree)[k], widths[k]) {
      assert TableFits(rows[ds[k].tableIdx][..], |tables[ds[k].tableIdx].colNames|);
    }
    forall k | IsEdge(tree, k)
      ensures SafeColumn(ByNode(rows, tree)[k], tree[k].joinCol) && SafeColumn(ByNode(rows, tree)[Parent(tree, k)], tree[k].parentJoinCol)
      ensures tree[k].joinCol < widths[k] && tree[k].parentJoinCol < widths[Parent(tree, k)]
    {
      assert EdgeResolved(ds, k, tables);
      FitsIsSafe(ByNode(rows, tree)[k], widths[k], tree[k].joinCol);
      FitsIsSafe(ByNode(rows, tree)[Parent(tree, k)], widths[Parent(tree, k)], tree[k].parentJoinCol);
    }
  }

  lemma FitsIsSafe(t: seq<Entry>, width: nat, c: nat)
    requires TableFits(t, width) && c < width
    ensures SafeColumn(t, c)
  {
  }

  /** result holds a row for every choice of rows that satisfies the constraints, and no other; ts lists the choices. */
  ghost predicate AnswersQuery(result: seq<Row>, ts: seq<Tuple>, ds: seq<NodeDesc>, tables: seq<LoadedTable>, constraints: seq<Constraint>,
                               data: seq<seq<seq<int>>>)
    requires TreeOk(AsTree(ds))
  {
    && NoRepeats(ts)
    && (forall t :: t in ts <==> PicksRows(ds, data, t) && Satisfied(constraints, ValueAt(ds, tables, data, t)))
    && multiset(result) == multiset(Contents(AttachOrder(AsTree(ds)), data, ts))
  }

  lemma JoinIsAnswer(result: seq<Row>, ts: seq<Tuple>, ds: seq<NodeDesc>, names: seq<string>, tables: seq<LoadedTable>, constraints: seq<Constraint>,
                     data: seq<seq<seq<int>>>)
    requires ArrayForQuery(ds, names, tables, constraints) && DistinctNames(tables) && NodesLoaded(ds, tables) && ColumnsResolved(ds, tables)
    requires ListsJoin(ts, AsTree(ds), data) && IsJoin(result, AsTree(ds), data, AttachOrder(AsTree(ds)))
    ensures AnswersQuery(result, ts, ds, tables, constraints, data)
  {
    forall t ensures t in ts <==> PicksRows(ds, data, t) && Satisfied(constraints, ValueAt(ds, tables, data, t)) {
      TuplesSatisfy(ds, names, tables, constraints, data, t);
    }
  }

  /** The join over a serialised array. */
  method RunArray(rows: seq<array<Entry>>, ds: seq<NodeDesc>, tables: seq<LoadedTable>, ghost names: seq<string>, ghost constraints: seq<Constraint>)
    returns (res: ResultTable, ghost ts: seq<Tuple>, ghost data: seq<seq<seq<int>>>)
    requires RowsFit(rows, tables) && ArrayForQuery(ds, names, tables, constraints) && AllLoaded(names, tables) && DistinctNames(tables)
    requires ColumnsResolved(ds, tables)
    modifies rows
    ensures TreeOk(AsTree(ds)) && Loaded(rows, AsTree(ds)) && data == old(NodeData(rows, ds))
    ensures AnswersQuery(Attrs(res.rows[..]), ts, ds, tables, constraints, data)
  {
    ArrayNodesLoaded(ds, names, tables, constraints);
    var tree := TreeOf(ds);
    var widths := WidthsOf(ds, tables);
    InputFits(rows, ds, tables, widths);
    data := NodeData(rows, ds);
    res, ts := RunJoin(rows, tree, widths);
    JoinIsAnswer(Attrs(res.rows[..]), ts, ds, names, tables, constraints, data);
  }

  lemma SerializedResolved(ds: seq<NodeDesc>, names: seq<string>, tables: seq<LoadedTable>, constraints: seq<Constraint>, trees: seq<RTree>,
                           variant: nat, u: RTree)
    requires NamedTables(tables) && Acyclic(trees, names, tables, constraints)
    requires Answers(Serialized(ds), names, tables, constraints, trees, variant, u)
    ensures ColumnsResolved(ds, tables)
  {
    var k := SelectedShape(trees, names, tables, constraints, variant, u);
    forall x | x in Tables(u) ensures 0 <= x < |tables| {
      TablesLoadedIn(trees[k], -1, tables, constraints, x);
    }
    ArrayResolved(ds, u, tables, constraints);
  }

  /**
   * A query whose constraints form a spanning tree, from its constraints to its result. There is a result exactly if the
   * variant is in range and the tables list the columns that the constraints name. The variant selects the node array; whatever
   * it is, the rows are those of the choices of rows that satisfy the constraints.
   */
  method RunQuery(rows: seq<array<Entry>>, names: seq<string>, tables: seq<LoadedTable>, constraints: seq<Constraint>, variant: nat)
    returns (o: Outcome, res: ResultTable?, ghost trees: seq<RTree>, ghost u: RTree, ghost ts: seq<Tuple>, ghost data: seq<seq<seq<int>>>)
    requires TreeQuery(names, tables, constraints) && AllSound(constraints) && RowsFit(rows, tables)
    modifies rows
    ensures Acyclic(trees, names, tables, constraints) && Answers(o, names, tables, constraints, trees, variant, u)
    ensures o.OutOfRange? <==> variant >= AllNumbers(SeenCounts(trees))
    ensures o.ColumnNotFound? <==> variant < AllNumbers(SeenCounts(trees)) && !AllColumnsListed(tables, constraints)
    ensures res != null <==> variant < AllNumbers(SeenCounts(trees)) && AllColumnsListed(tables, constraints)
    ensures o.Serialized? <==> res != null
    ensures o.Serialized? ==> TreeOk(AsTree(o.nodes)) && Loaded(rows, AsTree(o.nodes)) && data == old(NodeData(rows, o.nodes))
    ensures o.Serialized? ==> AnswersQuery(Attrs(res.rows[..]), ts, o.nodes, tables, constraints, data)
  {
    o, trees, u := SerializeQuery(names, tables, constraints, variant);
    res, ts, data := null, [], [];
    if o.Serialized? {
      SerializedResolved(o.nodes, names, tables, constraints, trees, variant, u);
      res, ts, data := RunArray(rows, o.nodes, tables, names, constraints);
    }
  }

  /** The constraints accept exactly the values in reach that meet the comparisons. */
  ghost predicate SaysTheSame(merged: seq<Constraint>, qs: seq<Comparison>) {
    forall val: Column -> int {:trigger Satisfied(merged, val)} :: Satisfied(merged, val) <==> AllMeet(qs, val) && AllInReach(qs, val)
  }

  /** The constraints of a query: translation and merging, when nothing failed, say what the parsed comparisons say. */
  method QueryConstraints(qs: seq<Comparison>) returns (merged: seq<Constraint>, failed: bool)
    ensures (AllUsable(qs) ==> AllSound(merged)) && (!failed ==> SaysTheSame(merged, qs))
    ensures failed ==> forall val: Column -> int :: AllInReach(qs, val) ==> !AllMeet(qs, val)
  {
    merged, failed := JoinConstraints(qs);
    if failed {
      forall val: Column -> int | AllInReach(qs, val) ensures !AllMeet(qs, val) {
        assert Satisfied(merged, val) || !Satisfied(merged, val);
      }
    }
  }

  /** From the parsed comparisons to the result: a row of the result is a choice of rows in reach that meets every comparison. */
  lemma AnswersComparisons(qs: seq<Comparison>, merged: seq<Constraint>, result: seq<Row>, ts: seq<Tuple>, ds: seq<NodeDesc>,
                           tables: seq<LoadedTable>, data: seq<seq<seq<int>>>, t: Tuple)
    requires SaysTheSame(merged, qs) && TreeOk(AsTree(ds)) && AnswersQuery(result, ts, ds, tables, merged, data)
    ensures t in ts <==>
      PicksRows(ds, data, t) && AllMeet(qs, ValueAt(ds, tables, data, t)) && AllInReach(qs, ValueAt(ds, tables, data, t))
  {
    assert Satisfied(merged, ValueAt(ds, tables, data, t)) <==>
      AllMeet(qs, ValueAt(ds, tables, data, t)) && AllInReach(qs, ValueAt(ds, tables, data, t));
  }
}
