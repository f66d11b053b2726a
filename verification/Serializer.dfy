/** serialize_join_tree: a variant number selects a root and the order of every node's children. */
module Serializer {
  import opened HostLayout
  import opened Conditions
  import opened TreeVariants
  import opened JoinGraph
  import opened PostorderWalk
  import opened SerializedTree
  import opened VariantCount
  import opened VariantShape

  // ---- The query graph ----

  /** What the join graph has to be: from every loaded table of the query it unrolls into a tree. */
  ghost predicate Acyclic(trees: seq<RTree>, names: seq<string>, tables: seq<LoadedTable>, constraints: seq<Constraint>) {
    |trees| == |names| && forall i :: 0 <= i < |names| ==> Rooted(trees[i], names[i], tables, constraints)
  }

  ghost predicate Rooted(t: RTree, name: string, tables: seq<LoadedTable>, constraints: seq<Constraint>) {
    TableIndex(tables, name, 0) >= 0 ==>
      && t.table == TableIndex(tables, name, 0) && Unrolls(t, -1, tables, constraints) && OnceEachTable(t) && FewKids(t)
  }

  ghost predicate AllLoaded(names: seq<string>, tables: seq<LoadedTable>) {
    forall i :: 0 <= i < |names| ==> TableIndex(tables, names[i], 0) >= 0
  }

  // ---- Choosing the root ----

  /** The counts fit what was computed for the trees. */
  ghost predicate IsShape(shape: seq<int>, trees: seq<RTree>, n: nat) {
    n <= |shape| && n <= |trees| && forall i :: 0 <= i < n ==> shape[i] == ToInt32(Variants(trees[i]) % UINT64_SPAN)
  }

  lemma ShapeSnoc(shape: seq<int>, trees: seq<RTree>, c: int)
    requires |shape| < |trees| && IsShape(shape, trees, |shape|) && c == ToInt32(Variants(trees[|shape|]) % UINT64_SPAN)
    ensures IsShape(shape + [c], trees, |shape| + 1)
  {
  }

  /** The count of one root, cast to int32_t. */
  method CountAt(names: seq<string>, i: nat, tables: seq<LoadedTable>, constraints: seq<Constraint>, ghost trees: seq<RTree>) returns (c: int)
    requires AllLoaded(names, tables) && Acyclic(trees, names, tables, constraints) && i < |names|
    ensures c == ToInt32(Variants(trees[i]) % UINT64_SPAN)
  {
    assert Rooted(trees[i], names[i], tables, constraints);
    var n := ChildOrderings(TableIndex(tables, names[i], 0), tables, constraints, trees[i]);
    c := ToInt32(n);
  }

  /** join_tree_variant_shape: the number of orderings for every root. */
  method ShapeOf(names: seq<string>, tables: seq<LoadedTable>, constraints: seq<Constraint>, ghost trees: seq<RTree>)
    returns (shape: seq<int>)
    requires AllLoaded(names, tables) && Acyclic(trees, names, tables, constraints)
    ensures |shape| == |names| && IsShape(shape, trees, |names|)
  {
    shape := [];
    for i := 0 to |names|
      invariant |shape| == i && IsShape(shape, trees, i)
    {
      var c := CountAt(names, i, tables, constraints, trees);
      ShapeSnoc(shape, trees, c);
      shape := shape + [c];
    }
  }

  /** The root and the number of the ordering below it. */
  method PickRoot(shape: seq<int>, variant: nat, ghost trees: seq<RTree>) returns (pos: nat, rest: nat)
    requires |shape| == |trees| && IsShape(shape, trees, |trees|)
    ensures pos <= |trees| && (pos < |trees| <==> variant < AllNumbers(SeenCounts(trees)))
    ensures pos < |trees| ==> IsNumber(SeenCounts(trees), pos, rest, variant)
  {
    pos, rest := 0, variant;
    while pos < |shape| && rest >= ToUint64(shape[pos])
      invariant pos <= |shape| && variant == Before(SeenCounts(trees), pos) + rest
    {
      rest := rest - ToUint64(shape[pos]);
      pos := pos + 1;
    }
    if pos < |shape| {
      NumberBelow(SeenCounts(trees), pos, rest, variant);
    }
  }

  // ---- Serialising ----

  datatype Outcome =
    | Serialized(nodes: seq<NodeDesc>)
    | NoTables
    | TableNotLoaded(position: nat)
    | OutOfRange
    | ColumnNotFound
    | Disconnected

  /** The position of the first FROM table that is not loaded, or the number of FROM tables. */
  method FirstMissing(names: seq<string>, tables: seq<LoadedTable>) returns (i: nat)
    ensures i <= |names| && AllLoaded(names[..i], tables)
    ensures i < |names| ==> TableIndex(tables, names[i], 0) < 0
  {
    i := 0;
    while i < |names| && TableIndex(tables, names[i], 0) >= 0
      invariant i <= |names| && AllLoaded(names[..i], tables)
    {
      i := i + 1;
    }
  }

  /** The array for the tree u: its tables once each in post-order, positions of parents filled in. */
  ghost predicate ArrayOf(ds: seq<NodeDesc>, u: RTree, tables: seq<LoadedTable>, constraints: seq<Constraint>) {
    var ns := PostOrder(u, RootInfo(u.table), tables);
    Serial(ns, u.table, Tables(u), tables, constraints) && Described(ds, ns, tables, |ns|)
  }

  /** u is the tree that the variant number selects, by the counts that the host compares. */
  ghost predicate IsVariant(names: seq<string>, tables: seq<LoadedTable>, trees: seq<RTree>, variant: nat, u: RTree) {
    AllLoaded(names, tables) && Picked(trees, SeenCounts(trees), variant, u)
  }

  /** What each outcome says; u is the selected tree. */
  ghost predicate Answers(o: Outcome, names: seq<string>, tables: seq<LoadedTable>, constraints: seq<Constraint>, trees: seq<RTree>, variant: nat, u: RTree) {
    match o
    case NoTables => names == []
    case TableNotLoaded(i) => i < |names| && AllLoaded(names[..i], tables) && TableIndex(tables, names[i], 0) < 0
    case OutOfRange => names != [] && AllLoaded(names, tables) && variant >= AllNumbers(SeenCounts(trees))
    case ColumnNotFound => IsVariant(names, tables, trees, variant, u) && !ColumnsFound(u, tables)
    case Disconnected => IsVariant(names, tables, trees, variant, u) && ColumnsFound(u, tables) && |Tables(u)| != |names|
    case Serialized(ds) =>
      && IsVariant(names, tables, trees, variant, u) && ColumnsFound(u, tables) && |Tables(u)| == |names|
      && ArrayOf(ds, u, tables, constraints)
  }

  lemma {:induction false} ReorderedColumns(t: RTree, u: RTree, tables: seq<LoadedTable>)
    requires Reordering(t, u)
    ensures ColumnsFound(u, tables) <==> ColumnsFound(t, tables)
  {
    var order := ReorderingOrder(t, u);
    OrderCovers(|t.kids|, order);
    forall j | 0 <= j < |order|
      ensures (LinkFound(u.table, u.kids[j], tables) && ColumnsFound(u.kids[j], tables))
        <==> (LinkFound(t.table, t.kids[order[j]], tables) && ColumnsFound(t.kids[order[j]], tables))
    {
      SameHead(t.kids[order[j]], u.kids[j]);
      ReorderedColumns(t.kids[order[j]], u.kids[j], tables);
    }
    if ColumnsFound(u, tables) {
      forall i: nat | i < |t.kids| ensures LinkFound(t.table, t.kids[i], tables) && ColumnsFound(t.kids[i], tables) {
        assert i in order;
        var j :| 0 <= j < |order| && order[j] == i;
        assert LinkFound(u.table, u.kids[j], tables) && ColumnsFound(u.kids[j], tables);
      }
    }
  }

  lemma {:induction false} TablesLoadedIn(t: RTree, parent: int, tables: seq<LoadedTable>, constraints: seq<Constraint>, x: int)
    requires Unrolls(t, parent, tables, constraints) && x in Tables(t)
    ensures 0 <= x < |tables|
  {
    if x != t.table {
      TablesOfMembers(t.kids, x);
      var i :| 0 <= i < |t.kids| && x in Tables(t.kids[i]);
      TablesLoadedIn(t.kids[i], t.table, tables, constraints, x);
    }
  }

  /** What the walk over one ordering of t leaves is ready to be described. */
  lemma WalkReady(t: RTree, rest: nat, tables: seq<LoadedTable>, constraints: seq<Constraint>)
    requires Unrolls(t, -1, tables, constraints) && OnceEachTable(t)
    ensures var u := Decode(t, rest).0;
      && u.table == t.table && Tables(u) == Tables(t) && (ColumnsFound(u, tables) <==> ColumnsFound(t, tables))
      && Serial(PostOrder(u, RootInfo(t.table), tables), t.table, Tables(u), tables, constraints)
    ensures forall x :: x in Tables(t) ==> 0 <= x < |tables|
  {
    var u := Decode(t, rest).0;
    DecodeReorders(t, rest);
    DecodeTable(t, rest);
    ReorderedTables(t, u);
    UnrolledLinked(t, -1, tables, constraints);
    ReorderedLinked(t, u, tables, constraints);
    ReorderedColumns(t, u, tables);
    WalkSerial(u, tables, constraints);
    forall x | x in Tables(t) ensures 0 <= x < |tables| {
      TablesLoadedIn(t, -1, tables, constraints, x);
    }
  }

  /** The walk from one root, checked for completeness and turned into the node array. */
  method SerializeFrom(root: nat, rest: nat, count: nat, tables: seq<LoadedTable>, constraints: seq<Constraint>, ghost t: RTree)
    returns (o: Outcome)
    requires NamedTables(tables) && Unrolls(t, -1, tables, constraints) && OnceEachTable(t) && FewKids(t) && root == t.table
    ensures var u := Decode(t, rest).0;
      match o
      case Serialized(ds) => ColumnsFound(u, tables) && |Tables(u)| == count && ArrayOf(ds, u, tables, constraints)
      case ColumnNotFound => !ColumnsFound(u, tables)
      case Disconnected => ColumnsFound(u, tables) && |Tables(u)| != count
      case _ => false
  {
    var w := new Walk(root, rest);
    assert {root} * Tables(t) == {root};
    WalkReady(t, rest, tables, constraints);
    var ok;
    ghost var u;
    ok, u := CollectPostorder(w, root, RootInfo(root), tables, constraints, t, -1);
    if !ok {
      return ColumnNotFound;
    }
    assert {root} + Tables(t) == Tables(t);
    if |w.visited| != count {
      return Disconnected;
    }
    assert [] + PostOrder(u, RootInfo(root), tables) == PostOrder(u, RootInfo(root), tables);
    var ds := Describe(w.nodes, tables, root, Tables(t), constraints);
    o := Serialized(ds);
  }

  /** serialize_join_tree: the node array of the selected variant, or what stands in the way. */
  method SerializeJoinTree(names: seq<string>, tables: seq<LoadedTable>, constraints: seq<Constraint>, variant: nat, ghost trees: seq<RTree>)
    returns (o: Outcome, ghost u: RTree)
    requires NamedTables(tables) && Acyclic(trees, names, tables, constraints)
    ensures o.NoTables? <==> names == []
    ensures o.TableNotLoaded? <==> names != [] && !AllLoaded(names, tables)
    ensures o.OutOfRange? <==> names != [] && AllLoaded(names, tables) && variant >= AllNumbers(SeenCounts(trees))
    ensures Answers(o, names, tables, constraints, trees, variant, u)
  {
    u := *;
    if names == [] {
      return NoTables, u;
    }
    var missing := FirstMissing(names, tables);
    if missing < |names| {
      return TableNotLoaded(missing), u;
    }
    assert names[..missing] == names;
    var shape := ShapeOf(names, tables, constraints, trees);
    var pos, rest := PickRoot(shape, variant, trees);
    if pos >= |shape| {
      return OutOfRange, u;
    }
    assert Rooted(trees[pos], names[pos], tables, constraints);
    u := Decode(trees[pos], rest).0;
    SelectedAt(trees, SeenCounts(trees), variant, u, pos, rest);
    o := SerializeFrom(TableIndex(tables, names[pos], 0), rest, |names|, tables, constraints, trees[pos]);
  }
}
