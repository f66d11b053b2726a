/** What the serialised array says: the FROM tables once each, the WHERE constraints, and which variant it is. */
module VariantArrays {
  import opened Totals
  import opened Records
  import opened JoinTree
  import opened HostLayout
  import opened Conditions
  import opened TreeVariants
  import opened JoinGraph
  import opened PostorderWalk
  import opened SerializedTree
  import opened VariantShape
  import opened Serializer

  // ---- The tables of the array ----

  ghost function FromTables(names: seq<string>, tables: seq<LoadedTable>): set<int> {
    set i | 0 <= i < |names| :: TableIndex(tables, names[i], 0)
  }

  lemma {:induction false} FewFromTables(names: seq<string>, tables: seq<LoadedTable>)
    ensures |FromTables(names, tables)| <= |names|
  {
    if names != [] {
      var front, last := names[..|names| - 1], TableIndex(tables, names[|names| - 1], 0);
      FewFromTables(front, tables);
      assert FromTables(names, tables) == FromTables(front, tables) + {last} by {
        forall x ensures x in FromTables(names, tables) <==> x in FromTables(front, tables) + {last} {
          if x in FromTables(front, tables) {
            var i :| 0 <= i < |front| && TableIndex(tables, front[i], 0) == x;
            assert names[i] == front[i];
          }
          assert names[|names| - 1] == names[|front|];
        }
      }
    }
  }

  lemma {:induction false} FullSubset(a: set<int>, b: set<int>)
    requires a <= b && |a| >= |b|
    ensures a == b
  {
    forall x | x in b ensures x in a {
      if x !in a {
        SubsetSize(a, b - {x});
      }
    }
  }

  /** Constraints mention FROM tables only. */
  ghost predicate InFrom(names: seq<string>, constraints: seq<Constraint>) {
    forall k :: 0 <= k < |constraints| ==> constraints[k].source.table in names && constraints[k].target.table in names
  }

  lemma EdgeInFrom(names: seq<string>, tables: seq<LoadedTable>, c: Constraint, v: nat, e: ChildEdge)
    requires v < |tables| && EdgeOf(tables, c, v) == Some(e) && c.source.table in names && c.target.table in names
    ensures e.tableIdx in FromTables(names, tables)
  {
    var i :| 0 <= i < |names| && names[i] == c.source.table;
    var j :| 0 <= j < |names| && names[j] == c.target.table;
    assert TableIndex(tables, names[i], 0) in FromTables(names, tables);
    assert TableIndex(tables, names[j], 0) in FromTables(names, tables);
  }

  lemma {:induction false} TreeInFrom(u: RTree, names: seq<string>, tables: seq<LoadedTable>, constraints: seq<Constraint>, x: int)
    requires Linked(u, tables, constraints) && InFrom(names, constraints) && u.table in FromTables(names, tables) && x in Tables(u)
    ensures x in FromTables(names, tables)
  {
    if x != u.table {
      TablesOfMembers(u.kids, x);
      var i :| 0 <= i < |u.kids| && x in Tables(u.kids[i]);
      assert LinkedKid(u.table, u.kids[i], tables, constraints);
      var k :| 0 <= k < |constraints| && EdgeOf(tables, constraints[k], u.table) == Some(ChildEdge(u.kids[i].table, u.kids[i].link));
      EdgeInFrom(names, tables, constraints[k], u.table, ChildEdge(u.kids[i].table, u.kids[i].link));
      TreeInFrom(u.kids[i], names, tables, constraints, x);
    }
  }

  /** A selected tree is linked by constraints, mentions no table twice, and starts at a FROM table. */
  lemma SelectedShape(trees: seq<RTree>, names: seq<string>, tables: seq<LoadedTable>, constraints: seq<Constraint>, s: nat, u: RTree) returns (k: nat)
    requires Acyclic(trees, names, tables, constraints) && IsVariant(names, tables, trees, s, u)
    ensures k < |trees| && Reordering(trees[k], u) && Unrolls(trees[k], -1, tables, constraints) && OnceEachTable(trees[k])
    ensures Linked(u, tables, constraints) && OnceEachTable(u) && Tables(u) == Tables(trees[k]) && u.table == trees[k].table
    ensures u.table in FromTables(names, tables)
  {
    var i: nat, r: nat :| PickedAt(trees, SeenCounts(trees), s, u, i, r);
    k := i;
    DecodeReorders(trees[k], r);
    assert Rooted(trees[k], names[k], tables, constraints);
    UnrolledLinked(trees[k], -1, tables, constraints);
    ReorderedLinked(trees[k], u, tables, constraints);
    ReorderedTables(trees[k], u);
    SameHead(trees[k], u);
  }

  /**
   * A serialised query holds each of its FROM tables exactly once, in an array that the join accepts: children before
   * their parents, the root last.
   */
  lemma {:induction false} EveryTableOnce(names: seq<string>, tables: seq<LoadedTable>, constraints: seq<Constraint>, trees: seq<RTree>, variant: nat,
                                          ds: seq<NodeDesc>, u: RTree)
    requires NamedTables(tables) && Acyclic(trees, names, tables, constraints)
    requires Answers(Serialized(ds), names, tables, constraints, trees, variant, u) && InFrom(names, constraints) && ValidBands(constraints)
    ensures TreeOk(AsTree(ds))
    ensures |ds| == |names| && forall x :: x in FromTables(names, tables) <==> exists i :: 0 <= i < |ds| && ds[i].tableIdx == x
  {
    var k := SelectedShape(trees, names, tables, constraints, variant, u);
    var ns := PostOrder(u, RootInfo(u.table), tables);
    forall x | x in Tables(u) ensures 0 <= x < |tables| && x in FromTables(names, tables) {
      TablesLoadedIn(trees[k], -1, tables, constraints, x);
      TreeInFrom(u, names, tables, constraints, x);
    }
    SerializedTreeOk(ds, ns, u.table, Tables(u), tables, constraints);
    FewFromTables(names, tables);
    FullSubset(Tables(u), FromTables(names, tables));
    DistinctCount(ns);
    DescribedTables(ds, ns, tables);
  }

  lemma DescribedTables(ds: seq<NodeDesc>, ns: seq<NodeInfo>, tables: seq<LoadedTable>)
    requires Described(ds, ns, tables, |ns|)
    ensures forall x :: x in TableSet(ns) <==> exists i :: 0 <= i < |ds| && ds[i].tableIdx == x
  {
    forall x ensures x in TableSet(ns) <==> exists i :: 0 <= i < |ds| && ds[i].tableIdx == x {
      if x in TableSet(ns) {
        var i :| 0 <= i < |ns| && ns[i].tableIdx == x;
        assert ds[i].tableIdx == x;
      }
      if i :| 0 <= i < |ds| && ds[i].tableIdx == x {
        assert ns[i].tableIdx == x;
      }
    }
  }

  lemma {:induction false} DistinctCount(ns: seq<NodeInfo>)
    requires DistinctTables(ns)
    ensures |TableSet(ns)| == |ns|
  {
    if ns != [] {
      var front, last := ns[..|ns| - 1], ns[|ns| - 1].tableIdx;
      DistinctCount(front);
      assert last !in TableSet(front);
      assert TableSet(ns) == TableSet(front) + {last} by {
        forall x ensures x in TableSet(ns) <==> x in TableSet(front) + {last} {
          if x in TableSet(front) {
            var i :| 0 <= i < |front| && front[i].tableIdx == x;
            assert ns[i] == front[i];
          }
          assert ns[|ns| - 1] == ns[|front|];
        }
      }
    }
  }

  // ---- The bands of the array ----

  /** The column of table k at position c. */
  function ColumnAt(tables: seq<LoadedTable>, k: nat, c: int): Column {
    Column(NameOfTable(tables, k), if 0 <= c < |ColsOfTable(tables, k)| then ColsOfTable(tables, k)[c] else "")
  }

  /** The band of node i holds between its column and its parent's. */
  ghost predicate BandHolds(ds: seq<NodeDesc>, i: nat, tables: seq<LoadedTable>, val: Column -> int)
    requires i < |ds| && 0 <= ds[i].parentIdx < |ds|
  {
    var d := ds[i];
    InBand(AsJoinNode(d), val(ColumnAt(tables, d.tableIdx, d.joinCol)),
           val(ColumnAt(tables, ds[d.parentIdx].tableIdx, d.parentJoinCol)))
  }

  /** Every band of the array holds. */
  ghost predicate BandsHold(ds: seq<NodeDesc>, tables: seq<LoadedTable>, val: Column -> int) {
    forall i :: 0 <= i < |ds| - 1 ==> 0 <= ds[i].parentIdx < |ds| && BandHolds(ds, i, tables, val)
  }

  /** The same for a record, its parent given by name. */
  ghost predicate InfoHolds(n: NodeInfo, tables: seq<LoadedTable>, val: Column -> int) {
    var p := TableIndex(tables, n.parentTable, 0);
    p >= 0 && InBand(AsJoinNode(DescOf(n, 0)), val(ColumnAt(tables, n.tableIdx, n.joinCol)), val(ColumnAt(tables, p, n.parentJoinCol)))
  }

  ghost predicate ListHolds(ns: seq<NodeInfo>, tables: seq<LoadedTable>, val: Column -> int) {
    forall i :: 0 <= i < |ns| ==> InfoHolds(ns[i], tables, val)
  }

  lemma ListHoldsConcat(a: seq<NodeInfo>, b: seq<NodeInfo>, tables: seq<LoadedTable>, val: Column -> int)
    ensures ListHolds(a + b, tables, val) <==> ListHolds(a, tables, val) && ListHolds(b, tables, val)
  {
    if ListHolds(a + b, tables, val) {
      forall i | 0 <= i < |a| ensures InfoHolds(a[i], tables, val) {
        assert (a + b)[i] == a[i];
      }
      forall i | 0 <= i < |b| ensures InfoHolds(b[i], tables, val) {
        assert (a + b)[i + |a|] == b[i];
      }
    }
  }

  lemma LinkColumns(v: nat, k: nat, link: Constraint, tables: seq<LoadedTable>, constraints: seq<Constraint>)
    requires v < |tables| && IsLink(v, k, link, tables, constraints)
    ensures k < |tables| && link.source.table == tables[k].name && link.target.table == tables[v].name
  {
  }

  /** A record with found columns says what its link says. */
  lemma {:induction false} KidHolds(v: nat, kid: RTree, tables: seq<LoadedTable>, constraints: seq<Constraint>, val: Column -> int)
    requires DistinctNames(tables) && LinkedKid(v, kid, tables, constraints) && LinkFound(v, kid, tables)
    ensures InfoHolds(KidInfo(tables, v, kid.table, kid.link), tables, val) <==> LinkHolds(kid.link, val)
  {
    var n := KidInfo(tables, v, kid.table, kid.link);
    LinkColumns(v, kid.table, kid.link, tables, constraints);
    TableIndexUnique(tables, v, 0);
    ColumnFoundExactly(tables[kid.table].colNames, kid.link.source.col);
    ColumnFoundExactly(tables[v].colNames, kid.link.target.col);
    assert ColumnAt(tables, kid.table, n.joinCol) == kid.link.source;
    assert ColumnAt(tables, v, n.parentJoinCol) == kid.link.target;
  }

  ghost predicate KidsLinked(v: nat, us: seq<RTree>, tables: seq<LoadedTable>, constraints: seq<Constraint>) {
    forall i :: 0 <= i < |us| ==> KidLinked(v, us[i], tables, constraints)
  }

  ghost predicate KidLinked(v: nat, u: RTree, tables: seq<LoadedTable>, constraints: seq<Constraint>) {
    LinkedKid(v, u, tables, constraints) && Linked(u, tables, constraints) && LinkFound(v, u, tables) && ColumnsFound(u, tables)
  }

  /** Every link of these children and below them holds. */
  ghost predicate KidsSatisfied(us: seq<RTree>, val: Column -> int) {
    forall i :: 0 <= i < |us| ==> KidSatisfied(us[i], val)
  }

  ghost predicate KidSatisfied(u: RTree, val: Column -> int) {
    LinkHolds(u.link, val) && TreeSatisfied(u, val)
  }

  lemma FirstAndRest(us: seq<RTree>, v: nat, tables: seq<LoadedTable>, constraints: seq<Constraint>, val: Column -> int)
    requires us != []
    ensures KidsSatisfied(us, val) <==> KidSatisfied(us[0], val) && KidsSatisfied(us[1..], val)
    ensures KidsLinked(v, us, tables, constraints) ==> KidLinked(v, us[0], tables, constraints) && KidsLinked(v, us[1..], tables, constraints)
  {
    if KidSatisfied(us[0], val) && KidsSatisfied(us[1..], val) {
      forall i | 0 <= i < |us| ensures KidSatisfied(us[i], val) {
        assert i > 0 ==> us[1..][i - 1] == us[i];
      }
    }
  }

  lemma BelowLinked(u: RTree, tables: seq<LoadedTable>, constraints: seq<Constraint>, val: Column -> int)
    requires Linked(u, tables, constraints) && ColumnsFound(u, tables)
    ensures KidsLinked(u.table, u.kids, tables, constraints)
    ensures KidsSatisfied(u.kids, val) <==> TreeSatisfied(u, val)
  {
    forall i | 0 <= i < |u.kids| ensures KidLinked(u.table, u.kids[i], tables, constraints) {
    }
    if TreeSatisfied(u, val) {
      forall i | 0 <= i < |u.kids| ensures KidSatisfied(u.kids[i], val) {
      }
    }
  }

  lemma {:induction false} KidsHold(v: nat, us: seq<RTree>, tables: seq<LoadedTable>, constraints: seq<Constraint>, val: Column -> int)
    requires DistinctNames(tables) && KidsLinked(v, us, tables, constraints)
    ensures ListHolds(KidsPost(v, us, tables), tables, val) <==> KidsSatisfied(us, val)
    decreases us, 0
  {
    if us != [] {
      FirstAndRest(us, v, tables, constraints, val);
      SubtreeHolds(v, us[0], tables, constraints, val);
      KidsHold(v, us[1..], tables, constraints, val);
      ListHoldsConcat(PostOrder(us[0], KidInfo(tables, v, us[0].table, us[0].link), tables), KidsPost(v, us[1..], tables), tables, val);
    }
  }

  lemma {:induction false} SubtreeHolds(v: nat, u: RTree, tables: seq<LoadedTable>, constraints: seq<Constraint>, val: Column -> int)
    requires DistinctNames(tables) && KidLinked(v, u, tables, constraints)
    ensures ListHolds(PostOrder(u, KidInfo(tables, v, u.table, u.link), tables), tables, val) <==> KidSatisfied(u, val)
    decreases u, 1
  {
    var self := KidInfo(tables, v, u.table, u.link);
    KidHolds(v, u, tables, constraints, val);
    BelowLinked(u, tables, constraints, val);
    KidsHold(u.table, u.kids, tables, constraints, val);
    PostOrderOf(u, self, tables);
    ListHoldsConcat(KidsPost(u.table, u.kids, tables), [self], tables, val);
    assert ListHolds([self], tables, val) <==> InfoHolds(self, tables, val) by {
      assert [self][0] == self;
    }
  }

  /** Parents by position and parents by name are the same tables. */
  lemma {:induction false} BandsByName(ds: seq<NodeDesc>, ns: seq<NodeInfo>, i: nat, root: nat, ts: set<int>, tables: seq<LoadedTable>,
                                       constraints: seq<Constraint>, val: Column -> int)
    requires NamedTables(tables) && Serial(ns, root, ts, tables, constraints) && Described(ds, ns, tables, |ns|)
    requires i < |ns| - 1 && forall x :: x in ts ==> 0 <= x < |tables|
    ensures 0 <= ds[i].parentIdx < |ds| && (BandHolds(ds, i, tables, val) <==> InfoHolds(ns[i], tables, val))
  {
    ParentIsLater(ds, ns, root, ts, tables, constraints, i);
    var p := ds[i].parentIdx;
    assert ParentAt(ns, ns[i], p, tables);
    assert ds[p].tableIdx == ns[p].tableIdx && ns[p].tableIdx in TableSet(ns);
    TableIndexUnique(tables, ns[p].tableIdx, 0);
    ParentNamed(ns, i, tables, constraints);
  }

  lemma ParentNamed(ns: seq<NodeInfo>, i: nat, tables: seq<LoadedTable>, constraints: seq<Constraint>)
    requires i < |ns| && RecordOk(ns[i], tables, constraints) && forall k :: 0 <= k < |tables| ==> tables[k].name != ""
    ensures ns[i].parentTable != ""
  {
  }

  lemma {:induction false} BandsOfList(ds: seq<NodeDesc>, ns: seq<NodeInfo>, root: nat, ts: set<int>, tables: seq<LoadedTable>,
                                       constraints: seq<Constraint>, val: Column -> int)
    requires NamedTables(tables) && Serial(ns, root, ts, tables, constraints) && Described(ds, ns, tables, |ns|)
    requires forall x :: x in ts ==> 0 <= x < |tables|
    ensures BandsHold(ds, tables, val) <==> ListHolds(ns[..|ns| - 1], tables, val)
  {
    forall i | 0 <= i < |ns| - 1
      ensures 0 <= ds[i].parentIdx < |ds| && (BandHolds(ds, i, tables, val) <==> InfoHolds(ns[..|ns| - 1][i], tables, val))
    {
      BandsByName(ds, ns, i, root, ts, tables, constraints, val);
    }
  }

  lemma {:induction false} ArrayHoldsTree(ds: seq<NodeDesc>, u: RTree, tables: seq<LoadedTable>, constraints: seq<Constraint>, val: Column -> int)
    requires NamedTables(tables) && Linked(u, tables, constraints) && ColumnsFound(u, tables) && ArrayOf(ds, u, tables, constraints)
    requires forall x :: x in Tables(u) ==> 0 <= x < |tables|
    ensures BandsHold(ds, tables, val) <==> TreeSatisfied(u, val)
  {
    var ns := PostOrder(u, RootInfo(u.table), tables);
    var below := KidsPost(u.table, u.kids, tables);
    PostOrderOf(u, RootInfo(u.table), tables);
    BelowLinked(u, tables, constraints, val);
    KidsHold(u.table, u.kids, tables, constraints, val);
    BandsOfList(ds, ns, u.table, Tables(u), tables, constraints, val);
    assert ns[..|ns| - 1] == below;
  }

  /** Every constraint of the query connects two different loaded tables. */
  ghost predicate Joins(tables: seq<LoadedTable>, constraints: seq<Constraint>) {
    forall k :: 0 <= k < |constraints| ==> exists v: nat, w: nat :: Connects(tables, constraints[k], v, w)
  }

  lemma {:induction false} FromSpans(names: seq<string>, t: RTree, tables: seq<LoadedTable>, constraints: seq<Constraint>)
    requires DistinctNames(tables) && InFrom(names, constraints) && Joins(tables, constraints) && FromTables(names, tables) <= Tables(t)
    ensures Spanned(t, tables, constraints)
  {
    forall k | 0 <= k < |constraints| ensures SpannedBy(t, tables, constraints[k]) {
      var v: nat, w: nat :| Connects(tables, constraints[k], v, w);
      var i :| 0 <= i < |names| && names[i] == constraints[k].source.table;
      TableIndexUnique(tables, v, 0);
      assert TableIndex(tables, names[i], 0) in FromTables(names, tables);
    }
  }

  /** Whatever root and orderings the variant picks, the bands of the array accept exactly what the constraints accept. */
  lemma {:induction false} ArrayIsConjunction(names: seq<string>, tables: seq<LoadedTable>, constraints: seq<Constraint>, trees: seq<RTree>,
                                              variant: nat, ds: seq<NodeDesc>, u: RTree, val: Column -> int)
    requires NamedTables(tables) && Acyclic(trees, names, tables, constraints)
    requires Answers(Serialized(ds), names, tables, constraints, trees, variant, u) && InFrom(names, constraints) && Joins(tables, constraints)
    ensures BandsHold(ds, tables, val) <==> Satisfied(constraints, val)
  {
    var k := SelectedShape(trees, names, tables, constraints, variant, u);
    forall x | x in Tables(u) ensures 0 <= x < |tables| && x in FromTables(names, tables) {
      TablesLoadedIn(trees[k], -1, tables, constraints, x);
      TreeInFrom(u, names, tables, constraints, x);
    }
    FewFromTables(names, tables);
    FullSubset(Tables(u), FromTables(names, tables));
    ArrayHoldsTree(ds, u, tables, constraints, val);
    ReorderedSatisfied(trees[k], u, val);
    FromSpans(names, trees[k], tables, constraints);
    TreeIsConjunction(trees[k], tables, constraints, val);
  }
}
