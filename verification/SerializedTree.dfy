/** The node array that the walk leaves: a tree that the join accepts, with the bands of the original constraints. */
module SerializedTree {
  import opened Totals
  import opened Records
  import opened JoinTree
  import opened HostLayout
  import opened Conditions
  import opened TreeVariants
  import opened JoinGraph
  import opened PostorderWalk

  // ---- Reordering keeps tables and links ----

  lemma {:induction false} ReorderedTables(t: RTree, u: RTree)
    requires Reordering(t, u) && OnceEachTable(t)
    ensures Tables(u) == Tables(t) && OnceEachTable(u)
  {
    var order := ReorderingOrder(t, u);
    OrderCovers(|t.kids|, order);
    forall j | 0 <= j < |order| ensures Tables(u.kids[j]) == Tables(t.kids[order[j]]) && OnceEachTable(u.kids[j]) {
      ReorderedTables(t.kids[order[j]], u.kids[j]);
    }
    SameTablesOf(t, u.kids, order);
    ReorderedOnce(t, u.kids, order);
  }

  lemma ReorderedOnce(t: RTree, us: seq<RTree>, order: seq<nat>)
    requires OnceEachTable(t) && Names(t, order) && NoRepeats(order) && |us| == |order|
    requires forall j :: 0 <= j < |order| ==> Tables(us[j]) == Tables(t.kids[order[j]]) && OnceEachTable(us[j])
    ensures OnceEachTable(RNode(t.table, t.link, us))
  {
    forall i, j | 0 <= i < j < |us| ensures Tables(us[i]) !! Tables(us[j]) {
      assert order[i] != order[j];
    }
  }

  lemma SameTablesOf(t: RTree, us: seq<RTree>, order: seq<nat>)
    requires Names(t, order) && |us| == |order| && forall i: nat :: i < |t.kids| ==> i in order
    requires forall j :: 0 <= j < |order| ==> Tables(us[j]) == Tables(t.kids[order[j]])
    ensures TablesOf(us) == TablesOf(t.kids)
  {
    forall x ensures x in TablesOf(us) <==> x in TablesOf(t.kids) {
      TablesOfMembers(us, x);
      TablesOfMembers(t.kids, x);
      if InSome(t.kids, x) {
        var i: nat :| i < |t.kids| && x in Tables(t.kids[i]);
        assert i in order;
        var j :| 0 <= j < |order| && order[j] == i;
        assert x in Tables(us[j]);
      }
    }
  }

  /** Every child hangs on a constraint between its table and its parent's. */
  ghost predicate Linked(u: RTree, tables: seq<LoadedTable>, constraints: seq<Constraint>) {
    && u.table < |tables|
    && forall i :: 0 <= i < |u.kids| ==> LinkedKid(u.table, u.kids[i], tables, constraints) && Linked(u.kids[i], tables, constraints)
  }

  ghost predicate LinkedKid(v: nat, kid: RTree, tables: seq<LoadedTable>, constraints: seq<Constraint>) {
    v < |tables| && kid.table < |tables| && IsLink(v, kid.table, kid.link, tables, constraints)
  }

  /** link is some constraint, read as an edge from table k to table v. */
  ghost predicate IsLink(v: nat, k: nat, link: Constraint, tables: seq<LoadedTable>, constraints: seq<Constraint>)
    requires v < |tables|
  {
    exists i :: 0 <= i < |constraints| && EdgeOf(tables, constraints[i], v) == Some(ChildEdge(k, link))
  }

  lemma {:induction false} UnrolledLinked(t: RTree, parent: int, tables: seq<LoadedTable>, constraints: seq<Constraint>)
    requires Unrolls(t, parent, tables, constraints)
    ensures Linked(t, tables, constraints)
  {
    var edges := EdgesOutside(tables, constraints, t.table, {parent}, |constraints|);
    EdgesMembers(tables, constraints, t.table, {parent}, |constraints|);
    forall i | 0 <= i < |t.kids| ensures LinkedKid(t.table, t.kids[i], tables, constraints) && Linked(t.kids[i], tables, constraints) {
      assert edges[i] in edges;
      var k :| 0 <= k < |constraints| && EdgeOf(tables, constraints[k], t.table) == Some(edges[i]);
      assert edges[i] == ChildEdge(t.kids[i].table, t.kids[i].link);
      UnrolledLinked(t.kids[i], t.table, tables, constraints);
    }
  }

  lemma SameHead(t: RTree, u: RTree)
    requires Reordering(t, u)
    ensures u.table == t.table && u.link == t.link
  {
  }

  lemma {:induction false} ReorderedLinked(t: RTree, u: RTree, tables: seq<LoadedTable>, constraints: seq<Constraint>)
    requires Reordering(t, u) && Linked(t, tables, constraints)
    ensures Linked(u, tables, constraints)
  {
    var order := ReorderingOrder(t, u);
    forall j | 0 <= j < |u.kids| ensures LinkedKid(u.table, u.kids[j], tables, constraints) && Linked(u.kids[j], tables, constraints) {
      var k := order[j];
      assert LinkedKid(t.table, t.kids[k], tables, constraints);
      SameHead(t.kids[k], u.kids[j]);
      ReorderedLinked(t.kids[order[j]], u.kids[j], tables, constraints);
    }
  }

  // ---- The post-order list ----

  ghost function TableSet(ns: seq<NodeInfo>): set<int> {
    set i | 0 <= i < |ns| :: ns[i].tableIdx
  }

  ghost predicate DistinctTables(ns: seq<NodeInfo>) {
    forall i, j :: 0 <= i < j < |ns| ==> ns[i].tableIdx != ns[j].tableIdx
  }

  /** The node's record comes from a constraint to the table that it names as parent. */
  ghost predicate RecordOk(n: NodeInfo, tables: seq<LoadedTable>, constraints: seq<Constraint>) {
    exists v: nat, link :: v < |tables| && n.tableIdx < |tables| && IsLink(v, n.tableIdx, link, tables, constraints)
      && n == KidInfo(tables, v, n.tableIdx, link)
  }

  ghost predicate LaterParent(ns: seq<NodeInfo>, i: nat, tables: seq<LoadedTable>)
    requires i < |ns|
  {
    exists j :: i < j < |ns| && ns[i].parentTable == NameOfTable(tables, ns[j].tableIdx)
  }

  /** Every record's parent is v or comes later. */
  ghost predicate ParentsLater(ns: seq<NodeInfo>, v: nat, tables: seq<LoadedTable>) {
    forall i :: 0 <= i < |ns| ==> ns[i].parentTable == NameOfTable(tables, v) || LaterParent(ns, i, tables)
  }

  lemma LaterConcat(a: seq<NodeInfo>, b: seq<NodeInfo>, v: nat, tables: seq<LoadedTable>)
    requires ParentsLater(a, v, tables) && ParentsLater(b, v, tables)
    ensures ParentsLater(a + b, v, tables)
  {
    forall i | 0 <= i < |a + b| && (a + b)[i].parentTable != NameOfTable(tables, v) ensures LaterParent(a + b, i, tables) {
      if i < |a| {
        assert LaterParent(a, i, tables);
        var j :| i < j < |a| && a[i].parentTable == NameOfTable(tables, a[j].tableIdx);
        assert (a + b)[j] == a[j];
      } else {
        assert LaterParent(b, i - |a|, tables);
        var j :| i - |a| < j < |b| && b[i - |a|].parentTable == NameOfTable(tables, b[j].tableIdx);
        assert (a + b)[j + |a|] == b[j];
      }
    }
  }

  /** What a stretch of the post-order below table v is. */
  ghost predicate Stretch(ns: seq<NodeInfo>, v: nat, ts: set<int>, tables: seq<LoadedTable>, constraints: seq<Constraint>) {
    && TableSet(ns) == ts && DistinctTables(ns) && ParentsLater(ns, v, tables)
    && forall i :: 0 <= i < |ns| ==> RecordOk(ns[i], tables, constraints)
  }

  lemma StretchConcat(a: seq<NodeInfo>, b: seq<NodeInfo>, v: nat, s: set<int>, t: set<int>, tables: seq<LoadedTable>, constraints: seq<Constraint>)
    requires Stretch(a, v, s, tables, constraints) && Stretch(b, v, t, tables, constraints) && s !! t
    ensures Stretch(a + b, v, s + t, tables, constraints)
  {
    var c := a + b;
    LaterConcat(a, b, v, tables);
    forall x ensures x in TableSet(c) <==> x in s + t {
      if x in TableSet(a) {
        var i :| 0 <= i < |a| && a[i].tableIdx == x;
        assert c[i] == a[i];
      }
      if x in TableSet(b) {
        var i :| 0 <= i < |b| && b[i].tableIdx == x;
        assert c[i + |a|] == b[i];
      }
    }
    forall i, j | 0 <= i < j < |c| ensures c[i].tableIdx != c[j].tableIdx {
      assert i < |a| ==> a[i].tableIdx in TableSet(a);
      assert j >= |a| ==> b[j - |a|].tableIdx in TableSet(b);
    }
  }

  /** The last record stands for the parent of the stretch before it. */
  lemma StretchSelf(ns: seq<NodeInfo>, v: nat, s: set<int>, self: NodeInfo, p: nat, tables: seq<LoadedTable>, constraints: seq<Constraint>)
    requires Stretch(ns, v, s, tables, constraints) && self.tableIdx == v && v !in s
    requires RecordOk(self, tables, constraints) && self.parentTable == NameOfTable(tables, p)
    ensures Stretch(ns + [self], p, s + {v}, tables, constraints)
  {
    var c := ns + [self];
    WithSelf(ns, v, s, self, tables, constraints);
    forall i | 0 <= i < |c| && c[i].parentTable != NameOfTable(tables, p) ensures LaterParent(c, i, tables) {
    }
  }

  lemma WithSelf(ns: seq<NodeInfo>, v: nat, s: set<int>, self: NodeInfo, tables: seq<LoadedTable>, constraints: seq<Constraint>)
    requires Stretch(ns, v, s, tables, constraints) && self.tableIdx == v && v !in s
    ensures TableSet(ns + [self]) == s + {v} && DistinctTables(ns + [self])
    ensures forall i :: 0 <= i < |ns| ==> LaterParent(ns + [self], i, tables)
  {
    var c := ns + [self];
    forall x ensures x in TableSet(c) <==> x in s + {v} {
      if x in TableSet(ns) {
        var i :| 0 <= i < |ns| && ns[i].tableIdx == x;
        assert c[i] == ns[i];
      }
      assert c[|ns|].tableIdx == v;
    }
    forall i | 0 <= i < |ns| ensures ns[i].tableIdx != v {
      assert ns[i].tableIdx in TableSet(ns);
    }
    forall i | 0 <= i < |ns| ensures LaterParent(c, i, tables) {
      if ns[i].parentTable == NameOfTable(tables, v) {
        assert c[|ns|] == self;
      } else {
        assert LaterParent(ns, i, tables);
        var j :| i < j < |ns| && ns[i].parentTable == NameOfTable(tables, ns[j].tableIdx);
        assert c[j] == ns[j];
      }
    }
  }

  lemma FirstApart(us: seq<RTree>)
    requires us != [] && forall i, j :: 0 <= i < j < |us| ==> Tables(us[i]) !! Tables(us[j])
    ensures Tables(us[0]) !! TablesOf(us[1..])
  {
    forall x | x in TablesOf(us[1..]) ensures x !in Tables(us[0]) {
      TablesOfMembers(us[1..], x);
      var i :| 0 <= i < |us[1..]| && x in Tables(us[1..][i]);
      assert us[1..][i] == us[i + 1];
    }
  }

  lemma {:induction false} KidsStretch(v: nat, us: seq<RTree>, tables: seq<LoadedTable>, constraints: seq<Constraint>)
    requires v < |tables| && forall i :: 0 <= i < |us| ==> LinkedKid(v, us[i], tables, constraints) && Linked(us[i], tables, constraints)
    requires forall i :: 0 <= i < |us| ==> OnceEachTable(us[i])
    requires forall i, j :: 0 <= i < j < |us| ==> Tables(us[i]) !! Tables(us[j])
    ensures Stretch(KidsPost(v, us, tables), v, TablesOf(us), tables, constraints)
    decreases us, 0
  {
    if us != [] {
      var u := us[0];
      var self := KidInfo(tables, v, u.table, u.link);
      KidsStretch(v, us[1..], tables, constraints);
      assert RecordOk(self, tables, constraints) by {
        assert LinkedKid(v, u, tables, constraints);
      }
      NodeStretch(u, self, v, tables, constraints);
      FirstApart(us);
      StretchConcat(PostOrder(u, self, tables), KidsPost(v, us[1..], tables), v, Tables(u), TablesOf(us[1..]), tables, constraints);
    }
  }

  lemma {:induction false} NodeStretch(u: RTree, self: NodeInfo, p: nat, tables: seq<LoadedTable>, constraints: seq<Constraint>)
    requires Linked(u, tables, constraints) && OnceEachTable(u)
    requires self.tableIdx == u.table && RecordOk(self, tables, constraints) && self.parentTable == NameOfTable(tables, p)
    ensures Stretch(PostOrder(u, self, tables), p, Tables(u), tables, constraints)
    decreases u, 1
  {
    KidsStretch(u.table, u.kids, tables, constraints);
    RootNotBelow(u);
    StretchSelf(KidsPost(u.table, u.kids, tables), u.table, TablesOf(u.kids), self, p, tables, constraints);
    PostOrderOf(u, self, tables);
    assert TablesOf(u.kids) + {u.table} == Tables(u);
  }

  lemma RootNotBelow(u: RTree)
    requires OnceEachTable(u)
    ensures u.table !in TablesOf(u.kids)
  {
    TablesOfMembers(u.kids, u.table);
  }

  // ---- The whole walk ----

  /** The root's record names no parent and carries no band. */
  function RootInfo(root: nat): NodeInfo {
    NodeInfo(root, "", -1, -1, 0, Equality.None, 0, Equality.None)
  }

  /** What the walk from the root leaves. */
  ghost predicate Serial(ns: seq<NodeInfo>, root: nat, ts: set<int>, tables: seq<LoadedTable>, constraints: seq<Constraint>) {
    && |ns| > 0 && ns[|ns| - 1] == RootInfo(root)
    && TableSet(ns) == ts && DistinctTables(ns)
    && (forall i :: 0 <= i < |ns| - 1 ==> RecordOk(ns[i], tables, constraints) && LaterParent(ns, i, tables))
  }

  lemma WalkSerial(u: RTree, tables: seq<LoadedTable>, constraints: seq<Constraint>)
    requires Linked(u, tables, constraints) && OnceEachTable(u)
    ensures Serial(PostOrder(u, RootInfo(u.table), tables), u.table, Tables(u), tables, constraints)
  {
    KidsStretch(u.table, u.kids, tables, constraints);
    RootNotBelow(u);
    WithSelf(KidsPost(u.table, u.kids, tables), u.table, TablesOf(u.kids), RootInfo(u.table), tables, constraints);
    PostOrderOf(u, RootInfo(u.table), tables);
    assert TablesOf(u.kids) + {u.table} == Tables(u);
  }

  // ---- Resolving parents ----

  /** join_node_desc_t as the host fills it. */
  datatype NodeDesc = NodeDesc(
    tableIdx: nat,
    parentIdx: int,
    joinCol: int,
    parentJoinCol: int,
    deviation1: int,
    equality1: Equality,
    deviation2: int,
    equality2: Equality)

  /** The node as the join reads it; the root's columns are never read. */
  function AsJoinNode(n: NodeDesc): JoinNode {
    JoinNode(n.tableIdx, n.parentIdx, if n.joinCol < 0 then 0 else n.joinCol, if n.parentJoinCol < 0 then 0 else n.parentJoinCol,
             n.deviation1, n.equality1, n.deviation2, n.equality2)
  }

  ghost function AsTree(ds: seq<NodeDesc>): (r: seq<JoinNode>)
    ensures |r| == |ds|
  {
    seq(|ds|, i requires 0 <= i < |ds| => AsJoinNode(ds[i]))
  }

  ghost predicate TablePositions(pos: map<nat, nat>, ns: seq<NodeInfo>, n: nat)
    requires n <= |ns|
  {
    forall i :: 0 <= i < n ==> ns[i].tableIdx in pos && pos[ns[i].tableIdx] == i
  }

  /** table_idx to position in the node list. */
  method IndexNodes(ns: seq<NodeInfo>) returns (pos: map<nat, nat>)
    requires DistinctTables(ns)
    ensures TablePositions(pos, ns, |ns|)
  {
    pos := map[];
    for i := 0 to |ns|
      invariant TablePositions(pos, ns, i)
    {
      pos := pos[ns[i].tableIdx := i];
    }
  }

  /** The position of the parent that record n names; -1 if it names none. */
  ghost predicate ParentAt(ns: seq<NodeInfo>, n: NodeInfo, p: int, tables: seq<LoadedTable>) {
    if n.parentTable == "" then p == -1 else 0 <= p < |ns| && NameOfTable(tables, ns[p].tableIdx) == n.parentTable
  }

  function DescOf(n: NodeInfo, p: int): NodeDesc {
    NodeDesc(n.tableIdx, p, n.joinCol, n.parentJoinCol, n.deviation1, n.equality1, n.deviation2, n.equality2)
  }

  ghost predicate Described(ds: seq<NodeDesc>, ns: seq<NodeInfo>, tables: seq<LoadedTable>, n: nat)
    requires n <= |ns|
  {
    |ds| == n && forall i :: 0 <= i < n ==> ds[i] == DescOf(ns[i], ds[i].parentIdx) && ParentAt(ns, ns[i], ds[i].parentIdx, tables)
  }

  ghost predicate NamedTables(tables: seq<LoadedTable>) {
    DistinctNames(tables) && forall i :: 0 <= i < |tables| ==> tables[i].name != ""
  }

  lemma {:induction false} ParentFound(ns: seq<NodeInfo>, root: nat, ts: set<int>, tables: seq<LoadedTable>, constraints: seq<Constraint>, pos: map<nat, nat>, i: nat)
    requires NamedTables(tables) && Serial(ns, root, ts, tables, constraints) && TablePositions(pos, ns, |ns|)
    requires i < |ns| && ns[i].parentTable != "" && forall x :: x in ts ==> 0 <= x < |tables|
    ensures var p := TableIndex(tables, ns[i].parentTable, 0); 0 <= p && p in pos && ParentAt(ns, ns[i], pos[p], tables)
  {
    assert LaterParent(ns, i, tables);
    var j :| i < j < |ns| && ns[i].parentTable == NameOfTable(tables, ns[j].tableIdx);
    assert ns[j].tableIdx in TableSet(ns);
    TableIndexUnique(tables, ns[j].tableIdx, 0);
  }

  method ResolveParent(ns: seq<NodeInfo>, i: nat, pos: map<nat, nat>, tables: seq<LoadedTable>,
                       ghost root: nat, ghost ts: set<int>, ghost constraints: seq<Constraint>)
    returns (p: int)
    requires NamedTables(tables) && Serial(ns, root, ts, tables, constraints) && TablePositions(pos, ns, |ns|)
    requires i < |ns| && forall x :: x in ts ==> 0 <= x < |tables|
    ensures ParentAt(ns, ns[i], p, tables)
  {
    p := -1;
    if ns[i].parentTable != "" {
      ParentFound(ns, root, ts, tables, constraints, pos, i);
      p := pos[TableIndex(tables, ns[i].parentTable, 0)];
    }
  }

  lemma DescribeStep(ds: seq<NodeDesc>, ns: seq<NodeInfo>, tables: seq<LoadedTable>, i: nat, p: int)
    requires i < |ns| && Described(ds, ns, tables, i) && ParentAt(ns, ns[i], p, tables)
    ensures Described(ds + [DescOf(ns[i], p)], ns, tables, i + 1)
  {
  }

  /** From records to descriptors. */
  method Describe(ns: seq<NodeInfo>, tables: seq<LoadedTable>, ghost root: nat, ghost ts: set<int>, ghost constraints: seq<Constraint>)
    returns (ds: seq<NodeDesc>)
    requires NamedTables(tables) && Serial(ns, root, ts, tables, constraints) && forall x :: x in ts ==> 0 <= x < |tables|
    ensures Described(ds, ns, tables, |ns|)
  {
    var pos := IndexNodes(ns);
    ds := [];
    for i := 0 to |ns|
      invariant Described(ds, ns, tables, i)
    {
      var p := ResolveParent(ns, i, pos, tables, root, ts, constraints);
      DescribeStep(ds, ns, tables, i, p);
      ds := ds + [DescOf(ns[i], p)];
    }
  }

  // ---- The array is a join tree ----

  ghost predicate ValidBands(constraints: seq<Constraint>) {
    forall i :: 0 <= i < |constraints| ==> ValidBand(AsNode(constraints[i]))
  }

  lemma LinkBandValid(v: nat, k: nat, link: Constraint, tables: seq<LoadedTable>, constraints: seq<Constraint>)
    requires v < |tables| && IsLink(v, k, link, tables, constraints) && ValidBands(constraints)
    ensures ValidBand(AsNode(link))
  {
    var i :| 0 <= i < |constraints| && EdgeOf(tables, constraints[i], v) == Some(ChildEdge(k, link));
    ReverseAccepts(constraints[i], 0, 0);
  }

  lemma RecordBandValid(n: NodeInfo, p: int, tables: seq<LoadedTable>, constraints: seq<Constraint>)
    requires RecordOk(n, tables, constraints) && ValidBands(constraints)
    ensures ValidBand(AsJoinNode(DescOf(n, p)))
  {
    var v: nat, link :| v < |tables| && n.tableIdx < |tables| && IsLink(v, n.tableIdx, link, tables, constraints)
      && n == KidInfo(tables, v, n.tableIdx, link);
    LinkBandValid(v, n.tableIdx, link, tables, constraints);
  }

  lemma SamePosition(ns: seq<NodeInfo>, p: nat, j: nat)
    requires DistinctTables(ns) && p < |ns| && j < |ns| && ns[p].tableIdx == ns[j].tableIdx
    ensures p == j
  {
  }

  lemma {:induction false} ParentIsLater(ds: seq<NodeDesc>, ns: seq<NodeInfo>, root: nat, ts: set<int>, tables: seq<LoadedTable>, constraints: seq<Constraint>, i: nat)
    requires NamedTables(tables) && Serial(ns, root, ts, tables, constraints) && Described(ds, ns, tables, |ns|)
    requires i < |ns| - 1 && forall x :: x in ts ==> 0 <= x < |tables|
    ensures i < ds[i].parentIdx < |ns|
  {
    assert LaterParent(ns, i, tables);
    var j :| i < j < |ns| && ns[i].parentTable == NameOfTable(tables, ns[j].tableIdx);
    assert ns[j].tableIdx in TableSet(ns);
    assert tables[ns[j].tableIdx].name != "";
    var p := ds[i].parentIdx;
    assert ParentAt(ns, ns[i], p, tables);
    assert ns[p].tableIdx in TableSet(ns);
    TableIndexUnique(tables, ns[j].tableIdx, 0);
    TableIndexUnique(tables, ns[p].tableIdx, 0);
    assert ns[p].tableIdx == ns[j].tableIdx;
    SamePosition(ns, p, j);
  }

  lemma RootIsLast(ds: seq<NodeDesc>, ns: seq<NodeInfo>, root: nat, ts: set<int>, tables: seq<LoadedTable>, constraints: seq<Constraint>)
    requires Serial(ns, root, ts, tables, constraints) && Described(ds, ns, tables, |ns|)
    ensures ds[|ds| - 1].parentIdx == -1
  {
    assert ParentAt(ns, ns[|ns| - 1], ds[|ns| - 1].parentIdx, tables);
  }

  lemma {:induction false} NodeOk(ds: seq<NodeDesc>, ns: seq<NodeInfo>, root: nat, ts: set<int>, tables: seq<LoadedTable>, constraints: seq<Constraint>, i: nat)
    requires NamedTables(tables) && Serial(ns, root, ts, tables, constraints) && Described(ds, ns, tables, |ns|)
    requires ValidBands(constraints) && i < |ns| - 1 && forall x :: x in ts ==> 0 <= x < |tables|
    ensures i < ds[i].parentIdx < |ds| && ValidBand(AsJoinNode(ds[i]))
  {
    ParentIsLater(ds, ns, root, ts, tables, constraints, i);
    RecordBandValid(ns[i], ds[i].parentIdx, tables, constraints);
    assert ds[i] == DescOf(ns[i], ds[i].parentIdx);
  }

  /** The serialised array is a tree that the join accepts: each table once, parents after their children, the root last. */
  lemma {:induction false} SerializedTreeOk(ds: seq<NodeDesc>, ns: seq<NodeInfo>, root: nat, ts: set<int>, tables: seq<LoadedTable>, constraints: seq<Constraint>)
    requires NamedTables(tables) && Serial(ns, root, ts, tables, constraints) && Described(ds, ns, tables, |ns|)
    requires ValidBands(constraints) && forall x :: x in ts ==> 0 <= x < |tables|
    ensures TreeOk(AsTree(ds))
  {
    RootIsLast(ds, ns, root, ts, tables, constraints);
    EdgesOk(ds, ns, root, ts, tables, constraints);
    DistinctDescs(ds, ns, tables);
  }

  lemma {:induction false} EdgesOk(ds: seq<NodeDesc>, ns: seq<NodeInfo>, root: nat, ts: set<int>, tables: seq<LoadedTable>, constraints: seq<Constraint>)
    requires NamedTables(tables) && Serial(ns, root, ts, tables, constraints) && Described(ds, ns, tables, |ns|)
    requires ValidBands(constraints) && forall x :: x in ts ==> 0 <= x < |tables|
    ensures forall k :: 0 <= k < |ds| - 1 ==> k < AsTree(ds)[k].parentIdx < |ds| && ValidBand(AsTree(ds)[k])
  {
    forall k | 0 <= k < |ds| - 1 ensures k < AsTree(ds)[k].parentIdx < |ds| && ValidBand(AsTree(ds)[k]) {
      NodeOk(ds, ns, root, ts, tables, constraints, k);
    }
  }

  lemma DistinctDescs(ds: seq<NodeDesc>, ns: seq<NodeInfo>, tables: seq<LoadedTable>)
    requires DistinctTables(ns) && Described(ds, ns, tables, |ns|)
    ensures forall j, k :: 0 <= j < k < |ds| ==> AsTree(ds)[j].tableIdx != AsTree(ds)[k].tableIdx
  {
    forall j, k | 0 <= j < k < |ds| ensures ds[j].tableIdx != ds[k].tableIdx {
      assert ns[j].tableIdx != ns[k].tableIdx;
    }
  }

  // ---- The bands are the constraints ----

  /** Every edge of the tree holds between the values of its two columns. */
  ghost predicate TreeSatisfied(u: RTree, val: Column -> int) {
    forall i :: 0 <= i < |u.kids| ==> LinkHolds(u.kids[i].link, val) && TreeSatisfied(u.kids[i], val)
  }

  ghost predicate LinkHolds(link: Constraint, val: Column -> int) {
    Accepts(link, val(link.source), val(link.target))
  }

  /** Every link of the tree has the property p. */
  ghost predicate AllLinks(u: RTree, p: Constraint -> bool) {
    forall i :: 0 <= i < |u.kids| ==> p(u.kids[i].link) && AllLinks(u.kids[i], p)
  }

  /** p does not depend on the direction of a constraint. */
  ghost predicate Reversible(p: Constraint -> bool) {
    forall c :: p(ReverseConstraint(c)) <==> p(c)
  }

  lemma EdgeAsConstraint(tables: seq<LoadedTable>, c: Constraint, v: nat, e: ChildEdge, p: Constraint -> bool)
    requires v < |tables| && EdgeOf(tables, c, v) == Some(e) && Reversible(p)
    ensures p(e.link) <==> p(c)
  {
  }

  lemma {:induction false} ConstraintsInTree(u: RTree, tables: seq<LoadedTable>, constraints: seq<Constraint>, p: Constraint -> bool)
    requires Linked(u, tables, constraints) && Reversible(p) && forall i :: 0 <= i < |constraints| ==> p(constraints[i])
    ensures AllLinks(u, p)
  {
    forall i | 0 <= i < |u.kids| ensures p(u.kids[i].link) && AllLinks(u.kids[i], p) {
      assert LinkedKid(u.table, u.kids[i], tables, constraints);
      var k :| 0 <= k < |constraints| && EdgeOf(tables, constraints[k], u.table) == Some(ChildEdge(u.kids[i].table, u.kids[i].link));
      EdgeAsConstraint(tables, constraints[k], u.table, ChildEdge(u.kids[i].table, u.kids[i].link), p);
      ConstraintsInTree(u.kids[i], tables, constraints, p);
    }
  }

  /** Both tables of a constraint, by index. */
  ghost predicate Connects(tables: seq<LoadedTable>, c: Constraint, v: nat, w: nat) {
    v < |tables| && w < |tables| && v != w && c.source.table == tables[v].name && c.target.table == tables[w].name
  }

  lemma ConnectsEdges(tables: seq<LoadedTable>, c: Constraint, v: nat, w: nat)
    requires DistinctNames(tables) && Connects(tables, c, v, w)
    ensures EdgeOf(tables, c, v) == Some(ChildEdge(w, ReverseConstraint(c))) && EdgeOf(tables, c, w) == Some(ChildEdge(v, c))
  {
    TableIndexUnique(tables, v, 0);
    TableIndexUnique(tables, w, 0);
    assert tables[v].name != tables[w].name;
  }

  /** A neighbour other than the parent hangs below t by the constraint. */
  lemma NeighbourLinked(t: RTree, parent: int, tables: seq<LoadedTable>, constraints: seq<Constraint>, k: nat, e: ChildEdge, p: Constraint -> bool)
    requires Unrolls(t, parent, tables, constraints) && AllLinks(t, p) && Reversible(p) && k < |constraints|
    requires EdgeOf(tables, constraints[k], t.table) == Some(e) && e.tableIdx != parent
    ensures p(constraints[k])
  {
    var i := NeighbourIsKid(t, parent, tables, constraints, k, e);
    assert p(t.kids[i].link);
    EdgeAsConstraint(tables, constraints[k], t.table, e, p);
  }

  /** Every constraint whose source is in the tree is an edge of the tree. */
  lemma {:induction false} TreeHasConstraint(t: RTree, parent: int, tables: seq<LoadedTable>, constraints: seq<Constraint>, k: nat,
                                             v: nat, w: nat, p: Constraint -> bool)
    requires DistinctNames(tables) && Unrolls(t, parent, tables, constraints) && OnceEachTable(t) && parent !in Tables(t)
    requires AllLinks(t, p) && Reversible(p) && k < |constraints| && Connects(tables, constraints[k], v, w) && v in Tables(t)
    requires v == t.table && w == parent ==> p(constraints[k])
    ensures p(constraints[k])
    decreases t
  {
    ConnectsEdges(tables, constraints[k], v, w);
    if v == t.table {
      if w != parent {
        NeighbourLinked(t, parent, tables, constraints, k, ChildEdge(w, ReverseConstraint(constraints[k])), p);
      }
    } else {
      TablesOfMembers(t.kids, v);
      var i :| 0 <= i < |t.kids| && v in Tables(t.kids[i]);
      if v == t.kids[i].table && w == t.table {
        KidTablesInside(t, i);
        NeighbourLinked(t, parent, tables, constraints, k, ChildEdge(v, constraints[k]), p);
      }
      TreeHasConstraint(t.kids[i], t.table, tables, constraints, k, v, w, p);
    }
  }

  /** Every constraint connects two different tables of the tree. */
  ghost predicate Spanned(t: RTree, tables: seq<LoadedTable>, constraints: seq<Constraint>) {
    forall k :: 0 <= k < |constraints| ==> SpannedBy(t, tables, constraints[k])
  }

  ghost predicate SpannedBy(t: RTree, tables: seq<LoadedTable>, c: Constraint) {
    exists v: nat, w: nat :: Connects(tables, c, v, w) && v in Tables(t)
  }

  /** The links of a tree that spans the constraints are the constraints, up to their direction. */
  lemma LinksAreConstraints(t: RTree, tables: seq<LoadedTable>, constraints: seq<Constraint>, p: Constraint -> bool)
    requires DistinctNames(tables) && Unrolls(t, -1, tables, constraints) && OnceEachTable(t) && -1 !in Tables(t)
    requires Spanned(t, tables, constraints) && Reversible(p)
    ensures AllLinks(t, p) <==> forall k :: 0 <= k < |constraints| ==> p(constraints[k])
  {
    UnrolledLinked(t, -1, tables, constraints);
    if forall k :: 0 <= k < |constraints| ==> p(constraints[k]) {
      ConstraintsInTree(t, tables, constraints, p);
    }
    if AllLinks(t, p) {
      forall k | 0 <= k < |constraints| ensures p(constraints[k]) {
        assert SpannedBy(t, tables, constraints[k]);
        var v: nat, w: nat :| Connects(tables, constraints[k], v, w) && v in Tables(t);
        TreeHasConstraint(t, -1, tables, constraints, k, v, w, p);
      }
    }
  }

  ghost function Holding(val: Column -> int): Constraint -> bool {
    (c: Constraint) => LinkHolds(c, val)
  }

  lemma {:induction false} SatisfiedByLinks(t: RTree, val: Column -> int)
    ensures TreeSatisfied(t, val) <==> AllLinks(t, Holding(val))
  {
    forall i | 0 <= i < |t.kids| ensures TreeSatisfied(t.kids[i], val) <==> AllLinks(t.kids[i], Holding(val)) {
      SatisfiedByLinks(t.kids[i], val);
    }
  }

  /** The edges of the tree hold exactly when all constraints do, through every reversal. */
  lemma TreeIsConjunction(t: RTree, tables: seq<LoadedTable>, constraints: seq<Constraint>, val: Column -> int)
    requires DistinctNames(tables) && Unrolls(t, -1, tables, constraints) && OnceEachTable(t) && -1 !in Tables(t)
    requires Spanned(t, tables, constraints)
    ensures TreeSatisfied(t, val) <==> Satisfied(constraints, val)
  {
    forall c ensures Holding(val)(ReverseConstraint(c)) <==> Holding(val)(c) {
      ReverseAccepts(c, val(c.source), val(c.target));
    }
    SatisfiedByLinks(t, val);
    LinksAreConstraints(t, tables, constraints, Holding(val));
  }

  // ---- The columns are the columns of the constraints ----

  /** The tables that a constraint names list the columns that it names. */
  ghost predicate ColumnsListed(tables: seq<LoadedTable>, c: Constraint) {
    forall k :: 0 <= k < |tables| ==>
      && (tables[k].name == c.source.table ==> c.source.col in tables[k].colNames)
      && (tables[k].name == c.target.table ==> c.target.col in tables[k].colNames)
  }

  ghost predicate AllColumnsListed(tables: seq<LoadedTable>, constraints: seq<Constraint>) {
    forall k :: 0 <= k < |constraints| ==> ColumnsListed(tables, constraints[k])
  }

  ghost function Listing(tables: seq<LoadedTable>): Constraint -> bool {
    (c: Constraint) => ColumnsListed(tables, c)
  }

  /** The columns of an edge are found exactly if its tables list them. */
  lemma FoundIsListed(v: nat, kid: RTree, tables: seq<LoadedTable>, constraints: seq<Constraint>)
    requires DistinctNames(tables) && LinkedKid(v, kid, tables, constraints)
    ensures LinkFound(v, kid, tables) <==> ColumnsListed(tables, kid.link)
  {
    assert kid.link.source.table == tables[kid.table].name && kid.link.target.table == tables[v].name;
    forall k | 0 <= k < |tables|
      ensures tables[k].name == kid.link.source.table ==> k == kid.table
      ensures tables[k].name == kid.link.target.table ==> k == v
    {
    }
  }

  lemma {:induction false} FoundByLinks(t: RTree, tables: seq<LoadedTable>, constraints: seq<Constraint>)
    requires DistinctNames(tables) && Linked(t, tables, constraints)
    ensures ColumnsFound(t, tables) <==> AllLinks(t, Listing(tables))
  {
    forall i | 0 <= i < |t.kids|
      ensures LinkFound(t.table, t.kids[i], tables) <==> Listing(tables)(t.kids[i].link)
      ensures ColumnsFound(t.kids[i], tables) <==> AllLinks(t.kids[i], Listing(tables))
    {
      FoundIsListed(t.table, t.kids[i], tables, constraints);
      FoundByLinks(t.kids[i], tables, constraints);
    }
  }

  /** The columns of a spanning tree are found exactly if every constraint's columns are listed. */
  lemma TreeColumnsExactly(t: RTree, tables: seq<LoadedTable>, constraints: seq<Constraint>)
    requires DistinctNames(tables) && Unrolls(t, -1, tables, constraints) && OnceEachTable(t) && -1 !in Tables(t)
    requires Spanned(t, tables, constraints)
    ensures ColumnsFound(t, tables) <==> AllColumnsListed(tables, constraints)
  {
    UnrolledLinked(t, -1, tables, constraints);
    FoundByLinks(t, tables, constraints);
    LinksAreConstraints(t, tables, constraints, Listing(tables));
  }

  /** Reordering children keeps the edges. */
  lemma {:induction false} ReorderedSatisfied(t: RTree, u: RTree, val: Column -> int)
    requires Reordering(t, u)
    ensures TreeSatisfied(u, val) <==> TreeSatisfied(t, val)
  {
    var order := ReorderingOrder(t, u);
    OrderCovers(|t.kids|, order);
    forall j | 0 <= j < |order|
      ensures (LinkHolds(u.kids[j].link, val) && TreeSatisfied(u.kids[j], val))
        <==> (LinkHolds(t.kids[order[j]].link, val) && TreeSatisfied(t.kids[order[j]], val))
    {
      SameHead(t.kids[order[j]], u.kids[j]);
      ReorderedSatisfied(t.kids[order[j]], u.kids[j], val);
    }
    if TreeSatisfied(u, val) {
      forall i: nat | i < |t.kids| ensures LinkHolds(t.kids[i].link, val) && TreeSatisfied(t.kids[i], val) {
        assert i in order;
        var j :| 0 <= j < |order| && order[j] == i;
        assert LinkHolds(u.kids[j].link, val) && TreeSatisfied(u.kids[j], val);
      }
    }
  }
}
