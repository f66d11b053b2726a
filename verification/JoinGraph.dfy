/** The constraint graph of a query, unrolled from a root into a tree of tables. */
module JoinGraph {
  import opened HostLayout
  import opened Conditions
  import opened TreeVariants

  // ---- Tables and columns by name ----

  /** The first table from index i on with this name, or -1. */
  function TableIndex(tables: seq<LoadedTable>, name: string, i: nat): (r: int)
    requires i <= |tables|
    ensures r == -1 || (i <= r < |tables| && tables[r].name == name)
    decreases |tables| - i
  {
    if i == |tables| then -1 else if tables[i].name == name then i else TableIndex(tables, name, i + 1)
  }

  /** The first column from index i on with this name, or -1. */
  function ColIndex(names: seq<string>, name: string, i: nat): (r: int)
    requires i <= |names|
    ensures r == -1 || (i <= r < |names| && names[r] == name)
    decreases |names| - i
  {
    if i == |names| then -1 else if names[i] == name then i else ColIndex(names, name, i + 1)
  }

  /** Nothing before the position that is found has the name. */
  lemma {:induction false} ColumnIsFirst(names: seq<string>, name: string, i: nat, j: nat)
    requires i <= j < |names| && names[j] == name
    ensures i <= ColIndex(names, name, i) <= j
    decreases |names| - i
  {
    if names[i] != name {
      ColumnIsFirst(names, name, i + 1, j);
    }
  }

  /** A column is found exactly if it is listed, and then at its first position. */
  lemma ColumnFoundExactly(names: seq<string>, name: string)
    ensures ColIndex(names, name, 0) == -1 <==> name !in names
    ensures forall j :: 0 <= j < |names| && names[j] == name ==> 0 <= ColIndex(names, name, 0) <= j
    ensures name in names ==> var r := ColIndex(names, name, 0); 0 <= r < |names| && names[r] == name
  {
    forall j | 0 <= j < |names| && names[j] == name ensures 0 <= ColIndex(names, name, 0) <= j {
      ColumnIsFirst(names, name, 0, j);
    }
  }

  ghost predicate DistinctNames(tables: seq<LoadedTable>) {
    forall i, j :: 0 <= i < j < |tables| ==> tables[i].name != tables[j].name
  }

  lemma {:induction false} TableIndexUnique(tables: seq<LoadedTable>, k: nat, i: nat)
    requires DistinctNames(tables) && i <= k < |tables|
    ensures TableIndex(tables, tables[k].name, i) == k
    decreases k - i
  {
    if i < k {
      TableIndexUnique(tables, k, i + 1);
    }
  }

  // ---- Edges of the graph ----

  /** A neighbour of a table; link is oriented from the neighbour to the table. */
  datatype ChildEdge = ChildEdge(tableIdx: nat, link: Constraint)

  /** What constraint c is to table v: an edge to a loaded neighbour, or nothing. */
  function EdgeOf(tables: seq<LoadedTable>, c: Constraint, v: nat): Option<ChildEdge>
    requires v < |tables|
  {
    if c.source.table == tables[v].name then
      var other := TableIndex(tables, c.target.table, 0);
      if other < 0 then Option.None else Some(ChildEdge(other, ReverseConstraint(c)))
    else if c.target.table == tables[v].name then
      var other := TableIndex(tables, c.source.table, 0);
      if other < 0 then Option.None else Some(ChildEdge(other, c))
    else Option.None
  }

  /** The edges of v in constraint order, those to the excluded tables left out. */
  ghost function EdgesOutside(tables: seq<LoadedTable>, constraints: seq<Constraint>, v: nat, excluded: set<int>, n: nat): seq<ChildEdge>
    requires v < |tables| && n <= |constraints|
  {
    if n == 0 then [] else
      EdgesOutside(tables, constraints, v, excluded, n - 1) +
      match EdgeOf(tables, constraints[n - 1], v) {
        case Some(e) => if e.tableIdx in excluded then [] else [e]
        case None => []
      }
  }

  lemma {:induction false} EdgesMembers(tables: seq<LoadedTable>, constraints: seq<Constraint>, v: nat, excluded: set<int>, n: nat)
    requires v < |tables| && n <= |constraints|
    ensures forall e :: e in EdgesOutside(tables, constraints, v, excluded, n) <==>
      e.tableIdx !in excluded && exists k :: 0 <= k < n && EdgeOf(tables, constraints[k], v) == Some(e)
    ensures forall e :: e in EdgesOutside(tables, constraints, v, excluded, n) ==> e.tableIdx < |tables|
  {
    if n > 0 {
      EdgesMembers(tables, constraints, v, excluded, n - 1);
      var prev, now := EdgesOutside(tables, constraints, v, excluded, n - 1), EdgesOutside(tables, constraints, v, excluded, n);
      forall e ensures e in now <==> e.tableIdx !in excluded && exists k :: 0 <= k < n && EdgeOf(tables, constraints[k], v) == Some(e) {
        assert e in now <==> e in prev || (EdgeOf(tables, constraints[n - 1], v) == Some(e) && e.tableIdx !in excluded);
      }
    }
  }

  // ---- The graph as a tree ----

  /** t is the graph unrolled from its root: the children of a node are its neighbours other than its parent, in constraint order. */
  ghost predicate Unrolls(t: RTree, parent: int, tables: seq<LoadedTable>, constraints: seq<Constraint>) {
    && t.table < |tables|
    && var edges := EdgesOutside(tables, constraints, t.table, {parent}, |constraints|);
      |t.kids| == |edges|
      && (forall i :: 0 <= i < |t.kids| ==> t.kids[i].table == edges[i].tableIdx && t.kids[i].link == edges[i].link)
      && (forall i :: 0 <= i < |t.kids| ==> Unrolls(t.kids[i], t.table, tables, constraints))
  }

  ghost function Tables(t: RTree): set<int> {
    {t.table} + TablesOf(t.kids)
  }

  ghost function TablesOf(ts: seq<RTree>): set<int> {
    if ts == [] then {} else Tables(ts[0]) + TablesOf(ts[1..])
  }

  ghost predicate InSome(ts: seq<RTree>, x: int) {
    exists i :: 0 <= i < |ts| && x in Tables(ts[i])
  }

  lemma InSomeStep(ts: seq<RTree>, x: int)
    requires ts != []
    ensures InSome(ts, x) <==> x in Tables(ts[0]) || InSome(ts[1..], x)
  {
    if InSome(ts, x) && x !in Tables(ts[0]) {
      var i :| 0 <= i < |ts| && x in Tables(ts[i]);
      assert ts[1..][i - 1] == ts[i];
    }
    if InSome(ts[1..], x) {
      var i :| 0 <= i < |ts[1..]| && x in Tables(ts[1..][i]);
      assert ts[i + 1] == ts[1..][i];
    }
  }

  lemma {:induction false} TablesOfMembers(ts: seq<RTree>, x: int)
    ensures x in TablesOf(ts) <==> InSome(ts, x)
  {
    if ts != [] {
      TablesOfMembers(ts[1..], x);
      InSomeStep(ts, x);
    }
  }

  /** No table occurs twice. */
  ghost predicate OnceEachTable(t: RTree) {
    && (forall i :: 0 <= i < |t.kids| ==> t.table !in Tables(t.kids[i]) && OnceEachTable(t.kids[i]))
    && (forall i, j :: 0 <= i < j < |t.kids| ==> Tables(t.kids[i]) !! Tables(t.kids[j]))
  }

  lemma OnceEachSiblings(t: RTree)
    requires OnceEachTable(t)
    ensures SiblingsDiffer(t)
  {
    forall i, j | 0 <= i < j < |t.kids| ensures t.kids[i].table != t.kids[j].table {
      assert t.kids[i].table in Tables(t.kids[i]) && t.kids[j].table in Tables(t.kids[j]);
    }
    forall i | 0 <= i < |t.kids| ensures SiblingsDiffer(t.kids[i]) {
      OnceEachSiblings(t.kids[i]);
    }
  }

  /** A neighbour other than the parent is a child. */
  lemma NeighbourIsKid(t: RTree, parent: int, tables: seq<LoadedTable>, constraints: seq<Constraint>, k: nat, e: ChildEdge) returns (i: nat)
    requires Unrolls(t, parent, tables, constraints) && k < |constraints|
    requires EdgeOf(tables, constraints[k], t.table) == Some(e) && e.tableIdx != parent
    ensures i < |t.kids| && t.kids[i].table == e.tableIdx && t.kids[i].link == e.link
  {
    var edges := EdgesOutside(tables, constraints, t.table, {parent}, |constraints|);
    EdgesMembers(tables, constraints, t.table, {parent}, |constraints|);
    assert e in edges;
    i :| 0 <= i < |edges| && edges[i] == e;
  }

  /** While nothing below t is visited, the unvisited neighbours of its root are its children. */
  lemma {:induction false} UnvisitedAreKids(t: RTree, parent: int, tables: seq<LoadedTable>, constraints: seq<Constraint>, visited: set<int>, n: nat)
    requires Unrolls(t, parent, tables, constraints) && n <= |constraints|
    requires parent >= 0 ==> parent in visited
    requires forall i :: 0 <= i < |t.kids| ==> t.kids[i].table !in visited
    ensures EdgesOutside(tables, constraints, t.table, visited, n) == EdgesOutside(tables, constraints, t.table, {parent}, n)
  {
    if n > 0 {
      UnvisitedAreKids(t, parent, tables, constraints, visited, n - 1);
      match EdgeOf(tables, constraints[n - 1], t.table)
      case None =>
      case Some(e) =>
        if e.tableIdx != parent {
          var i := NeighbourIsKid(t, parent, tables, constraints, n - 1, e);
        }
    }
  }
}
