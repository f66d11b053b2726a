/** collect_postorder: the depth-first walk that serialises one variant of the join tree. */
module PostorderWalk {
  import opened Totals
  import opened Records
  import opened HostLayout
  import opened Conditions
  import opened Permutations
  import opened TreeVariants
  import opened JoinGraph

  /** A node of the walk before positions are known. */
  datatype NodeInfo = NodeInfo(
    tableIdx: nat,
    parentTable: string,
    joinCol: int,
    parentJoinCol: int,
    deviation1: int,
    equality1: Equality,
    deviation2: int,
    equality2: Equality)

  /** The state that the recursion threads through. */
  class Walk {
    var visited: set<int>
    var nodes: seq<NodeInfo>
    var permState: nat

    constructor (root: nat, variant: nat)
      ensures visited == {root} && nodes == [] && permState == variant
    {
      visited, nodes, permState := {root}, [], variant;
    }
  }

  // ---- What one subtree contributes ----

  function ColsOfTable(tables: seq<LoadedTable>, k: nat): seq<string> {
    if k < |tables| then tables[k].colNames else []
  }

  function NameOfTable(tables: seq<LoadedTable>, k: nat): string {
    if k < |tables| then tables[k].name else ""
  }

  /** The record of table k below table v, linked by link. */
  function KidInfo(tables: seq<LoadedTable>, v: nat, k: nat, link: Constraint): NodeInfo {
    NodeInfo(k, NameOfTable(tables, v), ColIndex(ColsOfTable(tables, k), link.source.col, 0),
             ColIndex(ColsOfTable(tables, v), link.target.col, 0),
             link.deviation1, link.equality1, link.deviation2, link.equality2)
  }

  /** The records of u's subtree, children before parents; self is the record of u itself. */
  ghost function PostOrder(u: RTree, self: NodeInfo, tables: seq<LoadedTable>): seq<NodeInfo>
    decreases u, 1
  {
    KidsPost(u.table, u.kids, tables) + [self]
  }

  ghost function KidsPost(v: nat, us: seq<RTree>, tables: seq<LoadedTable>): seq<NodeInfo>
    decreases us, 0
  {
    if us == [] then [] else
      PostOrder(us[0], KidInfo(tables, v, us[0].table, us[0].link), tables) + KidsPost(v, us[1..], tables)
  }

  lemma {:induction false} KidsPostSnoc(v: nat, us: seq<RTree>, u: RTree, tables: seq<LoadedTable>)
    ensures KidsPost(v, us + [u], tables) == KidsPost(v, us, tables) + PostOrder(u, KidInfo(tables, v, u.table, u.link), tables)
    decreases |us|
  {
    var all := us + [u];
    if us == [] {
      assert all[1..] == [];
    } else {
      KidsPostSnoc(v, us[1..], u, tables);
      assert all[1..] == us[1..] + [u] && all[0] == us[0];
    }
  }

  /** The link of a child names columns that its tables have. */
  ghost predicate LinkFound(v: nat, kid: RTree, tables: seq<LoadedTable>) {
    kid.link.source.col in ColsOfTable(tables, kid.table) && kid.link.target.col in ColsOfTable(tables, v)
  }

  /** So does every link of the tree. */
  ghost predicate ColumnsFound(t: RTree, tables: seq<LoadedTable>) {
    forall i :: 0 <= i < |t.kids| ==> LinkFound(t.table, t.kids[i], tables) && ColumnsFound(t.kids[i], tables)
  }

  // ---- The children of one node ----

  /** The unvisited neighbours in constraint order. */
  method CollectKids(tables: seq<LoadedTable>, constraints: seq<Constraint>, v: nat, visited: set<int>) returns (kids: seq<ChildEdge>)
    requires v < |tables|
    ensures kids == EdgesOutside(tables, constraints, v, visited, |constraints|)
  {
    kids := [];
    for n := 0 to |constraints|
      invariant kids == EdgesOutside(tables, constraints, v, visited, n)
    {
      match EdgeOf(tables, constraints[n], v)
      case None =>
      case Some(e) =>
        if e.tableIdx !in visited {
          kids := kids + [e];
        }
    }
  }

  /** The ordering that the variant selects for these children; its digit is consumed. */
  method OrderKids(w: Walk, kids: seq<ChildEdge>) returns (r: seq<ChildEdge>, ghost d: nat)
    requires |kids| <= 15
    modifies w`permState
    ensures d < Factorial(|kids|) && old(w.permState) == w.permState * Factorial(|kids|) + d
    ensures r == Unrank(kids, d)
  {
    DivMod(w.permState, Factorial(|kids|));
    d := w.permState % Factorial(|kids|);
    if |kids| > 1 {
      var f := SaturatingFactorial(|kids|);
      r := NthPermutation(kids, w.permState % f);
      w.permState := w.permState / f;
    } else {
      SingleOrder(kids, w.permState);
      r := kids;
    }
  }

  lemma SingleOrder(kids: seq<ChildEdge>, s: nat)
    requires |kids| <= 1
    ensures Factorial(|kids|) == 1 && Unrank(kids, s % 1) == kids && s / 1 == s
  {
    assert Factorial(0) == 1 && Factorial(1) == 1;
  }

  // ---- The walk ----

  /** The children of t in decoding order face the permuted edges. */
  ghost predicate Faces(t: RTree, r: seq<ChildEdge>, order: seq<nat>) {
    && |r| == |order| == |t.kids| && Names(t, order) && NoRepeats(order)
    && (forall i: nat :: i < |t.kids| ==> i in order)
    && (forall j :: 0 <= j < |r| ==> r[j].tableIdx == t.kids[order[j]].table && r[j].link == t.kids[order[j]].link)
  }

  lemma OrderCovers(n: nat, order: seq<nat>)
    requires multiset(order) == multiset(UpTo(n))
    ensures NoRepeats(order) && forall i: nat :: i < n ==> i in order
  {
    forall i: nat | i < n ensures i in order {
      assert UpTo(n)[i] == i;
      assert i in multiset(UpTo(n));
    }
    RangeOnceEach(n);
    forall i, j | 0 <= i < j < |order| ensures order[i] != order[j] {
      OnceEach(UpTo(n), order[j]);
      if order[i] == order[j] {
        TwiceMultiset(order, i, j);
      }
    }
  }

  lemma EdgesFace(t: RTree, parent: int, tables: seq<LoadedTable>, constraints: seq<Constraint>, r: seq<ChildEdge>, d: nat)
    requires Unrolls(t, parent, tables, constraints) && d < Factorial(|t.kids|)
    requires |EdgesOutside(tables, constraints, t.table, {parent}, |constraints|)| == |t.kids|
    requires r == Unrank(EdgesOutside(tables, constraints, t.table, {parent}, |constraints|), d)
    ensures Faces(t, r, OrderOf(|t.kids|, d))
  {
    var edges := EdgesOutside(tables, constraints, t.table, {parent}, |constraints|);
    UnrankIndices(edges, edges, UpTo(|t.kids|), d);
    OrderCovers(|t.kids|, OrderOf(|t.kids|, d));
  }

  /** The tables of the children that order names. */
  ghost function TablesAt(t: RTree, order: seq<nat>): set<int>
    requires Names(t, order)
  {
    if order == [] then {} else TablesAt(t, order[..|order| - 1]) + Tables(t.kids[order[|order| - 1]])
  }

  lemma {:induction false} TablesAtMembers(t: RTree, order: seq<nat>, x: int)
    requires Names(t, order)
    ensures x in TablesAt(t, order) <==> exists j :: 0 <= j < |order| && x in Tables(t.kids[order[j]])
  {
    if order != [] {
      TablesAtMembers(t, order[..|order| - 1], x);
    }
  }

  /** The children visited so far leave the next one alone. */
  lemma NextKidFree(t: RTree, order: seq<nat>, j: nat)
    requires OnceEachTable(t) && Names(t, order) && NoRepeats(order) && j < |order|
    ensures TablesAt(t, order[..j]) !! Tables(t.kids[order[j]]) && t.table !in Tables(t.kids[order[j]])
  {
    forall x | x in TablesAt(t, order[..j]) ensures x !in Tables(t.kids[order[j]]) {
      TablesAtMembers(t, order[..j], x);
      var i :| 0 <= i < j && x in Tables(t.kids[order[i]]);
      assert order[i] != order[j];
    }
  }

  lemma AllTablesAt(t: RTree, order: seq<nat>)
    requires Names(t, order) && forall i: nat :: i < |t.kids| ==> i in order
    ensures TablesAt(t, order) == TablesOf(t.kids)
  {
    forall x ensures x in TablesAt(t, order) <==> x in TablesOf(t.kids) {
      TablesAtMembers(t, order, x);
      TablesOfMembers(t.kids, x);
      if InSome(t.kids, x) {
        var i: nat :| i < |t.kids| && x in Tables(t.kids[i]);
        assert i in order;
        var j :| 0 <= j < |order| && order[j] == i;
      }
    }
  }

  /** One child: resolve the columns, mark the table, walk the subtree. */
  method VisitKid(w: Walk, e: ChildEdge, v: nat, tables: seq<LoadedTable>, constraints: seq<Constraint>, ghost kid: RTree)
    returns (ok: bool, ghost u: RTree)
    requires Unrolls(kid, v, tables, constraints) && OnceEachTable(kid) && FewKids(kid) && v < |tables|
    requires e.tableIdx == kid.table && e.link == kid.link && v in w.visited && w.visited !! Tables(kid)
    modifies w
    ensures ok <==> LinkFound(v, kid, tables) && ColumnsFound(kid, tables)
    ensures ok ==> w.visited == old(w.visited) + Tables(kid)
    ensures ok ==> (u, w.permState) == Decode(kid, old(w.permState))
    ensures ok ==> w.nodes == old(w.nodes) + PostOrder(u, KidInfo(tables, v, kid.table, kid.link), tables)
    decreases kid, 1
  {
    var cc := ColIndex(tables[e.tableIdx].colNames, e.link.source.col, 0);
    var pc := ColIndex(tables[v].colNames, e.link.target.col, 0);
    ColumnFoundExactly(tables[e.tableIdx].colNames, e.link.source.col);
    ColumnFoundExactly(tables[v].colNames, e.link.target.col);
    ok, u := false, kid;
    if cc < 0 || pc < 0 {
      return;
    }
    w.visited := w.visited + {e.tableIdx};
    var self := NodeInfo(e.tableIdx, tables[v].name, cc, pc, e.link.deviation1, e.link.equality1, e.link.deviation2, e.link.equality2);
    ok, u := CollectPostorder(w, e.tableIdx, self, tables, constraints, kid, v);
  }

  /** Few enough children for exact factorials. */
  ghost predicate FewKids(t: RTree) {
    |t.kids| <= 15 && forall i :: 0 <= i < |t.kids| ==> FewKids(t.kids[i])
  }

  /** collect_postorder: the subtree of table v in post-order, as the variant state selects; false if a column is missing. */
  method CollectPostorder(w: Walk, v: nat, self: NodeInfo, tables: seq<LoadedTable>, constraints: seq<Constraint>,
                          ghost t: RTree, ghost parent: int)
    returns (ok: bool, ghost u: RTree)
    requires Unrolls(t, parent, tables, constraints) && OnceEachTable(t) && FewKids(t) && v == t.table
    requires w.visited * Tables(t) == {v} && (parent >= 0 ==> parent in w.visited)
    modifies w
    ensures ok <==> ColumnsFound(t, tables)
    ensures ok ==> w.visited == old(w.visited) + Tables(t)
    ensures ok ==> (u, w.permState) == Decode(t, old(w.permState))
    ensures ok ==> w.nodes == old(w.nodes) + PostOrder(u, self, tables)
    decreases t, 0, 2
  {
    ghost var s, before, was := w.permState, w.visited, w.nodes;
    var kids;
    ghost var d, us;
    kids, d := ChooseKids(w, v, tables, constraints, t, parent);
    ghost var q := w.permState;
    ok, us := VisitKids(w, kids, v, tables, constraints, t, OrderOf(|t.kids|, d));
    u := RNode(t.table, t.link, us);
    if ok {
      Finish(t, s, d, q, us, w.permState, self, tables, before, w.visited, was, w.nodes);
      w.nodes := w.nodes + [self];
    }
  }

  /** Emitting the node itself after its children completes the subtree. */
  lemma Finish(t: RTree, s: nat, d: nat, q: nat, us: seq<RTree>, rest: nat, self: NodeInfo, tables: seq<LoadedTable>,
               before: set<int>, visited: set<int>, was: seq<NodeInfo>, nodes: seq<NodeInfo>)
    requires d < Factorial(|t.kids|) && s == q * Factorial(|t.kids|) + d
    requires (us, rest) == DecodeKids(t, OrderOf(|t.kids|, d), q)
    requires t.table in before && visited == before + TablesOf(t.kids) && nodes == was + KidsPost(t.table, us, tables)
    ensures Decode(t, s) == (RNode(t.table, t.link, us), rest) && visited == before + Tables(t)
    ensures nodes + [self] == was + PostOrder(RNode(t.table, t.link, us), self, tables)
  {
    DecodeIs(t, s, d, q);
    PostOrderOf(RNode(t.table, t.link, us), self, tables);
  }

  lemma PostOrderOf(u: RTree, self: NodeInfo, tables: seq<LoadedTable>)
    ensures PostOrder(u, self, tables) == KidsPost(u.table, u.kids, tables) + [self]
  {
  }

  /** The unvisited neighbours of v, ordered as the variant says. */
  method ChooseKids(w: Walk, v: nat, tables: seq<LoadedTable>, constraints: seq<Constraint>, ghost t: RTree, ghost parent: int)
    returns (kids: seq<ChildEdge>, ghost d: nat)
    requires Unrolls(t, parent, tables, constraints) && OnceEachTable(t) && FewKids(t) && v == t.table
    requires w.visited * Tables(t) == {v} && (parent >= 0 ==> parent in w.visited)
    modifies w`permState
    ensures d < Factorial(|t.kids|) && old(w.permState) == w.permState * Factorial(|t.kids|) + d
    ensures Looping(t, kids, OrderOf(|t.kids|, d), v, tables, constraints, w.visited)
  {
    KidsUnvisited(t, w.visited);
    UnvisitedAreKids(t, parent, tables, constraints, w.visited, |constraints|);
    kids := CollectKids(tables, constraints, v, w.visited);
    kids, d := OrderKids(w, kids);
    EdgesFace(t, parent, tables, constraints, kids, d);
  }

  lemma KidsUnvisited(t: RTree, visited: set<int>)
    requires OnceEachTable(t) && visited * Tables(t) == {t.table}
    ensures forall i :: 0 <= i < |t.kids| ==> t.kids[i].table !in visited && visited !! Tables(t.kids[i])
  {
    forall i | 0 <= i < |t.kids| ensures t.kids[i].table !in visited && visited !! Tables(t.kids[i]) {
      KidTablesInside(t, i);
      assert t.kids[i].table in Tables(t.kids[i]);
      forall x | x in Tables(t.kids[i]) ensures x !in visited {
        assert x in visited ==> x in visited * Tables(t);
      }
    }
  }

  lemma KidTablesInside(t: RTree, i: nat)
    requires i < |t.kids|
    ensures Tables(t.kids[i]) <= Tables(t)
  {
    forall x | x in Tables(t.kids[i]) ensures x in TablesOf(t.kids) {
      TablesOfMembers(t.kids, x);
    }
  }

  /** What holds throughout the loop over the children of t; before is the set visited at its start. */
  ghost predicate Looping(t: RTree, r: seq<ChildEdge>, order: seq<nat>, v: nat, tables: seq<LoadedTable>, constraints: seq<Constraint>, before: set<int>) {
    && t.table == v < |tables| && OnceEachTable(t) && FewKids(t) && Faces(t, r, order) && v in before
    && (forall i :: 0 <= i < |t.kids| ==> Unrolls(t.kids[i], v, tables, constraints) && before !! Tables(t.kids[i]))
  }

  /** Where the loop stands before child j. */
  ghost predicate At(w: Walk, t: RTree, order: seq<nat>, tables: seq<LoadedTable>, before: set<int>, s: nat, was: seq<NodeInfo>, j: nat, us: seq<RTree>)
    reads w
  {
    && Names(t, order) && j <= |order|
    && w.visited == before + TablesAt(t, order[..j]) && KidsSoFar(t, order, s, j, us, w.permState)
    && w.nodes == was + KidsPost(t.table, us, tables) && FoundTo(t, order, j, tables)
  }

  /** All children in the chosen order. */
  method VisitKids(w: Walk, r: seq<ChildEdge>, v: nat, tables: seq<LoadedTable>, constraints: seq<Constraint>,
                   ghost t: RTree, ghost order: seq<nat>) returns (ok: bool, ghost us: seq<RTree>)
    requires Looping(t, r, order, v, tables, constraints, w.visited)
    modifies w
    ensures ok <==> ColumnsFound(t, tables)
    ensures ok ==> w.visited == old(w.visited) + TablesOf(t.kids)
    ensures ok ==> (us, w.permState) == DecodeKids(t, order, old(w.permState))
    ensures ok ==> w.nodes == old(w.nodes) + KidsPost(v, us, tables)
    decreases t, 0, 1
  {
    ghost var s, before, was := w.permState, w.visited, w.nodes;
    us := [];
    NoKidsYet(t, order, s);
    ok := true;
    for j := 0 to |r|
      invariant ok && At(w, t, order, tables, before, s, was, j, us)
    {
      ok, us := VisitNext(w, r[j], v, tables, constraints, t, r, order, before, s, was, j, us);
      if !ok {
        return;
      }
    }
    LoopDone(w, t, r, order, tables, before, s, was, us);
  }

  lemma LoopDone(w: Walk, t: RTree, r: seq<ChildEdge>, order: seq<nat>, tables: seq<LoadedTable>, before: set<int>, s: nat, was: seq<NodeInfo>, us: seq<RTree>)
    requires Faces(t, r, order) && At(w, t, order, tables, before, s, was, |r|, us)
    ensures w.visited == before + TablesOf(t.kids) && (us, w.permState) == DecodeKids(t, order, s) && ColumnsFound(t, tables)
  {
    assert order[..|r|] == order;
    AllTablesAt(t, order);
    AllFound(t, order, tables);
    AllKids(t, order, s, us, w.permState);
  }

  lemma NoKidsYet(t: RTree, order: seq<nat>, s: nat)
    requires Names(t, order)
    ensures KidsSoFar(t, order, s, 0, [], s)
  {
    assert order[0..] == order;
    assert [] + DecodeKids(t, order, s).0 == DecodeKids(t, order, s).0;
  }

  lemma AllKids(t: RTree, order: seq<nat>, s: nat, us: seq<RTree>, now: nat)
    requires Names(t, order) && KidsSoFar(t, order, s, |order|, us, now)
    ensures DecodeKids(t, order, s) == (us, now)
  {
    assert order[|order|..] == [];
    assert us + [] == us;
  }

  /** The links of the first j children are resolved. */
  ghost predicate FoundTo(t: RTree, order: seq<nat>, j: nat, tables: seq<LoadedTable>)
    requires Names(t, order) && j <= |order|
  {
    forall i :: 0 <= i < j ==> LinkFound(t.table, t.kids[order[i]], tables) && ColumnsFound(t.kids[order[i]], tables)
  }

  lemma AllFound(t: RTree, order: seq<nat>, tables: seq<LoadedTable>)
    requires Names(t, order) && FoundTo(t, order, |order|, tables) && forall i: nat :: i < |t.kids| ==> i in order
    ensures ColumnsFound(t, tables)
  {
    forall i: nat | i < |t.kids| ensures LinkFound(t.table, t.kids[i], tables) && ColumnsFound(t.kids[i], tables) {
      assert i in order;
      var j :| 0 <= j < |order| && order[j] == i;
    }
  }

  /** One step of the loop: a child that is not visited yet is. */
  method VisitNext(w: Walk, e: ChildEdge, v: nat, tables: seq<LoadedTable>, constraints: seq<Constraint>,
                   ghost t: RTree, ghost r: seq<ChildEdge>, ghost order: seq<nat>, ghost before: set<int>,
                   ghost s: nat, ghost was: seq<NodeInfo>, ghost j: nat, ghost us: seq<RTree>)
    returns (ok: bool, ghost vs: seq<RTree>)
    requires Looping(t, r, order, v, tables, constraints, before) && j < |r| && e == r[j]
    requires At(w, t, order, tables, before, s, was, j, us)
    modifies w
    ensures !ok ==> !ColumnsFound(t, tables)
    ensures ok ==> At(w, t, order, tables, before, s, was, j + 1, vs)
    decreases t, 0, 0
  {
    NextKidFree(t, order, j);
    ghost var kid, now := t.kids[order[j]], w.permState;
    assert kid.table in Tables(kid);
    ok, vs := true, us;
    if e.tableIdx !in w.visited {
      ghost var u;
      ok, u := VisitKid(w, e, v, tables, constraints, kid);
      vs := us + [u];
      if ok {
        Advance(w, t, order, tables, before, s, was, j, us, now, u);
      }
    }
  }

  /** After child j the loop stands before child j + 1. */
  lemma Advance(w: Walk, t: RTree, order: seq<nat>, tables: seq<LoadedTable>, before: set<int>, s: nat, was: seq<NodeInfo>, j: nat,
                us: seq<RTree>, now: nat, u: RTree)
    requires Names(t, order) && j < |order| && KidsSoFar(t, order, s, j, us, now) && FoundTo(t, order, j, tables)
    requires (u, w.permState) == Decode(t.kids[order[j]], now)
    requires w.visited == before + TablesAt(t, order[..j]) + Tables(t.kids[order[j]])
    requires LinkFound(t.table, t.kids[order[j]], tables) && ColumnsFound(t.kids[order[j]], tables)
    requires w.nodes == was + KidsPost(t.table, us, tables)
      + PostOrder(u, KidInfo(tables, t.table, t.kids[order[j]].table, t.kids[order[j]].link), tables)
    ensures At(w, t, order, tables, before, s, was, j + 1, us + [u])
  {
    NextKid(t, order, s, j, us, now);
    TablesAtSnoc(t, order, j);
    DecodeTable(t.kids[order[j]], now);
    KidsPostSnoc(t.table, us, u, tables);
    Reassociate(was, KidsPost(t.table, us, tables), PostOrder(u, KidInfo(tables, t.table, u.table, u.link), tables));
  }

  lemma TablesAtSnoc(t: RTree, order: seq<nat>, j: nat)
    requires Names(t, order) && j < |order|
    ensures TablesAt(t, order[..j + 1]) == TablesAt(t, order[..j]) + Tables(t.kids[order[j]])
  {
    assert order[..j + 1][..j] == order[..j];
  }

  /** The first j children are decoded to us, and now is the state that decodes the others. */
  ghost predicate KidsSoFar(t: RTree, order: seq<nat>, s: nat, j: nat, us: seq<RTree>, now: nat)
    requires Names(t, order) && j <= |order|
  {
    var rest := DecodeKids(t, order[j..], now);
    DecodeKids(t, order, s) == (us + rest.0, rest.1)
  }

  lemma NextKid(t: RTree, order: seq<nat>, s: nat, j: nat, us: seq<RTree>, now: nat)
    requires Names(t, order) && j < |order| && KidsSoFar(t, order, s, j, us, now)
    ensures var u := Decode(t.kids[order[j]], now); KidsSoFar(t, order, s, j + 1, us + [u.0], u.1)
  {
    var u := Decode(t.kids[order[j]], now);
    assert order[j..][0] == order[j] && order[j..][1..] == order[j + 1..];
    var rest := DecodeKids(t, order[j + 1..], u.1);
    assert us + ([u.0] + rest.0) == (us + [u.0]) + rest.0;
  }
}
