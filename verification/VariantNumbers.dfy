/** Different variant numbers give different node arrays. */
module VariantNumbers {
  import opened HostLayout
  import opened Conditions
  import opened TreeVariants
  import opened JoinGraph
  import opened PostorderWalk
  import opened SerializedTree
  import opened VariantShape
  import opened Serializer
  import opened VariantArrays

  // ---- The array determines the records ----

  lemma SameRecord(ds: seq<NodeDesc>, a: seq<NodeInfo>, b: seq<NodeInfo>, tables: seq<LoadedTable>, i: nat)
    requires |a| == |b| == |ds| && Described(ds, a, tables, |a|) && Described(ds, b, tables, |b|) && i < |a|
    ensures a[i] == b[i]
  {
    var p := ds[i].parentIdx;
    assert ParentAt(a, a[i], p, tables) && ParentAt(b, b[i], p, tables);
    if 0 <= p < |a| {
      assert a[p].tableIdx == ds[p].tableIdx == b[p].tableIdx;
    }
    assert DescOf(a[i], p) == DescOf(b[i], p);
  }

  lemma RecordsOfArray(ds: seq<NodeDesc>, a: seq<NodeInfo>, b: seq<NodeInfo>, tables: seq<LoadedTable>)
    requires Described(ds, a, tables, |a|) && Described(ds, b, tables, |b|)
    ensures a == b
  {
    forall i | 0 <= i < |a| ensures a[i] == b[i] {
      SameRecord(ds, a, b, tables, i);
    }
  }

  // ---- The records determine the tree ----

  lemma {:induction false} LinkedLoaded(u: RTree, tables: seq<LoadedTable>, constraints: seq<Constraint>, x: int)
    requires Linked(u, tables, constraints) && x in Tables(u)
    ensures 0 <= x < |tables|
  {
    if x != u.table {
      TablesOfMembers(u.kids, x);
      var i :| 0 <= i < |u.kids| && x in Tables(u.kids[i]);
      LinkedLoaded(u.kids[i], tables, constraints, x);
    }
  }

  /** Below u no record names a table outside u's subtree as its parent. */
  lemma {:induction false} ParentsInside(u: RTree, v: nat, tables: seq<LoadedTable>, constraints: seq<Constraint>, i: nat)
    requires NamedTables(tables) && Linked(u, tables, constraints) && OnceEachTable(u) && v < |tables| && v !in Tables(u)
    requires i < |KidsPost(u.table, u.kids, tables)|
    ensures KidsPost(u.table, u.kids, tables)[i].parentTable != NameOfTable(tables, v)
  {
    var x := ParentWithin(u, tables, constraints, i);
    LinkedLoaded(u, tables, constraints, x);
  }

  lemma {:induction false} ParentWithin(u: RTree, tables: seq<LoadedTable>, constraints: seq<Constraint>, i: nat) returns (x: nat)
    requires Linked(u, tables, constraints) && OnceEachTable(u) && i < |KidsPost(u.table, u.kids, tables)|
    ensures x in Tables(u) && KidsPost(u.table, u.kids, tables)[i].parentTable == NameOfTable(tables, x)
  {
    var ns := KidsPost(u.table, u.kids, tables);
    KidsStretch(u.table, u.kids, tables, constraints);
    x := u.table;
    if ns[i].parentTable != NameOfTable(tables, u.table) {
      assert LaterParent(ns, i, tables);
      var j :| i < j < |ns| && ns[i].parentTable == NameOfTable(tables, ns[j].tableIdx);
      x := ns[j].tableIdx;
      assert x in TableSet(ns);
    }
  }

  /** Before the first record with the given parent there is no other. */
  lemma FirstWithParent(name: string, all: seq<NodeInfo>, m: nat, n: nat)
    requires m < |all| && n <= |all| && all[m].parentTable == name
    requires forall i :: 0 <= i < n ==> all[i].parentTable != name
    ensures n <= m
  {
  }

  /** A list splits in one way after the first record with the given parent. */
  lemma {:induction false} SplitUnique(name: string, a: seq<NodeInfo>, s: NodeInfo, c: seq<NodeInfo>, b: seq<NodeInfo>, r: NodeInfo, d: seq<NodeInfo>)
    requires (a + [s]) + c == (b + [r]) + d && s.parentTable == name && r.parentTable == name
    requires forall i :: 0 <= i < |a| ==> a[i].parentTable != name
    requires forall i :: 0 <= i < |b| ==> b[i].parentTable != name
    ensures a == b && s == r && c == d
  {
    var all := (a + [s]) + c;
    assert all[|a|] == s && all[|b|] == r && all[..|a|] == a && all[..|b|] == b;
    FirstWithParent(name, all, |a|, |b|);
    FirstWithParent(name, all, |b|, |a|);
    assert c == all[|a| + 1..] && d == all[|a| + 1..];
  }

  /** us are children of t in some order, reordered below. */
  ghost predicate SomeKids(t: RTree, us: seq<RTree>, order: seq<nat>, tables: seq<LoadedTable>, constraints: seq<Constraint>) {
    && Names(t, order) && KidsReordered(t, us, order) && OnceEachTable(t) && Linked(t, tables, constraints)
  }

  lemma OneKid(t: RTree, us: seq<RTree>, order: seq<nat>, tables: seq<LoadedTable>, constraints: seq<Constraint>, i: nat)
    requires NamedTables(tables) && SomeKids(t, us, order, tables, constraints) && i < |us|
    ensures var kid := t.kids[order[i]];
      Reordering(kid, us[i]) && us[i].table == kid.table && us[i].link == kid.link && OnceEachTable(kid) && Linked(kid, tables, constraints)
    ensures forall j :: 0 <= j < |KidsPost(us[i].table, us[i].kids, tables)| ==>
      KidsPost(us[i].table, us[i].kids, tables)[j].parentTable != NameOfTable(tables, t.table)
  {
    var kid := t.kids[order[i]];
    SameHead(kid, us[i]);
    ReorderedTables(kid, us[i]);
    ReorderedLinked(kid, us[i], tables, constraints);
    forall j | 0 <= j < |KidsPost(us[i].table, us[i].kids, tables)|
      ensures KidsPost(us[i].table, us[i].kids, tables)[j].parentTable != NameOfTable(tables, t.table)
    {
      ParentsInside(us[i], t.table, tables, constraints, j);
    }
  }

  lemma SomeKidsTail(t: RTree, us: seq<RTree>, order: seq<nat>, tables: seq<LoadedTable>, constraints: seq<Constraint>)
    requires SomeKids(t, us, order, tables, constraints) && us != []
    ensures SomeKids(t, us[1..], order[1..], tables, constraints)
  {
    KidsReorderedTail(t, us, order);
  }

  lemma KidsPostFirst(v: nat, us: seq<RTree>, tables: seq<LoadedTable>)
    requires us != []
    ensures KidsPost(v, us, tables)
      == (KidsPost(us[0].table, us[0].kids, tables) + [KidInfo(tables, v, us[0].table, us[0].link)]) + KidsPost(v, us[1..], tables)
  {
    PostOrderOf(us[0], KidInfo(tables, v, us[0].table, us[0].link), tables);
  }

  /** Equal records have the same first child, with the same records below it and after it. */
  lemma {:induction false} FirstKidFromRecords(t: RTree, us: seq<RTree>, a: seq<nat>, ws: seq<RTree>, b: seq<nat>, tables: seq<LoadedTable>, constraints: seq<Constraint>)
    requires NamedTables(tables) && SomeKids(t, us, a, tables, constraints) && SomeKids(t, ws, b, tables, constraints)
    requires KidsPost(t.table, us, tables) == KidsPost(t.table, ws, tables) && us != [] && ws != []
    ensures a[0] == b[0] && KidsPost(t.table, us[1..], tables) == KidsPost(t.table, ws[1..], tables)
    ensures KidsPost(us[0].table, us[0].kids, tables) == KidsPost(ws[0].table, ws[0].kids, tables)
  {
    KidsPostFirst(t.table, us, tables);
    KidsPostFirst(t.table, ws, tables);
    OneKid(t, us, a, tables, constraints, 0);
    OneKid(t, ws, b, tables, constraints, 0);
    SplitUnique(NameOfTable(tables, t.table),
                KidsPost(us[0].table, us[0].kids, tables), KidInfo(tables, t.table, us[0].table, us[0].link), KidsPost(t.table, us[1..], tables),
                KidsPost(ws[0].table, ws[0].kids, tables), KidInfo(tables, t.table, ws[0].table, ws[0].link), KidsPost(t.table, ws[1..], tables));
    SameKidIndex(t, a[0], b[0]);
  }

  lemma FirstKidIs(t: RTree, us: seq<RTree>, order: seq<nat>, tables: seq<LoadedTable>, constraints: seq<Constraint>)
    requires SomeKids(t, us, order, tables, constraints) && us != []
    ensures var kid := t.kids[order[0]]; Reordering(kid, us[0]) && OnceEachTable(kid) && Linked(kid, tables, constraints)
  {
  }

  lemma SameFirstAndRest<T>(s: seq<T>, t: seq<T>)
    requires s != [] && t != [] && s[0] == t[0] && s[1..] == t[1..]
    ensures s == t
  {
    assert s == [s[0]] + s[1..] && t == [t[0]] + t[1..];
  }

  lemma EmptyKids(v: nat, us: seq<RTree>, tables: seq<LoadedTable>)
    ensures KidsPost(v, us, tables) == [] <==> us == []
  {
    if us != [] {
      KidsPostFirst(v, us, tables);
    }
  }

  lemma {:induction false} KidsFromRecords(t: RTree, us: seq<RTree>, a: seq<nat>, ws: seq<RTree>, b: seq<nat>, tables: seq<LoadedTable>, constraints: seq<Constraint>)
    requires NamedTables(tables) && SomeKids(t, us, a, tables, constraints) && SomeKids(t, ws, b, tables, constraints)
    requires KidsPost(t.table, us, tables) == KidsPost(t.table, ws, tables)
    ensures us == ws
    decreases t, |us|
  {
    if us != [] && ws != [] {
      FirstKidFromRecords(t, us, a, ws, b, tables, constraints);
      FirstKidIs(t, us, a, tables, constraints);
      FirstKidIs(t, ws, b, tables, constraints);
      TreeFromRecords(t.kids[a[0]], us[0], ws[0], tables, constraints);
      SomeKidsTail(t, us, a, tables, constraints);
      SomeKidsTail(t, ws, b, tables, constraints);
      KidsFromRecords(t, us[1..], a[1..], ws[1..], b[1..], tables, constraints);
      SameFirstAndRest(us, ws);
    } else {
      EmptyKids(t.table, us, tables);
      EmptyKids(t.table, ws, tables);
    }
  }

  lemma SameKidIndex(t: RTree, i: nat, j: nat)
    requires OnceEachTable(t) && i < |t.kids| && j < |t.kids| && t.kids[i].table == t.kids[j].table
    ensures i == j
  {
    assert t.kids[i].table in Tables(t.kids[i]) && t.kids[j].table in Tables(t.kids[j]);
  }

  /** Two orderings of one rooted tree with the same records are the same. */
  lemma {:induction false} TreeFromRecords(t: RTree, u: RTree, w: RTree, tables: seq<LoadedTable>, constraints: seq<Constraint>)
    requires NamedTables(tables) && OnceEachTable(t) && Linked(t, tables, constraints) && Reordering(t, u) && Reordering(t, w)
    requires KidsPost(u.table, u.kids, tables) == KidsPost(w.table, w.kids, tables)
    ensures u == w
    decreases t, |t.kids| + 1
  {
    var a: seq<nat> :| ReorderedBy(t, u.kids, a);
    var b: seq<nat> :| ReorderedBy(t, w.kids, b);
    MembersOfPermutation(a, |t.kids|);
    ReorderedKids(t, u.kids, a);
    SameHead(t, u);
    SameHead(t, w);
    KidsFromRecords(t, u.kids, a, w.kids, b, tables, constraints);
  }

  // ---- The array determines the variant ----

  ghost predicate DistinctFrom(names: seq<string>) {
    forall i, j :: 0 <= i < j < |names| ==> names[i] != names[j]
  }

  lemma RootOf(trees: seq<RTree>, names: seq<string>, tables: seq<LoadedTable>, constraints: seq<Constraint>, i: nat)
    requires Acyclic(trees, names, tables, constraints) && AllLoaded(names, tables) && i < |names|
    ensures trees[i].table < |tables| && tables[trees[i].table].name == names[i] && SiblingsDiffer(trees[i])
  {
    assert Rooted(trees[i], names[i], tables, constraints);
    OnceEachSiblings(trees[i]);
  }

  lemma RootsApart(trees: seq<RTree>, names: seq<string>, tables: seq<LoadedTable>, constraints: seq<Constraint>)
    requires Acyclic(trees, names, tables, constraints) && AllLoaded(names, tables) && DistinctFrom(names)
    ensures RootsDiffer(trees)
  {
    forall i | 0 <= i < |trees|
      ensures trees[i].table < |tables| && tables[trees[i].table].name == names[i] && SiblingsDiffer(trees[i])
    {
      RootOf(trees, names, tables, constraints, i);
    }
  }

  /** Equal arrays have equal roots. */
  lemma SameRoot(trees: seq<RTree>, j: nat, k: nat, u: RTree, w: RTree, ns: seq<NodeInfo>, tables: seq<LoadedTable>)
    requires RootsDiffer(trees) && j < |trees| && k < |trees| && u.table == trees[j].table && w.table == trees[k].table
    requires ns == PostOrder(u, RootInfo(u.table), tables) == PostOrder(w, RootInfo(w.table), tables)
    ensures j == k && KidsPost(u.table, u.kids, tables) == KidsPost(w.table, w.kids, tables)
  {
    PostOrderOf(u, RootInfo(u.table), tables);
    PostOrderOf(w, RootInfo(w.table), tables);
    assert ns[|ns| - 1] == RootInfo(u.table) == RootInfo(w.table);
    assert ns[..|ns| - 1] == KidsPost(u.table, u.kids, tables) == KidsPost(w.table, w.kids, tables);
  }

  /** The node array determines the selected tree. */
  lemma {:induction false} ArrayDeterminesTree(names: seq<string>, tables: seq<LoadedTable>, constraints: seq<Constraint>, trees: seq<RTree>,
                                               r: nat, u: RTree, s: nat, w: RTree, ds: seq<NodeDesc>)
    requires NamedTables(tables) && DistinctFrom(names) && Acyclic(trees, names, tables, constraints)
    requires Answers(Serialized(ds), names, tables, constraints, trees, r, u) && Answers(Serialized(ds), names, tables, constraints, trees, s, w)
    ensures u == w
  {
    var j := SelectedShape(trees, names, tables, constraints, r, u);
    var k := SelectedShape(trees, names, tables, constraints, s, w);
    RootsApart(trees, names, tables, constraints);
    RecordsOfArray(ds, PostOrder(u, RootInfo(u.table), tables), PostOrder(w, RootInfo(w.table), tables), tables);
    SameRoot(trees, j, k, u, w, PostOrder(u, RootInfo(u.table), tables), tables);
    UnrolledLinked(trees[j], -1, tables, constraints);
    TreeFromRecords(trees[j], u, w, tables, constraints);
  }

  /** Every count survives the casts. */
  ghost predicate CountsFit(trees: seq<RTree>) {
    forall k :: 0 <= k < |trees| ==> CountFits(Variants(trees[k]))
  }

  /** While the counts fit, two variants with the same node array are the same variant. */
  lemma {:induction false} ArrayDeterminesVariant(names: seq<string>, tables: seq<LoadedTable>, constraints: seq<Constraint>, trees: seq<RTree>,
                                                  r: nat, u: RTree, s: nat, w: RTree, ds: seq<NodeDesc>)
    requires NamedTables(tables) && DistinctFrom(names) && Acyclic(trees, names, tables, constraints) && CountsFit(trees)
    requires Answers(Serialized(ds), names, tables, constraints, trees, r, u) && Answers(Serialized(ds), names, tables, constraints, trees, s, w)
    ensures r == s
  {
    RootsApart(trees, names, tables, constraints);
    ArrayDeterminesTree(names, tables, constraints, trees, r, u, s, w, ds);
    VariantsCorrespondExactly(trees);
  }
}
