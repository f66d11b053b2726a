/** A query whose constraints form a spanning tree of its FROM tables unrolls into a tree from every root. */
module UnrolledTrees {
  import opened Totals
  import Records
  import opened JoinTree
  import opened HostLayout
  import opened Conditions
  import opened TreeVariants
  import opened JoinGraph
  import opened PostorderWalk
  import opened SerializedTree
  import opened VariantShape
  import opened Serializer
  import opened VariantArrays
  import opened VariantNumbers
  import opened SpanningTree

  // ---- Constraints as edges ----

  ghost function EndsOf(tables: seq<LoadedTable>, constraints: seq<Constraint>): (r: seq<(int, int)>)
    ensures |r| == |constraints|
  {
    seq(|constraints|, k requires 0 <= k < |constraints| =>
      (TableIndex(tables, constraints[k].source.table, 0), TableIndex(tables, constraints[k].target.table, 0)))
  }

  /** What a constraint is to table v, by its ends. */
  lemma EdgeByEnds(tables: seq<LoadedTable>, constraints: seq<Constraint>, k: nat, v: nat)
    requires DistinctNames(tables) && Joins(tables, constraints) && k < |constraints| && v < |tables|
    ensures var e := EndsOf(tables, constraints)[k];
      && 0 <= e.0 < |tables| && 0 <= e.1 < |tables| && e.0 != e.1
      && EdgeOf(tables, constraints[k], v)
        == if e.0 == v then Some(ChildEdge(e.1, ReverseConstraint(constraints[k])))
           else if e.1 == v then Some(ChildEdge(e.0, constraints[k])) else Option.None
  {
    var a: nat, b: nat :| Connects(tables, constraints[k], a, b);
    TableIndexUnique(tables, a, 0);
    TableIndexUnique(tables, b, 0);
    assert EndsOf(tables, constraints)[k] == (a, b);
    assert v != a ==> tables[v].name != tables[a].name;
    assert v != b ==> tables[v].name != tables[b].name;
  }

  /** The constraints behind the edges of v that are not excluded. */
  ghost function EdgeIndices(tables: seq<LoadedTable>, constraints: seq<Constraint>, v: nat, excluded: set<int>, n: nat): (r: seq<nat>)
    requires v < |tables| && n <= |constraints|
    ensures |r| == |EdgesOutside(tables, constraints, v, excluded, n)|
  {
    if n == 0 then [] else
      EdgeIndices(tables, constraints, v, excluded, n - 1) +
      match EdgeOf(tables, constraints[n - 1], v) {
        case Some(e) => if e.tableIdx in excluded then [] else [n - 1]
        case None => []
      }
  }

  /** Index k stands for edge e. */
  ghost predicate StandsFor(tables: seq<LoadedTable>, constraints: seq<Constraint>, v: nat, excluded: set<int>, k: nat, e: ChildEdge)
    requires v < |tables|
  {
    k < |constraints| && EdgeOf(tables, constraints[k], v) == Some(e) && e.tableIdx !in excluded
  }

  lemma {:induction false} IndicesStandFor(tables: seq<LoadedTable>, constraints: seq<Constraint>, v: nat, excluded: set<int>, n: nat, i: nat)
    requires v < |tables| && n <= |constraints| && i < |EdgesOutside(tables, constraints, v, excluded, n)|
    ensures StandsFor(tables, constraints, v, excluded, EdgeIndices(tables, constraints, v, excluded, n)[i],
                      EdgesOutside(tables, constraints, v, excluded, n)[i])
    ensures EdgeIndices(tables, constraints, v, excluded, n)[i] < n
  {
    if i < |EdgesOutside(tables, constraints, v, excluded, n - 1)| {
      IndicesStandFor(tables, constraints, v, excluded, n - 1, i);
    }
  }

  ghost predicate Ascending(s: seq<nat>) {
    forall i, j :: 0 <= i < j < |s| ==> s[i] < s[j]
  }

  lemma AscendingSnoc(s: seq<nat>, n: nat)
    requires Ascending(s) && forall k :: k in s ==> k < n
    ensures Ascending(s + [n]) && forall k :: k in s + [n] ==> k <= n
  {
    forall i, j | 0 <= i < j < |s| + 1 ensures (s + [n])[i] < (s + [n])[j] {
      assert s[i] in s;
    }
  }

  /** The edges of a table come in the order of their constraints. */
  lemma {:induction false} IndicesAscend(tables: seq<LoadedTable>, constraints: seq<Constraint>, v: nat, excluded: set<int>, n: nat)
    requires v < |tables| && n <= |constraints|
    ensures Ascending(EdgeIndices(tables, constraints, v, excluded, n))
    ensures NoRepeats(EdgeIndices(tables, constraints, v, excluded, n))
    ensures forall k :: k in EdgeIndices(tables, constraints, v, excluded, n) ==> k < n
  {
    if n > 0 {
      IndicesAscend(tables, constraints, v, excluded, n - 1);
      AscendingSnoc(EdgeIndices(tables, constraints, v, excluded, n - 1), n - 1);
    }
  }

  lemma {:induction false} IndicesAll(tables: seq<LoadedTable>, constraints: seq<Constraint>, v: nat, excluded: set<int>, n: nat, k: nat, e: ChildEdge)
    requires v < |tables| && k < n <= |constraints| && StandsFor(tables, constraints, v, excluded, k, e)
    ensures k in EdgeIndices(tables, constraints, v, excluded, n)
  {
    if k < n - 1 {
      IndicesAll(tables, constraints, v, excluded, n - 1, k, e);
    }
  }

  // ---- Growing the tree ----

  /** A graph of loaded tables, spanning ts. */
  ghost predicate Graph(tables: seq<LoadedTable>, constraints: seq<Constraint>, ts: set<int>) {
    DistinctNames(tables) && Joins(tables, constraints) && Spanning(EndsOf(tables, constraints), ts)
  }

  /** t unrolls the part s below v. */
  ghost predicate Grown(t: RTree, v: int, p: int, s: set<int>, tables: seq<LoadedTable>, constraints: seq<Constraint>) {
    t.table == v && Unrolls(t, p, tables, constraints) && OnceEachTable(t) && Tables(t) == s
  }

  /** The subtree at the i-th edge of v. */
  ghost predicate KidGrown(t: RTree, r: set<int>, k: nat, e: ChildEdge, v: nat, s: set<int>, tables: seq<LoadedTable>, constraints: seq<Constraint>) {
    Grown(t, e.tableIdx, v, r, tables, constraints) && t.link == e.link && Hangs(EndsOf(tables, constraints), s, v, r, k)
  }

  lemma {:induction false} GrowTree(tables: seq<LoadedTable>, constraints: seq<Constraint>, ts: set<int>, s: set<int>, v: nat, p: int, link: Constraint)
    returns (t: RTree)
    requires Graph(tables, constraints, ts) && s <= ts && v < |tables| && Part(EndsOf(tables, constraints), s, v, p)
    ensures Grown(t, v, p, s, tables, constraints) && t.link == link
    decreases |s|, 1, 0
  {
    var n := |EdgesOutside(tables, constraints, v, {p}, |constraints|)|;
    var kids, parts := GrowKids(tables, constraints, ts, s, v, p, n);
    t := RNode(v, link, kids);
    KidsMakeTree(tables, constraints, s, v, p, kids, parts, t);
  }

  lemma {:induction false} GrowKids(tables: seq<LoadedTable>, constraints: seq<Constraint>, ts: set<int>, s: set<int>, v: nat, p: int, n: nat)
    returns (kids: seq<RTree>, parts: seq<set<int>>)
    requires Graph(tables, constraints, ts) && s <= ts && v < |tables| && Part(EndsOf(tables, constraints), s, v, p)
    requires n <= |EdgesOutside(tables, constraints, v, {p}, |constraints|)|
    ensures KidsGrown(kids, parts, n, v, p, s, tables, constraints)
    decreases |s|, 0, n
  {
    if n == 0 {
      kids, parts := [], [];
    } else {
      var ks, rs := GrowKids(tables, constraints, ts, s, v, p, n - 1);
      var kid, r := GrowKid(tables, constraints, ts, s, v, p, n - 1);
      kids, parts := ks + [kid], rs + [r];
    }
  }

  /** The subtrees at the first n edges of v. */
  ghost predicate KidsGrown(kids: seq<RTree>, parts: seq<set<int>>, n: nat, v: nat, p: int, s: set<int>, tables: seq<LoadedTable>, constraints: seq<Constraint>)
    requires v < |tables|
  {
    var edges, ks := EdgesOutside(tables, constraints, v, {p}, |constraints|), EdgeIndices(tables, constraints, v, {p}, |constraints|);
    |kids| == |parts| == n <= |edges|
    && forall i :: 0 <= i < n ==> KidGrown(kids[i], parts[i], ks[i], edges[i], v, s, tables, constraints)
  }

  lemma {:induction false} GrowKid(tables: seq<LoadedTable>, constraints: seq<Constraint>, ts: set<int>, s: set<int>, v: nat, p: int, i: nat)
    returns (kid: RTree, r: set<int>)
    requires Graph(tables, constraints, ts) && s <= ts && v < |tables| && Part(EndsOf(tables, constraints), s, v, p)
    requires i < |EdgesOutside(tables, constraints, v, {p}, |constraints|)|
    ensures KidGrown(kid, r, EdgeIndices(tables, constraints, v, {p}, |constraints|)[i],
                     EdgesOutside(tables, constraints, v, {p}, |constraints|)[i], v, s, tables, constraints)
    decreases |s|, 0, 0
  {
    var k, e := EdgeIndices(tables, constraints, v, {p}, |constraints|)[i], EdgesOutside(tables, constraints, v, {p}, |constraints|)[i];
    IndicesStandFor(tables, constraints, v, {p}, |constraints|, i);
    EdgeByEnds(tables, constraints, k, v);
    r := PartBelow(EndsOf(tables, constraints), ts, s, v, p, k, e.tableIdx);
    ProperPart(s, v, r);
    kid := GrowTree(tables, constraints, ts, r, e.tableIdx, v, e.link);
  }

  lemma ProperPart(s: set<int>, v: int, r: set<int>)
    requires v in s && r <= s - {v}
    ensures |r| < |s|
  {
    SubsetSize(r, s - {v});
  }

  /** What the subtree at one edge is. */
  ghost predicate KidIs(t: RTree, r: set<int>, k: nat, v: nat, s: set<int>, tables: seq<LoadedTable>, constraints: seq<Constraint>) {
    OnceEachTable(t) && Tables(t) == r && v !in r && Hangs(EndsOf(tables, constraints), s, v, r, k)
  }

  lemma KidFacts(tables: seq<LoadedTable>, constraints: seq<Constraint>, s: set<int>, v: nat, p: int, kids: seq<RTree>, parts: seq<set<int>>, n: nat, i: nat)
    requires v < |tables| && KidsGrown(kids, parts, n, v, p, s, tables, constraints) && i < n
    ensures KidIs(kids[i], parts[i], EdgeIndices(tables, constraints, v, {p}, |constraints|)[i], v, s, tables, constraints)
    ensures var e := EdgesOutside(tables, constraints, v, {p}, |constraints|)[i];
      kids[i].table == e.tableIdx && kids[i].link == e.link && Unrolls(kids[i], v, tables, constraints)
  {
    assert KidGrown(kids[i], parts[i], EdgeIndices(tables, constraints, v, {p}, |constraints|)[i],
                    EdgesOutside(tables, constraints, v, {p}, |constraints|)[i], v, s, tables, constraints);
  }

  /** Subtrees at different edges share no table. */
  lemma KidsApartBy(ends: seq<(int, int)>, tables: seq<LoadedTable>, constraints: seq<Constraint>, s: set<int>, v: nat, kids: seq<RTree>,
                    parts: seq<set<int>>, ks: seq<nat>, t: RTree)
    requires ends == EndsOf(tables, constraints) && |kids| == |parts| == |ks| && NoRepeats(ks) && t.table == v && t.kids == kids
    requires forall i :: 0 <= i < |kids| ==> KidIs(kids[i], parts[i], ks[i], v, s, tables, constraints)
    ensures OnceEachTable(t)
  {
    forall i, j | 0 <= i < j < |kids| ensures Tables(kids[i]) !! Tables(kids[j]) {
      assert KidIs(kids[i], parts[i], ks[i], v, s, tables, constraints);
      assert KidIs(kids[j], parts[j], ks[j], v, s, tables, constraints);
      PartsApart(ends, s, v, parts[i], ks[i], parts[j], ks[j]);
    }
    forall i | 0 <= i < |kids| ensures v !in Tables(kids[i]) && OnceEachTable(kids[i]) {
      assert KidIs(kids[i], parts[i], ks[i], v, s, tables, constraints);
    }
  }

  lemma KidsUnroll(tables: seq<LoadedTable>, constraints: seq<Constraint>, s: set<int>, v: nat, p: int, kids: seq<RTree>, parts: seq<set<int>>, t: RTree)
    requires v < |tables| && KidsGrown(kids, parts, |EdgesOutside(tables, constraints, v, {p}, |constraints|)|, v, p, s, tables, constraints)
    requires t.table == v && t.kids == kids
    ensures Unrolls(t, p, tables, constraints)
  {
    var edges := EdgesOutside(tables, constraints, v, {p}, |constraints|);
    forall i | 0 <= i < |kids|
      ensures kids[i].table == edges[i].tableIdx && kids[i].link == edges[i].link && Unrolls(kids[i], v, tables, constraints)
    {
      KidFacts(tables, constraints, s, v, p, kids, parts, |edges|, i);
    }
  }

  lemma KidsCover(tables: seq<LoadedTable>, constraints: seq<Constraint>, s: set<int>, v: nat, p: int, parts: seq<set<int>>, ks: seq<nat>, t: RTree)
    requires DistinctNames(tables) && Joins(tables, constraints) && v < |tables| && Part(EndsOf(tables, constraints), s, v, p)
    requires ks == EdgeIndices(tables, constraints, v, {p}, |constraints|) && t.table == v && |t.kids| == |parts| == |ks|
    requires forall i :: 0 <= i < |ks| ==> KidIs(t.kids[i], parts[i], ks[i], v, s, tables, constraints)
    ensures Tables(t) == s
  {
    var ends := EndsOf(tables, constraints);
    forall k: nat | LeadsDown(ends, v, p, k) ensures k in ks {
      DownIsListed(tables, constraints, v, p, k);
    }
    forall i | 0 <= i < |ks| ensures Hangs(ends, s, v, parts[i], ks[i]) && Tables(t.kids[i]) == parts[i] {
      assert KidIs(t.kids[i], parts[i], ks[i], v, s, tables, constraints);
    }
    TablesCover(ends, s, v, p, parts, ks, t);
  }

  /** Node v over the subtrees at all its edges. */
  lemma KidsMakeTree(tables: seq<LoadedTable>, constraints: seq<Constraint>, s: set<int>, v: nat, p: int, kids: seq<RTree>, parts: seq<set<int>>, t: RTree)
    requires DistinctNames(tables) && Joins(tables, constraints) && v < |tables| && Part(EndsOf(tables, constraints), s, v, p)
    requires KidsGrown(kids, parts, |EdgesOutside(tables, constraints, v, {p}, |constraints|)|, v, p, s, tables, constraints)
    requires t.table == v && t.kids == kids
    ensures Grown(t, v, p, s, tables, constraints)
  {
    var ks := EdgeIndices(tables, constraints, v, {p}, |constraints|);
    IndicesAscend(tables, constraints, v, {p}, |constraints|);
    forall i | 0 <= i < |ks| ensures KidIs(kids[i], parts[i], ks[i], v, s, tables, constraints) {
      KidFacts(tables, constraints, s, v, p, kids, parts, |ks|, i);
    }
    KidsUnroll(tables, constraints, s, v, p, kids, parts, t);
    KidsApartBy(EndsOf(tables, constraints), tables, constraints, s, v, kids, parts, ks, t);
    KidsCover(tables, constraints, s, v, p, parts, ks, t);
  }

  lemma DownIsListed(tables: seq<LoadedTable>, constraints: seq<Constraint>, v: nat, p: int, k: nat)
    requires DistinctNames(tables) && Joins(tables, constraints) && v < |tables| && LeadsDown(EndsOf(tables, constraints), v, p, k)
    ensures k in EdgeIndices(tables, constraints, v, {p}, |constraints|)
  {
    EdgeByEnds(tables, constraints, k, v);
    IndicesAll(tables, constraints, v, {p}, |constraints|, k, EdgeOf(tables, constraints[k], v).value);
  }

  lemma TablesCover(ends: seq<(int, int)>, s: set<int>, v: nat, p: int, parts: seq<set<int>>, ks: seq<nat>, t: RTree)
    requires AllParts(ends, s, v, p, parts, ks) && t.table == v && |t.kids| == |parts|
    requires forall i :: 0 <= i < |t.kids| ==> Tables(t.kids[i]) == parts[i]
    ensures Tables(t) == s
  {
    forall x ensures x in TablesOf(t.kids) <==> InPart(parts, x) {
      TablesOfMembers(t.kids, x);
      if InPart(parts, x) {
        var i :| 0 <= i < |parts| && x in parts[i];
        assert x in Tables(t.kids[i]);
      }
    }
    forall x | x in s && x != v ensures x in TablesOf(t.kids) {
      PartsCover(ends, s, v, p, parts, ks, x);
    }
    forall x | x in TablesOf(t.kids) ensures x in s {
      var i :| 0 <= i < |parts| && x in parts[i];
      assert Hangs(ends, s, v, parts[i], ks[i]);
    }
  }

  // ---- Queries ----

  /** Every table has few enough neighbours for exact factorials. */
  ghost predicate FewNeighbours(tables: seq<LoadedTable>, constraints: seq<Constraint>) {
    forall v: nat :: v < |tables| ==> |EdgesOutside(tables, constraints, v, {-1}, |constraints|)| <= 15
  }

  lemma {:induction false} FewerOutside(tables: seq<LoadedTable>, constraints: seq<Constraint>, v: nat, p: int, n: nat)
    requires v < |tables| && n <= |constraints|
    ensures |EdgesOutside(tables, constraints, v, {p}, n)| <= |EdgesOutside(tables, constraints, v, {-1}, n)|
  {
    if n > 0 {
      FewerOutside(tables, constraints, v, p, n - 1);
    }
  }

  lemma {:induction false} FewKidsOf(t: RTree, p: int, tables: seq<LoadedTable>, constraints: seq<Constraint>)
    requires Unrolls(t, p, tables, constraints) && FewNeighbours(tables, constraints)
    ensures FewKids(t)
  {
    FewerOutside(tables, constraints, t.table, p, |constraints|);
    forall i | 0 <= i < |t.kids| ensures FewKids(t.kids[i]) {
      FewKidsOf(t.kids[i], t.table, tables, constraints);
    }
  }

  /** A query over distinct loaded tables whose constraints form a spanning tree of them. */
  ghost predicate TreeQuery(names: seq<string>, tables: seq<LoadedTable>, constraints: seq<Constraint>) {
    && names != [] && DistinctFrom(names) && NamedTables(tables) && AllLoaded(names, tables)
    && InFrom(names, constraints) && Joins(tables, constraints) && FewNeighbours(tables, constraints)
    && |constraints| == |names| - 1 && Joined(EndsOf(tables, constraints), FromTables(names, tables))
  }

  lemma {:induction false} FromSize(names: seq<string>, tables: seq<LoadedTable>)
    requires DistinctFrom(names) && AllLoaded(names, tables)
    ensures |FromTables(names, tables)| == |names|
  {
    if names != [] {
      var front, last := names[..|names| - 1], TableIndex(tables, names[|names| - 1], 0);
      FromSize(front, tables);
      LastIsNew(names, tables);
      assert FromTables(names, tables) == FromTables(front, tables) + {last};
    }
  }

  lemma LastIsNew(names: seq<string>, tables: seq<LoadedTable>)
    requires DistinctFrom(names) && AllLoaded(names, tables) && names != []
    ensures var front, last := names[..|names| - 1], TableIndex(tables, names[|names| - 1], 0);
      last !in FromTables(front, tables) && FromTables(names, tables) == FromTables(front, tables) + {last}
  {
    var front, m := names[..|names| - 1], |names| - 1;
    forall i | 0 <= i < m ensures TableIndex(tables, front[i], 0) != TableIndex(tables, names[m], 0) {
      assert tables[TableIndex(tables, names[i], 0)].name == names[i];
      assert tables[TableIndex(tables, names[m], 0)].name == names[m];
    }
    forall x ensures x in FromTables(names, tables) <==> x in FromTables(front, tables) + {TableIndex(tables, names[m], 0)} {
      if x in FromTables(front, tables) {
        var i :| 0 <= i < |front| && TableIndex(tables, front[i], 0) == x;
        assert names[i] == front[i];
      }
      assert names[m] == names[|front|];
    }
  }

  /** t is the graph unrolled from the named table, over all FROM tables. */
  ghost predicate Spans(t: RTree, name: string, names: seq<string>, tables: seq<LoadedTable>, constraints: seq<Constraint>) {
    Rooted(t, name, tables, constraints) && Tables(t) == FromTables(names, tables)
  }

  /** Such a query unrolls into a tree over all its tables from every root. */
  lemma TreesExist(names: seq<string>, tables: seq<LoadedTable>, constraints: seq<Constraint>) returns (trees: seq<RTree>)
    requires TreeQuery(names, tables, constraints)
    ensures Acyclic(trees, names, tables, constraints)
    ensures forall i :: 0 <= i < |trees| ==> Tables(trees[i]) == FromTables(names, tables) && |Tables(trees[i])| == |names|
  {
    FromSize(names, tables);
    trees := FirstTrees(names, tables, constraints, |names|);
    forall i | 0 <= i < |names| ensures Rooted(trees[i], names[i], tables, constraints) && Tables(trees[i]) == FromTables(names, tables) {
      assert Spans(trees[i], names[i], names, tables, constraints);
    }
  }

  /**
   * For such a query the variant numbers and the orderings of its tables correspond one to one exactly if the number of
   * orderings below every root survives the casts.
   */
  lemma QueryVariantsExactly(names: seq<string>, tables: seq<LoadedTable>, constraints: seq<Constraint>) returns (trees: seq<RTree>)
    requires TreeQuery(names, tables, constraints)
    ensures Acyclic(trees, names, tables, constraints)
    ensures OneNumberEach(trees, SeenCounts(trees)) && AllNumbered(trees, SeenCounts(trees))
      <==> forall k :: 0 <= k < |trees| ==> CountFits(Variants(trees[k]))
  {
    trees := TreesExist(names, tables, constraints);
    RootsApart(trees, names, tables, constraints);
    VariantsCorrespondExactly(trees);
  }

  ghost predicate AllSpan(trees: seq<RTree>, names: seq<string>, tables: seq<LoadedTable>, constraints: seq<Constraint>) {
    |trees| <= |names| && forall i :: 0 <= i < |trees| ==> Spans(trees[i], names[i], names, tables, constraints)
  }

  lemma OneMoreSpans(front: seq<RTree>, t: RTree, names: seq<string>, tables: seq<LoadedTable>, constraints: seq<Constraint>)
    requires AllSpan(front, names, tables, constraints) && |front| < |names| && Spans(t, names[|front|], names, tables, constraints)
    ensures AllSpan(front + [t], names, tables, constraints)
  {
  }

  lemma {:induction false} FirstTrees(names: seq<string>, tables: seq<LoadedTable>, constraints: seq<Constraint>, n: nat) returns (trees: seq<RTree>)
    requires TreeQuery(names, tables, constraints) && n <= |names| && |FromTables(names, tables)| == |names|
    ensures |trees| == n && AllSpan(trees, names, tables, constraints)
    decreases n
  {
    if n == 0 {
      trees := [];
    } else {
      var front := FirstTrees(names, tables, constraints, n - 1);
      var t := TreeFrom(names, tables, constraints, n - 1);
      trees := front + [t];
      OneMoreSpans(front, t, names, tables, constraints);
    }
  }

  lemma TreeFrom(names: seq<string>, tables: seq<LoadedTable>, constraints: seq<Constraint>, i: nat) returns (t: RTree)
    requires TreeQuery(names, tables, constraints) && i < |names| && |FromTables(names, tables)| == |names|
    ensures Spans(t, names[i], names, tables, constraints)
  {
    var v, ts := TableIndex(tables, names[i], 0), FromTables(names, tables);
    assert v in ts;
    forall k | 0 <= k < |constraints| ensures LeavesAt(EndsOf(tables, constraints)[k], ts, v, -1) {
      ConstraintInside(names, tables, constraints, k);
    }
    t := GrowTree(tables, constraints, ts, ts, v, -1, NoLink());
    FewKidsOf(t, -1, tables, constraints);
  }

  ghost function NoLink(): Constraint {
    Constraint(Column("", ""), Column("", ""), 0, Records.Equality.None, 0, Records.Equality.None)
  }

  lemma ConstraintInside(names: seq<string>, tables: seq<LoadedTable>, constraints: seq<Constraint>, k: nat)
    requires InFrom(names, constraints) && k < |constraints|
    ensures var e := EndsOf(tables, constraints)[k]; e.0 in FromTables(names, tables) && e.1 in FromTables(names, tables)
  {
    assert constraints[k].source.table in names && constraints[k].target.table in names;
    var i :| 0 <= i < |names| && names[i] == constraints[k].source.table;
    var j :| 0 <= j < |names| && names[j] == constraints[k].target.table;
    assert TableIndex(tables, names[i], 0) in FromTables(names, tables);
    assert TableIndex(tables, names[j], 0) in FromTables(names, tables);
  }

  // ---- Serialising a tree query ----

  /** All that a serialised query promises: it joins its FROM tables, once each, by its constraints. */
  ghost predicate ArrayForQuery(ds: seq<NodeDesc>, names: seq<string>, tables: seq<LoadedTable>, constraints: seq<Constraint>) {
    && |ds| == |names| && TreeOk(AsTree(ds))
    && (forall x :: x in FromTables(names, tables) <==> exists i :: 0 <= i < |ds| && ds[i].tableIdx == x)
    && (forall val: Column -> int :: BandsHold(ds, tables, val) <==> Satisfied(constraints, val))
  }

  /**
   * serialize_join_tree for a query whose constraints form a spanning tree: it fails exactly for a variant number that is
   * too large and for a column that its table does not list.
   */
  method SerializeQuery(names: seq<string>, tables: seq<LoadedTable>, constraints: seq<Constraint>, variant: nat)
    returns (o: Outcome, ghost trees: seq<RTree>, ghost u: RTree)
    requires TreeQuery(names, tables, constraints) && ValidBands(constraints)
    ensures Acyclic(trees, names, tables, constraints) && Answers(o, names, tables, constraints, trees, variant, u)
    ensures o.OutOfRange? <==> variant >= AllNumbers(SeenCounts(trees))
    ensures o.ColumnNotFound? <==> variant < AllNumbers(SeenCounts(trees)) && !AllColumnsListed(tables, constraints)
    ensures o.Serialized? <==> variant < AllNumbers(SeenCounts(trees)) && AllColumnsListed(tables, constraints)
    ensures o.Serialized? ==> ArrayForQuery(o.nodes, names, tables, constraints)
  {
    trees := TreesExist(names, tables, constraints);
    o, u := SerializeJoinTree(names, tables, constraints, variant, trees);
    NeverDisconnected(o, names, tables, constraints, trees, variant, u);
    if o.Serialized? {
      Promised(o.nodes, names, tables, constraints, trees, variant, u);
    }
  }

  /** Columns are found for the selected tree exactly if they are listed for every constraint. */
  lemma SelectedColumns(names: seq<string>, tables: seq<LoadedTable>, constraints: seq<Constraint>, trees: seq<RTree>, variant: nat, u: RTree)
    requires TreeQuery(names, tables, constraints) && Acyclic(trees, names, tables, constraints) && IsVariant(names, tables, trees, variant, u)
    requires forall i :: 0 <= i < |trees| ==> Tables(trees[i]) == FromTables(names, tables)
    ensures ColumnsFound(u, tables) <==> AllColumnsListed(tables, constraints)
    ensures Tables(u) == FromTables(names, tables) && variant < AllNumbers(SeenCounts(trees))
  {
    var k: nat, r: nat :| PickedAt(trees, SeenCounts(trees), variant, u, k, r);
    NumberBelow(SeenCounts(trees), k, r, variant);
    assert Rooted(trees[k], names[k], tables, constraints);
    DecodeReorders(trees[k], r);
    ReorderedColumns(trees[k], u, tables);
    ReorderedTables(trees[k], u);
    FromSpans(names, trees[k], tables, constraints);
    forall x | x in Tables(trees[k]) ensures x >= 0 {
      TablesLoadedIn(trees[k], -1, tables, constraints, x);
    }
    TreeColumnsExactly(trees[k], tables, constraints);
  }

  lemma NeverDisconnected(o: Outcome, names: seq<string>, tables: seq<LoadedTable>, constraints: seq<Constraint>, trees: seq<RTree>, variant: nat, u: RTree)
    requires TreeQuery(names, tables, constraints) && Acyclic(trees, names, tables, constraints) && Answers(o, names, tables, constraints, trees, variant, u)
    requires forall i :: 0 <= i < |trees| ==> Tables(trees[i]) == FromTables(names, tables)
    ensures o.OutOfRange? <==> variant >= AllNumbers(SeenCounts(trees))
    ensures o.ColumnNotFound? <==> variant < AllNumbers(SeenCounts(trees)) && !AllColumnsListed(tables, constraints)
    ensures o.Serialized? <==> variant < AllNumbers(SeenCounts(trees)) && AllColumnsListed(tables, constraints)
  {
    FromSize(names, tables);
    if IsVariant(names, tables, trees, variant, u) {
      SelectedColumns(names, tables, constraints, trees, variant, u);
    }
  }

  lemma Promised(ds: seq<NodeDesc>, names: seq<string>, tables: seq<LoadedTable>, constraints: seq<Constraint>, trees: seq<RTree>, variant: nat, u: RTree)
    requires TreeQuery(names, tables, constraints) && ValidBands(constraints) && Acyclic(trees, names, tables, constraints)
    requires Answers(Serialized(ds), names, tables, constraints, trees, variant, u)
    ensures ArrayForQuery(ds, names, tables, constraints)
  {
    EveryTableOnce(names, tables, constraints, trees, variant, ds, u);
    forall val: Column -> int ensures BandsHold(ds, tables, val) <==> Satisfied(constraints, val) {
      ArrayIsConjunction(names, tables, constraints, trees, variant, ds, u, val);
    }
  }
}
