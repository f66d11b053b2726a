/** Which tree a variant number selects: 0 the tree in constraint order, and larger ones later orderings. */
module VariantOrder {
  import opened Permutations
  import opened Conditions
  import opened HostLayout
  import opened TreeVariants
  import opened JoinGraph
  import opened PostorderWalk
  import opened VariantShape
  import opened SerializedTree
  import opened Serializer
  import opened UnrolledTrees

  // ---- Index 0 ----

  lemma {:induction false} UnrankZero<T>(pool: seq<T>)
    ensures 0 < Factorial(|pool|) && Unrank(pool, 0) == pool
    decreases |pool|
  {
    if pool != [] {
      UnrankStep(pool, 0, Factorial(|pool| - 1));
      SmallDigit(0, Factorial(|pool| - 1));
      UnrankZero(pool[1..]);
      assert Removed(pool, 0) == pool[1..];
    }
  }

  /** The children named by order, as they are. */
  ghost function KidsBy(t: RTree, order: seq<nat>): (us: seq<RTree>)
    requires Names(t, order)
    ensures |us| == |order| && forall j :: 0 <= j < |us| ==> us[j] == t.kids[order[j]]
  {
    seq(|order|, j requires 0 <= j < |order| => t.kids[order[j]])
  }

  /** Index 0 keeps every node's children in constraint order. */
  lemma {:induction false} DecodeZero(t: RTree)
    ensures Decode(t, 0) == (t, 0)
    decreases t, |t.kids| + 1
  {
    UnrankZero(UpTo(|t.kids|));
    DecodeIs(t, 0, 0, 0);
    DecodeKidsZero(t, UpTo(|t.kids|));
    assert KidsBy(t, UpTo(|t.kids|)) == t.kids;
  }

  lemma {:induction false} DecodeKidsZero(t: RTree, order: seq<nat>)
    requires Names(t, order)
    ensures DecodeKids(t, order, 0) == (KidsBy(t, order), 0)
    decreases t, |order|
  {
    if order != [] {
      DecodeZero(t.kids[order[0]]);
      DecodeKidsZero(t, order[1..]);
      assert KidsBy(t, order) == [t.kids[order[0]]] + KidsBy(t, order[1..]);
    }
  }

  /** The first k! indices permute the root's k children, in lexicographic order, and leave everything below as it is. */
  lemma FirstDigit(t: RTree, d: nat)
    requires d < Factorial(|t.kids|)
    ensures Decode(t, d) == (RNode(t.table, t.link, KidsBy(t, OrderOf(|t.kids|, d))), 0)
  {
    DecodeIs(t, d, d, 0);
    DecodeKidsZero(t, OrderOf(|t.kids|, d));
  }

  // ---- Numbers in order ----

  /** Root k is the first one that has a number. */
  ghost predicate FirstCounted(counts: seq<nat>, k: nat) {
    k < |counts| && counts[k] > 0 && forall j :: 0 <= j < k ==> counts[j] == 0
  }

  lemma {:induction false} NothingBefore(counts: seq<nat>, k: nat)
    requires k <= |counts| && forall j :: 0 <= j < k ==> counts[j] == 0
    ensures Before(counts, k) == 0
  {
    if k > 0 {
      NothingBefore(counts, k - 1);
    }
  }

  /** Variant 0 is the tree of the first root with a number, in constraint order. */
  lemma VariantZero(trees: seq<RTree>, counts: seq<nat>, k: nat, u: RTree)
    requires |counts| == |trees| && FirstCounted(counts, k)
    ensures Picked(trees, counts, 0, u) <==> u == trees[k]
  {
    NothingBefore(counts, k);
    DecodeZero(trees[k]);
    assert PickedAt(trees, counts, 0, trees[k], k, 0);
    if Picked(trees, counts, 0, u) {
      var j: nat, r: nat :| PickedAt(trees, counts, 0, u, j, r);
      NumberUnique(counts, j, r, k, 0, 0);
    }
  }

  /** That is the first FROM table exactly if its number of orderings does not vanish in the casts. */
  lemma HistoricalVariant(trees: seq<RTree>)
    requires trees != [] && RootsDiffer(trees)
    ensures Picked(trees, SeenCounts(trees), 0, trees[0]) <==> AsCompared(Variants(trees[0])) > 0
    ensures AsCompared(Variants(trees[0])) > 0 ==> forall u :: Picked(trees, SeenCounts(trees), 0, u) ==> u == trees[0]
  {
    if AsCompared(Variants(trees[0])) > 0 {
      forall u ensures Picked(trees, SeenCounts(trees), 0, u) <==> u == trees[0] {
        VariantZero(trees, SeenCounts(trees), 0, u);
      }
    } else if Picked(trees, SeenCounts(trees), 0, trees[0]) {
      var r := RootOfSelected(trees, SeenCounts(trees), 0, trees[0], 0);
      assert false;
    }
  }

  /** A larger number selects a later root, or below the same root the ordering with the larger index. */
  lemma NumbersAscend(trees: seq<RTree>, counts: seq<nat>, s: nat, u: RTree, k: nat, r: nat, t: nat, w: RTree, m: nat, q: nat)
    requires |counts| == |trees| && PickedAt(trees, counts, s, u, k, r) && PickedAt(trees, counts, t, w, m, q)
    ensures s < t <==> k < m || (k == m && r < q)
  {
    if k < m {
      BeforeGrows(counts, k + 1, m);
    } else if m < k {
      BeforeGrows(counts, m + 1, k);
    }
  }

  /** The next number selects the next ordering of the same root, as long as there is one. */
  lemma NextNumber(trees: seq<RTree>, counts: seq<nat>, s: nat, k: nat, r: nat)
    requires |counts| == |trees| && IsNumber(counts, k, r, s) && r + 1 < counts[k]
    ensures Picked(trees, counts, s + 1, Decode(trees[k], r + 1).0)
  {
    assert PickedAt(trees, counts, s + 1, Decode(trees[k], r + 1).0, k, r + 1);
  }

  // ---- The order of the records ----

  /** The node w stands in the tree u. */
  ghost predicate Within(w: RTree, u: RTree) {
    w == u || exists i :: 0 <= i < |u.kids| && Within(w, u.kids[i])
  }

  /** The tables of the children of w come child after child, and then w's own. */
  ghost predicate KidsThenNode(ns: seq<NodeInfo>, w: RTree) {
    forall a, b :: Ordered(ns, w, a, b) ==> a < b
  }

  /** x is below an earlier child of w than y, or below w and y is w. */
  ghost predicate Earlier(w: RTree, x: int, y: int) {
    || (exists i, j :: 0 <= i < j < |w.kids| && x in Tables(w.kids[i]) && y in Tables(w.kids[j]))
    || (x in TablesOf(w.kids) && y == w.table)
  }

  lemma {:induction false} KidsPostConcat(v: nat, us: seq<RTree>, ws: seq<RTree>, tables: seq<LoadedTable>)
    ensures KidsPost(v, us + ws, tables) == KidsPost(v, us, tables) + KidsPost(v, ws, tables)
    decreases |us|
  {
    if us == [] {
      assert us + ws == ws;
    } else {
      KidsPostConcat(v, us[1..], ws, tables);
      assert (us + ws)[1..] == us[1..] + ws && (us + ws)[0] == us[0];
    }
  }

  lemma {:induction false} KidsPostTables(v: nat, us: seq<RTree>, tables: seq<LoadedTable>, a: nat)
    requires a < |KidsPost(v, us, tables)|
    ensures KidsPost(v, us, tables)[a].tableIdx in TablesOf(us)
    decreases us, 0
  {
    var first := PostOrder(us[0], KidInfo(tables, v, us[0].table, us[0].link), tables);
    if a < |first| {
      PostOrderTables(us[0], KidInfo(tables, v, us[0].table, us[0].link), tables, a);
    } else {
      KidsPostTables(v, us[1..], tables, a - |first|);
    }
  }

  lemma {:induction false} PostOrderTables(u: RTree, self: NodeInfo, tables: seq<LoadedTable>, a: nat)
    requires a < |PostOrder(u, self, tables)| && self.tableIdx == u.table
    ensures PostOrder(u, self, tables)[a].tableIdx in Tables(u)
    decreases u, 1
  {
    PostOrderOf(u, self, tables);
    if a < |KidsPost(u.table, u.kids, tables)| {
      KidsPostTables(u.table, u.kids, tables, a);
    }
  }

  ghost predicate KidsDisjoint(us: seq<RTree>) {
    forall i, j :: 0 <= i < j < |us| ==> Tables(us[i]) !! Tables(us[j])
  }

  /** A table of child i is not among those of children on the other side of a cut. */
  lemma CutApart(us: seq<RTree>, k: nat, i: nat, x: int)
    requires KidsDisjoint(us) && k <= |us| && i < |us| && x in Tables(us[i])
    ensures i < k ==> x !in TablesOf(us[k..])
    ensures k <= i ==> x !in TablesOf(us[..k])
  {
    TablesOfMembers(us[k..], x);
    TablesOfMembers(us[..k], x);
    if InSome(us[k..], x) {
      var m :| 0 <= m < |us[k..]| && x in Tables(us[k..][m]);
      assert us[k..][m] == us[k + m];
    }
    if InSome(us[..k], x) {
      var m :| 0 <= m < |us[..k]| && x in Tables(us[..k][m]);
      assert us[..k][m] == us[m];
    }
  }

  /** Where the records of a child are: before the cut at k exactly for the children before k. */
  lemma CutPosition(v: nat, us: seq<RTree>, tables: seq<LoadedTable>, k: nat, i: nat, a: nat)
    requires KidsDisjoint(us) && k <= |us| && i < |us| && a < |KidsPost(v, us, tables)| && KidsPost(v, us, tables)[a].tableIdx in Tables(us[i])
    ensures a < |KidsPost(v, us[..k], tables)| <==> i < k
  {
    var front, back := KidsPost(v, us[..k], tables), KidsPost(v, us[k..], tables);
    assert us == us[..k] + us[k..];
    KidsPostConcat(v, us[..k], us[k..], tables);
    CutApart(us, k, i, KidsPost(v, us, tables)[a].tableIdx);
    if a < |front| {
      KidsPostTables(v, us[..k], tables, a);
    } else {
      KidsPostTables(v, us[k..], tables, a - |front|);
    }
  }

  /** The records of child k: after those of the children before it. */
  lemma KidsPostSplit(v: nat, us: seq<RTree>, tables: seq<LoadedTable>, k: nat)
    requires k < |us|
    ensures KidsPost(v, us[..k + 1], tables) == KidsPost(v, us[..k], tables) + KidAlone(v, us[k], tables)
    ensures KidsPost(v, us, tables) == KidsPost(v, us[..k + 1], tables) + KidsPost(v, us[k + 1..], tables)
  {
    assert us[..k + 1] == us[..k] + [us[k]] && us == us[..k + 1] + us[k + 1..];
    KidsPostSnoc(v, us[..k], us[k], tables);
    KidsPostConcat(v, us[..k + 1], us[k + 1..], tables);
  }

  /** The records of a child below v. */
  ghost function KidAlone(v: nat, kid: RTree, tables: seq<LoadedTable>): seq<NodeInfo> {
    PostOrder(kid, KidInfo(tables, v, kid.table, kid.link), tables)
  }

  /** A record of child k, within those of all children. */
  lemma KidRecords(v: nat, us: seq<RTree>, tables: seq<LoadedTable>, k: nat, a: nat)
    requires KidsDisjoint(us) && k < |us| && a < |KidsPost(v, us, tables)| && KidsPost(v, us, tables)[a].tableIdx in Tables(us[k])
    ensures IsKidRecord(KidsPost(v, us, tables), KidAlone(v, us[k], tables), |KidsPost(v, us[..k], tables)|, a)
  {
    CutPosition(v, us, tables, k, k, a);
    CutPosition(v, us, tables, k + 1, k, a);
    KidsPostSplit(v, us, tables, k);
  }

  /** Position a of ns is a position of p, which starts at the given one. */
  ghost predicate IsKidRecord(ns: seq<NodeInfo>, p: seq<NodeInfo>, start: nat, a: nat) {
    start <= a < |ns| && a - start < |p| && ns[a] == p[a - start]
  }

  lemma {:induction false} WithinTables(w: RTree, u: RTree)
    requires Within(w, u)
    ensures Tables(w) <= Tables(u)
    decreases u
  {
    if w != u {
      var i :| 0 <= i < |u.kids| && Within(w, u.kids[i]);
      WithinTables(w, u.kids[i]);
      KidTablesInside(u, i);
    }
  }

  lemma EarlierInside(w: RTree, x: int, y: int)
    requires Earlier(w, x, y)
    ensures x in Tables(w) && y in Tables(w)
  {
    if i, j :| 0 <= i < j < |w.kids| && x in Tables(w.kids[i]) && y in Tables(w.kids[j]) {
      KidTablesInside(w, i);
      KidTablesInside(w, j);
    }
  }

  lemma BothInside(w: RTree, kid: RTree, x: int, y: int)
    requires Earlier(w, x, y) && Within(w, kid)
    ensures x in Tables(kid) && y in Tables(kid)
  {
    EarlierInside(w, x, y);
    WithinTables(w, kid);
  }

  /** The records of a node itself, after those of its children, these one after the other. */
  lemma OwnOrder(u: RTree, self: NodeInfo, tables: seq<LoadedTable>, a: nat, b: nat)
    requires OnceEachTable(u) && self.tableIdx == u.table
    requires a < |PostOrder(u, self, tables)| && b < |PostOrder(u, self, tables)|
    requires Earlier(u, PostOrder(u, self, tables)[a].tableIdx, PostOrder(u, self, tables)[b].tableIdx)
    ensures a < b
  {
    var ns, below := PostOrder(u, self, tables), KidsPost(u.table, u.kids, tables);
    PostOrderOf(u, self, tables);
    RootBelowNone(u);
    if i, j :| 0 <= i < j < |u.kids| && ns[a].tableIdx in Tables(u.kids[i]) && ns[b].tableIdx in Tables(u.kids[j]) {
      KidTableBelow(u, i, ns[a].tableIdx);
      KidTableBelow(u, j, ns[b].tableIdx);
      CutPosition(u.table, u.kids, tables, j, i, a);
      CutPosition(u.table, u.kids, tables, j, j, b);
    } else if b < |below| {
      KidsPostTables(u.table, u.kids, tables, b);
      assert false;
    }
  }

  lemma KidTableBelow(u: RTree, i: nat, x: int)
    requires i < |u.kids| && x in Tables(u.kids[i])
    ensures x in TablesOf(u.kids)
  {
    TablesOfMembers(u.kids, x);
  }

  lemma RootBelowNone(u: RTree)
    requires OnceEachTable(u)
    ensures u.table !in TablesOf(u.kids) && KidsDisjoint(u.kids)
  {
    TablesOfMembers(u.kids, u.table);
  }

  /** A record of the tree with a table of child k is a record of that child. */
  lemma InKid(u: RTree, self: NodeInfo, tables: seq<LoadedTable>, k: nat, a: nat)
    requires OnceEachTable(u) && self.tableIdx == u.table && k < |u.kids|
    requires a < |PostOrder(u, self, tables)| && PostOrder(u, self, tables)[a].tableIdx in Tables(u.kids[k])
    ensures IsKidRecord(PostOrder(u, self, tables), KidAlone(u.table, u.kids[k], tables), |KidsPost(u.table, u.kids[..k], tables)|, a)
  {
    KidTableBelow(u, k, PostOrder(u, self, tables)[a].tableIdx);
    PostOrderOf(u, self, tables);
    RootBelowNone(u);
    KidRecords(u.table, u.kids, tables, k, a);
  }

  /** Records a and b of ns have to be in this order because of the node w. */
  ghost predicate Ordered(ns: seq<NodeInfo>, w: RTree, a: int, b: int) {
    0 <= a < |ns| && 0 <= b < |ns| && Earlier(w, ns[a].tableIdx, ns[b].tableIdx)
  }

  lemma DownToKid(u: RTree, self: NodeInfo, tables: seq<LoadedTable>, w: RTree, k: nat, a: nat, b: nat)
    requires OnceEachTable(u) && self.tableIdx == u.table && k < |u.kids| && Within(w, u.kids[k])
    requires Ordered(PostOrder(u, self, tables), w, a, b)
    ensures var start := |KidsPost(u.table, u.kids[..k], tables)|; Ordered(KidAlone(u.table, u.kids[k], tables), w, a - start, b - start)
  {
    BothInside(w, u.kids[k], PostOrder(u, self, tables)[a].tableIdx, PostOrder(u, self, tables)[b].tableIdx);
    InKid(u, self, tables, k, a);
    InKid(u, self, tables, k, b);
  }

  lemma BranchTo(w: RTree, u: RTree) returns (k: nat)
    requires Within(w, u) && w != u
    ensures k < |u.kids| && Within(w, u.kids[k])
  {
    k :| 0 <= k < |u.kids| && Within(w, u.kids[k]);
  }

  lemma OrderFromKid(u: RTree, self: NodeInfo, tables: seq<LoadedTable>, w: RTree, k: nat)
    requires OnceEachTable(u) && self.tableIdx == u.table && k < |u.kids| && Within(w, u.kids[k])
    requires KidsThenNode(KidAlone(u.table, u.kids[k], tables), w)
    ensures KidsThenNode(PostOrder(u, self, tables), w)
  {
    forall a, b | Ordered(PostOrder(u, self, tables), w, a, b) ensures a < b {
      DownToKid(u, self, tables, w, k, a, b);
    }
  }

  /** At every node of a serialised tree the children's records come child after child, and then the node's. */
  lemma {:induction false} PostOrderOrdered(u: RTree, self: NodeInfo, tables: seq<LoadedTable>, w: RTree)
    requires OnceEachTable(u) && self.tableIdx == u.table && Within(w, u)
    ensures KidsThenNode(PostOrder(u, self, tables), w)
    decreases u
  {
    if w == u {
      forall a, b | Ordered(PostOrder(u, self, tables), u, a, b) ensures a < b {
        OwnOrder(u, self, tables, a, b);
      }
    } else {
      var k := BranchTo(w, u);
      PostOrderOrdered(u.kids[k], KidInfo(tables, u.table, u.kids[k].table, u.kids[k].link), tables, w);
      OrderFromKid(u, self, tables, w, k);
    }
  }

  // ---- Variant 0 ----

  /** The children of w in the order of the constraints that join them to it, ks. */
  ghost predicate ByConstraint(w: RTree, ks: seq<nat>, tables: seq<LoadedTable>, constraints: seq<Constraint>) {
    && w.table < |tables| && Ascending(ks) && |ks| == |w.kids|
    && forall i :: 0 <= i < |ks| ==> JoinsKid(w, i, ks[i], tables, constraints)
  }

  /** Constraint k joins child i to w. */
  ghost predicate JoinsKid(w: RTree, i: nat, k: nat, tables: seq<LoadedTable>, constraints: seq<Constraint>)
    requires w.table < |tables| && i < |w.kids|
  {
    k < |constraints| && EdgeOf(tables, constraints[k], w.table) == Some(ChildEdge(w.kids[i].table, w.kids[i].link))
  }

  /** In an unrolled tree the children of every node stand in constraint order. */
  lemma {:induction false} UnrolledInOrder(t: RTree, parent: int, tables: seq<LoadedTable>, constraints: seq<Constraint>, w: RTree) returns (ks: seq<nat>)
    requires Unrolls(t, parent, tables, constraints) && Within(w, t)
    ensures ByConstraint(w, ks, tables, constraints)
    decreases t
  {
    if w == t {
      ks := EdgeIndices(tables, constraints, t.table, {parent}, |constraints|);
      IndicesAscend(tables, constraints, t.table, {parent}, |constraints|);
      forall i | 0 <= i < |ks| ensures JoinsKid(t, i, ks[i], tables, constraints) {
        IndicesStandFor(tables, constraints, t.table, {parent}, |constraints|, i);
      }
    } else {
      var i := BranchTo(w, t);
      ks := UnrolledInOrder(t.kids[i], t.table, tables, constraints, w);
    }
  }

  ghost predicate InConstraintOrder(w: RTree, tables: seq<LoadedTable>, constraints: seq<Constraint>) {
    exists ks :: ByConstraint(w, ks, tables, constraints)
  }

  /** Variant 0 is the post-order below the first FROM table, the children of every table in constraint order, if that root's orderings are counted at all. */
  lemma VariantZeroArray(names: seq<string>, tables: seq<LoadedTable>, constraints: seq<Constraint>, trees: seq<RTree>, u: RTree)
    requires names != [] && Acyclic(trees, names, tables, constraints) && AsCompared(Variants(trees[0])) > 0
    requires IsVariant(names, tables, trees, 0, u)
    ensures u.table == TableIndex(tables, names[0], 0)
    ensures forall w :: Within(w, u) ==> InConstraintOrder(w, tables, constraints) && KidsThenNode(PostOrder(u, RootInfo(u.table), tables), w)
  {
    VariantZero(trees, SeenCounts(trees), 0, u);
    assert Rooted(trees[0], names[0], tables, constraints);
    forall w | Within(w, u)
      ensures InConstraintOrder(w, tables, constraints) && KidsThenNode(PostOrder(u, RootInfo(u.table), tables), w)
    {
      var ks := UnrolledInOrder(u, -1, tables, constraints, w);
      PostOrderOrdered(u, RootInfo(u.table), tables, w);
    }
  }
}
