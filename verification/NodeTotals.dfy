/** What every attach keeps: each row of an attached table occurs final_mult times among the weighted partial tuples. */
module NodeTotals {
  import opened Totals
  import opened Records
  import opened Combined
  import opened BottomUp
  import opened TopDown
  import opened JoinTree
  import opened JoinSpec
  import opened Weights

  /** The weight of the tuples that use row r of node a. */
  ghost function WeightAt(tree: seq<JoinNode>, db: seq<seq<Entry>>, a: nat, r: nat): Tuple -> int
    requires TreeOk(tree) && |db| == |tree|
  {
    (t: Tuple) => if a in t && t[a] == r then Weight(tree, db, t) else 0
  }

  /** The weighted tuples use every row of the given nodes final_mult times. */
  ghost predicate Balanced(tree: seq<JoinNode>, db: seq<seq<Entry>>, ts: seq<Tuple>, nodes: set<nat>)
    requires TreeOk(tree) && |db| == |tree|
  {
    forall a: nat, r: nat {:trigger WeightAt(tree, db, a, r)} ::
      a in nodes && a < |db| && r < |db[a]| ==> Total(ts, WeightAt(tree, db, a, r)) == db[a][r].finalMult
  }

  /** The state between two attaches: the partial tuples over the attached nodes, in balance. */
  ghost predicate Stage(tree: seq<JoinNode>, db: seq<seq<Entry>>, ts: seq<Tuple>, nodes: set<nat>) {
    && Counted(tree, db)
    && Lists(ts, tree, Data(db), nodes)
    && (forall k :: k in nodes ==> k < |tree|)
    && Balanced(tree, db, ts, nodes)
  }

  lemma ListedTuple(tree: seq<JoinNode>, db: seq<seq<Entry>>, ts: seq<Tuple>, nodes: set<nat>, c: nat, i: nat)
    requires TreeOk(tree) && |db| == |tree| && Lists(ts, tree, Data(db), nodes) && Attaches(tree, nodes, c) && i < |ts|
    ensures ts[i].Keys == nodes && OnFrontier(tree, ts[i], c) && ChildrenFree(tree, ts[i], c)
    ensures ts[i][Parent(tree, c)] < |db[Parent(tree, c)]|
    ensures forall a :: a in nodes ==> a < |db| && ts[i][a] < |db[a]|
  {
    assert ts[i] in ts;
    assert Picks(Data(db), nodes, ts[i]);
  }

  lemma StageTuple(tree: seq<JoinNode>, db: seq<seq<Entry>>, ts: seq<Tuple>, nodes: set<nat>, c: nat, i: nat)
    requires Stage(tree, db, ts, nodes) && Attaches(tree, nodes, c) && i < |ts|
    ensures ts[i].Keys == nodes && OnFrontier(tree, ts[i], c) && ChildrenFree(tree, ts[i], c)
    ensures ts[i][Parent(tree, c)] < |db[Parent(tree, c)]|
    ensures forall a :: a in nodes ==> ts[i][a] < |db[a]|
  {
    ListedTuple(tree, db, ts, nodes, c, i);
  }

  /** A sum that singles out one row. */
  lemma {:induction false} OneRow(t: seq<Entry>, n: nat, r: nat, f: Entry -> int)
    requires Indexed(t) && n <= |t|
    requires forall i :: 0 <= i < n && i != r ==> f(t[i]) == 0
    ensures Total(t[..n], f) == if r < n then f(t[r]) else 0
  {
    if n > 0 {
      OneRow(t, n - 1, r, f);
      assert t[..n] == t[..n - 1] + [t[n - 1]];
      TotalSnoc(t[..n - 1], t[n - 1], f);
    }
  }

  // ---- Shares count groups ----

  ghost function GroupsAt(tree: seq<JoinNode>, db: seq<seq<Entry>>, c: nat, r: nat): Tuple -> int
    requires TreeOk(tree) && IsEdge(tree, c) && |db| == |tree|
  {
    (t: Tuple) => if Parent(tree, c) in t && t[Parent(tree, c)] == r then Groups(tree, db, t, c) else 0
  }

  lemma AtLeastFactor(s: int, d: int)
    requires s > 0
    ensures d >= 1 ==> s * d >= s
    ensures d <= -1 ==> s * d <= -s
  {
  }

  lemma ExactQuotient(s: int, x: int)
    requires s > 0
    ensures (s * x) / s == x
  {
    var q, r := (s * x) / s, (s * x) % s;
    assert s * x == s * q + r;
    assert s * (x - q) == r;
    AtLeastFactor(s, x - q);
  }

  lemma OfferedByRow(tree: seq<JoinNode>, db: seq<seq<Entry>>, t: Tuple, c: nat)
    requires TreeOk(tree) && IsEdge(tree, c) && |db| == |tree|
    requires Parent(tree, c) in t && t[Parent(tree, c)] < |db[Parent(tree, c)]|
    ensures Offered(tree, db, t, c) == Attr(db[Parent(tree, c)][t[Parent(tree, c)]].attributes, tree[c].parentJoinCol)
  {
  }

  /** S_c at row r of the parent. */
  ghost function RowContinuations(tree: seq<JoinNode>, db: seq<seq<Entry>>, c: nat, r: nat): int
    requires TreeOk(tree) && IsEdge(tree, c) && |db| == |tree| && r < |db[Parent(tree, c)]|
  {
    MatchSum(tree[c], db[c], Attr(db[Parent(tree, c)][r].attributes, tree[c].parentJoinCol))
  }

  lemma TupleGroups(tree: seq<JoinNode>, db: seq<seq<Entry>>, t: Tuple, c: nat, r: nat)
    requires TreeOk(tree) && LocalOk(tree, db) && OnFrontier(tree, t, c) && ChildrenFree(tree, t, c)
    requires t[Parent(tree, c)] < |db[Parent(tree, c)]| && r < |db[Parent(tree, c)]|
    ensures WeightAt(tree, db, Parent(tree, c), r)(t) == RowContinuations(tree, db, c, r) * GroupsAt(tree, db, c, r)(t)
    ensures RowContinuations(tree, db, c, r) == 0 ==> GroupsAt(tree, db, c, r)(t) == 0
  {
    if t[Parent(tree, c)] == r {
      AttachGroups(tree, db, t, c);
      OfferedByRow(tree, db, t, c);
    }
  }

  lemma WeightsAreGroups(tree: seq<JoinNode>, db: seq<seq<Entry>>, ts: seq<Tuple>, nodes: set<nat>, c: nat, r: nat)
    requires Stage(tree, db, ts, nodes) && Attaches(tree, nodes, c) && r < |db[Parent(tree, c)]|
    ensures Total(ts, WeightAt(tree, db, Parent(tree, c), r)) == RowContinuations(tree, db, c, r) * Total(ts, GroupsAt(tree, db, c, r))
    ensures RowContinuations(tree, db, c, r) == 0 ==> Total(ts, GroupsAt(tree, db, c, r)) == 0
  {
    var p := Parent(tree, c);
    forall i | 0 <= i < |ts|
      ensures WeightAt(tree, db, p, r)(ts[i]) == RowContinuations(tree, db, c, r) * GroupsAt(tree, db, c, r)(ts[i])
      ensures RowContinuations(tree, db, c, r) == 0 ==> GroupsAt(tree, db, c, r)(ts[i]) == 0
    {
      StageTuple(tree, db, ts, nodes, c, i);
      TupleGroups(tree, db, ts[i], c, r);
    }
    TotalScale(ts, RowContinuations(tree, db, c, r), GroupsAt(tree, db, c, r), WeightAt(tree, db, p, r));
    if RowContinuations(tree, db, c, r) == 0 {
      TotalZero(ts, GroupsAt(tree, db, c, r));
    }
  }

  lemma ContinuationsNonNegative(tree: seq<JoinNode>, db: seq<seq<Entry>>, c: nat, r: nat)
    requires TreeOk(tree) && LocalOk(tree, db) && IsEdge(tree, c) && r < |db[Parent(tree, c)]|
    ensures 0 <= RowContinuations(tree, db, c, r)
  {
    LocalNonNegative(tree, db, |db|);
    MatchSumNonNegative(tree[c], db[c], Attr(db[Parent(tree, c)][r].attributes, tree[c].parentJoinCol));
  }

  /** A parent row's share is the number of groups of the tuples that use it: the division is exact. */
  lemma ShareIsGroups(tree: seq<JoinNode>, db: seq<seq<Entry>>, ts: seq<Tuple>, nodes: set<nat>, c: nat, r: nat)
    requires Stage(tree, db, ts, nodes) && Attaches(tree, nodes, c) && r < |db[Parent(tree, c)]|
    ensures Share(tree[c], db[c])(db[Parent(tree, c)][r]) == Total(ts, GroupsAt(tree, db, c, r))
    ensures db[Parent(tree, c)][r].finalMult == RowContinuations(tree, db, c, r) * Total(ts, GroupsAt(tree, db, c, r))
  {
    WeightsAreGroups(tree, db, ts, nodes, c, r);
    ContinuationsNonNegative(tree, db, c, r);
    BalancedAt(tree, db, ts, nodes, Parent(tree, c), r);
    ShareAt(tree, db, c, r);
    SafeQuotient(RowContinuations(tree, db, c, r), Total(ts, GroupsAt(tree, db, c, r)));
  }

  lemma BalancedAt(tree: seq<JoinNode>, db: seq<seq<Entry>>, ts: seq<Tuple>, nodes: set<nat>, a: nat, r: nat)
    requires Stage(tree, db, ts, nodes) && a in nodes && r < |db[a]|
    ensures Total(ts, WeightAt(tree, db, a, r)) == db[a][r].finalMult
  {
  }

  lemma ShareAt(tree: seq<JoinNode>, db: seq<seq<Entry>>, c: nat, r: nat)
    requires TreeOk(tree) && IsEdge(tree, c) && |db| == |tree| && r < |db[Parent(tree, c)]|
    ensures Share(tree[c], db[c])(db[Parent(tree, c)][r])
         == db[Parent(tree, c)][r].finalMult / Safe(RowContinuations(tree, db, c, r))
  {
  }

  lemma SafeQuotient(s: int, x: int)
    requires s >= 0 && (s == 0 ==> x == 0)
    ensures (s * x) / Safe(s) == x
  {
    if s > 0 {
      ExactQuotient(s, x);
    }
  }

  // ---- Groups by join attribute ----

  ghost function GroupsIf(tree: seq<JoinNode>, db: seq<seq<Entry>>, c: nat, p: int -> bool): Tuple -> int
    requires TreeOk(tree) && IsEdge(tree, c) && |db| == |tree|
  {
    (t: Tuple) => if p(Offered(tree, db, t, c)) then Groups(tree, db, t, c) else 0
  }

  ghost function ShareIf(n: JoinNode, child: seq<Entry>, p: int -> bool): Entry -> int {
    (e: Entry) => if p(Attr(e.attributes, n.parentJoinCol)) then Share(n, child)(e) else 0
  }

  /** The groups of t, credited to the parent row e if t uses it. */
  ghost function Credit(tree: seq<JoinNode>, db: seq<seq<Entry>>, c: nat, p: int -> bool, t: Tuple, e: Entry): int
    requires TreeOk(tree) && IsEdge(tree, c) && |db| == |tree|
  {
    if Parent(tree, c) in t && t[Parent(tree, c)] == e.originalIndex && p(Attr(e.attributes, tree[c].parentJoinCol))
    then Groups(tree, db, t, c) else 0
  }

  ghost function CreditRow(tree: seq<JoinNode>, db: seq<seq<Entry>>, c: nat, p: int -> bool): Tuple -> Entry -> int
    requires TreeOk(tree) && IsEdge(tree, c) && |db| == |tree|
  {
    (t: Tuple) => (e: Entry) => Credit(tree, db, c, p, t, e)
  }

  ghost function CreditColumn(tree: seq<JoinNode>, db: seq<seq<Entry>>, c: nat, p: int -> bool): Entry -> Tuple -> int
    requires TreeOk(tree) && IsEdge(tree, c) && |db| == |tree|
  {
    (e: Entry) => (t: Tuple) => Credit(tree, db, c, p, t, e)
  }

  lemma CreditAt(tree: seq<JoinNode>, db: seq<seq<Entry>>, c: nat, p: int -> bool, t: Tuple, r: nat)
    requires TreeOk(tree) && IsEdge(tree, c) && |db| == |tree| && Indexed(db[Parent(tree, c)])
    requires Parent(tree, c) in t && r < |db[Parent(tree, c)]|
    ensures Credit(tree, db, c, p, t, db[Parent(tree, c)][r])
         == if p(Attr(db[Parent(tree, c)][r].attributes, tree[c].parentJoinCol)) then GroupsAt(tree, db, c, r)(t) else 0
  {
  }

  lemma TupleCredits(tree: seq<JoinNode>, db: seq<seq<Entry>>, t: Tuple, c: nat, p: int -> bool)
    requires TreeOk(tree) && IsEdge(tree, c) && |db| == |tree| && Indexed(db[Parent(tree, c)])
    requires Parent(tree, c) in t && t[Parent(tree, c)] < |db[Parent(tree, c)]|
    ensures GroupsIf(tree, db, c, p)(t) == Total(db[Parent(tree, c)], CreditRow(tree, db, c, p)(t))
  {
    var rows := db[Parent(tree, c)];
    forall i | 0 <= i < |rows| && i != t[Parent(tree, c)] ensures CreditRow(tree, db, c, p)(t)(rows[i]) == 0 {
      CreditAt(tree, db, c, p, t, i);
    }
    OneRow(rows, |rows|, t[Parent(tree, c)], CreditRow(tree, db, c, p)(t));
    assert rows[..|rows|] == rows;
    CreditAt(tree, db, c, p, t, t[Parent(tree, c)]);
    OfferedByRow(tree, db, t, c);
  }

  lemma RowCredits(tree: seq<JoinNode>, db: seq<seq<Entry>>, ts: seq<Tuple>, nodes: set<nat>, c: nat, p: int -> bool, r: nat)
    requires Stage(tree, db, ts, nodes) && Attaches(tree, nodes, c) && r < |db[Parent(tree, c)]|
    ensures ShareIf(tree[c], db[c], p)(db[Parent(tree, c)][r])
         == Total(ts, CreditColumn(tree, db, c, p)(db[Parent(tree, c)][r]))
  {
    var e := db[Parent(tree, c)][r];
    var f := CreditColumn(tree, db, c, p)(e);
    var yes := p(Attr(e.attributes, tree[c].parentJoinCol));
    assert Indexed(db[Parent(tree, c)]);
    ShareIsGroups(tree, db, ts, nodes, c, r);
    forall i | 0 <= i < |ts| ensures f(ts[i]) == if yes then GroupsAt(tree, db, c, r)(ts[i]) else 0 {
      StageTuple(tree, db, ts, nodes, c, i);
      CreditAt(tree, db, c, p, ts[i], r);
    }
    if yes {
      TotalExt(ts, f, GroupsAt(tree, db, c, r));
    } else {
      TotalZero(ts, f);
    }
  }

  /** The groups at the join attributes that p selects are the shares of the parent rows that p selects. */
  lemma GroupsAreShares(tree: seq<JoinNode>, db: seq<seq<Entry>>, ts: seq<Tuple>, nodes: set<nat>, c: nat, p: int -> bool)
    requires Stage(tree, db, ts, nodes) && Attaches(tree, nodes, c)
    ensures Total(ts, GroupsIf(tree, db, c, p)) == Total(db[Parent(tree, c)], ShareIf(tree[c], db[c], p))
  {
    var rows := db[Parent(tree, c)];
    var row, col := CreditRow(tree, db, c, p), CreditColumn(tree, db, c, p);
    assert Indexed(rows);
    forall i | 0 <= i < |ts| ensures GroupsIf(tree, db, c, p)(ts[i]) == Total(rows, row(ts[i])) {
      StageTuple(tree, db, ts, nodes, c, i);
      TupleCredits(tree, db, ts[i], c, p);
    }
    forall r | 0 <= r < |rows| ensures ShareIf(tree[c], db[c], p)(rows[r]) == Total(ts, col(rows[r])) {
      RowCredits(tree, db, ts, nodes, c, p, r);
    }
    TotalSwap(ts, rows, row, col, GroupsIf(tree, db, c, p), ShareIf(tree[c], db[c], p));
  }

  // ---- Child values: what foreign_sum and the interval count ----

  ghost function Covers(n: JoinNode, x: int): int -> bool {
    y => InBand(n, x, y)
  }

  ghost function Passes(n: JoinNode, x: int): int -> bool {
    y => Over(n, x, y)
  }

  ghost function Reaches(n: JoinNode, x: int): int -> bool {
    y => !Under(n, x, y)
  }

  lemma JoinedIsGroups(tree: seq<JoinNode>, db: seq<seq<Entry>>, ts: seq<Tuple>, nodes: set<nat>, c: nat, x: int)
    requires Stage(tree, db, ts, nodes) && Attaches(tree, nodes, c)
    ensures JoinedShares(tree[c], db[Parent(tree, c)], db[c], x) == Total(ts, GroupsIf(tree, db, c, Covers(tree[c], x)))
  {
    var n, parent := tree[c], db[Parent(tree, c)];
    GroupsAreShares(tree, db, ts, nodes, c, Covers(n, x));
    forall i | 0 <= i < |parent|
      ensures Inside(Reverse(n), Share(n, db[c]), x)(parent[i]) == ShareIf(n, db[c], Covers(n, x))(parent[i])
    {
      ReversedBand(n, x, Attr(parent[i].attributes, n.parentJoinCol));
    }
    TotalExt(parent, Inside(Reverse(n), Share(n, db[c]), x), ShareIf(n, db[c], Covers(n, x)));
  }

  lemma EarlierIsGroups(tree: seq<JoinNode>, db: seq<seq<Entry>>, ts: seq<Tuple>, nodes: set<nat>, c: nat, x: int)
    requires Stage(tree, db, ts, nodes) && Attaches(tree, nodes, c)
    ensures EarlierShares(tree[c], db[Parent(tree, c)], db[c], x) == Total(ts, GroupsIf(tree, db, c, Passes(tree[c], x)))
  {
    var n, parent := tree[c], db[Parent(tree, c)];
    GroupsAreShares(tree, db, ts, nodes, c, Passes(n, x));
    forall i | 0 <= i < |parent|
      ensures UpTo(Reverse(n), Share(n, db[c]), x, Start)(parent[i]) == ShareIf(n, db[c], Passes(n, x))(parent[i])
    {
      ReversedBand(n, x, Attr(parent[i].attributes, n.parentJoinCol));
    }
    TotalExt(parent, UpTo(Reverse(n), Share(n, db[c]), x, Start), ShareIf(n, db[c], Passes(n, x)));
  }

  /** Start plus interval: the groups whose band is not entirely above x. */
  lemma ReachedIsGroups(tree: seq<JoinNode>, db: seq<seq<Entry>>, ts: seq<Tuple>, c: nat, x: int)
    requires TreeOk(tree) && IsEdge(tree, c) && |db| == |tree|
    ensures Total(ts, GroupsIf(tree, db, c, Reaches(tree[c], x)))
         == Total(ts, GroupsIf(tree, db, c, Passes(tree[c], x))) + Total(ts, GroupsIf(tree, db, c, Covers(tree[c], x)))
  {
    var n := tree[c];
    forall i | 0 <= i < |ts|
      ensures GroupsIf(tree, db, c, Reaches(n, x))(ts[i])
           == GroupsIf(tree, db, c, Passes(n, x))(ts[i]) + GroupsIf(tree, db, c, Covers(n, x))(ts[i])
    {
      BandSides(n, x, Offered(tree, db, ts[i], c));
    }
    TotalAdd(ts, GroupsIf(tree, db, c, Passes(n, x)), GroupsIf(tree, db, c, Covers(n, x)), GroupsIf(tree, db, c, Reaches(n, x)));
  }

  // ---- Balance is kept ----

  lemma InsideIsContinuations(tree: seq<JoinNode>, db: seq<seq<Entry>>, t: Tuple, c: nat)
    requires TreeOk(tree) && IsEdge(tree, c) && |db| == |tree|
    ensures Total(db[c][..|db[c]|], Inside(tree[c], LocalMult(), Offered(tree, db, t, c))) == Continuations(tree, db, t, c)
  {
    assert db[c][..|db[c]|] == db[c];
    MatchSumIsInside(tree[c], db[c], Offered(tree, db, t, c));
  }

  /** The extensions of t use a row of an attached table as often as t does. */
  lemma OldRowKept(tree: seq<JoinNode>, db: seq<seq<Entry>>, t: Tuple, c: nat, a: nat, r: nat)
    requires TreeOk(tree) && LocalOk(tree, db) && OnFrontier(tree, t, c) && ChildrenFree(tree, t, c) && a in t
    ensures Total(Extensions(tree, Data(db), t, c, |db[c]|), WeightAt(tree, db, a, r)) == WeightAt(tree, db, a, r)(t)
  {
    var k := if t[a] == r then Groups(tree, db, t, c) else 0;
    AttachGroups(tree, db, t, c);
    forall q: nat | q < |db[c]| && Joins(tree, Data(db), t, c, q)
      ensures WeightAt(tree, db, a, r)(t[c := q]) == k * LocalMult()(db[c][q])
    {
      assert a != c;
    }
    ExtensionsTotal(tree, db, t, c, |db[c]|, WeightAt(tree, db, a, r), k, LocalMult());
    InsideIsContinuations(tree, db, t, c);
  }

  ghost function RowMultOnly(r: nat): Entry -> int {
    (e: Entry) => if e.originalIndex == r then e.localMult else 0
  }

  ghost function CoverTerm(tree: seq<JoinNode>, db: seq<seq<Entry>>, c: nat, r: nat): Tuple -> int
    requires TreeOk(tree) && IsEdge(tree, c) && |db| == |tree| && r < |db[c]|
  {
    (t: Tuple) => db[c][r].localMult * GroupsIf(tree, db, c, Covers(tree[c], Attr(db[c][r].attributes, tree[c].joinCol)))(t)
  }

  /** The extensions of t use row r of the new table once per group and unit of its multiplicity, if t's band covers it. */
  lemma NewRowCounted(tree: seq<JoinNode>, db: seq<seq<Entry>>, t: Tuple, c: nat, r: nat)
    requires TreeOk(tree) && LocalOk(tree, db) && OnFrontier(tree, t, c) && ChildrenFree(tree, t, c)
    requires r < |db[c]| && Indexed(db[c])
    ensures Total(Extensions(tree, Data(db), t, c, |db[c]|), WeightAt(tree, db, c, r)) == CoverTerm(tree, db, c, r)(t)
  {
    var k := Groups(tree, db, t, c);
    AttachGroups(tree, db, t, c);
    forall q: nat | q < |db[c]| && Joins(tree, Data(db), t, c, q)
      ensures WeightAt(tree, db, c, r)(t[c := q]) == k * RowMultOnly(r)(db[c][q])
    {
      assert db[c][q].originalIndex == q;
    }
    ExtensionsTotal(tree, db, t, c, |db[c]|, WeightAt(tree, db, c, r), k, RowMultOnly(r));
    OneRow(db[c], |db[c]|, r, Inside(tree[c], RowMultOnly(r), Offered(tree, db, t, c)));
    var cover := Covers(tree[c], Attr(db[c][r].attributes, tree[c].joinCol))(Offered(tree, db, t, c));
    assert Inside(tree[c], RowMultOnly(r), Offered(tree, db, t, c))(db[c][r]) == if cover then db[c][r].localMult else 0;
    var g := GroupsIf(tree, db, c, Covers(tree[c], Attr(db[c][r].attributes, tree[c].joinCol)))(t);
    assert g == if cover then k else 0;
    assert CoverTerm(tree, db, c, r)(t) == db[c][r].localMult * g;
    MulFlips(k, db[c][r].localMult, cover);
  }

  lemma MulFlips(k: int, m: int, b: bool)
    ensures k * (if b then m else 0) == m * (if b then k else 0)
  {
  }

  lemma NewRowBalanced(tree: seq<JoinNode>, db: seq<seq<Entry>>, ts: seq<Tuple>, nodes: set<nat>, c: nat, r: nat)
    requires Stage(tree, db, ts, nodes) && Attaches(tree, nodes, c) && r < |db[c]|
    ensures Total(Extend(tree, Data(db), ts, c), WeightAt(tree, db, c, r)) == db[c][r].finalMult
  {
    var x := Attr(db[c][r].attributes, tree[c].joinCol);
    assert Indexed(db[c]);
    forall i | 0 <= i < |ts|
      ensures Total(Extensions(tree, Data(db), ts[i], c, |Data(db)[c]|), WeightAt(tree, db, c, r)) == CoverTerm(tree, db, c, r)(ts[i])
    {
      StageTuple(tree, db, ts, nodes, c, i);
      NewRowCounted(tree, db, ts[i], c, r);
    }
    ExtendTotal(tree, Data(db), ts, c, WeightAt(tree, db, c, r), CoverTerm(tree, db, c, r));
    TotalScale(ts, db[c][r].localMult, GroupsIf(tree, db, c, Covers(tree[c], x)), CoverTerm(tree, db, c, r));
    JoinedIsGroups(tree, db, ts, nodes, c, x);
    assert NodeFinal(tree, db, c) && RowFinal(tree, db, c, db[c][r]);
  }

  /** Extending all tuples by node c keeps the weight at a row of an attached table. */
  lemma WeightKept(tree: seq<JoinNode>, db: seq<seq<Entry>>, ts: seq<Tuple>, nodes: set<nat>, c: nat, a: nat, r: nat)
    requires TreeOk(tree) && LocalOk(tree, db) && Lists(ts, tree, Data(db), nodes) && Attaches(tree, nodes, c) && a in nodes
    ensures Total(Extend(tree, Data(db), ts, c), WeightAt(tree, db, a, r)) == Total(ts, WeightAt(tree, db, a, r))
  {
    forall i | 0 <= i < |ts|
      ensures Total(Extensions(tree, Data(db), ts[i], c, |Data(db)[c]|), WeightAt(tree, db, a, r)) == WeightAt(tree, db, a, r)(ts[i])
    {
      ListedTuple(tree, db, ts, nodes, c, i);
      OldRowKept(tree, db, ts[i], c, a, r);
    }
    ExtendTotal(tree, Data(db), ts, c, WeightAt(tree, db, a, r), WeightAt(tree, db, a, r));
  }

  lemma OldRowBalanced(tree: seq<JoinNode>, db: seq<seq<Entry>>, ts: seq<Tuple>, nodes: set<nat>, c: nat, a: nat, r: nat)
    requires Stage(tree, db, ts, nodes) && Attaches(tree, nodes, c) && a in nodes && r < |db[a]|
    ensures Total(Extend(tree, Data(db), ts, c), WeightAt(tree, db, a, r)) == db[a][r].finalMult
  {
    WeightKept(tree, db, ts, nodes, c, a, r);
    BalancedAt(tree, db, ts, nodes, a, r);
  }

  /** The attach invariant on weights: extending by a node keeps the listing and the balance of every attached table. */
  lemma StageExtends(tree: seq<JoinNode>, db: seq<seq<Entry>>, ts: seq<Tuple>, nodes: set<nat>, c: nat)
    requires Stage(tree, db, ts, nodes) && Attaches(tree, nodes, c)
    ensures Stage(tree, db, Extend(tree, Data(db), ts, c), nodes + {c})
  {
    ExtendLists(tree, Data(db), ts, nodes, c);
    forall a: nat, r: nat {:trigger WeightAt(tree, db, a, r)} | a in nodes + {c} && a < |db| && r < |db[a]|
      ensures Total(Extend(tree, Data(db), ts, c), WeightAt(tree, db, a, r)) == db[a][r].finalMult
    {
      if a == c {
        NewRowBalanced(tree, db, ts, nodes, c, r);
      } else {
        OldRowBalanced(tree, db, ts, nodes, c, a, r);
      }
    }
  }
}
