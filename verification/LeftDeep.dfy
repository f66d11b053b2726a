/** leftdeep_plan: the plan that seeds from the first join condition and extends greedily. */
module LeftDeep {
  import opened PlanGraph
  import opened Planner
  import opened PlanEnumeration

  ghost predicate Proper(order: seq<(nat, nat)>) {
    forall k :: 0 <= k < |order| ==> order[k].0 != order[k].1
  }

  predicate Touches(e: (nat, nat), joined: set<nat>) {
    e.0 in joined || e.1 in joined
  }

  predicate Inside(e: (nat, nat), joined: set<nat>) {
    e.0 in joined && e.1 in joined
  }

  ghost function Ends(order: seq<(nat, nat)>): set<nat> {
    (set k | 0 <= k < |order| :: order[k].0) + (set k | 0 <= k < |order| :: order[k].1)
  }

  /** The first condition that touches what is joined, or the number of conditions. */
  method FindTouching(remaining: seq<(nat, nat)>, joined: set<nat>) returns (k: nat)
    ensures k <= |remaining| && (k < |remaining| ==> Touches(remaining[k], joined))
    ensures forall i :: 0 <= i < k ==> !Touches(remaining[i], joined)
  {
    k := 0;
    while k < |remaining| && !Touches(remaining[k], joined)
      invariant k <= |remaining| && forall i :: 0 <= i < k ==> !Touches(remaining[i], joined)
    {
      k := k + 1;
    }
  }

  /** Every right child is a single table, and no table occurs twice. */
  ghost predicate IsLeftDeep(p: Plan) {
    match p
    case Leaf(ts, i) => ts == {i}
    case Node(ts, l, r) => IsLeftDeep(l) && IsLeftDeep(r) && r.Leaf? && ts == l.tables + r.tables && l.tables !! r.tables
  }

  /** One more table at the right. */
  method Extend(node: Plan, t: nat) returns (next: Plan)
    requires IsLeftDeep(node) && t !in node.tables
    ensures IsLeftDeep(next) && next == Node(node.tables + {t}, node, Leaf({t}, t))
  {
    next := Node(node.tables + {t}, node, Leaf({t}, t));
  }

  // ---- Which table comes next ----

  /** Exactly one end of e is joined. */
  predicate Half(e: (nat, nat), joined: set<nat>) {
    e.0 in joined <==> e.1 !in joined
  }

  function Missing(e: (nat, nat), joined: set<nat>): nat {
    if e.0 in joined then e.1 else e.0
  }

  /** Condition k is the first in SQL order with exactly one end joined. */
  ghost predicate FirstHalf(order: seq<(nat, nat)>, joined: set<nat>, k: nat) {
    k < |order| && Half(order[k], joined) && forall i :: 0 <= i < k ==> !Half(order[i], joined)
  }

  ghost predicate NoHalf(order: seq<(nat, nat)>, joined: set<nat>) {
    forall i :: 0 <= i < |order| ==> !Half(order[i], joined)
  }

  /** Condition k is the first in SQL order with neither end joined. */
  ghost predicate FirstApart(order: seq<(nat, nat)>, joined: set<nat>, k: nat) {
    k < |order| && !Touches(order[k], joined) && forall i :: 0 <= i < k ==> Touches(order[i], joined)
  }

  /** The missing end of the first condition with one end joined; if there is none, the left end of the first with neither. */
  ghost predicate IsNext(order: seq<(nat, nat)>, joined: set<nat>, t: nat) {
    || (exists k: nat :: FirstHalf(order, joined, k) && t == Missing(order[k], joined))
    || (NoHalf(order, joined) && exists k: nat :: FirstApart(order, joined, k) && t == order[k].0)
  }

  /** From the left end of the first condition on, every right child is the next table. */
  ghost predicate Follows(order: seq<(nat, nat)>, p: Plan) {
    match p
    case Leaf(ts, i) => order != [] && ts == {i} && i == order[0].0
    case Node(ts, l, r) => Follows(order, l) && r.Leaf? && r.tables == {r.tableIdx} && ts == l.tables + r.tables && IsNext(order, l.tables, r.tableIdx)
  }

  lemma NextIsOne(order: seq<(nat, nat)>, joined: set<nat>, t: nat, u: nat)
    requires IsNext(order, joined, t) && IsNext(order, joined, u)
    ensures t == u && t !in joined
  {
    if k: nat :| FirstHalf(order, joined, k) && t == Missing(order[k], joined) {
      assert Half(order[k], joined);
      var m: nat :| FirstHalf(order, joined, m) && u == Missing(order[m], joined);
      assert !(k < m) && !(m < k);
    } else {
      var k: nat :| FirstApart(order, joined, k) && t == order[k].0;
      var m: nat :| FirstApart(order, joined, m) && u == order[m].0;
      assert !(k < m) && !(m < k);
    }
  }

  lemma {:induction false} FollowsSize(order: seq<(nat, nat)>, p: Plan)
    requires Follows(order, p)
    ensures |p.tables| >= 1 && (p.Node? ==> |p.tables| == |p.left.tables| + 1)
  {
    if p.Node? {
      FollowsSize(order, p.left);
      NextIsOne(order, p.left.tables, p.right.tableIdx, p.right.tableIdx);
    }
  }

  /** The rule leaves no choice: there is one such plan of every size. */
  lemma {:induction false} FollowsUnique(order: seq<(nat, nat)>, p: Plan, q: Plan)
    requires Follows(order, p) && Follows(order, q) && |p.tables| == |q.tables|
    ensures p == q
  {
    FollowsSize(order, p);
    FollowsSize(order, q);
    if p.Node? {
      FollowsSize(order, p.left);
      if q.Node? {
        FollowsUnique(order, p.left, q.left);
        NextIsOne(order, p.left.tables, p.right.tableIdx, q.right.tableIdx);
      }
    } else if q.Node? {
      FollowsSize(order, q.left);
    }
  }

  /** The plan starts with the two ends of the first condition, left and right as given. */
  lemma FirstConditionFirst(order: seq<(nat, nat)>)
    requires order != [] && Proper(order)
    ensures Follows(order, Seed(order[0]))
  {
    var e := order[0];
    assert FirstHalf(order, {e.0}, 0) && Missing(e, {e.0}) == e.1;
    assert IsNext(order, {e.0}, e.1);
    assert Follows(order, Leaf({e.0}, e.0));
  }

  function Seed(e: (nat, nat)): Plan {
    Node({e.0, e.1}, Leaf({e.0}, e.0), Leaf({e.1}, e.1))
  }

  /** After the left end of a condition with neither end joined comes its right end. */
  lemma RightEndNext(order: seq<(nat, nat)>, joined: set<nat>, k: nat)
    requires Proper(order) && NoHalf(order, joined) && FirstApart(order, joined, k)
    ensures IsNext(order, joined, order[k].0) && IsNext(order, joined + {order[k].0}, order[k].1)
  {
    var now := joined + {order[k].0};
    forall i | 0 <= i < k ensures !Half(order[i], now) {
      assert Touches(order[i], joined) && !Half(order[i], joined);
    }
    assert FirstHalf(order, now, k) && Missing(order[k], now) == order[k].1;
  }

  // ---- The conditions that are left ----

  /** The remaining conditions stand at the given positions of the list; those at the others lie inside the joined tables. */
  ghost predicate Tracks(order: seq<(nat, nat)>, remaining: seq<(nat, nat)>, at: seq<nat>, joined: set<nat>) {
    && |at| == |remaining| && (forall i, j :: 0 <= i < j < |at| ==> at[i] < at[j])
    && (forall i :: 0 <= i < |at| ==> at[i] < |order| && remaining[i] == order[at[i]])
    && (forall j :: 0 <= j < |order| ==> j in at || Inside(order[j], joined))
  }

  ghost function Without(at: seq<nat>, k: nat): seq<nat>
    requires k < |at|
  {
    at[..k] + at[k + 1..]
  }

  lemma StillListed(at: seq<nat>, k: nat, j: nat)
    requires k < |at| && j in at && j != at[k]
    ensures j in Without(at, k)
  {
    var m :| 0 <= m < |at| && at[m] == j;
    assert j == if m < k then Without(at, k)[m] else Without(at, k)[m - 1];
  }

  lemma DropPosition(order: seq<(nat, nat)>, remaining: seq<(nat, nat)>, at: seq<nat>, k: nat, joined: set<nat>, now: set<nat>)
    requires Tracks(order, remaining, at, joined) && k < |remaining| && joined <= now && Inside(remaining[k], now)
    ensures Tracks(order, remaining[..k] + remaining[k + 1..], Without(at, k), now)
  {
    forall j | 0 <= j < |order| ensures j in Without(at, k) || Inside(order[j], now) {
      if j in at && j != at[k] {
        StillListed(at, k, j);
      }
    }
  }

  /** The first remaining condition with one end joined is the first of all. */
  lemma HalfIsFirst(order: seq<(nat, nat)>, remaining: seq<(nat, nat)>, at: seq<nat>, joined: set<nat>, k: nat)
    requires Tracks(order, remaining, at, joined) && k < |remaining| && Half(remaining[k], joined)
    requires forall i :: 0 <= i < k ==> !Touches(remaining[i], joined)
    ensures FirstHalf(order, joined, at[k]) && IsNext(order, joined, Missing(remaining[k], joined))
  {
    forall j | 0 <= j < at[k] ensures !Half(order[j], joined) {
      if j in at {
        var m :| 0 <= m < |at| && at[m] == j;
        assert m < k && remaining[m] == order[j];
      }
    }
    assert FirstHalf(order, joined, at[k]);
  }

  /** If none touches, the first remaining condition is the first of all with neither end joined. */
  lemma ApartIsFirst(order: seq<(nat, nat)>, remaining: seq<(nat, nat)>, at: seq<nat>, joined: set<nat>)
    requires Tracks(order, remaining, at, joined) && remaining != []
    requires forall i :: 0 <= i < |remaining| ==> !Touches(remaining[i], joined)
    ensures NoHalf(order, joined) && FirstApart(order, joined, at[0])
  {
    forall j | 0 <= j < |order| ensures !Half(order[j], joined) && (j < at[0] ==> Touches(order[j], joined)) {
      if j in at {
        var m :| 0 <= m < |at| && at[m] == j;
        assert remaining[m] == order[j];
      }
    }
  }

  /** Conditions that are done lie inside the joined tables. */
  ghost predicate Pending(order: seq<(nat, nat)>, remaining: seq<(nat, nat)>, joined: set<nat>) {
    && (forall k :: 0 <= k < |order| ==> order[k] in remaining || Inside(order[k], joined))
    && (forall k :: 0 <= k < |remaining| ==> remaining[k] in order)
  }

  /** What the loop keeps: the joined tables are ends of conditions, and along edges if the graph is connected. */
  ghost predicate Growing(order: seq<(nat, nat)>, adj: seq<set<nat>>, remaining: seq<(nat, nat)>, node: Plan) {
    && IsLeftDeep(node) && node.tables != {} && node.tables <= Ends(order) && Pending(order, remaining, node.tables)
    && Known(adj, Ends(order)) && (Connected(adj, Ends(order)) ==> IsPlan(adj, node))
  }

  lemma EndsIn(order: seq<(nat, nat)>, e: (nat, nat))
    requires e in order
    ensures e.0 in Ends(order) && e.1 in Ends(order)
  {
    var k :| 0 <= k < |order| && order[k] == e;
    assert order[k].0 in Ends(order);
    assert order[k].1 in Ends(order);
  }

  lemma EdgeIsAdjacent(order: seq<(nat, nat)>, adj: seq<set<nat>>, n: nat, e: (nat, nat))
    requires AdjacencyOf(adj, order, n) && EdgesWithin(order, n) && e in order
    ensures e.0 < n && e.1 < n && e.1 in adj[e.0] && e.0 in adj[e.1]
  {
    var k :| 0 <= k < |order| && order[k] == e;
    assert Edge(order, e.0, e.1) && Edge(order, e.1, e.0);
  }

  lemma EndsKnown(order: seq<(nat, nat)>, adj: seq<set<nat>>, n: nat)
    requires AdjacencyOf(adj, order, n) && EdgesWithin(order, n)
    ensures Known(adj, Ends(order))
  {
  }

  lemma AlongEdge(adj: seq<set<nat>>, node: Plan, t: nat, s: nat)
    requires IsPlan(adj, node) && Known(adj, node.tables) && t < |adj| && t !in node.tables && s in node.tables && t in adj[s]
    ensures IsPlan(adj, Node(node.tables + {t}, node, Leaf({t}, t)))
  {
    assert s in node.tables && t in {t} && t in adj[s];
  }

  /** In a connected graph some pending condition touches the joined tables. */
  lemma NeverStuck(order: seq<(nat, nat)>, adj: seq<set<nat>>, n: nat, remaining: seq<(nat, nat)>, node: Plan)
    requires AdjacencyOf(adj, order, n) && Growing(order, adj, remaining, node) && remaining != []
    requires forall k :: 0 <= k < |remaining| ==> !Touches(remaining[k], node.tables)
    ensures !Connected(adj, Ends(order))
  {
    var joined, all := node.tables, Ends(order);
    assert remaining[0] in order;
    EndsIn(order, remaining[0]);
    assert joined != all;
    forall i, j | i in joined && j in all - joined ensures j !in adj[i] {
      NoEdgeAcross(order, remaining, joined, i, j);
    }
    assert !Joinable(adj, joined, all - joined);
  }

  lemma NoEdgeAcross(order: seq<(nat, nat)>, remaining: seq<(nat, nat)>, joined: set<nat>, i: nat, j: nat)
    requires Pending(order, remaining, joined) && i in joined && j !in joined
    requires forall k :: 0 <= k < |remaining| ==> !Touches(remaining[k], joined)
    ensures !Edge(order, i, j)
  {
    forall k | 0 <= k < |order| ensures !Touches(order[k], joined) || Inside(order[k], joined) {
      if order[k] in remaining {
        var m :| 0 <= m < |remaining| && remaining[m] == order[k];
      }
    }
  }

  lemma DropDone(order: seq<(nat, nat)>, remaining: seq<(nat, nat)>, k: nat, joined: set<nat>, now: set<nat>)
    requires Pending(order, remaining, joined) && k < |remaining| && joined <= now && Inside(remaining[k], now)
    ensures Pending(order, remaining[..k] + remaining[k + 1..], now)
  {
    var rest := remaining[..k] + remaining[k + 1..];
    forall i | 0 <= i < |order| ensures order[i] in rest || Inside(order[i], now) {
      if order[i] in remaining && order[i] != remaining[k] {
        var m :| 0 <= m < |remaining| && remaining[m] == order[i];
        assert order[i] == if m < k then rest[m] else rest[m - 1];
      }
    }
    forall i | 0 <= i < |rest| ensures rest[i] in order {
      assert rest[i] == if i < k then remaining[i] else remaining[i + 1];
    }
  }

  /** A condition that touches: its new table, if it has one, is joined. */
  method TakeTouching(order: seq<(nat, nat)>, ghost adj: seq<set<nat>>, ghost n: nat, remaining: seq<(nat, nat)>, k: nat, node: Plan, ghost at: seq<nat>)
    returns (rest: seq<(nat, nat)>, next: Plan)
    requires AdjacencyOf(adj, order, n) && EdgesWithin(order, n) && Growing(order, adj, remaining, node)
    requires Follows(order, node) && Tracks(order, remaining, at, node.tables)
    requires k < |remaining| && Touches(remaining[k], node.tables) && forall i :: 0 <= i < k ==> !Touches(remaining[i], node.tables)
    ensures Growing(order, adj, rest, next) && |rest| == |remaining| - 1
    ensures Follows(order, next) && Tracks(order, rest, Without(at, k), next.tables)
  {
    var e := remaining[k];
    rest, next := remaining[..k] + remaining[k + 1..], node;
    assert e in order;
    EndsIn(order, e);
    EdgeIsAdjacent(order, adj, n, e);
    if !Inside(e, node.tables) {
      var t := if e.0 !in node.tables then e.0 else e.1;
      next := Extend(node, t);
      HalfIsFirst(order, remaining, at, node.tables, k);
      if Connected(adj, Ends(order)) {
        AlongEdge(adj, node, t, if t == e.0 then e.1 else e.0);
      }
    }
    DropDone(order, remaining, k, node.tables, next.tables);
    DropPosition(order, remaining, at, k, node.tables, next.tables);
  }

  /** No condition touches: the first one is joined as a cross product. */
  method TakeFirst(order: seq<(nat, nat)>, ghost adj: seq<set<nat>>, ghost n: nat, remaining: seq<(nat, nat)>, node: Plan, ghost at: seq<nat>)
    returns (rest: seq<(nat, nat)>, next: Plan)
    requires AdjacencyOf(adj, order, n) && Growing(order, adj, remaining, node) && remaining != [] && Proper(order)
    requires Follows(order, node) && Tracks(order, remaining, at, node.tables)
    requires forall k :: 0 <= k < |remaining| ==> !Touches(remaining[k], node.tables)
    ensures Growing(order, adj, rest, next) && |rest| == |remaining| - 1
    ensures Follows(order, next) && Tracks(order, rest, Without(at, 0), next.tables)
  {
    NeverStuck(order, adj, n, remaining, node);
    var e := remaining[0];
    assert e in order;
    EndsIn(order, e);
    rest := remaining[1..];
    next := Extend(node, e.0);
    next := Extend(next, e.1);
    ApartIsFirst(order, remaining, at, node.tables);
    RightEndNext(order, node.tables, at[0]);
    DropDone(order, remaining, 0, node.tables, next.tables);
    DropPosition(order, remaining, at, 0, node.tables, next.tables);
    assert remaining[..0] + remaining[1..] == rest;
  }

  /**
   * leftdeep_plan: every table of a condition once, single tables on the right, each the next one by the conditions in
   * SQL order; a valid plan exactly if the conditions connect their tables.
   */
  method LeftDeepPlan(order: seq<(nat, nat)>, n: nat, ghost adj: seq<set<nat>>) returns (node: Plan)
    requires order != [] && Proper(order) && EdgesWithin(order, n) && AdjacencyOf(adj, order, n)
    ensures IsLeftDeep(node) && node.tables == Ends(order) && Known(adj, Ends(order))
    ensures Follows(order, node)
    ensures IsPlan(adj, node) <==> Connected(adj, Ends(order))
  {
    var first := order[0];
    EndsIn(order, first);
    EndsKnown(order, adj, n);
    EdgeIsAdjacent(order, adj, n, first);
    node := Node({first.0, first.1}, Leaf({first.0}, first.0), Leaf({first.1}, first.1));
    var remaining := order[1..];
    Seeded(order, adj, node);
    FirstConditionFirst(order);
    ghost var at := SeededPositions(order);
    while remaining != []
      invariant Growing(order, adj, remaining, node)
      invariant Follows(order, node) && Tracks(order, remaining, at, node.tables)
      decreases |remaining|
    {
      var k := FindTouching(remaining, node.tables);
      if k < |remaining| {
        remaining, node := TakeTouching(order, adj, n, remaining, k, node, at);
        at := Without(at, k);
      } else {
        remaining, node := TakeFirst(order, adj, n, remaining, node, at);
        at := Without(at, 0);
      }
    }
    AllJoined(order, node.tables);
    EdgesBothWays(adj, order, n);
    if IsPlan(adj, node) {
      PlanConnected(adj, node);
    }
  }

  lemma Seeded(order: seq<(nat, nat)>, adj: seq<set<nat>>, node: Plan)
    requires order != [] && Proper(order) && Known(adj, Ends(order))
    requires order[0].0 in Ends(order) && order[0].1 in Ends(order) && order[0].0 < |adj| && order[0].1 in adj[order[0].0]
    requires node == Node({order[0].0, order[0].1}, Leaf({order[0].0}, order[0].0), Leaf({order[0].1}, order[0].1))
    ensures Growing(order, adj, order[1..], node)
  {
    var first, rest := order[0], order[1..];
    assert first.0 in {first.0} && first.1 in {first.1} && first.1 in adj[first.0];
    assert node.tables == {first.0} + {first.1};
    forall k | 0 <= k < |order| ensures order[k] in rest || Inside(order[k], node.tables) {
      assert k > 0 ==> rest[k - 1] == order[k];
    }
  }

  lemma SeededPositions(order: seq<(nat, nat)>) returns (at: seq<nat>)
    requires order != []
    ensures Tracks(order, order[1..], at, {order[0].0, order[0].1})
  {
    at := seq(|order| - 1, i requires 0 <= i => i + 1);
    forall j | 0 < j < |order| ensures j in at {
      assert at[j - 1] == j;
    }
  }

  lemma AllJoined(order: seq<(nat, nat)>, joined: set<nat>)
    requires Pending(order, [], joined) && joined <= Ends(order)
    ensures joined == Ends(order)
  {
    forall x | x in Ends(order) ensures x in joined {
      if k :| 0 <= k < |order| && order[k].0 == x {
        assert Inside(order[k], joined);
      } else {
        var k :| 0 <= k < |order| && order[k].1 == x;
        assert Inside(order[k], joined);
      }
    }
  }

  /** A path with a branch: the two conditions at table 1 are taken in SQL order. */
  lemma BranchInOrder(p: Plan)
    requires Follows([(0, 1), (1, 2), (1, 3)], p) && p.tables == {0, 1, 2, 3}
    ensures p == Node({0, 1, 2, 3}, Node({0, 1, 2}, Seed((0, 1)), Leaf({2}, 2)), Leaf({3}, 3))
  {
    var order: seq<(nat, nat)> := [(0, 1), (1, 2), (1, 3)];
    FirstConditionFirst(order);
    var two := Node({0, 1, 2}, Seed((0, 1)), Leaf({2}, 2));
    assert FirstHalf(order, {0, 1}, 1) && Missing(order[1], {0, 1}) == 2;
    assert {0, 1, 2} == {0, 1} + {2};
    assert Follows(order, two);
    assert FirstHalf(order, {0, 1, 2}, 2) && Missing(order[2], {0, 1, 2}) == 3;
    assert {0, 1, 2, 3} == {0, 1, 2} + {3};
    var three := Node({0, 1, 2, 3}, two, Leaf({3}, 3));
    assert Follows(order, three);
    FollowsUnique(order, p, three);
  }

  /** On a connected query the greedy plan is one of the enumerated plans, up to swapping. */
  lemma LeftDeepIsListed(ps: seq<Plan>, adj: seq<set<nat>>, order: seq<(nat, nat)>, n: nat, node: Plan)
    requires AdjacencyOf(adj, order, n) && Symmetric(adj) && Lists(ps, adj, Ends(order))
    requires node.tables == Ends(order) && IsPlan(adj, node)
    ensures exists k :: 0 <= k < |ps| && Same(node, ps[k])
  {
    OneOfEachClass(ps, adj, Ends(order), node);
  }
}
