/** A chain of k tables has Catalan(k - 1) plans. */
module PlanChain {
  import opened Totals
  import opened PlanGraph
  import opened Planner
  import opened PlanEnumeration

  /** The Catalan numbers by their convolution. */
  ghost function Catalan(n: nat): nat
    decreases n, n + 1
  {
    if n == 0 then 1 else Convolution(n, n)
  }

  ghost function Convolution(n: nat, i: nat): nat
    requires i <= n
    decreases n, i
  {
    if i == 0 then 0 else Convolution(n, i - 1) + Catalan(i - 1) * Catalan(n - i)
  }

  // ---- Chains ----

  /** Neighbours are exactly the tables next to each other. */
  ghost predicate IsChain(adj: seq<set<nat>>) {
    && Symmetric(adj)
    && forall i: nat, j: nat :: i < |adj| && j < |adj| ==> (j in adj[i] <==> j == i + 1 || i == j + 1)
  }

  ghost function Interval(a: nat, b: nat): (r: set<nat>)
    ensures forall x: nat :: x in r <==> a <= x < b
  {
    if a >= b then {} else Interval(a, b - 1) + {b - 1}
  }

  lemma Adjacent(adj: seq<set<nat>>, s: set<nat>, t: set<nat>, c: nat)
    requires IsChain(adj) && Known(adj, s) && Known(adj, t) && s !! t
    requires (forall x :: x in s ==> x < c) && (forall x :: x in t ==> x > c)
    ensures !Joinable(adj, s, t)
  {
  }

  /** A connected set of chain tables that misses c lies on one side of it. */
  lemma OneSide(adj: seq<set<nat>>, s: set<nat>, a: nat, c: nat)
    requires IsChain(adj) && Known(adj, s) && Connected(adj, s) && a in s && a < c && c !in s
    ensures forall x :: x in s ==> x < c
  {
    var below := set x | x in s && x < c;
    assert a in below;
    if below != s {
      assert Joinable(adj, below, s - below);
      Adjacent(adj, below, s - below, c);
      assert false;
    }
  }

  /** The left half of a wanted plan of a stretch of the chain is the first part of the stretch. */
  lemma LeftIsFirst(adj: seq<set<nat>>, a: nat, b: nat, p: Plan) returns (c: nat)
    requires IsChain(adj) && a < b <= |adj| && Wanted(adj, Interval(a, b), p) && p.Node?
    ensures a < c < b && p.left.tables == Interval(a, c) && p.right.tables == Interval(c, b)
  {
    var ts := Interval(a, b);
    SplitOfPlan(adj, ts, p);
    PlanNotEmpty(adj, p.right);
    c := LeastIn(p.right.tables);
    FirstInLeft(a, b, p.left.tables);
    OneSide(adj, p.left.tables, a, c);
    LeastSplits(a, b, c, p.left.tables, p.right.tables);
  }

  lemma LeastSplits(a: nat, b: nat, c: nat, left: set<nat>, right: set<nat>)
    requires right == Interval(a, b) - left && left <= Interval(a, b) && c in right && a in left
    requires (forall x :: x in right ==> c <= x) && forall x :: x in left ==> x < c
    ensures a < c < b && left == Interval(a, c) && right == Interval(c, b)
  {
    assert c in Interval(a, b);
    forall x: nat | a <= x < c ensures x in left {
      assert x in Interval(a, b);
      assert x in left || x in right;
    }
  }

  lemma FirstInLeft(a: nat, b: nat, s: set<nat>)
    requires a < b && HasLeast(s, Interval(a, b))
    ensures a in s
  {
    assert a in Interval(a, b);
  }

  // ---- Plans of a stretch, split by split ----

  ghost function With(ts: set<nat>, l: Plan, rs: seq<Plan>): (ps: seq<Plan>)
    ensures |ps| == |rs|
  {
    seq(|rs|, j requires 0 <= j < |rs| => Node(ts, l, rs[j]))
  }

  ghost function Product(ts: set<nat>, ls: seq<Plan>, rs: seq<Plan>): (ps: seq<Plan>)
    ensures |ps| == |ls| * |rs|
  {
    if ls == [] then [] else Product(ts, ls[..|ls| - 1], rs) + With(ts, ls[|ls| - 1], rs)
  }

  lemma {:induction false} ProductMembers(ts: set<nat>, ls: seq<Plan>, rs: seq<Plan>)
    requires NoRepeats(ls) && NoRepeats(rs)
    ensures NoRepeats(Product(ts, ls, rs))
    ensures forall p :: p in Product(ts, ls, rs) <==> p.Node? && p.tables == ts && p.left in ls && p.right in rs
  {
    if ls != [] {
      var front, last := ls[..|ls| - 1], ls[|ls| - 1];
      ProductMembers(ts, front, rs);
      WithMembers(ts, last, rs);
      assert last !in front;
      assert ls == front + [last];
      NoRepeatsConcat(Product(ts, front, rs), With(ts, last, rs));
    }
  }

  lemma WithMembers(ts: set<nat>, l: Plan, rs: seq<Plan>)
    requires NoRepeats(rs)
    ensures NoRepeats(With(ts, l, rs))
    ensures forall p :: p in With(ts, l, rs) <==> p.Node? && p.tables == ts && p.left == l && p.right in rs
  {
    forall p ensures p in With(ts, l, rs) <==> p.Node? && p.tables == ts && p.left == l && p.right in rs {
      if p.Node? && p.tables == ts && p.left == l && p.right in rs {
        var j :| 0 <= j < |rs| && rs[j] == p.right;
        assert With(ts, l, rs)[j] == p;
      }
    }
  }

  /** Both parts of a stretch are joined by the edge at the cut. */
  lemma PlansAtCut(adj: seq<set<nat>>, a: nat, c: nat, b: nat, p: Plan)
    requires IsChain(adj) && a < c < b <= |adj|
    requires p.Node? && p.tables == Interval(a, b)
    ensures Wanted(adj, Interval(a, c), p.left) && Wanted(adj, Interval(c, b), p.right)
      <==> Wanted(adj, Interval(a, b), p) && p.left.tables == Interval(a, c)
  {
    var ts, sub := Interval(a, b), Interval(a, c);
    assert ts - sub == Interval(c, b);
    if Wanted(adj, sub, p.left) && Wanted(adj, Interval(c, b), p.right) {
      assert c - 1 in sub && c in Interval(c, b) && c in adj[c - 1];
      assert a in sub && a in ts;
      PlanOfSplit(adj, ts, sub, p);
    }
    if Wanted(adj, ts, p) && p.left.tables == sub {
      SplitOfPlan(adj, ts, p);
    }
  }

  /** The first parts up to c. */
  ghost function Cuts(a: nat, c: nat): iset<set<nat>> {
    iset d: nat | a < d <= c :: Interval(a, d)
  }

  lemma NewCut(a: nat, c: nat)
    requires a < c
    ensures Cuts(a, c) == Cuts(a, c - 1) + iset{Interval(a, c)} && Interval(a, c) !in Cuts(a, c - 1)
  {
    assert c - 1 in Interval(a, c);
  }

  /** Wanted plans of a stretch, counted by their cut. */
  lemma {:induction false} PlansUpTo(adj: seq<set<nat>>, a: nat, b: nat, c: nat) returns (ps: seq<Plan>)
    requires IsChain(adj) && a <= c < b <= |adj| && b > a + 1
    ensures ListsSplits(ps, adj, Interval(a, b), Cuts(a, c)) && |ps| == Convolution(b - a - 1, c - a)
    decreases b - a, c - a
  {
    if c == a {
      ps := [];
    } else {
      var before := PlansUpTo(adj, a, b, c - 1);
      var ls := PlansOfStretch(adj, a, c);
      var rs := PlansOfStretch(adj, c, b);
      var now := Product(Interval(a, b), ls, rs);
      AtCut(adj, a, c, b, ls, rs);
      NewCut(a, c);
      MaskStep(before, now, adj, Interval(a, b), Cuts(a, c - 1), Interval(a, c));
      ps := before + now;
    }
  }

  lemma AtCut(adj: seq<set<nat>>, a: nat, c: nat, b: nat, ls: seq<Plan>, rs: seq<Plan>)
    requires IsChain(adj) && a < c < b <= |adj| && Lists(ls, adj, Interval(a, c)) && Lists(rs, adj, Interval(c, b))
    ensures ListsSplits(Product(Interval(a, b), ls, rs), adj, Interval(a, b), iset{Interval(a, c)})
  {
    ProductMembers(Interval(a, b), ls, rs);
    forall p: Plan | p.Node? && p.tables == Interval(a, b)
      ensures p.left in ls && p.right in rs <==> Wanted(adj, Interval(a, b), p) && p.left.tables == Interval(a, c)
    {
      PlansAtCut(adj, a, c, b, p);
    }
  }

  /** A stretch of the chain has Catalan many plans. */
  lemma {:induction false} PlansOfStretch(adj: seq<set<nat>>, a: nat, b: nat) returns (ps: seq<Plan>)
    requires IsChain(adj) && a < b <= |adj|
    ensures Lists(ps, adj, Interval(a, b)) && |ps| == Catalan(b - a - 1)
    decreases b - a, b - a
  {
    if b == a + 1 {
      ps := [Leaf({a}, a)];
      OneTable(adj, a);
      assert Interval(a, b) == {a};
    } else {
      ps := PlansUpTo(adj, a, b, b - 1);
      AllCuts(adj, a, b, ps);
    }
  }

  lemma AllCuts(adj: seq<set<nat>>, a: nat, b: nat, ps: seq<Plan>)
    requires IsChain(adj) && a + 1 < b <= |adj| && ListsSplits(ps, adj, Interval(a, b), Cuts(a, b - 1))
    ensures Lists(ps, adj, Interval(a, b))
  {
    forall p | Wanted(adj, Interval(a, b), p) ensures p.Node? && p.left.tables in Cuts(a, b - 1) {
      assert a in Interval(a, b) && a + 1 in Interval(a, b);
      var c := LeftIsFirst(adj, a, b, p);
    }
  }

  /** Two lists of the same wanted plans are equally long. */
  lemma ListsAgree(ps: seq<Plan>, qs: seq<Plan>, adj: seq<set<nat>>, ts: set<nat>)
    requires Lists(ps, adj, ts) && Lists(qs, adj, ts)
    ensures |ps| == |qs|
  {
    SameMembers(ps, qs);
    assert |multiset(ps)| == |multiset(qs)|;
  }

  ghost predicate ChainEdges(edges: seq<(nat, nat)>, n: nat) {
    |edges| == n - 1 && forall k :: 0 <= k < |edges| ==> edges[k] == (k, k + 1)
  }

  lemma ChainGraph(adj: seq<set<nat>>, edges: seq<(nat, nat)>, n: nat)
    requires n >= 1 && ChainEdges(edges, n) && AdjacencyOf(adj, edges, n)
    ensures IsChain(adj)
  {
    EdgesBothWays(adj, edges, n);
    forall i: nat, j: nat | i < n && j < n ensures Edge(edges, i, j) <==> j == i + 1 || i == j + 1 {
      if j == i + 1 {
        assert edges[i] == (i, j);
      }
      if i == j + 1 {
        assert edges[j] == (j, i);
      }
    }
  }

  /** The enumeration of a chain of n tables is Catalan(n - 1) long. */
  lemma ChainHasCatalan(ps: seq<Plan>, adj: seq<set<nat>>, edges: seq<(nat, nat)>, n: nat, ts: set<nat>)
    requires n >= 1 && ChainEdges(edges, n) && AdjacencyOf(adj, edges, n) && IsAllTables(ts, n) && Lists(ps, adj, ts)
    ensures |ps| == Catalan(n - 1)
  {
    ChainGraph(adj, edges, n);
    var qs := PlansOfStretch(adj, 0, n);
    assert ts == Interval(0, n);
    ListsAgree(ps, qs, adj, ts);
  }
}
