/** The enumeration as a whole: its answer for a query, and one plan of every class under swapping children. */
module PlanEnumeration {
  import opened PlanGraph
  import opened Planner

  // ---- The join graph of a query ----

  ghost predicate EdgesWithin(edges: seq<(nat, nat)>, n: nat) {
    forall k :: 0 <= k < |edges| ==> edges[k].0 < n && edges[k].1 < n
  }

  /** i and j are the ends of one of the edges. */
  ghost predicate Edge(edges: seq<(nat, nat)>, i: nat, j: nat) {
    exists k :: 0 <= k < |edges| && (edges[k] == (i, j) || edges[k] == (j, i))
  }

  ghost predicate AdjacencyOf(adj: seq<set<nat>>, edges: seq<(nat, nat)>, n: nat) {
    && |adj| == n && (forall i, j :: 0 <= i < n && j in adj[i] ==> j < n)
    && forall i: nat, j: nat :: i < n && j < n ==> (j in adj[i] <==> Edge(edges, i, j))
  }

  lemma EdgeSnoc(edges: seq<(nat, nat)>, e: (nat, nat), i: nat, j: nat)
    ensures Edge(edges + [e], i, j) <==> Edge(edges, i, j) || e == (i, j) || e == (j, i)
  {
    if Edge(edges, i, j) {
      var k :| 0 <= k < |edges| && (edges[k] == (i, j) || edges[k] == (j, i));
      assert (edges + [e])[k] == edges[k];
    }
    assert (edges + [e])[|edges|] == e;
  }

  /** adj[i].add(j); adj[j].add(i). */
  method AddEdge(adj: seq<set<nat>>, e: (nat, nat), n: nat, ghost edges: seq<(nat, nat)>) returns (r: seq<set<nat>>)
    requires AdjacencyOf(adj, edges, n) && e.0 < n && e.1 < n
    ensures AdjacencyOf(r, edges + [e], n)
  {
    var half := adj[e.0 := adj[e.0] + {e.1}];
    r := half[e.1 := half[e.1] + {e.0}];
    forall i: nat, j: nat | i < n && j < n ensures j in r[i] <==> Edge(edges + [e], i, j) {
      EdgeSnoc(edges, e, i, j);
    }
  }

  method Adjacency(n: nat, edges: seq<(nat, nat)>) returns (adj: seq<set<nat>>)
    requires EdgesWithin(edges, n)
    ensures AdjacencyOf(adj, edges, n)
  {
    adj := seq(n, _ => {});
    for k := 0 to |edges|
      invariant AdjacencyOf(adj, edges[..k], n)
    {
      adj := AddEdge(adj, edges[k], n, edges[..k]);
      assert edges[..k + 1] == edges[..k] + [edges[k]];
    }
    assert edges[..|edges|] == edges;
  }

  lemma EdgesBothWays(adj: seq<set<nat>>, edges: seq<(nat, nat)>, n: nat)
    requires AdjacencyOf(adj, edges, n)
    ensures Symmetric(adj)
  {
    forall i, j | 0 <= i < |adj| && 0 <= j < |adj| ensures j in adj[i] <==> i in adj[j] {
      assert Edge(edges, i, j) <==> Edge(edges, j, i);
    }
  }

  // ---- The enumeration ----

  datatype Enumeration = Plans(plans: seq<Plan>) | Disconnected | TooMany(count: nat)

  /** frozenset(range(n)). */
  method AllTables(n: nat) returns (ts: set<nat>)
    ensures forall x: nat :: x in ts <==> x < n
  {
    ts := {};
    for i := 0 to n
      invariant forall x: nat :: x in ts <==> x < i
    {
      ts := ts + {i};
    }
  }

  ghost predicate IsAllTables(ts: set<nat>, n: nat) {
    forall x: nat :: x in ts <==> x < n
  }

  /** The answers: all wanted plans once each, a graph that some split tears, or more plans than allowed. */
  ghost predicate Answers(r: Enumeration, adj: seq<set<nat>>, ts: set<nat>, maxPlans: nat)
    requires Known(adj, ts)
  {
    match r
    case Plans(ps) => Connected(adj, ts) && Lists(ps, adj, ts) && |ps| <= maxPlans
    case Disconnected => !Connected(adj, ts)
    case TooMany(count) => Connected(adj, ts) && count > maxPlans && exists ps :: Lists(ps, adj, ts) && |ps| == count
  }

  /** enumerate_plans. */
  method EnumeratePlans(n: nat, edges: seq<(nat, nat)>, maxPlans: nat) returns (r: Enumeration, ghost adj: seq<set<nat>>, ghost ts: set<nat>)
    requires EdgesWithin(edges, n)
    ensures AdjacencyOf(adj, edges, n) && Symmetric(adj) && IsAllTables(ts, n) && Known(adj, ts)
    ensures Answers(r, adj, ts, maxPlans) && (r.Plans? ==> r.plans != [])
  {
    var neighbours := Adjacency(n, edges);
    EdgesBothWays(neighbours, edges, n);
    var all := AllTables(n);
    adj, ts := neighbours, all;
    var connected := IsConnected(neighbours, all);
    if !connected {
      return Disconnected, adj, ts;
    }
    var plans := Build(neighbours, all);
    SomeListed(plans, neighbours, all);
    r := if |plans| > maxPlans then TooMany(|plans|) else Plans(plans);
  }

  /** A plan of some of the tables grows table by table along the edges that connectivity provides. */
  lemma GrowPlan(adj: seq<set<nat>>, ts: set<nat>, seen: set<nat>, q: Plan) returns (p: Plan)
    requires Symmetric(adj) && Known(adj, ts) && Connected(adj, ts) && seen <= ts && IsPlan(adj, q) && q.tables == seen && seen != {}
    ensures IsPlan(adj, p) && p.tables == ts
    decreases |ts - seen|
  {
    if seen == ts {
      p := q;
    } else {
      assert Joinable(adj, seen, ts - seen);
      var i, j :| i in seen && j in ts - seen && j in adj[i];
      var now := seen + {j};
      Shrinks(ts, seen, now);
      assert i in seen && j in {j} && j in adj[i];
      p := GrowPlan(adj, ts, now, Node(now, q, Leaf({j}, j)));
    }
  }

  /** A connected query has a plan. */
  lemma SomePlan(adj: seq<set<nat>>, ts: set<nat>) returns (p: Plan)
    requires Symmetric(adj) && Known(adj, ts) && Connected(adj, ts)
    ensures IsPlan(adj, p) && p.tables == ts
  {
    var x :| x in ts;
    p := GrowPlan(adj, ts, {x}, Leaf({x}, x));
  }

  // ---- Up to swapping children ----

  /** p and q differ by swapping children of joins. */
  ghost predicate Same(p: Plan, q: Plan) {
    match (p, q)
    case (Leaf(s, i), Leaf(t, j)) => s == t && i == j
    case (Node(s, a, b), Node(t, c, d)) => s == t && ((Same(a, c) && Same(b, d)) || (Same(a, d) && Same(b, c)))
    case _ => false
  }

  lemma SameTables(p: Plan, q: Plan)
    requires Same(p, q)
    ensures p.tables == q.tables
  {
  }

  lemma LeastUnique(a: set<nat>, b: set<nat>, ts: set<nat>)
    requires HasLeast(a, ts) && HasLeast(b, ts)
    ensures a * b != {}
  {
    var m :| m in a && m in ts && forall x :: x in ts ==> m <= x;
    var k :| k in b && k in ts && forall x :: x in ts ==> k <= x;
    assert m in a * b;
  }

  /** No two wanted plans are the same up to swapping. */
  lemma {:induction false} CanonicalUnique(adj: seq<set<nat>>, p: Plan, q: Plan)
    requires IsPlan(adj, p) && IsPlan(adj, q) && Canonical(p) && Canonical(q) && Same(p, q)
    ensures p == q
  {
    if p.Node? {
      if Same(p.left, q.left) && Same(p.right, q.right) {
        CanonicalUnique(adj, p.left, q.left);
        CanonicalUnique(adj, p.right, q.right);
      } else {
        SameTables(p.left, q.right);
        LeastUnique(p.left.tables, q.left.tables, p.tables);
        assert false;
      }
    }
  }

  lemma LeastIn(ts: set<nat>) returns (m: nat)
    requires ts != {}
    ensures m in ts && forall x :: x in ts ==> m <= x
    decreases |ts|
  {
    var x :| x in ts;
    m := x;
    if ts != {x} {
      var k := LeastIn(ts - {x});
      m := if k < x then k else x;
    }
    forall y | y in ts ensures m <= y {
      assert y == x || y in ts - {x};
    }
  }

  /** Every plan is the same as a wanted one. */
  lemma {:induction false} CanonicalExists(adj: seq<set<nat>>, p: Plan) returns (q: Plan)
    requires Symmetric(adj) && IsPlan(adj, p)
    ensures Same(p, q) && Wanted(adj, p.tables, q)
  {
    if p.Leaf? {
      q := p;
    } else {
      var l := CanonicalExists(adj, p.left);
      var r := CanonicalExists(adj, p.right);
      PlanNotEmpty(adj, p);
      var m := LeastIn(p.tables);
      if m in p.left.tables {
        q := Node(p.tables, l, r);
        assert HasLeast(l.tables, p.tables);
      } else {
        q := Node(p.tables, r, l);
        JoinableBack(adj, p.left.tables, p.right.tables);
        assert HasLeast(r.tables, p.tables);
      }
    }
  }

  /** The list holds exactly one plan of every class, and nothing that is not a plan of all tables. */
  lemma OneOfEachClass(ps: seq<Plan>, adj: seq<set<nat>>, ts: set<nat>, p: Plan)
    requires Symmetric(adj) && Lists(ps, adj, ts)
    ensures (exists k :: 0 <= k < |ps| && Same(p, ps[k])) <== IsPlan(adj, p) && p.tables == ts
    ensures forall k :: 0 <= k < |ps| ==> IsPlan(adj, ps[k]) && ps[k].tables == ts
    ensures forall j, k :: 0 <= j < k < |ps| ==> !Same(ps[j], ps[k])
  {
    forall k | 0 <= k < |ps| ensures Wanted(adj, ts, ps[k]) {
      assert ps[k] in ps;
    }
    forall j, k | 0 <= j < k < |ps| ensures !Same(ps[j], ps[k]) {
      if Same(ps[j], ps[k]) {
        CanonicalUnique(adj, ps[j], ps[k]);
        assert false;
      }
    }
    if IsPlan(adj, p) && p.tables == ts {
      var q := CanonicalExists(adj, p);
      assert q in ps;
    }
  }

  /** The list of a connected query is not empty. */
  lemma SomeListed(ps: seq<Plan>, adj: seq<set<nat>>, ts: set<nat>)
    requires Symmetric(adj) && Known(adj, ts) && Connected(adj, ts) && Lists(ps, adj, ts)
    ensures ps != []
  {
    var p := SomePlan(adj, ts);
    OneOfEachClass(ps, adj, ts, p);
  }
}
