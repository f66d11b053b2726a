/** Connected sets of tables in a join graph. */
module PlanGraph {
  import opened Totals

  /** The two ends of every edge list each other. */
  ghost predicate Symmetric(adj: seq<set<nat>>) {
    && (forall i, j :: 0 <= i < |adj| && j in adj[i] ==> j < |adj|)
    && (forall i, j :: 0 <= i < |adj| && 0 <= j < |adj| ==> (j in adj[i] <==> i in adj[j]))
  }

  ghost predicate Known(adj: seq<set<nat>>, ts: set<nat>) {
    forall i :: i in ts ==> i < |adj|
  }

  /** Some edge leads from a to b. */
  ghost predicate Joinable(adj: seq<set<nat>>, a: set<nat>, b: set<nat>)
    requires Known(adj, a)
  {
    exists i, j :: i in a && j in b && j in adj[i]
  }

  /** However the tables are split in two, an edge joins the halves. */
  ghost predicate Connected(adj: seq<set<nat>>, ts: set<nat>)
    requires Known(adj, ts)
  {
    ts != {} && forall s: set<nat> :: s <= ts && s != {} && s != ts ==> Joinable(adj, s, ts - s)
  }

  lemma JoinableBack(adj: seq<set<nat>>, a: set<nat>, b: set<nat>)
    requires Symmetric(adj) && Known(adj, a) && Known(adj, b) && Joinable(adj, a, b)
    ensures Joinable(adj, b, a)
  {
    var i, j :| i in a && j in b && j in adj[i];
    assert i in adj[j];
  }

  lemma JoinableMore(adj: seq<set<nat>>, a: set<nat>, b: set<nat>, c: set<nat>, d: set<nat>)
    requires Known(adj, c) && a <= c && b <= d && Joinable(adj, a, b)
    ensures Joinable(adj, c, d)
  {
    var i, j :| i in a && j in b && j in adj[i];
    assert i in c && j in d;
  }

  lemma OneConnected(adj: seq<set<nat>>, i: nat)
    requires i < |adj|
    ensures Connected(adj, {i})
  {
    forall s: set<nat> | s <= {i} ensures s == {} || s == {i} {
      if i in s {
        assert s == {i};
      } else {
        assert s == {};
      }
    }
  }

  /** Two connected sets with an edge between them are one connected set. */
  lemma UnionConnected(adj: seq<set<nat>>, a: set<nat>, b: set<nat>)
    requires Symmetric(adj) && Known(adj, a + b) && Connected(adj, a) && Connected(adj, b) && Joinable(adj, a, b)
    ensures Connected(adj, a + b)
  {
    forall s: set<nat> | s <= a + b && s != {} && s != a + b ensures Joinable(adj, s, a + b - s) {
      CutCrossed(adj, a, b, s);
    }
  }

  lemma CutCrossed(adj: seq<set<nat>>, a: set<nat>, b: set<nat>, s: set<nat>)
    requires Symmetric(adj) && Known(adj, a + b) && Connected(adj, a) && Connected(adj, b) && Joinable(adj, a, b)
    requires s <= a + b && s != {} && s != a + b
    ensures Joinable(adj, s, a + b - s)
  {
    var sa, sb := s * a, s * b;
    assert s == sa + sb;
    if sa != {} && sa != a {
      JoinableMore(adj, sa, a - sa, s, a + b - s);
    } else if sb != {} && sb != b {
      JoinableMore(adj, sb, b - sb, s, a + b - s);
    } else if sa == a {
      assert sb != b && b <= a + b - s;
      JoinableMore(adj, a, b, s, a + b - s);
    } else {
      assert b <= s && a <= a + b - s;
      JoinableBack(adj, a, b);
      JoinableMore(adj, b, a, s, a + b - s);
    }
  }

  // ---- Depth-first search ----

  /** All edges out of the finished tables of ts stay within seen. */
  ghost predicate Explored(adj: seq<set<nat>>, ts: set<nat>, seen: set<nat>, open: set<nat>)
    requires Known(adj, ts)
  {
    forall u, v :: u in seen - open && u in ts && v in adj[u] && v in ts ==> v in seen
  }

  lemma MembersSnoc(stack: seq<nat>, v: nat)
    ensures Members(stack + [v]) == Members(stack) + {v}
  {
  }

  /** The neighbours of u in ts that are not seen yet, pushed. */
  method PushNeighbours(adj: seq<set<nat>>, ts: set<nat>, u: nat, stack: seq<nat>, seen: set<nat>) returns (next: seq<nat>, now: set<nat>)
    requires Symmetric(adj) && Known(adj, ts) && u in ts && u in seen && seen <= ts && Connected(adj, seen)
    ensures seen <= now <= ts && Connected(adj, now) && adj[u] * ts <= now
    ensures Members(next) == Members(stack) + (now - seen)
    ensures now == seen ==> next == stack
  {
    next, now := stack, seen;
    var rest := adj[u];
    while rest != {}
      invariant rest <= adj[u] && seen <= now <= ts && Connected(adj, now) && (adj[u] - rest) * ts <= now
      invariant Members(next) == Members(stack) + (now - seen)
      invariant now == seen ==> next == stack
    {
      var v :| v in rest;
      rest := rest - {v};
      if v in ts && v !in now {
        OneConnected(adj, v);
        assert u in now && v in {v} && v in adj[u];
        UnionConnected(adj, now, {v});
        MembersSnoc(next, v);
        next, now := next + [v], now + {v};
      }
    }
  }

  /** connected: the search from any member reaches all of them. */
  method IsConnected(adj: seq<set<nat>>, ts: set<nat>) returns (r: bool)
    requires Symmetric(adj) && Known(adj, ts)
    ensures r <==> Connected(adj, ts)
  {
    if ts == {} {
      return false;
    }
    var s :| s in ts;
    OneConnected(adj, s);
    var seen, stack := {s}, [s];
    while stack != []
      invariant seen <= ts && Connected(adj, seen) && Members(stack) <= seen && Explored(adj, ts, seen, Members(stack))
      decreases |ts - seen|, |stack|
    {
      var u := stack[|stack| - 1];
      assert u in Members(stack);
      var below := stack[..|stack| - 1];
      assert Members(stack) == Members(below) + {u};
      var next, now := PushNeighbours(adj, ts, u, below, seen);
      Shrinks(ts, seen, now);
      stack, seen := next, now;
    }
    SearchDone(adj, ts, seen);
    r := seen == ts;
  }

  lemma Shrinks(ts: set<nat>, seen: set<nat>, now: set<nat>)
    requires seen <= now <= ts
    ensures now != seen ==> |ts - now| < |ts - seen|
  {
    assert ts - now == (ts - seen) - (now - seen);
  }

  lemma SearchDone(adj: seq<set<nat>>, ts: set<nat>, seen: set<nat>)
    requires Known(adj, ts) && seen <= ts && Connected(adj, seen) && Explored(adj, ts, seen, {})
    ensures seen == ts <==> Connected(adj, ts)
  {
    if seen != ts {
      assert !Joinable(adj, seen, ts - seen);
    } else {
      assert Connected(adj, ts);
    }
  }
}
