/** Connected graphs with one edge less than vertices: what hangs below an edge is a part of its own. */
module SpanningTree {
  import opened Totals

  ghost predicate Across(e: (int, int), a: set<int>, b: set<int>) {
    (e.0 in a && e.1 in b) || (e.1 in a && e.0 in b)
  }

  /** Some edge leads from a to b. */
  ghost predicate Crossed(ends: seq<(int, int)>, a: set<int>, b: set<int>) {
    exists k :: 0 <= k < |ends| && Across(ends[k], a, b)
  }

  /** However the vertices are split in two, an edge joins the halves. */
  ghost predicate Joined(ends: seq<(int, int)>, ts: set<int>) {
    ts != {} && forall s: set<int> :: s <= ts && s != {} && s != ts ==> Crossed(ends, s, ts - s)
  }

  /** Connected, with one edge less than vertices. */
  ghost predicate Spanning(ends: seq<(int, int)>, ts: set<int>) {
    Joined(ends, ts) && |ends| == |ts| - 1
  }

  // ---- Edges inside a set ----

  ghost predicate Within(e: (int, int), x: set<int>) {
    e.0 in x && e.1 in x
  }

  /** How many of the first n edges have both ends in x. */
  ghost function Inside(ends: seq<(int, int)>, x: set<int>, n: nat): nat
    requires n <= |ends|
  {
    if n == 0 then 0 else Inside(ends, x, n - 1) + if Within(ends[n - 1], x) then 1 else 0
  }

  lemma {:induction false} InsideBound(ends: seq<(int, int)>, x: set<int>, n: nat)
    requires n <= |ends|
    ensures Inside(ends, x, n) <= n
  {
    if n > 0 {
      InsideBound(ends, x, n - 1);
    }
  }

  /** Edges that are inside y but not inside x. */
  ghost predicate Gained(ends: seq<(int, int)>, x: set<int>, y: set<int>, k: int) {
    0 <= k < |ends| && Within(ends[k], y) && !Within(ends[k], x)
  }

  lemma {:induction false} InsideGrows(ends: seq<(int, int)>, x: set<int>, y: set<int>, j: int, k: int, n: nat)
    requires x <= y && n <= |ends|
    ensures Inside(ends, x, n) + (if 0 <= j < n && Gained(ends, x, y, j) then 1 else 0)
      + (if 0 <= k < n && k != j && Gained(ends, x, y, k) then 1 else 0) <= Inside(ends, y, n)
  {
    if n > 0 {
      InsideGrows(ends, x, y, j, k, n - 1);
    }
  }

  /** Growing x to ts along crossing edges gains an edge for every vertex. */
  lemma {:induction false} GrowAll(ends: seq<(int, int)>, ts: set<int>, x: set<int>)
    requires Joined(ends, ts) && x <= ts && x != {}
    ensures Inside(ends, x, |ends|) + |ts - x| <= Inside(ends, ts, |ends|)
    decreases |ts - x|
  {
    if x == ts {
      assert ts - x == {};
    } else {
      var k :| 0 <= k < |ends| && Across(ends[k], x, ts - x);
      var w := if ends[k].0 in x && ends[k].1 in ts - x then ends[k].1 else ends[k].0;
      var y := x + {w};
      assert ts - x == (ts - y) + {w};
      InsideGrows(ends, x, y, k, k, |ends|);
      GrowAll(ends, ts, y);
    }
  }

  lemma SplitSize(ts: set<int>, x: set<int>)
    requires x <= ts
    ensures |ts| == |x| + |ts - x|
  {
    assert ts == x + (ts - x);
  }

  /** A connected set has at least one edge less than vertices. */
  lemma JoinedEdges(ends: seq<(int, int)>, x: set<int>)
    requires Joined(ends, x)
    ensures |x| - 1 <= Inside(ends, x, |ends|)
  {
    var v := SomeMember(x);
    GrowAll(ends, x, {v});
    SplitSize(x, {v});
  }

  /** In a spanning tree every set has at most one edge less than vertices. */
  lemma Sparse(ends: seq<(int, int)>, ts: set<int>, x: set<int>)
    requires Spanning(ends, ts) && x <= ts && x != {}
    ensures Inside(ends, x, |ends|) <= |x| - 1
  {
    GrowAll(ends, ts, x);
    InsideBound(ends, ts, |ends|);
    SplitSize(ts, x);
  }

  // ---- Components ----

  lemma SingleJoined(ends: seq<(int, int)>, v: int)
    ensures Joined(ends, {v})
  {
    forall s: set<int> | s <= {v} ensures s == {} || s == {v} {
      if v in s {
        assert s == {v};
      } else {
        assert s == {};
      }
    }
  }

  lemma CrossedMore(ends: seq<(int, int)>, a: set<int>, b: set<int>, c: set<int>, d: set<int>)
    requires a <= c && b <= d && Crossed(ends, a, b)
    ensures Crossed(ends, c, d)
  {
    var k :| 0 <= k < |ends| && Across(ends[k], a, b);
    assert Across(ends[k], c, d);
  }

  lemma CrossedBack(ends: seq<(int, int)>, a: set<int>, b: set<int>)
    requires Crossed(ends, a, b)
    ensures Crossed(ends, b, a)
  {
    var k :| 0 <= k < |ends| && Across(ends[k], a, b);
    assert Across(ends[k], b, a);
  }

  /** A connected set with one more vertex at an edge. */
  lemma JoinedGrows(ends: seq<(int, int)>, x: set<int>, w: int)
    requires Joined(ends, x) && Crossed(ends, x, {w})
    ensures Joined(ends, x + {w})
  {
    var y := x + {w};
    if w in x {
      assert y == x;
    } else {
      forall s: set<int> | s <= y && s != {} && s != y ensures Crossed(ends, s, y - s) {
        CutWithNew(ends, x, w, s);
      }
    }
  }

  lemma CutWithNew(ends: seq<(int, int)>, x: set<int>, w: int, s: set<int>)
    requires Joined(ends, x) && Crossed(ends, x, {w}) && w !in x && s <= x + {w} && s != {} && s != x + {w}
    ensures Crossed(ends, s, x + {w} - s)
  {
    var sx := s - {w};
    if sx == {} {
      assert s == {w};
      CrossedBack(ends, x, {w});
      CrossedMore(ends, {w}, x, s, x + {w} - s);
    } else if sx == x {
      assert w !in s;
      CrossedMore(ends, x, {w}, s, x + {w} - s);
    } else {
      CrossedMore(ends, sx, x - sx, s, x + {w} - s);
    }
  }

  /** Everything in u that x reaches without leaving u. */
  lemma Component(ends: seq<(int, int)>, x: set<int>, u: set<int>) returns (r: set<int>)
    requires x <= u && Joined(ends, x)
    ensures x <= r <= u && Joined(ends, r) && !Crossed(ends, r, u - r)
    decreases |u - x|
  {
    if Crossed(ends, x, u - x) {
      var k :| 0 <= k < |ends| && Across(ends[k], x, u - x);
      var w := if ends[k].0 in x && ends[k].1 in u - x then ends[k].1 else ends[k].0;
      assert Across(ends[k], x, {w});
      JoinedGrows(ends, x, w);
      assert u - x == (u - (x + {w})) + {w};
      r := Component(ends, x + {w}, u);
    } else {
      r := x;
    }
  }

  // ---- Parts ----

  /** s is connected and leaves only by edges between v and p. */
  ghost predicate Part(ends: seq<(int, int)>, s: set<int>, v: int, p: int) {
    && v in s && p !in s && Joined(ends, s)
    && forall k :: 0 <= k < |ends| ==> LeavesAt(ends[k], s, v, p)
  }

  ghost predicate LeavesAt(e: (int, int), s: set<int>, v: int, p: int) {
    && (e.0 in s && e.1 !in s ==> e == (v, p))
    && (e.1 in s && e.0 !in s ==> e == (p, v))
  }

  /** r is what hangs below v at edge k. */
  ghost predicate Hangs(ends: seq<(int, int)>, s: set<int>, v: int, r: set<int>, k: nat) {
    && r <= s - {v} && Joined(ends, r) && !Crossed(ends, r, s - {v} - r)
    && k < |ends| && Across(ends[k], r, {v})
    && forall j :: 0 <= j < |ends| && Across(ends[j], r, {v}) ==> j == k
  }

  /** A second edge between r and v would close a cycle. */
  lemma OneEdge(ends: seq<(int, int)>, ts: set<int>, r: set<int>, v: int, j: nat, k: nat)
    requires Spanning(ends, ts) && r + {v} <= ts && v !in r && Joined(ends, r)
    requires j < |ends| && k < |ends| && Across(ends[j], r, {v}) && Across(ends[k], r, {v})
    ensures j == k
  {
    JoinedEdges(ends, r);
    InsideGrows(ends, r, r + {v}, j, k, |ends|);
    Sparse(ends, ts, r + {v});
    assert |r + {v}| == |r| + 1;
  }

  /** The part below v at edge k, which leads to w. */
  lemma PartBelow(ends: seq<(int, int)>, ts: set<int>, s: set<int>, v: int, p: int, k: nat, w: int) returns (r: set<int>)
    requires Spanning(ends, ts) && s <= ts && Part(ends, s, v, p) && k < |ends|
    requires (ends[k] == (v, w) || ends[k] == (w, v)) && w != p && w != v
    ensures w in r && Hangs(ends, s, v, r, k) && Part(ends, r, w, v)
  {
    assert LeavesAt(ends[k], s, v, p);
    SingleJoined(ends, w);
    r := Component(ends, {w}, s - {v});
    assert Across(ends[k], r, {v});
    forall j | 0 <= j < |ends| && Across(ends[j], r, {v}) ensures j == k {
      OneEdge(ends, ts, r, v, j, k);
    }
    forall j | 0 <= j < |ends| ensures LeavesAt(ends[j], r, w, v) {
      LeavesOnlyTo(ends, s, v, p, r, k, w, j);
    }
  }

  lemma LeavesOnlyTo(ends: seq<(int, int)>, s: set<int>, v: int, p: int, r: set<int>, k: nat, w: int, j: nat)
    requires Part(ends, s, v, p) && Hangs(ends, s, v, r, k) && w in r && j < |ends|
    requires ends[k] == (v, w) || ends[k] == (w, v)
    ensures LeavesAt(ends[j], r, w, v)
  {
    assert LeavesAt(ends[j], s, v, p);
    assert !Across(ends[j], r, s - {v} - r);
    assert Across(ends[j], r, {v}) ==> j == k;
  }

  /** Parts below different edges have nothing in common. */
  lemma PartsApart(ends: seq<(int, int)>, s: set<int>, v: int, r: set<int>, j: nat, q: set<int>, k: nat)
    requires Hangs(ends, s, v, r, j) && Hangs(ends, s, v, q, k) && j != k
    ensures r !! q
  {
    if r * q != {} {
      PartInside(ends, s, v, r, j, q, k);
      assert Across(ends[k], r, {v});
      assert false;
    }
  }

  lemma PartInside(ends: seq<(int, int)>, s: set<int>, v: int, r: set<int>, j: nat, q: set<int>, k: nat)
    requires Hangs(ends, s, v, r, j) && Hangs(ends, s, v, q, k) && r * q != {}
    ensures q <= r
  {
    var both := r * q;
    if both != q {
      assert Crossed(ends, both, q - both);
      CrossedMore(ends, both, q - both, r, s - {v} - r);
      assert false;
    }
  }

  /** The edges at v without the one to p. */
  ghost predicate LeadsDown(ends: seq<(int, int)>, v: int, p: int, k: int) {
    0 <= k < |ends| && ((ends[k].0 == v && ends[k].1 != p) || (ends[k].1 == v && ends[k].0 != p))
  }

  ghost predicate InPart(parts: seq<set<int>>, x: int) {
    exists i :: 0 <= i < |parts| && x in parts[i]
  }

  /** The parts below all edges that lead down from v. */
  ghost predicate AllParts(ends: seq<(int, int)>, s: set<int>, v: int, p: int, parts: seq<set<int>>, ks: seq<nat>) {
    && Part(ends, s, v, p) && |parts| == |ks|
    && (forall i :: 0 <= i < |ks| ==> Hangs(ends, s, v, parts[i], ks[i]))
    && (forall k: nat :: LeadsDown(ends, v, p, k) ==> k in ks)
  }

  /** v and the parts below its edges make up s. */
  lemma PartsCover(ends: seq<(int, int)>, s: set<int>, v: int, p: int, parts: seq<set<int>>, ks: seq<nat>, x: int)
    requires AllParts(ends, s, v, p, parts, ks) && x in s && x != v
    ensures InPart(parts, x)
  {
    var rest := set y | y in s && y != v && !InPart(parts, y);
    assert x in rest <==> !InPart(parts, x);
    if rest != {} {
      assert v in s - rest;
      assert Crossed(ends, rest, s - rest);
      var k :| 0 <= k < |ends| && Across(ends[k], rest, s - rest);
      EdgeToPart(ends, s, v, p, parts, ks, k, ends[k].0, ends[k].1);
      EdgeToPart(ends, s, v, p, parts, ks, k, ends[k].1, ends[k].0);
      assert false;
    }
  }

  /** An edge to v or into a part starts in a part. */
  lemma EdgeToPart(ends: seq<(int, int)>, s: set<int>, v: int, p: int, parts: seq<set<int>>, ks: seq<nat>, k: nat, a: int, b: int)
    requires AllParts(ends, s, v, p, parts, ks) && k < |ends| && (ends[k] == (a, b) || ends[k] == (b, a))
    ensures a in s && a != v && (b == v || InPart(parts, b)) ==> InPart(parts, a)
  {
    if a in s && a != v {
      if b == v {
        assert LeadsDown(ends, v, p, k);
        var i :| 0 <= i < |ks| && ks[i] == k;
        assert Hangs(ends, s, v, parts[i], ks[i]);
      } else if InPart(parts, b) {
        var i :| 0 <= i < |parts| && b in parts[i];
        StaysInPart(ends, s, v, parts[i], ks[i], k, a, b);
      }
    }
  }

  lemma StaysInPart(ends: seq<(int, int)>, s: set<int>, v: int, r: set<int>, j: nat, k: nat, a: int, b: int)
    requires Hangs(ends, s, v, r, j) && k < |ends| && (ends[k] == (a, b) || ends[k] == (b, a)) && b in r && a in s - {v}
    ensures a in r
  {
    assert !Across(ends[k], r, s - {v} - r);
  }
}
