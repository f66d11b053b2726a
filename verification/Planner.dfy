/** enumerate_plans: every connected binary plan of a query, once up to swapping children. */
module Planner {
  import opened Totals
  import opened Waksman
  import opened PlanGraph

  /** A binary plan; every node knows the tables below it. */
  datatype Plan =
    | Leaf(tables: set<nat>, tableIdx: nat)
    | Node(tables: set<nat>, left: Plan, right: Plan)

  /** Every table once, and every join along some edge. */
  ghost predicate IsPlan(adj: seq<set<nat>>, p: Plan) {
    match p
    case Leaf(ts, i) => ts == {i} && i < |adj|
    case Node(ts, l, r) => IsPlan(adj, l) && IsPlan(adj, r) && Split(adj, ts, l.tables, r.tables)
  }

  ghost predicate Split(adj: seq<set<nat>>, ts: set<nat>, a: set<nat>, b: set<nat>) {
    ts == a + b && a !! b && Known(adj, ts) && Joinable(adj, a, b)
  }

  lemma PlanConnected(adj: seq<set<nat>>, p: Plan)
    requires Symmetric(adj) && IsPlan(adj, p)
    ensures Known(adj, p.tables) && Connected(adj, p.tables)
  {
    match p
    case Leaf(ts, i) => OneConnected(adj, i);
    case Node(ts, l, r) =>
      PlanConnected(adj, l);
      PlanConnected(adj, r);
      UnionConnected(adj, l.tables, r.tables);
  }

  ghost predicate HasLeast(a: set<nat>, ts: set<nat>) {
    exists m :: m in a && m in ts && forall x :: x in ts ==> m <= x
  }

  /** The smallest table of every join is on its left. */
  ghost predicate Canonical(p: Plan) {
    match p
    case Leaf(ts, i) => true
    case Node(ts, l, r) => HasLeast(l.tables, ts) && Canonical(l) && Canonical(r)
  }

  // ---- Subsets by mask ----

  /** The elements whose bits are set. */
  function Chosen(rest: seq<nat>, mask: nat): set<nat> {
    if rest == [] then {} else (if mask % 2 == 1 then {rest[0]} else {}) + Chosen(rest[1..], mask / 2)
  }

  lemma {:induction false} ChosenMembers(rest: seq<nat>, mask: nat)
    ensures Chosen(rest, mask) <= Members(rest)
  {
    if rest != [] {
      ChosenMembers(rest[1..], mask / 2);
    }
  }

  lemma {:induction false} ChosenOnto(rest: seq<nat>, s: set<nat>) returns (mask: nat)
    requires s <= Members(rest) && NoRepeats(rest)
    ensures mask < Pow2(|rest|) && Chosen(rest, mask) == s
  {
    mask := 0;
    if rest != [] {
      var m := ChosenOnto(rest[1..], s - {rest[0]});
      mask := if rest[0] in s then 2 * m + 1 else 2 * m;
      assert Pow2(|rest|) == 2 * Pow2(|rest| - 1);
    }
  }

  lemma {:induction false} ChosenInjective(rest: seq<nat>, m: nat, n: nat)
    requires NoRepeats(rest) && m < Pow2(|rest|) && n < Pow2(|rest|) && Chosen(rest, m) == Chosen(rest, n)
    ensures m == n
  {
    if rest != [] {
      ChosenMembers(rest[1..], m / 2);
      ChosenMembers(rest[1..], n / 2);
      assert rest[0] !in Members(rest[1..]);
      assert rest[0] in Chosen(rest, m) <==> m % 2 == 1;
      assert rest[0] in Chosen(rest, n) <==> n % 2 == 1;
      assert Chosen(rest[1..], m / 2) == Chosen(rest, m) - {rest[0]} == Chosen(rest, n) - {rest[0]} == Chosen(rest[1..], n / 2);
      assert Pow2(|rest|) == 2 * Pow2(|rest| - 1);
      ChosenInjective(rest[1..], m / 2, n / 2);
    }
  }

  // ---- Sorted members ----

  method Least(ts: set<nat>) returns (m: nat)
    requires ts != {}
    ensures m in ts && forall x :: x in ts ==> m <= x
  {
    m :| m in ts;
    var rest := ts - {m};
    while rest != {}
      invariant m in ts && rest <= ts && forall x :: x in ts && x !in rest ==> m <= x
    {
      var x :| x in rest;
      rest := rest - {x};
      if x < m {
        m := x;
      }
    }
  }

  ghost predicate Ascending(s: seq<nat>) {
    forall i, j :: 0 <= i < j < |s| ==> s[i] < s[j]
  }

  /** sorted(ts). */
  method SortedMembers(ts: set<nat>) returns (s: seq<nat>)
    ensures Ascending(s) && Members(s) == ts
  {
    s := [];
    var rest := ts;
    while rest != {}
      invariant Ascending(s) && rest <= ts && Members(s) == ts - rest
      invariant forall x, y :: x in s && y in rest ==> x < y
    {
      var m := Least(rest);
      MembersSnoc(s, m);
      forall i | 0 <= i < |s| ensures s[i] < m {
        assert s[i] in s;
      }
      s, rest := s + [m], rest - {m};
    }
  }

  // ---- Building plans ----

  /** What plans of ts are wanted. */
  ghost predicate Wanted(adj: seq<set<nat>>, ts: set<nat>, p: Plan) {
    p.tables == ts && IsPlan(adj, p) && Canonical(p)
  }

  /** ps lists the plans that are wanted, each once. */
  ghost predicate Lists(ps: seq<Plan>, adj: seq<set<nat>>, ts: set<nat>) {
    NoRepeats(ps) && forall p :: p in ps <==> Wanted(adj, ts, p)
  }

  /** ps lists those among them whose left child covers one of the given sets. */
  ghost predicate ListsSplits(ps: seq<Plan>, adj: seq<set<nat>>, ts: set<nat>, subs: iset<set<nat>>) {
    NoRepeats(ps) && forall p :: p in ps <==> Wanted(adj, ts, p) && p.Node? && p.left.tables in subs
  }

  /** Every pair of a left and a right plan. */
  method Pairs(ts: set<nat>, ls: seq<Plan>, rs: seq<Plan>) returns (ps: seq<Plan>)
    requires NoRepeats(ls) && NoRepeats(rs)
    ensures NoRepeats(ps) && forall p :: p in ps <==> p.Node? && p.tables == ts && p.left in ls && p.right in rs
  {
    ps := [];
    for i := 0 to |ls|
      invariant NoRepeats(ps) && forall p :: p in ps <==> p.Node? && p.tables == ts && p.left in ls[..i] && p.right in rs
    {
      var with := PairsWith(ts, ls[i], rs);
      assert ls[..i + 1] == ls[..i] + [ls[i]];
      assert ls[i] !in ls[..i];
      NoRepeatsConcat(ps, with);
      ps := ps + with;
    }
    assert ls[..|ls|] == ls;
  }

  method PairsWith(ts: set<nat>, l: Plan, rs: seq<Plan>) returns (ps: seq<Plan>)
    requires NoRepeats(rs)
    ensures NoRepeats(ps) && forall p :: p in ps <==> p.Node? && p.tables == ts && p.left == l && p.right in rs
  {
    ps := [];
    for j := 0 to |rs|
      invariant NoRepeats(ps) && forall p :: p in ps <==> p.Node? && p.tables == ts && p.left == l && p.right in rs[..j]
    {
      assert rs[..j + 1] == rs[..j] + [rs[j]];
      assert rs[j] !in rs[..j];
      NoRepeatsConcat(ps, [Node(ts, l, rs[j])]);
      ps := ps + [Node(ts, l, rs[j])];
    }
    assert rs[..|rs|] == rs;
  }

  lemma PlanNotEmpty(adj: seq<set<nat>>, p: Plan)
    requires IsPlan(adj, p)
    ensures p.tables != {}
  {
    match p
    case Leaf(ts, i) =>
    case Node(ts, l, r) => PlanNotEmpty(adj, l);
  }

  /** A wanted plan's left child leaves a connected rest, joinable with it: the tests on a split lose nothing. */
  lemma SplitOfPlan(adj: seq<set<nat>>, ts: set<nat>, p: Plan)
    requires Symmetric(adj) && Wanted(adj, ts, p) && p.Node?
    ensures Known(adj, ts) && p.left.tables <= ts && p.right.tables == ts - p.left.tables && ts - p.left.tables != {}
    ensures Connected(adj, p.left.tables) && Connected(adj, ts - p.left.tables) && Joinable(adj, p.left.tables, ts - p.left.tables)
    ensures Wanted(adj, p.left.tables, p.left) && Wanted(adj, ts - p.left.tables, p.right)
  {
    PlanConnected(adj, p.left);
    PlanConnected(adj, p.right);
    PlanNotEmpty(adj, p.right);
    assert p.right.tables == ts - p.left.tables;
  }

  /** Plans of both halves of a split make wanted plans. */
  lemma PlanOfSplit(adj: seq<set<nat>>, ts: set<nat>, sub: set<nat>, p: Plan)
    requires Known(adj, ts) && sub <= ts && HasLeast(sub, ts) && Joinable(adj, sub, ts - sub)
    requires p.Node? && p.tables == ts && Wanted(adj, sub, p.left) && Wanted(adj, ts - sub, p.right)
    ensures Wanted(adj, ts, p)
  {
    assert ts == sub + (ts - sub);
  }

  /** The tests on one split, and the plans that it yields. */
  method PlansOfSplit(adj: seq<set<nat>>, ts: set<nat>, sub: set<nat>) returns (ps: seq<Plan>)
    requires Symmetric(adj) && Known(adj, ts) && sub <= ts && sub != {} && HasLeast(sub, ts)
    ensures ListsSplits(ps, adj, ts, iset{sub})
    decreases |ts|, 0, 0
  {
    var comp := ts - sub;
    forall p | Wanted(adj, ts, p) && p.Node? && p.left.tables == sub
      ensures comp != {} && Connected(adj, sub) && Connected(adj, comp) && Joinable(adj, sub, comp)
      ensures Wanted(adj, sub, p.left) && Wanted(adj, comp, p.right)
    {
      SplitOfPlan(adj, ts, p);
    }
    ps := [];
    if comp != {} {
      var subConnected := IsConnected(adj, sub);
      var compConnected := IsConnected(adj, comp);
      var joined := IsJoinable(adj, sub, comp);
      if subConnected && compConnected && joined {
        SmallerSets(ts, sub);
        var ls := Build(adj, sub);
        var rs := Build(adj, comp);
        ps := Pairs(ts, ls, rs);
        forall p | p in ps ensures Wanted(adj, ts, p) {
          PlanOfSplit(adj, ts, sub, p);
        }
      }
    }
  }

  lemma SmallerSets(ts: set<nat>, sub: set<nat>)
    requires sub <= ts && sub != {} && ts - sub != {}
    ensures |sub| < |ts| && |ts - sub| < |ts|
  {
    assert ts == sub + (ts - sub);
  }

  /** joinable: some edge leads from a to b. */
  method IsJoinable(adj: seq<set<nat>>, a: set<nat>, b: set<nat>) returns (r: bool)
    requires Known(adj, a)
    ensures r <==> Joinable(adj, a, b)
  {
    var rest := a;
    while rest != {}
      invariant rest <= a && forall i, j :: i in a && i !in rest && j in b ==> j !in adj[i]
    {
      var i :| i in rest;
      if adj[i] * b != {} {
        var j :| j in adj[i] * b;
        return true;
      }
      rest := rest - {i};
      assert forall j :: j in b && j in adj[i] ==> j in adj[i] * b;
    }
    r := false;
  }

  /** The left halves that the masks below n select. */
  ghost function Halves(first: nat, rest: seq<nat>, n: nat): iset<set<nat>> {
    iset m: nat | m < n :: {first} + Chosen(rest, m)
  }

  lemma NewHalf(first: nat, rest: seq<nat>, n: nat)
    requires NoRepeats(rest) && first !in Members(rest) && n < Pow2(|rest|)
    ensures {first} + Chosen(rest, n) !in Halves(first, rest, n)
    ensures Halves(first, rest, n + 1) == Halves(first, rest, n) + iset{{first} + Chosen(rest, n)}
  {
    forall m: nat | m < n ensures {first} + Chosen(rest, m) != {first} + Chosen(rest, n) {
      ChosenMembers(rest, m);
      ChosenMembers(rest, n);
      if {first} + Chosen(rest, m) == {first} + Chosen(rest, n) {
        assert Chosen(rest, m) == {first} + Chosen(rest, m) - {first} == Chosen(rest, n);
        ChosenInjective(rest, m, n);
      }
    }
  }

  /** Every half with the first member is selected. */
  lemma EveryHalf(first: nat, rest: seq<nat>, s: set<nat>)
    requires NoRepeats(rest) && first in s && s <= {first} + Members(rest)
    ensures s in Halves(first, rest, Pow2(|rest|))
  {
    var mask := ChosenOnto(rest, s - {first});
    assert s == {first} + Chosen(rest, mask);
  }

  lemma TwoTables(adj: seq<set<nat>>, p: Plan) returns (x: nat, y: nat)
    requires IsPlan(adj, p) && p.Node?
    ensures x in p.tables && y in p.tables && x != y
  {
    PlanNotEmpty(adj, p.left);
    PlanNotEmpty(adj, p.right);
    x :| x in p.left.tables;
    y :| y in p.right.tables;
  }

  lemma OneTable(adj: seq<set<nat>>, i: nat)
    requires i < |adj|
    ensures Lists([Leaf({i}, i)], adj, {i})
  {
    forall p | Wanted(adj, {i}, p) ensures p == Leaf({i}, i) {
      if p.Node? {
        var x, y := TwoTables(adj, p);
        assert false;
      }
    }
  }

  lemma MaskStep(out: seq<Plan>, ps: seq<Plan>, adj: seq<set<nat>>, ts: set<nat>, subs: iset<set<nat>>, sub: set<nat>)
    requires ListsSplits(out, adj, ts, subs) && ListsSplits(ps, adj, ts, iset{sub}) && sub !in subs
    ensures ListsSplits(out + ps, adj, ts, subs + iset{sub})
  {
    NoRepeatsConcat(out, ps);
  }

  /** The smallest member, then the others. */
  ghost predicate Ordered(ts: set<nat>, first: nat, rest: seq<nat>) {
    ts == {first} + Members(rest) && NoRepeats(rest) && first !in Members(rest) && forall x :: x in ts ==> first <= x
  }

  lemma SortedOrder(ts: set<nat>, s: seq<nat>)
    requires Ascending(s) && Members(s) == ts && s != []
    ensures Ordered(ts, s[0], s[1..])
  {
    assert s == [s[0]] + s[1..];
  }

  lemma AllSplits(out: seq<Plan>, adj: seq<set<nat>>, ts: set<nat>, first: nat, rest: seq<nat>)
    requires Symmetric(adj) && Ordered(ts, first, rest) && rest != []
    requires ListsSplits(out, adj, ts, Halves(first, rest, Pow2(|rest|)))
    ensures Lists(out, adj, ts)
  {
    forall p | Wanted(adj, ts, p) ensures p.Node? && p.left.tables in Halves(first, rest, Pow2(|rest|)) {
      assert first in ts && rest[0] in ts && first != rest[0];
      SplitOfPlan(adj, ts, p);
      EveryHalf(first, rest, p.left.tables);
    }
  }

  /** build: all wanted plans of a set of tables. */
  method Build(adj: seq<set<nat>>, ts: set<nat>) returns (out: seq<Plan>)
    requires Symmetric(adj) && Known(adj, ts) && ts != {}
    ensures Lists(out, adj, ts)
    decreases |ts|, 1, 1
  {
    var members := SortedMembers(ts);
    SortedOrder(ts, members);
    var first, rest := members[0], members[1..];
    if rest == [] {
      OneTable(adj, first);
      return [Leaf(ts, first)];
    }
    out := [];
    for mask := 0 to Pow2(|rest|)
      invariant ListsSplits(out, adj, ts, Halves(first, rest, mask))
    {
      out := AddSplit(adj, ts, first, rest, mask, out);
    }
    AllSplits(out, adj, ts, first, rest);
  }

  method AddSplit(adj: seq<set<nat>>, ts: set<nat>, first: nat, rest: seq<nat>, mask: nat, out: seq<Plan>) returns (now: seq<Plan>)
    requires Symmetric(adj) && Known(adj, ts) && Ordered(ts, first, rest) && mask < Pow2(|rest|)
    requires ListsSplits(out, adj, ts, Halves(first, rest, mask))
    ensures ListsSplits(now, adj, ts, Halves(first, rest, mask + 1))
    decreases |ts|, 1, 0
  {
    var sub := {first} + Chosen(rest, mask);
    ChosenMembers(rest, mask);
    assert first in sub;
    var ps := PlansOfSplit(adj, ts, sub);
    NewHalf(first, rest, mask);
    MaskStep(out, ps, adj, ts, Halves(first, rest, mask), sub);
    now := out + ps;
  }
}
