/** Costs and payloads do not depend on the order of children, so the plan picked from the list is best among all plans. */
module PlanCost {
  import opened Totals
  import opened PlanGraph
  import opened Planner
  import opened PlanEnumeration

  // ---- Cost ----

  /** q is an input of some join of p. */
  ghost predicate IsInput(q: Plan, p: Plan) {
    p.Node? && (q == p.left || q == p.right || IsInput(q, p.left) || IsInput(q, p.right))
  }

  /** A join below the root makes the tables ts. */
  ghost predicate JoinBelow(p: Plan, ts: set<nat>) {
    exists q :: IsInput(q, p) && q.Node? && q.tables == ts
  }

  /** internal_nodes: the tables of every join, children first. */
  function Joins(p: Plan): seq<set<nat>> {
    match p
    case Leaf(ts, i) => []
    case Node(ts, l, r) => Joins(l) + Joins(r) + [ts]
  }

  /** The size of a join, unless it is the whole query. */
  ghost function Volume(card: set<nat> -> int, whole: set<nat>): set<nat> -> int {
    ts => if ts != whole then card(ts) else 0
  }

  ghost function CostOf(p: Plan, card: set<nat> -> int): int {
    Total(Joins(p), Volume(card, p.tables))
  }

  /** plan_cost. */
  method PlanCostOf(p: Plan, card: set<nat> -> int) returns (cost: int)
    ensures cost == CostOf(p, card)
  {
    var joins := Joins(p);
    cost := 0;
    assert joins[..0] == [];
    for k := 0 to |joins|
      invariant cost == Total(joins[..k], Volume(card, p.tables))
    {
      assert joins[..k + 1] == joins[..k] + [joins[k]];
      TotalSnoc(joins[..k], joins[k], Volume(card, p.tables));
      if joins[k] != p.tables {
        cost := cost + card(joins[k]);
      }
    }
    assert joins[..|joins|] == joins;
  }

  lemma {:induction false} SameJoins(p: Plan, q: Plan)
    requires Same(p, q)
    ensures multiset(Joins(p)) == multiset(Joins(q))
  {
    if p.Node? {
      if Same(p.left, q.left) && Same(p.right, q.right) {
        SameJoins(p.left, q.left);
        SameJoins(p.right, q.right);
      } else {
        SameJoins(p.left, q.right);
        SameJoins(p.right, q.left);
      }
    }
  }

  lemma SameCost(p: Plan, q: Plan, card: set<nat> -> int)
    requires Same(p, q)
    ensures CostOf(p, card) == CostOf(q, card)
  {
    SameTables(p, q);
    SameJoins(p, q);
    TotalPermutation(Joins(p), Joins(q), Volume(card, p.tables));
  }

  /** The listed joins are the plan itself and the joins below its root. */
  lemma {:induction false} JoinsListed(p: Plan, ts: set<nat>)
    ensures ts in Joins(p) <==> (p.Node? && p.tables == ts) || JoinBelow(p, ts)
  {
    if p.Node? {
      JoinsListed(p.left, ts);
      JoinsListed(p.right, ts);
      BelowEither(p, ts);
    }
  }

  lemma BelowEither(p: Plan, ts: set<nat>)
    requires p.Node?
    ensures JoinBelow(p, ts) <==> (p.left.Node? && p.left.tables == ts) || (p.right.Node? && p.right.tables == ts) || JoinBelow(p.left, ts) || JoinBelow(p.right, ts)
  {
    assert IsInput(p.left, p) && IsInput(p.right, p);
    if q :| IsInput(q, p.left) && q.Node? && q.tables == ts {
      assert IsInput(q, p);
    }
    if q :| IsInput(q, p.right) && q.Node? && q.tables == ts {
      assert IsInput(q, p);
    }
  }

  lemma {:induction false} JoinsInside(adj: seq<set<nat>>, p: Plan, ts: set<nat>)
    requires IsPlan(adj, p) && ts in Joins(p)
    ensures {} < ts <= p.tables
  {
    if ts == p.tables {
      PlanNotEmpty(adj, p);
    } else if p.Node? {
      if ts in Joins(p.left) {
        JoinsInside(adj, p.left, ts);
      } else {
        JoinsInside(adj, p.right, ts);
      }
    }
  }

  /** No two joins of a plan make the same tables. */
  lemma {:induction false} JoinsOnce(adj: seq<set<nat>>, p: Plan)
    requires IsPlan(adj, p)
    ensures NoRepeats(Joins(p))
  {
    if p.Node? {
      JoinsOnce(adj, p.left);
      JoinsOnce(adj, p.right);
      BothSidesOnce(adj, p);
      forall ts | ts in Joins(p.left) + Joins(p.right) ensures ts != p.tables {
        NeitherSideIsAll(adj, p, ts);
      }
      NoRepeatsConcat(Joins(p.left) + Joins(p.right), [p.tables]);
    }
  }

  lemma BothSidesOnce(adj: seq<set<nat>>, p: Plan)
    requires IsPlan(adj, p) && p.Node? && NoRepeats(Joins(p.left)) && NoRepeats(Joins(p.right))
    ensures NoRepeats(Joins(p.left) + Joins(p.right))
  {
    forall ts | ts in Joins(p.left) ensures ts !in Joins(p.right) {
      JoinsInside(adj, p.left, ts);
      var x :| x in ts;
      if ts in Joins(p.right) {
        JoinsInside(adj, p.right, ts);
        assert false;
      }
    }
    NoRepeatsConcat(Joins(p.left), Joins(p.right));
  }

  lemma NeitherSideIsAll(adj: seq<set<nat>>, p: Plan, ts: set<nat>)
    requires IsPlan(adj, p) && p.Node? && ts in Joins(p.left) + Joins(p.right)
    ensures ts != p.tables
  {
    PlanNotEmpty(adj, p.left);
    PlanNotEmpty(adj, p.right);
    var x, y :| x in p.left.tables && y in p.right.tables;
    if ts in Joins(p.left) {
      JoinsInside(adj, p.left, ts);
      assert y !in ts;
    } else {
      JoinsInside(adj, p.right, ts);
      assert x !in ts;
    }
  }

  /** Only the root is left out of the cost. */
  lemma OnlyRootIsFree(adj: seq<set<nat>>, p: Plan, card: set<nat> -> int)
    requires IsPlan(adj, p) && p.Node?
    ensures CostOf(p, card) == Total(Joins(p.left) + Joins(p.right), card)
  {
    var f, below := Volume(card, p.tables), Joins(p.left) + Joins(p.right);
    forall k | 0 <= k < |below| ensures f(below[k]) == card(below[k]) {
      NeitherSideIsAll(adj, p, below[k]);
    }
    TotalSnoc(below, p.tables, f);
    TotalExt(below, f, card);
  }

  /** js lists what the joins below the root of p make, each once. */
  ghost predicate ListsJoins(js: seq<set<nat>>, p: Plan) {
    NoRepeats(js) && forall ts :: ts in js <==> JoinBelow(p, ts)
  }

  lemma NoneListed(js: seq<set<nat>>, p: Plan)
    requires ListsJoins(js, p) && js != []
    ensures exists ts :: JoinBelow(p, ts)
  {
    assert js[0] in js;
  }

  /** The cost of a plan is the summed size of the joins below its root, each counted once. */
  lemma CostExactly(adj: seq<set<nat>>, p: Plan, card: set<nat> -> int, js: seq<set<nat>>)
    requires IsPlan(adj, p) && ListsJoins(js, p)
    ensures CostOf(p, card) == Total(js, card)
  {
    if p.Node? {
      var below := Joins(p.left) + Joins(p.right);
      OnlyRootIsFree(adj, p, card);
      JoinsOnce(adj, p.left);
      JoinsOnce(adj, p.right);
      BothSidesOnce(adj, p);
      forall ts ensures ts in js <==> ts in below {
        JoinsListed(p.left, ts);
        JoinsListed(p.right, ts);
        BelowEither(p, ts);
      }
      SameMembers(js, below);
      TotalPermutation(js, below, card);
    } else {
      if js != [] {
        NoneListed(js, p);
        assert false;
      }
    }
  }

  /** Plan k is the first of the cheapest among the first n. */
  ghost predicate FirstCheapest(ps: seq<Plan>, card: set<nat> -> int, k: nat, n: nat) {
    && k < n <= |ps|
    && (forall i :: 0 <= i < n ==> CostOf(ps[k], card) <= CostOf(ps[i], card))
    && (forall i :: 0 <= i < k ==> CostOf(ps[k], card) < CostOf(ps[i], card))
  }

  /** choose_plan in optimal mode: cheapest in the list, the first of several. */
  method Optimal(ps: seq<Plan>, card: set<nat> -> int, ghost adj: seq<set<nat>>, ghost ts: set<nat>) returns (best: Plan)
    requires ps != [] && Symmetric(adj) && Lists(ps, adj, ts)
    ensures IsPlan(adj, best) && best.tables == ts
    ensures forall p :: IsPlan(adj, p) && p.tables == ts ==> CostOf(best, card) <= CostOf(p, card)
    ensures exists k :: 0 <= k < |ps| && best == ps[k] && FirstCheapest(ps, card, k, |ps|)
  {
    best := ps[0];
    var least := PlanCostOf(best, card);
    ghost var at := 0;
    for k := 1 to |ps|
      invariant 0 <= at < k && best == ps[at] && least == CostOf(best, card) && FirstCheapest(ps, card, at, k)
    {
      var c := PlanCostOf(ps[k], card);
      if c < least {
        best, least := ps[k], c;
        at := k;
      }
    }
    CheapestOfAll(ps, card, at, adj, ts);
  }

  /** The cheapest in the list is cheapest of all plans. */
  lemma CheapestOfAll(ps: seq<Plan>, card: set<nat> -> int, k: nat, adj: seq<set<nat>>, ts: set<nat>)
    requires Symmetric(adj) && Lists(ps, adj, ts) && FirstCheapest(ps, card, k, |ps|)
    ensures IsPlan(adj, ps[k]) && ps[k].tables == ts
    ensures forall p :: IsPlan(adj, p) && p.tables == ts ==> CostOf(ps[k], card) <= CostOf(p, card)
  {
    OneOfEachClass(ps, adj, ts, ps[k]);
    forall p | IsPlan(adj, p) && p.tables == ts ensures CostOf(ps[k], card) <= CostOf(p, card) {
      OneOfEachClass(ps, adj, ts, p);
      var j :| 0 <= j < |ps| && Same(p, ps[j]);
      SameCost(p, ps[j], card);
    }
  }

  // ---- Payload ----

  /** Between the tables of a packed row. */
  const TABLE_DELIM: string := "||"

  /** node_width: the packed width of a plan's rows. */
  function NodeWidth(p: Plan, width: nat -> nat): nat {
    match p
    case Leaf(ts, i) => width(i)
    case Node(ts, l, r) => NodeWidth(l, width) + |TABLE_DELIM| + NodeWidth(r, width)
  }

  /** plan_max_payload: the widest input of any join. */
  function MaxPayload(p: Plan, width: nat -> nat): nat {
    match p
    case Leaf(ts, i) => 0
    case Node(ts, l, r) => Max(Max(NodeWidth(l, width), NodeWidth(r, width)), Max(MaxPayload(l, width), MaxPayload(r, width)))
  }

  function Max(x: nat, y: nat): nat {
    if x < y then y else x
  }

  /** The payload bounds every input, and is reached unless there is no join. */
  lemma {:induction false} PayloadIsWidest(p: Plan, width: nat -> nat)
    ensures forall q :: IsInput(q, p) ==> NodeWidth(q, width) <= MaxPayload(p, width)
    ensures p.Node? ==> exists q :: IsInput(q, p) && NodeWidth(q, width) == MaxPayload(p, width)
  {
    if p.Node? {
      PayloadIsWidest(p.left, width);
      PayloadIsWidest(p.right, width);
      assert IsInput(p.left, p) && IsInput(p.right, p);
      if MaxPayload(p, width) == MaxPayload(p.left, width) && p.left.Node? {
        var q :| IsInput(q, p.left) && NodeWidth(q, width) == MaxPayload(p.left, width);
        assert IsInput(q, p);
      } else if MaxPayload(p, width) == MaxPayload(p.right, width) && p.right.Node? {
        var q :| IsInput(q, p.right) && NodeWidth(q, width) == MaxPayload(p.right, width);
        assert IsInput(q, p);
      }
    }
  }

  lemma {:induction false} SamePayload(p: Plan, q: Plan, width: nat -> nat)
    requires Same(p, q)
    ensures NodeWidth(p, width) == NodeWidth(q, width) && MaxPayload(p, width) == MaxPayload(q, width)
  {
    if p.Node? {
      if Same(p.left, q.left) && Same(p.right, q.right) {
        SamePayload(p.left, q.left, width);
        SamePayload(p.right, q.right, width);
      } else {
        SamePayload(p.left, q.right, width);
        SamePayload(p.right, q.left, width);
      }
    }
  }

  // ---- Packed rows ----

  /** pack_row on the packed rows of the listed tables. */
  ghost function PackRow(ids: seq<nat>, row: nat -> string): string {
    if ids == [] then ""
    else if |ids| == 1 then row(ids[0])
    else PackRow(ids[..|ids| - 1], row) + TABLE_DELIM + row(ids[|ids| - 1])
  }

  ghost function RowWidth(row: nat -> string): nat -> int {
    (i: nat) => |row(i)|
  }

  lemma {:induction false} PackedLength(ids: seq<nat>, row: nat -> string)
    requires ids != []
    ensures |PackRow(ids, row)| == Total(ids, RowWidth(row)) + |TABLE_DELIM| * (|ids| - 1)
  {
    if |ids| == 1 {
      assert ids == [] + [ids[0]];
      TotalSnoc([], ids[0], RowWidth(row));
    } else {
      PackedLength(ids[..|ids| - 1], row);
    }
  }

  /** The tables at the leaves, from left to right. */
  ghost function Leaves(p: Plan): seq<nat> {
    match p
    case Leaf(ts, i) => [i]
    case Node(ts, l, r) => Leaves(l) + Leaves(r)
  }

  lemma {:induction false} LeavesOnce(adj: seq<set<nat>>, p: Plan)
    requires IsPlan(adj, p)
    ensures Leaves(p) != [] && NoRepeats(Leaves(p)) && forall i :: i in Leaves(p) <==> i in p.tables
  {
    if p.Node? {
      LeavesOnce(adj, p.left);
      LeavesOnce(adj, p.right);
      NoRepeatsConcat(Leaves(p.left), Leaves(p.right));
    }
  }

  ghost function WidthOf(width: nat -> nat): nat -> int {
    (i: nat) => width(i)
  }

  lemma {:induction false} WidthOfLeaves(p: Plan, width: nat -> nat)
    ensures Leaves(p) != [] && NodeWidth(p, width) == Total(Leaves(p), WidthOf(width)) + |TABLE_DELIM| * (|Leaves(p)| - 1)
  {
    match p
    case Leaf(ts, i) =>
      assert [i] == [] + [i];
      TotalSnoc([], i, WidthOf(width));
    case Node(ts, l, r) =>
      WidthOfLeaves(l, width);
      WidthOfLeaves(r, width);
      TotalConcat(Leaves(l), Leaves(r), WidthOf(width));
  }

  /** The node width is the widths of the plan's tables, in any order, and a delimiter for every join. */
  lemma WidthOfTables(adj: seq<set<nat>>, p: Plan, width: nat -> nat, ids: seq<nat>)
    requires IsPlan(adj, p) && NoRepeats(ids) && forall i :: i in ids <==> i in p.tables
    ensures ids != [] && NodeWidth(p, width) == Total(ids, WidthOf(width)) + |TABLE_DELIM| * (|ids| - 1)
  {
    LeavesOnce(adj, p);
    WidthOfLeaves(p, width);
    SameMembers(ids, Leaves(p));
    TotalPermutation(ids, Leaves(p), WidthOf(width));
    assert |multiset(ids)| == |multiset(Leaves(p))|;
  }

  /** Packed in any order, a row of the plan's tables is no longer than the node width, and as long if every table's row is as wide as its widest. */
  lemma WidthIsPacked(adj: seq<set<nat>>, p: Plan, width: nat -> nat, ids: seq<nat>, row: nat -> string)
    requires IsPlan(adj, p) && NoRepeats(ids) && forall i :: i in ids <==> i in p.tables
    requires forall i :: i in p.tables ==> |row(i)| <= width(i)
    ensures |PackRow(ids, row)| <= NodeWidth(p, width)
    ensures (forall i :: i in p.tables ==> |row(i)| == width(i)) <==> |PackRow(ids, row)| == NodeWidth(p, width)
  {
    WidthOfTables(adj, p, width, ids);
    PackedLength(ids, row);
    forall k | 0 <= k < |ids| ensures ids[k] in p.tables {
      assert ids[k] in ids;
    }
    TotalMonotone(ids, RowWidth(row), WidthOf(width));
    if forall i :: i in p.tables ==> |row(i)| == width(i) {
      TotalExt(ids, RowWidth(row), WidthOf(width));
    } else {
      var i :| i in p.tables && |row(i)| != width(i);
      var k :| 0 <= k < |ids| && ids[k] == i;
    }
  }
}
