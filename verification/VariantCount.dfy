/** child_orderings_for_root: the number of variants of a root, counted by a walk of its own with an explicit stack. */
module VariantCount {
  import opened HostLayout
  import opened Conditions
  import opened Permutations
  import opened TreeVariants
  import opened JoinGraph
  import opened PostorderWalk

  /** The variants of all trees on the stack, multiplied. */
  ghost function StackVariants(ts: seq<RTree>): (n: nat)
    ensures n >= 1
  {
    if ts == [] then 1 else
      PositiveProduct(StackVariants(ts[..|ts| - 1]), Variants(ts[|ts| - 1]));
      StackVariants(ts[..|ts| - 1]) * Variants(ts[|ts| - 1])
  }

  lemma MulAssoc(a: nat, b: nat, c: nat)
    ensures (a * b) * c == a * (b * c)
  {
  }

  lemma {:induction false} StackConcat(a: seq<RTree>, b: seq<RTree>)
    ensures StackVariants(a + b) == StackVariants(a) * StackVariants(b)
  {
    if b == [] {
      assert a + b == a;
    } else {
      var front, last := b[..|b| - 1], b[|b| - 1];
      StackConcat(a, front);
      assert (a + b)[..|a + b| - 1] == a + front;
      MulAssoc(StackVariants(a), StackVariants(front), Variants(last));
    }
  }

  /** The children's variants as the node's own count has them. */
  lemma {:induction false} KidsVariants(t: RTree, order: seq<nat>, ts: seq<RTree>)
    requires Names(t, order) && |ts| == |order| && forall j :: 0 <= j < |order| ==> ts[j] == t.kids[order[j]]
    ensures OrderVariants(t, order) == StackVariants(ts)
  {
    if order == [] {
      assert ts == [];
    } else {
      KidsVariants(t, order[1..], ts[1..]);
      StackConcat([ts[0]], ts[1..]);
      assert ts == [ts[0]] + ts[1..];
      assert StackVariants([ts[0]]) == Variants(ts[0]) by {
        assert [ts[0]][..0] == [];
      }
    }
  }

  lemma NodeVariants(t: RTree)
    ensures Variants(t) == Factorial(|t.kids|) * StackVariants(t.kids)
  {
    KidsVariants(t, UpTo(|t.kids|), t.kids);
  }

  // ---- One node of the walk ----

  ghost function TableSeq(es: seq<ChildEdge>): (r: seq<nat>)
    ensures |r| == |es|
  {
    seq(|es|, i requires 0 <= i < |es| => es[i].tableIdx)
  }

  ghost function Heads(ts: seq<RTree>): (r: seq<nat>)
    ensures |r| == |ts|
  {
    seq(|ts|, i requires 0 <= i < |ts| => ts[i].table)
  }

  ghost function AsSet(s: seq<nat>): set<int> {
    set x | x in s
  }

  /** The first edges of a node reach different tables. */
  lemma {:induction false} EdgesPrefix(tables: seq<LoadedTable>, constraints: seq<Constraint>, v: nat, excluded: set<int>, m: nat, n: nat)
    requires v < |tables| && m <= n <= |constraints|
    ensures EdgesOutside(tables, constraints, v, excluded, m) <= EdgesOutside(tables, constraints, v, excluded, n)
    decreases n
  {
    if m < n {
      EdgesPrefix(tables, constraints, v, excluded, m, n - 1);
    }
  }

  lemma NextIsNew(t: RTree, parent: int, tables: seq<LoadedTable>, constraints: seq<Constraint>, n: nat, e: ChildEdge)
    requires Unrolls(t, parent, tables, constraints) && SiblingsDiffer(t) && n < |constraints|
    requires EdgeOf(tables, constraints[n], t.table) == Some(e) && e.tableIdx != parent
    ensures e.tableIdx !in TableSeq(EdgesOutside(tables, constraints, t.table, {parent}, n))
  {
    var now, all := EdgesOutside(tables, constraints, t.table, {parent}, n), EdgesOutside(tables, constraints, t.table, {parent}, |constraints|);
    EdgesPrefix(tables, constraints, t.table, {parent}, n + 1, |constraints|);
    assert now + [e] <= all;
    assert all[|now|] == e;
    forall i | 0 <= i < |now| ensures now[i].tableIdx != e.tableIdx {
      assert all[i] == now[i];
      assert t.kids[i].table != t.kids[|now|].table;
    }
  }

  /** The unvisited neighbours of cur, marked as they are found. */
  method Expand(cur: nat, visited: set<int>, tables: seq<LoadedTable>, constraints: seq<Constraint>, ghost t: RTree, ghost parent: int)
    returns (found: seq<nat>, seen: set<int>)
    requires Unrolls(t, parent, tables, constraints) && OnceEachTable(t) && cur == t.table
    requires visited * Tables(t) == {cur} && (parent >= 0 ==> parent in visited)
    ensures found == Heads(t.kids) && seen == visited + AsSet(found)
  {
    found, seen := [], visited;
    ghost var es: seq<ChildEdge> := [];
    OnceEachSiblings(t);
    KidsUnvisited(t, visited);
    for n := 0 to |constraints|
      invariant es == EdgesOutside(tables, constraints, cur, {parent}, n)
      invariant found == TableSeq(es) && seen == visited + AsSet(found)
    {
      match EdgeOf(tables, constraints[n], cur)
      case None =>
      case Some(e) =>
        if e.tableIdx != parent {
          ghost var i := NeighbourIsKid(t, parent, tables, constraints, n, e);
          NextIsNew(t, parent, tables, constraints, n, e);
        }
        if e.tableIdx !in seen {
          found, seen, es := found + [e.tableIdx], seen + {e.tableIdx}, es + [e];
        }
    }
    assert TableSeq(es) == Heads(t.kids);
  }

  // ---- The stack ----

  ghost function Size(t: RTree): nat {
    1 + SizeAll(t.kids)
  }

  ghost function SizeAll(ts: seq<RTree>): nat {
    if ts == [] then 0 else Size(ts[0]) + SizeAll(ts[1..])
  }

  lemma {:induction false} SizeConcat(a: seq<RTree>, b: seq<RTree>)
    ensures SizeAll(a + b) == SizeAll(a) + SizeAll(b)
  {
    if a == [] {
      assert a + b == b;
    } else {
      SizeConcat(a[1..], b);
      assert (a + b)[1..] == a[1..] + b;
    }
  }

  /** A tree on the stack: none of its tables but its root has been seen. */
  ghost predicate Pending(t: RTree, parent: int, visited: set<int>, tables: seq<LoadedTable>, constraints: seq<Constraint>) {
    && Unrolls(t, parent, tables, constraints) && OnceEachTable(t) && FewKids(t)
    && visited * Tables(t) == {t.table} && (parent >= 0 ==> parent in visited)
  }

  ghost predicate OnStack(ts: seq<RTree>, ps: seq<int>, visited: set<int>, tables: seq<LoadedTable>, constraints: seq<Constraint>) {
    && |ps| == |ts|
    && (forall i :: 0 <= i < |ts| ==> Pending(ts[i], ps[i], visited, tables, constraints))
    && (forall i, j :: 0 <= i < j < |ts| ==> Tables(ts[i]) !! Tables(ts[j]))
  }

  ghost function Parents(v: int, n: nat): (r: seq<int>)
    ensures |r| == n && forall i :: 0 <= i < n ==> r[i] == v
  {
    seq(n, _ => v)
  }

  /** The children of a pending tree are pending once they are marked. */
  lemma KidPending(t: RTree, parent: int, visited: set<int>, seen: set<int>, tables: seq<LoadedTable>, constraints: seq<Constraint>, i: nat)
    requires Pending(t, parent, visited, tables, constraints) && seen == visited + AsSet(Heads(t.kids)) && i < |t.kids|
    ensures Pending(t.kids[i], t.table, seen, tables, constraints)
  {
    KidsUnvisited(t, visited);
    var kid := t.kids[i];
    assert Heads(t.kids)[i] == kid.table && kid.table in Heads(t.kids);
    assert kid.table in Tables(kid);
    forall x | x in seen && x in Tables(kid) ensures x == kid.table {
      HeadInside(t, i, x);
    }
    assert t.table in visited * Tables(t);
  }

  lemma SameKid(t: RTree, i: nat, j: nat, x: int)
    requires OnceEachTable(t) && i < |t.kids| && j < |t.kids| && x in Tables(t.kids[i]) && x in Tables(t.kids[j])
    ensures i == j
  {
  }

  lemma HeadInside(t: RTree, i: nat, x: int)
    requires OnceEachTable(t) && i < |t.kids| && x in Tables(t.kids[i]) && x in AsSet(Heads(t.kids))
    ensures x == t.kids[i].table
  {
    var j :| 0 <= j < |t.kids| && Heads(t.kids)[j] == x;
    assert x in Tables(t.kids[j]);
    SameKid(t, i, j, x);
  }

  /** The other trees on the stack stay pending. */
  lemma OtherPending(u: RTree, p: int, t: RTree, visited: set<int>, seen: set<int>, tables: seq<LoadedTable>, constraints: seq<Constraint>)
    requires Pending(u, p, visited, tables, constraints) && Tables(u) !! Tables(t) && seen == visited + AsSet(Heads(t.kids))
    ensures Pending(u, p, seen, tables, constraints)
  {
    forall x | x in AsSet(Heads(t.kids)) ensures x !in Tables(u) {
      var j :| 0 <= j < |t.kids| && Heads(t.kids)[j] == x;
      KidTablesInside(t, j);
      assert x in Tables(t.kids[j]);
    }
  }

  lemma KidsReplace(ts: seq<RTree>, ps: seq<int>, visited: set<int>, seen: set<int>, tables: seq<LoadedTable>, constraints: seq<Constraint>)
    requires OnStack(ts, ps, visited, tables, constraints) && ts != []
    requires seen == visited + AsSet(Heads(ts[|ts| - 1].kids))
    ensures var m := |ts| - 1;
      OnStack(ts[..m] + ts[m].kids, ps[..m] + Parents(ts[m].table, |ts[m].kids|), seen, tables, constraints)
  {
    var m := |ts| - 1;
    var t := ts[m];
    var us, qs := ts[..m] + t.kids, ps[..m] + Parents(t.table, |t.kids|);
    forall i | 0 <= i < |us| ensures Pending(us[i], qs[i], seen, tables, constraints) {
      if i < m {
        OtherPending(ts[i], ps[i], t, visited, seen, tables, constraints);
      } else {
        KidPending(t, ps[m], visited, seen, tables, constraints, i - m);
      }
    }
    KidsApart(ts);
  }

  lemma KidsApart(ts: seq<RTree>)
    requires ts != [] && (forall i, j :: 0 <= i < j < |ts| ==> Tables(ts[i]) !! Tables(ts[j])) && OnceEachTable(ts[|ts| - 1])
    ensures var us := ts[..|ts| - 1] + ts[|ts| - 1].kids; forall i, j :: 0 <= i < j < |us| ==> Tables(us[i]) !! Tables(us[j])
  {
    var m := |ts| - 1;
    var t := ts[m];
    var us := ts[..m] + t.kids;
    forall i, j | 0 <= i < j < |us| ensures Tables(us[i]) !! Tables(us[j]) {
      if i < m <= j {
        KidTablesInside(t, j - m);
        assert Tables(ts[i]) !! Tables(t);
      } else if i < m {
        assert us[i] == ts[i] && us[j] == ts[j];
      } else {
        assert us[i] == t.kids[i - m] && us[j] == t.kids[j - m];
      }
    }
  }

  lemma CountStep(ts: seq<RTree>, total: nat, f: nat)
    requires ts != [] && f == Factorial(|ts[|ts| - 1].kids|)
    ensures total * f * StackVariants(ts[..|ts| - 1] + ts[|ts| - 1].kids) == total * StackVariants(ts)
  {
    var m := |ts| - 1;
    StackConcat(ts[..m], ts[m].kids);
    NodeVariants(ts[m]);
    Mul4(total, f, StackVariants(ts[..m]), StackVariants(ts[m].kids));
  }

  lemma Mul4(t: nat, f: nat, a: nat, b: nat)
    ensures t * f * (a * b) == t * (a * (f * b))
  {
    assert t * f * (a * b) == t * (f * (a * b));
    Swap3(f, a, b);
  }

  lemma SizeStep(ts: seq<RTree>)
    requires ts != []
    ensures SizeAll(ts[..|ts| - 1] + ts[|ts| - 1].kids) < SizeAll(ts)
  {
    var m := |ts| - 1;
    assert ts == ts[..m] + [ts[m]];
    SizeConcat(ts[..m], [ts[m]]);
    SizeConcat(ts[..m], ts[m].kids);
    assert [ts[m]][1..] == [];
    assert SizeAll([ts[m]]) == Size(ts[m]) + SizeAll([]);
  }

  lemma StackPop(ts: seq<RTree>, found: seq<nat>)
    requires ts != [] && found == Heads(ts[|ts| - 1].kids)
    ensures Heads(ts)[..|ts| - 1] + found == Heads(ts[..|ts| - 1] + ts[|ts| - 1].kids)
  {
  }

  const UINT64_SPAN: nat := 0x1_0000_0000_0000_0000

  /** Multiplying modulo the width of the counter. */
  lemma ModProduct(e: nat, f: nat)
    ensures ((e % UINT64_SPAN) * f) % UINT64_SPAN == (e * f) % UINT64_SPAN
  {
    DivMod(e, UINT64_SPAN);
    var q, r := e / UINT64_SPAN, e % UINT64_SPAN;
    assert e * f == (q * UINT64_SPAN + r) * f == r * f + (q * f) * UINT64_SPAN;
    SameRemainder(r * f, q * f, UINT64_SPAN);
  }

  lemma SameRemainder(x: nat, k: nat, m: nat)
    requires m >= 1
    ensures (x + k * m) % m == x % m
  {
    DivMod(x, m);
    QuotientOfDigit(x / m + k, m, x % m);
    assert (x / m + k) * m + x % m == x + k * m;
  }

  /** Pop the last table, push its children, count their orders; e is the count without wrap-around. */
  method Pop(frontier: seq<nat>, visited: set<int>, total: nat, tables: seq<LoadedTable>, constraints: seq<Constraint>,
             ghost ts: seq<RTree>, ghost ps: seq<int>, ghost e: nat)
    returns (next: seq<nat>, seen: set<int>, product: nat, ghost us: seq<RTree>, ghost qs: seq<int>, ghost f: nat)
    requires frontier != [] && frontier == Heads(ts) && OnStack(ts, ps, visited, tables, constraints) && total == e % UINT64_SPAN
    ensures next == Heads(us) && OnStack(us, qs, seen, tables, constraints)
    ensures product == f % UINT64_SPAN && f * StackVariants(us) == e * StackVariants(ts) && SizeAll(us) < SizeAll(ts)
  {
    ghost var m := |ts| - 1;
    assert Pending(ts[m], ps[m], visited, tables, constraints);
    var cur := frontier[|frontier| - 1];
    var found;
    found, seen := Expand(cur, visited, tables, constraints, ts[m], ps[m]);
    us, qs := ts[..m] + ts[m].kids, ps[..m] + Parents(ts[m].table, |ts[m].kids|);
    KidsReplace(ts, ps, visited, seen, tables, constraints);
    StackPop(ts, found);
    next := frontier[..|frontier| - 1] + found;
    product, f := MultiplyOrders(total, |found|, e);
    CountStep(ts, e, Factorial(|found|));
    SizeStep(ts);
  }

  method MultiplyOrders(total: nat, k: nat, ghost e: nat) returns (product: nat, ghost next: nat)
    requires k <= 15 && total == e % UINT64_SPAN
    ensures next == e * Factorial(k) && product == next % UINT64_SPAN
  {
    product, next := total, e * Factorial(k);
    if k > 1 {
      var f := SaturatingFactorial(k);
      ModProduct(e, f);
      product := (total * f) % UINT64_SPAN;
    } else {
      SmallFactorial(k);
    }
  }

  /** child_orderings_for_root: k! for every node with k children, multiplied in 64 bits. */
  method ChildOrderings(root: nat, tables: seq<LoadedTable>, constraints: seq<Constraint>, ghost t: RTree) returns (total: nat)
    requires Unrolls(t, -1, tables, constraints) && OnceEachTable(t) && FewKids(t) && root == t.table
    ensures total == Variants(t) % UINT64_SPAN
  {
    total := 1;
    var visited: set<int>, frontier := {root}, [root];
    ghost var ts, ps, e: nat := [t], [-1], 1;
    StackOfOne(t);
    while frontier != []
      invariant frontier == Heads(ts) && OnStack(ts, ps, visited, tables, constraints)
      invariant total == e % UINT64_SPAN && e * StackVariants(ts) == Variants(t)
      decreases SizeAll(ts)
    {
      frontier, visited, total, ts, ps, e := Pop(frontier, visited, total, tables, constraints, ts, ps, e);
    }
  }

  lemma StackOfOne(t: RTree)
    ensures StackVariants([t]) == Variants(t) && {t.table} * Tables(t) == {t.table} && Heads([t]) == [t.table]
  {
    assert [t][..0] == [];
  }

  lemma SmallFactorial(n: nat)
    requires n <= 1
    ensures Factorial(n) == 1
  {
  }
}
