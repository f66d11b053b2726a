/** Orderings of a rooted join tree by mixed-radix index: every node takes a digit for the order of its children. */
module TreeVariants {
  import opened Totals
  import opened Permutations
  import opened Conditions

  /** A rooted tree of tables; link is the constraint to the parent, oriented child to parent. */
  datatype RTree = RNode(table: nat, link: Constraint, kids: seq<RTree>)

  ghost function UpTo(n: nat): (r: seq<nat>)
    ensures |r| == n && forall i :: 0 <= i < n ==> r[i] == i
  {
    seq(n, i requires 0 <= i < n => i)
  }

  // ---- Decoding an index ----

  lemma MembersOfPermutation(order: seq<nat>, n: nat)
    requires multiset(order) == multiset(UpTo(n))
    ensures |order| == n && forall j :: 0 <= j < |order| ==> order[j] < n
  {
    assert |multiset(order)| == |multiset(UpTo(n))|;
    forall j | 0 <= j < |order| ensures order[j] < n {
      assert order[j] in multiset(UpTo(n));
    }
  }

  /** The order of n children that digit d selects. */
  ghost function OrderOf(n: nat, d: nat): (r: seq<nat>)
    requires d < Factorial(n)
    ensures |r| == n && multiset(r) == multiset(UpTo(n)) && forall j :: 0 <= j < |r| ==> r[j] < n
  {
    UnrankPermutes(UpTo(n), d);
    MembersOfPermutation(Unrank(UpTo(n), d), n);
    Unrank(UpTo(n), d)
  }

  lemma DivMod(s: nat, f: nat)
    requires f >= 1
    ensures 0 <= s / f && 0 <= s % f < f && s == (s / f) * f + s % f
  {
  }

  /** The tree that variant s selects, and what is left of s for the nodes after it. */
  ghost function Decode(t: RTree, s: nat): (r: (RTree, nat))
    decreases t, |t.kids| + 1
  {
    var f := Factorial(|t.kids|);
    DivMod(s, f);
    DecodeDigit(t, s % f, s / f)
  }

  /** Node t with its children in the order that digit d selects, the subtrees decoded from s. */
  ghost function DecodeDigit(t: RTree, d: nat, s: nat): (r: (RTree, nat))
    requires d < Factorial(|t.kids|)
    decreases t, |t.kids|, 1
  {
    var r := DecodeKids(t, OrderOf(|t.kids|, d), s);
    (RNode(t.table, t.link, r.0), r.1)
  }

  ghost function DecodeKids(t: RTree, order: seq<nat>, s: nat): (r: (seq<RTree>, nat))
    requires forall j :: 0 <= j < |order| ==> order[j] < |t.kids|
    ensures |r.0| == |order|
    decreases t, |order|, 0
  {
    if order == [] then ([], s) else
      var first := Decode(t.kids[order[0]], s);
      var rest := DecodeKids(t, order[1..], first.1);
      ([first.0] + rest.0, rest.1)
  }

  // ---- Counting variants ----

  lemma PositiveProduct(a: nat, b: nat)
    requires a >= 1 && b >= 1
    ensures a * b >= 1
  {
  }

  /** The number of variants: k! for every node with k children, multiplied. */
  ghost function Variants(t: RTree): (n: nat)
    ensures n >= 1
    decreases t, |t.kids| + 1
  {
    PositiveProduct(Factorial(|t.kids|), OrderVariants(t, UpTo(|t.kids|)));
    Factorial(|t.kids|) * OrderVariants(t, UpTo(|t.kids|))
  }

  /** The variants of the children named by order, multiplied. */
  ghost function OrderVariants(t: RTree, order: seq<nat>): (n: nat)
    requires forall j :: 0 <= j < |order| ==> order[j] < |t.kids|
    ensures n >= 1
    decreases t, |order|
  {
    if order == [] then 1 else
      PositiveProduct(Variants(t.kids[order[0]]), OrderVariants(t, order[1..]));
      Variants(t.kids[order[0]]) * OrderVariants(t, order[1..])
  }

  /** Indices of children. */
  ghost predicate Names(t: RTree, order: seq<nat>) {
    forall j :: 0 <= j < |order| ==> order[j] < |t.kids|
  }

  lemma Swap3(a: nat, b: nat, c: nat)
    ensures a * (b * c) == b * (a * c)
  {
  }

  lemma {:induction false} OrderVariantsRemove(t: RTree, order: seq<nat>, j: nat)
    requires Names(t, order) && j < |order|
    ensures Names(t, Removed(order, j))
    ensures OrderVariants(t, order) == Variants(t.kids[order[j]]) * OrderVariants(t, Removed(order, j))
  {
    var rest := Removed(order, j);
    if j == 0 {
      assert rest == order[1..];
    } else {
      OrderVariantsRemove(t, order[1..], j - 1);
      assert rest == [order[0]] + Removed(order[1..], j - 1);
      assert rest[1..] == Removed(order[1..], j - 1);
      Swap3(Variants(t.kids[order[0]]), Variants(t.kids[order[j]]), OrderVariants(t, rest[1..]));
    }
  }

  /** The order of the children does not matter for their number of variants. */
  lemma {:induction false} OrderVariantsPermute(t: RTree, a: seq<nat>, b: seq<nat>)
    requires Names(t, a) && Names(t, b) && multiset(a) == multiset(b)
    ensures OrderVariants(t, a) == OrderVariants(t, b)
    decreases |a|
  {
    assert |multiset(a)| == |multiset(b)|;
    if a != [] {
      assert a[0] in multiset(b);
      var j :| 0 <= j < |b| && b[j] == a[0];
      OrderVariantsRemove(t, b, j);
      RemovedOne(b, j);
      assert a == [a[0]] + a[1..];
      assert multiset(a[1..]) == multiset(a) - multiset{a[0]};
      OrderVariantsPermute(t, a[1..], Removed(b, j));
    }
  }

  // ---- An index decodes digit by digit ----

  lemma DecodeIs(t: RTree, s: nat, d: nat, q: nat)
    requires d < Factorial(|t.kids|) && s == q * Factorial(|t.kids|) + d
    ensures Decode(t, s) == DecodeDigit(t, d, q)
  {
    QuotientOfDigit(q, Factorial(|t.kids|), d);
  }

  /** (q, b, d) as digits of radices p and f. */
  lemma Radix(q: nat, p: nat, f: nat, b: nat, d: nat)
    requires b < p && d < f
    ensures q * (f * p) + (b * f + d) == (q * p + b) * f + d
    ensures b * f + d < f * p
  {
    TopDigit(b, p, f, d);
    assert q * (f * p) == (q * p) * f;
  }

  /** Splitting an index below f * p into its digits. */
  lemma Split(r: nat, f: nat, p: nat) returns (b: nat, d: nat)
    requires f >= 1 && r < f * p
    ensures r == b * f + d && b < p && d < f
  {
    DivMod(r, f);
    b, d := r / f, r % f;
    SmallMultiple(f, b - p);
    assert b * f == f * p + f * (b - p);
  }

  /** A variant index decodes to the same tree modulo the number of variants; the quotient is passed on. */
  lemma {:induction false} DecodeAt(t: RTree, q: nat, r: nat)
    requires r < Variants(t)
    ensures Decode(t, q * Variants(t) + r) == (Decode(t, r).0, q)
    decreases t, |t.kids| + 1
  {
    var f, p := Factorial(|t.kids|), OrderVariants(t, UpTo(|t.kids|));
    var b, d := Split(r, f, p);
    Radix(q, p, f, b, d);
    DecodeIs(t, q * Variants(t) + r, d, q * p + b);
    DecodeIs(t, r, d, b);
    var order := OrderOf(|t.kids|, d);
    OrderVariantsPermute(t, UpTo(|t.kids|), order);
    DecodeKidsAt(t, order, q, b);
  }

  lemma {:induction false} DecodeKidsAt(t: RTree, order: seq<nat>, q: nat, r: nat)
    requires Names(t, order) && r < OrderVariants(t, order)
    ensures DecodeKids(t, order, q * OrderVariants(t, order) + r) == (DecodeKids(t, order, r).0, q)
    decreases t, |order|
  {
    if order != [] {
      var kid, v, p := t.kids[order[0]], Variants(t.kids[order[0]]), OrderVariants(t, order[1..]);
      var b, a := Split(r, v, p);
      Radix(q, p, v, b, a);
      DecodeAt(kid, q * p + b, a);
      DecodeAt(kid, b, a);
      DecodeKidsAt(t, order[1..], q, b);
    }
  }

  // ---- Every ordering has exactly one index ----

  /** u is t with the children of every node in some order. */
  ghost predicate Reordering(t: RTree, u: RTree)
    decreases t, 1
  {
    u.table == t.table && u.link == t.link && exists order: seq<nat> :: ReorderedBy(t, u.kids, order)
  }

  /** us are the children of t that order names, each reordered below. */
  ghost predicate KidsReordered(t: RTree, us: seq<RTree>, order: seq<nat>)
    requires Names(t, order)
    decreases t, 0, 0
  {
    |us| == |order| && forall j :: 0 <= j < |order| ==> Reordering(t.kids[order[j]], us[j])
  }

  ghost predicate ReorderedBy(t: RTree, us: seq<RTree>, order: seq<nat>)
    decreases t, 0, 1
  {
    multiset(order) == multiset(UpTo(|t.kids|)) && Names(t, order) && KidsReordered(t, us, order)
  }

  /** The order behind a reordering. */
  lemma ReorderingOrder(t: RTree, u: RTree) returns (order: seq<nat>)
    requires Reordering(t, u)
    ensures multiset(order) == multiset(UpTo(|t.kids|)) && |order| == |t.kids| == |u.kids| && Names(t, order)
    ensures u.table == t.table && u.link == t.link
    ensures forall j :: 0 <= j < |order| ==> Reordering(t.kids[order[j]], u.kids[j])
  {
    order :| ReorderedBy(t, u.kids, order);
    MembersOfPermutation(order, |t.kids|);
    ReorderedKids(t, u.kids, order);
  }

  lemma ReorderedKids(t: RTree, us: seq<RTree>, order: seq<nat>)
    requires ReorderedBy(t, us, order)
    ensures Names(t, order) && |us| == |order| && forall j :: 0 <= j < |order| ==> Reordering(t.kids[order[j]], us[j])
  {
    assert KidsReordered(t, us, order);
  }

  /** Children of one node are different tables, all the way down. */
  ghost predicate SiblingsDiffer(t: RTree) {
    && (forall i, j :: 0 <= i < j < |t.kids| ==> t.kids[i].table != t.kids[j].table)
    && (forall i :: 0 <= i < |t.kids| ==> SiblingsDiffer(t.kids[i]))
  }

  /** Every index decodes to an ordering. */
  lemma {:induction false} DecodeReorders(t: RTree, s: nat)
    ensures Reordering(t, Decode(t, s).0)
    decreases t, |t.kids| + 1
  {
    var f := Factorial(|t.kids|);
    DivMod(s, f);
    var order := OrderOf(|t.kids|, s % f);
    DecodeKidsReorder(t, order, s / f);
    assert ReorderedBy(t, Decode(t, s).0.kids, order);
  }

  lemma {:induction false} DecodeKidsReorder(t: RTree, order: seq<nat>, s: nat)
    requires Names(t, order)
    ensures KidsReordered(t, DecodeKids(t, order, s).0, order)
    decreases t, |order|
  {
    if order != [] {
      var kid := t.kids[order[0]];
      DecodeReorders(kid, s);
      var rest := DecodeKids(t, order[1..], Decode(kid, s).1);
      DecodeKidsReorder(t, order[1..], Decode(kid, s).1);
      var us := DecodeKids(t, order, s).0;
      forall j | 0 <= j < |order| ensures Reordering(t.kids[order[j]], us[j]) {
        if j > 0 {
          assert us[j] == rest.0[j - 1] && order[1..][j - 1] == order[j];
        }
      }
    }
  }

  /** Every ordering is decoded from an index below the number of variants. */
  lemma {:induction false} OrderingIndex(t: RTree, u: RTree) returns (s: nat)
    requires Reordering(t, u)
    ensures s < Variants(t) && Decode(t, s) == (u, 0)
    decreases t, |t.kids| + 1
  {
    var order: seq<nat> :| ReorderedBy(t, u.kids, order);
    var b := KidsIndex(t, u.kids, order);
    OrderVariantsPermute(t, UpTo(|t.kids|), order);
    var d := OrderDigit(|t.kids|, order);
    s := JoinDigits(t, b, d);
    assert DecodeDigit(t, d, b) == (RNode(t.table, t.link, u.kids), 0);
  }

  /** The digit that selects an order. */
  lemma OrderDigit(n: nat, order: seq<nat>) returns (d: nat)
    requires multiset(order) == multiset(UpTo(n))
    ensures d < Factorial(n) && OrderOf(n, d) == order
  {
    RangeOnceEach(n);
    UnrankOfRank(UpTo(n), order);
    d := Rank(UpTo(n), order);
  }

  lemma JoinDigits(t: RTree, b: nat, d: nat) returns (s: nat)
    requires b < OrderVariants(t, UpTo(|t.kids|)) && d < Factorial(|t.kids|)
    ensures s < Variants(t) && Decode(t, s) == DecodeDigit(t, d, b)
  {
    var f := Factorial(|t.kids|);
    Radix(0, OrderVariants(t, UpTo(|t.kids|)), f, b, d);
    s := b * f + d;
    DecodeIs(t, s, d, b);
  }

  lemma RangeOnceEach(n: nat)
    ensures NoRepeats(UpTo(n))
  {
  }

  lemma KidsReorderedTail(t: RTree, us: seq<RTree>, order: seq<nat>)
    requires Names(t, order) && KidsReordered(t, us, order) && order != []
    ensures Names(t, order[1..]) && KidsReordered(t, us[1..], order[1..])
  {
    forall j | 0 <= j < |order| - 1 ensures Reordering(t.kids[order[1..][j]], us[1..][j]) {
      assert order[1..][j] == order[j + 1] && us[1..][j] == us[j + 1];
    }
  }

  lemma {:induction false} KidsIndex(t: RTree, us: seq<RTree>, order: seq<nat>) returns (s: nat)
    requires Names(t, order) && KidsReordered(t, us, order)
    ensures s < OrderVariants(t, order) && DecodeKids(t, order, s) == (us, 0)
    decreases t, |order|
  {
    if order == [] {
      s := 0;
    } else {
      var kid, v, p := t.kids[order[0]], Variants(t.kids[order[0]]), OrderVariants(t, order[1..]);
      var a := OrderingIndex(kid, us[0]);
      KidsReorderedTail(t, us, order);
      var b := KidsIndex(t, us[1..], order[1..]);
      Radix(0, p, v, b, a);
      s := b * v + a;
      DecodeAt(kid, b, a);
      assert us == [us[0]] + us[1..];
    }
  }

  /** Different indices give different orderings. */
  lemma {:induction false} DecodeInjective(t: RTree, r: nat, s: nat)
    requires SiblingsDiffer(t) && r < Variants(t) && s < Variants(t) && Decode(t, r).0 == Decode(t, s).0
    ensures r == s
    decreases t, |t.kids| + 1
  {
    var n, f, p := |t.kids|, Factorial(|t.kids|), OrderVariants(t, UpTo(|t.kids|));
    var b, d := Split(r, f, p);
    var c, e := Split(s, f, p);
    DecodeIs(t, r, d, b);
    DecodeIs(t, s, e, c);
    var order := OrderOf(n, d);
    SameOrder(t, order, OrderOf(n, e), b, c);
    RangeOnceEach(n);
    RankOfUnrank(UpTo(n), d);
    RankOfUnrank(UpTo(n), e);
    OrderVariantsPermute(t, UpTo(n), order);
    KidsInjective(t, order, b, c);
  }

  lemma DecodeTable(t: RTree, s: nat)
    ensures Decode(t, s).0.table == t.table && Decode(t, s).0.link == t.link
  {
    DivMod(s, Factorial(|t.kids|));
  }

  lemma {:induction false} KidTables(t: RTree, order: seq<nat>, s: nat)
    requires Names(t, order)
    ensures forall j :: 0 <= j < |order| ==> DecodeKids(t, order, s).0[j].table == t.kids[order[j]].table
  {
    if order != [] {
      var first := Decode(t.kids[order[0]], s);
      DecodeTable(t.kids[order[0]], s);
      KidTables(t, order[1..], first.1);
      var us := DecodeKids(t, order, s).0;
      forall j | 0 <= j < |order| ensures us[j].table == t.kids[order[j]].table {
        if j > 0 {
          assert us[j] == DecodeKids(t, order[1..], first.1).0[j - 1] && order[1..][j - 1] == order[j];
        }
      }
    }
  }

  lemma SameOrder(t: RTree, a: seq<nat>, b: seq<nat>, r: nat, s: nat)
    requires SiblingsDiffer(t) && Names(t, a) && Names(t, b) && DecodeKids(t, a, r).0 == DecodeKids(t, b, s).0
    ensures a == b
  {
    KidTables(t, a, r);
    KidTables(t, b, s);
    assert |a| == |DecodeKids(t, a, r).0| == |b|;
    var us := DecodeKids(t, a, r).0;
    forall j | 0 <= j < |a| ensures a[j] == b[j] {
      assert us[j].table == t.kids[a[j]].table == t.kids[b[j]].table;
    }
  }

  lemma {:induction false} KidsInjective(t: RTree, order: seq<nat>, r: nat, s: nat)
    requires SiblingsDiffer(t) && Names(t, order) && r < OrderVariants(t, order) && s < OrderVariants(t, order)
    requires DecodeKids(t, order, r).0 == DecodeKids(t, order, s).0
    ensures r == s
    decreases t, |order|
  {
    if order != [] {
      var kid, v, p := t.kids[order[0]], Variants(t.kids[order[0]]), OrderVariants(t, order[1..]);
      var b, a := Split(r, v, p);
      var c, e := Split(s, v, p);
      DecodeAt(kid, b, a);
      DecodeAt(kid, c, e);
      var us := DecodeKids(t, order, r).0;
      assert us[0] == Decode(kid, a).0 == Decode(kid, e).0;
      DecodeInjective(kid, a, e);
      assert us[1..] == DecodeKids(t, order[1..], b).0 == DecodeKids(t, order[1..], c).0;
      KidsInjective(t, order[1..], b, c);
    }
  }
}
