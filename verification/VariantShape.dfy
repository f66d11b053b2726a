/** Variant numbers: first the orderings of the first root, then of the second, by the counts that the host compares. */
module VariantShape {
  import opened Permutations
  import opened TreeVariants
  import opened VariantCount

  // ---- Counts as the host compares them ----

  /** (int32_t)n. */
  function ToInt32(n: nat): (r: int)
    ensures -0x8000_0000 <= r < 0x8000_0000
  {
    var m := n % 0x1_0000_0000;
    if m < 0x8000_0000 then m else m - 0x1_0000_0000
  }

  /** (uint64_t)i. */
  function ToUint64(i: int): nat
    requires -0x8000_0000 <= i < 0x8000_0000
  {
    if i < 0 then i + UINT64_SPAN else i
  }

  /** A number of orderings after wrapping in 64 bits, the cast to int32_t and back. */
  ghost function AsCompared(v: nat): nat {
    ToUint64(ToInt32(v % UINT64_SPAN))
  }

  /** The casts keep a count exactly if it fits 31 bits, or is one of the last 2^31 that fit 64. */
  lemma ComparedExactly(v: nat)
    ensures AsCompared(v) == v <==> v < 0x8000_0000 || UINT64_SPAN - 0x8000_0000 <= v < UINT64_SPAN
  {
    if v < UINT64_SPAN {
      assert v % UINT64_SPAN == v;
      DivMod(v, 0x1_0000_0000);
    } else {
      DivMod(v, UINT64_SPAN);
    }
  }

  ghost function SeenCounts(trees: seq<RTree>): (r: seq<nat>)
    ensures |r| == |trees|
  {
    seq(|trees|, i requires 0 <= i < |trees| => AsCompared(Variants(trees[i])))
  }

  // ---- Numbers by count ----

  /** The numbers before those of root k. */
  ghost function Before(counts: seq<nat>, k: nat): nat
    requires k <= |counts|
  {
    if k == 0 then 0 else Before(counts, k - 1) + counts[k - 1]
  }

  /** Number r of root k. */
  ghost predicate IsNumber(counts: seq<nat>, k: nat, r: nat, s: nat) {
    k < |counts| && r < counts[k] && s == Before(counts, k) + r
  }

  lemma {:induction false} BeforeGrows(counts: seq<nat>, j: nat, k: nat)
    requires j <= k <= |counts|
    ensures Before(counts, j) <= Before(counts, k)
    decreases k
  {
    if j < k {
      BeforeGrows(counts, j, k - 1);
    }
  }

  /** A number belongs to one root only. */
  lemma NumberUnique(counts: seq<nat>, j: nat, q: nat, k: nat, r: nat, s: nat)
    requires IsNumber(counts, j, q, s) && IsNumber(counts, k, r, s)
    ensures j == k && q == r
  {
    if j < k {
      BeforeGrows(counts, j + 1, k);
    } else if k < j {
      BeforeGrows(counts, k + 1, j);
    }
  }

  /** Every number below the sum of the counts belongs to a root. */
  lemma {:induction false} NumberFound(counts: seq<nat>, m: nat, s: nat) returns (k: nat, r: nat)
    requires m <= |counts| && s < Before(counts, m)
    ensures IsNumber(counts, k, r, s)
    decreases m
  {
    if s < Before(counts, m - 1) {
      k, r := NumberFound(counts, m - 1, s);
    } else {
      k, r := m - 1, s - Before(counts, m - 1);
    }
  }

  ghost function AllNumbers(counts: seq<nat>): nat {
    Before(counts, |counts|)
  }

  lemma NumberBelow(counts: seq<nat>, k: nat, r: nat, s: nat)
    requires IsNumber(counts, k, r, s)
    ensures s < AllNumbers(counts)
  {
    BeforeGrows(counts, k + 1, |counts|);
  }

  // ---- The tree with a number ----

  /** Number s selects the rooted ordered tree u. */
  ghost predicate Picked(trees: seq<RTree>, counts: seq<nat>, s: nat, u: RTree) {
    |counts| == |trees| && exists k: nat, r: nat :: PickedAt(trees, counts, s, u, k, r)
  }

  ghost predicate PickedAt(trees: seq<RTree>, counts: seq<nat>, s: nat, u: RTree, k: nat, r: nat)
    requires |counts| == |trees|
  {
    IsNumber(counts, k, r, s) && u == Decode(trees[k], r).0
  }

  /** Every number below the sum selects exactly one tree, a reordering of one of the rooted trees. */
  lemma PicksOne(trees: seq<RTree>, counts: seq<nat>, s: nat) returns (u: RTree, k: nat)
    requires |counts| == |trees| && s < AllNumbers(counts)
    ensures Picked(trees, counts, s, u) && k < |trees| && Reordering(trees[k], u)
    ensures forall w :: Picked(trees, counts, s, w) ==> w == u
  {
    var r;
    k, r := NumberFound(counts, |counts|, s);
    u := Decode(trees[k], r).0;
    DecodeReorders(trees[k], r);
    assert PickedAt(trees, counts, s, u, k, r);
    forall w | Picked(trees, counts, s, w) ensures w == u {
      var j: nat, q: nat :| PickedAt(trees, counts, s, w, j, q);
      NumberUnique(counts, j, q, k, r, s);
    }
  }

  ghost predicate RootsDiffer(trees: seq<RTree>) {
    && (forall i, j :: 0 <= i < j < |trees| ==> trees[i].table != trees[j].table)
    && (forall i :: 0 <= i < |trees| ==> SiblingsDiffer(trees[i]))
  }

  /** The root of a selected tree tells which count its number belongs to. */
  lemma RootOfSelected(trees: seq<RTree>, counts: seq<nat>, s: nat, u: RTree, j: nat) returns (r: nat)
    requires RootsDiffer(trees) && Picked(trees, counts, s, u) && j < |trees| && u.table == trees[j].table
    ensures PickedAt(trees, counts, s, u, j, r)
  {
    var k: nat, q: nat :| PickedAt(trees, counts, s, u, k, q);
    DecodeTable(trees[k], q);
    assert k == j;
    r := q;
  }

  /** No two numbers select the same tree. */
  ghost predicate OneNumberEach(trees: seq<RTree>, counts: seq<nat>) {
    forall s, t, u :: Picked(trees, counts, s, u) && Picked(trees, counts, t, u) ==> s == t
  }

  /** Every reordering of every rooted tree has a number. */
  ghost predicate AllNumbered(trees: seq<RTree>, counts: seq<nat>) {
    forall k: nat, u :: k < |trees| && Reordering(trees[k], u) ==> Numbered(trees, counts, u)
  }

  ghost predicate Numbered(trees: seq<RTree>, counts: seq<nat>, u: RTree) {
    exists s: nat :: Picked(trees, counts, s, u)
  }

  lemma DecodeAgain(t: RTree)
    ensures Decode(t, Variants(t)).0 == Decode(t, 0).0
  {
    DecodeAt(t, 1, 0);
    DecodeAt(t, 0, 0);
  }

  /** Numbers are unique exactly if no count exceeds the number of orderings. */
  lemma UniqueExactly(trees: seq<RTree>, counts: seq<nat>)
    requires RootsDiffer(trees) && |counts| == |trees|
    ensures OneNumberEach(trees, counts) <==> forall k :: 0 <= k < |trees| ==> counts[k] <= Variants(trees[k])
  {
    if forall k :: 0 <= k < |trees| ==> counts[k] <= Variants(trees[k]) {
      forall s, t, u | Picked(trees, counts, s, u) && Picked(trees, counts, t, u) ensures s == t {
        var k: nat, r: nat :| PickedAt(trees, counts, s, u, k, r);
        DecodeTable(trees[k], r);
        var q := RootOfSelected(trees, counts, t, u, k);
        DecodeInjective(trees[k], r, q);
      }
    }
    if OneNumberEach(trees, counts) {
      forall k | 0 <= k < |trees| ensures counts[k] <= Variants(trees[k]) {
        if counts[k] > Variants(trees[k]) {
          TwiceSelected(trees, counts, k);
          assert false;
        }
      }
    }
  }

  lemma TwiceSelected(trees: seq<RTree>, counts: seq<nat>, k: nat)
    requires |counts| == |trees| && k < |trees| && counts[k] > Variants(trees[k])
    ensures !OneNumberEach(trees, counts)
  {
    var v, b, u := Variants(trees[k]), Before(counts, k), Decode(trees[k], 0).0;
    DecodeAgain(trees[k]);
    var c := b + v;
    SelectedAt(trees, counts, b, u, k, 0);
    SelectedAt(trees, counts, c, u, k, v);
    assert b != c;
  }

  lemma SelectedAt(trees: seq<RTree>, counts: seq<nat>, s: nat, u: RTree, k: nat, r: nat)
    requires |counts| == |trees| && PickedAt(trees, counts, s, u, k, r)
    ensures Picked(trees, counts, s, u)
  {
  }

  /** Every ordering has a number exactly if no count falls short. */
  lemma OntoExactly(trees: seq<RTree>, counts: seq<nat>)
    requires RootsDiffer(trees) && |counts| == |trees|
    ensures AllNumbered(trees, counts) <==> forall k :: 0 <= k < |trees| ==> counts[k] >= Variants(trees[k])
  {
    if forall k :: 0 <= k < |trees| ==> counts[k] >= Variants(trees[k]) {
      forall k: nat, u | k < |trees| && Reordering(trees[k], u) ensures Numbered(trees, counts, u) {
        var r := OrderingIndex(trees[k], u);
        assert PickedAt(trees, counts, Before(counts, k) + r, u, k, r);
        assert Picked(trees, counts, Before(counts, k) + r, u);
      }
    }
    if AllNumbered(trees, counts) {
      forall k | 0 <= k < |trees| ensures counts[k] >= Variants(trees[k]) {
        if counts[k] < Variants(trees[k]) {
          NeverSelected(trees, counts, k);
          assert false;
        }
      }
    }
  }

  lemma NeverSelected(trees: seq<RTree>, counts: seq<nat>, k: nat)
    requires RootsDiffer(trees) && |counts| == |trees| && k < |trees| && counts[k] < Variants(trees[k])
    ensures !AllNumbered(trees, counts)
  {
    var u := Decode(trees[k], counts[k]).0;
    DecodeReorders(trees[k], counts[k]);
    DecodeTable(trees[k], counts[k]);
    if Numbered(trees, counts, u) {
      var s: nat :| Picked(trees, counts, s, u);
      var r := RootOfSelected(trees, counts, s, u, k);
      DecodeInjective(trees[k], r, counts[k]);
      assert false;
    }
  }

  // ---- The host's counts ----

  ghost predicate CountFits(v: nat) {
    v < 0x8000_0000 || UINT64_SPAN - 0x8000_0000 <= v < UINT64_SPAN
  }

  /** With the host's counts, numbers and orderings correspond one to one exactly if every count survives the casts. */
  lemma VariantsCorrespondExactly(trees: seq<RTree>)
    requires RootsDiffer(trees)
    ensures OneNumberEach(trees, SeenCounts(trees)) && AllNumbered(trees, SeenCounts(trees))
      <==> forall k :: 0 <= k < |trees| ==> CountFits(Variants(trees[k]))
  {
    UniqueExactly(trees, SeenCounts(trees));
    OntoExactly(trees, SeenCounts(trees));
    forall k | 0 <= k < |trees| ensures SeenCounts(trees)[k] == Variants(trees[k]) <==> CountFits(Variants(trees[k])) {
      ComparedExactly(Variants(trees[k]));
    }
  }

  // ---- A star that is too wide ----

  ghost predicate Star(t: RTree, n: nat) {
    |t.kids| == n && forall i :: 0 <= i < n ==> t.kids[i].kids == []
  }

  lemma {:induction false} LeavesVariants(t: RTree, order: seq<nat>)
    requires Names(t, order) && forall i :: 0 <= i < |t.kids| ==> t.kids[i].kids == []
    ensures OrderVariants(t, order) == 1
  {
    if order != [] {
      LeavesVariants(t, order[1..]);
      LeafVariants(t.kids[order[0]]);
    }
  }

  lemma LeafVariants(t: RTree)
    requires t.kids == []
    ensures Variants(t) == 1
  {
    assert Factorial(0) == 1;
  }

  lemma StarVariants(t: RTree, n: nat)
    requires Star(t, n)
    ensures Variants(t) == Factorial(n)
  {
    LeavesVariants(t, UpTo(n));
  }

  lemma ThirteenFactorial()
    ensures Factorial(13) == 6227020800
  {
    assert Factorial(4) == 24;
    assert Factorial(8) == 40320;
    assert Factorial(11) == 39916800;
  }

  /** A table joined with 13 others has 13! orderings, of which the host counts 1932053504. */
  lemma StarCountsShort(t: RTree)
    requires Star(t, 13)
    ensures Variants(t) == 6227020800 && AsCompared(Variants(t)) == 1932053504
  {
    StarVariants(t, 13);
    ThirteenFactorial();
  }
}
