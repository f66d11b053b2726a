/** nth_permutation: the k-th lexicographic permutation of a list, and the index of a permutation. */
module Permutations {
  import opened Totals

  ghost function Factorial(n: nat): (r: nat)
    ensures r >= 1
  {
    if n == 0 then 1 else n * Factorial(n - 1)
  }

  const FACTORIAL_LIMIT := 0x100_0000_0000

  lemma LimitReached()
    ensures Factorial(14) < FACTORIAL_LIMIT <= Factorial(15)
  {
    assert Factorial(4) == 24;
    assert Factorial(8) == 40320;
    assert Factorial(12) == 479001600;
  }

  lemma {:induction false} FactorialGrows(m: nat, n: nat)
    requires m <= n
    ensures Factorial(m) <= Factorial(n)
  {
    if m < n {
      FactorialGrows(m, n - 1);
      assert Factorial(n) == n * Factorial(n - 1);
      assert n * Factorial(n - 1) >= 1 * Factorial(n - 1);
    }
  }

  lemma BelowLimit(i: nat)
    ensures Factorial(i) < FACTORIAL_LIMIT <==> i < 15
  {
    LimitReached();
    if i < 15 {
      FactorialGrows(i, 14);
    } else {
      FactorialGrows(15, i);
    }
  }

  lemma FactorialStep(i: nat)
    requires i > 0
    ensures Factorial(i - 1) * i == Factorial(i)
  {
  }

  /** The factorial up to 15!, stuck there beyond. */
  ghost function Saturated(n: nat): nat {
    Factorial(if n <= 15 then n else 15)
  }

  /** factorial: exact up to 15!, and stuck there beyond. */
  method SaturatingFactorial(n: nat) returns (f: nat)
    ensures f == Saturated(n)
  {
    f := 1;
    var i := 2;
    FactorialStep(1);
    while i <= n && f < FACTORIAL_LIMIT
      invariant 2 <= i <= 16 && (if n < 2 then i == 2 else i <= n + 1)
      invariant f == Factorial(i - 1)
      decreases n - i
    {
      BelowLimit(i - 1);
      FactorialStep(i);
      f := f * i;
      i := i + 1;
    }
    BelowLimit(i - 1);
  }

  // ---- Unranking ----

  function Removed<T>(pool: seq<T>, i: nat): (r: seq<T>)
    requires i < |pool|
    ensures |r| == |pool| - 1
  {
    pool[..i] + pool[i + 1..]
  }

  lemma DigitFits(k: nat, n: nat)
    requires n > 0 && k < Factorial(n)
    ensures k / Factorial(n - 1) < n && k % Factorial(n - 1) < Factorial(n - 1)
  {
    var f := Factorial(n - 1);
    var q, r := k / f, k % f;
    assert k == f * q + r;
    FactorialStep(n);
    assert f * q == f * n + f * (q - n);
    SmallMultiple(f, q - n);
  }

  lemma SmallMultiple(f: nat, d: int)
    ensures d >= 1 ==> f * d >= f
    ensures d == 0 ==> f * d == 0
    ensures d <= -1 ==> f * d + f <= 0
  {
  }

  /** The k-th permutation of pool: the leading digit picks, the rest permutes what remains. */
  ghost function Unrank<T>(pool: seq<T>, k: nat): (r: seq<T>)
    requires k < Factorial(|pool|)
    ensures |r| == |pool|
    decreases |pool|
  {
    if pool == [] then [] else
      DigitFits(k, |pool|);
      var f := Factorial(|pool| - 1);
      [pool[k / f]] + Unrank(Removed(pool, k / f), k % f)
  }

  /** Where x stands in pool; the length of pool if nowhere. */
  ghost function IndexIn<T>(pool: seq<T>, x: T): (i: nat)
    ensures i <= |pool| && (i < |pool| ==> pool[i] == x)
  {
    if pool == [] || pool[0] == x then 0 else 1 + IndexIn(pool[1..], x)
  }

  /** The index of the permutation p of pool. */
  ghost function Rank<T>(pool: seq<T>, p: seq<T>): (k: nat)
    decreases |pool|
  {
    if p == [] || IndexIn(pool, p[0]) == |pool| then 0
    else IndexIn(pool, p[0]) * Factorial(|pool| - 1) + Rank(Removed(pool, IndexIn(pool, p[0])), p[1..])
  }

  /** A permutation takes some element of pool first and then permutes the others. */
  lemma HeadInPool<T>(pool: seq<T>, p: seq<T>) returns (i: nat, q: seq<T>)
    requires multiset(p) == multiset(pool) && pool != []
    ensures i < |pool| && p == [pool[i]] + q && multiset(q) == multiset(Removed(pool, i))
    ensures NoRepeats(pool) ==> NoRepeats(Removed(pool, i))
  {
    assert |multiset(p)| == |multiset(pool)|;
    assert p[0] in multiset(pool);
    i :| i < |pool| && pool[i] == p[0];
    q := p[1..];
    RemovedOne(pool, i);
    assert p == [p[0]] + p[1..];
    assert multiset(p[1..]) == multiset(p) - multiset{p[0]};
  }

  lemma RemovedOne<T>(pool: seq<T>, i: nat)
    requires i < |pool|
    ensures multiset(Removed(pool, i)) == multiset(pool) - multiset{pool[i]}
    ensures NoRepeats(pool) ==> NoRepeats(Removed(pool, i))
  {
    assert pool == pool[..i] + [pool[i]] + pool[i + 1..];
  }

  lemma {:induction false} UnrankPermutes<T>(pool: seq<T>, k: nat)
    requires k < Factorial(|pool|)
    ensures multiset(Unrank(pool, k)) == multiset(pool)
    decreases |pool|
  {
    if pool != [] {
      var f := Factorial(|pool| - 1);
      var i, r := Digits(k, |pool|, f);
      UnrankAt(pool, k, i, f, r);
      UnrankPermutes(Removed(pool, i), r);
      RemovedOne(pool, i);
    }
  }

  lemma {:induction false} IndexUnique<T>(pool: seq<T>, i: nat)
    requires NoRepeats(pool) && i < |pool|
    ensures IndexIn(pool, pool[i]) == i
  {
    if i > 0 {
      assert pool[0] != pool[i] && pool[1..][i - 1] == pool[i];
      IndexUnique(pool[1..], i - 1);
    }
  }

  lemma QuotientOfDigit(i: nat, f: nat, r: nat)
    requires r < f
    ensures (i * f + r) / f == i && (i * f + r) % f == r
  {
    var q, s := (i * f + r) / f, (i * f + r) % f;
    assert i * f + r == f * q + s;
    assert f * (i - q) == s - r;
    SmallMultiple(f, i - q);
  }

  lemma TopDigit(i: nat, n: nat, f: nat, r: nat)
    requires i < n && r < f
    ensures i * f + r < n * f
  {
    var d := n - i;
    assert n * f == i * f + f * d;
    SmallMultiple(f, d);
  }

  /** One step of unranking. */
  lemma UnrankStep<T>(pool: seq<T>, k: nat, f: nat)
    requires pool != [] && k < Factorial(|pool|) && f == Factorial(|pool| - 1)
    ensures 0 <= k / f < |pool| && 0 <= k % f < f
    ensures Unrank(pool, k) == [pool[k / f]] + Unrank(Removed(pool, k / f), k % f)
  {
    DigitFits(k, |pool|);
  }

  /** The leading digit and the rest of an index. */
  lemma Digits(k: nat, n: nat, f: nat) returns (i: nat, r: nat)
    requires n > 0 && k < Factorial(n) && f == Factorial(n - 1)
    ensures k == i * f + r && i < n && r < f
  {
    DigitFits(k, n);
    i, r := k / f, k % f;
  }

  /** The permutation whose leading digit is i. */
  lemma UnrankAt<T>(pool: seq<T>, k: nat, i: nat, f: nat, r: nat)
    requires i < |pool| && f == Factorial(|pool| - 1) && r < f && k == i * f + r
    ensures k < Factorial(|pool|)
    ensures Unrank(pool, k) == [pool[i]] + Unrank(Removed(pool, i), r)
  {
    FactorialStep(|pool|);
    TopDigit(i, |pool|, f, r);
    QuotientOfDigit(i, f, r);
    UnrankStep(pool, k, f);
  }

  /** The rank of a permutation, digit by digit. */
  lemma RankAt<T>(pool: seq<T>, i: nat, f: nat, p: seq<T>)
    requires NoRepeats(pool) && i < |pool| && f == Factorial(|pool| - 1)
    ensures Rank(pool, [pool[i]] + p) == i * f + Rank(Removed(pool, i), p)
  {
    IndexUnique(pool, i);
    var q := [pool[i]] + p;
    assert q[0] == pool[i] && q[1..] == p;
  }

  /** Every index is the rank of its permutation. */
  lemma {:induction false} RankOfUnrank<T>(pool: seq<T>, k: nat)
    requires k < Factorial(|pool|) && NoRepeats(pool)
    ensures Rank(pool, Unrank(pool, k)) == k
    decreases |pool|
  {
    if pool != [] {
      var f := Factorial(|pool| - 1);
      var i, r := Digits(k, |pool|, f);
      UnrankAt(pool, k, i, f, r);
      RemovedOne(pool, i);
      RankOfUnrank(Removed(pool, i), r);
      RankAt(pool, i, f, Unrank(Removed(pool, i), r));
    } else {
      assert Factorial(0) == 1;
    }
  }

  /** Every permutation is the one with its rank. */
  lemma {:induction false} UnrankOfRank<T>(pool: seq<T>, p: seq<T>)
    requires multiset(p) == multiset(pool) && NoRepeats(pool)
    ensures Rank(pool, p) < Factorial(|pool|) && Unrank(pool, Rank(pool, p)) == p
    decreases |pool|
  {
    if pool == [] {
      assert |multiset(p)| == 0;
    } else {
      var i, q := HeadInPool(pool, p);
      UnrankOfRank(Removed(pool, i), q);
      UnrankRankStep(pool, p, i, Factorial(|pool| - 1), q, Rank(Removed(pool, i), q));
    }
  }

  lemma UnrankRankStep<T>(pool: seq<T>, p: seq<T>, i: nat, f: nat, q: seq<T>, r: nat)
    requires NoRepeats(pool) && i < |pool| && f == Factorial(|pool| - 1) && p == [pool[i]] + q
    requires r == Rank(Removed(pool, i), q) && r < f && Unrank(Removed(pool, i), r) == q
    ensures Rank(pool, p) < Factorial(|pool|) && Unrank(pool, Rank(pool, p)) == p
  {
    RankAt(pool, i, f, q);
    var k: nat := Rank(pool, p);
    UnrankAt(pool, k, i, f, r);
  }

  // ---- Lexicographic order ----

  /** p comes before q: at the first difference p takes the element that stands earlier in pool. */
  ghost predicate LexBefore<T>(pool: seq<T>, p: seq<T>, q: seq<T>) {
    exists d: nat :: DiffersAt(pool, p, q, d)
  }

  ghost predicate DiffersAt<T>(pool: seq<T>, p: seq<T>, q: seq<T>, d: nat) {
    d < |p| && d < |q| && p[..d] == q[..d] && IndexIn(pool, p[d]) < IndexIn(pool, q[d]) < |pool|
  }

  lemma RemovedAt<T>(pool: seq<T>, i: nat, a: nat)
    requires i < |pool| && a < |pool| - 1
    ensures Removed(pool, i)[a] == pool[if a < i then a else a + 1]
  {
  }

  lemma IndexWithout<T>(pool: seq<T>, i: nat, x: T, y: T)
    requires NoRepeats(pool) && i < |pool|
    requires IndexIn(Removed(pool, i), x) < IndexIn(Removed(pool, i), y) < |pool| - 1
    ensures IndexIn(pool, x) < IndexIn(pool, y) < |pool|
  {
    var a, b := IndexIn(Removed(pool, i), x), IndexIn(Removed(pool, i), y);
    RemovedAt(pool, i, a);
    RemovedAt(pool, i, b);
    IndexUnique(pool, if a < i then a else a + 1);
    IndexUnique(pool, if b < i then b else b + 1);
  }

  /** A larger index gives a lexicographically later permutation. */
  lemma {:induction false} UnrankAscends<T>(pool: seq<T>, j: nat, k: nat)
    requires NoRepeats(pool) && j < k < Factorial(|pool|)
    ensures LexBefore(pool, Unrank(pool, j), Unrank(pool, k))
    decreases |pool|
  {
    assert Factorial(0) == 1;
    var f := Factorial(|pool| - 1);
    var a, r := Digits(j, |pool|, f);
    var b, s := Digits(k, |pool|, f);
    UnrankAt(pool, j, a, f, r);
    UnrankAt(pool, k, b, f, s);
    DigitsOrder(j, k, f, a, r, b, s);
    if a == b {
      RemovedOne(pool, a);
      UnrankAscends(Removed(pool, a), r, s);
      LexUnder(pool, a, Unrank(Removed(pool, a), r), Unrank(Removed(pool, a), s));
    } else {
      LexAtHead(pool, a, b, Unrank(Removed(pool, a), r), Unrank(Removed(pool, b), s));
    }
  }

  lemma LexUnder<T>(pool: seq<T>, a: nat, p: seq<T>, q: seq<T>)
    requires NoRepeats(pool) && a < |pool| && LexBefore(Removed(pool, a), p, q)
    ensures LexBefore(pool, [pool[a]] + p, [pool[a]] + q)
  {
    var d: nat :| DiffersAt(Removed(pool, a), p, q, d);
    IndexWithout(pool, a, p[d], q[d]);
    LexShift(pool, pool[a], p, q, d);
  }

  lemma LexShift<T>(pool: seq<T>, x: T, p: seq<T>, q: seq<T>, d: nat)
    requires d < |p| && d < |q| && p[..d] == q[..d] && IndexIn(pool, p[d]) < IndexIn(pool, q[d]) < |pool|
    ensures LexBefore(pool, [x] + p, [x] + q)
  {
    var s, t := [x] + p, [x] + q;
    assert s[..d + 1] == [x] + p[..d] && t[..d + 1] == [x] + q[..d];
    assert s[d + 1] == p[d] && t[d + 1] == q[d];
    assert DiffersAt(pool, s, t, d + 1);
  }

  lemma LexAtHead<T>(pool: seq<T>, a: nat, b: nat, p: seq<T>, q: seq<T>)
    requires NoRepeats(pool) && a < b < |pool|
    ensures LexBefore(pool, [pool[a]] + p, [pool[b]] + q)
  {
    IndexUnique(pool, a);
    IndexUnique(pool, b);
    assert DiffersAt(pool, [pool[a]] + p, [pool[b]] + q, 0);
  }

  lemma DigitsOrder(j: nat, k: nat, f: nat, a: nat, r: nat, b: nat, s: nat)
    requires j < k && j == a * f + r && k == b * f + s && r < f && s < f
    ensures a <= b && (a == b ==> r < s)
  {
    assert f * (a - b) == j - k - r + s;
    SmallMultiple(f, a - b);
  }

  // ---- The method ----

  /** A digit that is 0 for the saturated factorial is 0 for the real one. */
  lemma SmallDigit(k: nat, f: nat)
    requires k < f
    ensures k / f == 0 && k % f == k
  {
  }

  /** The index is small enough for the saturated factorial. */
  ghost predicate InSpace(k: nat, n: nat) {
    k < Factorial(n) && (n <= 16 || k < Saturated(n))
  }

  lemma DigitNotNegative(k: nat, f: nat)
    requires f > 0
    ensures 0 <= k / f && 0 <= k % f
  {
  }

  /** Dividing by the saturated factorial gives the digit that the real one gives. */
  lemma SaturatedDigit(n: nat, k: nat, f: nat, pick: int, rest: int)
    requires n > 0 && InSpace(k, n) && f == Saturated(n - 1) && pick == k / f && rest == k % f
    ensures 0 <= rest && InSpace(rest, n - 1) && 0 <= pick < n && pick == k / Factorial(n - 1) && rest == k % Factorial(n - 1)
  {
    var g := Factorial(n - 1);
    DigitFits(k, n);
    DigitNotNegative(k, g);
    if n > 16 {
      assert Saturated(n) == f;
      FactorialGrows(15, n - 1);
      SmallDigit(k, f);
      SmallDigit(k, g);
    } else {
      assert f == g;
    }
  }

  /** One pick. */
  lemma PickStep<T>(pool: seq<T>, k: nat, pick: nat, rest: nat)
    requires pool != [] && k < Factorial(|pool|) && pick == k / Factorial(|pool| - 1) && rest == k % Factorial(|pool| - 1) && pick < |pool|
    ensures rest < Factorial(|pool| - 1) && Unrank(pool, k) == [pool[pick]] + Unrank(Removed(pool, pick), rest)
  {
    UnrankStep(pool, k, Factorial(|pool| - 1));
  }

  /**
   * nth_permutation: reorders v into its k-th permutation, erasing each pick from the pool. An index below the saturated
   * factorial of the length, as its caller passes it, is right for every length.
   */
  method NthPermutation<T>(v: seq<T>, k: nat) returns (r: seq<T>)
    requires InSpace(k, |v|)
    ensures r == Unrank(v, k)
  {
    var pool, rest: nat := v, k;
    r := [];
    while |pool| > 0
      invariant InSpace(rest, |pool|) && r + Unrank(pool, rest) == Unrank(v, k)
      decreases |pool|
    {
      var f := SaturatingFactorial(|pool| - 1);
      var pick: int, next: int := rest / f, rest % f;
      SaturatedDigit(|pool|, rest, f, pick, next);
      PickStep(pool, rest, pick, next);
      r, pool, rest := r + [pool[pick]], Removed(pool, pick), next;
    }
  }

  /** pool lists the elements of v that idx names. */
  ghost predicate Selects<T>(v: seq<T>, pool: seq<T>, idx: seq<nat>) {
    |idx| == |pool| && forall j :: 0 <= j < |idx| ==> idx[j] < |v| && pool[j] == v[idx[j]]
  }

  lemma SelectsRemoved<T>(v: seq<T>, pool: seq<T>, idx: seq<nat>, i: nat)
    requires Selects(v, pool, idx) && i < |pool|
    ensures Selects(v, Removed(pool, i), Removed(idx, i))
  {
    forall j | 0 <= j < |pool| - 1 ensures Removed(idx, i)[j] < |v| && Removed(pool, i)[j] == v[Removed(idx, i)[j]] {
      RemovedAt(pool, i, j);
      RemovedAt(idx, i, j);
    }
  }

  lemma SelectsCons<T>(v: seq<T>, x: T, pool: seq<T>, n: nat, idx: seq<nat>)
    requires Selects(v, pool, idx) && n < |v| && v[n] == x
    ensures Selects(v, [x] + pool, [n] + idx)
  {
  }

  /** Permuting a list and permuting its indices go together. */
  lemma {:induction false} UnrankIndices<T>(v: seq<T>, pool: seq<T>, idx: seq<nat>, k: nat)
    requires Selects(v, pool, idx) && k < Factorial(|pool|)
    ensures Selects(v, Unrank(pool, k), Unrank(idx, k))
    decreases |pool|
  {
    if pool != [] {
      var i, r := Digits(k, |pool|, Factorial(|pool| - 1));
      UnrankAt(pool, k, i, Factorial(|pool| - 1), r);
      UnrankAt(idx, k, i, Factorial(|pool| - 1), r);
      SelectsRemoved(v, pool, idx, i);
      UnrankIndices(v, Removed(pool, i), Removed(idx, i), r);
      SelectsCons(v, pool[i], Unrank(Removed(pool, i), r), idx[i], Unrank(Removed(idx, i), r));
    }
  }
}
