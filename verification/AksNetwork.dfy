/** The recursive AKS distribution network: what one call does to a block, and that every real entry gets home. */
module AksNetwork {
  import opened Totals
  import opened Waksman

  /** What the network reads of an entry: padding tag and destination; the row travels along. */
  datatype DistEntry = DistEntry(isPadding: bool, dstIdx: int, row: seq<int>)

  // ---- Powers of two ----

  /** p doubled until it is at least n. */
  function UpFrom(p: nat, n: nat): (r: nat)
    requires p > 0
    ensures r >= p && r >= n
    decreases n - p
  {
    if p >= n then p else UpFrom(2 * p, n)
  }

  /** The largest power of two below n, for n > 1. */
  function PowerBelow(n: nat): nat {
    UpFrom(1, n) / 2
  }

  lemma {:induction false} UpFromPower(j: nat, n: nat) returns (k: nat)
    ensures UpFrom(Pow2(j), n) == Pow2(k) && k >= j
    ensures k > j ==> Pow2(k - 1) < n
    decreases n - Pow2(j)
  {
    if Pow2(j) >= n {
      k := j;
    } else {
      k := UpFromPower(j + 1, n);
    }
  }

  ghost predicate IsPower(n: nat) {
    exists k: nat :: n == Pow2(k)
  }

  lemma PowerBelowBounds(n: nat)
    requires n > 1
    ensures PowerBelow(n) < n <= 2 * PowerBelow(n) && IsPower(PowerBelow(n))
  {
    var k := UpFromPower(0, n);
    assert Pow2(k) == 2 * Pow2(k - 1);
  }

  lemma HalfPower(n: nat)
    requires IsPower(n) && n > 1
    ensures n == 2 * (n / 2) && IsPower(n / 2)
  {
    var k: nat :| n == Pow2(k);
    assert n / 2 == Pow2(k - 1);
  }

  // ---- One level ----

  ghost function Below(temp: int): DistEntry -> bool {
    (e: DistEntry) => e.dstIdx < temp
  }

  /** How many entries of s are bound for slots before temp. */
  ghost function Left(s: seq<DistEntry>, temp: int): int {
    Count(s, Below(temp))
  }

  ghost function CrossedAt(s: seq<DistEntry>, d: nat, m: nat, on: nat -> bool, p: nat): DistEntry
    requires m <= d && d + m <= |s| && p < |s|
  {
    if p < m && on(p) then s[p + d]
    else if d <= p < d + m && on(p - d) then s[p - d]
    else s[p]
  }

  /** s with the pairs (i, i + d), i < m, exchanged where on(i). */
  ghost function Crossed(s: seq<DistEntry>, d: nat, m: nat, on: nat -> bool): (r: seq<DistEntry>)
    requires m <= d && d + m <= |s|
    ensures |r| == |s|
  {
    seq(|s|, p requires 0 <= p < |s| => CrossedAt(s, d, m, on, p))
  }

  ghost function From(m: int): nat -> bool {
    (i: nat) => m <= i
  }

  /** cond3 ^ (ii <= i). */
  ghost function Between(offset: int, m: int, h: nat): nat -> bool
    requires h > 0
  {
    (i: nat) => ((offset < h) != (offset % h + m < h)) != ((offset + m) % h <= i)
  }

  ghost function Exchanged(s: seq<DistEntry>, swap: bool): (r: seq<DistEntry>)
    requires |s| == 2
    ensures |r| == 2
  {
    if swap then [s[1], s[0]] else s
  }

  // ---- The network ----

  /** distribute_2power on a block whose first slot is `first`, its entries rotated by offset. */
  ghost function Power(s: seq<DistEntry>, first: int, offset: int): (r: seq<DistEntry>)
    requires IsPower(|s|)
    ensures |r| == |s|
    decreases |s|, 1
  {
    if |s| <= 1 then s
    else
      HalfPower(|s|);
      var h := |s| / 2;
      var m := Left(s, first + h);
      if |s| == 2 then Exchanged(s, m == offset)
      else
        PowerHalved(Crossed(s, h, h, Between(offset, m, h)), h, first, offset % h, first + h, (offset + m) % h)
  }

  /** Both halves of t routed, each with its own rotation. */
  ghost function PowerHalved(t: seq<DistEntry>, h: nat, first: int, o: int, mid: int, e: int): (r: seq<DistEntry>)
    requires |t| == 2 * h && h > 0 && IsPower(h)
    ensures |r| == |t|
    decreases |t|, 0
  {
    Power(t[..h], first, o) + Power(t[h..], mid, e)
  }

  ghost predicate Misplaced(s: seq<DistEntry>, first: int)
    requires |s| == 2
  {
    (!s[0].isPadding && first < s[0].dstIdx) || (!s[1].isPadding && s[1].dstIdx < first + 1)
  }

  /** The rotation that the cross-swap leaves in the right part. */
  ghost function Turn(n1: nat, n2: nat, m: int): (r: nat)
    requires n1 > 0
    ensures r < n1
  {
    (n1 - n2 + m) % n1
  }

  /** distribute_inner on a block of any size. */
  ghost function Inner(s: seq<DistEntry>, first: int): (r: seq<DistEntry>)
    ensures |r| == |s|
    decreases |s|, 1
  {
    if |s| <= 1 then s
    else if |s| == 2 then Exchanged(s, Misplaced(s, first))
    else
      PowerBelowBounds(|s|);
      InnerCut(s, first, PowerBelow(|s|))
  }

  /** The level of distribute_inner with n1 slots on the right: the left part is a line again, the right part a rotated one. */
  ghost function InnerCut(s: seq<DistEntry>, first: int, n1: nat): (r: seq<DistEntry>)
    requires 0 < |s| - n1 <= n1 < |s| && IsPower(n1)
    ensures |r| == |s|
    decreases |s|, 0
  {
    var n2 := |s| - n1;
    var m := Left(s[..n2], first + n2);
    var t := Crossed(s, n1, n2, From(m));
    Inner(t[..n2], first) + Power(t[n2..], first + n2, Turn(n1, n2, m))
  }

  // ---- The invariant ----

  /** u, read in order: m real entries with increasing destinations in [lo, hi), then padding bound beyond hi. */
  ghost predicate Lined(u: seq<DistEntry>, lo: int, hi: int, m: nat) {
    && m <= |u|
    && (forall k :: 0 <= k < m ==> !u[k].isPadding && lo <= u[k].dstIdx < hi)
    && (forall j, k :: 0 <= j < k < m ==> u[j].dstIdx < u[k].dstIdx)
    && (forall k :: m <= k < |u| ==> u[k].isPadding && hi <= u[k].dstIdx)
  }

  /** Destinations are distinct, so the k-th is at least k further on. */
  lemma {:induction false} LinedGap(u: seq<DistEntry>, lo: int, hi: int, m: nat, j: nat, k: nat)
    requires Lined(u, lo, hi, m) && j <= k < m
    ensures u[k].dstIdx >= u[j].dstIdx + (k - j)
    decreases k
  {
    if j < k {
      LinedGap(u, lo, hi, m, j, k - 1);
    }
  }

  /** The entries bound for the left part are the first ones, and there is room for both parts. */
  lemma LeftIsPrefix(u: seq<DistEntry>, lo: int, mid: int, hi: int, m: nat)
    requires Lined(u, lo, hi, m) && lo <= mid <= hi
    ensures 0 <= Left(u, mid) <= m && Left(u, mid) <= mid - lo && m - Left(u, mid) <= hi - mid
    ensures forall k :: 0 <= k < |u| ==> (k < Left(u, mid) <==> u[k].dstIdx < mid)
  {
    PrefixByCount(u, Below(mid));
    var m2 := Left(u, mid);
    assert m < |u| ==> hi <= u[m].dstIdx;
    if m2 > 0 {
      LinedGap(u, lo, hi, m, 0, m2 - 1);
    }
    if m2 < m {
      LinedGap(u, lo, hi, m, m2, m - 1);
    }
  }

  /** Cutting the line: the first m2 and the overhang go left, n1 entries go right. */
  lemma LineSplits(u: seq<DistEntry>, lo: int, mid: int, hi: int, m: nat, n1: nat, m2: int, left: seq<DistEntry>, right: seq<DistEntry>)
    requires Lined(u, lo, hi, m) && lo <= mid && hi == mid + n1 && |u| == hi - lo
    requires m2 == Left(u, mid) && 0 <= m2 && m2 + n1 <= |u|
    requires left == u[..m2] + u[m2 + n1..] && right == u[m2..m2 + n1]
    ensures m2 <= m && Lined(left, lo, mid, m2) && Lined(right, mid, hi, m - m2)
  {
    LeftIsPrefix(u, lo, mid, hi, m);
  }

  // ---- Rotations ----

  /** The block read from position offset on. */
  ghost function Unrotated(s: seq<DistEntry>, offset: nat): (r: seq<DistEntry>)
    requires offset <= |s|
    ensures |r| == |s|
  {
    s[offset..] + s[..offset]
  }

  lemma UnrotatedTotal(s: seq<DistEntry>, offset: nat, f: DistEntry -> int)
    requires offset <= |s|
    ensures Total(Unrotated(s, offset), f) == Total(s, f)
  {
    TotalSplit(s, offset, f);
    TotalConcat(s[offset..], s[..offset], f);
  }

  lemma Remainder(x: int, n: nat)
    requires 0 <= x < 2 * n
    ensures x % n == if x < n then x else x - n
  {
  }

  /** Where position x of a rotated block comes from. */
  lemma UnrotatedAt(s: seq<DistEntry>, offset: nat, k: nat)
    requires offset <= |s| && k < |s|
    ensures Unrotated(s, offset)[k] == s[Ring(offset, k, |s|)]
  {
  }

  /** One cross-swap of a rotated block of 2h: the left half gets the first m and the overhang, the right half the h between. */
  lemma PowerCrosses(s: seq<DistEntry>, h: nat, offset: nat, m: nat)
    requires |s| == 2 * h && h > 0 && offset < 2 * h && m <= h
    ensures var t := Crossed(s, h, h, Between(offset, m, h)); var u := Unrotated(s, offset);
      && Unrotated(t[..h], offset % h) == u[..m] + u[m + h..]
      && Unrotated(t[h..], (offset + m) % h) == u[m..m + h]
  {
    Remainder(offset, h);
    var o := offset % h;
    Remainder(o + m, h);
    SumRemainder(offset, m, h);
    var t, u := Crossed(s, h, h, Between(offset, m, h)), Unrotated(s, offset);
    var left, right := Unrotated(t[..h], offset % h), Unrotated(t[h..], (offset + m) % h);
    forall x | 0 <= x < h ensures left[x] == (u[..m] + u[m + h..])[x] {
      PowerLeft(s, h, offset, o, m, (o + m) % h, x);
    }
    forall x | 0 <= x < h ensures right[x] == u[m..m + h][x] {
      PowerRight(s, h, offset, o, m, (o + m) % h, x);
    }
  }

  lemma Quotient(x: int, h: nat, q: nat)
    requires h > 0 && 0 <= x - q * h < h
    ensures x % h == x - q * h
  {
    var d, r := x / h - q, x % h;
    assert x == h * (x / h) + r;
    assert h * d == x - q * h - r;
    Multiple(h, d);
  }

  lemma Multiple(h: nat, d: int)
    ensures d >= 1 ==> h * d >= h
    ensures d <= -1 ==> h * d + h <= 0
  {
  }

  lemma SumRemainder(offset: nat, m: nat, h: nat)
    requires h > 0 && offset < 2 * h && m <= h
    ensures (offset + m) % h == (offset % h + m) % h
  {
    Remainder(offset, h);
    Remainder(offset % h + m, h);
    Quotient(offset + m, h, if offset + m < h then 0 else if offset + m < 2 * h then 1 else 2);
  }

  /** The swap flag in terms of the rotation reduced to one half. */
  lemma BetweenAt(offset: nat, o: nat, m: nat, e: nat, h: nat, i: nat)
    requires h > 0 && o == offset % h && e == (offset + m) % h
    ensures Between(offset, m, h)(i) == Flag(offset, o, m, e, h, i)
  {
  }

  ghost predicate Reduced(offset: nat, o: nat, m: nat, e: nat, h: nat) {
    && o < h && e < h && m <= h && offset < 2 * h
    && offset == (if offset < h then o else o + h)
    && o + m == (if o + m < h then e else e + h)
    && h > 0 && o == offset % h && e == (offset + m) % h
  }

  /** Position x of a ring of n slots that starts at offset. */
  function Ring(offset: nat, x: nat, n: nat): nat {
    if offset + x < n then offset + x else offset + x - n
  }

  ghost predicate Flag(offset: nat, o: nat, m: nat, e: nat, h: nat, p: nat) {
    ((offset < h) != (o + m < h)) != (e <= p)
  }

  lemma LeftSource(offset: nat, o: nat, m: nat, e: nat, h: nat, x: nat)
    requires Reduced(offset, o, m, e, h) && x < h
    ensures var p := Ring(o, x, h);
      (if Flag(offset, o, m, e, h, p) then p + h else p) == Ring(offset, if x < m then x else x + h, 2 * h)
  {
  }

  lemma RightSource(offset: nat, o: nat, m: nat, e: nat, h: nat, x: nat)
    requires Reduced(offset, o, m, e, h) && x < h
    ensures var p := Ring(e, x, h);
      (if Flag(offset, o, m, e, h, p) then p else p + h) == Ring(offset, m + x, 2 * h)
  {
  }

  lemma CrossedPair(s: seq<DistEntry>, h: nat, on: nat -> bool, p: nat)
    requires |s| == 2 * h && p < h
    ensures Crossed(s, h, h, on)[p] == s[if on(p) then p + h else p]
    ensures Crossed(s, h, h, on)[p + h] == s[if on(p) then p else p + h]
  {
    assert Crossed(s, h, h, on)[p] == CrossedAt(s, h, h, on, p);
    assert Crossed(s, h, h, on)[p + h] == CrossedAt(s, h, h, on, p + h);
  }

  lemma PowerLeft(s: seq<DistEntry>, h: nat, offset: nat, o: nat, m: nat, e: nat, x: nat)
    requires |s| == 2 * h && Reduced(offset, o, m, e, h) && x < h
    ensures var t := Crossed(s, h, h, Between(offset, m, h)); var u := Unrotated(s, offset);
      Unrotated(t[..h], o)[x] == (u[..m] + u[m + h..])[x]
  {
    var t := Crossed(s, h, h, Between(offset, m, h));
    var p := Ring(o, x, h);
    UnrotatedAt(t[..h], o, x);
    BetweenAt(offset, o, m, e, h, p);
    CrossedPair(s, h, Between(offset, m, h), p);
    LeftSource(offset, o, m, e, h, x);
    UnrotatedAt(s, offset, if x < m then x else x + h);
  }

  lemma PowerRight(s: seq<DistEntry>, h: nat, offset: nat, o: nat, m: nat, e: nat, x: nat)
    requires |s| == 2 * h && Reduced(offset, o, m, e, h) && x < h
    ensures var t := Crossed(s, h, h, Between(offset, m, h)); var u := Unrotated(s, offset);
      Unrotated(t[h..], e)[x] == u[m..m + h][x]
  {
    var t := Crossed(s, h, h, Between(offset, m, h));
    var p := Ring(e, x, h);
    UnrotatedAt(t[h..], e, x);
    BetweenAt(offset, o, m, e, h, p);
    CrossedPair(s, h, Between(offset, m, h), p);
    RightSource(offset, o, m, e, h, x);
    UnrotatedAt(s, offset, m + x);
    assert t[h..][p] == t[p + h];
    assert Unrotated(s, offset)[m..m + h][x] == Unrotated(s, offset)[m + x];
  }

  /** Entry m + x of the line ends up at position x of the rotated right part. */
  lemma InnerSource(n1: nat, n2: nat, m: nat, offset: nat, x: nat)
    requires m <= n2 <= n1 && x < n1 && offset == (if n1 - n2 + m < n1 then n1 - n2 + m else n1 - n2 + m - n1)
    ensures var q := n2 + Ring(offset, x, n1); (if q >= n1 && m <= q - n1 then q - n1 else q) == m + x
  {
  }

  lemma InnerRight(s: seq<DistEntry>, n1: nat, n2: nat, m: nat, offset: nat, x: nat)
    requires |s| == n1 + n2 && m <= n2 <= n1 && n1 > 0 && x < n1 && offset == Turn(n1, n2, m)
    ensures Unrotated(Crossed(s, n1, n2, From(m))[n2..], offset)[x] == s[m..m + n1][x]
  {
    var t, q := Crossed(s, n1, n2, From(m)), Ring(offset, x, n1);
    Remainder(n1 - n2 + m, n1);
    UnrotatedAt(t[n2..], offset, x);
    InnerSource(n1, n2, m, offset, x);
    assert t[n2..][q] == t[n2 + q];
    assert t[n2 + q] == CrossedAt(s, n1, n2, From(m), n2 + q);
  }

  /** The cross-swap of distribute_inner cuts an unrotated line the same way, leaving the right part rotated. */
  lemma InnerCrosses(s: seq<DistEntry>, n1: nat, n2: nat, m: nat)
    requires |s| == n1 + n2 && m <= n2 <= n1 && n1 > 0
    ensures var t := Crossed(s, n1, n2, From(m));
      && t[..n2] == s[..m] + s[m + n1..]
      && Unrotated(t[n2..], Turn(n1, n2, m)) == s[m..m + n1]
  {
    var t, offset := Crossed(s, n1, n2, From(m)), Turn(n1, n2, m);
    var right := Unrotated(t[n2..], offset);
    forall p | 0 <= p < n2 ensures t[..n2][p] == (s[..m] + s[m + n1..])[p] {
      assert t[p] == CrossedAt(s, n1, n2, From(m), p);
    }
    forall x | 0 <= x < n1 ensures right[x] == s[m..m + n1][x] {
      InnerRight(s, n1, n2, m, offset, x);
    }
  }

  // ---- Everyone gets home ----

  /** Real entries sit in the slots they are bound for. */
  ghost predicate Home(r: seq<DistEntry>, first: int) {
    forall p :: 0 <= p < |r| && !r[p].isPadding ==> r[p].dstIdx == first + p
  }

  lemma HomeConcat(r: seq<DistEntry>, t: seq<DistEntry>, first: int, second: int)
    requires Home(r, first) && Home(t, second) && second == first + |r|
    ensures Home(r + t, first)
  {
  }

  lemma PairHome(s: seq<DistEntry>, first: int, hi: int, offset: nat, m: nat)
    requires |s| == 2 && offset < 2 && hi == first + 2 && Lined(Unrotated(s, offset), first, hi, m)
    ensures Home(Exchanged(s, Left(s, first + 1) == offset), first)
  {
    var u := Unrotated(s, offset);
    LeftIsPrefix(u, first, first + 1, hi, m);
    UnrotatedTotal(s, offset, Ind(Below(first + 1)));
    UnrotatedAt(s, offset, 0);
    UnrotatedAt(s, offset, 1);
  }

  /** The parts of one level: block length, cut, rotations of the two halves. */
  ghost predicate PowerParts(s: seq<DistEntry>, first: int, mid: int, offset: int, h: nat, m: int, o: nat, e: nat) {
    && |s| > 2 && IsPower(|s|) && |s| == 2 * h && h > 0 && mid == first + h && m == Left(s, mid)
    && o == offset % h && e == (offset + m) % h
  }

  lemma PowerUnfolds(s: seq<DistEntry>, first: int, mid: int, offset: int, h: nat, m: int, o: nat, e: nat)
    requires PowerParts(s, first, mid, offset, h, m, o, e)
    ensures IsPower(h)
    ensures Power(s, first, offset) == PowerHalved(Crossed(s, h, h, Between(offset, m, h)), h, first, o, mid, e)
  {
    HalfPower(|s|);
  }

  lemma PowerHalves(s: seq<DistEntry>, first: int, mid: int, hi: int, offset: nat, h: nat, m: nat, m2: int, o: nat, e: nat)
    requires PowerParts(s, first, mid, offset, h, m2, o, e) && offset < |s| == 2 * h && hi == mid + h && h > 0
    requires Lined(Unrotated(s, offset), first, hi, m)
    ensures 0 <= m2 <= m
    ensures var t := Crossed(s, h, h, Between(offset, m2, h));
      Lined(Unrotated(t[..h], o), first, mid, m2) && Lined(Unrotated(t[h..], e), mid, hi, m - m2)
  {
    var u := Unrotated(s, offset);
    UnrotatedTotal(s, offset, Ind(Below(mid)));
    LeftIsPrefix(u, first, mid, hi, m);
    PowerCrosses(s, h, offset, m2);
    var t := Crossed(s, h, h, Between(offset, m2, h));
    LineSplits(u, first, mid, hi, m, h, m2, Unrotated(t[..h], o), Unrotated(t[h..], e));
  }

  /** A rotated line of entries is routed home. */
  lemma {:induction false} PowerRoutes(s: seq<DistEntry>, first: int, hi: int, offset: nat, m: nat)
    requires IsPower(|s|) && offset < |s| && hi == first + |s| && Lined(Unrotated(s, offset), first, hi, m)
    ensures Home(Power(s, first, offset), first)
    decreases |s|
  {
    if |s| == 1 {
      assert Unrotated(s, offset) == s;
    } else if |s| == 2 {
      PairHome(s, first, hi, offset, m);
    } else {
      var h := |s| / 2;
      var mid := first + h;
      var m2 := Left(s, mid);
      PowerStep(s, first, mid, hi, offset, h, m, m2, offset % h, (offset + m2) % h);
    }
  }

  lemma {:induction false} PowerStep(s: seq<DistEntry>, first: int, mid: int, hi: int, offset: nat, h: nat, m: nat, m2: int, o: nat, e: nat)
    requires PowerParts(s, first, mid, offset, h, m2, o, e) && offset < |s| && hi == first + |s|
    requires Lined(Unrotated(s, offset), first, hi, m)
    ensures Home(Power(s, first, offset), first)
    decreases |s|, 0
  {
    PowerUnfolds(s, first, mid, offset, h, m2, o, e);
    PowerHalves(s, first, mid, hi, offset, h, m, m2, o, e);
    var t := Crossed(s, h, h, Between(offset, m2, h));
    PowerRoutes(t[..h], first, mid, o, m2);
    PowerRoutes(t[h..], mid, hi, e, m - m2);
    HomeConcat(Power(t[..h], first, o), Power(t[h..], mid, e), first, mid);
  }

  lemma LeftPrefix(s: seq<DistEntry>, lo: int, mid: int, hi: int, m: nat, n2: nat)
    requires Lined(s, lo, hi, m) && lo <= mid <= hi && mid - lo <= n2 <= |s|
    ensures Left(s[..n2], mid) == Left(s, mid)
  {
    LeftIsPrefix(s, lo, mid, hi, m);
    TotalSplit(s, n2, Ind(Below(mid)));
    TotalZero(s[n2..], Ind(Below(mid)));
  }

  ghost predicate InnerParts(s: seq<DistEntry>, first: int, mid: int, n1: nat, n2: nat, m: int, e: nat) {
    && |s| == n1 + n2 && 0 < n2 <= n1 && mid == first + n2
    && m == Left(s[..n2], mid) && e == Turn(n1, n2, m)
  }

  lemma InnerCuts(s: seq<DistEntry>, first: int, mid: int, hi: int, n1: nat, n2: nat, m: nat, m2: int, e: nat)
    requires InnerParts(s, first, mid, n1, n2, m2, e) && hi == mid + n1
    requires Lined(s, first, hi, m)
    ensures 0 <= m2 <= m
    ensures var t := Crossed(s, n1, n2, From(m2));
      Lined(t[..n2], first, mid, m2) && Lined(Unrotated(t[n2..], e), mid, hi, m - m2)
  {
    LeftPrefix(s, first, mid, hi, m, n2);
    LeftIsPrefix(s, first, mid, hi, m);
    InnerCrosses(s, n1, n2, m2);
    var t := Crossed(s, n1, n2, From(m2));
    LineSplits(s, first, mid, hi, m, n1, m2, t[..n2], Unrotated(t[n2..], e));
  }

  lemma InnerUnfolds(s: seq<DistEntry>, first: int, mid: int, n1: nat, n2: nat, m: int, e: nat)
    requires InnerParts(s, first, mid, n1, n2, m, e) && IsPower(n1)
    ensures var t := Crossed(s, n1, n2, From(m)); InnerCut(s, first, n1) == Inner(t[..n2], first) + Power(t[n2..], mid, e)
  {
    assert |s| - n1 == n2;
    assert Left(s[..|s| - n1], first + (|s| - n1)) == m;
  }

  /** A line of entries is routed home, whatever its length. */
  lemma {:induction false} InnerRoutes(s: seq<DistEntry>, first: int, hi: int, m: nat)
    requires hi == first + |s| && Lined(s, first, hi, m)
    ensures Home(Inner(s, first), first)
    decreases |s|
  {
    if |s| > 2 {
      PowerBelowBounds(|s|);
      var n1 := PowerBelow(|s|);
      var n2 := |s| - n1;
      var mid := first + n2;
      var m2 := Left(s[..n2], mid);
      InnerStep(s, first, mid, hi, n1, n2, m, m2, Turn(n1, n2, m2));
    } else if |s| == 2 && m == 2 {
      LinedGap(s, first, hi, m, 0, 1);
    }
  }

  lemma {:induction false} InnerStep(s: seq<DistEntry>, first: int, mid: int, hi: int, n1: nat, n2: nat, m: nat, m2: int, e: nat)
    requires InnerParts(s, first, mid, n1, n2, m2, e) && hi == first + |s| && IsPower(n1)
    requires Lined(s, first, hi, m)
    ensures Home(InnerCut(s, first, n1), first)
    decreases |s|, 0
  {
    InnerUnfolds(s, first, mid, n1, n2, m2, e);
    InnerCuts(s, first, mid, hi, n1, n2, m, m2, e);
    var t := Crossed(s, n1, n2, From(m2));
    InnerRoutes(t[..n2], first, mid, m2);
    PowerRoutes(t[n2..], mid, hi, e, m - m2);
    HomeConcat(Inner(t[..n2], first), Power(t[n2..], mid, e), first, mid);
  }
}
