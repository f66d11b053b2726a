/** The AKS network in place: each call routes its block of the buffer as the specification says, and nothing else moves. */
module AksInPlace {
  import opened Totals
  import opened Waksman
  import opened AksNetwork

  // ---- Nothing is lost ----

  /** One more pair of a cross-swap. */
  lemma CrossedStep(s: seq<DistEntry>, d: nat, m: nat, on: nat -> bool)
    requires m + 1 <= d && d + m + 1 <= |s|
    ensures Crossed(s, d, m + 1, on) == if on(m) then Exchange(Crossed(s, d, m, on), m, m + d) else Crossed(s, d, m, on)
  {
    var t, u := Crossed(s, d, m, on), Crossed(s, d, m + 1, on);
    forall p | 0 <= p < |s| ensures u[p] == (if on(m) then Exchange(t, m, m + d) else t)[p] {
      assert u[p] == CrossedAt(s, d, m + 1, on, p) && t[p] == CrossedAt(s, d, m, on, p);
      assert t[m] == CrossedAt(s, d, m, on, m) && t[m + d] == CrossedAt(s, d, m, on, m + d);
    }
  }

  lemma {:induction false} CrossedPermutes(s: seq<DistEntry>, d: nat, m: nat, on: nat -> bool)
    requires m <= d && d + m <= |s|
    ensures multiset(Crossed(s, d, m, on)) == multiset(s)
  {
    if m == 0 {
      assert Crossed(s, d, 0, on) == s;
    } else {
      CrossedPermutes(s, d, m - 1, on);
      CrossedStep(s, d, m - 1, on);
      ExchangeKeeps(Crossed(s, d, m - 1, on), m - 1, m - 1 + d);
    }
  }

  lemma ExchangeKeeps<T>(s: seq<T>, p: nat, q: nat)
    requires p < |s| && q < |s|
    ensures multiset(Exchange(s, p, q)) == multiset(s)
  {
  }

  lemma PairPermutes(s: seq<DistEntry>, swap: bool)
    requires |s| == 2
    ensures multiset(Exchanged(s, swap)) == multiset(s)
  {
    assert s == [s[0], s[1]];
  }

  lemma Rejoin(t: seq<DistEntry>, k: nat, a: seq<DistEntry>, b: seq<DistEntry>)
    requires k <= |t| && multiset(a) == multiset(t[..k]) && multiset(b) == multiset(t[k..])
    ensures multiset(a + b) == multiset(t)
  {
    assert t == t[..k] + t[k..];
  }

  lemma {:induction false} PowerPermutes(s: seq<DistEntry>, first: int, offset: int)
    requires IsPower(|s|)
    ensures multiset(Power(s, first, offset)) == multiset(s)
    decreases |s|, 1
  {
    if |s| == 2 {
      HalfPower(|s|);
      PairPermutes(s, Left(s, first + 1) == offset);
    } else if |s| > 2 {
      var h := |s| / 2;
      var m := Left(s, first + h);
      LevelPermutes(s, first, first + h, offset, h, m, offset % h, (offset + m) % h);
    }
  }

  lemma {:induction false} LevelPermutes(s: seq<DistEntry>, first: int, mid: int, offset: int, h: nat, m: int, o: nat, e: nat)
    requires PowerParts(s, first, mid, offset, h, m, o, e)
    ensures multiset(Power(s, first, offset)) == multiset(s)
    decreases |s|, 0
  {
    PowerUnfolds(s, first, mid, offset, h, m, o, e);
    CrossedPermutes(s, h, h, Between(offset, m, h));
    var t := Crossed(s, h, h, Between(offset, m, h));
    PowerPermutes(t[..h], first, o);
    PowerPermutes(t[h..], mid, e);
    Rejoin(t, h, Power(t[..h], first, o), Power(t[h..], mid, e));
  }

  lemma {:induction false} InnerPermutes(s: seq<DistEntry>, first: int)
    ensures multiset(Inner(s, first)) == multiset(s)
    decreases |s|, 1
  {
    if |s| == 2 {
      PairPermutes(s, Misplaced(s, first));
    } else if |s| > 2 {
      PowerBelowBounds(|s|);
      var n1 := PowerBelow(|s|);
      var n2 := |s| - n1;
      var m := Left(s[..n2], first + n2);
      CutPermutes(s, first, first + n2, n1, n2, m, Turn(n1, n2, m));
    }
  }

  lemma {:induction false} CutPermutes(s: seq<DistEntry>, first: int, mid: int, n1: nat, n2: nat, m: int, e: nat)
    requires InnerParts(s, first, mid, n1, n2, m, e) && IsPower(n1)
    ensures multiset(InnerCut(s, first, n1)) == multiset(s)
    decreases |s|, 0
  {
    InnerUnfolds(s, first, mid, n1, n2, m, e);
    CrossedPermutes(s, n1, n2, From(m));
    var t := Crossed(s, n1, n2, From(m));
    InnerPermutes(t[..n2], first);
    PowerPermutes(t[n2..], mid, e);
    Rejoin(t, n2, Inner(t[..n2], first), Power(t[n2..], mid, e));
  }

  // ---- Delivery ----

  /** Every real entry is in the slot it is bound for, every other slot holds padding. */
  ghost predicate Delivered(s: seq<DistEntry>, r: seq<DistEntry>) {
    && |r| == |s|
    && (forall e :: e in s && !e.isPadding ==> 0 <= e.dstIdx < |r| && r[e.dstIdx] == e)
    && (forall p :: 0 <= p < |r| && !r[p].isPadding ==> r[p] in s && r[p].dstIdx == p)
  }

  lemma HomeDelivers(s: seq<DistEntry>, r: seq<DistEntry>)
    requires multiset(r) == multiset(s) && Home(r, 0)
    ensures Delivered(s, r)
  {
    assert |multiset(r)| == |multiset(s)|;
    forall e | e in s && !e.isPadding ensures 0 <= e.dstIdx < |r| && r[e.dstIdx] == e {
      assert e in multiset(r);
      var p :| 0 <= p < |r| && r[p] == e;
    }
    forall p | 0 <= p < |r| && !r[p].isPadding ensures r[p] in s && r[p].dstIdx == p {
      assert r[p] in multiset(s);
    }
  }

  // ---- The network in place ----

  /** was with the block from start on replaced by x. */
  ghost function Put(was: seq<DistEntry>, start: nat, x: seq<DistEntry>): (r: seq<DistEntry>)
    requires start + |x| <= |was|
    ensures |r| == |was|
  {
    was[..start] + x + was[start + |x|..]
  }

  /** aks_pow2_lt. */
  method Pow2Lt(n: nat) returns (r: nat)
    ensures r == PowerBelow(n)
  {
    var p := 1;
    while p < n
      invariant p > 0 && UpFrom(p, n) == UpFrom(1, n)
      decreases n - p
    {
      p := 2 * p;
    }
    r := p / 2;
  }

  method OSwap(buf: array<DistEntry>, i: nat, j: nat, cond: bool)
    requires i < buf.Length && j < buf.Length
    modifies buf
    ensures buf[..] == if cond then Exchange(old(buf[..]), i, j) else old(buf[..])
  {
    if cond {
      buf[i], buf[j] := buf[j], buf[i];
    }
  }

  lemma LeftStep(s: seq<DistEntry>, i: nat, temp: int)
    requires i < |s|
    ensures Left(s[..i + 1], temp) == Left(s[..i], temp) + if s[i].dstIdx < temp then 1 else 0
  {
    assert s[..i + 1] == s[..i] + [s[i]];
    TotalSnoc(s[..i], s[i], Ind(Below(temp)));
  }

  /** How many of the n entries from start on are bound for slots before temp. */
  method CountLeft(buf: array<DistEntry>, start: nat, n: nat, temp: int) returns (m: int)
    requires start + n <= buf.Length
    ensures m == Left(buf[start..start + n], temp)
  {
    m := 0;
    ghost var s := buf[start..start + n];
    for i := 0 to n
      invariant m == Left(s[..i], temp)
    {
      LeftStep(s, i, temp);
      assert buf[start + i] == s[i];
      m := m + if buf[start + i].dstIdx < temp then 1 else 0;
    }
    assert s[..n] == s;
  }

  // ---- Blocks of the buffer ----

  lemma PutSlice(was: seq<DistEntry>, start: nat, x: seq<DistEntry>, lo: nat, hi: nat)
    requires start + |x| <= |was| && lo <= hi <= |x|
    ensures Put(was, start, x)[start + lo..start + hi] == x[lo..hi]
  {
  }

  /** Replacing part of a replaced block. */
  lemma PutOver(was: seq<DistEntry>, start: nat, x: seq<DistEntry>, lo: nat, y: seq<DistEntry>, at: nat)
    requires start + |x| <= |was| && lo + |y| <= |x| && at == start + lo
    ensures Put(Put(was, start, x), at, y) == Put(was, start, Put(x, lo, y))
  {
  }

  lemma PutExchange(was: seq<DistEntry>, start: nat, x: seq<DistEntry>, p: nat, q: nat)
    requires start + |x| <= |was| && p < |x| && q < |x|
    ensures Exchange(Put(was, start, x), start + p, start + q) == Put(was, start, Exchange(x, p, q))
  {
  }

  lemma PutSame(was: seq<DistEntry>, start: nat, n: nat)
    requires start + n <= |was|
    ensures Put(was, start, was[start..start + n]) == was
  {
  }

  /** One pair of a cross-swap in the buffer. */
  method CrossPair(buf: array<DistEntry>, start: nat, d: nat, i: nat, cond: bool, ghost on: nat -> bool,
                   ghost was: seq<DistEntry>, ghost s: seq<DistEntry>)
    requires i < d && d + i < |s| && start + |s| <= |was| && cond == on(i)
    requires buf[..] == Put(was, start, Crossed(s, d, i, on))
    modifies buf
    ensures buf[..] == Put(was, start, Crossed(s, d, i + 1, on))
  {
    CrossedStep(s, d, i, on);
    PutExchange(was, start, Crossed(s, d, i, on), i, i + d);
    OSwap(buf, start + i, start + i + d, cond);
  }

  lemma CrossedNone(s: seq<DistEntry>, d: nat, on: nat -> bool)
    requires d <= |s|
    ensures Crossed(s, d, 0, on) == s
  {
  }

  /** The cross-swap of distribute_2power. */
  method CrossHalves(buf: array<DistEntry>, start: nat, h: nat, offset: nat, m: int)
    requires h > 0 && start + 2 * h <= buf.Length
    modifies buf
    ensures buf[..] == Put(old(buf[..]), start, Crossed(old(buf[start..start + 2 * h]), h, h, Between(offset, m, h)))
  {
    var cond0 := offset < h;
    var cond1 := offset % h + m < h;
    var cond3 := cond0 != cond1;
    var ii := (offset + m) % h;
    ghost var was, s, on := buf[..], buf[start..start + 2 * h], Between(offset, m, h);
    CrossedNone(s, h, on);
    PutSame(was, start, 2 * h);
    for i := 0 to h
      invariant buf[..] == Put(was, start, Crossed(s, h, i, on))
    {
      CrossPair(buf, start, h, i, cond3 != (ii <= i), on, was, s);
    }
  }

  /** The cross-swap of distribute_inner. */
  method CrossTail(buf: array<DistEntry>, start: nat, n1: nat, n2: nat, m: int)
    requires n2 <= n1 && start + n1 + n2 <= buf.Length
    modifies buf
    ensures buf[..] == Put(old(buf[..]), start, Crossed(old(buf[start..start + n1 + n2]), n1, n2, From(m)))
  {
    ghost var was, s, on := buf[..], buf[start..start + n1 + n2], From(m);
    CrossedNone(s, n1, on);
    PutSame(was, start, n1 + n2);
    for i := 0 to n2
      invariant buf[..] == Put(was, start, Crossed(s, n1, i, on))
    {
      CrossPair(buf, start, n1, i, m <= i, on, was, s);
    }
  }

  // ---- The recursion ----

  ghost function Block(buf: seq<DistEntry>, start: nat, n: nat): (r: seq<DistEntry>)
    requires start + n <= |buf|
    ensures |r| == n
  {
    buf[start..start + n]
  }

  lemma BlockPrefix(was: seq<DistEntry>, start: nat, n: nat, k: nat)
    requires start + n <= |was| && k <= n
    ensures was[start..start + k] == Block(was, start, n)[..k]
  {
  }

  /** Routing the two parts of the block t one after the other, in either order. */
  lemma PutBoth(was: seq<DistEntry>, start: nat, t: seq<DistEntry>, k: nat, mid: nat, j: nat, left: seq<DistEntry>, right: seq<DistEntry>)
    requires start + |t| <= |was| && |left| == k && |right| == j && |t| == k + j && mid == start + k
    ensures var v := Put(was, start, t);
      && Block(v, start, k) == t[..k] && Block(v, mid, j) == t[k..]
      && Block(Put(v, mid, right), start, k) == t[..k] && Put(Put(v, mid, right), start, left) == Put(was, start, left + right)
      && Block(Put(v, start, left), mid, j) == t[k..] && Put(Put(v, start, left), mid, right) == Put(was, start, left + right)
  {
  }

  /** distribute_2power on the block s of the buffer. */
  method PowerInPlace(buf: array<DistEntry>, start: nat, first: int, offset: nat, n: nat, ghost was: seq<DistEntry>, ghost s: seq<DistEntry>)
    requires IsPower(n) && start + n <= buf.Length && buf[..] == was && s == Block(was, start, n)
    modifies buf
    ensures buf[..] == Put(was, start, Power(s, first, offset))
    decreases n
  {
    PutSame(was, start, n);
    if n <= 1 {
      return;
    }
    var h := n / 2;
    HalfPower(n);
    var m := CountLeft(buf, start, n, first + h);
    if n == 2 {
      PairInPlace(buf, start, m == offset);
    } else {
      PowerLevel(buf, start, first, first + h, offset, h, m, was, s);
    }
  }

  /** Both entries of a two-slot block exchanged if asked. */
  method PairInPlace(buf: array<DistEntry>, start: nat, swap: bool)
    requires start + 2 <= buf.Length
    modifies buf
    ensures buf[..] == Put(old(buf[..]), start, Exchanged(old(Block(buf[..], start, 2)), swap))
  {
    OSwap(buf, start, start + 1, swap);
  }

  method PowerLevel(buf: array<DistEntry>, start: nat, first: int, mid: int, offset: nat, h: nat, m: int, ghost was: seq<DistEntry>, ghost s: seq<DistEntry>)
    requires h > 0 && start + 2 * h <= buf.Length && buf[..] == was && s == Block(was, start, 2 * h)
    requires PowerParts(s, first, mid, offset, h, m, offset % h, (offset + m) % h)
    modifies buf
    ensures buf[..] == Put(was, start, Power(s, first, offset))
    decreases 2 * h, 1
  {
    ghost var t := Crossed(s, h, h, Between(offset, m, h));
    PowerUnfolds(s, first, mid, offset, h, m, offset % h, (offset + m) % h);
    HalvedUnfolds(t, h, first, offset % h, mid, (offset + m) % h);
    CrossHalves(buf, start, h, offset, m);
    RouteHalves(buf, start, first, offset % h, mid, (offset + m) % h, h, was, t);
  }

  lemma HalvedUnfolds(t: seq<DistEntry>, h: nat, first: int, o: int, mid: int, e: int)
    requires |t| == 2 * h && h > 0 && IsPower(h)
    ensures PowerHalved(t, h, first, o, mid, e) == Power(t[..h], first, o) + Power(t[h..], mid, e)
  {
  }

  /** Right half first, then left. */
  method RouteHalves(buf: array<DistEntry>, start: nat, first: int, o: nat, mid: int, e: nat, h: nat, ghost was: seq<DistEntry>, ghost t: seq<DistEntry>)
    requires start + 2 * h <= |was| && |t| == 2 * h && h > 0 && IsPower(h) && buf[..] == Put(was, start, t)
    modifies buf
    ensures buf[..] == Put(was, start, Power(t[..h], first, o) + Power(t[h..], mid, e))
    decreases 2 * h, 0
  {
    ghost var left, right := Power(t[..h], first, o), Power(t[h..], mid, e);
    ghost var v := Put(was, start, t);
    var second := start + h;
    PutBoth(was, start, t, h, second, h, left, right);
    PowerInPlace(buf, second, mid, e, h, v, t[h..]);
    PowerInPlace(buf, start, first, o, h, Put(v, second, right), t[..h]);
  }

  /** distribute_inner on the block s of the buffer. */
  method InnerInPlace(buf: array<DistEntry>, start: nat, first: int, n: nat, ghost was: seq<DistEntry>, ghost s: seq<DistEntry>)
    requires start + n <= buf.Length && buf[..] == was && s == Block(was, start, n)
    modifies buf
    ensures buf[..] == Put(was, start, Inner(s, first))
    decreases n
  {
    PutSame(was, start, n);
    if n <= 1 {
      return;
    }
    if n == 2 {
      var e0, e1 := buf[start], buf[start + 1];
      var sw := (!e0.isPadding && first < e0.dstIdx) || (!e1.isPadding && e1.dstIdx < first + 1);
      PairInPlace(buf, start, sw);
      return;
    }
    var n1 := Pow2Lt(n);
    PowerBelowBounds(n);
    var n2 := n - n1;
    var m := CountLeft(buf, start, n2, first + n2);
    BlockPrefix(was, start, n, n2);
    InnerLevel(buf, start, first, first + n2, n1, n2, m, was, s);
  }

  method InnerLevel(buf: array<DistEntry>, start: nat, first: int, mid: int, n1: nat, n2: nat, m: int, ghost was: seq<DistEntry>, ghost s: seq<DistEntry>)
    requires n1 > 0 && start + n1 + n2 <= buf.Length && buf[..] == was && s == Block(was, start, n1 + n2)
    requires InnerParts(s, first, mid, n1, n2, m, Turn(n1, n2, m)) && IsPower(n1)
    modifies buf
    ensures buf[..] == Put(was, start, InnerCut(s, first, n1))
    decreases n1 + n2, 1
  {
    InnerUnfolds(s, first, mid, n1, n2, m, Turn(n1, n2, m));
    CrossTail(buf, start, n1, n2, m);
    RouteParts(buf, start, first, n2, mid, (n1 - n2 + m) % n1, n1, was, Crossed(s, n1, n2, From(m)));
  }

  /** The left part as a line of any length, the right part as a rotated power-of-two block. */
  method RouteParts(buf: array<DistEntry>, start: nat, first: int, n2: nat, mid: int, e: nat, n1: nat, ghost was: seq<DistEntry>, ghost t: seq<DistEntry>)
    requires start + n1 + n2 <= |was| && |t| == n1 + n2 && n1 > 0 && n2 > 0 && IsPower(n1) && buf[..] == Put(was, start, t)
    modifies buf
    ensures buf[..] == Put(was, start, Inner(t[..n2], first) + Power(t[n2..], mid, e))
    decreases n1 + n2, 0
  {
    ghost var left, right := Inner(t[..n2], first), Power(t[n2..], mid, e);
    ghost var v := Put(was, start, t);
    var second := start + n2;
    PutBoth(was, start, t, n2, second, n1, left, right);
    InnerInPlace(buf, start, first, n2, v, t[..n2]);
    PowerInPlace(buf, second, mid, e, n1, Put(v, start, left), t[n2..]);
  }

  // ---- The entry point ----

  /** Padding is bound for one slot past the end. */
  function MarkedEntry(e: DistEntry, n: int): DistEntry {
    if e.isPadding then e.(dstIdx := n) else e
  }

  ghost function Marked(s: seq<DistEntry>, n: int): (r: seq<DistEntry>)
    ensures |r| == |s|
  {
    seq(|s|, i requires 0 <= i < |s| => MarkedEntry(s[i], n))
  }

  method MarkPadding(data: array<DistEntry>, n: nat, dst: int)
    requires n <= data.Length
    modifies data
    ensures data[..n] == Marked(old(data[..n]), dst)
  {
    ghost var was := data[..];
    for i := 0 to n
      invariant forall j :: 0 <= j < n ==> data[j] == if j < i then MarkedEntry(was[j], dst) else was[j]
    {
      if data[i].isPadding {
        data[i] := data[i].(dstIdx := dst);
      }
    }
  }

  /** m real entries in front, their destinations increasing inside the array. */
  ghost predicate FrontLoaded(s: seq<DistEntry>, m: nat) {
    && m <= |s|
    && (forall k :: 0 <= k < m ==> !s[k].isPadding && 0 <= s[k].dstIdx < |s|)
    && (forall j, k :: 0 <= j < k < m ==> s[j].dstIdx < s[k].dstIdx)
    && (forall k :: m <= k < |s| ==> s[k].isPadding)
  }

  lemma MarkedDelivers(s: seq<DistEntry>, m: nat)
    requires FrontLoaded(s, m)
    ensures Delivered(s, Inner(Marked(s, |s|), 0))
  {
    var t := Marked(s, |s|);
    InnerRoutes(t, 0, |s|, m);
    InnerPermutes(t, 0);
    HomeDelivers(t, Inner(t, 0));
    SameReals(s, |s|, Inner(t, 0));
  }

  lemma SameReals(s: seq<DistEntry>, n: int, r: seq<DistEntry>)
    requires Delivered(Marked(s, n), r)
    ensures Delivered(s, r)
  {
    var t := Marked(s, n);
    forall e: DistEntry | !e.isPadding ensures e in s <==> e in t {
      if e in s {
        var i :| 0 <= i < |s| && s[i] == e;
        assert t[i] == e;
      }
    }
  }

  /** aks_distribute: the network applied to all entries; a front-loaded array is delivered, whatever its length. */
  method AksDistribute(data: array<DistEntry>)
    modifies data
    ensures data[..] == Inner(Marked(old(data[..]), data.Length), 0)
    ensures forall m: nat :: FrontLoaded(old(data[..]), m) ==> Delivered(old(data[..]), data[..])
  {
    ghost var was := data[..];
    var n := data.Length;
    MarkPadding(data, n, n);
    assert data[..n] == data[..] && was[..n] == was;
    PutAll(Marked(was, n), Inner(Marked(was, n), 0));
    InnerInPlace(data, 0, 0, n, Marked(was, n), Marked(was, n));
    forall m: nat | FrontLoaded(was, m) ensures Delivered(was, data[..]) {
      MarkedDelivers(was, m);
    }
  }

  lemma PutAll(was: seq<DistEntry>, x: seq<DistEntry>)
    requires |x| == |was|
    ensures Block(was, 0, |was|) == was && Put(was, 0, x) == x
  {
  }
}
