/** The external AKS distribute: chunks fetched from host memory, the same routing up to the destinations written on padding. */
module AksExternal {
  import opened Totals
  import opened AksNetwork
  import opened AksInPlace

  // ---- Equal up to padding destinations ----

  function Blank(e: DistEntry): DistEntry {
    if e.isPadding then e.(dstIdx := 0) else e
  }

  /** The same entries; padding may name different destinations. */
  ghost predicate Similar(s: seq<DistEntry>, t: seq<DistEntry>) {
    |s| == |t| && forall i :: 0 <= i < |s| ==> Blank(s[i]) == Blank(t[i])
  }

  /** Padding is bound for hi or beyond. */
  ghost predicate PadsBeyond(s: seq<DistEntry>, hi: int) {
    forall i :: 0 <= i < |s| && s[i].isPadding ==> hi <= s[i].dstIdx
  }

  lemma SimilarConcat(a: seq<DistEntry>, b: seq<DistEntry>, c: seq<DistEntry>, d: seq<DistEntry>)
    requires Similar(a, c) && Similar(b, d)
    ensures Similar(a + b, c + d)
  {
  }

  lemma SimilarChain(a: seq<DistEntry>, b: seq<DistEntry>, c: seq<DistEntry>)
    requires Similar(a, b) && Similar(b, c)
    ensures Similar(a, c)
  {
  }

  /** Padding is not counted, so similar blocks count alike. */
  lemma SimilarLeft(s: seq<DistEntry>, t: seq<DistEntry>, temp: int)
    requires Similar(s, t) && PadsBeyond(s, temp) && PadsBeyond(t, temp)
    ensures Left(s, temp) == Left(t, temp)
  {
    forall i | 0 <= i < |s| ensures Ind(Below(temp))(s[i]) == Ind(Below(temp))(t[i]) {
      assert Blank(s[i]) == Blank(t[i]);
    }
    TotalZip(s, t, Ind(Below(temp)), Ind(Below(temp)));
  }

  lemma SimilarCrossed(s: seq<DistEntry>, t: seq<DistEntry>, d: nat, m: nat, on: nat -> bool, hi: int)
    requires Similar(s, t) && m <= d && d + m <= |s| && PadsBeyond(s, hi)
    ensures Similar(Crossed(s, d, m, on), Crossed(t, d, m, on)) && PadsBeyond(Crossed(s, d, m, on), hi)
  {
    var u, v := Crossed(s, d, m, on), Crossed(t, d, m, on);
    forall p | 0 <= p < |s| ensures Blank(u[p]) == Blank(v[p]) && (u[p].isPadding ==> hi <= u[p].dstIdx) {
      assert u[p] == CrossedAt(s, d, m, on, p) && v[p] == CrossedAt(t, d, m, on, p);
    }
  }

  lemma PadsCut(s: seq<DistEntry>, k: nat, hi: int, mid: int)
    requires PadsBeyond(s, hi) && k <= |s| && mid <= hi
    ensures PadsBeyond(s, mid) && PadsBeyond(s[..k], mid) && PadsBeyond(s[k..], hi) && PadsBeyond(s[..k], hi)
  {
  }

  lemma SimilarCut(s: seq<DistEntry>, t: seq<DistEntry>, k: nat)
    requires Similar(s, t) && k <= |s|
    ensures Similar(s[..k], t[..k]) && Similar(s[k..], t[k..])
  {
  }

  /** The power-of-two network does not look at where padding is bound for. */
  lemma {:induction false} PowerSimilar(s: seq<DistEntry>, t: seq<DistEntry>, first: int, hi: int, offset: int)
    requires IsPower(|s|) && Similar(s, t) && hi == first + |s| && PadsBeyond(s, hi) && PadsBeyond(t, hi)
    ensures Similar(Power(s, first, offset), Power(t, first, offset))
    decreases |s|
  {
    if |s| == 2 {
      HalfPower(|s|);
      PadsCut(s, 0, hi, first + 1);
      PadsCut(t, 0, hi, first + 1);
      SimilarLeft(s, t, first + 1);
    } else if |s| > 2 {
      HalfPower(|s|);
      var h := |s| / 2;
      var mid := first + h;
      PadsCut(s, h, hi, mid);
      PadsCut(t, h, hi, mid);
      SimilarLeft(s, t, mid);
      var m := Left(s, mid);
      PowerLevelSimilar(s, t, first, mid, hi, offset, h, m, offset % h, (offset + m) % h);
    }
  }

  lemma {:induction false} PowerLevelSimilar(s: seq<DistEntry>, t: seq<DistEntry>, first: int, mid: int, hi: int, offset: int, h: nat, m: int, o: nat, e: nat)
    requires Similar(s, t) && hi == first + |s| && PadsBeyond(s, hi) && PadsBeyond(t, hi)
    requires PowerParts(s, first, mid, offset, h, m, o, e) && PowerParts(t, first, mid, offset, h, m, o, e)
    ensures Similar(Power(s, first, offset), Power(t, first, offset))
    decreases |s|, 0
  {
    var on := Between(offset, m, h);
    var u, v := Crossed(s, h, h, on), Crossed(t, h, h, on);
    PowerUnfolds(s, first, mid, offset, h, m, o, e);
    PowerUnfolds(t, first, mid, offset, h, m, o, e);
    HalvedUnfolds(u, h, first, o, mid, e);
    HalvedUnfolds(v, h, first, o, mid, e);
    SimilarCrossed(s, t, h, h, on, hi);
    SimilarCrossed(t, s, h, h, on, hi);
    SimilarCut(u, v, h);
    PadsCut(u, h, hi, mid);
    PadsCut(v, h, hi, mid);
    PowerSimilar(u[..h], v[..h], first, mid, o);
    PowerSimilar(u[h..], v[h..], mid, hi, e);
    SimilarConcat(Power(u[..h], first, o), Power(u[h..], mid, e), Power(v[..h], first, o), Power(v[h..], mid, e));
  }

  /** Nor does the network for any length. */
  lemma {:induction false} InnerSimilar(s: seq<DistEntry>, t: seq<DistEntry>, first: int, hi: int)
    requires Similar(s, t) && hi == first + |s| && PadsBeyond(s, hi) && PadsBeyond(t, hi)
    ensures Similar(Inner(s, first), Inner(t, first))
    decreases |s|
  {
    if |s| == 2 {
      assert Blank(s[0]) == Blank(t[0]) && Blank(s[1]) == Blank(t[1]);
    } else if |s| > 2 {
      PowerBelowBounds(|s|);
      var n1 := PowerBelow(|s|);
      var n2 := |s| - n1;
      var mid := first + n2;
      PadsCut(s, n2, hi, mid);
      PadsCut(t, n2, hi, mid);
      SimilarCut(s, t, n2);
      SimilarLeft(s[..n2], t[..n2], mid);
      var m := Left(s[..n2], mid);
      InnerLevelSimilar(s, t, first, mid, hi, n1, n2, m, Turn(n1, n2, m));
    }
  }

  lemma {:induction false} InnerLevelSimilar(s: seq<DistEntry>, t: seq<DistEntry>, first: int, mid: int, hi: int, n1: nat, n2: nat, m: int, e: nat)
    requires Similar(s, t) && hi == first + |s| && PadsBeyond(s, hi) && PadsBeyond(t, hi) && IsPower(n1)
    requires InnerParts(s, first, mid, n1, n2, m, e) && InnerParts(t, first, mid, n1, n2, m, e)
    ensures Similar(InnerCut(s, first, n1), InnerCut(t, first, n1))
    decreases |s|, 0
  {
    var on := From(m);
    var u, v := Crossed(s, n1, n2, on), Crossed(t, n1, n2, on);
    InnerUnfolds(s, first, mid, n1, n2, m, e);
    InnerUnfolds(t, first, mid, n1, n2, m, e);
    SimilarCrossed(s, t, n1, n2, on, hi);
    SimilarCrossed(t, s, n1, n2, on, hi);
    SimilarCut(u, v, n2);
    PadsCut(u, n2, hi, mid);
    PadsCut(v, n2, hi, mid);
    InnerSimilar(u[..n2], v[..n2], first, mid);
    PowerSimilar(u[n2..], v[n2..], mid, hi, e);
    SimilarConcat(Inner(u[..n2], first), Power(u[n2..], mid, e), Inner(v[..n2], first), Power(v[n2..], mid, e));
  }

  // ---- Chunk I/O ----

  /** Chunk buffers of the enclave, reused at every level. */
  class Chunks {
    const scan: array<DistEntry>
    const left: array<DistEntry>
    const right: array<DistEntry>

    ghost predicate Valid() {
      && scan.Length >= 2 && left.Length == right.Length == scan.Length
      && scan != left && scan != right && left != right
    }

    ghost function Buffers(): set<object> {
      {scan, left, right}
    }

    constructor (size: nat)
      requires size >= 2
      ensures Valid() && fresh(Buffers()) && scan.Length == size
    {
      var pad := DistEntry(true, 0, []);
      scan := new DistEntry[size](_ => pad);
      left := new DistEntry[size](_ => pad);
      right := new DistEntry[size](_ => pad);
    }
  }

  method ReadFlat(host: array<DistEntry>, offset: nat, buf: array<DistEntry>, n: nat)
    requires host != buf && offset + n <= host.Length && n <= buf.Length
    modifies buf
    ensures buf[..n] == Block(host[..], offset, n)
  {
    forall i | 0 <= i < n {
      buf[i] := host[offset + i];
    }
  }

  method WriteFlat(host: array<DistEntry>, offset: nat, buf: array<DistEntry>, n: nat)
    requires host != buf && offset + n <= host.Length && n <= buf.Length
    modifies host
    ensures host[..] == Put(old(host[..]), offset, buf[..n])
  {
    forall i | 0 <= i < n {
      host[offset + i] := buf[i];
    }
  }

  // ---- Scan phase ----

  /** The destination that the scan counts: padding lies beyond the array. */
  function Scanned(e: DistEntry, pad: int): int {
    if e.isPadding then pad else e.dstIdx
  }

  lemma ScanStep(s: seq<DistEntry>, hi: int, pad: int, temp: int, k: nat, next: nat)
    requires k < |s| && next == k + 1 && temp <= hi && temp <= pad
    ensures Left(Marked(s, hi)[..next], temp) == Left(Marked(s, hi)[..k], temp) + if Scanned(s[k], pad) < temp then 1 else 0
  {
    LeftStep(Marked(s, hi), k, temp);
  }

  /** One chunk of the scan: entries are counted where they lie, padding as bound beyond the array. */
  method ScanChunk(host: array<DistEntry>, scan: array<DistEntry>, offset: nat, chunk: nat, csz: nat, pad: int, temp: int, m0: int,
                   ghost hi: int, ghost s: seq<DistEntry>)
    returns (m: int)
    requires host != scan && chunk + csz <= |s| && csz <= scan.Length && offset + |s| <= host.Length
    requires s == Block(host[..], offset, |s|) && temp <= pad && temp <= hi && m0 == Left(Marked(s, hi)[..chunk], temp)
    modifies scan
    ensures m == Left(Marked(s, hi)[..chunk + csz], temp)
  {
    ReadFlat(host, offset + chunk, scan, csz);
    ChunkOf(host[..], offset, s, chunk, csz);
    m := m0;
    ghost var k := chunk;
    for i := 0 to csz
      invariant scan[..csz] == s[chunk..chunk + csz]
      invariant k == chunk + i && m == Left(Marked(s, hi)[..k], temp)
    {
      var e := scan[i];
      assert e == scan[..csz][i] == s[k];
      ScanStep(s, hi, pad, temp, k, k + 1);
      m := m + if Scanned(e, pad) < temp then 1 else 0;
      k := k + 1;
    }
  }

  lemma ChunkOf(was: seq<DistEntry>, offset: nat, s: seq<DistEntry>, chunk: nat, csz: nat)
    requires offset + |s| <= |was| && s == Block(was, offset, |s|) && chunk + csz <= |s|
    ensures Block(was, offset + chunk, csz) == s[chunk..chunk + csz]
  {
    var u, v := Block(was, offset + chunk, csz), s[chunk..chunk + csz];
    forall k | 0 <= k < csz ensures u[k] == v[k] {
      assert v[k] == s[chunk + k];
    }
  }

  /** The scan of the block s, chunk by chunk. */
  method ScanLeft(host: array<DistEntry>, scan: array<DistEntry>, offset: nat, n: nat, pad: int, temp: int, ghost hi: int, ghost s: seq<DistEntry>)
    returns (m: int)
    requires host != scan && scan.Length >= 2 && offset + n <= host.Length && s == Block(host[..], offset, n)
    requires temp <= pad && temp <= hi
    modifies scan
    ensures m == Left(Marked(s, hi), temp)
  {
    m := 0;
    var chunk := 0;
    while chunk < n
      invariant chunk <= n && m == Left(Marked(s, hi)[..chunk], temp)
    {
      var csz := if chunk + scan.Length <= n then scan.Length else n - chunk;
      m := ScanChunk(host, scan, offset, chunk, csz, pad, temp, m, hi, s);
      chunk := chunk + csz;
    }
    assert Marked(s, hi)[..n] == Marked(s, hi);
  }

  // ---- Swap phase ----

  /** cond3 ^ (from <= i); distribute_inner swaps from `from` on. */
  ghost function Flip(flip: bool, from: int): nat -> bool {
    (i: nat) => flip != (from <= i)
  }

  lemma FlipIsBetween(offset: int, m: int, h: nat, s: seq<DistEntry>)
    requires h > 0 && |s| == 2 * h
    ensures Crossed(s, h, h, Flip((offset < h) != (offset % h + m < h), (offset + m) % h)) == Crossed(s, h, h, Between(offset, m, h))
  {
    var f, g := Flip((offset < h) != (offset % h + m < h), (offset + m) % h), Between(offset, m, h);
    forall p | 0 <= p < |s| ensures CrossedAt(s, h, h, f, p) == CrossedAt(s, h, h, g, p) {
    }
  }

  lemma FlipIsFrom(s: seq<DistEntry>, n1: nat, n2: nat, m: int)
    requires n2 <= n1 && n1 + n2 <= |s|
    ensures Crossed(s, n1, n2, Flip(false, m)) == Crossed(s, n1, n2, From(m))
  {
    forall p | 0 <= p < |s| ensures CrossedAt(s, n1, n2, Flip(false, m), p) == CrossedAt(s, n1, n2, From(m), p) {
    }
  }

  /** The two sides of a chunk of pairs, exchanged where on. */
  ghost function SwappedSide(mine: seq<DistEntry>, other: seq<DistEntry>, chunk: nat, on: nat -> bool): (r: seq<DistEntry>)
    requires |mine| == |other|
    ensures |r| == |mine|
  {
    seq(|mine|, i requires 0 <= i < |mine| => if on(chunk + i) then other[i] else mine[i])
  }

  method SwapBuffers(left: array<DistEntry>, right: array<DistEntry>, csz: nat, chunk: nat, flip: bool, from: int)
    requires left != right && csz <= left.Length && csz <= right.Length
    modifies left, right
    ensures left[..csz] == SwappedSide(old(left[..csz]), old(right[..csz]), chunk, Flip(flip, from))
    ensures right[..csz] == SwappedSide(old(right[..csz]), old(left[..csz]), chunk, Flip(flip, from))
  {
    ghost var l, r, on := left[..csz], right[..csz], Flip(flip, from);
    for i := 0 to csz
      invariant forall j :: 0 <= j < csz ==> left[j] == if j < i && on(chunk + j) then r[j] else l[j]
      invariant forall j :: 0 <= j < csz ==> right[j] == if j < i && on(chunk + j) then l[j] else r[j]
    {
      if flip != (from <= chunk + i) {
        left[i], right[i] := right[i], left[i];
      }
    }
  }

  lemma PutAt(was: seq<DistEntry>, start: nat, y: seq<DistEntry>, p: nat)
    requires start + |y| <= |was| && p < |was|
    ensures Put(was, start, y)[p] == if start <= p < start + |y| then y[p - start] else was[p]
  {
  }

  lemma SideAt(s: seq<DistEntry>, lo: nat, hi: nat, n: nat, chunk: nat, on: nat -> bool, i: nat)
    requires lo + n <= |s| && hi + n <= |s| && i < n
    ensures SwappedSide(Block(s, lo, n), Block(s, hi, n), chunk, on)[i] == if on(chunk + i) then s[hi + i] else s[lo + i]
  {
  }

  /** Writing both sides of a chunk back is the next stretch of the cross-swap. */
  lemma CrossedChunk(s: seq<DistEntry>, d: nat, chunk: nat, csz: nat, next: nat, far: nat, on: nat -> bool, l: seq<DistEntry>, r: seq<DistEntry>)
    requires next == chunk + csz <= d && far == d + chunk && far + csz <= |s|
    requires l == SwappedSide(Block(s, chunk, csz), Block(s, far, csz), chunk, on)
    requires r == SwappedSide(Block(s, far, csz), Block(s, chunk, csz), chunk, on)
    ensures Put(Put(Crossed(s, d, chunk, on), chunk, l), far, r) == Crossed(s, d, next, on)
  {
    var t := Crossed(s, d, chunk, on);
    var u, v := Put(Put(t, chunk, l), far, r), Crossed(s, d, next, on);
    forall p | 0 <= p < |s| ensures u[p] == v[p] {
      CrossedChunkAt(s, d, chunk, csz, next, far, on, l, r, p);
      assert v[p] == CrossedAt(s, d, next, on, p);
    }
  }

  lemma CrossedChunkAt(s: seq<DistEntry>, d: nat, chunk: nat, csz: nat, next: nat, far: nat, on: nat -> bool, l: seq<DistEntry>, r: seq<DistEntry>, p: nat)
    requires next == chunk + csz <= d && far == d + chunk && far + csz <= |s| && p < |s|
    requires l == SwappedSide(Block(s, chunk, csz), Block(s, far, csz), chunk, on)
    requires r == SwappedSide(Block(s, far, csz), Block(s, chunk, csz), chunk, on)
    ensures Put(Put(Crossed(s, d, chunk, on), chunk, l), far, r)[p] == CrossedAt(s, d, next, on, p)
  {
    var t := Crossed(s, d, chunk, on);
    PutAt(t, chunk, l, p);
    PutAt(Put(t, chunk, l), far, r, p);
    assert t[p] == CrossedAt(s, d, chunk, on, p);
    if chunk <= p < next {
      SideAt(s, chunk, far, csz, chunk, on, p - chunk);
    } else if far <= p < far + csz {
      SideAt(s, far, chunk, csz, chunk, on, p - far);
    }
  }

  /** The pairs of a chunk are still as they were. */
  lemma CrossedUntouched(was: seq<DistEntry>, offset: nat, s: seq<DistEntry>, d: nat, chunk: nat, csz: nat, on: nat -> bool)
    requires offset + |s| <= |was| && chunk + csz <= d && d + chunk + csz <= |s|
    ensures var v := Put(was, offset, Crossed(s, d, chunk, on));
      && Block(v, offset + chunk, csz) == Block(s, chunk, csz)
      && Block(v, offset + d + chunk, csz) == Block(s, d + chunk, csz)
  {
    var t := Crossed(s, d, chunk, on);
    forall p | 0 <= p < |s| && (chunk <= p < chunk + csz || d + chunk <= p < d + chunk + csz) ensures t[p] == s[p] {
      assert t[p] == CrossedAt(s, d, chunk, on, p);
    }
    PutSlice(was, offset, t, chunk, chunk + csz);
    PutSlice(was, offset, t, d + chunk, d + chunk + csz);
  }

  lemma ChunkDone(was: seq<DistEntry>, offset: nat, s: seq<DistEntry>, d: nat, chunk: nat, csz: nat, next: nat, on: nat -> bool,
                  l: seq<DistEntry>, r: seq<DistEntry>, at: nat, bt: nat)
    requires offset + |s| <= |was| && next == chunk + csz <= d && d + chunk + csz <= |s|
    requires at == offset + chunk && bt == offset + d + chunk
    requires l == SwappedSide(Block(s, chunk, csz), Block(s, d + chunk, csz), chunk, on)
    requires r == SwappedSide(Block(s, d + chunk, csz), Block(s, chunk, csz), chunk, on)
    ensures Put(Put(Put(was, offset, Crossed(s, d, chunk, on)), at, l), bt, r) == Put(was, offset, Crossed(s, d, next, on))
  {
    var t, far := Crossed(s, d, chunk, on), d + chunk;
    PutOver(was, offset, t, chunk, l, at);
    PutOver(was, offset, Put(t, chunk, l), far, r, bt);
    CrossedChunk(s, d, chunk, csz, next, far, on, l, r);
  }

  /** Fetch both sides of a chunk and exchange. */
  method FetchPairs(host: array<DistEntry>, bufs: Chunks, at: nat, bt: nat, csz: nat, chunk: nat, flip: bool, from: int)
    requires bufs.Valid() && host !in bufs.Buffers() && csz <= bufs.left.Length && at + csz <= host.Length && bt + csz <= host.Length
    modifies bufs.left, bufs.right
    ensures bufs.left[..csz] == SwappedSide(Block(host[..], at, csz), Block(host[..], bt, csz), chunk, Flip(flip, from))
    ensures bufs.right[..csz] == SwappedSide(Block(host[..], bt, csz), Block(host[..], at, csz), chunk, Flip(flip, from))
  {
    ReadFlat(host, at, bufs.left, csz);
    ReadFlat(host, bt, bufs.right, csz);
    SwapBuffers(bufs.left, bufs.right, csz, chunk, flip, from);
  }

  /** Write both sides back. */
  method StorePairs(host: array<DistEntry>, bufs: Chunks, at: nat, bt: nat, csz: nat)
    requires bufs.Valid() && host !in bufs.Buffers() && csz <= bufs.left.Length && at + csz <= host.Length && bt + csz <= host.Length
    modifies host
    ensures host[..] == Put(Put(old(host[..]), at, bufs.left[..csz]), bt, bufs.right[..csz])
  {
    WriteFlat(host, at, bufs.left, csz);
    WriteFlat(host, bt, bufs.right, csz);
  }

  /** One chunk of pairs. */
  method SwapChunk(host: array<DistEntry>, bufs: Chunks, offset: nat, d: nat, chunk: nat, csz: nat, flip: bool, from: int,
                   ghost next: nat, ghost on: nat -> bool, ghost was: seq<DistEntry>, ghost s: seq<DistEntry>)
    requires bufs.Valid() && host !in bufs.Buffers() && csz <= bufs.left.Length && on == Flip(flip, from)
    requires offset + |s| <= |was| && next == chunk + csz <= d && d + chunk + csz <= |s|
    requires host[..] == Put(was, offset, Crossed(s, d, chunk, on))
    modifies host, bufs.left, bufs.right
    ensures host[..] == Put(was, offset, Crossed(s, d, next, on))
  {
    var at, bt := offset + chunk, offset + d + chunk;
    CrossedUntouched(was, offset, s, d, chunk, csz, on);
    FetchPairs(host, bufs, at, bt, csz, chunk, flip, from);
    ghost var l, r := bufs.left[..csz], bufs.right[..csz];
    StorePairs(host, bufs, at, bt, csz);
    ChunkDone(was, offset, s, d, chunk, csz, next, on, l, r, at, bt);
  }

  /** The cross-swap of m pairs at distance d, half a buffer of pairs at a time. */
  method SwapPhase(host: array<DistEntry>, bufs: Chunks, offset: nat, d: nat, m: nat, flip: bool, from: int,
                   ghost on: nat -> bool, ghost was: seq<DistEntry>, ghost s: seq<DistEntry>)
    requires bufs.Valid() && host !in bufs.Buffers() && on == Flip(flip, from)
    requires host[..] == was && offset + |s| <= |was| && s == Block(was, offset, |s|) && m <= d && d + m <= |s|
    modifies host, bufs.left, bufs.right
    ensures host[..] == Put(was, offset, Crossed(s, d, m, on))
  {
    var pairBuf := bufs.scan.Length / 2;
    PutSame(was, offset, |s|);
    CrossedNone(s, d, on);
    var chunk := 0;
    while chunk < m
      invariant chunk <= m && host[..] == Put(was, offset, Crossed(s, d, chunk, on))
    {
      var csz := if chunk + pairBuf <= m then pairBuf else m - chunk;
      var next := chunk + csz;
      SwapChunk(host, bufs, offset, d, chunk, csz, flip, from, next, on, was, s);
      chunk := next;
    }
  }

  // ---- The external recursion ----

  /** Marking padding differently in a block makes a similar block. */
  lemma Remarked(s: seq<DistEntry>, hi: int, mid: int)
    requires mid <= hi
    ensures Similar(Marked(s, mid), Marked(s, hi)) && PadsBeyond(Marked(s, hi), mid)
  {
  }

  lemma MarkedCrossed(s: seq<DistEntry>, d: nat, m: nat, on: nat -> bool, hi: int)
    requires m <= d && d + m <= |s|
    ensures Marked(Crossed(s, d, m, on), hi) == Crossed(Marked(s, hi), d, m, on)
  {
    var u, v := Marked(Crossed(s, d, m, on), hi), Crossed(Marked(s, hi), d, m, on);
    forall p | 0 <= p < |s| ensures u[p] == v[p] {
      assert Crossed(s, d, m, on)[p] == CrossedAt(s, d, m, on, p);
      assert v[p] == CrossedAt(Marked(s, hi), d, m, on, p);
    }
  }

  lemma MarkedCut(t: seq<DistEntry>, k: nat, hi: int)
    requires k <= |t|
    ensures Marked(t, hi)[..k] == Marked(t[..k], hi) && Marked(t, hi)[k..] == Marked(t[k..], hi)
  {
  }

  /** The two recursive results of a level of distribute_inner make what the in-memory level makes. */
  lemma InnerLevelLarge(s: seq<DistEntry>, first: int, mid: int, hi: int, n1: nat, n2: nat, m: int, e: nat, left: seq<DistEntry>, right: seq<DistEntry>)
    requires hi == mid + n1 && IsPower(n1) && InnerParts(Marked(s, hi), first, mid, n1, n2, m, e)
    requires var t := Crossed(s, n1, n2, From(m));
      Similar(left, Inner(Marked(t[..n2], mid), first)) && Similar(right, Power(Marked(t[n2..], hi), mid, e))
    ensures Similar(left + right, InnerCut(Marked(s, hi), first, n1))
  {
    var t := Crossed(s, n1, n2, From(m));
    var u, v := Marked(t[..n2], mid), Marked(t[..n2], hi);
    InnerUnfolds(Marked(s, hi), first, mid, n1, n2, m, e);
    MarkedCrossed(s, n1, n2, From(m), hi);
    MarkedCut(t, n2, hi);
    Remarked(t[..n2], hi, mid);
    Remarked(t[..n2], mid, mid);
    InnerSimilar(u, v, first, mid);
    SimilarChain(left, Inner(u, first), Inner(v, first));
    SimilarConcat(left, right, Inner(v, first), Power(Marked(t[n2..], hi), mid, e));
  }

  lemma PowerLevelLarge(s: seq<DistEntry>, first: int, mid: int, hi: int, offset: int, h: nat, m: int, o: nat, e: nat, left: seq<DistEntry>, right: seq<DistEntry>)
    requires hi == mid + h && PowerParts(Marked(s, hi), first, mid, offset, h, m, o, e) && IsPower(h)
    requires var t := Crossed(s, h, h, Between(offset, m, h));
      Similar(left, Power(Marked(t[..h], mid), first, o)) && Similar(right, Power(Marked(t[h..], hi), mid, e))
    ensures Similar(left + right, Power(Marked(s, hi), first, offset))
  {
    var on := Between(offset, m, h);
    var t := Crossed(s, h, h, on);
    var u, v, w := Marked(t[..h], mid), Marked(t[..h], hi), Marked(t[h..], hi);
    PowerUnfolds(Marked(s, hi), first, mid, offset, h, m, o, e);
    MarkedCrossed(s, h, h, on, hi);
    HalvedUnfolds(Marked(t, hi), h, first, o, mid, e);
    MarkedCut(t, h, hi);
    Remarked(t[..h], hi, mid);
    Remarked(t[..h], mid, mid);
    PowerSimilar(u, v, first, mid, o);
    SimilarChain(left, Power(u, first, o), Power(v, first, o));
    SimilarConcat(left, right, Power(v, first, o), Power(w, mid, e));
  }

  /** Fetch a small block with its padding marked. */
  method FetchMarked(host: array<DistEntry>, scan: array<DistEntry>, offset: nat, n: nat, dst: int)
    requires host != scan && n <= scan.Length && offset + n <= host.Length
    modifies scan
    ensures scan[..n] == Marked(Block(host[..], offset, n), dst)
  {
    ReadFlat(host, offset, scan, n);
    MarkPadding(scan, n, dst);
  }

  /** A block that fits the buffer is routed in memory. */
  method InnerBase(host: array<DistEntry>, scan: array<DistEntry>, offset: nat, first: int, n: nat, ghost hi: int, ghost s: seq<DistEntry>)
    requires host != scan && n <= scan.Length && offset + n <= host.Length && s == Block(host[..], offset, n) && hi == first + n
    modifies host, scan
    ensures host[..] == Put(old(host[..]), offset, Inner(Marked(s, hi), first))
  {
    FetchMarked(host, scan, offset, n, first + n);
    ghost var c := scan[..];
    PutSlice(c, 0, Inner(Marked(s, hi), first), 0, n);
    InnerInPlace(scan, 0, first, n, c, Marked(s, hi));
    WriteFlat(host, offset, scan, n);
  }

  method PowerBase(host: array<DistEntry>, scan: array<DistEntry>, offset: nat, first: int, ofs: nat, n: nat, ghost hi: int, ghost s: seq<DistEntry>)
    requires host != scan && n <= scan.Length && offset + n <= host.Length && s == Block(host[..], offset, n) && hi == first + n && IsPower(n)
    modifies host, scan
    ensures host[..] == Put(old(host[..]), offset, Power(Marked(s, hi), first, ofs))
  {
    FetchMarked(host, scan, offset, n, first + n);
    ghost var c := scan[..];
    PutSlice(c, 0, Power(Marked(s, hi), first, ofs), 0, n);
    PowerInPlace(scan, 0, first, ofs, n, c, Marked(s, hi));
    WriteFlat(host, offset, scan, n);
  }

  /** aks_distribute_2power_large on the block s of host memory; the ghost result is what the block becomes. */
  method PowerLarge(host: array<DistEntry>, bufs: Chunks, offset: nat, first: int, ofs: nat, n: nat,
                    ghost hi: int, ghost was: seq<DistEntry>, ghost s: seq<DistEntry>)
    returns (ghost r: seq<DistEntry>)
    requires bufs.Valid() && host !in bufs.Buffers() && first <= offset && IsPower(n) && hi == first + n
    requires host[..] == was && offset + n <= |was| && s == Block(was, offset, n)
    modifies host, bufs.Buffers()
    ensures |r| == n && host[..] == Put(was, offset, r) && Similar(r, Power(Marked(s, hi), first, ofs))
    decreases n, 2
  {
    PutSame(was, offset, n);
    if n <= 1 {
      r := s;
    } else if n <= bufs.scan.Length {
      PowerBase(host, bufs.scan, offset, first, ofs, n, hi, s);
      r := Power(Marked(s, hi), first, ofs);
    } else {
      var h := n / 2;
      HalfPower(n);
      var m := ScanLeft(host, bufs.scan, offset, n, n + offset + 1, first + h, hi, s);
      r := PowerCross(host, bufs, offset, first, first + h, ofs, h, m, hi, was, s);
    }
  }

  /** Swap phase and recursion of one power-of-two level. */
  method PowerCross(host: array<DistEntry>, bufs: Chunks, offset: nat, first: int, mid: int, ofs: nat, h: nat, m: int,
                    ghost hi: int, ghost was: seq<DistEntry>, ghost s: seq<DistEntry>)
    returns (ghost r: seq<DistEntry>)
    requires bufs.Valid() && host !in bufs.Buffers() && first <= offset && h > 0 && hi == mid + h && IsPower(h)
    requires host[..] == was && offset + 2 * h <= |was| && s == Block(was, offset, 2 * h)
    requires PowerParts(Marked(s, hi), first, mid, ofs, h, m, ofs % h, (ofs + m) % h)
    modifies host, bufs.Buffers()
    ensures |r| == 2 * h && host[..] == Put(was, offset, r) && Similar(r, Power(Marked(s, hi), first, ofs))
    decreases 2 * h, 1
  {
    var cond0 := ofs < h;
    var cond1 := ofs % h + m < h;
    var flip := cond0 != cond1;
    var ii := (ofs + m) % h;
    ghost var t := Crossed(s, h, h, Between(ofs, m, h));
    FlipIsBetween(ofs, m, h, s);
    SwapPhase(host, bufs, offset, h, h, flip, ii, Flip(flip, ii), was, s);
    ghost var left, right := RecurseHalves(host, bufs, offset, first, mid, ofs % h, (ofs + m) % h, h, hi, was, t);
    r := left + right;
    PowerLevelLarge(s, first, mid, hi, ofs, h, m, ofs % h, (ofs + m) % h, left, right);
  }

  /** Right half first, then left. */
  method RecurseHalves(host: array<DistEntry>, bufs: Chunks, offset: nat, first: int, mid: int, o: nat, e: nat, h: nat,
                       ghost hi: int, ghost was: seq<DistEntry>, ghost t: seq<DistEntry>)
    returns (ghost left: seq<DistEntry>, ghost right: seq<DistEntry>)
    requires bufs.Valid() && host !in bufs.Buffers() && first <= offset && h > 0 && mid == first + h && hi == mid + h && IsPower(h)
    requires |t| == 2 * h && offset + 2 * h <= |was| && host[..] == Put(was, offset, t)
    modifies host, bufs.Buffers()
    ensures |left| == h && |right| == h && host[..] == Put(was, offset, left + right)
    ensures Similar(left, Power(Marked(t[..h], mid), first, o)) && Similar(right, Power(Marked(t[h..], hi), mid, e))
    decreases 2 * h, 0
  {
    ghost var v := Put(was, offset, t);
    var second := offset + h;
    PutBoth(was, offset, t, h, second, h, t[..h], t[h..]);
    right := PowerLarge(host, bufs, second, mid, e, h, hi, v, t[h..]);
    PutBoth(was, offset, t, h, second, h, t[..h], right);
    left := PowerLarge(host, bufs, offset, first, o, h, mid, Put(v, second, right), t[..h]);
    PutBoth(was, offset, t, h, second, h, left, right);
  }

  /** aks_distribute_inner_large on the block s of host memory. */
  method InnerLarge(host: array<DistEntry>, bufs: Chunks, offset: nat, first: int, n: nat,
                    ghost hi: int, ghost was: seq<DistEntry>, ghost s: seq<DistEntry>)
    returns (ghost r: seq<DistEntry>)
    requires bufs.Valid() && host !in bufs.Buffers() && first <= offset && hi == first + n
    requires host[..] == was && offset + n <= |was| && s == Block(was, offset, n)
    modifies host, bufs.Buffers()
    ensures |r| == n && host[..] == Put(was, offset, r) && Similar(r, Inner(Marked(s, hi), first))
    decreases n, 2
  {
    PutSame(was, offset, n);
    if n <= 1 {
      r := s;
    } else if n <= bufs.scan.Length {
      InnerBase(host, bufs.scan, offset, first, n, hi, s);
      r := Inner(Marked(s, hi), first);
    } else {
      var n1 := Pow2Lt(n);
      PowerBelowBounds(n);
      var n2 := n - n1;
      BlockPrefix(was, offset, n, n2);
      var m := ScanLeft(host, bufs.scan, offset, n2, n + offset + 1, first + n2, hi, s[..n2]);
      MarkedCut(s, n2, hi);
      r := InnerCross(host, bufs, offset, first, first + n2, n1, n2, m, hi, was, s);
    }
  }

  /** Swap phase and recursion of one level. */
  method InnerCross(host: array<DistEntry>, bufs: Chunks, offset: nat, first: int, mid: int, n1: nat, n2: nat, m: int,
                    ghost hi: int, ghost was: seq<DistEntry>, ghost s: seq<DistEntry>)
    returns (ghost r: seq<DistEntry>)
    requires bufs.Valid() && host !in bufs.Buffers() && first <= offset && n1 > 0 && hi == mid + n1 && IsPower(n1)
    requires host[..] == was && offset + n1 + n2 <= |was| && s == Block(was, offset, n1 + n2)
    requires InnerParts(Marked(s, hi), first, mid, n1, n2, m, Turn(n1, n2, m))
    modifies host, bufs.Buffers()
    ensures |r| == n1 + n2 && host[..] == Put(was, offset, r) && Similar(r, InnerCut(Marked(s, hi), first, n1))
    decreases n1 + n2, 1
  {
    ghost var t := Crossed(s, n1, n2, From(m));
    FlipIsFrom(s, n1, n2, m);
    SwapPhase(host, bufs, offset, n1, n2, false, m, Flip(false, m), was, s);
    ghost var left, right := RecurseParts(host, bufs, offset, first, mid, (n1 - n2 + m) % n1, n1, n2, hi, was, t);
    r := left + right;
    InnerLevelLarge(s, first, mid, hi, n1, n2, m, Turn(n1, n2, m), left, right);
  }

  /** Left subproblem, then right. */
  method RecurseParts(host: array<DistEntry>, bufs: Chunks, offset: nat, first: int, mid: int, e: nat, n1: nat, n2: nat,
                      ghost hi: int, ghost was: seq<DistEntry>, ghost t: seq<DistEntry>)
    returns (ghost left: seq<DistEntry>, ghost right: seq<DistEntry>)
    requires bufs.Valid() && host !in bufs.Buffers() && first <= offset && n1 > 0 && n2 > 0 && mid == first + n2 && hi == mid + n1 && IsPower(n1)
    requires |t| == n1 + n2 && offset + n1 + n2 <= |was| && host[..] == Put(was, offset, t)
    modifies host, bufs.Buffers()
    ensures |left| == n2 && |right| == n1 && host[..] == Put(was, offset, left + right)
    ensures Similar(left, Inner(Marked(t[..n2], mid), first)) && Similar(right, Power(Marked(t[n2..], hi), mid, e))
    decreases n1 + n2, 0
  {
    ghost var v := Put(was, offset, t);
    var second := offset + n2;
    PutBoth(was, offset, t, n2, second, n1, t[..n2], t[n2..]);
    left := InnerLarge(host, bufs, offset, first, n2, mid, v, t[..n2]);
    PutBoth(was, offset, t, n2, second, n1, left, t[n2..]);
    right := PowerLarge(host, bufs, second, mid, e, n1, hi, Put(v, offset, left), t[n2..]);
    PutBoth(was, offset, t, n2, second, n1, left, right);
  }

  lemma SimilarDelivered(s: seq<DistEntry>, r: seq<DistEntry>, t: seq<DistEntry>)
    requires Similar(r, t) && Delivered(s, t)
    ensures Delivered(s, r)
  {
    forall p | 0 <= p < |r| ensures (!r[p].isPadding || !t[p].isPadding) ==> r[p] == t[p] {
      assert Blank(r[p]) == Blank(t[p]);
    }
  }

  /** aks_distribute_large: for every buffer size the chunked recursion moves the entries as the one in memory does. */
  method AksDistributeLarge(host: array<DistEntry>, bufs: Chunks)
    requires bufs.Valid() && host !in bufs.Buffers()
    modifies host, bufs.Buffers()
    ensures Similar(host[..], Inner(Marked(old(host[..]), host.Length), 0))
    ensures forall m: nat :: FrontLoaded(old(host[..]), m) ==> Delivered(old(host[..]), host[..])
  {
    ghost var was := host[..];
    var n := host.Length;
    PutAll(was, was);
    ghost var r := InnerLarge(host, bufs, 0, 0, n, n, was, was);
    PutAll(was, r);
    forall m: nat | FrontLoaded(was, m) ensures Delivered(was, host[..]) {
      MarkedDelivers(was, m);
      SimilarDelivered(was, r, Inner(Marked(was, n), 0));
    }
  }
}
