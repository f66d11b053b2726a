/** _search_W: the least band width that reaches a target cardinality. */
module BandSearch {
  import opened BandCardinality

  // ---- Wider bands count no fewer tuples ----

  /** Every window of width v lies inside the window of width w. */
  ghost predicate Wider(times: seq<int>, v: int, w: int) {
    forall i, j :: 0 <= i < |times| && 0 <= j < |times| && InWindow(times[i], times[j], v) ==> InWindow(times[i], times[j], w)
  }

  lemma {:induction false} ValueWider(s: Shape, times: seq<int>, v: int, w: int, i: nat)
    requires Wider(times, v, w) && i < |times|
    ensures Value(s, times, v, i) <= Value(s, times, w, i)
    decreases s, 1
  {
    KidsWider(s.kids, times, v, w, i);
  }

  lemma {:induction false} KidsWider(ss: seq<Shape>, times: seq<int>, v: int, w: int, i: nat)
    requires Wider(times, v, w) && i < |times|
    ensures KidsValue(ss, times, v, i) <= KidsValue(ss, times, w, i)
    decreases ss, 0
  {
    if ss != [] {
      BandWider(ss[0], times, v, w, i, |times|);
      KidsWider(ss[1..], times, v, w, i);
      ProductGrows(BandValue(ss[0], times, v, times[i], |times|), BandValue(ss[0], times, w, times[i], |times|),
                   KidsValue(ss[1..], times, v, i), KidsValue(ss[1..], times, w, i));
    }
  }

  lemma ProductGrows(a: nat, b: nat, c: nat, d: nat)
    requires a <= b && c <= d
    ensures a * c <= b * d
  {
    assert a * c <= b * c <= b * d;
  }

  lemma {:induction false} BandWider(s: Shape, times: seq<int>, v: int, w: int, i: nat, n: nat)
    requires Wider(times, v, w) && i < |times| && n <= |times|
    ensures BandValue(s, times, v, times[i], n) <= BandValue(s, times, w, times[i], n)
    decreases s, 2, n
  {
    if n > 0 {
      BandWider(s, times, v, w, i, n - 1);
      ValueWider(s, times, v, w, n - 1);
    }
  }

  lemma {:induction false} TopWider(s: Shape, times: seq<int>, v: int, w: int, n: nat)
    requires Wider(times, v, w) && n <= |times|
    ensures TopValue(s, times, v, n) <= TopValue(s, times, w, n)
  {
    if n > 0 {
      TopWider(s, times, v, w, n - 1);
      ValueWider(s, times, v, w, n - 1);
    }
  }

  // ---- Queries ----

  datatype Query = ChainQuery(hops: nat) | TreeQuery(edges: nat)

  ghost predicate QueryOk(q: Query) {
    q.TreeQuery? ==> q.edges <= |BTREE_EDGES|
  }

  ghost function CardOf(q: Query, times: seq<int>, w: int): int
    requires QueryOk(q)
  {
    match q
    case ChainQuery(h) => if h == 0 then 0 else TopValue(Chain(h), times, w, |times|)
    case TreeQuery(e) => TopValue(Tree(1, e), times, w, |times|)
  }

  /** A chain without a hop has a tuple for every row. */
  lemma {:induction false} NoHops(times: seq<int>, w: int, n: nat)
    requires n <= |times|
    ensures TopValue(Chain(0), times, w, n) == n
  {
    if n > 0 {
      NoHops(times, w, n - 1);
      ChainValue(0, times, w, n - 1);
    }
  }

  /** What is computed for a chain is the number of its tuples exactly if it has a hop, or there are no rows. */
  lemma ChainCountsExactly(hops: nat, times: seq<int>, w: int)
    ensures CardOf(ChainQuery(hops), times, w) == TopValue(Chain(hops), times, w, |times|) <==> hops > 0 || times == []
  {
    NoHops(times, w, |times|);
  }

  /** One row and no hop: 0 is computed, and there is one tuple. */
  lemma NoHopUncounted(t: int, w: int)
    ensures CardOf(ChainQuery(0), [t], w) == 0 && TopValue(Chain(0), [t], w, 1) == 1
  {
    NoHops([t], w, 1);
  }

  method Cardinality(q: Query, times: seq<int>, w: int) returns (total: int)
    requires QueryOk(q) && SortedTimes(times) && w >= 1
    ensures total == CardOf(q, times, w)
  {
    match q
    case ChainQuery(h) => total := ChainOutput(times, w, h);
    case TreeQuery(e) => total := BtreeOutput(times, w, e);
  }

  /** Wider bands have at least as many tuples. */
  lemma CardMonotone(q: Query, times: seq<int>, v: int, w: int)
    requires QueryOk(q) && v <= w
    ensures CardOf(q, times, v) <= CardOf(q, times, w)
  {
    match q
    case ChainQuery(h) => TopWider(Chain(h), times, v, w, |times|);
    case TreeQuery(e) => TopWider(Tree(1, e), times, v, w, |times|);
  }

  /** The full span counts as many tuples as any wider band: the default upper limit misses no target that can be met. */
  lemma SpanIsEnough(q: Query, times: seq<int>, span: int, w: int)
    requires QueryOk(q) && SortedTimes(times) && times != [] && span == times[|times| - 1] - times[0] + 1 && w >= span
    ensures CardOf(q, times, w) == CardOf(q, times, span)
  {
    forall i, j | 0 <= i < |times| && 0 <= j < |times| && InWindow(times[i], times[j], w) ensures InWindow(times[i], times[j], span) {
      assert times[0] <= times[i] && times[j] <= times[|times| - 1];
    }
    CardMonotone(q, times, span, w);
    match q
    case ChainQuery(h) => TopWider(Chain(h), times, w, span, |times|);
    case TreeQuery(e) => TopWider(Tree(1, e), times, w, span, |times|);
  }

  // ---- The search ----

  /** No width up to w reaches the target. */
  ghost predicate Short(q: Query, times: seq<int>, target: int, w: int)
    requires QueryOk(q)
  {
    forall v :: 1 <= v <= w ==> CardOf(q, times, v) < target
  }

  lemma AllShort(q: Query, times: seq<int>, target: int, w: int)
    requires QueryOk(q) && CardOf(q, times, w) < target
    ensures Short(q, times, target, w)
  {
    forall v | 1 <= v <= w ensures CardOf(q, times, v) < target {
      CardMonotone(q, times, v, w);
    }
  }

  /** One test of the search. */
  method Reaches(q: Query, times: seq<int>, target: int, w: int) returns (r: bool)
    requires QueryOk(q) && SortedTimes(times) && w >= 1
    ensures if r then CardOf(q, times, w) >= target else Short(q, times, target, w)
  {
    var card := Cardinality(q, times, w);
    if card < target {
      AllShort(q, times, target, w);
    }
    r := card >= target;
  }

  /** The least width that reaches the target lies in the range. */
  ghost predicate Bracketed(q: Query, times: seq<int>, target: int, lo: int, hi: int)
    requires QueryOk(q)
  {
    1 <= lo <= hi && CardOf(q, times, hi) >= target && Short(q, times, target, lo - 1)
  }

  method Halve(q: Query, times: seq<int>, target: int, lo: int, hi: int) returns (l: int, h: int)
    requires QueryOk(q) && SortedTimes(times) && Bracketed(q, times, target, lo, hi) && lo < hi
    ensures Bracketed(q, times, target, l, h) && h <= hi && h - l < hi - lo
  {
    var mid := (lo + hi) / 2;
    var reached := Reaches(q, times, target, mid);
    l, h := if reached then lo else mid + 1, if reached then mid else hi;
  }

  /** Halving the range from 1 to the limit, which reaches the target. */
  method Bisection(q: Query, times: seq<int>, target: int, limit: int) returns (w: int)
    requires QueryOk(q) && SortedTimes(times) && Bracketed(q, times, target, 1, limit)
    ensures 1 <= w <= limit && CardOf(q, times, w) >= target && Short(q, times, target, w - 1)
  {
    var lo, hi := 1, limit;
    while lo < hi
      invariant Bracketed(q, times, target, lo, hi) && hi <= limit
      decreases hi - lo
    {
      lo, hi := Halve(q, times, target, lo, hi);
    }
    w := lo;
  }

  /** _search_W: the least width up to the limit that reaches the target, or the limit if none does; 0 without times. */
  method SearchWidth(q: Query, times: seq<int>, target: int, limit: int) returns (w: int)
    requires QueryOk(q) && SortedTimes(times) && limit >= 1
    ensures times == [] ==> w == 0
    ensures times != [] ==> 1 <= w <= limit && Short(q, times, target, w - 1)
    ensures times != [] ==> CardOf(q, times, w) >= target || (w == limit && Short(q, times, target, limit))
  {
    if times == [] {
      return 0;
    }
    var reached := Reaches(q, times, target, limit);
    if !reached {
      return limit;
    }
    w := Bisection(q, times, target, limit);
  }
}
