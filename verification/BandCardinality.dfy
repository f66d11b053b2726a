/** The band-cardinality DP: prefix sums over sorted times count the tuples of chains and trees of bands. */
module BandCardinality {
  import opened Totals

  // ---- What is counted ----

  /** The shape of a query: a table and the tables banded below it. */
  datatype Shape = Shape(kids: seq<Shape>)

  /** A tuple of that shape: a row for the table, and tuples below. */
  datatype Match = Match(at: nat, kids: seq<Match>)

  /** Time u lies in the open band below t. */
  predicate InWindow(u: int, t: int, w: int) {
    t - w < u < t
  }

  ghost predicate Fits(m: Match, s: Shape, times: seq<int>, w: int) {
    && m.at < |times| && |m.kids| == |s.kids|
    && forall i :: 0 <= i < |m.kids| ==> Fits(m.kids[i], s.kids[i], times, w) && InWindow(times[m.kids[i].at], times[m.at], w)
  }

  /** The list holds every tuple once, and nothing else. */
  ghost predicate ListsMatches(ms: seq<Match>, s: Shape, times: seq<int>, w: int) {
    NoRepeats(ms) && forall m :: m in ms <==> Fits(m, s, times, w)
  }

  // ---- Sums over windows ----

  /** The weights of the first n points inside the band below t. */
  ghost function WindowSum(times: seq<int>, weights: seq<int>, t: int, w: int, n: nat): int
    requires n <= |times| == |weights|
  {
    if n == 0 then 0 else
      WindowSum(times, weights, t, w, n - 1) + if InWindow(times[n - 1], t, w) then weights[n - 1] else 0
  }

  /** Both ends of the band are open: a band of one second holds nothing. */
  lemma {:induction false} UnitBandEmpty(times: seq<int>, weights: seq<int>, t: int, n: nat)
    requires n <= |times| == |weights|
    ensures WindowSum(times, weights, t, 1, n) == 0
  {
    if n > 0 {
      UnitBandEmpty(times, weights, t, n - 1);
    }
  }

  ghost function SumTo(v: seq<int>, n: nat): int
    requires n <= |v|
  {
    if n == 0 then 0 else SumTo(v, n - 1) + v[n - 1]
  }

  ghost predicate SortedTimes(times: seq<int>) {
    forall i, j :: 0 <= i < j < |times| ==> times[i] <= times[j]
  }

  /** The first position whose time is at least x: bisect_left; strictly above x: bisect_right. */
  method Bisect(times: seq<int>, x: int, right: bool) returns (k: nat)
    requires SortedTimes(times)
    ensures k <= |times| && (forall i :: 0 <= i < k ==> if right then times[i] <= x else times[i] < x)
    ensures forall i :: k <= i < |times| ==> if right then times[i] > x else times[i] >= x
  {
    var lo: nat, hi: nat := 0, |times|;
    while lo < hi
      invariant lo <= hi <= |times|
      invariant forall i :: 0 <= i < lo ==> if right then times[i] <= x else times[i] < x
      invariant forall i :: hi <= i < |times| ==> if right then times[i] > x else times[i] >= x
    {
      var mid := (lo + hi) / 2;
      if times[mid] < x || (right && times[mid] == x) {
        lo := mid + 1;
      } else {
        hi := mid;
      }
    }
    k := lo;
  }

  /** A window is a stretch of the sorted times; its sum is a difference of prefix sums. */
  lemma {:induction false} WindowIsStretch(times: seq<int>, weights: seq<int>, t: int, w: int, lo: nat, hi: nat, n: nat)
    requires n <= |times| == |weights| && lo <= hi <= |times|
    requires forall i :: 0 <= i < |times| ==> (InWindow(times[i], t, w) <==> lo <= i < hi)
    ensures WindowSum(times, weights, t, w, n)
      == SumTo(weights, if n < hi then n else hi) - SumTo(weights, if n < lo then n else lo)
  {
    if n > 0 {
      WindowIsStretch(times, weights, t, w, lo, hi, n - 1);
    }
  }

  /** pre[j] is the sum of the first j weights. */
  method PrefixSums(weights: seq<int>) returns (pre: seq<int>)
    ensures |pre| == |weights| + 1 && forall j :: 0 <= j <= |weights| ==> pre[j] == SumTo(weights, j)
  {
    pre := [0];
    for i := 0 to |weights|
      invariant |pre| == i + 1 && forall j :: 0 <= j <= i ==> pre[j] == SumTo(weights, j)
    {
      pre := pre + [pre[i] + weights[i]];
    }
  }

  /** window_sums: for every time the weights in the band below it. */
  method WindowSums(times: seq<int>, weights: seq<int>, w: int) returns (out: seq<int>)
    requires SortedTimes(times) && |weights| == |times| && w >= 1
    ensures |out| == |times| && forall i :: 0 <= i < |times| ==> out[i] == WindowSum(times, weights, times[i], w, |times|)
  {
    var pre := PrefixSums(weights);
    out := [];
    for i := 0 to |times|
      invariant |out| == i && forall j :: 0 <= j < i ==> out[j] == WindowSum(times, weights, times[j], w, |times|)
    {
      var lo := Bisect(times, times[i] - w, true);
      var hi := Bisect(times, times[i], false);
      BandEnds(times, times[i], w, lo, hi);
      WindowIsStretch(times, weights, times[i], w, lo, hi, |times|);
      out := out + [pre[hi] - pre[lo]];
    }
  }

  lemma BandEnds(times: seq<int>, t: int, w: int, lo: nat, hi: nat)
    requires w >= 1 && lo <= |times| && hi <= |times|
    requires (forall i :: 0 <= i < lo ==> times[i] <= t - w) && forall i :: lo <= i < |times| ==> times[i] > t - w
    requires (forall i :: 0 <= i < hi ==> times[i] < t) && forall i :: hi <= i < |times| ==> times[i] >= t
    ensures lo <= hi && forall i :: 0 <= i < |times| ==> (InWindow(times[i], t, w) <==> lo <= i < hi)
  {
    var x := if hi < |times| then times[hi] else t;
    assert x >= t;
  }

  // ---- The value of a shape ----

  /** How many tuples of the shape have row i at the top. */
  ghost function Value(s: Shape, times: seq<int>, w: int, i: nat): nat
    requires i < |times|
    decreases s, 1
  {
    KidsValue(s.kids, times, w, i)
  }

  /** The product over the tables below. */
  ghost function KidsValue(ss: seq<Shape>, times: seq<int>, w: int, i: nat): nat
    requires i < |times|
    decreases ss, 0
  {
    if ss == [] then 1 else BandValue(ss[0], times, w, times[i], |times|) * KidsValue(ss[1..], times, w, i)
  }

  /** The tuples of the shape whose top row is among the first n and in the band below t. */
  ghost function BandValue(s: Shape, times: seq<int>, w: int, t: int, n: nat): nat
    requires n <= |times|
    decreases s, 2, n
  {
    if n == 0 then 0 else
      BandValue(s, times, w, t, n - 1) + if InWindow(times[n - 1], t, w) then Value(s, times, w, n - 1) else 0
  }

  ghost function TopValue(s: Shape, times: seq<int>, w: int, n: nat): nat
    requires n <= |times|
  {
    if n == 0 then 0 else TopValue(s, times, w, n - 1) + Value(s, times, w, n - 1)
  }

  // ---- Listing the tuples ----

  /** The tuples of the shape with row i at the top. */
  ghost function MatchesAt(s: Shape, times: seq<int>, w: int, i: nat): (ms: seq<Match>)
    requires i < |times|
    ensures |ms| == Value(s, times, w, i)
    decreases s, 1
  {
    var below := KidMatches(s.kids, times, w, i);
    seq(|below|, j requires 0 <= j < |below| => Match(i, below[j]))
  }

  ghost function KidMatches(ss: seq<Shape>, times: seq<int>, w: int, i: nat): (ks: seq<seq<Match>>)
    requires i < |times|
    ensures |ks| == KidsValue(ss, times, w, i)
    decreases ss, 0
  {
    if ss == [] then [[]] else ConsAll(BandMatches(ss[0], times, w, times[i], |times|), KidMatches(ss[1..], times, w, i))
  }

  ghost function BandMatches(s: Shape, times: seq<int>, w: int, t: int, n: nat): (ms: seq<Match>)
    requires n <= |times|
    ensures |ms| == BandValue(s, times, w, t, n)
    decreases s, 2, n
  {
    if n == 0 then [] else
      BandMatches(s, times, w, t, n - 1) + if InWindow(times[n - 1], t, w) then MatchesAt(s, times, w, n - 1) else []
  }

  ghost function TopMatches(s: Shape, times: seq<int>, w: int, n: nat): (ms: seq<Match>)
    requires n <= |times|
    ensures |ms| == TopValue(s, times, w, n)
  {
    if n == 0 then [] else TopMatches(s, times, w, n - 1) + MatchesAt(s, times, w, n - 1)
  }

  /** Every first element before every rest. */
  ghost function ConsAll(ms: seq<Match>, rests: seq<seq<Match>>): (ks: seq<seq<Match>>)
    ensures |ks| == |ms| * |rests|
  {
    if ms == [] then [] else ConsAll(ms[..|ms| - 1], rests) + ConsEach(ms[|ms| - 1], rests)
  }

  ghost function ConsEach(m: Match, rests: seq<seq<Match>>): (ks: seq<seq<Match>>)
    ensures |ks| == |rests|
  {
    seq(|rests|, j requires 0 <= j < |rests| => [m] + rests[j])
  }

  lemma ConsEachMembers(m: Match, rests: seq<seq<Match>>)
    requires NoRepeats(rests)
    ensures NoRepeats(ConsEach(m, rests)) && forall k :: k in ConsEach(m, rests) <==> k != [] && k[0] == m && k[1..] in rests
  {
    var ks := ConsEach(m, rests);
    forall k ensures k in ks <==> k != [] && k[0] == m && k[1..] in rests {
      if k != [] && k[0] == m && k[1..] in rests {
        var j :| 0 <= j < |rests| && rests[j] == k[1..];
        assert ks[j] == [m] + rests[j] == k;
      }
      if k in ks {
        var j :| 0 <= j < |ks| && ks[j] == k;
        assert k == [m] + rests[j] && k[1..] == rests[j];
      }
    }
    forall i, j | 0 <= i < j < |ks| ensures ks[i] != ks[j] {
      assert ks[i][1..] == rests[i] && ks[j][1..] == rests[j];
    }
  }

  lemma {:induction false} ConsAllMembers(ms: seq<Match>, rests: seq<seq<Match>>)
    requires NoRepeats(ms) && NoRepeats(rests)
    ensures NoRepeats(ConsAll(ms, rests)) && forall k :: k in ConsAll(ms, rests) <==> k != [] && k[0] in ms && k[1..] in rests
  {
    if ms != [] {
      var front, last := ms[..|ms| - 1], ms[|ms| - 1];
      ConsAllMembers(front, rests);
      ConsEachMembers(last, rests);
      assert ms == front + [last] && last !in front;
      NoRepeatsConcat(ConsAll(front, rests), ConsEach(last, rests));
    }
  }

  // ---- The lists are complete ----

  ghost predicate KidsFit(ks: seq<Match>, ss: seq<Shape>, times: seq<int>, w: int, i: nat)
    requires i < |times|
  {
    |ks| == |ss| && forall a :: 0 <= a < |ks| ==> KidFits(ks[a], ss[a], times, w, times[i], |times|)
  }

  /** A tuple whose top row is among the first n and in the band below t. */
  ghost predicate KidFits(m: Match, s: Shape, times: seq<int>, w: int, t: int, n: nat) {
    m.at < n && Fits(m, s, times, w) && InWindow(times[m.at], t, w)
  }

  lemma FitsByKids(m: Match, s: Shape, times: seq<int>, w: int)
    ensures Fits(m, s, times, w) <==> m.at < |times| && KidsFit(m.kids, s.kids, times, w, m.at)
  {
  }

  lemma KidsFitFirst(ks: seq<Match>, ss: seq<Shape>, times: seq<int>, w: int, i: nat)
    requires i < |times| && ss != []
    ensures KidsFit(ks, ss, times, w, i)
      <==> ks != [] && KidFits(ks[0], ss[0], times, w, times[i], |times|) && KidsFit(ks[1..], ss[1..], times, w, i)
  {
    if ks != [] && KidFits(ks[0], ss[0], times, w, times[i], |times|) && KidsFit(ks[1..], ss[1..], times, w, i) {
      forall a | 0 <= a < |ks| ensures KidFits(ks[a], ss[a], times, w, times[i], |times|) {
        assert a > 0 ==> ks[1..][a - 1] == ks[a] && ss[1..][a - 1] == ss[a];
      }
    }
  }

  lemma {:induction false} MatchesComplete(s: Shape, times: seq<int>, w: int, i: nat)
    requires i < |times|
    ensures NoRepeats(MatchesAt(s, times, w, i))
    ensures forall m :: m in MatchesAt(s, times, w, i) <==> m.at == i && Fits(m, s, times, w)
    decreases s, 1
  {
    var ms, below := MatchesAt(s, times, w, i), KidMatches(s.kids, times, w, i);
    KidsComplete(s.kids, times, w, i);
    forall m ensures m in ms <==> m.at == i && Fits(m, s, times, w) {
      FitsByKids(m, s, times, w);
      if m.at == i && m.kids in below {
        var j :| 0 <= j < |below| && below[j] == m.kids;
        assert ms[j] == m;
      }
    }
  }

  lemma {:induction false} KidsComplete(ss: seq<Shape>, times: seq<int>, w: int, i: nat)
    requires i < |times|
    ensures NoRepeats(KidMatches(ss, times, w, i))
    ensures forall k :: k in KidMatches(ss, times, w, i) <==> KidsFit(k, ss, times, w, i)
    decreases ss, 0
  {
    if ss != [] {
      BandComplete(ss[0], times, w, times[i], |times|);
      KidsComplete(ss[1..], times, w, i);
      ConsAllMembers(BandMatches(ss[0], times, w, times[i], |times|), KidMatches(ss[1..], times, w, i));
      forall k ensures k in KidMatches(ss, times, w, i) <==> KidsFit(k, ss, times, w, i) {
        KidsFitFirst(k, ss, times, w, i);
      }
    }
  }

  lemma {:induction false} BandComplete(s: Shape, times: seq<int>, w: int, t: int, n: nat)
    requires n <= |times|
    ensures NoRepeats(BandMatches(s, times, w, t, n))
    ensures forall m :: m in BandMatches(s, times, w, t, n) <==> KidFits(m, s, times, w, t, n)
    decreases s, 2, n
  {
    if n > 0 {
      BandComplete(s, times, w, t, n - 1);
      MatchesComplete(s, times, w, n - 1);
      if InWindow(times[n - 1], t, w) {
        NoRepeatsConcat(BandMatches(s, times, w, t, n - 1), MatchesAt(s, times, w, n - 1));
      }
    }
  }

  lemma {:induction false} TopComplete(s: Shape, times: seq<int>, w: int, n: nat)
    requires n <= |times|
    ensures NoRepeats(TopMatches(s, times, w, n))
    ensures forall m :: m in TopMatches(s, times, w, n) <==> m.at < n && Fits(m, s, times, w)
  {
    if n > 0 {
      TopComplete(s, times, w, n - 1);
      MatchesComplete(s, times, w, n - 1);
      NoRepeatsConcat(TopMatches(s, times, w, n - 1), MatchesAt(s, times, w, n - 1));
    }
  }

  /** The value of a shape is the number of its tuples, however they are listed. */
  lemma ValueCounts(ms: seq<Match>, s: Shape, times: seq<int>, w: int)
    requires ListsMatches(ms, s, times, w)
    ensures |ms| == TopValue(s, times, w, |times|)
  {
    TopComplete(s, times, w, |times|);
    var all := TopMatches(s, times, w, |times|);
    forall m ensures m in ms <==> m in all {
      FitsByKids(m, s, times, w);
    }
    SameMembers(ms, all);
    assert |multiset(ms)| == |multiset(all)|;
  }

  // ---- The cardinalities as computed ----

  ghost predicate HasValues(v: seq<int>, s: Shape, times: seq<int>, w: int) {
    |v| == |times| && forall i :: 0 <= i < |v| ==> v[i] == Value(s, times, w, i)
  }

  lemma {:induction false} BandOfValues(v: seq<int>, s: Shape, times: seq<int>, w: int, t: int, n: nat)
    requires HasValues(v, s, times, w) && n <= |times|
    ensures WindowSum(times, v, t, w, n) == BandValue(s, times, w, t, n)
  {
    if n > 0 {
      BandOfValues(v, s, times, w, t, n - 1);
    }
  }

  lemma {:induction false} TopOfValues(v: seq<int>, s: Shape, times: seq<int>, w: int, n: nat)
    requires HasValues(v, s, times, w) && n <= |times|
    ensures SumTo(v, n) == TopValue(s, times, w, n)
  {
    if n > 0 {
      TopOfValues(v, s, times, w, n - 1);
    }
  }

  method Sum(v: seq<int>) returns (total: int)
    ensures total == SumTo(v, |v|)
  {
    total := 0;
    for i := 0 to |v|
      invariant total == SumTo(v, i)
    {
      total := total + v[i];
    }
  }

  /** A table banded to the one before it, hops times. */
  ghost function Chain(hops: nat): Shape {
    if hops == 0 then Shape([]) else Shape([Chain(hops - 1)])
  }

  lemma ChainValue(hops: nat, times: seq<int>, w: int, i: nat)
    requires i < |times|
    ensures Value(Chain(0), times, w, i) == 1
    ensures Value(Chain(hops + 1), times, w, i) == BandValue(Chain(hops), times, w, times[i], |times|)
  {
    var kids := Chain(hops + 1).kids;
    assert kids == [Chain(hops)] && kids[1..] == [];
    assert KidsValue(kids, times, w, i) == BandValue(kids[0], times, w, times[i], |times|) * KidsValue(kids[1..], times, w, i);
    assert KidsValue(kids[1..], times, w, i) == 1;
  }

  /** One more hop for every row. */
  method NextHop(times: seq<int>, w: int, cnt: seq<int>, ghost h: nat) returns (next: seq<int>)
    requires SortedTimes(times) && w >= 1 && HasValues(cnt, Chain(h), times, w)
    ensures HasValues(next, Chain(h + 1), times, w)
  {
    next := WindowSums(times, cnt, w);
    forall i | 0 <= i < |next| ensures next[i] == Value(Chain(h + 1), times, w, i) {
      BandOfValues(cnt, Chain(h), times, w, times[i], |times|);
      ChainValue(h, times, w, i);
    }
  }

  /** chain_output: the number of tuples of a chain; without a hop nothing is counted. */
  method ChainOutput(times: seq<int>, w: int, hops: nat) returns (total: int)
    requires SortedTimes(times) && w >= 1
    ensures total == if hops == 0 then 0 else TopValue(Chain(hops), times, w, |times|)
  {
    var cnt := seq(|times|, _ => 1);
    forall i | 0 <= i < |times| ensures cnt[i] == Value(Chain(0), times, w, i) {
      ChainValue(0, times, w, i);
    }
    total := 0;
    for h := 0 to hops
      invariant HasValues(cnt, Chain(h), times, w)
      invariant total == if h == 0 then 0 else TopValue(Chain(h), times, w, |times|)
    {
      cnt := NextHop(times, w, cnt, h);
      total := Sum(cnt);
      TopOfValues(cnt, Chain(h + 1), times, w, |times|);
    }
  }

  // ---- Binary trees ----

  const BTREE_EDGES: seq<(nat, nat)> := [(1, 2), (1, 3), (2, 4), (2, 5), (3, 6), (3, 7), (4, 8), (4, 9)]

  /** The children of a node among the first e edges. */
  function ChildrenOf(node: nat, e: nat): (cs: seq<nat>)
    requires e <= |BTREE_EDGES|
    ensures forall i :: 0 <= i < |cs| ==> node < cs[i] <= 9
  {
    if e == 0 then [] else
      ChildrenOf(node, e - 1) + if BTREE_EDGES[e - 1].0 == node then [BTREE_EDGES[e - 1].1] else []
  }

  /** Edge i leads from (i + 2) / 2 to i + 2: the edges of the complete binary tree in breadth-first order. */
  lemma BreadthFirst(i: nat)
    ensures |BTREE_EDGES| == 8
    ensures i < |BTREE_EDGES| ==> BTREE_EDGES[i] == ((i + 2) / 2, i + 2)
  {
    assert i == 0 || i == 1 || i == 2 || i == 3 || i == 4 || i == 5 || i == 6 || i >= 7;
  }

  /** The first e edges are the complete binary tree of the nodes 1 to e + 1: below a node are its double and the next, as far as they exist. */
  lemma {:induction false} ChildrenAreDoubles(node: nat, e: nat)
    requires e <= |BTREE_EDGES| && node >= 1
    ensures ChildrenOf(node, e) == (if 2 * node <= e + 1 then [2 * node] else []) + (if 2 * node + 1 <= e + 1 then [2 * node + 1] else [])
  {
    if e > 0 {
      ChildrenAreDoubles(node, e - 1);
      BreadthFirst(e - 1);
    }
  }

  ghost function Tree(node: nat, e: nat): Shape
    requires e <= |BTREE_EDGES|
    decreases 10 - node, 1
  {
    Shape(Trees(ChildrenOf(node, e), node, e))
  }

  ghost function Trees(cs: seq<nat>, node: nat, e: nat): (ss: seq<Shape>)
    requires e <= |BTREE_EDGES| && forall i :: 0 <= i < |cs| ==> node < cs[i] <= 9
    ensures |ss| == |cs| && forall i :: 0 <= i < |cs| ==> ss[i] == Tree(cs[i], e)
    decreases 10 - node, 0, |cs|
  {
    if cs == [] then [] else [Tree(cs[0], e)] + Trees(cs[1..], node, e)
  }

  lemma ValueOfKids(s: Shape, times: seq<int>, w: int, i: nat, c: nat)
    requires i < |times| && c < |s.kids|
    ensures KidsValue(s.kids[c..], times, w, i) == BandValue(s.kids[c], times, w, times[i], |times|) * KidsValue(s.kids[c + 1..], times, w, i)
  {
    assert s.kids[c..][0] == s.kids[c] && s.kids[c..][1..] == s.kids[c + 1..];
  }

  /** v holds the product over the first c tables below. */
  ghost predicate PartialProduct(v: seq<int>, s: Shape, times: seq<int>, w: int, c: nat)
    requires c <= |s.kids|
  {
    |v| == |times| && forall i :: 0 <= i < |v| ==> v[i] * KidsValue(s.kids[c..], times, w, i) == Value(s, times, w, i)
  }

  /** Multiply the window sums of one child into the products. */
  method TimesWindow(v: seq<int>, times: seq<int>, w: int, below: seq<int>, ghost s: Shape, ghost c: nat) returns (r: seq<int>)
    requires SortedTimes(times) && w >= 1 && c < |s.kids| && PartialProduct(v, s, times, w, c) && HasValues(below, s.kids[c], times, w)
    ensures PartialProduct(r, s, times, w, c + 1)
  {
    var sums := WindowSums(times, below, w);
    r := seq(|times|, i requires 0 <= i < |times| => v[i] * sums[i]);
    forall i | 0 <= i < |r| ensures r[i] * KidsValue(s.kids[c + 1..], times, w, i) == Value(s, times, w, i) {
      BandOfValues(below, s.kids[c], times, w, times[i], |times|);
      ValueOfKids(s, times, w, i, c);
      TimesAssociates(v[i], sums[i], KidsValue(s.kids[c + 1..], times, w, i));
    }
  }

  lemma TimesAssociates(a: int, b: int, c: int)
    ensures (a * b) * c == a * (b * c)
  {
  }

  /** val: the number of tuples of a node's subtree, for every row at the node. */
  method NodeValues(node: nat, e: nat, times: seq<int>, w: int) returns (v: seq<int>)
    requires e <= |BTREE_EDGES| && SortedTimes(times) && w >= 1
    ensures HasValues(v, Tree(node, e), times, w)
    decreases 10 - node
  {
    var cs := ChildrenOf(node, e);
    ghost var s := Tree(node, e);
    v := seq(|times|, _ => 1);
    NoFactors(v, s, times, w);
    for c := 0 to |cs|
      invariant PartialProduct(v, s, times, w, c)
    {
      var below := NodeValues(cs[c], e, times, w);
      v := TimesWindow(v, times, w, below, s, c);
    }
    AllFactors(v, s, times, w);
  }

  lemma NoFactors(v: seq<int>, s: Shape, times: seq<int>, w: int)
    requires |v| == |times| && forall i :: 0 <= i < |v| ==> v[i] == 1
    ensures PartialProduct(v, s, times, w, 0)
  {
    assert s.kids[0..] == s.kids;
  }

  lemma AllFactors(v: seq<int>, s: Shape, times: seq<int>, w: int)
    requires PartialProduct(v, s, times, w, |s.kids|)
    ensures HasValues(v, s, times, w)
  {
    assert s.kids[|s.kids|..] == [];
  }

  /** btree_output: the number of tuples of the tree with the first e edges. */
  method BtreeOutput(times: seq<int>, w: int, e: nat) returns (total: int)
    requires e <= |BTREE_EDGES| && SortedTimes(times) && w >= 1
    ensures total == TopValue(Tree(1, e), times, w, |times|)
  {
    var v := NodeValues(1, e, times, w);
    total := Sum(v);
    TopOfValues(v, Tree(1, e), times, w, |times|);
  }
}
