/** The Waksman permutation network: the specification on sequences, the in-place network, and what it can realise. */
module Waksman {
  import opened Totals


  function Pow2(k: nat): (r: nat)
    ensures r >= 1
  {
    if k == 0 then 1 else 2 * Pow2(k - 1)
  }

  /** Switches of a network on 2^k inputs: 2^k - 1 at this level and two networks of half the size. */
  ghost function Switches(k: nat): nat {
    if k == 0 then 0 else Pow2(k) - 1 + 2 * Switches(k - 1)
  }

  /** T(n) = n*log2(n) - n + 1 for n = 2^k. */
  lemma {:induction false} SwitchesClosedForm(k: nat)
    ensures Switches(k) == Pow2(k) * k - Pow2(k) + 1
  {
    if k > 0 {
      SwitchesClosedForm(k - 1);
      var h := Pow2(k - 1);
      assert Pow2(k) * k == 2 * (h * (k - 1)) + 2 * h;
    }
  }

  lemma GroupsSplit(groups: int, own: int, below: int)
    ensures groups * (own + 2 * below) == groups * own + 2 * groups * below
  {
  }

  /** num_switches: level by level, `groups` networks of n inputs with n - 1 switches each. */
  method NumSwitches(size: nat, ghost k: nat) returns (total: nat)
    requires size == Pow2(k)
    ensures total == Pow2(k) * k - Pow2(k) + 1
  {
    var n, groups := size, 1;
    total := 0;
    ghost var j := k;
    while n >= 2
      invariant n == Pow2(j)
      invariant total + groups * Switches(j) == Switches(k)
    {
      GroupsSplit(groups, n - 1, Switches(j - 1));
      total := total + groups * (n - 1);
      groups := 2 * groups;
      n := n / 2;
      j := j - 1;
    }
    SwitchesClosedForm(k);
  }

  // ---- The network on sequences ----

  ghost function Evens<T>(s: seq<T>): (r: seq<T>)
    ensures |r| == |s| / 2
  {
    seq(|s| / 2, i requires 0 <= i < |s| / 2 => s[2 * i])
  }

  ghost function Odds<T>(s: seq<T>): (r: seq<T>)
    ensures |r| == |s| / 2
  {
    seq(|s| / 2, i requires 0 <= i < |s| / 2 => s[2 * i + 1])
  }

  ghost function Interleave<T>(e: seq<T>, o: seq<T>): (r: seq<T>)
    requires |e| == |o|
    ensures |r| == 2 * |e|
  {
    seq(2 * |e|, i requires 0 <= i < 2 * |e| => if i % 2 == 0 then e[i / 2] else o[i / 2])
  }

  /** Adjacent pairs exchanged where the bit of the pair is set. */
  ghost function SwitchPairs<T>(s: seq<T>, on: seq<bool>): (r: seq<T>)
    requires |s| == 2 * |on|
    ensures |r| == |s|
  {
    seq(|s|, i requires 0 <= i < |s| => if on[i / 2] then (if i % 2 == 0 then s[i + 1] else s[i - 1]) else s[i])
  }

  /** How a network consumes its bits: input switches, even half, odd half, output switches on all pairs but the first. */
  datatype Setting = Setting(on: seq<bool>, even: seq<bool>, odd: seq<bool>, off: seq<bool>)

  ghost function SplitAt(half: nat, t: nat, bits: seq<bool>): (g: Setting)
    requires half >= 1 && |bits| == 2 * half - 1 + 2 * t
    ensures |g.on| == |g.off| == half && |g.even| == |g.odd| == t
  {
    Setting(bits[..half], bits[half..half + t], bits[half + t..half + 2 * t], [false] + bits[half + 2 * t..])
  }

  ghost function Split(k: nat, bits: seq<bool>): (g: Setting)
    requires k > 1 && |bits| == Switches(k)
    ensures |g.on| == |g.off| == Pow2(k - 1) && |g.even| == |g.odd| == Switches(k - 1)
  {
    SplitAt(Pow2(k - 1), Switches(k - 1), bits)
  }

  /** The network: input switches, the two half networks, output switches on all pairs but the first. */
  ghost function Network<T>(k: nat, s: seq<T>, bits: seq<bool>): (r: seq<T>)
    requires |s| == Pow2(k) && |bits| == Switches(k)
    ensures |r| == |s|
  {
    if k == 0 then s
    else if k == 1 then SwitchPairs(s, bits)
    else
      var g := Split(k, bits);
      var a := SwitchPairs(s, g.on);
      SwitchPairs(Interleave(Network(k - 1, Evens(a), g.even), Network(k - 1, Odds(a), g.odd)), g.off)
  }

  // ---- Every setting of the switches yields a permutation ----

  lemma {:induction false} InterleaveMultiset<T>(e: seq<T>, o: seq<T>)
    requires |e| == |o|
    ensures multiset(Interleave(e, o)) == multiset(e) + multiset(o)
  {
    if e != [] {
      var n := |e| - 1;
      InterleaveMultiset(e[..n], o[..n]);
      assert Interleave(e, o) == Interleave(e[..n], o[..n]) + [e[n], o[n]];
      assert e == e[..n] + [e[n]];
      assert o == o[..n] + [o[n]];
    }
  }

  lemma InterleaveOfHalves<T>(s: seq<T>)
    requires |s| % 2 == 0
    ensures Interleave(Evens(s), Odds(s)) == s
  {
  }

  lemma {:induction false} SwitchPairsMultiset<T>(s: seq<T>, on: seq<bool>)
    requires |s| == 2 * |on|
    ensures multiset(SwitchPairs(s, on)) == multiset(s)
  {
    if on != [] {
      var n := |on| - 1;
      SwitchPairsMultiset(s[..2 * n], on[..n]);
      var x, y := s[2 * n], s[2 * n + 1];
      assert SwitchPairs(s, on) == SwitchPairs(s[..2 * n], on[..n]) + if on[n] then [y, x] else [x, y];
      assert s == s[..2 * n] + [x, y];
    }
  }

  lemma LevelPermutes<T>(s: seq<T>, on: seq<bool>, e: seq<T>, o: seq<T>, off: seq<bool>)
    requires |s| == 2 * |on| && |off| == |on| && |e| == |o| == |on|
    requires multiset(e) == multiset(Evens(SwitchPairs(s, on)))
    requires multiset(o) == multiset(Odds(SwitchPairs(s, on)))
    ensures multiset(SwitchPairs(Interleave(e, o), off)) == multiset(s)
  {
    var a := SwitchPairs(s, on);
    SwitchPairsMultiset(s, on);
    InterleaveOfHalves(a);
    InterleaveMultiset(Evens(a), Odds(a));
    InterleaveMultiset(e, o);
    SwitchPairsMultiset(Interleave(e, o), off);
  }

  lemma {:induction false} NetworkPermutes<T>(k: nat, s: seq<T>, bits: seq<bool>)
    requires |s| == Pow2(k) && |bits| == Switches(k)
    ensures multiset(Network(k, s, bits)) == multiset(s)
  {
    if k == 1 {
      SwitchPairsMultiset(s, bits);
    } else if k > 1 {
      var g := Split(k, bits);
      var a := SwitchPairs(s, g.on);
      NetworkPermutes(k - 1, Evens(a), g.even);
      NetworkPermutes(k - 1, Odds(a), g.odd);
      LevelPermutes(s, g.on, Network(k - 1, Evens(a), g.even), Network(k - 1, Odds(a), g.odd), g.off);
    }
  }

  // ---- The network in place ----

  /** The pre-generated switch bits and the cursor that consumes them. */
  class BitStream {
    const bits: seq<bool>
    var next: nat

    constructor (bits: seq<bool>)
      ensures this.bits == bits && next == 0
    {
      this.bits := bits;
      next := 0;
    }

    method NextBit() returns (b: bool)
      requires next < |bits|
      modifies this`next
      ensures next == old(next) + 1 && b == bits[old(next)]
    {
      b := bits[next];
      next := next + 1;
    }
  }

  /** The array positions start, start + stride, ... of a strided sub-array. */
  ghost function Line(start: nat, stride: nat, n: nat): (r: seq<nat>)
    ensures |r| == n
  {
    seq(n, i requires 0 <= i < n => start + i * stride)
  }

  lemma LineHalves(start: nat, stride: nat, h: nat)
    ensures Evens(Line(start, stride, 2 * h)) == Line(start, 2 * stride, h)
    ensures Odds(Line(start, stride, 2 * h)) == Line(start + stride, 2 * stride, h)
  {
    forall i: nat | i < h
      ensures Evens(Line(start, stride, 2 * h))[i] == Line(start, 2 * stride, h)[i]
      ensures Odds(Line(start, stride, 2 * h))[i] == Line(start + stride, 2 * stride, h)[i]
    {
      assert (2 * i) * stride == i * (2 * stride);
      assert (2 * i + 1) * stride == i * (2 * stride) + stride;
    }
  }

  lemma LineDistinct(start: nat, stride: nat, n: nat)
    requires stride > 0
    ensures NoRepeats(Line(start, stride, n))
  {
    forall i, j | 0 <= i < j < n ensures start + i * stride < start + j * stride {
      assert (j - i) * stride >= 1;
    }
  }

  ghost predicate Inside(pos: seq<nat>, len: nat) {
    forall i :: 0 <= i < |pos| ==> pos[i] < len
  }

  ghost function Pick<T>(s: seq<T>, pos: seq<nat>): (r: seq<T>)
    requires Inside(pos, |s|)
    ensures |r| == |pos|
  {
    seq(|pos|, i requires 0 <= i < |pos| => s[pos[i]])
  }

  /** Positions outside pos hold what they held. */
  ghost predicate SameOutside<T>(s: seq<T>, t: seq<T>, pos: seq<nat>) {
    |s| == |t| && forall p :: 0 <= p < |s| && p !in pos ==> s[p] == t[p]
  }

  lemma PickHalves<T>(s: seq<T>, pos: seq<nat>)
    requires Inside(pos, |s|) && |pos| % 2 == 0
    ensures Inside(Evens(pos), |s|) && Inside(Odds(pos), |s|)
    ensures Evens(Pick(s, pos)) == Pick(s, Evens(pos))
    ensures Odds(Pick(s, pos)) == Pick(s, Odds(pos))
    ensures Pick(s, pos) == Interleave(Pick(s, Evens(pos)), Pick(s, Odds(pos)))
  {
  }

  lemma HalvesDistinct(pos: seq<nat>)
    requires NoRepeats(pos)
    ensures NoRepeats(Evens(pos)) && NoRepeats(Odds(pos))
    ensures forall p :: p in Evens(pos) ==> p in pos && p !in Odds(pos)
    ensures forall p :: p in Odds(pos) ==> p in pos && p !in Evens(pos)
  {
  }

  lemma PickOutside<T>(s: seq<T>, t: seq<T>, pos: seq<nat>, moved: seq<nat>)
    requires Inside(pos, |s|) && SameOutside(s, t, moved)
    requires forall p :: p in pos ==> p !in moved
    ensures Pick(s, pos) == Pick(t, pos)
  {
    forall i | 0 <= i < |pos| ensures s[pos[i]] == t[pos[i]] {
      assert pos[i] in pos;
    }
  }

  /** s with positions p and q exchanged. */
  ghost function Exchange<T>(s: seq<T>, p: nat, q: nat): (r: seq<T>)
    requires p < |s| && q < |s|
    ensures |r| == |s|
  {
    s[p := s[q]][q := s[p]]
  }

  /** The first i pairs of the strided sub-array have gone through their switches. */
  ghost predicate Switched<T>(s: seq<T>, was: seq<T>, pos: seq<nat>, on: seq<bool>, i: nat) {
    && Inside(pos, |s|) && SameOutside(s, was, pos) && |pos| == 2 * |on| && i <= |on|
    && forall j :: 0 <= j < |pos| ==> s[pos[j]] == if j < 2 * i then SwitchPairs(Pick(was, pos), on)[j] else was[pos[j]]
  }

  lemma SwitchedStep<T>(s: seq<T>, was: seq<T>, pos: seq<nat>, on: seq<bool>, i: nat)
    requires Switched(s, was, pos, on, i) && i < |on| && NoRepeats(pos)
    ensures Switched(if on[i] then Exchange(s, pos[2 * i], pos[2 * i + 1]) else s, was, pos, on, i + 1)
  {
    var p, q := pos[2 * i], pos[2 * i + 1];
    assert p in pos && q in pos;
    var t := if on[i] then Exchange(s, p, q) else s;
    forall j | 0 <= j < |pos|
      ensures t[pos[j]] == if j < 2 * i + 2 then SwitchPairs(Pick(was, pos), on)[j] else was[pos[j]]
    {
      if j / 2 != i {
        assert pos[j] != p && pos[j] != q;
      }
    }
  }

  lemma SwitchedSkips<T>(s: seq<T>, pos: seq<nat>, on: seq<bool>, i: nat)
    requires Inside(pos, |s|) && |pos| == 2 * |on| && i <= |on|
    requires forall j :: 0 <= j < i ==> !on[j]
    ensures Switched(s, s, pos, on, i)
  {
  }

  /** swap_words: exchange two records when the switch is set. */
  method SwapWords<T>(a: array<T>, p: nat, q: nat, shouldSwap: bool)
    requires p < a.Length && q < a.Length
    modifies a
    ensures a[..] == if shouldSwap then Exchange(old(a[..]), p, q) else old(a[..])
  {
    if shouldSwap {
      a[p], a[q] := a[q], a[p];
    }
  }

  lemma PairOnLine(start: nat, stride: nat, half: nat, i: nat)
    requires i < half
    ensures Line(start, stride, 2 * half)[2 * i] == start + (2 * i) * stride
    ensures Line(start, stride, 2 * half)[2 * i + 1] == start + (2 * i + 1) * stride
  {
  }

  /** One column of switches on adjacent pairs, starting at pair `from`. */
  method SwitchColumn<T>(a: array<T>, start: nat, stride: nat, half: nat, from: nat, bs: BitStream, ghost pos: seq<nat>, ghost on: seq<bool>)
    requires from <= half && |on| == half && (forall i :: 0 <= i < from ==> !on[i])
    requires pos == Line(start, stride, 2 * half) && NoRepeats(pos) && Inside(pos, a.Length)
    requires bs.next + half - from <= |bs.bits|
    requires forall i :: from <= i < half ==> on[i] == bs.bits[bs.next + i - from]
    modifies a, bs`next
    ensures bs.next == old(bs.next) + half - from
    ensures Switched(a[..], old(a[..]), pos, on, half)
  {
    ghost var was, first := a[..], bs.next;
    SwitchedSkips(was, pos, on, from);
    var i := from;
    while i < half
      invariant from <= i <= half
      invariant bs.next == first + i - from
      invariant Switched(a[..], was, pos, on, i)
    {
      SwitchedStep(a[..], was, pos, on, i);
      var swap := bs.NextBit();
      var p, q := start + (2 * i) * stride, start + (2 * i + 1) * stride;
      PairOnLine(start, stride, half, i);
      SwapWords(a, p, q, swap);
      i := i + 1;
    }
  }

  lemma SwitchedAll<T>(s: seq<T>, was: seq<T>, pos: seq<nat>, on: seq<bool>)
    requires |s| == |was| && Switched(s, was, pos, on, |on|)
    ensures Inside(pos, |was|) && SameOutside(s, was, pos)
    ensures Pick(s, pos) == SwitchPairs(Pick(was, pos), on)
  {
  }

  /** What the in-place network leaves behind: the network on the sub-array, everything else as it was. */
  ghost predicate Routed<T>(k: nat, s: seq<T>, was: seq<T>, pos: seq<nat>, bits: seq<bool>)
    requires |pos| == Pow2(k) && |bits| == Switches(k)
  {
    && Inside(pos, |s|) && SameOutside(s, was, pos)
    && Pick(s, pos) == Network(k, Pick(was, pos), bits)
  }

  /** Routing the two half networks between the two columns routes the whole network. */
  lemma RoutedByHalves<T>(k: nat, was: seq<T>, in_: seq<T>, e: seq<T>, o: seq<T>, out_: seq<T>, pos: seq<nat>, bits: seq<bool>)
    requires k > 1 && |pos| == Pow2(k) && |bits| == Switches(k)
    requires NoRepeats(pos) && Inside(pos, |was|)
    requires var g := Split(k, bits);
      && Switched(in_, was, pos, g.on, |g.on|)
      && Routed(k - 1, e, in_, Evens(pos), g.even)
      && Routed(k - 1, o, e, Odds(pos), g.odd)
      && Switched(out_, o, pos, g.off, |g.off|)
    ensures Routed(k, out_, was, pos, bits)
  {
    var g := Split(k, bits);
    HalvesDistinct(pos);
    SwitchedAll(in_, was, pos, g.on);
    SwitchedAll(out_, o, pos, g.off);
    PickHalves(in_, pos);
    PickOutside(e, in_, Odds(pos), Evens(pos));
    PickOutside(o, e, Evens(pos), Odds(pos));
    PickHalves(o, pos);
  }

  /** bits are the next ones of the stream. */
  ghost predicate Ahead(bits: seq<bool>, stream: seq<bool>, next: nat) {
    next + |bits| <= |stream| && forall i :: 0 <= i < |bits| ==> bits[i] == stream[next + i]
  }

  lemma SplitStreams(half: nat, t: nat, bits: seq<bool>, stream: seq<bool>, next: nat)
    requires half >= 1 && |bits| == 2 * half - 1 + 2 * t && Ahead(bits, stream, next)
    ensures var g := SplitAt(half, t, bits);
      && Ahead(g.on, stream, next)
      && Ahead(g.even, stream, next + half)
      && Ahead(g.odd, stream, next + half + t)
      && !g.off[0]
      && (forall i :: 1 <= i < half ==> g.off[i] == stream[next + half + 2 * t + i - 1])
  {
  }

  /** What a level of the network on the lines pos needs: its bits are those of the stream from `first` on. */
  ghost predicate Level(pos: seq<nat>, start: nat, stride: nat, half: nat, k: nat, bits: seq<bool>, stream: seq<bool>, first: nat) {
    && k > 1 && half == Pow2(k - 1) && |bits| == Switches(k) && Ahead(bits, stream, first)
    && pos == Line(start, stride, 2 * half) && NoRepeats(pos)
  }

  method FirstColumn<T>(a: array<T>, start: nat, stride: nat, half: nat, bs: BitStream, ghost k: nat, ghost pos: seq<nat>, ghost bits: seq<bool>)
    requires Level(pos, start, stride, half, k, bits, bs.bits, bs.next) && Inside(pos, a.Length)
    modifies a, bs`next
    ensures bs.next == old(bs.next) + half
    ensures Switched(a[..], old(a[..]), pos, Split(k, bits).on, half)
  {
    SplitStreams(half, Switches(k - 1), bits, bs.bits, bs.next);
    SwitchColumn(a, start, stride, half, 0, bs, pos, Split(k, bits).on);
  }

  /** The last column has no switch on its first pair. */
  method LastColumn<T>(a: array<T>, start: nat, stride: nat, half: nat, bs: BitStream, ghost k: nat, ghost pos: seq<nat>, ghost bits: seq<bool>,
                       ghost first: nat)
    requires Level(pos, start, stride, half, k, bits, bs.bits, first) && Inside(pos, a.Length)
    requires bs.next == first + half + 2 * Switches(k - 1)
    modifies a, bs`next
    ensures bs.next == first + Switches(k)
    ensures Switched(a[..], old(a[..]), pos, Split(k, bits).off, half)
  {
    SplitStreams(half, Switches(k - 1), bits, bs.bits, first);
    SwitchColumn(a, start, stride, half, 1, bs, pos, Split(k, bits).off);
  }

  method EvenHalf<T>(a: array<T>, start: nat, stride: nat, half: nat, bs: BitStream, ghost k: nat, ghost pos: seq<nat>, ghost bits: seq<bool>,
                     ghost first: nat)
    requires Level(pos, start, stride, half, k, bits, bs.bits, first) && Inside(pos, a.Length)
    requires bs.next == first + half
    modifies a, bs`next
    ensures bs.next == first + half + Switches(k - 1)
    ensures Routed(k - 1, a[..], old(a[..]), Evens(pos), Split(k, bits).even)
    decreases k, 0
  {
    SplitStreams(half, Switches(k - 1), bits, bs.bits, first);
    LineHalves(start, stride, half);
    HalvesDistinct(pos);
    Shuffle(a, start, stride * 2, half, bs, k - 1, Evens(pos), Split(k, bits).even);
  }

  method OddHalf<T>(a: array<T>, start: nat, stride: nat, half: nat, bs: BitStream, ghost k: nat, ghost pos: seq<nat>, ghost bits: seq<bool>,
                    ghost first: nat)
    requires Level(pos, start, stride, half, k, bits, bs.bits, first) && Inside(pos, a.Length)
    requires bs.next == first + half + Switches(k - 1)
    modifies a, bs`next
    ensures bs.next == first + half + 2 * Switches(k - 1)
    ensures Routed(k - 1, a[..], old(a[..]), Odds(pos), Split(k, bits).odd)
    decreases k, 0
  {
    SplitStreams(half, Switches(k - 1), bits, bs.bits, first);
    LineHalves(start, stride, half);
    HalvesDistinct(pos);
    Shuffle(a, start + stride, stride * 2, half, bs, k - 1, Odds(pos), Split(k, bits).odd);
  }

  /** The even lines, then the odd lines; the ghost result is the array in between. */
  method ShuffleHalves<T>(a: array<T>, start: nat, stride: nat, half: nat, bs: BitStream, ghost k: nat, ghost pos: seq<nat>, ghost bits: seq<bool>,
                          ghost first: nat)
    returns (ghost e: seq<T>)
    requires Level(pos, start, stride, half, k, bits, bs.bits, first) && Inside(pos, a.Length)
    requires bs.next == first + half
    modifies a, bs`next
    ensures bs.next == first + half + 2 * Switches(k - 1)
    ensures |e| == a.Length
    ensures Routed(k - 1, e, old(a[..]), Evens(pos), Split(k, bits).even) && Routed(k - 1, a[..], e, Odds(pos), Split(k, bits).odd)
    decreases k, 1
  {
    EvenHalf(a, start, stride, half, bs, k, pos, bits, first);
    e := a[..];
    OddHalf(a, start, stride, half, bs, k, pos, bits, first);
  }

  method Shuffle<T>(a: array<T>, start: nat, stride: nat, n: nat, bs: BitStream, ghost k: nat, ghost pos: seq<nat>, ghost bits: seq<bool>)
    requires n == Pow2(k) && |bits| == Switches(k) && Ahead(bits, bs.bits, bs.next)
    requires pos == Line(start, stride, n) && NoRepeats(pos) && Inside(pos, a.Length)
    modifies a, bs`next
    ensures bs.next == old(bs.next) + Switches(k)
    ensures Routed(k, a[..], old(a[..]), pos, bits)
    decreases k, 2
  {
    if n <= 1 {
      return;
    }
    if n == 2 {
      ShufflePair(a, start, stride, bs, pos, bits);
      return;
    }
    var half := n / 2;
    ghost var was, first := a[..], bs.next;
    FirstColumn(a, start, stride, half, bs, k, pos, bits);
    ghost var in_ := a[..];
    ghost var e := ShuffleHalves(a, start, stride, half, bs, k, pos, bits, first);
    ghost var o := a[..];
    LastColumn(a, start, stride, half, bs, k, pos, bits, first);
    RoutedByHalves(k, was, in_, e, o, a[..], pos, bits);
  }

  method ShufflePair<T>(a: array<T>, start: nat, stride: nat, bs: BitStream, ghost pos: seq<nat>, ghost bits: seq<bool>)
    requires |bits| == 1 && Ahead(bits, bs.bits, bs.next)
    requires pos == Line(start, stride, 2) && NoRepeats(pos) && Inside(pos, a.Length)
    modifies a, bs`next
    ensures bs.next == old(bs.next) + 1
    ensures SameOutside(a[..], old(a[..]), pos)
    ensures Pick(a[..], pos) == SwitchPairs(old(Pick(a[..], pos)), bits)
  {
    ghost var was := a[..];
    SwitchColumn(a, start, stride, 1, 0, bs, pos, bits);
    SwitchedAll(a[..], was, pos, bits);
  }
}
