/** The boundary records of one tree edge: their three sort orders and what a sweep in sorted order accumulates. */
module Boundary {
  import opened Totals
  import opened Records
  import opened ObliviousSort
  import W = Waksman

  /** The 32-byte working record sk_rec_t. */
  datatype SkRec = SkRec(
    joinAttr: int32,
    fieldType: FieldType,
    equalityType: Equality,
    originalIndex: int,
    localMult: int,
    acc: int,
    interval: int,
    weight: int,
    fmult: int)

  const SK_PAD := SkRec(INT32_MAX, SortPadding, None, INT32_MAX, 0, 0, 0, 0, 0)

  // ---- Comparators ----

  function Bit(b: bool): int {
    if b then 1 else 0
  }

  /** Sort padding goes after everything else. */
  function PadAdjust(p1: bool, p2: bool, normal: int): int {
    if p1 || p2 then Bit(p1) - Bit(p2) else normal
  }

  /** 1: END_NEQ and START_EQ, 2: SOURCE, 3: END_EQ and START_NEQ. */
  function GetPrec(ft: FieldType, et: Equality): int {
    Bit((ft == End && et == Neq) || (ft == Start && et == Eq))
    + 2 * Bit(ft == Source)
    + 3 * Bit((ft == End && et == Eq) || (ft == Start && et == Neq))
  }

  function Prec(e: SkRec): int {
    GetPrec(e.fieldType, e.equalityType)
  }

  function Sign(x: int, y: int): int {
    if x < y then -1 else 1
  }

  function IsTarget(e: SkRec): bool {
    e.fieldType == Start || e.fieldType == End
  }

  function CmpJoinAttr(e1: SkRec, e2: SkRec): int {
    PadAdjust(e1.fieldType == SortPadding, e2.fieldType == SortPadding,
      if e1.joinAttr != e2.joinAttr then Sign(e1.joinAttr, e2.joinAttr) else Prec(e1) - Prec(e2))
  }

  function CmpPairwise(e1: SkRec, e2: SkRec): int {
    PadAdjust(e1.fieldType == SortPadding, e2.fieldType == SortPadding,
      if IsTarget(e1) != IsTarget(e2) then Bit(IsTarget(e2)) - Bit(IsTarget(e1))
      else if e1.originalIndex != e2.originalIndex then Sign(e1.originalIndex, e2.originalIndex)
      else Bit(e2.fieldType == Start) - Bit(e1.fieldType == Start))
  }

  function CmpEndFirst(e1: SkRec, e2: SkRec): int {
    PadAdjust(e1.fieldType == SortPadding, e2.fieldType == SortPadding,
      if (e1.fieldType == End) != (e2.fieldType == End) then Bit(e2.fieldType == End) - Bit(e1.fieldType == End)
      else if e1.originalIndex != e2.originalIndex then Sign(e1.originalIndex, e2.originalIndex)
      else 0)
  }

  lemma ComparatorsOrder()
    ensures Comparator(CmpJoinAttr) && Comparator(CmpPairwise) && Comparator(CmpEndFirst)
  {
  }

  // ---- Sorted sequences of integers ----

  ghost predicate Ascending(s: seq<int>) {
    forall i, j :: 0 <= i < j < |s| ==> s[i] <= s[j]
  }

  lemma AscendingLast(s: seq<int>, t: seq<int>)
    requires Ascending(s) && Ascending(t) && multiset(s) == multiset(t) && |s| == |t| > 0
    ensures s[|s| - 1] <= t[|t| - 1]
  {
    var n := |s| - 1;
    assert s[n] in multiset(t);
    var i :| 0 <= i < |t| && t[i] == s[n];
  }

  lemma DropLast<T>(s: seq<T>, t: seq<T>)
    requires multiset(s) == multiset(t) && |s| == |t| > 0 && s[|s| - 1] == t[|t| - 1]
    ensures multiset(s[..|s| - 1]) == multiset(t[..|t| - 1])
  {
    var n := |s| - 1;
    assert s == s[..n] + [s[n]] && t == t[..n] + [t[n]];
    assert multiset(s[..n]) == multiset(s) - multiset{s[n]};
    assert multiset(t[..n]) == multiset(t) - multiset{t[n]};
  }

  lemma {:induction false} AscendingUnique(s: seq<int>, t: seq<int>)
    requires Ascending(s) && Ascending(t) && multiset(s) == multiset(t)
    ensures s == t
    decreases |s|
  {
    assert |multiset(s)| == |multiset(t)|;
    if s != [] {
      AscendingLast(s, t);
      AscendingLast(t, s);
      DropLast(s, t);
      AscendingUnique(s[..|s| - 1], t[..|t| - 1]);
    }
  }

  ghost function Image<S, T>(s: seq<S>, f: S -> T): (r: seq<T>)
    ensures |r| == |s|
  {
    seq(|s|, i requires 0 <= i < |s| => f(s[i]))
  }

  lemma ImageConcat<S, T>(s: seq<S>, t: seq<S>, f: S -> T)
    ensures Image(s + t, f) == Image(s, f) + Image(t, f)
  {
  }

  lemma ImageWithout<S, T>(t: seq<S>, j: nat, f: S -> T)
    requires j < |t|
    ensures multiset(Image(t, f)) == multiset(Image(t[..j] + t[j + 1..], f)) + multiset{f(t[j])}
  {
    assert Image(t, f) == Image(t[..j], f) + [f(t[j])] + Image(t[j + 1..], f);
    ImageConcat(t[..j], t[j + 1..], f);
  }

  lemma {:induction false} ImagePermutation<S, T>(s: seq<S>, t: seq<S>, f: S -> T)
    requires multiset(s) == multiset(t)
    ensures multiset(Image(s, f)) == multiset(Image(t, f))
    decreases |s|
  {
    assert |multiset(s)| == |multiset(t)|;
    if s != [] {
      var n := |s| - 1;
      assert s[n] in multiset(t);
      var j :| 0 <= j < |t| && t[j] == s[n];
      RemoveOne(s, t, j);
      ImagePermutation(s[..n], t[..j] + t[j + 1..], f);
      ImageWithout(t, j, f);
      assert Image(s, f) == Image(s[..n], f) + [f(s[n])];
    }
  }

  ghost function Range(n: nat): (r: seq<int>)
    ensures |r| == n
  {
    seq(n, i => i)
  }

  // ---- Where the sorts put the boundary records ----

  /** The place of a record in the pairwise order: START and END of target row i at 2i and 2i + 1, then the sources. */
  ghost function PairKey(nt: nat): SkRec -> int {
    (e: SkRec) => if IsTarget(e) then 2 * e.originalIndex + Bit(e.fieldType == End) else 2 * nt + e.originalIndex
  }

  /** The place of a record in the END-first order, the records that are not END in one class. */
  ghost function EndKey(nt: nat): SkRec -> int {
    (e: SkRec) => if e.fieldType == End then e.originalIndex else nt
  }

  ghost function EndKeyOf(nt: nat): int -> int {
    k => if 0 <= k < 2 * nt && k % 2 == 1 then k / 2 else nt
  }

  /** One START and one END for each of nt target rows, and one SOURCE for each source row. */
  ghost predicate Layout(s: seq<SkRec>, nt: nat) {
    && (forall i :: 0 <= i < |s| ==> Placed(s[i], nt))
    && multiset(Image(s, PairKey(nt))) == multiset(Range(|s|))
  }

  ghost predicate Placed(e: SkRec, nt: nat) {
    && (e.fieldType == Source || e.fieldType == Start || e.fieldType == End)
    && 0 <= e.originalIndex && (IsTarget(e) ==> e.originalIndex < nt)
  }

  lemma LayoutPermutes(s: seq<SkRec>, t: seq<SkRec>, nt: nat)
    requires Layout(s, nt) && multiset(t) == multiset(s)
    ensures Layout(t, nt) && |t| == |s|
  {
    assert |multiset(s)| == |multiset(t)|;
    ImagePermutation(t, s, PairKey(nt));
    forall i | 0 <= i < |t| ensures Placed(t[i], nt) {
      assert t[i] in multiset(s);
    }
  }

  lemma PairwisePositions(s: seq<SkRec>, nt: nat)
    requires Layout(s, nt) && SortedBy(s, CmpPairwise)
    ensures forall i :: 0 <= i < |s| ==> PairKey(nt)(s[i]) == i
  {
    var keys := Image(s, PairKey(nt));
    forall i, j | 0 <= i < j < |s| ensures keys[i] <= keys[j] {
      assert Placed(s[i], nt) && Placed(s[j], nt) && CmpPairwise(s[i], s[j]) <= 0;
    }
    AscendingUnique(keys, Range(|s|));
    forall i | 0 <= i < |s| ensures PairKey(nt)(s[i]) == i {
      assert keys[i] == Range(|s|)[i];
    }
  }

  ghost function Repeat<T>(x: T, n: nat): (r: seq<T>)
    ensures |r| == n
  {
    seq(n, _ => x)
  }

  /** The END keys of the first k pairs. */
  lemma {:induction false} EndKeysOfPairs(k: nat, nt: nat)
    requires k <= nt
    ensures multiset(Image(Range(2 * k), EndKeyOf(nt))) == multiset(Range(k)) + multiset(Repeat(nt as int, k))
  {
    if k > 0 {
      EndKeysOfPairs(k - 1, nt);
      assert Image(Range(2 * k), EndKeyOf(nt)) == Image(Range(2 * k - 2), EndKeyOf(nt)) + [nt, k - 1];
      assert Range(k) == Range(k - 1) + [k - 1];
      assert Repeat(nt as int, k) == Repeat(nt as int, k - 1) + [nt];
    }
  }

  ghost function EndFirstKeys(n: nat, nt: nat): seq<int>
    requires nt <= n
  {
    Range(nt) + Repeat(nt as int, n - nt)
  }

  lemma EndKeysOfRange(n: nat, nt: nat)
    requires 2 * nt <= n
    ensures multiset(Image(Range(n), EndKeyOf(nt))) == multiset(EndFirstKeys(n, nt))
  {
    EndKeysOfPairs(nt, nt);
    assert Image(Range(n), EndKeyOf(nt)) == Image(Range(2 * nt), EndKeyOf(nt)) + Repeat(nt as int, n - 2 * nt);
    assert EndFirstKeys(n, nt) == Range(nt) + Repeat(nt as int, nt) + Repeat(nt as int, n - 2 * nt);
  }

  lemma EndKeysPermute(s: seq<SkRec>, nt: nat)
    requires Layout(s, nt) && 2 * nt <= |s|
    ensures multiset(Image(s, EndKey(nt))) == multiset(EndFirstKeys(|s|, nt))
  {
    forall i | 0 <= i < |s| ensures Image(s, EndKey(nt))[i] == Image(Image(s, PairKey(nt)), EndKeyOf(nt))[i] {
      assert Placed(s[i], nt);
    }
    assert Image(s, EndKey(nt)) == Image(Image(s, PairKey(nt)), EndKeyOf(nt));
    ImagePermutation(Image(s, PairKey(nt)), Range(|s|), EndKeyOf(nt));
    EndKeysOfRange(|s|, nt);
  }

  lemma EndFirstPositions(s: seq<SkRec>, nt: nat)
    requires Layout(s, nt) && SortedBy(s, CmpEndFirst) && 2 * nt <= |s|
    ensures forall i :: 0 <= i < nt ==> s[i].fieldType == End && s[i].originalIndex == i
  {
    var keys := Image(s, EndKey(nt));
    forall i, j | 0 <= i < j < |s| ensures keys[i] <= keys[j] {
      assert Placed(s[i], nt) && Placed(s[j], nt) && CmpEndFirst(s[i], s[j]) <= 0;
    }
    EndKeysPermute(s, nt);
    AscendingUnique(keys, EndFirstKeys(|s|, nt));
    forall i | 0 <= i < nt ensures s[i].fieldType == End && s[i].originalIndex == i {
      assert keys[i] == EndFirstKeys(|s|, nt)[i];
    }
  }

  // ---- Sweeps in join-attribute order ----

  /** w restricted to the records that sort strictly before e. */
  ghost function Before(w: SkRec -> int, e: SkRec): SkRec -> int {
    r => if CmpJoinAttr(r, e) < 0 then w(r) else 0
  }

  lemma BeforeInPrefix(s: seq<SkRec>, i: nat, w: SkRec -> int)
    requires SortedBy(s, CmpJoinAttr) && i < |s|
    requires forall j :: 0 <= j < |s| && w(s[j]) != 0 ==> CmpJoinAttr(s[j], s[i]) != 0
    ensures Total(s[..i + 1], w) == Total(s[..i + 1], Before(w, s[i]))
  {
    forall j | 0 <= j < i + 1 ensures Before(w, s[i])(s[j]) == w(s[j]) {
      assert j < i ==> CmpJoinAttr(s[j], s[i]) <= 0;
    }
    TotalExt(s[..i + 1], Before(w, s[i]), w);
  }

  lemma BeforeInSuffix(s: seq<SkRec>, i: nat, w: SkRec -> int)
    requires SortedBy(s, CmpJoinAttr) && i < |s|
    ensures Total(s[i + 1..], Before(w, s[i])) == 0
  {
    forall j | i + 1 <= j < |s| ensures Before(w, s[i])(s[j]) == 0 {
      assert CmpJoinAttr(s[i], s[j]) <= 0;
    }
    TotalZero(s[i + 1..], Before(w, s[i]));
  }

  /** A running sum in sorted order is a sum over everything that sorts before, however ties were broken. */
  lemma PrefixIsBefore(s: seq<SkRec>, i: nat, w: SkRec -> int)
    requires SortedBy(s, CmpJoinAttr) && i < |s|
    requires forall j :: 0 <= j < |s| && w(s[j]) != 0 ==> CmpJoinAttr(s[j], s[i]) != 0
    ensures Total(s[..i + 1], w) == Total(s, Before(w, s[i]))
  {
    BeforeInPrefix(s, i, w);
    BeforeInSuffix(s, i, w);
    TotalSplit(s, i + 1, Before(w, s[i]));
  }

  /** A comb of sources, then STARTs, then ENDs, each in row order. */
  lemma LayoutOfBlocks(src: seq<SkRec>, st: seq<SkRec>, en: seq<SkRec>)
    requires |st| == |en|
    requires forall i :: 0 <= i < |src| ==> src[i].fieldType == Source && src[i].originalIndex == i
    requires forall i :: 0 <= i < |st| ==> st[i].fieldType == Start && st[i].originalIndex == i
    requires forall i :: 0 <= i < |en| ==> en[i].fieldType == End && en[i].originalIndex == i
    ensures Layout(src + st + en, |st|)
  {
    var nt := |st|;
    var k := PairKey(nt);
    ImageConcat(src + st, en, k);
    ImageConcat(src, st, k);
    W.InterleaveMultiset(Image(st, k), Image(en, k));
    assert Range(|src + st + en|) == W.Interleave(Image(st, k), Image(en, k)) + Image(src, k);
  }
}
