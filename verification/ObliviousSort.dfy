/** ej_osort_g: pad to a power of two, shuffle through the Waksman network, sort, keep the real records. */
module ObliviousSort {
  import opened Totals
  import opened Waksman

  /** A comparator usable by qsort: its sign orders any two records, transitively. */
  ghost predicate Comparator<T(!new)>(cmp: (T, T) -> int) {
    && (forall x, y :: cmp(x, y) <= 0 || cmp(y, x) <= 0)
    && (forall x, y, z :: cmp(x, y) <= 0 && cmp(y, z) <= 0 ==> cmp(x, z) <= 0)
  }

  ghost predicate SortedBy<T>(s: seq<T>, cmp: (T, T) -> int) {
    forall i, j :: 0 <= i < j < |s| ==> cmp(s[i], s[j]) <= 0
  }

  /** t is one of the possible outcomes of sorting s: records that compare equal may land in any order. */
  ghost predicate SortOf<T>(t: seq<T>, s: seq<T>, cmp: (T, T) -> int) {
    multiset(t) == multiset(s) && SortedBy(t, cmp)
  }

  lemma SortOfElements<T>(t: seq<T>, s: seq<T>, cmp: (T, T) -> int)
    requires SortOf(t, s, cmp)
    ensures |t| == |s|
    ensures forall x :: x in t <==> x in s
  {
    assert |multiset(t)| == |multiset(s)|;
    forall x ensures x in t <==> x in s {
      assert x in multiset(t) <==> x in multiset(s);
    }
  }

  // ---- The library sort ----

  function Insert<T>(s: seq<T>, x: T, cmp: (T, T) -> int): (r: seq<T>)
    ensures |r| == |s| + 1
  {
    if s == [] then [x]
    else if cmp(s[|s| - 1], x) <= 0 then s + [x]
    else Insert(s[..|s| - 1], x, cmp) + [s[|s| - 1]]
  }

  lemma {:induction false} InsertMultiset<T>(s: seq<T>, x: T, cmp: (T, T) -> int)
    ensures multiset(Insert(s, x, cmp)) == multiset(s) + multiset{x}
  {
    if s != [] && cmp(s[|s| - 1], x) > 0 {
      MultisetSnoc(s);
      InsertMultiset(s[..|s| - 1], x, cmp);
    }
  }

  /** Appending a record that is not smaller than any other keeps the order. */
  lemma SortedSnoc<T>(s: seq<T>, z: T, cmp: (T, T) -> int)
    requires SortedBy(s, cmp) && forall x :: x in s ==> cmp(x, z) <= 0
    ensures SortedBy(s + [z], cmp)
  {
  }

  lemma {:induction false} InsertSorts<T(!new)>(s: seq<T>, x: T, cmp: (T, T) -> int)
    requires Comparator(cmp) && SortedBy(s, cmp)
    ensures SortedBy(Insert(s, x, cmp), cmp)
  {
    if s != [] {
      var z, s' := s[|s| - 1], s[..|s| - 1];
      if cmp(z, x) <= 0 {
        forall y | y in s ensures cmp(y, x) <= 0 {
          var i :| 0 <= i < |s| && s[i] == y;
          assert i < |s| - 1 ==> cmp(s[i], z) <= 0;
        }
        SortedSnoc(s, x, cmp);
      } else {
        InsertSorts(s', x, cmp);
        InsertMultiset(s', x, cmp);
        forall y | y in Insert(s', x, cmp) ensures cmp(y, z) <= 0 {
          assert y in multiset(Insert(s', x, cmp));
        }
        SortedSnoc(Insert(s', x, cmp), z, cmp);
      }
    }
  }

  function Sorted<T>(s: seq<T>, cmp: (T, T) -> int): seq<T> {
    if s == [] then [] else Insert(Sorted(s[..|s| - 1], cmp), s[|s| - 1], cmp)
  }

  lemma MultisetSnoc<T>(s: seq<T>)
    requires s != []
    ensures multiset(s) == multiset(s[..|s| - 1]) + multiset{s[|s| - 1]}
  {
    assert s == s[..|s| - 1] + [s[|s| - 1]];
  }

  lemma {:induction false} SortedMultiset<T>(s: seq<T>, cmp: (T, T) -> int)
    ensures multiset(Sorted(s, cmp)) == multiset(s)
  {
    if s != [] {
      SortedMultiset(s[..|s| - 1], cmp);
      InsertMultiset(Sorted(s[..|s| - 1], cmp), s[|s| - 1], cmp);
      MultisetSnoc(s);
    }
  }

  lemma {:induction false} SortedSorts<T(!new)>(s: seq<T>, cmp: (T, T) -> int)
    requires Comparator(cmp)
    ensures SortedBy(Sorted(s, cmp), cmp)
  {
    if s != [] {
      SortedSorts(s[..|s| - 1], cmp);
      InsertSorts(Sorted(s[..|s| - 1], cmp), s[|s| - 1], cmp);
    }
  }

  /** qsort of the C library: the contract leaves the order of equal records open. */
  method QSort<T(!new)>(a: array<T>, cmp: (T, T) -> int)
    requires Comparator(cmp)
    modifies a
    ensures SortOf(a[..], old(a[..]), cmp)
  {
    SortedSorts(a[..], cmp);
    SortedMultiset(a[..], cmp);
    var s := Sorted(a[..], cmp);
    SortOfElements(s, a[..], cmp);
    forall i | 0 <= i < a.Length {
      a[i] := s[i];
    }
    assert a[..] == s;
  }

  // ---- Shuffle-then-sort ----

  /** The keystream bits of one shuffle: any bits at all. */
  method SwitchBits(n: nat) returns (bits: seq<bool>)
    ensures |bits| == n
  {
    bits := [];
    while |bits| < n
      invariant |bits| <= n
    {
      var b: bool := *;
      bits := bits + [b];
    }
  }

  /** The line over the whole array picks everything. */
  lemma PickAll<T>(s: seq<T>)
    ensures Inside(Line(0, 1, |s|), |s|) && Pick(s, Line(0, 1, |s|)) == s
  {
  }

  /** A Waksman shuffle of the whole array under fresh switch bits. */
  method ShuffleAll<T>(a: array<T>, ghost k: nat)
    requires a.Length == Pow2(k)
    modifies a
    ensures multiset(a[..]) == multiset(old(a[..]))
  {
    ghost var was := a[..];
    var t := NumSwitches(a.Length, k);
    SwitchesClosedForm(k);
    var bits := SwitchBits(t);
    var bs := new BitStream(bits);
    ghost var pos := Line(0, 1, a.Length);
    LineDistinct(0, 1, a.Length);
    Shuffle(a, 0, 1, a.Length, bs, k, pos, bits);
    PickAll(a[..]);
    PickAll(was);
    NetworkPermutes(k, was, bits);
  }

  /** The least power of two that is at least n. */
  method PaddedSize(n: nat) returns (m: nat, ghost k: nat)
    ensures m == Pow2(k) && n <= m
    ensures k > 0 ==> Pow2(k - 1) < n
  {
    m, k := 1, 0;
    while m < n
      invariant m == Pow2(k)
      invariant k > 0 ==> Pow2(k - 1) < n
      decreases n - m
    {
      m, k := 2 * m, k + 1;
    }
  }

  ghost function Pads<T>(n: nat, pad: T): seq<T> {
    seq(n, _ => pad)
  }

  /** Sorting puts the padding last, so the first |s| records are a sort of s. */
  lemma PaddingLast<T(!new)>(s: seq<T>, t: seq<T>, n: nat, pad: T, cmp: (T, T) -> int)
    requires SortOf(t, s + Pads(n, pad), cmp)
    requires forall x :: x in s ==> cmp(pad, x) > 0
    requires cmp(pad, pad) <= 0
    ensures |t| == |s| + n && SortOf(t[..|s|], s, cmp)
  {
    var notPad := x => x != pad;
    SortOfElements(t, s + Pads(n, pad), cmp);
    forall i, j | 0 <= i < j < |t| && notPad(t[j]) ensures notPad(t[i]) {
      assert t[j] in s + Pads(n, pad);
      assert t[j] in s;
    }
    PrefixByCount(t, notPad);
    TotalPermutation(t, s + Pads(n, pad), Ind(notPad));
    TotalConcat(s, Pads(n, pad), Ind(notPad));
    TotalConstant(s, 1, Ind(notPad));
    TotalZero(Pads(n, pad), Ind(notPad));
    assert t[|s|..] == Pads(n, pad);
    FrontMultiset(s, t, Pads(n, pad));
  }

  lemma FrontMultiset<T>(s: seq<T>, t: seq<T>, pads: seq<T>)
    requires multiset(t) == multiset(s + pads) && |t| == |s| + |pads| && t[|s|..] == pads
    ensures multiset(t[..|s|]) == multiset(s)
  {
    assert t == t[..|s|] + pads;
    assert multiset(t) == multiset(t[..|s|]) + multiset(pads);
    assert multiset(s + pads) == multiset(s) + multiset(pads);
    assert multiset(s) == multiset(t) - multiset(pads) == multiset(t[..|s|]);
  }

  /** A fresh copy of a, padded to m records. */
  method Staged<T>(a: array<T>, m: nat, pad: T) returns (buf: array<T>)
    requires a.Length <= m
    ensures fresh(buf) && buf.Length == m && buf[..] == a[..] + Pads(m - a.Length, pad)
  {
    buf := new T[m](i requires 0 <= i < m reads a => if i < a.Length then a[i] else pad);
  }

  /** Overwrite a with the first records of buf. */
  method CopyBack<T>(a: array<T>, buf: array<T>)
    requires a != buf && a.Length <= buf.Length
    modifies a
    ensures a[..] == buf[..a.Length]
  {
    forall i | 0 <= i < a.Length {
      a[i] := buf[i];
    }
  }

  method ShuffleAndSort<T(!new)>(a: array<T>, cmp: (T, T) -> int, ghost k: nat)
    requires Comparator(cmp) && a.Length == Pow2(k)
    modifies a
    ensures SortOf(a[..], old(a[..]), cmp)
  {
    ShuffleAll(a, k);
    QSort(a, cmp);
  }

  method OSort<T(!new)>(a: array<T>, cmp: (T, T) -> int, pad: T)
    requires Comparator(cmp)
    requires forall x :: x in a[..] ==> cmp(pad, x) > 0
    modifies a
    ensures SortOf(a[..], old(a[..]), cmp)
  {
    if a.Length <= 1 {
      return;
    }
    var m, k := PaddedSize(a.Length);
    if m == a.Length {
      ShuffleAndSort(a, cmp, k);
    } else {
      ghost var was := a[..];
      var buf := Staged(a, m, pad);
      ShuffleAndSort(buf, cmp, k);
      PaddingLast(was, buf[..], m - a.Length, pad, cmp);
      CopyBack(a, buf);
    }
  }
}
