/** Finite sums over sequences, and what is invariant under permuting a sequence. */
module Totals {

  /** The sum of f over the elements of s, with repetition. */
  ghost function Total<T>(s: seq<T>, f: T -> int): int {
    if s == [] then 0 else Total(s[..|s| - 1], f) + f(s[|s| - 1])
  }

  /** The indicator function of p. */
  ghost function Ind<T>(p: T -> bool): T -> int {
    x => if p(x) then 1 else 0
  }

  /** How many elements of s satisfy p. */
  ghost function Count<T>(s: seq<T>, p: T -> bool): int {
    Total(s, Ind(p))
  }

  lemma TotalSnoc<T>(s: seq<T>, x: T, f: T -> int)
    ensures Total(s + [x], f) == Total(s, f) + f(x)
  {
    assert (s + [x])[..|s|] == s;
  }

  lemma {:induction false} TotalConcat<T>(s: seq<T>, t: seq<T>, f: T -> int)
    ensures Total(s + t, f) == Total(s, f) + Total(t, f)
  {
    if t == [] {
      assert s + t == s;
    } else {
      var t' := t[..|t| - 1];
      assert s + t == (s + t') + [t[|t| - 1]];
      TotalSnoc(s + t', t[|t| - 1], f);
      TotalConcat(s, t', f);
    }
  }

  lemma TotalSplit<T>(s: seq<T>, k: nat, f: T -> int)
    requires k <= |s|
    ensures Total(s, f) == Total(s[..k], f) + Total(s[k..], f)
  {
    assert s == s[..k] + s[k..];
    TotalConcat(s[..k], s[k..], f);
  }

  lemma WithoutOne<T>(t: seq<T>, j: nat)
    requires j < |t|
    ensures multiset(t[..j] + t[j + 1..]) == multiset(t) - multiset{t[j]}
  {
    assert t == t[..j] + [t[j]] + t[j + 1..];
  }

  /** Taking one occurrence of an element out of two permuted sequences keeps them permuted. */
  lemma RemoveOne<T>(s: seq<T>, t: seq<T>, j: nat)
    requires multiset(s) == multiset(t) && |s| > 0 && j < |t| && t[j] == s[|s| - 1]
    ensures multiset(s[..|s| - 1]) == multiset(t[..j] + t[j + 1..])
  {
    WithoutOne(t, j);
    WithoutOne(s, |s| - 1);
    assert s[..|s| - 1] + s[|s|..] == s[..|s| - 1];
  }

  lemma TotalWithout<T>(t: seq<T>, j: nat, f: T -> int)
    requires j < |t|
    ensures Total(t, f) == Total(t[..j] + t[j + 1..], f) + f(t[j])
  {
    TotalSplit(t, j + 1, f);
    assert t[..j + 1] == t[..j] + [t[j]];
    TotalSnoc(t[..j], t[j], f);
    TotalConcat(t[..j], t[j + 1..], f);
  }

  /** Sums do not depend on the order of the elements. */
  lemma {:induction false} TotalPermutation<T>(s: seq<T>, t: seq<T>, f: T -> int)
    requires multiset(s) == multiset(t)
    ensures Total(s, f) == Total(t, f)
    decreases |s|
  {
    assert |multiset(s)| == |multiset(t)|;
    if s != [] {
      var x := s[|s| - 1];
      assert x in multiset(t);
      var j :| 0 <= j < |t| && t[j] == x;
      RemoveOne(s, t, j);
      TotalPermutation(s[..|s| - 1], t[..j] + t[j + 1..], f);
      TotalWithout(t, j, f);
    }
  }

  lemma {:induction false} TotalExt<T>(s: seq<T>, f: T -> int, g: T -> int)
    requires forall i :: 0 <= i < |s| ==> f(s[i]) == g(s[i])
    ensures Total(s, f) == Total(s, g)
  {
    if s != [] {
      TotalExt(s[..|s| - 1], f, g);
    }
  }

  lemma {:induction false} TotalAdd<T>(s: seq<T>, f: T -> int, g: T -> int, h: T -> int)
    requires forall i :: 0 <= i < |s| ==> h(s[i]) == f(s[i]) + g(s[i])
    ensures Total(s, h) == Total(s, f) + Total(s, g)
  {
    if s != [] {
      TotalAdd(s[..|s| - 1], f, g, h);
    }
  }

  lemma {:induction false} TotalScale<T>(s: seq<T>, k: int, f: T -> int, h: T -> int)
    requires forall i :: 0 <= i < |s| ==> h(s[i]) == k * f(s[i])
    ensures Total(s, h) == k * Total(s, f)
  {
    if s != [] {
      TotalScale(s[..|s| - 1], k, f, h);
    }
  }

  lemma {:induction false} TotalZero<T>(s: seq<T>, f: T -> int)
    requires forall i :: 0 <= i < |s| ==> f(s[i]) == 0
    ensures Total(s, f) == 0
  {
    if s != [] {
      TotalZero(s[..|s| - 1], f);
    }
  }

  lemma {:induction false} TotalNonNegative<T>(s: seq<T>, f: T -> int)
    requires forall i :: 0 <= i < |s| ==> 0 <= f(s[i])
    ensures 0 <= Total(s, f)
  {
    if s != [] {
      TotalNonNegative(s[..|s| - 1], f);
    }
  }

  /** A sum of non-negative terms is at least each of them. */
  lemma {:induction false} TotalAtLeast<T>(s: seq<T>, f: T -> int, k: nat)
    requires k < |s|
    requires forall i :: 0 <= i < |s| ==> 0 <= f(s[i])
    ensures f(s[k]) <= Total(s, f)
  {
    TotalNonNegative(s[..|s| - 1], f);
    if k < |s| - 1 {
      TotalAtLeast(s[..|s| - 1], f, k);
    }
  }

  /** Sums of larger terms are larger. */
  lemma {:induction false} TotalMonotone<T>(s: seq<T>, f: T -> int, g: T -> int)
    requires forall i :: 0 <= i < |s| ==> f(s[i]) <= g(s[i])
    ensures Total(s, f) <= Total(s, g)
    ensures (exists i :: 0 <= i < |s| && f(s[i]) < g(s[i])) ==> Total(s, f) < Total(s, g)
  {
    if s != [] {
      TotalMonotone(s[..|s| - 1], f, g);
    }
  }

  /** Part of a sum of non-negative terms is at most the whole. */
  lemma TotalPrefix<T>(s: seq<T>, k: nat, f: T -> int)
    requires k <= |s| && forall i :: 0 <= i < |s| ==> 0 <= f(s[i])
    ensures 0 <= Total(s[..k], f) <= Total(s, f)
  {
    TotalSplit(s, k, f);
    TotalNonNegative(s[..k], f);
    TotalNonNegative(s[k..], f);
  }

  /** Two sequences read through their own functions, position by position. */
  lemma {:induction false} TotalZip<S, T>(s: seq<S>, t: seq<T>, f: S -> int, g: T -> int)
    requires |s| == |t|
    requires forall i :: 0 <= i < |s| ==> f(s[i]) == g(t[i])
    ensures Total(s, f) == Total(t, g)
  {
    if s != [] {
      TotalZip(s[..|s| - 1], t[..|t| - 1], f, g);
    }
  }

  lemma {:induction false} TotalConstant<T>(s: seq<T>, k: int, f: T -> int)
    requires forall i :: 0 <= i < |s| ==> f(s[i]) == k
    ensures Total(s, f) == k * |s|
  {
    if s != [] {
      TotalConstant(s[..|s| - 1], k, f);
    }
  }

  /** Exchanging the order of summation. */
  lemma {:induction false} TotalSwap<S, T>(s: seq<S>, t: seq<T>, row: S -> T -> int, col: T -> S -> int, f: S -> int, g: T -> int)
    requires forall i :: 0 <= i < |s| ==> f(s[i]) == Total(t, row(s[i]))
    requires forall j :: 0 <= j < |t| ==> g(t[j]) == Total(s, col(t[j]))
    requires forall i, j :: 0 <= i < |s| && 0 <= j < |t| ==> row(s[i])(t[j]) == col(t[j])(s[i])
    ensures Total(s, f) == Total(t, g)
  {
    if s == [] {
      TotalZero(t, g);
    } else {
      var s', x := s[..|s| - 1], s[|s| - 1];
      var g' := y => Total(s', col(y));
      TotalSwap(s', t, row, col, f, g');
      TotalAdd(t, g', row(x), g);
    }
  }

  /** Occurrences in a multiset are a sum. */
  lemma {:induction false} MultiplicityIsCount<T>(s: seq<T>, x: T, f: T -> int)
    requires forall i :: 0 <= i < |s| ==> f(s[i]) == if s[i] == x then 1 else 0
    ensures multiset(s)[x] == Total(s, f)
  {
    if s != [] {
      assert s == s[..|s| - 1] + [s[|s| - 1]];
      MultiplicityIsCount(s[..|s| - 1], x, f);
    }
  }

  /** If p holds of a prefix only, the prefix has Count(s, p) elements. */
  lemma {:induction false} PrefixByCount<T>(s: seq<T>, p: T -> bool)
    requires forall i, j :: 0 <= i < j < |s| && p(s[j]) ==> p(s[i])
    ensures 0 <= Count(s, p) <= |s|
    ensures forall i :: 0 <= i < |s| ==> (i < Count(s, p) <==> p(s[i]))
  {
    if s != [] {
      var s' := s[..|s| - 1];
      PrefixByCount(s', p);
      var x := s[|s| - 1];
      if p(x) {
        if s' != [] {
          assert p(s'[|s'| - 1]) by {
            assert p(s[|s| - 1]) && s[|s| - 2] == s'[|s'| - 1];
          }
        }
        assert Count(s', p) == |s'|;
      }
    }
  }

  /** Elements that p rejects can be dropped from both ends. */
  lemma TotalMiddle<T>(s: seq<T>, lo: nat, hi: nat, f: T -> int)
    requires lo <= hi <= |s|
    requires forall i :: 0 <= i < |s| && !(lo <= i < hi) ==> f(s[i]) == 0
    ensures Total(s, f) == Total(s[lo..hi], f)
  {
    TotalSplit(s, hi, f);
    TotalSplit(s[..hi], lo, f);
    assert s[..hi][..lo] == s[..lo] && s[..hi][lo..] == s[lo..hi];
    TotalZero(s[..lo], f);
    TotalZero(s[hi..], f);
  }

  // ---- Sequences without repetition ----

  ghost predicate NoRepeats<T>(s: seq<T>) {
    forall i, j :: 0 <= i < j < |s| ==> s[i] != s[j]
  }

  lemma NoRepeatsConcat<T>(s: seq<T>, t: seq<T>)
    requires NoRepeats(s) && NoRepeats(t) && forall x :: x in s ==> x !in t
    ensures NoRepeats(s + t)
  {
    forall i, j | 0 <= i < j < |s + t| ensures (s + t)[i] != (s + t)[j] {
      if i < |s| <= j {
        assert s[i] in s && t[j - |s|] in t;
      }
    }
  }

  lemma {:induction false} OnceEach<T>(s: seq<T>, x: T)
    requires NoRepeats(s)
    ensures multiset(s)[x] == if x in s then 1 else 0
  {
    if s != [] {
      assert s == s[..|s| - 1] + [s[|s| - 1]];
      OnceEach(s[..|s| - 1], x);
    }
  }

  lemma SameMembers<T>(s: seq<T>, t: seq<T>)
    requires NoRepeats(s) && NoRepeats(t) && forall x :: x in s <==> x in t
    ensures multiset(s) == multiset(t)
  {
    forall x ensures multiset(s)[x] == multiset(t)[x] {
      OnceEach(s, x);
      OnceEach(t, x);
    }
  }

  lemma TwiceMultiset<T>(s: seq<T>, i: nat, j: nat)
    requires i < j < |s| && s[i] == s[j]
    ensures multiset(s)[s[i]] >= 2
  {
    assert s == s[..j] + s[j..];
    assert s[i] in s[..j] && s[j] in s[j..];
    assert multiset(s)[s[i]] == multiset(s[..j])[s[i]] + multiset(s[j..])[s[i]];
  }

  lemma {:induction false} SubsetSize<T>(a: set<T>, b: set<T>)
    requires a <= b
    ensures |a| <= |b|
  {
    if a != {} {
      var x :| x in a;
      SubsetSize(a - {x}, b - {x});
    }
  }

  lemma Reassociate<T>(a: seq<T>, b: seq<T>, c: seq<T>)
    ensures a + b + c == a + (b + c)
  {
  }

  /** Distinct numbers below n are at most n many. */
  lemma {:induction false} DistinctBelow(s: seq<nat>, n: nat)
    requires NoRepeats(s) && forall x :: x in s ==> x < n
    ensures |s| <= n
    decreases n
  {
    assert s != [] ==> s[0] in s;
    if exists j :: 0 <= j < |s| && s[j] == n - 1 {
      var j :| 0 <= j < |s| && s[j] == n - 1;
      var s' := s[..j] + s[j + 1..];
      forall x | x in s' ensures x < n - 1 {
        var i :| 0 <= i < |s'| && s'[i] == x;
        var k := if i < j then i else i + 1;
        assert x == s[k] && s[k] in s;
        assert if k < j then s[k] != s[j] else s[j] != s[k];
      }
      DistinctBelow(s', n - 1);
    } else if n > 0 {
      DistinctBelow(s, n - 1);
    }
  }

  ghost function Members(s: seq<nat>): set<nat> {
    set x | x in s
  }

  lemma SomeMember<T>(s: set<T>) returns (x: T)
    requires s != {}
    ensures x in s
  {
    x :| x in s;
  }
}
