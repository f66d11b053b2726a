/** The child side of an attach: copy indices, alignment keys, and how many copies of a row each key gets. */
module AlignKeys {
  import opened Totals
  import opened Records
  import opened TopDown
  import opened TrimmedRows
  import opened Distribute
  import opened NodeTotals

  // ---- Copy indices and keys along the expanded table ----

  /** The position of s[k] within its run of equal original indices. */
  ghost function CopyIndex(s: seq<TRow>, k: nat): nat
    requires k < |s|
  {
    if k > 0 && s[k].originalIndex == s[k - 1].originalIndex then CopyIndex(s, k - 1) + 1 else 0
  }

  function KeyOf(r: TRow): int {
    r.foreignSum + r.copyIndex / Safe(r.localMult)
  }

  function WithKey(r: TRow, col: int, copy: int): TRow {
    r.(joinAttr := Attr(r.attributes, col), copyIndex := copy, alignmentKey := r.foreignSum + copy / Safe(r.localMult))
  }

  ghost function KeyedAt(s: seq<TRow>, col: int, k: nat): TRow
    requires k < |s|
  {
    WithKey(s[k], col, CopyIndex(s, k))
  }

  /** The child rows after the two key loops. */
  ghost function Keyed(s: seq<TRow>, col: int): (r: seq<TRow>)
    ensures |r| == |s|
  {
    seq(|s|, k requires 0 <= k < |s| => KeyedAt(s, col, k))
  }

  lemma {:induction false} CopyIndexPrefix(s: seq<TRow>, t: seq<TRow>, k: nat)
    requires k < |s|
    ensures CopyIndex(s + t, k) == CopyIndex(s, k)
  {
    if k > 0 {
      CopyIndexPrefix(s, t, k - 1);
    }
  }

  /** A run that follows other indices is numbered from 0. */
  lemma {:induction false} CopyIndexInRun(s: seq<TRow>, run: seq<TRow>, o: int, j: nat)
    requires j < |run| && forall i :: 0 <= i < |run| ==> run[i].originalIndex == o
    requires s != [] ==> s[|s| - 1].originalIndex != o
    ensures CopyIndex(s + run, |s| + j) == j
  {
    assert (s + run)[|s| + j] == run[j];
    if j > 0 {
      assert (s + run)[|s| + j - 1] == run[j - 1];
      CopyIndexInRun(s, run, o, j - 1);
    } else if s != [] {
      assert (s + run)[|s| - 1] == s[|s| - 1];
    }
  }

  // ---- The keyed table, row by row ----

  function KeyedCopy(e: Entry, dst: int, col: int, j: nat): TRow {
    WithKey(RowOf(e, dst, dst + j), col, j)
  }

  /** The first m keyed copies of e. */
  ghost function KeyedCopies(e: Entry, dst: int, col: int, m: nat): (r: seq<TRow>)
    ensures |r| == m
  {
    seq(m, j requires 0 <= j < m => KeyedCopy(e, dst, col, j))
  }

  ghost function KeyedTable(t: seq<Entry>, col: int, n: nat): seq<TRow>
    requires Counts(t) && n <= |t|
  {
    if n == 0 then []
    else KeyedTable(t, col, n - 1) + KeyedCopies(t[n - 1], Offset(t, n - 1), col, t[n - 1].finalMult)
  }

  lemma {:induction false} ExpandedIndices(t: seq<Entry>, n: nat)
    requires Counts(t) && Indexed(t) && n <= |t|
    ensures forall k :: 0 <= k < |Expanded(t, n)| ==> Expanded(t, n)[k].originalIndex < n
  {
    if n > 0 {
      ExpandedIndices(t, n - 1);
      var prev: seq<TRow>, run: seq<TRow> := Expanded(t, n - 1), CopiesOf(t, n - 1);
      assert Expanded(t, n) == prev + run;
      forall k | 0 <= k < |prev + run| ensures (prev + run)[k].originalIndex < n {
        if k < |prev| {
          assert prev[k].originalIndex < n - 1;
        } else {
          var j := k - |prev|;
          assert run[j] == RowOf(t[n - 1], Offset(t, n - 1), Offset(t, n - 1) + j);
        }
      }
    }
  }

  lemma KeyedSplits(s: seq<TRow>, e: Entry, dst: int, col: int, run: seq<TRow>)
    requires e.finalMult == |run| && forall j :: 0 <= j < |run| ==> run[j] == RowOf(e, dst, dst + j)
    requires s != [] ==> s[|s| - 1].originalIndex != e.originalIndex
    ensures Keyed(s + run, col) == Keyed(s, col) + KeyedCopies(e, dst, col, e.finalMult)
  {
    forall k | 0 <= k < |s| ensures Keyed(s + run, col)[k] == Keyed(s, col)[k] {
      CopyIndexPrefix(s, run, k);
    }
    forall j | 0 <= j < |run| ensures Keyed(s + run, col)[|s| + j] == KeyedCopies(e, dst, col, e.finalMult)[j] {
      CopyIndexInRun(s, run, e.originalIndex, j);
      assert (s + run)[|s| + j] == run[j];
    }
  }

  /** On the expanded table the loops number every row's copies from 0. */
  lemma {:induction false} KeyedExpanded(t: seq<Entry>, col: int, n: nat)
    requires Counts(t) && Indexed(t) && n <= |t|
    ensures Keyed(Expanded(t, n), col) == KeyedTable(t, col, n)
  {
    if n > 0 {
      KeyedExpanded(t, col, n - 1);
      ExpandedIndices(t, n - 1);
      KeyedSplits(Expanded(t, n - 1), t[n - 1], Offset(t, n - 1), col, CopiesOf(t, n - 1));
      assert Expanded(t, n) == Expanded(t, n - 1) + CopiesOf(t, n - 1);
    }
  }

  // ---- Sums over one key ----

  /** f of the attributes of the rows with alignment key g. */
  ghost function AtKey(g: int, f: seq<int> -> int): TRow -> int {
    (r: TRow) => if r.alignmentKey == g then f(r.attributes) else 0
  }

  /** The keys of a child row are an interval of groups, each taken local_mult times. */
  ghost function TakesGroup(e: Entry, interval: int, g: int): bool {
    e.foreignSum <= g < e.foreignSum + interval
  }

  lemma QuotientAt(m: nat, k: nat, i: nat)
    requires i < m
    ensures (k * m + i) / m == k
  {
    var q, r := (k * m + i) / m, (k * m + i) % m;
    assert k * m + i == m * q + r;
    assert m * (k - q) == r - i;
    AtLeastFactor(m, k - q);
  }

  lemma StepProduct(k: nat, m: nat)
    requires k > 0
    ensures k * m == (k - 1) * m + m && 0 <= (k - 1) * m
  {
  }

  /** The k-th run of local_mult copies has key foreign_sum + k. */
  lemma RunTotal(e: Entry, dst: int, col: int, k: nat, g: int, f: seq<int> -> int)
    requires e.localMult >= 0 && k * e.localMult >= 0
    ensures var s := KeyedCopies(e, dst, col, k * e.localMult + e.localMult)[k * e.localMult..];
      Total(s, AtKey(g, f)) == if g == e.foreignSum + k then e.localMult * f(e.attributes) else 0
  {
    var m := e.localMult;
    var s := KeyedCopies(e, dst, col, k * m + m)[k * m..];
    forall i | 0 <= i < m ensures AtKey(g, f)(s[i]) == if g == e.foreignSum + k then f(e.attributes) else 0 {
      assert s[i] == KeyedCopy(e, dst, col, k * m + i);
      QuotientAt(m, k, i);
    }
    TotalConstant(s, if g == e.foreignSum + k then f(e.attributes) else 0, AtKey(g, f));
  }

  lemma {:induction false} CopiesTotal(e: Entry, dst: int, col: int, interval: nat, g: int, f: seq<int> -> int)
    requires e.localMult >= 0 && interval * e.localMult >= 0
    ensures Total(KeyedCopies(e, dst, col, interval * e.localMult), AtKey(g, f))
         == if TakesGroup(e, interval, g) then e.localMult * f(e.attributes) else 0
  {
    if interval > 0 {
      var m, k := e.localMult, interval - 1;
      StepProduct(interval, m);
      CopiesTotal(e, dst, col, k, g, f);
      RunTotal(e, dst, col, k, g, f);
      var s := KeyedCopies(e, dst, col, interval * m);
      assert s == KeyedCopies(e, dst, col, k * m) + s[k * m..];
      TotalConcat(KeyedCopies(e, dst, col, k * m), s[k * m..], AtKey(g, f));
    }
  }

  /** Each row contributes to group g its local multiplicity, if it takes that group. */
  ghost function GroupShare(interval: Entry -> int, g: int, f: seq<int> -> int): Entry -> int {
    (e: Entry) => if TakesGroup(e, interval(e), g) then e.localMult * f(e.attributes) else 0
  }

  /** final_mult is so many groups times local_mult. */
  ghost predicate InGroups(t: seq<Entry>, interval: Entry -> int) {
    forall i :: 0 <= i < |t| ==> 0 <= interval(t[i]) && 0 <= t[i].localMult && t[i].finalMult == interval(t[i]) * t[i].localMult
  }

  lemma {:induction false} TableTotal(t: seq<Entry>, col: int, n: nat, interval: Entry -> int, g: int, f: seq<int> -> int)
    requires Counts(t) && InGroups(t, interval) && n <= |t|
    ensures Total(KeyedTable(t, col, n), AtKey(g, f)) == Total(t[..n], GroupShare(interval, g, f))
  {
    if n > 0 {
      TableTotal(t, col, n - 1, interval, g, f);
      var e := t[n - 1];
      CopiesTotal(e, Offset(t, n - 1), col, interval(e), g, f);
      TotalConcat(KeyedTable(t, col, n - 1), KeyedCopies(e, Offset(t, n - 1), col, e.finalMult), AtKey(g, f));
      assert t[..n] == t[..n - 1] + [e];
      TotalSnoc(t[..n - 1], e, GroupShare(interval, g, f));
    }
  }

  /** What each keyed row knows of its table row. */
  ghost predicate FromRow(r: TRow, t: seq<Entry>, interval: Entry -> int, i: nat)
    requires i < |t|
  {
    && r.attributes == t[i].attributes && r.fieldType == t[i].fieldType
    && TakesGroup(t[i], interval(t[i]), r.alignmentKey)
  }

  lemma QuotientBelow(k: nat, m: nat, j: nat)
    requires j < k * m
    ensures m > 0 && 0 <= j / m < k
  {
    assert m > 0;
    var q, r := j / m, j % m;
    assert j == m * q + r;
    assert m * (q - k) < 0;
    AtLeastFactor(m, q - k);
  }

  lemma {:induction false} KeyedRows(t: seq<Entry>, col: int, n: nat, interval: Entry -> int, k: nat) returns (i: nat)
    requires Counts(t) && InGroups(t, interval) && n <= |t| && k < |KeyedTable(t, col, n)|
    ensures i < n && FromRow(KeyedTable(t, col, n)[k], t, interval, i)
  {
    var prev := KeyedTable(t, col, n - 1);
    if k < |prev| {
      i := KeyedRows(t, col, n - 1, interval, k);
    } else {
      i := n - 1;
      QuotientBelow(interval(t[i]), t[i].localMult, k - |prev|);
    }
  }
}
