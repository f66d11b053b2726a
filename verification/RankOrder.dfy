/** The merge sort compares records by rank. No order is lost: on the records of a table every comparator is a rank. */
module RankOrder {
  import opened Totals
  import opened MinHeap

  /** A comparator says whether its first argument goes before the second; of the rest, neither goes before the other. */
  ghost predicate WeakOrder<T(!new)>(before: (T, T) -> bool) {
    && (forall x, y :: before(x, y) ==> !before(y, x))
    && (forall x, y, z :: before(x, z) ==> before(x, y) || before(y, z))
  }

  ghost predicate Ordered<T>(s: seq<T>, before: (T, T) -> bool) {
    forall i, j :: 0 <= i < j < |s| ==> !before(s[j], s[i])
  }

  /** 1 for the records that go before x. */
  ghost function Preceding<T>(before: (T, T) -> bool, x: T): T -> int {
    (y: T) => if before(y, x) then 1 else 0
  }

  /** How many records of the table go before x. */
  ghost function RankIn<T>(table: seq<T>, before: (T, T) -> bool): T -> int {
    (x: T) => Total(table, Preceding(before, x))
  }

  /** What goes before x goes before everything that does not itself go before x. */
  lemma PrecedingGrows<T(!new)>(table: seq<T>, before: (T, T) -> bool, x: T, y: T)
    requires WeakOrder(before) && !before(y, x)
    ensures forall i :: 0 <= i < |table| ==> Preceding(before, x)(table[i]) <= Preceding(before, y)(table[i])
    ensures RankIn(table, before)(x) <= RankIn(table, before)(y)
  {
    forall i | 0 <= i < |table| ensures Preceding(before, x)(table[i]) <= Preceding(before, y)(table[i]) {
      if before(table[i], x) {
        assert before(table[i], y) || before(y, x);
      }
    }
    TotalMonotone(table, Preceding(before, x), Preceding(before, y));
  }

  /** On the records of the table the comparator is the order of the ranks. */
  lemma RankAgrees<T(!new)>(table: seq<T>, before: (T, T) -> bool, x: T, y: T)
    requires WeakOrder(before) && x in table && y in table
    ensures Less(RankIn(table, before), x, y) <==> before(x, y)
  {
    if before(x, y) {
      PrecedingGrows(table, before, x, y);
      var k :| 0 <= k < |table| && table[k] == x;
      assert !before(x, x);
      assert Preceding(before, x)(table[k]) < Preceding(before, y)(table[k]);
      TotalMonotone(table, Preceding(before, x), Preceding(before, y));
    } else {
      PrecedingGrows(table, before, y, x);
    }
  }

  /** A rearrangement of the table that is sorted by rank is one that the comparator calls sorted, and conversely. */
  lemma SortedByRank<T(!new)>(table: seq<T>, result: seq<T>, before: (T, T) -> bool)
    requires WeakOrder(before) && multiset(result) == multiset(table)
    ensures SortedUp(result, RankIn(table, before)) <==> Ordered(result, before)
  {
    forall i, j | 0 <= i < j < |result|
      ensures RankIn(table, before)(result[i]) <= RankIn(table, before)(result[j]) <==> !before(result[j], result[i])
    {
      assert result[i] in multiset(result) && result[j] in multiset(result);
      RankAgrees(table, before, result[j], result[i]);
    }
  }
}
