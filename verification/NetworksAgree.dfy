/** Two networks, one result: the distance-halving passes and the AKS recursion put the same rows in the same slots. */
module NetworksAgree {
  import opened TrimmedRows
  import opened Distribute
  import A = AksNetwork
  import P = AksInPlace

  /** The record that travels with a row: everything but the slot number. */
  ghost function RowWords(r: TRow): seq<int> {
    [r.originalIndex, r.localMult, r.foreignSum, r.finalMult] + r.attributes
  }

  ghost function AsEntry(r: TRow): A.DistEntry {
    A.DistEntry(!IsReal()(r), r.dstIdx, RowWords(r))
  }

  ghost function AsEntries(a: seq<TRow>): (s: seq<A.DistEntry>)
    ensures |s| == |a|
  {
    seq(|a|, i requires 0 <= i < |a| => AsEntry(a[i]))
  }

  /** The real rows in front, in order. */
  ghost function InFront(r: seq<TRow>): (pos: seq<int>)
    ensures |pos| == |r|
  {
    seq(|r|, i => i)
  }

  lemma QueueAscends(r: seq<TRow>, n: nat, j: nat, k: nat)
    requires Queue(r, n) && j < k < |r|
    ensures 0 <= r[j].dstIdx < r[k].dstIdx < n
  {
    QueueGap(r, n, j, k);
    QueueSlack(r, n, j, j);
    QueueFits(r, n, k);
  }

  /** What the halving network takes, the AKS network takes. */
  lemma QueueIsFrontLoaded(a: seq<TRow>, r: seq<TRow>)
    requires Queue(r, |a|) && Spread(a, r, InFront(r))
    ensures P.FrontLoaded(AsEntries(a), |r|)
  {
    var s := AsEntries(a);
    forall k | 0 <= k < |r| ensures k < |a| && !s[k].isPadding && 0 <= s[k].dstIdx < |s| {
      assert a[InFront(r)[k]] == r[k].(index := k);
      QueueFits(r, |a|, k);
      QueueSlack(r, |a|, k, k);
    }
    forall j, k | 0 <= j < k < |r| ensures s[j].dstIdx < s[k].dstIdx {
      QueueAscends(r, |a|, j, k);
    }
    assert r != [] ==> |r| - 1 < |a| && !s[|r| - 1].isPadding;
    forall k | |r| <= k < |s| ensures s[k].isPadding {
      assert k !in InFront(r);
    }
  }

  /** Slot by slot: padding in both, or the same row in both. */
  ghost predicate SameSlots(a: seq<TRow>, t: seq<A.DistEntry>) {
    |a| == |t| && forall p :: 0 <= p < |a| ==> (IsReal()(a[p]) || !t[p].isPadding ==> t[p] == AsEntry(a[p]))
  }

  lemma SlotHoldsRow(a: seq<TRow>, r: seq<TRow>, t: seq<A.DistEntry>, s: seq<A.DistEntry>, k: nat)
    requires Spread(a, r, Destinations(r)) && k < |r| && IsReal()(r[k]) && P.Delivered(s, t) && AsEntry(r[k]) in s
    ensures 0 <= r[k].dstIdx < |a| && r[k].dstIdx < |t| && t[r[k].dstIdx] == AsEntry(r[k]) == AsEntry(a[r[k].dstIdx])
  {
    assert a[Destinations(r)[k]] == r[k].(index := r[k].dstIdx);
  }

  /** From the same rows in front, the two networks end with the same row in every slot. */
  lemma NetworksAgree(before: seq<TRow>, r: seq<TRow>, after: seq<TRow>, t: seq<A.DistEntry>)
    requires |after| == |before| && Queue(r, |before|) && Spread(before, r, InFront(r))
    requires Spread(after, r, Destinations(r)) && P.Delivered(AsEntries(before), t)
    ensures SameSlots(after, t)
  {
    var s := AsEntries(before);
    forall k | 0 <= k < |r| ensures AsEntry(r[k]) in s {
      assert before[InFront(r)[k]] == r[k].(index := k);
      assert s[k] == AsEntry(r[k]);
    }
    forall p | 0 <= p < |after| && IsReal()(after[p]) ensures t[p] == AsEntry(after[p]) {
      assert p in Destinations(r);
      var k :| 0 <= k < |r| && Destinations(r)[k] == p;
      SlotHoldsRow(after, r, t, s, k);
    }
    forall p | 0 <= p < |after| && !t[p].isPadding ensures t[p] == AsEntry(after[p]) {
      var i :| 0 <= i < |s| && s[i] == t[p];
      assert i in InFront(r);
      assert before[InFront(r)[i]] == r[i].(index := i);
      SlotHoldsRow(after, r, t, s, i);
      assert t[t[p].dstIdx] == t[p];
    }
  }
}
