/** WHERE conditions as bands: operators, intersections of bands on one column pair, and the fold over all conditions. */
module Conditions {
  import opened Records
  datatype Column = Column(table: string, col: string)

  /** source lies in the band around target. */
  datatype Constraint = Constraint(source: Column, target: Column, deviation1: int, equality1: Equality, deviation2: int, equality2: Equality)

  datatype Option<T> = None | Some(value: T)

  /** The band of a constraint as the join tree carries it. */
  function AsNode(c: Constraint): JoinNode {
    JoinNode(0, -1, 0, 0, c.deviation1, c.equality1, c.deviation2, c.equality2)
  }

  ghost predicate Accepts(c: Constraint, x: int, y: int) {
    InBand(AsNode(c), x, y)
  }

  /** Both ends are marked open or closed. */
  ghost predicate EndsMarked(c: Constraint) {
    c.equality1 != Equality.None && c.equality2 != Equality.None
  }

  // ---- Reversal ----

  /** Source and target change roles. */
  function ReverseConstraint(c: Constraint): Constraint {
    Constraint(c.target, c.source, -c.deviation2, c.equality2, -c.deviation1, c.equality1)
  }

  lemma ReverseAccepts(c: Constraint, x: int, y: int)
    ensures Accepts(ReverseConstraint(c), y, x) <==> Accepts(c, x, y)
    ensures ReverseConstraint(ReverseConstraint(c)) == c
    ensures ValidBand(AsNode(ReverseConstraint(c))) <==> ValidBand(AsNode(c))
  {
  }

  // ---- Operators ----

  datatype Operator = Equal | AtLeast | Greater | AtMost | Less | NotEqual | Unknown

  /** left OP right + deviation. */
  function OperatorToConstraint(left: Column, right: Column, op: Operator, deviation: int): Constraint {
    match op
    case Equal => Constraint(left, right, deviation, Eq, deviation, Eq)
    case AtLeast => Constraint(left, right, deviation, Eq, JOIN_ATTR_POS_INF, Neq)
    case Greater => Constraint(left, right, deviation, Neq, JOIN_ATTR_POS_INF, Neq)
    case AtMost => Constraint(left, right, JOIN_ATTR_NEG_INF, Neq, deviation, Eq)
    case Less => Constraint(left, right, JOIN_ATTR_NEG_INF, Neq, deviation, Neq)
    case NotEqual => Constraint(left, right, 1, Eq, 0, Eq)
    case Unknown => Constraint(left, right, 0, Eq, 0, Eq)
  }

  /** What the operator says; an operator that is not known is read as equality of the columns. */
  ghost predicate Holds(op: Operator, x: int, y: int, deviation: int) {
    match op
    case Equal => x == y + deviation
    case AtLeast => x >= y + deviation
    case Greater => x > y + deviation
    case AtMost => x <= y + deviation
    case Less => x < y + deviation
    case NotEqual => x != y + deviation
    case Unknown => x == y
  }

  /** The values that a band with a missing end does not cut off; the band of != cuts off all. */
  ghost predicate InReach(op: Operator, x: int, y: int) {
    && ((op == AtLeast || op == Greater) ==> x - y < JOIN_ATTR_POS_INF)
    && ((op == AtMost || op == Less) ==> JOIN_ATTR_NEG_INF < x - y)
    && op != NotEqual
  }

  /** The band of an operator accepts what the operator says, exactly up to the stand-ins for infinity. */
  lemma OperatorBand(left: Column, right: Column, op: Operator, deviation: int, x: int, y: int)
    ensures Accepts(OperatorToConstraint(left, right, op, deviation), x, y) <==> Holds(op, x, y, deviation) && InReach(op, x, y)
  {
  }

  /** Values no further apart than the largest attribute are in reach of every operator but !=. */
  lemma NearIsInReach(op: Operator, x: int, y: int)
    requires -JOIN_ATTR_MAX <= x - y <= JOIN_ATTR_MAX && op != NotEqual
    ensures InReach(op, x, y)
  {
  }

  /** Two attributes in the safe range can be too far apart: x >= y holds, the band refuses. */
  lemma FarIsCutOff(left: Column, right: Column)
    ensures SafeAttr(JOIN_ATTR_MAX) && SafeAttr(JOIN_ATTR_MIN)
    ensures Holds(AtLeast, JOIN_ATTR_MAX, JOIN_ATTR_MIN, 0)
    ensures !Accepts(OperatorToConstraint(left, right, AtLeast, 0), JOIN_ATTR_MAX, JOIN_ATTR_MIN)
  {
  }

  /** The band of != accepts nothing, so it also refuses values that differ. */
  lemma NotEqualRefuses(left: Column, right: Column)
    ensures Holds(NotEqual, 1, 0, 0) && forall x, y :: !Accepts(OperatorToConstraint(left, right, NotEqual, 0), x, y)
  {
  }

  predicate InInt32(x: int) {
    -0x8000_0000 <= x < 0x8000_0000
  }

  /** The ends of the band around y, and the negated offsets of the reversed band, are 32-bit numbers. */
  ghost predicate EndsFit(c: Constraint, y: int) {
    InInt32(y + c.deviation1) && InInt32(y + c.deviation2) && InInt32(-c.deviation1) && InInt32(-c.deviation2)
  }

  /** The deviations that can be added to every safe attribute: eight more at the bottom and seven more at the top. */
  lemma OffsetsFitExactly(left: Column, right: Column, op: Operator, deviation: int)
    ensures (forall y :: SafeAttr(y) ==> EndsFit(OperatorToConstraint(left, right, op, deviation), y)) <==>
      op == NotEqual || op == Unknown || JOIN_ATTR_MIN - 8 <= deviation <= JOIN_ATTR_MAX + 7
  {
    var c := OperatorToConstraint(left, right, op, deviation);
    if forall y :: SafeAttr(y) ==> EndsFit(c, y) {
      assert SafeAttr(JOIN_ATTR_MIN) && SafeAttr(JOIN_ATTR_MAX);
      assert EndsFit(c, JOIN_ATTR_MIN) && EndsFit(c, JOIN_ATTR_MAX);
    }
  }

  // ---- Intersection ----

  predicate StricterLower(dev1: int, eq1: Equality, dev2: int, eq2: Equality) {
    if dev1 > dev2 then true else if dev1 < dev2 then false else eq1 == Neq && eq2 == Eq
  }

  predicate StricterUpper(dev1: int, eq1: Equality, dev2: int, eq2: Equality) {
    if dev1 < dev2 then true else if dev1 > dev2 then false else eq1 == Neq && eq2 == Eq
  }

  predicate ValidRange(lower: int, lowerEq: Equality, upper: int, upperEq: Equality) {
    if lower == JOIN_ATTR_NEG_INF || upper == JOIN_ATTR_POS_INF then true
    else if lower > upper then false
    else if lower == upper && (lowerEq == Neq || upperEq == Neq) then lowerEq == Eq && upperEq == Eq
    else true
  }

  predicate CanMerge(c1: Constraint, c2: Constraint) {
    c1.source == c2.source && c1.target == c2.target
  }

  /** The stricter lower and the stricter upper end. */
  function Meet(c1: Constraint, c2: Constraint): Constraint {
    var first := StricterLower(c1.deviation1, c1.equality1, c2.deviation1, c2.equality1);
    var second := StricterUpper(c1.deviation2, c1.equality2, c2.deviation2, c2.equality2);
    Constraint(c1.source, c1.target,
               if first then c1.deviation1 else c2.deviation1, if first then c1.equality1 else c2.equality1,
               if second then c1.deviation2 else c2.deviation2, if second then c1.equality2 else c2.equality2)
  }

  function Merge(c1: Constraint, c2: Constraint): Option<Constraint> {
    var r := Meet(c1, c2);
    if CanMerge(c1, c2) && ValidRange(r.deviation1, r.equality1, r.deviation2, r.equality2) then Some(r) else Option.None
  }

  /** A merged band accepts what both bands accept; where merging one column pair fails there is nothing to accept. */
  lemma MergeIntersects(c1: Constraint, c2: Constraint, x: int, y: int)
    requires EndsMarked(c1) && EndsMarked(c2) && CanMerge(c1, c2)
    ensures match Merge(c1, c2)
      case Some(r) => CanMerge(r, c1) && EndsMarked(r) && (Accepts(r, x, y) <==> Accepts(c1, x, y) && Accepts(c2, x, y))
      case None => !(Accepts(c1, x, y) && Accepts(c2, x, y))
  {
  }

  /** Ends are offsets in the attribute range or open stand-ins for infinity. */
  ghost predicate OffsetsInRange(c: Constraint) {
    && EndsMarked(c)
    && (JOIN_ATTR_MIN <= c.deviation1 <= JOIN_ATTR_MAX || (c.deviation1 == JOIN_ATTR_NEG_INF && c.equality1 == Neq))
    && (JOIN_ATTR_MIN <= c.deviation2 <= JOIN_ATTR_MAX || (c.deviation2 == JOIN_ATTR_POS_INF && c.equality2 == Neq))
  }

  /** A band in range that the join can work with. */
  ghost predicate Sound(c: Constraint) {
    OffsetsInRange(c) && ValidBand(AsNode(c))
  }

  /** Neither empty between its ends nor reversed. */
  ghost predicate Proper(c: Constraint) {
    c.deviation1 < c.deviation2 || (c.deviation1 == c.deviation2 && c.equality1 == c.equality2 == Eq)
  }

  /** The test that merging applies is right exactly if the intersection is proper or misses neither end. */
  lemma MergeRightExactly(c1: Constraint, c2: Constraint)
    requires EndsMarked(c1) && EndsMarked(c2) && CanMerge(c1, c2)
    ensures var m := Meet(c1, c2);
      (Merge(c1, c2).Some? <==> Proper(m)) <==>
      Proper(m) || (m.deviation1 != JOIN_ATTR_NEG_INF && m.deviation2 != JOIN_ATTR_POS_INF)
  {
  }

  /** A single comparison is not tested at all; its band is proper exactly if its deviation leaves room for the missing end. */
  lemma OperatorProperExactly(left: Column, right: Column, op: Operator, deviation: int)
    ensures Proper(OperatorToConstraint(left, right, op, deviation)) <==>
      && ((op == AtLeast || op == Greater) ==> deviation < JOIN_ATTR_POS_INF)
      && ((op == AtMost || op == Less) ==> JOIN_ATTR_NEG_INF < deviation)
      && op != NotEqual
  {
  }

  /** The comparisons whose bands are in range and usable by the join. */
  ghost predicate Usable(op: Operator, deviation: int) {
    match op
    case NotEqual => false
    case Unknown => true
    case Greater => JOIN_ATTR_NEG_INF <= deviation <= JOIN_ATTR_MAX
    case Less => JOIN_ATTR_MIN <= deviation <= JOIN_ATTR_POS_INF
    case _ => JOIN_ATTR_MIN <= deviation <= JOIN_ATTR_MAX
  }

  lemma OperatorSoundExactly(left: Column, right: Column, op: Operator, deviation: int)
    ensures Sound(OperatorToConstraint(left, right, op, deviation)) <==> Usable(op, deviation)
  {
  }

  /** With offsets in range merging succeeds exactly if the join can work with the intersection. */
  lemma MergeIffValid(c1: Constraint, c2: Constraint)
    requires OffsetsInRange(c1) && OffsetsInRange(c2) && CanMerge(c1, c2)
    ensures Merge(c1, c2).Some? <==> ValidBand(AsNode(Meet(c1, c2)))
    ensures OffsetsInRange(Meet(c1, c2))
  {
  }

  /** With a smaller deviation, which parsing admits, a missing end passes a band that no value is in. */
  lemma MissingEndUnchecked(source: Column, target: Column)
    ensures var c := OperatorToConstraint(source, target, AtMost, JOIN_ATTR_NEG_INF - 1);
      Merge(c, c) == Some(c) && !Proper(c) && forall x, y :: !Accepts(c, x, y)
  {
  }

  // ---- The fold over all conditions ----

  datatype Pair = Pair(source: Column, target: Column)

  function PairOf(c: Constraint): Pair {
    Pair(c.source, c.target)
  }

  /** The indices below n of the conditions on a column pair. */
  ghost function IndicesOf(conditions: seq<Constraint>, p: Pair, n: nat): (r: seq<nat>)
    requires n <= |conditions|
    ensures forall i: nat :: i in r <==> i < n && PairOf(conditions[i]) == p
  {
    if n == 0 then [] else IndicesOf(conditions, p, n - 1) + if PairOf(conditions[n - 1]) == p then [n - 1] else []
  }

  ghost predicate Grouped(groups: map<Pair, seq<nat>>, conditions: seq<Constraint>, n: nat)
    requires n <= |conditions|
  {
    && (forall i :: 0 <= i < n ==> PairOf(conditions[i]) in groups)
    && (forall p :: p in groups ==> groups[p] != [] && groups[p] == IndicesOf(conditions, p, n))
  }

  lemma {:induction false} NoIndices(conditions: seq<Constraint>, p: Pair, n: nat)
    requires n <= |conditions| && forall i :: 0 <= i < n ==> PairOf(conditions[i]) != p
    ensures IndicesOf(conditions, p, n) == []
  {
    if n > 0 {
      NoIndices(conditions, p, n - 1);
    }
  }

  lemma GroupStep(groups: map<Pair, seq<nat>>, conditions: seq<Constraint>, n: nat)
    requires n < |conditions| && Grouped(groups, conditions, n)
    ensures var p := PairOf(conditions[n]);
      Grouped(groups[p := (if p in groups then groups[p] else []) + [n]], conditions, n + 1)
  {
    var p := PairOf(conditions[n]);
    var g := groups[p := (if p in groups then groups[p] else []) + [n]];
    if p !in groups {
      NoIndices(conditions, p, n);
    }
    forall q | q in g ensures g[q] != [] && g[q] == IndicesOf(conditions, q, n + 1) {
      IndicesStep(conditions, q, n);
    }
  }

  lemma IndicesStep(conditions: seq<Constraint>, p: Pair, n: nat)
    requires n < |conditions|
    ensures IndicesOf(conditions, p, n + 1) == IndicesOf(conditions, p, n) + if PairOf(conditions[n]) == p then [n] else []
  {
  }

  method GroupConditions(conditions: seq<Constraint>) returns (groups: map<Pair, seq<nat>>)
    ensures Grouped(groups, conditions, |conditions|)
  {
    groups := map[];
    for i := 0 to |conditions|
      invariant Grouped(groups, conditions, i)
    {
      GroupStep(groups, conditions, i);
      var key := PairOf(conditions[i]);
      groups := groups[key := (if key in groups then groups[key] else []) + [i]];
    }
  }

  /** The values that all the named conditions accept. */
  ghost predicate AllAccept(conditions: seq<Constraint>, indices: seq<nat>, x: int, y: int)
    requires forall i :: i in indices ==> i < |conditions|
  {
    forall i :: i in indices ==> Accepts(conditions[i], x, y)
  }

  ghost predicate OnPair(conditions: seq<Constraint>, indices: seq<nat>, p: Pair) {
    forall i :: i in indices ==> i < |conditions| && PairOf(conditions[i]) == p && EndsMarked(conditions[i])
  }

  /** What the fold over one group has computed: the intersection so far, or nothing left to intersect. */
  ghost predicate FoldedTo(conditions: seq<Constraint>, indices: seq<nat>, merged: Constraint, failed: bool)
    requires forall i :: i in indices ==> i < |conditions|
  {
    if failed then forall x, y :: !AllAccept(conditions, indices, x, y)
    else forall x, y :: Accepts(merged, x, y) <==> AllAccept(conditions, indices, x, y)
  }

  ghost predicate AllSound(conditions: seq<Constraint>) {
    forall i :: 0 <= i < |conditions| ==> Sound(conditions[i])
  }

  /** The band that is kept for a group, and whether a merge failed on the way. */
  datatype Kept = Kept(band: Constraint, failed: bool)

  /** One more condition: merged with the band, or reported and skipped. */
  ghost function Next(k: Kept, c: Constraint): Kept {
    match Merge(k.band, c)
    case Some(r) => Kept(r, k.failed)
    case None => Kept(k.band, true)
  }

  /** The conditions of one group, merged left to right. */
  ghost function Fold(conditions: seq<Constraint>, indices: seq<nat>): Kept
    requires indices != [] && forall i :: i in indices ==> i < |conditions|
  {
    var last := |indices| - 1;
    assert indices[last] in indices;
    if last == 0 then Kept(conditions[indices[0]], false)
    else
      assert forall i :: i in indices[..last] ==> i in indices;
      Next(Fold(conditions, indices[..last]), conditions[indices[last]])
  }

  /** What k means for the group p of conditions. */
  ghost predicate Means(conditions: seq<Constraint>, indices: seq<nat>, p: Pair, k: Kept)
    requires forall i :: i in indices ==> i < |conditions|
  {
    PairOf(k.band) == p && EndsMarked(k.band) && FoldedTo(conditions, indices, k.band, k.failed)
  }

  lemma NextMeans(conditions: seq<Constraint>, p: Pair, done: seq<nat>, i: nat, k: Kept)
    requires OnPair(conditions, done + [i], p) && (forall j :: j in done ==> j < |conditions|) && Means(conditions, done, p, k)
    ensures i < |conditions| && forall j :: j in done + [i] ==> j < |conditions|
    ensures Means(conditions, done + [i], p, Next(k, conditions[i]))
  {
    assert i in done + [i];
    var m := Merge(k.band, conditions[i]);
    forall x, y
      ensures AllAccept(conditions, done + [i], x, y) <==> AllAccept(conditions, done, x, y) && Accepts(conditions[i], x, y)
      ensures m.Some? ==> (Accepts(m.value, x, y) <==> Accepts(k.band, x, y) && Accepts(conditions[i], x, y))
      ensures m.None? ==> !(Accepts(k.band, x, y) && Accepts(conditions[i], x, y))
    {
      MergeIntersects(k.band, conditions[i], x, y);
      assert forall j :: j in done + [i] <==> j in done || j == i;
    }
  }

  lemma {:induction false} FoldMeans(conditions: seq<Constraint>, indices: seq<nat>, p: Pair)
    requires indices != [] && OnPair(conditions, indices, p)
    ensures Means(conditions, indices, p, Fold(conditions, indices))
  {
    var last := |indices| - 1;
    assert indices[last] in indices;
    if last == 0 {
      assert indices == [indices[0]];
    } else {
      var front := indices[..last];
      assert indices == front + [indices[last]];
      FoldMeans(conditions, front, p);
      NextMeans(conditions, p, front, indices[last], Fold(conditions, front));
    }
  }

  lemma {:induction false} FoldSound(conditions: seq<Constraint>, indices: seq<nat>, p: Pair)
    requires indices != [] && OnPair(conditions, indices, p) && forall i :: i in indices ==> Sound(conditions[i])
    ensures Sound(Fold(conditions, indices).band) && PairOf(Fold(conditions, indices).band) == p
  {
    var last := |indices| - 1;
    assert indices[last] in indices;
    if last > 0 {
      FoldSound(conditions, indices[..last], p);
      MergeIffValid(Fold(conditions, indices[..last]).band, conditions[indices[last]]);
    }
  }

  /** The loop over one group. */
  method MergeGroup(conditions: seq<Constraint>, indices: seq<nat>) returns (merged: Constraint, failed: bool)
    requires indices != [] && forall i :: i in indices ==> i < |conditions|
    ensures Kept(merged, failed) == Fold(conditions, indices)
  {
    assert indices[0] in indices;
    merged, failed := conditions[indices[0]], false;
    for k := 1 to |indices|
      invariant (forall i :: i in indices[..k] ==> i in indices) && Kept(merged, failed) == Fold(conditions, indices[..k])
    {
      assert indices[k] in indices && indices[..k + 1][..k] == indices[..k];
      match Merge(merged, conditions[indices[k]])
      case Some(r) => merged := r;
      case None => failed := true;
    }
    assert indices[..|indices|] == indices;
  }

  /** An assignment of values to columns satisfies every condition. */
  ghost predicate Satisfied(conditions: seq<Constraint>, val: Column -> int) {
    forall i :: 0 <= i < |conditions| ==> Accepts(conditions[i], val(conditions[i].source), val(conditions[i].target))
  }

  ghost predicate Covers(merged: seq<Constraint>, p: Pair) {
    exists k :: 0 <= k < |merged| && PairOf(merged[k]) == p
  }

  /** The band kept for every group outside the remaining ones; something failed if it did for one of them. */
  ghost predicate MergedOutside(conditions: seq<Constraint>, groups: map<Pair, seq<nat>>, remaining: set<Pair>, merged: seq<Constraint>, failed: bool)
    requires Grouped(groups, conditions, |conditions|)
  {
    && (forall k :: 0 <= k < |merged| ==> PairOf(merged[k]) in groups && PairOf(merged[k]) !in remaining)
    && (forall j, k :: 0 <= j < k < |merged| ==> PairOf(merged[j]) != PairOf(merged[k]))
    && (forall p :: p in groups && p !in remaining ==> Covers(merged, p))
    && (forall k :: 0 <= k < |merged| ==> merged[k] == Fold(conditions, groups[PairOf(merged[k])]).band)
    && (failed <==> FailedOutside(conditions, groups, remaining))
  }

  ghost predicate FailedOutside(conditions: seq<Constraint>, groups: map<Pair, seq<nat>>, remaining: set<Pair>)
    requires Grouped(groups, conditions, |conditions|)
  {
    exists p :: p in groups && p !in remaining && Fold(conditions, groups[p]).failed
  }

  lemma FailedStep(conditions: seq<Constraint>, groups: map<Pair, seq<nat>>, remaining: set<Pair>, p: Pair)
    requires Grouped(groups, conditions, |conditions|) && p in remaining && p in groups
    ensures FailedOutside(conditions, groups, remaining - {p}) <==> FailedOutside(conditions, groups, remaining) || Fold(conditions, groups[p]).failed
  {
    if FailedOutside(conditions, groups, remaining) {
      var q :| q in groups && q !in remaining && Fold(conditions, groups[q]).failed;
      assert q !in remaining - {p};
    }
    if FailedOutside(conditions, groups, remaining - {p}) {
      var q :| q in groups && q !in remaining - {p} && Fold(conditions, groups[q]).failed;
      assert q != p ==> q !in remaining;
    }
  }

  lemma CoversMore(merged: seq<Constraint>, c: Constraint, q: Pair)
    requires PairOf(c) == q || Covers(merged, q)
    ensures Covers(merged + [c], q)
  {
    if PairOf(c) == q {
      assert PairOf((merged + [c])[|merged|]) == q;
    } else {
      var k :| 0 <= k < |merged| && PairOf(merged[k]) == q;
      assert PairOf((merged + [c])[k]) == q;
    }
  }

  lemma MergedStep(conditions: seq<Constraint>, groups: map<Pair, seq<nat>>, remaining: set<Pair>, merged: seq<Constraint>, failed: bool,
                   p: Pair, c: Constraint, f: bool)
    requires Grouped(groups, conditions, |conditions|) && MergedOutside(conditions, groups, remaining, merged, failed)
    requires p in remaining && p in groups && PairOf(c) == p && Kept(c, f) == Fold(conditions, groups[p])
    ensures MergedOutside(conditions, groups, remaining - {p}, merged + [c], failed || f)
  {
    var m := merged + [c];
    FailedStep(conditions, groups, remaining, p);
    forall q | q in groups && q !in remaining - {p} ensures Covers(m, q) {
      CoversMore(merged, c, q);
    }
  }

  ghost predicate AllMarked(conditions: seq<Constraint>) {
    forall i :: 0 <= i < |conditions| ==> EndsMarked(conditions[i])
  }

  lemma GroupMeans(conditions: seq<Constraint>, groups: map<Pair, seq<nat>>, p: Pair)
    requires AllMarked(conditions) && Grouped(groups, conditions, |conditions|) && p in groups
    ensures Means(conditions, groups[p], p, Fold(conditions, groups[p]))
    ensures AllSound(conditions) ==> Sound(Fold(conditions, groups[p]).band)
  {
    FoldMeans(conditions, groups[p], p);
    if AllSound(conditions) {
      FoldSound(conditions, groups[p], p);
    }
  }

  lemma GroupAccepts(conditions: seq<Constraint>, groups: map<Pair, seq<nat>>, val: Column -> int)
    requires Grouped(groups, conditions, |conditions|)
    ensures Satisfied(conditions, val) <==> forall p :: p in groups ==> AllAccept(conditions, groups[p], val(p.source), val(p.target))
  {
    if forall p :: p in groups ==> AllAccept(conditions, groups[p], val(p.source), val(p.target)) {
      forall i | 0 <= i < |conditions| ensures Accepts(conditions[i], val(conditions[i].source), val(conditions[i].target)) {
        var p := PairOf(conditions[i]);
        assert i in groups[p] && AllAccept(conditions, groups[p], val(p.source), val(p.target));
      }
    }
  }

  /** The kept bands say for whole rows what they say group by group. */
  lemma KeptAccepts(conditions: seq<Constraint>, groups: map<Pair, seq<nat>>, merged: seq<Constraint>, failed: bool, val: Column -> int)
    requires Grouped(groups, conditions, |conditions|) && MergedOutside(conditions, groups, {}, merged, failed)
    ensures Satisfied(merged, val) <==> forall p :: p in groups ==> Accepts(Fold(conditions, groups[p]).band, val(p.source), val(p.target))
  {
    if Satisfied(merged, val) {
      forall p | p in groups ensures Accepts(Fold(conditions, groups[p]).band, val(p.source), val(p.target)) {
        assert Covers(merged, p);
        var k :| 0 <= k < |merged| && PairOf(merged[k]) == p;
      }
    }
  }

  /** What the fold over one group says of two values. */
  ghost predicate Says(k: Kept, refused: bool, accepted: bool) {
    if k.failed then refused else accepted <==> !refused
  }

  lemma GroupSays(conditions: seq<Constraint>, groups: map<Pair, seq<nat>>, p: Pair, x: int, y: int)
    requires AllMarked(conditions) && Grouped(groups, conditions, |conditions|) && p in groups
    ensures var k := Fold(conditions, groups[p]); Says(k, !AllAccept(conditions, groups[p], x, y), Accepts(k.band, x, y))
  {
    GroupMeans(conditions, groups, p);
  }

  lemma FailedRefuses(conditions: seq<Constraint>, groups: map<Pair, seq<nat>>, val: Column -> int)
    requires AllMarked(conditions) && Grouped(groups, conditions, |conditions|) && FailedOutside(conditions, groups, {})
    ensures !Satisfied(conditions, val)
  {
    GroupAccepts(conditions, groups, val);
    var p :| p in groups && Fold(conditions, groups[p]).failed;
    GroupSays(conditions, groups, p, val(p.source), val(p.target));
  }

  lemma UnfailedAgrees(conditions: seq<Constraint>, groups: map<Pair, seq<nat>>, val: Column -> int)
    requires AllMarked(conditions) && Grouped(groups, conditions, |conditions|) && !FailedOutside(conditions, groups, {})
    ensures Satisfied(conditions, val) <==> forall p :: p in groups ==> Accepts(Fold(conditions, groups[p]).band, val(p.source), val(p.target))
  {
    GroupAccepts(conditions, groups, val);
    forall p | p in groups
      ensures Accepts(Fold(conditions, groups[p]).band, val(p.source), val(p.target)) <==> AllAccept(conditions, groups[p], val(p.source), val(p.target))
    {
      GroupSays(conditions, groups, p, val(p.source), val(p.target));
    }
  }

  /** What the fold means for whole rows: nothing failed and both say the same, or the conditions contradict each other. */
  lemma MergedSatisfied(conditions: seq<Constraint>, groups: map<Pair, seq<nat>>, merged: seq<Constraint>, failed: bool, val: Column -> int)
    requires AllMarked(conditions) && Grouped(groups, conditions, |conditions|) && MergedOutside(conditions, groups, {}, merged, failed)
    ensures if failed then !Satisfied(conditions, val) else Satisfied(merged, val) <==> Satisfied(conditions, val)
  {
    if failed {
      FailedRefuses(conditions, groups, val);
    } else {
      UnfailedAgrees(conditions, groups, val);
      KeptAccepts(conditions, groups, merged, failed, val);
    }
  }

  /** The constraint of one more group. */
  method MergeNext(conditions: seq<Constraint>, groups: map<Pair, seq<nat>>, ghost remaining: set<Pair>, p: Pair, merged: seq<Constraint>, failed: bool)
    returns (m: seq<Constraint>, f: bool)
    requires AllMarked(conditions) && Grouped(groups, conditions, |conditions|)
    requires MergedOutside(conditions, groups, remaining, merged, failed) && p in remaining && p in groups
    ensures MergedOutside(conditions, groups, remaining - {p}, m, f)
    ensures AllSound(conditions) && AllSound(merged) ==> AllSound(m)
  {
    var c, g := MergeGroup(conditions, groups[p]);
    GroupMeans(conditions, groups, p);
    MergedStep(conditions, groups, remaining, merged, failed, p, c, g);
    m, f := merged + [c], failed || g;
  }

  /** What is kept of the conditions on one column pair. */
  ghost function KeptFor(conditions: seq<Constraint>, p: Pair): Kept
    requires IndicesOf(conditions, p, |conditions|) != []
  {
    Fold(conditions, IndicesOf(conditions, p, |conditions|))
  }

  /** Some condition is on the column pair. */
  ghost predicate Occurs(conditions: seq<Constraint>, p: Pair) {
    IndicesOf(conditions, p, |conditions|) != []
  }

  lemma AllMerged(conditions: seq<Constraint>, groups: map<Pair, seq<nat>>, merged: seq<Constraint>, failed: bool)
    requires Grouped(groups, conditions, |conditions|) && MergedOutside(conditions, groups, {}, merged, failed)
    ensures forall p :: Occurs(conditions, p) <==> Covers(merged, p)
    ensures forall k :: 0 <= k < |merged| ==> Occurs(conditions, PairOf(merged[k])) && merged[k] == KeptFor(conditions, PairOf(merged[k])).band
    ensures failed <==> exists p :: Occurs(conditions, p) && KeptFor(conditions, p).failed
  {
    forall p ensures Occurs(conditions, p) <==> p in groups {
      GroupNamed(groups, conditions, p);
    }
  }

  /**
   * merge_join_conditions: one constraint per column pair, the one that folding its conditions keeps. Without a failed
   * merge the result accepts exactly the rows that satisfy all conditions; a failed merge means that no row does.
   */
  method MergeJoinConditions(conditions: seq<Constraint>) returns (merged: seq<Constraint>, failed: bool)
    requires AllMarked(conditions)
    ensures forall j, k :: 0 <= j < k < |merged| ==> PairOf(merged[j]) != PairOf(merged[k])
    ensures forall p :: Occurs(conditions, p) <==> Covers(merged, p)
    ensures forall k :: 0 <= k < |merged| ==> Occurs(conditions, PairOf(merged[k])) && merged[k] == KeptFor(conditions, PairOf(merged[k])).band
    ensures failed <==> exists p :: Occurs(conditions, p) && KeptFor(conditions, p).failed
    ensures !failed ==> forall val: Column -> int :: Satisfied(merged, val) <==> Satisfied(conditions, val)
    ensures failed ==> forall val: Column -> int :: !Satisfied(conditions, val)
    ensures AllSound(conditions) ==> AllSound(merged)
  {
    var groups := GroupConditions(conditions);
    merged, failed := [], false;
    var remaining := groups.Keys;
    while remaining != {}
      invariant remaining <= groups.Keys && MergedOutside(conditions, groups, remaining, merged, failed)
      invariant AllSound(conditions) ==> AllSound(merged)
    {
      var p :| p in remaining;
      merged, failed := MergeNext(conditions, groups, remaining, p, merged, failed);
      remaining := remaining - {p};
    }
    AllMerged(conditions, groups, merged, failed);
    forall val: Column -> int
      ensures if failed then !Satisfied(conditions, val) else Satisfied(merged, val) <==> Satisfied(conditions, val)
    {
      MergedSatisfied(conditions, groups, merged, failed, val);
    }
  }

  lemma GroupNamed(groups: map<Pair, seq<nat>>, conditions: seq<Constraint>, p: Pair)
    requires Grouped(groups, conditions, |conditions|)
    ensures Occurs(conditions, p) <==> p in groups
  {
    if Occurs(conditions, p) {
      var i := IndicesOf(conditions, p, |conditions|)[0];
      assert i in IndicesOf(conditions, p, |conditions|);
    }
  }

  // ---- From comparisons to bands ----

  datatype Comparison = Comparison(left: Column, right: Column, op: Operator, deviation: int)

  function Translate(q: Comparison): (c: Constraint)
    ensures EndsMarked(c)
  {
    OperatorToConstraint(q.left, q.right, q.op, q.deviation)
  }

  function TranslateAll(qs: seq<Comparison>): (r: seq<Constraint>)
    ensures |r| == |qs|
  {
    seq(|qs|, i requires 0 <= i < |qs| => Translate(qs[i]))
  }

  /** The values meet every comparison. */
  ghost predicate AllMeet(qs: seq<Comparison>, val: Column -> int) {
    forall i :: 0 <= i < |qs| ==> Holds(qs[i].op, val(qs[i].left), val(qs[i].right), qs[i].deviation)
  }

  /** The values that are compared are in reach. */
  ghost predicate AllInReach(qs: seq<Comparison>, val: Column -> int) {
    forall i :: 0 <= i < |qs| ==> InReach(qs[i].op, val(qs[i].left), val(qs[i].right))
  }

  /** The bands of a conjunction accept exactly the values in reach of which it holds. */
  lemma TranslationExact(qs: seq<Comparison>, val: Column -> int)
    ensures Satisfied(TranslateAll(qs), val) <==> AllMeet(qs, val) && AllInReach(qs, val)
  {
    forall i | 0 <= i < |qs|
      ensures Accepts(TranslateAll(qs)[i], val(qs[i].left), val(qs[i].right)) <==>
        Holds(qs[i].op, val(qs[i].left), val(qs[i].right), qs[i].deviation) && InReach(qs[i].op, val(qs[i].left), val(qs[i].right))
    {
      OperatorBand(qs[i].left, qs[i].right, qs[i].op, qs[i].deviation, val(qs[i].left), val(qs[i].right));
    }
  }

  /** All values that are compared lie no further apart than the largest attribute. */
  ghost predicate AllNear(qs: seq<Comparison>, val: Column -> int) {
    forall i :: 0 <= i < |qs| ==> -JOIN_ATTR_MAX <= val(qs[i].left) - val(qs[i].right) <= JOIN_ATTR_MAX
  }

  lemma NearAreInReach(qs: seq<Comparison>, val: Column -> int)
    requires AllNear(qs, val) && forall i :: 0 <= i < |qs| ==> qs[i].op != NotEqual
    ensures AllInReach(qs, val)
  {
    forall i | 0 <= i < |qs| ensures InReach(qs[i].op, val(qs[i].left), val(qs[i].right)) {
      NearIsInReach(qs[i].op, val(qs[i].left), val(qs[i].right));
    }
  }

  ghost predicate AllUsable(qs: seq<Comparison>) {
    forall i :: 0 <= i < |qs| ==> Usable(qs[i].op, qs[i].deviation)
  }

  /** Parsed comparisons to the constraints of the join: translate, then merge. */
  method JoinConstraints(qs: seq<Comparison>) returns (merged: seq<Constraint>, failed: bool)
    ensures forall val: Column -> int {:trigger Satisfied(merged, val)} ::
      if failed then !(AllMeet(qs, val) && AllInReach(qs, val)) else Satisfied(merged, val) <==> AllMeet(qs, val) && AllInReach(qs, val)
    ensures AllUsable(qs) ==> AllSound(merged)
  {
    forall i | 0 <= i < |qs| ensures Sound(Translate(qs[i])) <==> Usable(qs[i].op, qs[i].deviation) {
      OperatorSoundExactly(qs[i].left, qs[i].right, qs[i].op, qs[i].deviation);
    }
    merged, failed := MergeJoinConditions(TranslateAll(qs));
    forall val: Column -> int
      ensures Satisfied(TranslateAll(qs), val) <==> AllMeet(qs, val) && AllInReach(qs, val)
    {
      TranslationExact(qs, val);
    }
  }
}
