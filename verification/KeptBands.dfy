/** When the band that is kept for a column pair says what its conditions say, told from the conditions. */
module KeptBands {
  import opened Records
  import opened Conditions

  // ---- Bands as ranges of differences ----

  /** The least and the greatest difference that a band accepts. */
  ghost function First(c: Constraint): int {
    c.deviation1 + if c.equality1 == Eq then 0 else 1
  }

  ghost function Last(c: Constraint): int {
    c.deviation2 - if c.equality2 == Eq then 0 else 1
  }

  /** Some difference lies in the band. */
  ghost predicate HasInteger(c: Constraint) {
    First(c) <= Last(c)
  }

  lemma AcceptsRange(c: Constraint, x: int, y: int)
    requires EndsMarked(c)
    ensures Accepts(c, x, y) <==> First(c) <= x - y <= Last(c)
  {
  }

  lemma HasIntegerExactly(c: Constraint)
    requires EndsMarked(c)
    ensures HasInteger(c) <==> exists x, y :: Accepts(c, x, y)
  {
    if HasInteger(c) {
      AcceptsRange(c, First(c), 0);
    }
    forall x, y | Accepts(c, x, y) ensures HasInteger(c) {
      AcceptsRange(c, x, y);
    }
  }

  /** Between two neighbouring open ends there is no integer. */
  ghost predicate UnitGap(c: Constraint) {
    c.equality1 == Neq && c.equality2 == Neq && c.deviation2 == c.deviation1 + 1
  }

  /** A band without an integer is not proper, or it is such a gap. */
  lemma EmptyExactly(c: Constraint)
    requires EndsMarked(c)
    ensures !HasInteger(c) <==> !Proper(c) || UnitGap(c)
  {
  }

  lemma MeetRange(c: Constraint, d: Constraint)
    requires EndsMarked(c) && EndsMarked(d)
    ensures EndsMarked(Meet(c, d))
    ensures First(Meet(c, d)) == if First(c) > First(d) then First(c) else First(d)
    ensures Last(Meet(c, d)) == if Last(c) < Last(d) then Last(c) else Last(d)
  {
  }

  /** A difference lies in both bands. */
  ghost predicate Overlap(c: Constraint, d: Constraint) {
    HasInteger(Meet(c, d))
  }

  // ---- Many bands on one column pair ----

  ghost predicate Marked(conditions: seq<Constraint>, f: seq<nat>) {
    forall i :: i in f ==> i < |conditions| && EndsMarked(conditions[i])
  }

  /** The intersection of the named bands. */
  ghost function MeetOf(conditions: seq<Constraint>, f: seq<nat>): Constraint
    requires f != [] && Marked(conditions, f)
  {
    var last := |f| - 1;
    assert f[last] in f;
    if last == 0 then conditions[f[0]] else
      assert forall i :: i in f[..last] ==> i in f;
      Meet(MeetOf(conditions, f[..last]), conditions[f[last]])
  }

  /** The intersection starts where one of the bands does, not before any other, and ends likewise. */
  lemma {:induction false} MeetOfRange(conditions: seq<Constraint>, f: seq<nat>) returns (a: nat, b: nat)
    requires f != [] && Marked(conditions, f)
    ensures a in f && b in f && EndsMarked(MeetOf(conditions, f))
    ensures First(MeetOf(conditions, f)) == First(conditions[a]) && Last(MeetOf(conditions, f)) == Last(conditions[b])
    ensures forall j :: j in f ==> First(conditions[j]) <= First(conditions[a]) && Last(conditions[b]) <= Last(conditions[j])
  {
    var last := |f| - 1;
    assert f[last] in f;
    if last == 0 {
      a, b := f[0], f[0];
    } else {
      var front := f[..last];
      assert f == front + [f[last]];
      a, b := MeetOfRange(conditions, front);
      MeetRange(MeetOf(conditions, front), conditions[f[last]]);
      a := if First(conditions[f[last]]) > First(conditions[a]) then f[last] else a;
      b := if Last(conditions[f[last]]) < Last(conditions[b]) then f[last] else b;
    }
  }

  /** The band overlaps itself and every one of the named bands. */
  ghost predicate FitsAll(conditions: seq<Constraint>, f: seq<nat>, i: nat)
    requires Marked(conditions, f) && i < |conditions|
  {
    HasInteger(conditions[i]) && forall j :: j in f ==> Overlap(conditions[j], conditions[i])
  }

  /** Bands that overlap pairwise have a difference in common. */
  lemma FitsMeet(conditions: seq<Constraint>, f: seq<nat>, i: nat)
    requires f != [] && Marked(conditions, f) && i < |conditions| && EndsMarked(conditions[i]) && HasInteger(MeetOf(conditions, f))
    ensures FitsAll(conditions, f, i) <==> HasInteger(Meet(MeetOf(conditions, f), conditions[i]))
  {
    var a, b := MeetOfRange(conditions, f);
    MeetRange(MeetOf(conditions, f), conditions[i]);
    forall j | j in f
      ensures Overlap(conditions[j], conditions[i]) <==>
        HasInteger(conditions[j]) && HasInteger(conditions[i]) && First(conditions[j]) <= Last(conditions[i]) && First(conditions[i]) <= Last(conditions[j])
    {
      MeetRange(conditions[j], conditions[i]);
    }
  }

  // ---- Which conditions count ----

  /** The conditions that overlap all the counted ones before them. */
  ghost function Fitting(conditions: seq<Constraint>, indices: seq<nat>): (f: seq<nat>)
    requires Marked(conditions, indices)
    ensures |f| <= |indices| && forall i :: i in f ==> i in indices
  {
    if indices == [] then [] else
      var last := |indices| - 1;
      assert indices[last] in indices && forall i :: i in indices[..last] ==> i in indices;
      var f := Fitting(conditions, indices[..last]);
      if FitsAll(conditions, f, indices[last]) then f + [indices[last]] else f
  }

  /** An empty band that the test of a merge lets pass: a gap, or one that misses an end. */
  ghost predicate PassesEmpty(m: Constraint) {
    UnitGap(m) || m.deviation1 == JOIN_ATTR_NEG_INF || m.deviation2 == JOIN_ATTR_POS_INF
  }

  lemma PassesExactly(c: Constraint, d: Constraint)
    requires EndsMarked(c) && EndsMarked(d) && CanMerge(c, d) && !HasInteger(Meet(c, d))
    ensures Merge(c, d).Some? <==> PassesEmpty(Meet(c, d))
  {
  }

  /** Condition i is kept although it leaves nothing: it is the first one, or its intersection with the counted ones passes. */
  ghost predicate Swallows(conditions: seq<Constraint>, f: seq<nat>, i: nat)
    requires Marked(conditions, f) && i < |conditions|
  {
    !FitsAll(conditions, f, i) && (f == [] || PassesEmpty(Meet(MeetOf(conditions, f), conditions[i])))
  }

  /** This happens to one of the conditions. */
  ghost predicate LeavesNothing(conditions: seq<Constraint>, indices: seq<nat>)
    requires Marked(conditions, indices)
  {
    exists n: nat :: n < |indices| && SwallowsAt(conditions, indices, n)
  }

  ghost predicate SwallowsAt(conditions: seq<Constraint>, indices: seq<nat>, n: nat)
    requires Marked(conditions, indices) && n < |indices|
  {
    assert indices[n] in indices && forall i :: i in indices[..n] ==> i in indices;
    Swallows(conditions, Fitting(conditions, indices[..n]), indices[n])
  }

  /** What the fold has kept, in terms of its conditions: nothing, or the intersection of those that count. */
  ghost predicate KeptIs(conditions: seq<Constraint>, indices: seq<nat>, k: Kept)
    requires Marked(conditions, indices)
  {
    var f := Fitting(conditions, indices);
    if LeavesNothing(conditions, indices) then !HasInteger(k.band)
    else f != [] && k.band == MeetOf(conditions, f) && HasInteger(k.band) && (k.failed <==> |f| < |indices|)
  }

  lemma Unfolded(conditions: seq<Constraint>, front: seq<nat>, i: nat)
    requires Marked(conditions, front) && Marked(conditions, front + [i]) && i < |conditions|
    ensures var f := Fitting(conditions, front);
      && Fitting(conditions, front + [i]) == (if FitsAll(conditions, f, i) then f + [i] else f)
      && (LeavesNothing(conditions, front + [i]) <==> LeavesNothing(conditions, front) || Swallows(conditions, f, i))
  {
    var indices := front + [i];
    assert indices[..|front|] == front && indices[|front|] == i;
    forall n: nat | n < |front| ensures SwallowsAt(conditions, indices, n) <==> SwallowsAt(conditions, front, n) {
      assert indices[..n] == front[..n] && indices[n] == front[n];
    }
    assert SwallowsAt(conditions, indices, |front|) <==> Swallows(conditions, Fitting(conditions, front), i);
  }

  lemma MeetOfMore(conditions: seq<Constraint>, f: seq<nat>, i: nat)
    requires f != [] && Marked(conditions, f) && Marked(conditions, f + [i]) && i < |conditions|
    ensures MeetOf(conditions, f + [i]) == Meet(MeetOf(conditions, f), conditions[i])
  {
    assert (f + [i])[..|f|] == f;
  }

  /** Merging succeeds if the intersection has an integer, or is empty and passes. */
  lemma NextBand(k: Kept, c: Constraint)
    requires EndsMarked(k.band) && EndsMarked(c) && CanMerge(k.band, c)
    ensures var m := Meet(k.band, c);
      Next(k, c) == if HasInteger(m) || PassesEmpty(m) then Kept(m, k.failed) else Kept(k.band, true)
  {
    var m := Meet(k.band, c);
    MeetRange(k.band, c);
    if !HasInteger(m) {
      PassesExactly(k.band, c);
    } else {
      EmptyExactly(m);
    }
  }

  lemma KeptNext(conditions: seq<Constraint>, front: seq<nat>, i: nat, p: Pair, k: Kept)
    requires front != [] && OnPair(conditions, front + [i], p) && Marked(conditions, front) && Marked(conditions, front + [i])
    requires KeptIs(conditions, front, k) && PairOf(k.band) == p && EndsMarked(k.band) && i < |conditions|
    ensures KeptIs(conditions, front + [i], Next(k, conditions[i]))
  {
    var f := Fitting(conditions, front);
    assert i in front + [i];
    Unfolded(conditions, front, i);
    NextBand(k, conditions[i]);
    MeetRange(k.band, conditions[i]);
    if !LeavesNothing(conditions, front) {
      FitsMeet(conditions, f, i);
      if FitsAll(conditions, f, i) {
        assert forall j :: j in f + [i] ==> j in front + [i];
        MeetOfMore(conditions, f, i);
      }
    }
  }

  lemma {:induction false} FoldKeeps(conditions: seq<Constraint>, indices: seq<nat>, p: Pair)
    requires indices != [] && OnPair(conditions, indices, p) && Marked(conditions, indices)
    ensures KeptIs(conditions, indices, Fold(conditions, indices))
  {
    var last := |indices| - 1;
    assert indices[last] in indices;
    var front := indices[..last];
    if last == 0 {
      assert indices == [] + [indices[0]];
      Unfolded(conditions, [], indices[0]);
    } else {
      assert indices == front + [indices[last]];
      FoldKeeps(conditions, front, p);
      FoldMeans(conditions, front, p);
      KeptNext(conditions, front, indices[last], p, Fold(conditions, front));
    }
  }

  /** Any two of the conditions accept a common difference. */
  ghost predicate Compatible(conditions: seq<Constraint>, indices: seq<nat>)
    requires Marked(conditions, indices)
  {
    forall i, j :: i in indices && j in indices ==> Overlap(conditions[i], conditions[j])
  }

  lemma {:induction false} AllFitting(conditions: seq<Constraint>, indices: seq<nat>)
    requires Marked(conditions, indices)
    ensures Compatible(conditions, indices) <==> |Fitting(conditions, indices)| == |indices|
    ensures |Fitting(conditions, indices)| == |indices| ==> Fitting(conditions, indices) == indices
  {
    if indices != [] {
      var last := |indices| - 1;
      var front, i := indices[..last], indices[last];
      assert i in indices && indices == front + [i] && forall j :: j in front ==> j in indices;
      AllFitting(conditions, front);
      Unfolded(conditions, front, i);
      CompatibleMore(conditions, front, i);
    }
  }

  lemma CompatibleMore(conditions: seq<Constraint>, front: seq<nat>, i: nat)
    requires Marked(conditions, front) && Marked(conditions, front + [i]) && i < |conditions|
    ensures Compatible(conditions, front + [i]) <==> Compatible(conditions, front) && FitsAll(conditions, front, i)
  {
    assert i in front + [i] && forall j :: j in front ==> j in front + [i];
    MeetRange(conditions[i], conditions[i]);
    forall j | j in front ensures Overlap(conditions[i], conditions[j]) <==> Overlap(conditions[j], conditions[i]) {
      MeetRange(conditions[i], conditions[j]);
      MeetRange(conditions[j], conditions[i]);
    }
  }

  /** The kept band says what the conditions say exactly if these are compatible or one of them is kept although it leaves nothing. */
  lemma KeptBandExactly(conditions: seq<Constraint>, indices: seq<nat>, p: Pair)
    requires indices != [] && OnPair(conditions, indices, p) && Marked(conditions, indices)
    ensures (forall x, y :: Accepts(Fold(conditions, indices).band, x, y) <==> AllAccept(conditions, indices, x, y)) <==>
      Compatible(conditions, indices) || LeavesNothing(conditions, indices)
  {
    var k := Fold(conditions, indices);
    FoldMeans(conditions, indices, p);
    FoldKeeps(conditions, indices, p);
    AllFitting(conditions, indices);
    HasIntegerExactly(k.band);
    if k.failed && HasInteger(k.band) {
      var x, y :| Accepts(k.band, x, y);
      assert !AllAccept(conditions, indices, x, y);
    }
  }

  /** A kept constraint can accept rows that the conditions refuse. */
  lemma FailedMergeAccepts(left: Column, right: Column)
    ensures var zero, one := OperatorToConstraint(left, right, Equal, 0), OperatorToConstraint(left, right, Equal, 1);
      Fold([zero, one], [0, 1]) == Kept(zero, true) && Accepts(zero, 0, 0) && !Accepts(one, 0, 0)
  {
    assert [0, 1][..1] == [0];
  }

  // ---- In the safe range ----

  /** Twice the ends, an open end half a step further in: a band is proper if these do not cross, a gap if they meet at an odd number. */
  ghost function Lower(c: Constraint): int {
    2 * c.deviation1 + if c.equality1 == Eq then 0 else 1
  }

  ghost function Upper(c: Constraint): int {
    2 * c.deviation2 - if c.equality2 == Eq then 0 else 1
  }

  lemma EndsMean(c: Constraint)
    requires EndsMarked(c)
    ensures Proper(c) <==> Lower(c) <= Upper(c)
    ensures UnitGap(c) <==> Lower(c) == Upper(c) && Lower(c) % 2 == 1
  {
  }

  lemma MeetEnds(c: Constraint, d: Constraint)
    requires EndsMarked(c) && EndsMarked(d)
    ensures Lower(Meet(c, d)) == if Lower(c) > Lower(d) then Lower(c) else Lower(d)
    ensures Upper(Meet(c, d)) == if Upper(c) < Upper(d) then Upper(c) else Upper(d)
  {
  }

  ghost predicate SoundOn(conditions: seq<Constraint>, f: seq<nat>, p: Pair) {
    forall i :: i in f ==> i < |conditions| && PairOf(conditions[i]) == p && Sound(conditions[i])
  }

  lemma {:induction false} MeetOfEnds(conditions: seq<Constraint>, f: seq<nat>, p: Pair) returns (a: nat, b: nat)
    requires f != [] && SoundOn(conditions, f, p)
    ensures Marked(conditions, f) && a in f && b in f && OffsetsInRange(MeetOf(conditions, f)) && PairOf(MeetOf(conditions, f)) == p
    ensures Lower(MeetOf(conditions, f)) == Lower(conditions[a]) && Upper(MeetOf(conditions, f)) == Upper(conditions[b])
    ensures forall j :: j in f ==> Lower(conditions[j]) <= Lower(conditions[a]) && Upper(conditions[b]) <= Upper(conditions[j])
  {
    var last := |f| - 1;
    assert f[last] in f;
    if last == 0 {
      a, b := f[0], f[0];
    } else {
      var front := f[..last];
      assert f == front + [f[last]];
      a, b := MeetOfEnds(conditions, front, p);
      MeetEnds(MeetOf(conditions, front), conditions[f[last]]);
      MergeIffValid(MeetOf(conditions, front), conditions[f[last]]);
      a := if Lower(conditions[f[last]]) > Lower(conditions[a]) then f[last] else a;
      b := if Upper(conditions[f[last]]) < Upper(conditions[b]) then f[last] else b;
    }
  }

  lemma MergeByEnds(c: Constraint, d: Constraint)
    requires OffsetsInRange(c) && OffsetsInRange(d) && CanMerge(c, d)
    ensures Merge(c, d).Some? <==> Lower(Meet(c, d)) <= Upper(Meet(c, d))
  {
    MergeIffValid(c, d);
    EndsMean(Meet(c, d));
  }

  /** A band merges with an intersection exactly if it merges with every band of it. */
  lemma MergesWithAll(conditions: seq<Constraint>, f: seq<nat>, i: nat, p: Pair)
    requires f != [] && SoundOn(conditions, f, p) && SoundOn(conditions, [i], p) && Marked(conditions, f) && Proper(MeetOf(conditions, f))
    ensures i < |conditions|
    ensures Merge(MeetOf(conditions, f), conditions[i]).Some? <==> forall j :: j in f ==> Merge(conditions[j], conditions[i]).Some?
  {
    assert i in [i];
    var a, b := MeetOfEnds(conditions, f, p);
    var m := MeetOf(conditions, f);
    MergeByEnds(m, conditions[i]);
    MeetEnds(m, conditions[i]);
    EndsMean(m);
    EndsMean(conditions[i]);
    forall j | j in f
      ensures Merge(conditions[j], conditions[i]).Some? <==> Lower(conditions[j]) <= Upper(conditions[i]) && Lower(conditions[i]) <= Upper(conditions[j])
    {
      MergeByEnds(conditions[j], conditions[i]);
      MeetEnds(conditions[j], conditions[i]);
      EndsMean(conditions[j]);
    }
  }

  /** Two of the conditions cannot be merged. */
  ghost predicate Clashing(conditions: seq<Constraint>, indices: seq<nat>)
    requires Marked(conditions, indices)
  {
    exists i, j :: i in indices && j in indices && Merge(conditions[i], conditions[j]).None?
  }

  lemma ClashingMore(conditions: seq<Constraint>, front: seq<nat>, i: nat, p: Pair)
    requires SoundOn(conditions, front + [i], p) && Marked(conditions, front) && Marked(conditions, front + [i]) && i < |conditions|
    ensures Clashing(conditions, front + [i]) <==> Clashing(conditions, front) || exists j :: j in front && Merge(conditions[j], conditions[i]).None?
  {
    assert i in front + [i] && forall j :: j in front ==> j in front + [i];
    MergeByEnds(conditions[i], conditions[i]);
    MeetEnds(conditions[i], conditions[i]);
    EndsMean(conditions[i]);
    forall j | j in front ensures Merge(conditions[i], conditions[j]).Some? <==> Merge(conditions[j], conditions[i]).Some? {
      MergeByEnds(conditions[i], conditions[j]);
      MergeByEnds(conditions[j], conditions[i]);
      MeetEnds(conditions[i], conditions[j]);
      MeetEnds(conditions[j], conditions[i]);
    }
  }

  lemma FoldMore(conditions: seq<Constraint>, front: seq<nat>, i: nat)
    requires front != [] && (forall j :: j in front + [i] ==> j < |conditions|)
    ensures i < |conditions| && forall j :: j in front ==> j < |conditions|
    ensures Fold(conditions, front + [i]) == Next(Fold(conditions, front), conditions[i])
  {
    assert i in front + [i] && forall j :: j in front ==> j in front + [i];
    assert (front + [i])[..|front|] == front;
  }

  /** Nothing has failed, and the band is the intersection; or something has, and two conditions clash. */
  ghost predicate FailsRightly(conditions: seq<Constraint>, indices: seq<nat>, k: Kept)
    requires indices != [] && Marked(conditions, indices)
  {
    (k.failed <==> Clashing(conditions, indices)) && (!k.failed ==> k.band == MeetOf(conditions, indices))
  }

  lemma FailsNext(conditions: seq<Constraint>, front: seq<nat>, i: nat, p: Pair, k: Kept)
    requires front != [] && SoundOn(conditions, front + [i], p) && Marked(conditions, front) && Marked(conditions, front + [i])
    requires i < |conditions| && FailsRightly(conditions, front, k) && Sound(k.band)
    ensures FailsRightly(conditions, front + [i], Next(k, conditions[i]))
  {
    assert i in front + [i];
    ClashingMore(conditions, front, i, p);
    if !k.failed {
      MergesWithAll(conditions, front, i, p);
      MeetOfMore(conditions, front, i);
    }
  }

  lemma {:induction false} FailsByClash(conditions: seq<Constraint>, indices: seq<nat>, p: Pair)
    requires indices != [] && SoundOn(conditions, indices, p) && Marked(conditions, indices)
    ensures FailsRightly(conditions, indices, Fold(conditions, indices))
  {
    var last := |indices| - 1;
    var front, i := indices[..last], indices[last];
    assert i in indices && indices == front + [i] && forall j :: j in front ==> j in indices;
    if last == 0 {
      ClashingMore(conditions, [], i, p);
      assert indices == [] + [i];
    } else {
      FailsByClash(conditions, front, p);
      FoldSound(conditions, front, p);
      FailsNext(conditions, front, i, p, Fold(conditions, front));
      FoldMore(conditions, front, i);
    }
  }

  /** A merge fails on the way exactly if two of the conditions cannot be merged with each other. */
  lemma FailsExactly(conditions: seq<Constraint>, indices: seq<nat>, p: Pair)
    requires indices != [] && SoundOn(conditions, indices, p) && Marked(conditions, indices)
    ensures Fold(conditions, indices).failed <==> Clashing(conditions, indices)
  {
    FailsByClash(conditions, indices, p);
  }

  /** Condition i can be merged with all that count, and leaves a gap with one of them. */
  ghost predicate LeavesGap(conditions: seq<Constraint>, f: seq<nat>, i: nat)
    requires Marked(conditions, f) && i < |conditions|
  {
    && (forall j :: j in f ==> Merge(conditions[j], conditions[i]).Some?)
    && exists j :: j in f && UnitGap(Meet(conditions[j], conditions[i]))
  }

  /** A gap between two bands, by their ends. */
  lemma GapByEnds(c: Constraint, d: Constraint)
    requires EndsMarked(c) && EndsMarked(d)
    ensures UnitGap(Meet(c, d)) ==> !Overlap(c, d)
    ensures var l, u := (if Lower(c) > Lower(d) then Lower(c) else Lower(d)), if Upper(c) < Upper(d) then Upper(c) else Upper(d);
      UnitGap(Meet(c, d)) <==> l == u && l % 2 == 1
  {
    MeetRange(c, d);
    MeetEnds(c, d);
    EndsMean(Meet(c, d));
    EmptyExactly(Meet(c, d));
  }

  /** The intersection m of the bands f, with ends at a and b, leaves a gap with condition i exactly if i leaves a gap. */
  lemma GapWithAll(conditions: seq<Constraint>, f: seq<nat>, i: nat, m: Constraint, a: nat, b: nat)
    requires Marked(conditions, f) && i < |conditions| && EndsMarked(conditions[i]) && EndsMarked(m) && a in f && b in f
    requires Lower(m) == Lower(conditions[a]) && Upper(m) == Upper(conditions[b])
    requires forall j :: j in f ==> Lower(conditions[j]) <= Lower(m) && Upper(m) <= Upper(conditions[j])
    requires !UnitGap(m) && Lower(Meet(m, conditions[i])) <= Upper(Meet(m, conditions[i]))
    ensures UnitGap(Meet(m, conditions[i])) <==> exists j :: j in f && UnitGap(Meet(conditions[j], conditions[i]))
  {
    EndsMean(m);
    MeetEnds(m, conditions[i]);
    GapByEnds(m, conditions[i]);
    GapByEnds(conditions[a], conditions[i]);
    GapByEnds(conditions[b], conditions[i]);
    forall j | j in f && UnitGap(Meet(conditions[j], conditions[i])) ensures UnitGap(Meet(m, conditions[i])) {
      GapByEnds(conditions[j], conditions[i]);
    }
  }

  lemma SwallowsGap(conditions: seq<Constraint>, f: seq<nat>, i: nat, p: Pair)
    requires f != [] && SoundOn(conditions, f, p) && SoundOn(conditions, [i], p) && Marked(conditions, f) && HasInteger(MeetOf(conditions, f))
    ensures i < |conditions| && (Swallows(conditions, f, i) <==> LeavesGap(conditions, f, i))
  {
    assert i in [i];
    var a, b := MeetOfEnds(conditions, f, p);
    var m := MeetOf(conditions, f);
    FitsMeet(conditions, f, i);
    EmptyExactly(m);
    EmptyExactly(Meet(m, conditions[i]));
    MergesWithAll(conditions, f, i, p);
    MergeByEnds(m, conditions[i]);
    if Merge(m, conditions[i]).Some? {
      GapWithAll(conditions, f, i, m, a, b);
    }
    if !FitsAll(conditions, f, i) {
      PassesExactly(m, conditions[i]);
    }
  }

  /** In the safe range a condition leaves nothing if it leaves a gap, alone as the first one or with one that counts. */
  ghost predicate GapAt(conditions: seq<Constraint>, indices: seq<nat>, n: nat)
    requires Marked(conditions, indices) && n < |indices|
  {
    assert indices[n] in indices && forall i :: i in indices[..n] ==> i in indices;
    if n == 0 then UnitGap(conditions[indices[0]]) else LeavesGap(conditions, Fitting(conditions, indices[..n]), indices[n])
  }

  ghost predicate LeavesSomeGap(conditions: seq<Constraint>, indices: seq<nat>)
    requires Marked(conditions, indices)
  {
    exists n: nat :: n < |indices| && GapAt(conditions, indices, n)
  }

  /** As long as nothing has left nothing, the two conditions agree. */
  lemma GapIsSwallow(conditions: seq<Constraint>, indices: seq<nat>, n: nat, p: Pair)
    requires SoundOn(conditions, indices, p) && Marked(conditions, indices) && n < |indices|
    requires forall m: nat :: m < n ==> !SwallowsAt(conditions, indices, m)
    ensures SwallowsAt(conditions, indices, n) <==> GapAt(conditions, indices, n)
  {
    var front := indices[..n];
    assert indices[n] in indices && forall i :: i in front ==> i in indices;
    if n == 0 {
      assert front == [] && Fitting(conditions, front) == [];
      EmptyExactly(conditions[indices[0]]);
    } else {
      forall m: nat | m < n ensures !SwallowsAt(conditions, front, m) {
        assert front[..m] == indices[..m] && front[m] == indices[m];
        assert !SwallowsAt(conditions, indices, m);
      }
      FoldKeeps(conditions, front, p);
      SwallowsGap(conditions, Fitting(conditions, front), indices[n], p);
    }
  }

  lemma {:induction false} FirstSwallow(conditions: seq<Constraint>, indices: seq<nat>, n: nat, p: Pair)
    requires SoundOn(conditions, indices, p) && Marked(conditions, indices) && n < |indices| && SwallowsAt(conditions, indices, n)
    ensures LeavesSomeGap(conditions, indices)
  {
    if m: nat :| m < n && SwallowsAt(conditions, indices, m) {
      FirstSwallow(conditions, indices, m, p);
    } else {
      GapIsSwallow(conditions, indices, n, p);
    }
  }

  lemma FirstGap(conditions: seq<Constraint>, indices: seq<nat>, n: nat, p: Pair)
    requires SoundOn(conditions, indices, p) && Marked(conditions, indices) && n < |indices| && GapAt(conditions, indices, n)
    ensures LeavesNothing(conditions, indices)
  {
    if forall m: nat :: m < n ==> !SwallowsAt(conditions, indices, m) {
      GapIsSwallow(conditions, indices, n, p);
    }
  }

  /** In the safe range: the kept band is right exactly if no two conditions exclude each other, or a gap was left on the way. */
  lemma KeptBandInRange(conditions: seq<Constraint>, indices: seq<nat>, p: Pair)
    requires indices != [] && SoundOn(conditions, indices, p) && Marked(conditions, indices)
    ensures (forall x, y :: Accepts(Fold(conditions, indices).band, x, y) <==> AllAccept(conditions, indices, x, y)) <==>
      Compatible(conditions, indices) || LeavesSomeGap(conditions, indices)
  {
    KeptBandExactly(conditions, indices, p);
    if LeavesNothing(conditions, indices) {
      var n: nat :| n < |indices| && SwallowsAt(conditions, indices, n);
      FirstSwallow(conditions, indices, n, p);
    }
    if LeavesSomeGap(conditions, indices) {
      var n: nat :| n < |indices| && GapAt(conditions, indices, n);
      FirstGap(conditions, indices, n, p);
    }
  }

  lemma FoldOfThree(conditions: seq<Constraint>, i: nat, j: nat, k: nat)
    requires i < |conditions| && j < |conditions| && k < |conditions|
    ensures Fold(conditions, [i, j, k]) == Next(Next(Kept(conditions[i], false), conditions[j]), conditions[k])
  {
    assert [i, j, k][..2] == [i, j] && [i, j][..1] == [i];
    assert Fold(conditions, [i]) == Kept(conditions[i], false);
    assert Fold(conditions, [i, j]) == Next(Kept(conditions[i], false), conditions[j]);
  }

  /** The order matters: above 0, below 1 and equal to 5 is kept right, as nothing; equal to 5 first is kept, and wrong. */
  lemma OrderMatters(left: Column, right: Column)
    ensures var above, below := OperatorToConstraint(left, right, Greater, 0), OperatorToConstraint(left, right, Less, 1);
      var five := OperatorToConstraint(left, right, Equal, 5);
      && Fold([above, below, five], [0, 1, 2]) == Kept(Meet(above, below), true) && UnitGap(Meet(above, below))
      && Fold([above, below, five], [2, 0, 1]) == Kept(five, true) && HasInteger(five)
  {
    var above, below := OperatorToConstraint(left, right, Greater, 0), OperatorToConstraint(left, right, Less, 1);
    var five := OperatorToConstraint(left, right, Equal, 5);
    FoldOfThree([above, below, five], 0, 1, 2);
    FoldOfThree([above, below, five], 2, 0, 1);
  }

  // ---- Whole rows ----

  /** What merging all conditions ensures of its result. */
  ghost predicate IsMerged(merged: seq<Constraint>, conditions: seq<Constraint>) {
    && (forall p :: Occurs(conditions, p) <==> Covers(merged, p))
    && forall k :: 0 <= k < |merged| ==> Occurs(conditions, PairOf(merged[k])) && merged[k] == KeptFor(conditions, PairOf(merged[k])).band
  }

  /** The conditions on a column pair are compatible, or one of them is kept although it leaves nothing. */
  ghost predicate Harmless(conditions: seq<Constraint>, p: Pair)
    requires AllMarked(conditions)
  {
    var indices := IndicesOf(conditions, p, |conditions|);
    Compatible(conditions, indices) || LeavesNothing(conditions, indices)
  }

  /** Where every column pair is harmless, the merged constraints say what the conditions say, whether or not a merge failed. */
  lemma HarmlessRows(merged: seq<Constraint>, conditions: seq<Constraint>, val: Column -> int)
    requires AllMarked(conditions) && IsMerged(merged, conditions) && forall p :: Occurs(conditions, p) ==> Harmless(conditions, p)
    ensures Satisfied(merged, val) <==> Satisfied(conditions, val)
  {
    forall k | 0 <= k < |merged|
      ensures Accepts(merged[k], val(merged[k].source), val(merged[k].target)) <==>
        AllAccept(conditions, IndicesOf(conditions, PairOf(merged[k]), |conditions|), val(merged[k].source), val(merged[k].target))
    {
      var p := PairOf(merged[k]);
      assert Harmless(conditions, p);
      KeptBandExactly(conditions, IndicesOf(conditions, p, |conditions|), p);
    }
    if Satisfied(merged, val) {
      forall i | 0 <= i < |conditions| ensures Accepts(conditions[i], val(conditions[i].source), val(conditions[i].target)) {
        var p := PairOf(conditions[i]);
        assert i in IndicesOf(conditions, p, |conditions|);
        assert Covers(merged, p);
        var k :| 0 <= k < |merged| && PairOf(merged[k]) == p;
        assert AllAccept(conditions, IndicesOf(conditions, p, |conditions|), val(p.source), val(p.target));
      }
    }
  }

  /** In the safe range some merge fails exactly if two conditions on one column pair cannot be merged. */
  lemma SomeMergeFails(conditions: seq<Constraint>)
    requires AllSound(conditions)
    ensures (exists p :: Occurs(conditions, p) && KeptFor(conditions, p).failed) <==>
      exists i, j :: 0 <= i < |conditions| && 0 <= j < |conditions| && PairOf(conditions[i]) == PairOf(conditions[j]) && Merge(conditions[i], conditions[j]).None?
  {
    forall p | Occurs(conditions, p) && KeptFor(conditions, p).failed
      ensures exists i, j :: 0 <= i < |conditions| && 0 <= j < |conditions| && PairOf(conditions[i]) == PairOf(conditions[j]) && Merge(conditions[i], conditions[j]).None?
    {
      FailsExactly(conditions, IndicesOf(conditions, p, |conditions|), p);
    }
    forall i, j | 0 <= i < |conditions| && 0 <= j < |conditions| && PairOf(conditions[i]) == PairOf(conditions[j]) && Merge(conditions[i], conditions[j]).None?
      ensures exists p :: Occurs(conditions, p) && KeptFor(conditions, p).failed
    {
      var p := PairOf(conditions[i]);
      assert i in IndicesOf(conditions, p, |conditions|) && j in IndicesOf(conditions, p, |conditions|);
      FailsExactly(conditions, IndicesOf(conditions, p, |conditions|), p);
      assert Occurs(conditions, p);
    }
  }
}
