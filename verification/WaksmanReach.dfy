/** Every permutation of 2^k records is realised by some setting of the Waksman switches. */
module WaksmanReach {
  import opened Waksman

  /** pi and inv are inverse permutations of 0..|pi|. */
  ghost predicate Inverse(pi: seq<nat>, inv: seq<nat>) {
    && |pi| == |inv|
    && (forall j :: 0 <= j < |pi| ==> pi[j] < |pi| && inv[pi[j]] == j)
    && (forall x :: 0 <= x < |inv| ==> inv[x] < |pi| && pi[inv[x]] == x)
  }

  // ---- Two perfect matchings can be 2-coloured ----

  /** m pairs up the elements of vs. */
  ghost predicate Matching(m: nat -> nat, vs: set<nat>) {
    && (forall x {:trigger m(x)} :: x in vs ==> m(x) in vs && m(x) != x)
    && (forall x {:trigger m(m(x))} :: x in vs ==> m(m(x)) == x)
  }

  ghost predicate Alternates(c: nat -> bool, m: nat -> nat, vs: set<nat>) {
    forall x {:trigger m(x)} :: x in vs ==> c(m(x)) != c(x)
  }

  /** b without the edges at x and y, their other ends matched with each other. */
  ghost function Contract(b: nat -> nat, x: nat, y: nat): nat -> nat {
    (z: nat) => if z == b(x) then b(y) else if z == b(y) then b(x) else b(z)
  }

  lemma ContractMatches(vs: set<nat>, b: nat -> nat, x: nat, y: nat)
    requires Matching(b, vs) && x in vs && y in vs && x != y
    ensures Matching(Contract(b, x, y), vs - {x, y})
  {
    var c := Contract(b, x, y);
    assert b(b(x)) == x && b(b(y)) == y;
    forall z {:trigger c(z)} | z in vs - {x, y} ensures c(z) in vs - {x, y} && c(z) != z && c(c(z)) == z {
      assert b(b(z)) == z;
    }
  }

  lemma RestMatches(vs: set<nat>, a: nat -> nat, x: nat)
    requires Matching(a, vs) && x in vs
    ensures Matching(a, vs - {x, a(x)})
  {
    assert a(a(x)) == x;
    forall z {:trigger a(z)} | z in vs - {x, a(x)} ensures a(z) in vs - {x, a(x)} {
      assert a(a(z)) == z;
    }
  }

  /** A colouring of the contracted graph extended to x and its mate y. */
  ghost function Extended(c: nat -> bool, b: nat -> nat, x: nat, y: nat): nat -> bool {
    (z: nat) => if z == x then b(x) == y || !c(b(x)) else if z == y then b(x) != y && c(b(x)) else c(z)
  }

  lemma ExtendedAlternates(vs: set<nat>, a: nat -> nat, b: nat -> nat, x: nat, c: nat -> bool)
    requires Matching(a, vs) && Matching(b, vs) && x in vs
    requires Alternates(c, a, vs - {x, a(x)})
    requires Alternates(c, Contract(b, x, a(x)), vs - {x, a(x)})
    ensures Alternates(Extended(c, b, x, a(x)), a, vs)
    ensures Alternates(Extended(c, b, x, a(x)), b, vs)
  {
    var y := a(x);
    var d := Extended(c, b, x, y);
    var k := Contract(b, x, y);
    assert a(y) == x && b(b(x)) == x && b(b(y)) == y;
    assert b(x) != y ==> k(b(x)) == b(y) && c(b(y)) != c(b(x));
    forall z {:trigger a(z)} | z in vs ensures d(a(z)) != d(z) {
      assert a(a(z)) == z;
    }
    forall z {:trigger b(z)} | z in vs ensures d(b(z)) != d(z) {
      assert b(b(z)) == z;
      assert z in vs - {x, y} && b(z) in vs - {x, y} ==> k(z) == b(z);
    }
  }

  /** The union of two perfect matchings has only even cycles: contract one edge at a time. */
  lemma {:induction false} TwoColour(vs: set<nat>, a: nat -> nat, b: nat -> nat) returns (c: nat -> bool)
    requires Matching(a, vs) && Matching(b, vs)
    ensures Alternates(c, a, vs) && Alternates(c, b, vs)
    decreases |vs|
  {
    if vs == {} {
      c := x => true;
    } else {
      var x :| x in vs;
      ContractMatches(vs, b, x, a(x));
      RestMatches(vs, a, x);
      var c' := TwoColour(vs - {x, a(x)}, a, Contract(b, x, a(x)));
      ExtendedAlternates(vs, a, b, x, c');
      c := Extended(c', b, x, a(x));
    }
  }

  // ---- The two half permutations ----

  ghost function Mate(j: nat): nat {
    if j % 2 == 0 then j + 1 else j - 1
  }

  /** Which inputs go through the even half network: one of each input pair, one of each output pair. */
  ghost predicate Routing(c: seq<bool>, pi: seq<nat>) {
    && |c| == |pi| && |pi| % 2 == 0
    && (forall j :: 0 <= j < |pi| ==> pi[j] < |c|)
    && (forall x :: 0 <= x < |c| ==> c[Mate(x)] != c[x])
    && (forall j :: 0 <= j < |pi| ==> c[pi[Mate(j)]] != c[pi[j]])
  }

  /** Outputs pi(j) and pi(Mate(j)) leave through one switch. */
  ghost function OutputMates(pi: seq<nat>, inv: seq<nat>): nat -> nat
    requires Inverse(pi, inv) && |pi| % 2 == 0
  {
    (x: nat) => if x < |pi| then pi[Mate(inv[x])] else x
  }

  lemma MatesMatch(pi: seq<nat>, inv: seq<nat>, vs: set<nat>)
    requires Inverse(pi, inv) && |pi| % 2 == 0
    requires forall x: nat {:trigger x in vs} :: x in vs <==> x < |pi|
    ensures Matching(Mate, vs)
    ensures Matching(OutputMates(pi, inv), vs)
  {
    var b := OutputMates(pi, inv);
    forall x {:trigger b(x)} | x in vs ensures b(x) in vs && b(x) != x && b(b(x)) == x {
      var j := inv[x];
      assert pi[j] == x && inv[pi[Mate(j)]] == Mate(j);
    }
  }

  lemma RoutingExists(pi: seq<nat>, inv: seq<nat>) returns (c: seq<bool>)
    requires Inverse(pi, inv) && |pi| % 2 == 0 && |pi| > 0
    ensures Routing(c, pi) && c[pi[0]]
  {
    var vs := set x | x in pi;
    forall x: nat ensures x in vs <==> x < |pi| {
      assert x < |pi| ==> pi[inv[x]] == x;
    }
    MatesMatch(pi, inv, vs);
    var b := OutputMates(pi, inv);
    var m := TwoColour(vs, Mate, b);
    var flip := !m(pi[0]);
    c := seq(|pi|, x requires 0 <= x < |pi| => m(x) != flip);
    forall j | 0 <= j < |pi| ensures c[Mate(j)] != c[j] && c[pi[Mate(j)]] != c[pi[j]] {
      assert b(pi[j]) == pi[Mate(j)];
      assert j in vs && pi[j] in vs && m(Mate(j)) != m(j) && m(b(pi[j])) != m(pi[j]);
    }
  }

  /** The member of input pair i that goes through the half network h. */
  ghost function Member(c: seq<bool>, h: bool, i: nat): nat
    requires 2 * i + 1 < |c|
  {
    if c[2 * i] == h then 2 * i else 2 * i + 1
  }

  /** The output of pair j that comes from the half network h. */
  ghost function Outlet(c: seq<bool>, pi: seq<nat>, h: bool, j: nat): nat
    requires 2 * j + 1 < |pi| && pi[2 * j] < |c|
  {
    if c[pi[2 * j]] == h then 2 * j else 2 * j + 1
  }

  /** The permutation left to the half network h. */
  ghost function Half(c: seq<bool>, pi: seq<nat>, h: bool): (r: seq<nat>)
    requires Routing(c, pi)
    ensures |r| == |pi| / 2
  {
    seq(|pi| / 2, j requires 0 <= j < |pi| / 2 => pi[Outlet(c, pi, h, j)] / 2)
  }

  ghost function HalfInverse(c: seq<bool>, pi: seq<nat>, inv: seq<nat>, h: bool): (r: seq<nat>)
    requires Routing(c, pi) && Inverse(pi, inv)
    ensures |r| == |pi| / 2
  {
    seq(|pi| / 2, i requires 0 <= i < |pi| / 2 => inv[Member(c, h, i)] / 2)
  }

  lemma HalvesInverse(c: seq<bool>, pi: seq<nat>, inv: seq<nat>)
    requires Routing(c, pi) && Inverse(pi, inv)
    ensures Inverse(Half(c, pi, true), HalfInverse(c, pi, inv, true))
    ensures Inverse(Half(c, pi, false), HalfInverse(c, pi, inv, false))
  {
    HalfHasInverse(c, pi, inv, true);
    HalfHasInverse(c, pi, inv, false);
  }

  lemma HalfHasInverse(c: seq<bool>, pi: seq<nat>, inv: seq<nat>, h: bool)
    requires Routing(c, pi) && Inverse(pi, inv)
    ensures Inverse(Half(c, pi, h), HalfInverse(c, pi, inv, h))
  {
    var p, q := Half(c, pi, h), HalfInverse(c, pi, inv, h);
    forall j | 0 <= j < |p| ensures p[j] < |p| && q[p[j]] == j {
      OutletIsMember(c, pi, h, j);
    }
    forall i | 0 <= i < |q| ensures q[i] < |q| && p[q[i]] == i {
      var x := Member(c, h, i);
      assert c[Mate(2 * i)] != c[2 * i];
      assert c[x] == h && x / 2 == i;
      var o := inv[x];
      assert pi[o] == x && c[pi[Mate(o)]] != c[pi[o]];
      assert Outlet(c, pi, h, o / 2) == o;
    }
  }

  /** What leaves at the outlet of h entered as the member of h of its pair. */
  lemma OutletIsMember(c: seq<bool>, pi: seq<nat>, h: bool, j: nat)
    requires Routing(c, pi) && 2 * j + 1 < |pi|
    ensures var x := pi[Outlet(c, pi, h, j)]; c[x] == h && Member(c, h, x / 2) == x
  {
    assert c[pi[Mate(2 * j)]] != c[pi[2 * j]];
    var x := pi[Outlet(c, pi, h, j)];
    assert c[Mate(x)] != c[x];
  }

  // ---- Assembling the setting ----

  ghost function InBits(c: seq<bool>): (r: seq<bool>)
    ensures |r| == |c| / 2
  {
    seq(|c| / 2, i requires 0 <= i < |c| / 2 => !c[2 * i])
  }

  ghost function OutBits(c: seq<bool>, pi: seq<nat>): (r: seq<bool>)
    requires Routing(c, pi)
    ensures |r| == |c| / 2
  {
    seq(|c| / 2, j requires 0 <= j < |c| / 2 => !c[pi[2 * j]])
  }

  ghost function Permuted<T>(s: seq<T>, pi: seq<nat>): (r: seq<T>)
    requires |pi| == |s| && forall j :: 0 <= j < |pi| ==> pi[j] < |s|
    ensures |r| == |s|
  {
    seq(|s|, j requires 0 <= j < |s| => s[pi[j]])
  }

  lemma HalfInputs<T>(s: seq<T>, c: seq<bool>, pi: seq<nat>)
    requires Routing(c, pi) && |s| == |pi|
    ensures forall i :: 0 <= i < |s| / 2 ==> Evens(SwitchPairs(s, InBits(c)))[i] == s[Member(c, true, i)]
    ensures forall i :: 0 <= i < |s| / 2 ==> Odds(SwitchPairs(s, InBits(c)))[i] == s[Member(c, false, i)]
  {
    forall i | 0 <= i < |s| / 2 ensures c[2 * i + 1] != c[2 * i] {
      assert c[Mate(2 * i)] != c[2 * i];
    }
  }

  lemma HalfOutputs<T>(s: seq<T>, c: seq<bool>, pi: seq<nat>, e: seq<T>, o: seq<T>)
    requires Routing(c, pi) && |s| == |pi| && |e| == |o| == |s| / 2
    requires forall j :: 0 <= j < |e| ==> e[j] == s[pi[Outlet(c, pi, true, j)]]
    requires forall j :: 0 <= j < |o| ==> o[j] == s[pi[Outlet(c, pi, false, j)]]
    ensures SwitchPairs(Interleave(e, o), OutBits(c, pi)) == Permuted(s, pi)
  {
    forall j | 0 <= j < |e| ensures c[pi[2 * j + 1]] != c[pi[2 * j]] {
      assert c[pi[Mate(2 * j)]] != c[pi[2 * j]];
    }
    var r, p := SwitchPairs(Interleave(e, o), OutBits(c, pi)), Permuted(s, pi);
    forall i | 0 <= i < |s| ensures r[i] == p[i] {
      assert i == 2 * (i / 2) + i % 2;
    }
  }

  lemma HalfRouted<T>(s: seq<T>, half: seq<T>, c: seq<bool>, pi: seq<nat>, h: bool, out_: seq<T>)
    requires Routing(c, pi) && |s| == |pi| && |half| == |s| / 2
    requires forall j :: 0 <= j < |pi| / 2 ==> Half(c, pi, h)[j] < |half|
    requires forall i :: 0 <= i < |half| ==> half[i] == s[Member(c, h, i)]
    requires out_ == Permuted(half, Half(c, pi, h))
    ensures forall j :: 0 <= j < |out_| ==> out_[j] == s[pi[Outlet(c, pi, h, j)]]
  {
    forall j | 0 <= j < |out_| ensures out_[j] == s[pi[Outlet(c, pi, h, j)]] {
      OutletIsMember(c, pi, h, j);
    }
  }

  ghost function Join(g: Setting): seq<bool>
    requires |g.off| >= 1
  {
    g.on + g.even + g.odd + g.off[1..]
  }

  lemma SplitOfJoin(half: nat, t: nat, g: Setting)
    requires half >= 1 && |g.on| == |g.off| == half && |g.even| == |g.odd| == t && !g.off[0]
    ensures |Join(g)| == 2 * half - 1 + 2 * t && SplitAt(half, t, Join(g)) == g
  {
    assert g.off == [false] + g.off[1..];
    var b := Join(g);
    assert b[..half] == g.on;
    assert b[half..half + t] == g.even;
    assert b[half + t..half + 2 * t] == g.odd;
    assert b[half + 2 * t..] == g.off[1..];
  }

  lemma RealiseStep<T>(s: seq<T>, pi: seq<nat>, c: seq<bool>, e: seq<T>, o: seq<T>)
    requires Routing(c, pi) && |s| == |pi|
    requires forall j :: 0 <= j < |pi| / 2 ==> Half(c, pi, true)[j] < |pi| / 2 && Half(c, pi, false)[j] < |pi| / 2
    requires e == Permuted(Evens(SwitchPairs(s, InBits(c))), Half(c, pi, true))
    requires o == Permuted(Odds(SwitchPairs(s, InBits(c))), Half(c, pi, false))
    ensures SwitchPairs(Interleave(e, o), OutBits(c, pi)) == Permuted(s, pi)
  {
    var a := SwitchPairs(s, InBits(c));
    HalfInputs(s, c, pi);
    HalfRouted(s, Evens(a), c, pi, true, e);
    HalfRouted(s, Odds(a), c, pi, false, o);
    HalfOutputs(s, c, pi, e, o);
  }

  lemma RealisePair<T>(s: seq<T>, pi: seq<nat>, inv: seq<nat>)
    requires |s| == |pi| == 2 && Inverse(pi, inv)
    ensures SwitchPairs(s, [pi[0] == 1]) == Permuted(s, pi)
  {
    assert inv[pi[0]] == 0 && inv[pi[1]] == 1;
  }

  lemma NetworkOfJoin<T>(k: nat, s: seq<T>, g: Setting)
    requires k > 1 && |s| == Pow2(k) && |g.on| == |g.off| == Pow2(k - 1) && !g.off[0]
    requires |g.even| == |g.odd| == Switches(k - 1)
    ensures |Join(g)| == Switches(k)
    ensures var a := SwitchPairs(s, g.on);
      Network(k, s, Join(g)) == SwitchPairs(Interleave(Network(k - 1, Evens(a), g.even), Network(k - 1, Odds(a), g.odd)), g.off)
  {
    SplitOfJoin(Pow2(k - 1), Switches(k - 1), g);
    assert Split(k, Join(g)) == g;
  }

  /** The columns of one level and the permutations left to its two half networks. */
  datatype Level = Level(on: seq<bool>, off: seq<bool>, even: seq<nat>, evenInv: seq<nat>, odd: seq<nat>, oddInv: seq<nat>)

  ghost predicate Permutations(l: Level, half: nat) {
    && |l.on| == |l.off| == |l.even| == |l.odd| == half && half >= 1
    && Inverse(l.even, l.evenInv) && Inverse(l.odd, l.oddInv) && !l.off[0]
  }

  ghost predicate Composes<T>(l: Level, s: seq<T>, pi: seq<nat>)
    requires Permutations(l, |s| / 2) && |pi| == |s| && |s| % 2 == 0 && forall j :: 0 <= j < |pi| ==> pi[j] < |s|
  {
    var a := SwitchPairs(s, l.on);
    SwitchPairs(Interleave(Permuted(Evens(a), l.even), Permuted(Odds(a), l.odd)), l.off) == Permuted(s, pi)
  }

  lemma Decompose<T>(s: seq<T>, pi: seq<nat>, inv: seq<nat>) returns (l: Level)
    requires |s| == |pi| && |s| % 2 == 0 && |s| > 0 && Inverse(pi, inv)
    ensures Permutations(l, |s| / 2) && Composes(l, s, pi)
  {
    var c := RoutingExists(pi, inv);
    HalvesInverse(c, pi, inv);
    var pe, po := Half(c, pi, true), Half(c, pi, false);
    l := Level(InBits(c), OutBits(c, pi), pe, HalfInverse(c, pi, inv, true), po, HalfInverse(c, pi, inv, false));
    var a := SwitchPairs(s, l.on);
    RealiseStep(s, pi, c, Permuted(Evens(a), pe), Permuted(Odds(a), po));
  }

  /** The setting for a given permutation, and what the network does with it. */
  lemma {:induction false} Realise<T>(k: nat, s: seq<T>, pi: seq<nat>, inv: seq<nat>) returns (bits: seq<bool>)
    requires |s| == |pi| == Pow2(k) && Inverse(pi, inv)
    ensures |bits| == Switches(k) && Network(k, s, bits) == Permuted(s, pi)
    decreases k
  {
    if k == 0 {
      bits := [];
    } else if k == 1 {
      bits := [pi[0] == 1];
      RealisePair(s, pi, inv);
    } else {
      var l := Decompose(s, pi, inv);
      var a := SwitchPairs(s, l.on);
      var even := Realise(k - 1, Evens(a), l.even, l.evenInv);
      var odd := Realise(k - 1, Odds(a), l.odd, l.oddInv);
      var g := Setting(l.on, even, odd, l.off);
      bits := Join(g);
      NetworkOfJoin(k, s, g);
    }
  }

  /** s with its p-th element taken out and the last one put in its place. */
  ghost function TakeOut<T>(s: seq<T>, p: nat): (r: seq<T>)
    requires p < |s|
    ensures |r| == |s| - 1
  {
    s[p := s[|s| - 1]][..|s| - 1]
  }

  lemma TakeOutMultiset<T>(s: seq<T>, p: nat)
    requires p < |s|
    ensures multiset(s) == multiset(TakeOut(s, p)) + multiset{s[p]}
  {
    var n := |s| - 1;
    assert s == s[..n] + [s[n]];
    if p < n {
      assert s[..n] == s[..p] + [s[p]] + s[p + 1..n];
      assert TakeOut(s, p) == s[..p] + [s[n]] + s[p + 1..n];
    } else {
      assert TakeOut(s, p) == s[..n];
    }
  }

  /** The permutation of s from one of s without its p-th element. */
  ghost function Put(pi: seq<nat>, p: nat): (r: seq<nat>)
    ensures |r| == |pi| + 1
  {
    var n := |pi|;
    seq(n + 1, j requires 0 <= j <= n => if j == n then p else if pi[j] == p then n else pi[j])
  }

  ghost function PutInverse(inv: seq<nat>, p: nat): (r: seq<nat>)
    requires p <= |inv|
    ensures |r| == |inv| + 1
  {
    var n := |inv|;
    seq(n + 1, i requires 0 <= i <= n => if i == p then n else if i == n then inv[p] else inv[i])
  }

  lemma PutInverts(pi: seq<nat>, inv: seq<nat>, p: nat)
    requires Inverse(pi, inv) && p <= |pi|
    ensures Inverse(Put(pi, p), PutInverse(inv, p))
  {
    var n := |pi|;
    var pi', inv' := Put(pi, p), PutInverse(inv, p);
    forall x | 0 <= x <= n ensures inv'[x] <= n && pi'[inv'[x]] == x {
      if x == p {
      } else if x == n {
        assert pi[inv[p]] == p;
      } else {
        assert pi[inv[x]] == x;
      }
    }
    forall j | 0 <= j <= n ensures pi'[j] <= n && inv'[pi'[j]] == j {
      if j < n {
        assert inv[pi[j]] == j;
      }
    }
  }

  lemma PutPermutes<T>(s: seq<T>, t: seq<T>, pi: seq<nat>, p: nat)
    requires |s| == |t| == |pi| + 1 && p < |s| && s[p] == t[|pi|]
    requires (forall j :: 0 <= j < |pi| ==> pi[j] < |pi|) && Permuted(TakeOut(s, p), pi) == t[..|pi|]
    ensures Permuted(s, Put(pi, p)) == t
  {
    forall j | 0 <= j < |pi| ensures s[Put(pi, p)[j]] == t[j] {
      assert t[j] == t[..|pi|][j] == TakeOut(s, p)[pi[j]];
    }
  }

  /** Rearrangements are permutations of the positions. */
  lemma {:induction false} Rearrangement<T>(s: seq<T>, t: seq<T>) returns (pi: seq<nat>, inv: seq<nat>)
    requires multiset(s) == multiset(t)
    ensures |pi| == |s| == |t| && Inverse(pi, inv) && Permuted(s, pi) == t
    decreases |s|
  {
    assert |multiset(s)| == |multiset(t)|;
    if s == [] {
      pi, inv := [], [];
    } else {
      var n := |s| - 1;
      assert t == t[..n] + [t[n]];
      assert t[n] in multiset(s);
      var p :| 0 <= p < |s| && s[p] == t[n];
      TakeOutMultiset(s, p);
      assert multiset(t) == multiset(t[..n]) + multiset{t[n]};
      assert multiset(t[..n]) == multiset(t) - multiset{t[n]};
      assert multiset(TakeOut(s, p)) == multiset(s) - multiset{t[n]};
      var pi', inv' := Rearrangement(TakeOut(s, p), t[..n]);
      pi, inv := Put(pi', p), PutInverse(inv', p);
      PutInverts(pi', inv', p);
      PutPermutes(s, t, pi', p);
    }
  }

  /** The network on 2^k records has 2^k * k - 2^k + 1 switches, and their bits reach every rearrangement of the records and nothing else. */
  lemma EveryPermutationReached<T>(k: nat, s: seq<T>, t: seq<T>)
    requires |s| == Pow2(k)
    ensures multiset(t) == multiset(s) <==> exists bits :: |bits| == Switches(k) && Network(k, s, bits) == t
    ensures Switches(k) == Pow2(k) * k - Pow2(k) + 1
  {
    SwitchesClosedForm(k);
    if multiset(t) == multiset(s) {
      var pi, inv := Rearrangement(s, t);
      var bits := Realise(k, s, pi, inv);
      assert |bits| == Switches(k) && Network(k, s, bits) == t;
    }
    forall bits | |bits| == Switches(k) && Network(k, s, bits) == t ensures multiset(t) == multiset(s) {
      NetworkPermutes(k, s, bits);
    }
  }
}
