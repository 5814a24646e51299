/**
 Exactly when SRRIP evicts cyclically, and exactly when its simulated hit count is the one from
 the fresh state.
 */
module SrripStarts {
  import opened Collections
  import opened Words
  import opened Machines
  import opened Policies
  import opened CacheSets
  import opened SetAssociativeCaches
  import opened Measurements
  import opened Fills

  // ----- Cyclic eviction -----

  /** The entries rise by at most one, from left to right. */
  predicate Staircase(e: seq<nat>) {
    forall i, j :: 0 <= i < j < |e| ==> e[i] <= e[j] <= e[i] + 1
  }

  lemma LeftmostMaxIs(e: seq<nat>, i: nat)
    requires i < |e| && (forall j :: 0 <= j < |e| ==> e[j] <= e[i]) && (forall j :: 0 <= j < i ==> e[j] < e[i])
    ensures LeftmostMax(e) == i
  {
    var k := LeftmostMax(e);
    assert e[k] <= e[i] && e[i] <= e[k];
  }

  lemma DistantPositive(bits: nat)
    requires bits > 0
    ensures Distant(bits) > 0
  {
    assert Pow2(bits) == 2 * Pow2(bits - 1);
  }

  /** The steps below the landing are one below the distant future after a miss, the landing is distant. */
  lemma StairMiss(bits: nat, e: seq<nat>, j: nat)
    requires InRange(bits, e) && Staircase(e) && j < |e|
    ensures SrripMiss(bits, e)[j] == if j <= LeftmostMax(e) then Distant(bits) - 1 else Distant(bits)
  {
    DistantPositive(bits);
    var k := LeftmostMax(e);
    if j < k { assert e[j] < e[k] <= e[j] + 1; }
    if k < j { assert e[k] <= e[j] <= e[k]; }
  }

  lemma {:induction false} StairStep(bits: nat, e: seq<nat>)
    requires InRange(bits, e) && Staircase(e)
    ensures Staircase(SrripMiss(bits, e)) && LeftmostMax(SrripMiss(bits, e)) == Rotated(LeftmostMax(e), 1, |e|)
  {
    var k, e' := LeftmostMax(e), SrripMiss(bits, e);
    DistantPositive(bits);
    forall j | 0 <= j < |e| ensures e'[j] == if j <= k then Distant(bits) - 1 else Distant(bits) {
      StairMiss(bits, e, j);
    }
    LeftmostMaxIs(e', Rotated(k, 1, |e|));
  }

  function Stairs(bits: nat, n: nat): seq<nat> -> bool {
    (e: seq<nat>) => |e| == n && InRange(bits, e) && Staircase(e)
  }

  lemma StairsRotate(bits: nat, byFrequency: bool, n: nat)
    ensures Rotates(SrripMachine(bits, byFrequency, n), Stairs(bits, n))
  {
    var m, good := SrripMachine(bits, byFrequency, n), Stairs(bits, n);
    forall e | good(e) ensures RotatesAt(m, good, e) { StairStep(bits, e); }
  }

  /** Way x goes before way y; with margin one it does so even after it was replaced once. */
  predicate Ahead(e: seq<nat>, x: nat, y: nat, margin: nat) {
    x < |e| && y < |e| && x != y && e[x] >= e[y] + margin + (if x < y then 0 else 1)
  }

  function AheadBy(bits: nat, n: nat, x: nat, y: nat, margin: nat): seq<nat> -> bool {
    (e: seq<nat>) => |e| == n && InRange(bits, e) && Ahead(e, x, y, margin)
  }

  lemma AheadStep(bits: nat, e: seq<nat>, x: nat, y: nat, margin: nat)
    requires InRange(bits, e) && Ahead(e, x, y, margin)
    ensures LeftmostMax(e) != y
    ensures LeftmostMax(e) != x ==> Ahead(SrripMiss(bits, e), x, y, margin)
    ensures LeftmostMax(e) == x && margin == 1 ==> Ahead(SrripMiss(bits, e), x, y, 0)
  {
    var v := LeftmostMax(e);
    assert e[x] <= e[v] && (x < v ==> e[x] < e[v]);
    DistantPositive(bits);
  }

  lemma AheadGoesBefore(bits: nat, byFrequency: bool, n: nat, x: nat, y: nat, margin: nat)
    ensures GoesBefore(SrripMachine(bits, byFrequency, n), AheadBy(bits, n, x, y, margin), x, y)
  {
    var m, ahead := SrripMachine(bits, byFrequency, n), AheadBy(bits, n, x, y, margin);
    forall e | ahead(e) ensures GoesBeforeAt(m, ahead, x, y, e) { AheadStep(bits, e, x, y, margin); }
  }

  lemma NoStairs(e: seq<nat>) returns (x: nat, y: nat)
    requires !Staircase(e)
    ensures Ahead(e, x, y, 1)
  {
    var i, j :| 0 <= i < j < |e| && !(e[i] <= e[j] <= e[i] + 1);
    if e[i] > e[j] { x, y := i, j; } else { x, y := j, i; }
  }

  /** Without a staircase some way is taken twice before some other. */
  lemma NoStairsNoCycle(bits: nat, byFrequency: bool, n: nat, e: seq<nat>)
    requires SrripOf(bits, n)(e) && !Staircase(e)
    ensures !EachOnce(SrripMachine(bits, byFrequency, n), e)
  {
    var m := SrripMachine(bits, byFrequency, n);
    if EachOnce(m, e) {
      var x, y := NoStairs(e);
      var t := TakenSometime(m, e, y);
      var far, ahead := AheadBy(bits, n, x, y, 1), AheadBy(bits, n, x, y, 0);
      AheadGoesBefore(bits, byFrequency, n, x, y, 1);
      AheadGoesBefore(bits, byFrequency, n, x, y, 0);
      forall p | far(p) && m.victim(p) == x ensures ahead(m.miss(p)) { AheadStep(bits, p, x, y, 1); }
      var i, j := TakenTwiceBefore(m, far, ahead, x, y, e, t);
    }
  }

  /** SRRIP evicts cyclically exactly from the states whose entries form a staircase. */
  lemma SrripCyclesIff(bits: nat, byFrequency: bool, n: nat, e: seq<nat>)
    requires SrripOf(bits, n)(e)
    ensures EachOnce(SrripMachine(bits, byFrequency, n), e) <==> Staircase(e)
  {
    if Staircase(e) {
      StairsRotate(bits, byFrequency, n);
      RotationCycles(SrripMachine(bits, byFrequency, n), Stairs(bits, n), e);
    } else {
      NoStairsNoCycle(bits, byFrequency, n, e);
    }
  }

  // ----- The start -----

  predicate AllEqual(e: seq<nat>) {
    forall i, j :: 0 <= i < j < |e| ==> e[i] == e[j]
  }

  /** Entries all alike: as a fresh policy has them, for instance. */
  function Flat(n: nat, entry: nat): (e: seq<nat>)
    ensures |e| == n && forall i :: 0 <= i < n ==> e[i] == entry
  {
    seq(n, i => entry)
  }

  lemma FlatMiss(bits: nat, e: seq<nat>)
    requires InRange(bits, e) && AllEqual(e)
    ensures LeftmostMax(e) == 0 && SrripMiss(bits, e) == Flat(|e|, Distant(bits))[0 := Distant(bits) - 1]
  {
    LeftmostMaxIs(e, 0);
    DistantPositive(bits);
    var e' := SrripMiss(bits, e);
    forall j | 0 <= j < |e| ensures e'[j] == if j == 0 then Distant(bits) - 1 else Distant(bits) {
      StairMiss(bits, e, j);
    }
    FlatShape(e', Distant(bits));
  }

  lemma FlatShape(e: seq<nat>, distant: nat)
    requires distant > 0 && |e| > 0 && forall j :: 0 <= j < |e| ==> e[j] == if j == 0 then distant - 1 else distant
    ensures e == Flat(|e|, distant)[0 := distant - 1]
  {}

  /** From equal entries every trace hits as often as from the fresh ones. */
  lemma FlatStart(bits: nat, byFrequency: bool, n: nat, e: seq<nat>, trace: seq<nat>)
    requires SrripOf(bits, n)(e) && AllEqual(e)
    ensures var m := SrripMachine(bits, byFrequency, n);
            HitCount(m, Fresh(m, e), trace) == HitCount(m, Fresh(m, Flat(n, Distant(bits))), trace)
  {
    FlatMiss(bits, e);
    FlatMiss(bits, Flat(n, Distant(bits)));
    FirstMissDecides(SrripMachine(bits, byFrequency, n), e, Flat(n, Distant(bits)), trace);
  }

  // ----- A trace that tells stairs from equal entries -----

  /** One entry just below the distant future, the others as given. */
  function Punctured(n: nat, p: nat, entry: nat, distant: nat): (e: seq<nat>)
    requires p < n && distant > 0
    ensures |e| == n && forall i :: 0 <= i < n ==> e[i] == if i == p then distant - 1 else entry
  {
    seq(n, i => if i == p then distant - 1 else entry)
  }

  lemma PuncturedMiss(bits: nat, n: nat, p: nat, i: nat)
    requires bits > 0 && p < n && i < Distant(bits)
    ensures var e := Punctured(n, p, i, Distant(bits));
            && InRange(bits, e)
            && (i + 1 < Distant(bits) ==>
                  LeftmostMax(e) == p && SrripMiss(bits, e) == Punctured(n, p, i + 1, Distant(bits)))
            && (i + 1 == Distant(bits) ==> LeftmostMax(e) == 0)
  {
    var e := Punctured(n, p, i, Distant(bits));
    if i + 1 < Distant(bits) {
      LeftmostMaxIs(e, p);
      var e' := SrripMiss(bits, e);
      assert forall j :: 0 <= j < n ==> e'[j] == Punctured(n, p, i + 1, Distant(bits))[j];
    } else {
      LeftmostMaxIs(e, 0);
    }
  }

  lemma {:induction false} PuncturedMachine(bits: nat, byFrequency: bool, n: nat, p: nat, i: nat)
    requires bits > 0 && p < n && i < Distant(bits)
    ensures var m, e := SrripMachine(bits, byFrequency, n), Punctured(n, p, i, Distant(bits));
            && (i + 1 < Distant(bits) ==> m.miss(e) == Punctured(n, p, i + 1, Distant(bits)))
            && m.victim(e) == if i + 1 < Distant(bits) then p else 0
  {
    PuncturedMiss(bits, n, p, i);
  }

  /** The states that the misses run through. */
  ghost predicate Through<S>(miss: S -> S, at: nat -> S, k: nat) {
    forall i: nat {:trigger Onward(miss, at, i)} :: i < k ==> Onward(miss, at, i)
  }

  ghost predicate Onward<S>(miss: S -> S, at: nat -> S, i: nat) { miss(at(i)) == at(i + 1) }

  lemma {:induction false} RunsThrough<S>(miss: S -> S, at: nat -> S, k: nat)
    requires Through(miss, at, k)
    ensures Iterate(miss, at(0), k) == at(k)
  {
    if k > 0 {
      RunsThrough(miss, at, k - 1);
      assert Onward(miss, at, k - 1);
      LastStep(miss, at(0), k - 1);
    }
  }

  lemma {:induction false} PuncturedState(bits: nat, byFrequency: bool, n: nat, p: nat, i: nat)
    requires bits > 0 && p < n && i < Distant(bits)
    ensures Iterate(SrripMachine(bits, byFrequency, n).miss, Punctured(n, p, 0, Distant(bits)), i)
         == Punctured(n, p, i, Distant(bits))
  {
    var miss, d := SrripMachine(bits, byFrequency, n).miss, Distant(bits);
    var at := (j: nat) => Punctured(n, p, j, d);
    forall j: nat {:trigger Onward(miss, at, j)} | j < i ensures Onward(miss, at, j) {
      PuncturedMachine(bits, byFrequency, n, p, j);
    }
    RunsThrough(miss, at, i);
  }

  lemma {:induction false} PuncturedVictim(bits: nat, byFrequency: bool, n: nat, p: nat, i: nat)
    requires bits > 0 && p < n && i < Distant(bits)
    ensures NthVictim(SrripMachine(bits, byFrequency, n), Punctured(n, p, 0, Distant(bits)), i)
         == if i + 1 < Distant(bits) then p else 0
  {
    PuncturedState(bits, byFrequency, n, p, i);
    PuncturedMachine(bits, byFrequency, n, p, i);
  }

  /** An entry after k hits. */
  function Lowered(byFrequency: bool, entry: nat, k: nat): nat {
    if k == 0 then entry else if byFrequency && k < entry then entry - k else 0
  }

  lemma {:induction false} HitsLower(bits: nat, byFrequency: bool, n: nat, e: seq<nat>, w: nat, k: nat)
    requires w < |e|
    ensures IterateHit(SrripMachine(bits, byFrequency, n), e, w, k) == e[w := Lowered(byFrequency, e[w], k)]
  {
    if k > 0 { HitsLower(bits, byFrequency, n, e, w, k - 1); }
  }

  /** Each address below n but v, k times in a row. */
  function Refresh(n: nat, v: nat, k: nat): seq<nat> {
    if n == 0 then [] else Refresh(n - 1, v, k) + if n - 1 == v then [] else Repeat(n - 1, k)
  }

  /** Address b is in way place(b), for all addresses below n. */
  ghost predicate Placed(lines: seq<Line>, n: nat, place: nat -> nat) {
    && |lines| == n && Unique(lines)
    && forall b: nat :: b < n ==> place(b) < n && lines[place(b)] == Tag(b)
  }

  /** The entries of the addresses below j but v are zero, the others are as they were. */
  ghost predicate Zeroed(e: seq<nat>, e': seq<nat>, n: nat, place: nat -> nat, j: nat, v: nat) {
    && |e| == |e'| == n
    && forall b: nat :: b < n ==> place(b) < n && e'[place(b)] == if b < j && b != v then 0 else e[place(b)]
  }

  lemma PlacesDiffer(lines: seq<Line>, n: nat, place: nat -> nat, a: nat, b: nat)
    requires Placed(lines, n, place) && a < n && b < n && a != b
    ensures place(a) != place(b)
  {
    assert lines[place(a)] == Tag(a) && lines[place(b)] == Tag(b);
  }

  lemma ZeroOneMore(lines: seq<Line>, e: seq<nat>, e': seq<nat>, n: nat, place: nat -> nat, j: nat, v: nat)
    requires Placed(lines, n, place) && Zeroed(e, e', n, place, j, v) && j < n
    ensures Zeroed(e, if j == v then e' else e'[place(j) := 0], n, place, j + 1, v)
  {
    forall b: nat | b < n && b != j ensures place(b) != place(j) { PlacesDiffer(lines, n, place, b, j); }
  }

  /** The accesses hs hit all the time and bring the entries of the addresses below j but v to zero. */
  ghost predicate Hitting(
    bits: nat, byFrequency: bool, n: nat, s: CacheSet<seq<nat>>, place: nat -> nat, j: nat, v: nat, hs: seq<nat>)
  {
    var t := Run(SrripMachine(bits, byFrequency, n), s, hs);
    && t.lines == s.lines && HitCount(SrripMachine(bits, byFrequency, n), s, hs) == |hs|
    && Zeroed(s.policy, t.policy, n, place, j, v)
  }

  lemma {:induction false} HittingMore(
    bits: nat, byFrequency: bool, n: nat, s: CacheSet<seq<nat>>, place: nat -> nat, a: nat, v: nat, hs: seq<nat>)
    requires SrripOf(bits, n)(s.policy) && Placed(s.lines, n, place) && a < n && a != v
    requires Hitting(bits, byFrequency, n, s, place, a, v, hs)
    ensures Hitting(bits, byFrequency, n, s, place, a + 1, v, hs + Repeat(a, Distant(bits)))
  {
    var m, d := SrripMachine(bits, byFrequency, n), Distant(bits);
    var t := Run(m, s, hs);
    ZeroOneMore(s.lines, s.policy, t.policy, n, place, a, v);
    assert t.policy[place(a)] == s.policy[place(a)] <= d;
    RefreshOne(bits, byFrequency, n, t, a, place(a));
    RunAdds(m, s, hs, Repeat(a, d));
  }

  lemma {:induction false} HittingLess(
    bits: nat, byFrequency: bool, n: nat, s: CacheSet<seq<nat>>, place: nat -> nat, v: nat, hs: seq<nat>)
    requires SrripOf(bits, n)(s.policy) && Placed(s.lines, n, place) && v < n
    requires Hitting(bits, byFrequency, n, s, place, v, v, hs)
    ensures Hitting(bits, byFrequency, n, s, place, v + 1, v, hs)
  {
    ZeroOneMore(s.lines, s.policy, Run(SrripMachine(bits, byFrequency, n), s, hs).policy, n, place, v, v);
  }

  lemma RefreshNext(j: nat, v: nat, d: nat)
    requires j > 0
    ensures Refresh(j, v, d) == if j - 1 == v then Refresh(v, v, d) else Refresh(j - 1, v, d) + Repeat(j - 1, d)
  {}

  lemma {:induction false} RefreshRun(
    bits: nat, byFrequency: bool, n: nat, s: CacheSet<seq<nat>>, place: nat -> nat, j: nat, v: nat, hs: seq<nat>)
    requires SrripOf(bits, n)(s.policy) && Placed(s.lines, n, place) && j <= n && hs == Refresh(j, v, Distant(bits))
    ensures Hitting(bits, byFrequency, n, s, place, j, v, hs)
  {
    if j > 0 {
      var a: nat, before := j - 1, Refresh(j - 1, v, Distant(bits));
      RefreshRun(bits, byFrequency, n, s, place, a, v, before);
      RefreshNext(j, v, Distant(bits));
      if a == v {
        HittingLess(bits, byFrequency, n, s, place, v, before);
      } else {
        HittingMore(bits, byFrequency, n, s, place, a, v, before);
      }
    }
  }

  lemma RefreshOne(bits: nat, byFrequency: bool, n: nat, s: CacheSet<seq<nat>>, a: nat, w: nat)
    requires bits > 0 && |s.policy| == |s.lines| == n && Unique(s.lines)
    requires w < n && s.lines[w] == Tag(a) && s.policy[w] <= Distant(bits)
    ensures var m, d := SrripMachine(bits, byFrequency, n), Distant(bits);
            Run(m, s, Repeat(a, d)) == CacheSet(s.policy[w := 0], s.lines) && HitCount(m, s, Repeat(a, d)) == d
  {
    DistantPositive(bits);
    FindAt(s.lines, a, w);
    RepeatHits(SrripMachine(bits, byFrequency, n), s, a, Distant(bits));
    HitsLower(bits, byFrequency, n, s.policy, w, Distant(bits));
  }

  /** All ways are taken by the addresses, so that all entries but one are zero. */
  lemma AllZeroed(e: seq<nat>, e': seq<nat>, n: nat, place: nat -> nat, back: nat -> nat, v: nat, distant: nat)
    requires Zeroed(e, e', n, place, n, v) && v < n && distant > 0 && e[place(v)] == distant - 1
    requires forall w: nat {:trigger back(w)} :: w < n ==> back(w) < n && place(back(w)) == w
    ensures e' == Punctured(n, place(v), 0, distant)
  {
    forall w: nat | w < n ensures e'[w] == Punctured(n, place(v), 0, distant)[w] {
      assert e'[place(back(w))] == if back(w) != v then 0 else e[place(back(w))];
      if w == place(v) && back(w) != v { assert e'[place(v)] == e[place(v)]; }
    }
  }

  /** Where fills from a staircase with its landing at k put the addresses, and back. */
  function PlaceFrom(k: nat, n: nat): nat -> nat {
    (b: nat) => if k < n && b < n then Rotated(k, b, n) else 0
  }

  function PlaceBack(k: nat, n: nat): nat -> nat {
    (w: nat) => if k <= w then w - k else if k <= n then w + n - k else 0
  }

  lemma StairVictims(bits: nat, byFrequency: bool, n: nat, e: seq<nat>, t: nat)
    requires SrripOf(bits, n)(e) && Staircase(e) && t < n
    ensures var m := SrripMachine(bits, byFrequency, n);
            && NthVictim(m, e, t) == PlaceFrom(LeftmostMax(e), n)(t)
            && SrripOf(bits, n)(Iterate(m.miss, e, t)) && Staircase(Iterate(m.miss, e, t))
  {
    var m := SrripMachine(bits, byFrequency, n);
    StairsRotate(bits, byFrequency, n);
    RotationRun(m, Stairs(bits, n), e, t);
  }

  /** The steps below the landing, or all of them, are just below distant, the landing is distant. */
  function Landed(bits: nat, n: nat): seq<nat> -> bool {
    (e: seq<nat>) =>
      && |e| == n && InRange(bits, e) && Staircase(e)
      && forall w :: 0 <= w < n && (w < LeftmostMax(e) || LeftmostMax(e) == 0) ==> e[w] + 1 == Distant(bits)
  }

  lemma LandedAfterMiss(bits: nat, n: nat, e: seq<nat>)
    requires |e| == n && InRange(bits, e) && Staircase(e)
    ensures Landed(bits, n)(SrripMiss(bits, e))
  {
    var e' := SrripMiss(bits, e);
    DistantPositive(bits);
    StairStep(bits, e);
    forall w | 0 <= w < n && (w < LeftmostMax(e') || LeftmostMax(e') == 0) ensures e'[w] + 1 == Distant(bits) {
      StairMiss(bits, e, w);
    }
  }

  lemma LandedRotates(bits: nat, byFrequency: bool, n: nat)
    ensures Rotates(SrripMachine(bits, byFrequency, n), Landed(bits, n))
  {
    var m, good := SrripMachine(bits, byFrequency, n), Landed(bits, n);
    forall e | good(e) ensures RotatesAt(m, good, e) {
      StairStep(bits, e);
      LandedAfterMiss(bits, n, e);
    }
  }

  lemma PlaceInverse(k: nat, n: nat, w: nat)
    requires k < n && w < n
    ensures PlaceBack(k, n)(w) < n && PlaceFrom(k, n)(PlaceBack(k, n)(w)) == w
  {}

  lemma LandedEntry(bits: nat, n: nat, e: seq<nat>, w: nat)
    requires Landed(bits, n)(e) && w < n && (w < LeftmostMax(e) || LeftmostMax(e) == 0)
    ensures SrripOf(bits, n)(e) && e[w] == Distant(bits) - 1
  {}

  /** After a whole cycle the landing is where it was. */
  lemma WholeCycle(bits: nat, byFrequency: bool, n: nat, e: seq<nat>)
    requires SrripOf(bits, n)(e) && Staircase(e)
    ensures var m := SrripMachine(bits, byFrequency, n);
            Landed(bits, n)(Iterate(m.miss, e, n)) && m.victim(Iterate(m.miss, e, n)) == m.victim(e)
  {
    StairStep(bits, e);
    LandedAfterMiss(bits, n, e);
    LandedRotates(bits, byFrequency, n);
    WholeRotation(SrripMachine(bits, byFrequency, n), Landed(bits, n), e);
  }

  /** The set after n different addresses. */
  ghost predicate FilledFrom(bits: nat, n: nat, k: nat, s: CacheSet<seq<nat>>) {
    k < n && Landed(bits, n)(s.policy) && LeftmostMax(s.policy) == k && Placed(s.lines, n, PlaceFrom(k, n))
  }

  lemma {:induction false} StairLines(bits: nat, byFrequency: bool, n: nat, e: seq<nat>)
    requires SrripOf(bits, n)(e) && Staircase(e)
    ensures var m := SrripMachine(bits, byFrequency, n);
            Placed(Run(m, Fresh(m, e), Numbers(n)).lines, n, PlaceFrom(LeftmostMax(e), n))
  {
    var m, inv, place := SrripMachine(bits, byFrequency, n), SrripOf(bits, n), PlaceFrom(LeftmostMax(e), n);
    SrripKeeps(bits, byFrequency, n);
    SrripCyclesIff(bits, byFrequency, n, e);
    HeldWasUsed(m, inv, e, Numbers(n), 0);
    var lines := Run(m, Fresh(m, e), Numbers(n)).lines;
    forall b: nat | b < n ensures place(b) < n && lines[place(b)] == Tag(b) {
      FilledInTurn(m, inv, e, b);
      StairVictims(bits, byFrequency, n, e, b);
    }
  }

  lemma StairFill(bits: nat, byFrequency: bool, n: nat, e: seq<nat>)
    requires SrripOf(bits, n)(e) && Staircase(e)
    ensures var m := SrripMachine(bits, byFrequency, n);
            && FilledFrom(bits, n, LeftmostMax(e), Run(m, Fresh(m, e), Numbers(n)))
            && HitCount(m, Fresh(m, e), Numbers(n)) == 0
  {
    var m := SrripMachine(bits, byFrequency, n);
    SrripKeeps(bits, byFrequency, n);
    NumbersAreDistinct(n);
    FillRun(m, SrripOf(bits, n), e, Numbers(n));
    WholeCycle(bits, byFrequency, n, e);
    StairLines(bits, byFrequency, n, e);
  }

  // The rest of the trace: refresh all addresses but v, replace lines d times, and reuse address 0.

  /** Way 0 and perhaps way p have new addresses, the others are as they were. */
  ghost predicate Replaced(lines: seq<Line>, lines': seq<Line>, n: nat, p: nat) {
    && |lines| == |lines'| == n && 0 < n && p < n
    && lines'[0].Tag? && lines'[0].address >= n
    && (p != 0 ==> lines'[p] == lines[p] || (lines'[p].Tag? && lines'[p].address >= n))
    && forall w :: 0 <= w < n && w != 0 && w != p ==> lines'[w] == lines[w]
  }

  lemma ReplacedTwice(lines: seq<Line>, lines1: seq<Line>, lines2: seq<Line>, n: nat, p: nat)
    requires 0 < n == |lines| && SameBut(lines, lines1, p) && SameBut(lines1, lines2, 0)
    requires lines1[p] == lines[p] || (lines1[p].Tag? && lines1[p].address >= n)
    requires lines2[0].Tag? && lines2[0].address >= n
    ensures Replaced(lines, lines2, n, p)
  {}

  /** d replacements of a punctured set: all but the last in one way, the last in way 0. */
  lemma Replacements(bits: nat, byFrequency: bool, n: nat, p: nat, s: CacheSet<seq<nat>>)
    requires bits > 0 && p < n == |s.lines| && s.policy == Punctured(n, p, 0, Distant(bits))
    requires forall x: nat :: n <= x ==> Lacks(s.lines, x)
    ensures var m, xs := SrripMachine(bits, byFrequency, n), NewOnes(n, Distant(bits));
            HitCount(m, s, xs) == 0 && Replaced(s.lines, Run(m, s, xs).lines, n, p)
  {
    DistantPositive(bits);
    var m, d := SrripMachine(bits, byFrequency, n), Distant(bits);
    forall i: nat | i <= d - 1 ensures NthVictim(m, s.policy, i) == if i < d - 1 then p else 0 {
      PuncturedVictim(bits, byFrequency, n, p, i);
    }
    ReplacementsOf(m, s, p, n, d - 1);
  }

  lemma {:induction false} ReplacementsOf<S>(m: Machine<S>, s: CacheSet<S>, p: nat, n: nat, k: nat)
    requires p < n == |s.lines| && forall x: nat :: n <= x ==> Lacks(s.lines, x)
    requires forall i: nat :: i <= k ==> NthVictim(m, s.policy, i) == if i < k then p else 0
    ensures HitCount(m, s, NewOnes(n, k + 1)) == 0 && Replaced(s.lines, Run(m, s, NewOnes(n, k + 1)).lines, n, p)
  {
    ChurnThenFill(m, s, p, 0, n, k);
    ReplacedByLast(m, s, p, n, k);
  }

  lemma ReplacedByLast<S>(m: Machine<S>, s: CacheSet<S>, p: nat, n: nat, k: nat)
    requires p < n == |s.lines| && Churned(m, s, p, n, k)
    requires var t, t' := Run(m, s, NewOnes(n, k)), Run(m, s, NewOnes(n, k + 1));
             SameBut(t.lines, t'.lines, 0) && t'.lines[0] == Tag(n + k)
    ensures Replaced(s.lines, Run(m, s, NewOnes(n, k + 1)).lines, n, p)
  {
    ReplacedTwice(s.lines, Run(m, s, NewOnes(n, k)).lines, Run(m, s, NewOnes(n, k + 1)).lines, n, p);
  }

  function Probe(n: nat, v: nat, d: nat): seq<nat> {
    Numbers(n) + Refresh(n, v, d) + NewOnes(n, d) + [0]
  }

  lemma ProbeSplits<S>(m: Machine<S>, s: CacheSet<S>, n: nat, v: nat, d: nat)
    ensures var s1 := Run(m, s, Numbers(n));
            var s2 := Run(m, s1, Refresh(n, v, d));
            var s3 := Run(m, s2, NewOnes(n, d));
            HitCount(m, s, Probe(n, v, d))
              == HitCount(m, s, Numbers(n)) + HitCount(m, s1, Refresh(n, v, d)) + HitCount(m, s2, NewOnes(n, d))
                 + (if Holds(s3, 0) then 1 else 0)
  {
    RunAdds(m, s, Numbers(n), Refresh(n, v, d));
    RunAdds(m, s, Numbers(n) + Refresh(n, v, d), NewOnes(n, d));
    RunMore(m, s, Numbers(n) + Refresh(n, v, d) + NewOnes(n, d), 0);
  }

  /** Address 0 is still there exactly if its way was neither refilled nor way 0. */
  lemma ZeroHeld(lines: seq<Line>, lines': seq<Line>, n: nat, k: nat, p: nat)
    requires Placed(lines, n, PlaceFrom(k, n)) && k < n && p < n
    requires (p == 0 <==> k != 0) && Replaced(lines, lines', n, p)
    ensures FindWay(lines', 0) < n <==> k != 0
  {
    var place := PlaceFrom(k, n);
    assert place(0) == k && lines[k] == Tag(0);
    HoldsIff(lines', 0);
    if k != 0 {
      assert lines'[k] == Tag(0);
    } else {
      forall w | 0 <= w < n ensures lines'[w] != Tag(0) { assert w != 0 ==> lines[w] != lines[0]; }
    }
  }

  lemma OnlyNumbers(lines: seq<Line>, n: nat, k: nat, x: nat)
    requires Placed(lines, n, PlaceFrom(k, n)) && k < n && x >= n
    ensures Lacks(lines, x)
  {
    var place, back := PlaceFrom(k, n), PlaceBack(k, n);
    forall w | 0 <= w < n ensures lines[w] != Tag(x) {
      assert place(back(w)) == w && lines[place(back(w))] == Tag(back(w));
    }
  }

  /** After the hits one entry is left almost distant, all others are zero. */
  lemma {:induction false} Refreshed(
    bits: nat, byFrequency: bool, n: nat, k: nat, v: nat, s: CacheSet<seq<nat>>, p: nat)
    requires FilledFrom(bits, n, k, s) && 0 < v < n && (k == 0 || k + v == n) && p == PlaceFrom(k, n)(v)
    ensures var d := Distant(bits);
            var s2 := Run(SrripMachine(bits, byFrequency, n), s, Refresh(n, v, d));
            && HitCount(SrripMachine(bits, byFrequency, n), s, Refresh(n, v, d)) == |Refresh(n, v, d)|
            && s2.lines == s.lines && s2.policy == Punctured(n, p, 0, d)
  {
    var d := Distant(bits);
    DistantPositive(bits);
    assert p < n && (p < k || k == 0);
    LandedEntry(bits, n, s.policy, p);
    RefreshRun(bits, byFrequency, n, s, PlaceFrom(k, n), n, v, Refresh(n, v, d));
    var s2 := Run(SrripMachine(bits, byFrequency, n), s, Refresh(n, v, d));
    var place, back := PlaceFrom(k, n), PlaceBack(k, n);
    forall w: nat {:trigger back(w)} | w < n ensures back(w) < n && place(back(w)) == w { PlaceInverse(k, n, w); }
    AllZeroed(s.policy, s2.policy, n, place, back, v, d);
  }

  lemma {:induction false} Replaces(bits: nat, byFrequency: bool, n: nat, k: nat, p: nat, s: CacheSet<seq<nat>>)
    requires bits > 0 && k < n && p < n == |s.lines| && Placed(s.lines, n, PlaceFrom(k, n)) && (p == 0 <==> k != 0)
    requires s.policy == Punctured(n, p, 0, Distant(bits))
    ensures var m, xs := SrripMachine(bits, byFrequency, n), NewOnes(n, Distant(bits));
            HitCount(m, s, xs) == 0 && (Holds(Run(m, s, xs), 0) <==> k != 0)
  {
    forall x: nat | n <= x ensures Lacks(s.lines, x) { OnlyNumbers(s.lines, n, k, x); }
    Replacements(bits, byFrequency, n, p, s);
    var s' := Run(SrripMachine(bits, byFrequency, n), s, NewOnes(n, Distant(bits)));
    ZeroHeld(s.lines, s'.lines, n, k, p);
  }

  lemma {:induction false} ProbeTail(bits: nat, byFrequency: bool, n: nat, k: nat, v: nat, s: CacheSet<seq<nat>>)
    requires FilledFrom(bits, n, k, s) && 0 < v < n && (k == 0 || k + v == n)
    ensures var m, d := SrripMachine(bits, byFrequency, n), Distant(bits);
            var s2 := Run(m, s, Refresh(n, v, d));
            && HitCount(m, s, Refresh(n, v, d)) == |Refresh(n, v, d)| && HitCount(m, s2, NewOnes(n, d)) == 0
            && (Holds(Run(m, s2, NewOnes(n, d)), 0) <==> k != 0)
  {
    var m, p := SrripMachine(bits, byFrequency, n), PlaceFrom(k, n)(v);
    Refreshed(bits, byFrequency, n, k, v, s, p);
    Replaces(bits, byFrequency, n, k, p, Run(m, s, Refresh(n, v, Distant(bits))));
  }

  lemma ProbeCount(bits: nat, byFrequency: bool, n: nat, e: seq<nat>, v: nat)
    requires SrripOf(bits, n)(e) && Staircase(e) && 0 < v < n && (LeftmostMax(e) == 0 || LeftmostMax(e) + v == n)
    ensures var m, d := SrripMachine(bits, byFrequency, n), Distant(bits);
            HitCount(m, Fresh(m, e), Probe(n, v, d)) == |Refresh(n, v, d)| + (if LeftmostMax(e) == 0 then 0 else 1)
  {
    var m, d := SrripMachine(bits, byFrequency, n), Distant(bits);
    StairFill(bits, byFrequency, n, e);
    ProbeTail(bits, byFrequency, n, LeftmostMax(e), v, Run(m, Fresh(m, e), Numbers(n)));
    ProbeSplits(m, Fresh(m, e), n, v, d);
  }

  lemma FlatIsStairs(bits: nat, n: nat)
    requires bits > 0 && n > 0
    ensures var flat := Flat(n, Distant(bits));
            SrripOf(bits, n)(flat) && Staircase(flat) && LeftmostMax(flat) == 0
  {
    LeftmostMaxIs(Flat(n, Distant(bits)), 0);
  }

  lemma FlatStairs(e: seq<nat>)
    requires |e| > 0 && Staircase(e) && LeftmostMax(e) == 0
    ensures AllEqual(e)
  {
    forall i | 0 <= i < |e| ensures e[i] == e[0] {
      assert e[i] <= e[0];
      if i > 0 { assert e[0] <= e[i]; }
    }
  }

  /** A trace on which stairs hit once more than equal entries. */
  lemma StairsDiffer(bits: nat, byFrequency: bool, n: nat, e: seq<nat>) returns (trace: seq<nat>)
    requires SrripOf(bits, n)(e) && Staircase(e) && !AllEqual(e)
    ensures var m := SrripMachine(bits, byFrequency, n);
            HitCount(m, Fresh(m, e), trace) == HitCount(m, Fresh(m, Flat(n, Distant(bits))), trace) + 1
  {
    var k, flat := LeftmostMax(e), Flat(n, Distant(bits));
    if k == 0 { FlatStairs(e); }
    FlatIsStairs(bits, n);
    trace := Probe(n, n - k, Distant(bits));
    ProbeCount(bits, byFrequency, n, e, n - k);
    ProbeCount(bits, byFrequency, n, flat, n - k);
  }

  /** Without stairs the fills of the set lose an address that they do not lose from equal entries. */
  lemma NoStairsDiffer(bits: nat, byFrequency: bool, n: nat, e: seq<nat>) returns (trace: seq<nat>)
    requires SrripOf(bits, n)(e) && !Staircase(e)
    ensures var m := SrripMachine(bits, byFrequency, n);
            HitCount(m, Fresh(m, e), trace) != HitCount(m, Fresh(m, Flat(n, Distant(bits))), trace)
  {
    var m, inv, flat := SrripMachine(bits, byFrequency, n), SrripOf(bits, n), Flat(n, Distant(bits));
    SrripKeeps(bits, byFrequency, n);
    SrripCyclesIff(bits, byFrequency, n, e);
    SrripCyclesIff(bits, byFrequency, n, flat);
    trace := FillsDiffer(m, inv, e, flat);
  }

  /**
   SRRIP's count of every trace is the one from the fresh state exactly if all entries are equal
   when the set is started; for both promotion policies and any number of bits and ways.
   */
  lemma SrripStartIff(bits: nat, byFrequency: bool, n: nat, e: seq<nat>)
    requires SrripOf(bits, n)(e)
    ensures var m := SrripMachine(bits, byFrequency, n);
            (forall trace :: HitCount(m, Fresh(m, e), trace) == HitCount(m, Fresh(m, Flat(n, Distant(bits))), trace))
            <==> AllEqual(e)
  {
    var m := SrripMachine(bits, byFrequency, n);
    if AllEqual(e) {
      forall trace ensures HitCount(m, Fresh(m, e), trace) == HitCount(m, Fresh(m, Flat(n, Distant(bits))), trace) {
        FlatStart(bits, byFrequency, n, e, trace);
      }
    } else if Staircase(e) {
      var trace := StairsDiffer(bits, byFrequency, n, e);
    } else {
      var trace := NoStairsDiffer(bits, byFrequency, n, e);
    }
  }

  // ----- A concrete state -----

  /** A miss of two-bit SRRIP with two ways. */
  lemma TwoWayMiss(x: nat, y: nat)
    requires x <= 3 && y <= 3
    ensures var m := SrripMachine(2, false, 2);
            && m.victim([x, y]) == (if x >= y then 0 else 1)
            && m.miss([x, y]) == (if x >= y then [2, y + 3 - x] else [x + 3 - y, 2])
  {
    var e := [x, y];
    assert Pow2(2) == 2 * Pow2(1) == 4 * Pow2(0) == 4;
    var i := LeftmostMax(e);
    assert e[0] <= e[i] && e[1] <= e[i] && i == if x >= y then 0 else 1;
    assert Raised(e, 3 - e[i]) == [x + 3 - e[i], y + 3 - e[i]];
  }

  /** Two fills and a hit reach entries with which a reuse misses that hits from the fresh entries. */
  lemma SrripStartMatters()
    ensures var m := SrripMachine(2, false, 2);
            && m.hit(m.miss(m.miss([3, 3])), 1) == [2, 0]
            && ReusesHit(m, [3, 3], Numbers(2) + [0]) && !ReusesHit(m, [2, 0], Numbers(2) + [0])
  {
    var m, inv := SrripMachine(2, false, 2), SrripOf(2, 2);
    assert Pow2(2) == 2 * Pow2(1) == 4 * Pow2(0) == 4;
    TwoWayMiss(3, 3);
    TwoWayMiss(2, 3);
    TwoWayMiss(2, 0);
    TwoWayMiss(2, 1);
    assert [2, 2][1 := 0] == [2, 0];
    SrripKeeps(2, false, 2);
    FillThenReuse(m, inv, [3, 3], 2, 0);
    FillThenReuse(m, inv, [2, 0], 2, 0);
    TwoVictims(m, [3, 3]);
    TwoVictims(m, [2, 0]);
  }

  lemma TwoVictims<S>(m: Machine<S>, s: S)
    ensures Victims(m, s, 2) == [m.victim(s), m.victim(m.miss(s))]
    ensures LastIn(Victims(m, s, 2), 0) <==> m.victim(s) != m.victim(m.miss(s))
  {
    assert NthVictim(m, s, 0) == m.victim(s);
    LastStep(m.miss, s, 0);
    assert NthVictim(m, s, 1) == m.victim(m.miss(s));
    assert Victims(m, s, 1) == [m.victim(s)];
    var v := Victims(m, s, 2);
    if m.victim(s) == m.victim(m.miss(s)) { assert v[1] == v[0]; }
  }
}
