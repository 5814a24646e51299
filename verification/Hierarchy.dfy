/**
 The simulated memory: a hierarchy of caches, nearest first, whatever kind of cache they are.
 */
module Hierarchies {
  import opened CacheSets

  /** What the hierarchy asks of a cache. */
  datatype CacheOps<!C> = CacheOps(
    lookup: (C, nat) -> bool,  // is the address there?
    touch: (C, nat) -> C,      // use the address, filling it in if it is not there
    victim: (C, nat) -> Line)  // the line that filling in the address replaces

  /** A touch brings its address in and lets only the victim go, which was there. */
  ghost predicate LawfulAt<C>(ops: CacheOps<C>, good: C -> bool, c: C, a: nat) {
    && good(ops.touch(c, a))
    && (forall x: nat :: ops.lookup(ops.touch(c, a), x) <==> x == a || (ops.lookup(c, x) && ops.victim(c, a) != Tag(x)))
    && (ops.victim(c, a).Tag? ==> ops.lookup(c, ops.victim(c, a).address) && !ops.lookup(c, a))
  }

  ghost predicate Lawful<C(!new)>(ops: CacheOps<C>, good: C -> bool) {
    forall c, a: nat {:trigger LawfulAt(ops, good, c, a)} :: good(c) ==> LawfulAt(ops, good, c, a)
  }

  /** Filling in an address that is there already does nothing, not even to the policy. */
  function FillCache<C>(ops: CacheOps<C>, c: C, a: nat): C {
    if ops.lookup(c, a) then c else ops.touch(c, a)
  }

  function FillVictim<C>(ops: CacheOps<C>, c: C, a: nat): Line {
    if ops.lookup(c, a) then Empty else ops.victim(c, a)
  }

  // ----- Accesses -----

  /** The caches, nearest first, and the addresses that fell out of the last one. */
  datatype Levels<C> = Levels(caches: seq<C>, dropped: seq<nat>)

  /** Filling a level pushes its victim into the next one; the last level drops it. */
  function FillFrom<C>(ops: CacheOps<C>, cs: seq<C>, a: nat, level: nat): (r: Levels<C>)
    requires level < |cs|
    ensures |r.caches| == |cs|
    decreases |cs| - level
  {
    var victim := FillVictim(ops, cs[level], a);
    var cs' := cs[level := FillCache(ops, cs[level], a)];
    if victim.Empty? then Levels(cs', [])
    else if level + 1 < |cs| then FillFrom(ops, cs', victim.address, level + 1)
    else Levels(cs', [victim.address])
  }

  function BackFill<C>(ops: CacheOps<C>, cs: seq<C>, a: nat, level: nat): (r: Levels<C>)
    requires level < |cs|
    ensures |r.caches| == |cs|
    decreases level
  {
    var r := FillFrom(ops, cs, a, level);
    if level == 0 then r
    else
      var r' := BackFill(ops, r.caches, a, level - 1);
      Levels(r'.caches, r.dropped + r'.dropped)
  }

  /** The lowest level from the given one on that holds the address, or the number of levels. */
  function FoundAt<C>(ops: CacheOps<C>, cs: seq<C>, a: nat, level: nat): (l: nat)
    requires level <= |cs|
    ensures level <= l <= |cs|
    ensures l < |cs| ==> ops.lookup(cs[l], a)
    ensures forall k :: level <= k < l ==> !ops.lookup(cs[k], a)
    decreases |cs| - level
  {
    if level == |cs| || ops.lookup(cs[level], a) then level else FoundAt(ops, cs, a, level + 1)
  }

  /** A hit at the level l where the address is found, then a fill of every nearer level. */
  function AccessAt<C>(ops: CacheOps<C>, cs: seq<C>, a: nat, l: nat): (r: Levels<C>)
    requires l <= |cs|
    ensures |r.caches| == |cs|
  {
    var cs' := if l < |cs| then cs[l := ops.touch(cs[l], a)] else cs;
    if l > 0 then BackFill(ops, cs', a, l - 1) else Levels(cs', [])
  }

  function AccessLevels<C>(ops: CacheOps<C>, cs: seq<C>, a: nat): (r: Levels<C>)
    ensures |r.caches| == |cs|
  {
    AccessAt(ops, cs, a, FoundAt(ops, cs, a, 0))
  }

  // ----- Conservation -----

  ghost predicate ValidLevels<C(!new)>(ops: CacheOps<C>, goods: seq<C -> bool>, cs: seq<C>) {
    |goods| == |cs| && forall l :: 0 <= l < |cs| ==> Lawful(ops, goods[l]) && goods[l](cs[l])
  }

  ghost predicate Cached<C>(ops: CacheOps<C>, cs: seq<C>, x: nat) {
    exists l :: 0 <= l < |cs| && ops.lookup(cs[l], x)
  }

  /** From cs to r the address a comes in, nothing else does, and what goes is in the dropped list. */
  ghost predicate Conserves<C>(ops: CacheOps<C>, cs: seq<C>, a: nat, r: Levels<C>) {
    && (forall x: nat :: Cached(ops, r.caches, x) ==> Cached(ops, cs, x) || x == a)
    && (forall x: nat :: Cached(ops, cs, x) || x == a ==> Cached(ops, r.caches, x) || x in r.dropped)
    && (forall x: nat :: x in r.dropped ==> Cached(ops, cs, x) || x == a)
  }

  /** The result of filling: valid caches, a come in and at most the dropped addresses gone. */
  ghost predicate Filled<C(!new)>(
    ops: CacheOps<C>, goods: seq<C -> bool>, cs: seq<C>, a: nat, r: Levels<C>, bound: nat)
  {
    ValidLevels(ops, goods, r.caches) && Conserves(ops, cs, a, r) && |r.dropped| <= bound
  }

  function Pending(victim: Line): seq<nat> {
    if victim.Tag? then [victim.address] else []
  }

  /** Replacing one cache by one that holds a, and all but the victim of what it held. */
  lemma OneLevel<C>(ops: CacheOps<C>, cs: seq<C>, a: nat, level: nat, c': C, victim: Line)
    requires level < |cs|
    requires forall x: nat :: ops.lookup(c', x) <==> x == a || (ops.lookup(cs[level], x) && victim != Tag(x))
    requires victim.Tag? ==> ops.lookup(cs[level], victim.address)
    ensures Conserves(ops, cs, a, Levels(cs[level := c'], Pending(victim)))
  {
    var cs' := cs[level := c'];
    assert ops.lookup(cs'[level], a);
    forall x: nat | Cached(ops, cs', x) ensures Cached(ops, cs, x) || x == a {
      var l :| 0 <= l < |cs'| && ops.lookup(cs'[l], x);
      assert ops.lookup(cs[l], x) || x == a;
    }
    forall x: nat | Cached(ops, cs, x) && victim != Tag(x) ensures Cached(ops, cs', x) {
      var l :| 0 <= l < |cs| && ops.lookup(cs[l], x);
      assert ops.lookup(cs'[l], x);
    }
  }

  lemma FillOne<C(!new)>(ops: CacheOps<C>, goods: seq<C -> bool>, cs: seq<C>, a: nat, level: nat)
    requires level < |cs| && ValidLevels(ops, goods, cs)
    ensures var cs' := cs[level := FillCache(ops, cs[level], a)];
            ValidLevels(ops, goods, cs') && Conserves(ops, cs, a, Levels(cs', Pending(FillVictim(ops, cs[level], a))))
  {
    assert LawfulAt(ops, goods[level], cs[level], a);
    OneLevel(ops, cs, a, level, FillCache(ops, cs[level], a), FillVictim(ops, cs[level], a));
  }

  /** Placing the victim of one step in the next. */
  lemma ConservesChain<C>(ops: CacheOps<C>, cs: seq<C>, a: nat, cs': seq<C>, victim: nat, r: Levels<C>)
    requires Conserves(ops, cs, a, Levels(cs', [victim])) && Conserves(ops, cs', victim, r)
    ensures Conserves(ops, cs, a, r)
  {}

  lemma {:induction false} FillConserves<C(!new)>(
    ops: CacheOps<C>, goods: seq<C -> bool>, cs: seq<C>, a: nat, level: nat)
    requires level < |cs| && ValidLevels(ops, goods, cs)
    ensures Filled(ops, goods, cs, a, FillFrom(ops, cs, a, level), 1)
    decreases |cs| - level
  {
    var cs', victim := cs[level := FillCache(ops, cs[level], a)], FillVictim(ops, cs[level], a);
    FillOne(ops, goods, cs, a, level);
    if victim.Tag? && level + 1 < |cs| {
      FillConserves(ops, goods, cs', victim.address, level + 1);
      ConservesChain(ops, cs, a, cs', victim.address, FillFrom(ops, cs', victim.address, level + 1));
    }
  }

  // ----- One fill, level by level -----

  /** Filling in an address that the level holds already changes nothing anywhere. */
  lemma HeldFill<C>(ops: CacheOps<C>, cs: seq<C>, a: nat, level: nat)
    requires level < |cs| && ops.lookup(cs[level], a)
    ensures FillFrom(ops, cs, a, level) == Levels(cs, [])
  {}

  /** Level k has lost x. */
  predicate Lost<C>(ops: CacheOps<C>, cs: seq<C>, cs': seq<C>, k: nat, x: nat)
    requires k < |cs| == |cs'|
  {
    ops.lookup(cs[k], x) && !ops.lookup(cs'[k], x)
  }

  /** Level k has x anew. */
  predicate Gained<C>(ops: CacheOps<C>, cs: seq<C>, cs': seq<C>, k: nat, x: nat)
    requires k < |cs| == |cs'|
  {
    !ops.lookup(cs[k], x) && ops.lookup(cs'[k], x)
  }

  /**
   From cs to cs' level l has a, and what a level from l on loses the next one holds; the last
   level's loss, if any, is the dropped address. No level gets anything else, and no nearer level
   changes.
   */
  ghost predicate PassedDown<C>(ops: CacheOps<C>, cs: seq<C>, cs': seq<C>, a: nat, l: nat, dropped: seq<nat>) {
    && l < |cs| == |cs'| && (forall k :: 0 <= k < l ==> cs'[k] == cs[k]) && ops.lookup(cs'[l], a)
    && (forall k: nat, x: nat :: l <= k < |cs| - 1 && Lost(ops, cs, cs', k, x) ==> ops.lookup(cs'[k + 1], x))
    && (forall x: nat :: Lost(ops, cs, cs', |cs| - 1, x) <==> x in dropped) && |dropped| <= 1
    && (forall k: nat, x: nat :: l <= k < |cs| && Gained(ops, cs, cs', k, x) ==>
          if k == l then x == a else Lost(ops, cs, cs', k - 1, x))
  }

  lemma PassOne<C(!new)>(ops: CacheOps<C>, goods: seq<C -> bool>, cs: seq<C>, a: nat, l: nat, c': C, victim: Line)
    requires l < |cs| && ValidLevels(ops, goods, cs)
    requires c' == FillCache(ops, cs[l], a) && victim == FillVictim(ops, cs[l], a)
    ensures forall x: nat :: ops.lookup(c', x) <==> x == a || (ops.lookup(cs[l], x) && victim != Tag(x))
    ensures victim.Tag? ==> ops.lookup(cs[l], victim.address) && !ops.lookup(cs[l], a)
  {
    assert LawfulAt(ops, goods[l], cs[l], a);
  }

  /** The victim of level l passed down from the next level on. */
  lemma PassOn<C>(
    ops: CacheOps<C>, cs: seq<C>, a: nat, l: nat, c': C, victim: nat, cs': seq<C>, dropped: seq<nat>)
    requires l + 1 < |cs| && PassedDown(ops, cs[l := c'], cs', victim, l + 1, dropped)
    requires forall x: nat :: ops.lookup(c', x) <==> x == a || (ops.lookup(cs[l], x) && victim != x)
    requires ops.lookup(cs[l], victim) && !ops.lookup(cs[l], a)
    ensures PassedDown(ops, cs, cs', a, l, dropped)
  {
    var cs1 := cs[l := c'];
    forall k: nat, x: nat | l <= k < |cs| - 1 && Lost(ops, cs, cs', k, x) ensures ops.lookup(cs'[k + 1], x) {
      if k > l { assert Lost(ops, cs1, cs', k, x); }
    }
    forall k: nat, x: nat | l <= k < |cs| && Gained(ops, cs, cs', k, x)
      ensures if k == l then x == a else Lost(ops, cs, cs', k - 1, x)
    {
      if k > l { assert Gained(ops, cs1, cs', k, x); }
      if k > l + 1 { assert Lost(ops, cs1, cs', k - 1, x); }
    }
    forall x: nat ensures Lost(ops, cs, cs', |cs| - 1, x) <==> x in dropped {
      assert Lost(ops, cs1, cs', |cs| - 1, x) <==> x in dropped;
    }
  }

  lemma PassHere<C>(ops: CacheOps<C>, cs: seq<C>, a: nat, l: nat, c': C, victim: Line)
    requires l < |cs| && (victim.Tag? ==> l == |cs| - 1)
    requires forall x: nat :: ops.lookup(c', x) <==> x == a || (ops.lookup(cs[l], x) && victim != Tag(x))
    requires victim.Tag? ==> ops.lookup(cs[l], victim.address) && !ops.lookup(cs[l], a)
    ensures PassedDown(ops, cs, cs[l := c'], a, l, Pending(victim))
  {}

  /** A fill passes victims down. */
  lemma {:induction false} FillPassesDown<C(!new)>(
    ops: CacheOps<C>, goods: seq<C -> bool>, cs: seq<C>, a: nat, level: nat)
    requires level < |cs| && ValidLevels(ops, goods, cs)
    ensures var r := FillFrom(ops, cs, a, level);
            PassedDown(ops, cs, r.caches, a, level, r.dropped)
    decreases |cs| - level
  {
    var c', victim := FillCache(ops, cs[level], a), FillVictim(ops, cs[level], a);
    PassOne(ops, goods, cs, a, level, c', victim);
    if victim.Tag? && level + 1 < |cs| {
      FillOne(ops, goods, cs, a, level);
      FillPassesDown(ops, goods, cs[level := c'], victim.address, level + 1);
      var r := FillFrom(ops, cs[level := c'], victim.address, level + 1);
      PassOn(ops, cs, a, level, c', victim.address, r.caches, r.dropped);
    } else {
      PassHere(ops, cs, a, level, c', victim);
    }
  }

  /** A victim that the next level holds already leaves that level and all farther ones as they were. */
  lemma CascadeStops<C(!new)>(ops: CacheOps<C>, goods: seq<C -> bool>, cs: seq<C>, a: nat, level: nat, x: nat)
    requires level + 1 < |cs| && ValidLevels(ops, goods, cs)
    requires Lost(ops, cs, FillFrom(ops, cs, a, level).caches, level, x) && ops.lookup(cs[level + 1], x)
    ensures var r := FillFrom(ops, cs, a, level);
            r.dropped == [] && forall k :: level < k < |cs| ==> r.caches[k] == cs[k]
  {
    var c', victim := FillCache(ops, cs[level], a), FillVictim(ops, cs[level], a);
    PassOne(ops, goods, cs, a, level, c', victim);
    FillLeavesNearer(ops, cs, a, level, level);
    HeldFill(ops, cs[level := c'], x, level + 1);
  }

  /** First one fill, then the others, of the same address. */
  lemma ConservesBoth<C>(ops: CacheOps<C>, cs: seq<C>, a: nat, r: Levels<C>, r': Levels<C>)
    requires Conserves(ops, cs, a, r) && Conserves(ops, r.caches, a, r')
    ensures Conserves(ops, cs, a, Levels(r'.caches, r.dropped + r'.dropped))
  {}

  lemma {:induction false} BackFillConserves<C(!new)>(
    ops: CacheOps<C>, goods: seq<C -> bool>, cs: seq<C>, a: nat, level: nat)
    requires level < |cs| && ValidLevels(ops, goods, cs)
    ensures Filled(ops, goods, cs, a, BackFill(ops, cs, a, level), level + 1)
    decreases level
  {
    FillConserves(ops, goods, cs, a, level);
    var r := FillFrom(ops, cs, a, level);
    if level > 0 {
      BackFillConserves(ops, goods, r.caches, a, level - 1);
      ConservesBoth(ops, cs, a, r, BackFill(ops, r.caches, a, level - 1));
    }
  }

  // ----- The nearest level -----

  /** A fill changes no nearer level. */
  lemma {:induction false} FillLeavesNearer<C>(ops: CacheOps<C>, cs: seq<C>, a: nat, level: nat, l: nat)
    requires l <= level < |cs|
    ensures FillFrom(ops, cs, a, level).caches[l] == if l == level then FillCache(ops, cs[level], a) else cs[l]
    decreases |cs| - level
  {
    var cs', victim := cs[level := FillCache(ops, cs[level], a)], FillVictim(ops, cs[level], a);
    if victim.Tag? && level + 1 < |cs| { FillLeavesNearer(ops, cs', victim.address, level + 1, l); }
  }

  lemma {:induction false} BackFillNearest<C>(ops: CacheOps<C>, cs: seq<C>, a: nat, level: nat)
    requires level < |cs|
    ensures BackFill(ops, cs, a, level).caches[0] == FillCache(ops, cs[0], a)
    decreases level
  {
    FillLeavesNearer(ops, cs, a, level, 0);
    if level > 0 { BackFillNearest(ops, FillFrom(ops, cs, a, level).caches, a, level - 1); }
  }

  /** The nearest level sees every access as if it were alone. */
  lemma NearestLevel<C>(ops: CacheOps<C>, cs: seq<C>, a: nat)
    requires |cs| > 0
    ensures AccessLevels(ops, cs, a).caches[0] == ops.touch(cs[0], a)
    ensures FoundAt(ops, cs, a, 0) == 0 <==> ops.lookup(cs[0], a)
  {
    var l := FoundAt(ops, cs, a, 0);
    if l == |cs| {
      BackFillNearest(ops, cs, a, l - 1);
    } else if l > 0 {
      BackFillNearest(ops, cs[l := ops.touch(cs[l], a)], a, l - 1);
    }
  }

  // ----- The whole access -----

  lemma HitConserves<C(!new)>(ops: CacheOps<C>, goods: seq<C -> bool>, cs: seq<C>, a: nat, l: nat)
    requires l < |cs| && ValidLevels(ops, goods, cs) && ops.lookup(cs[l], a)
    ensures var cs' := cs[l := ops.touch(cs[l], a)];
            ValidLevels(ops, goods, cs') && Conserves(ops, cs, a, Levels(cs', []))
  {
    assert LawfulAt(ops, goods[l], cs[l], a);
    OneLevel(ops, cs, a, l, ops.touch(cs[l], a), Empty);
  }

  lemma ConservesAfterHit<C(!new)>(
    ops: CacheOps<C>, goods: seq<C -> bool>, cs: seq<C>, a: nat, cs': seq<C>, r: Levels<C>, bound: nat)
    requires Conserves(ops, cs, a, Levels(cs', [])) && Filled(ops, goods, cs', a, r, bound)
    ensures Filled(ops, goods, cs, a, r, bound)
  {
    ConservesBoth(ops, cs, a, Levels(cs', []), r);
    assert [] + r.dropped == r.dropped;
  }

  lemma AccessFound<C(!new)>(ops: CacheOps<C>, goods: seq<C -> bool>, cs: seq<C>, a: nat, l: nat)
    requires l < |cs| && ValidLevels(ops, goods, cs) && ops.lookup(cs[l], a)
    ensures var cs' := cs[l := ops.touch(cs[l], a)];
            Filled(ops, goods, cs, a, if l > 0 then BackFill(ops, cs', a, l - 1) else Levels(cs', []), l)
  {
    HitConserves(ops, goods, cs, a, l);
    if l > 0 { BackFilledAfterHit(ops, goods, cs, a, cs[l := ops.touch(cs[l], a)], l); }
  }

  lemma BackFilledAfterHit<C(!new)>(
    ops: CacheOps<C>, goods: seq<C -> bool>, cs: seq<C>, a: nat, cs': seq<C>, l: nat)
    requires 0 < l < |cs'| && ValidLevels(ops, goods, cs') && Conserves(ops, cs, a, Levels(cs', []))
    ensures Filled(ops, goods, cs, a, BackFill(ops, cs', a, l - 1), l)
  {
    BackFillConserves(ops, goods, cs', a, l - 1);
    ConservesAfterHit(ops, goods, cs, a, cs', BackFill(ops, cs', a, l - 1), l);
  }

  lemma AccessedIsNear<C(!new)>(ops: CacheOps<C>, goods: seq<C -> bool>, cs: seq<C>, a: nat)
    requires ValidLevels(ops, goods, cs) && |cs| > 0
    ensures ops.lookup(AccessLevels(ops, cs, a).caches[0], a)
  {
    NearestLevel(ops, cs, a);
    assert LawfulAt(ops, goods[0], cs[0], a);
  }

  /**
   An access reports the lowest level that holds the address, or the number of levels; it leaves
   the address in the nearest level, keeps the caches valid, adds no other address, and loses
   only addresses that fell out of the last level, at most one per level that it filled.
   */
  lemma {:induction false} AccessConserves<C(!new)>(ops: CacheOps<C>, goods: seq<C -> bool>, cs: seq<C>, a: nat)
    requires ValidLevels(ops, goods, cs) && |cs| > 0
    ensures Filled(ops, goods, cs, a, AccessLevels(ops, cs, a), FoundAt(ops, cs, a, 0))
    ensures ops.lookup(AccessLevels(ops, cs, a).caches[0], a)
  {
    AccessedIsNear(ops, goods, cs, a);
    AccessAtConserves(ops, goods, cs, a, FoundAt(ops, cs, a, 0));
  }

  lemma {:induction false} AccessAtConserves<C(!new)>(
    ops: CacheOps<C>, goods: seq<C -> bool>, cs: seq<C>, a: nat, l: nat)
    requires ValidLevels(ops, goods, cs) && l <= |cs| && |cs| > 0 && (l < |cs| ==> ops.lookup(cs[l], a))
    ensures Filled(ops, goods, cs, a, AccessAt(ops, cs, a, l), l)
  {
    if l == |cs| { BackFillConserves(ops, goods, cs, a, l - 1); } else { AccessFound(ops, goods, cs, a, l); }
  }
}
