/**
 An access seen level by level instead of in the order of the calls: each level is offered the
 address if it is nearer than the level that had it, and then, one after another, whatever falls
 out of the next nearer level.
 */
module LevelStreams {
  import opened CacheSets
  import opened Hierarchies

  // ----- One level -----

  /** The cache after the addresses were filled in one after another. */
  function Stream<C>(ops: CacheOps<C>, c: C, xs: seq<nat>): C {
    if xs == [] then c else Stream(ops, FillCache(ops, c, xs[0]), xs[1..])
  }

  /** What falls out of it meanwhile. */
  function Out<C>(ops: CacheOps<C>, c: C, xs: seq<nat>): seq<nat> {
    if xs == [] then [] else Pending(FillVictim(ops, c, xs[0])) + Out(ops, FillCache(ops, c, xs[0]), xs[1..])
  }

  lemma {:induction false} StreamAdds<C>(ops: CacheOps<C>, c: C, xs: seq<nat>, ys: seq<nat>)
    ensures Stream(ops, c, xs + ys) == Stream(ops, Stream(ops, c, xs), ys)
    ensures Out(ops, c, xs + ys) == Out(ops, c, xs) + Out(ops, Stream(ops, c, xs), ys)
    decreases |xs|
  {
    if xs == [] {
      assert xs + ys == ys;
    } else {
      assert (xs + ys)[1..] == xs[1..] + ys;
      StreamAdds(ops, FillCache(ops, c, xs[0]), xs[1..], ys);
    }
  }

  lemma StreamOfOne<C>(ops: CacheOps<C>, c: C, x: nat)
    ensures Stream(ops, c, [x]) == FillCache(ops, c, x) && Out(ops, c, [x]) == Pending(FillVictim(ops, c, x))
  {}

  lemma {:induction false} StreamKeeps<C(!new)>(ops: CacheOps<C>, good: C -> bool, c: C, xs: seq<nat>)
    requires Lawful(ops, good) && good(c)
    ensures good(Stream(ops, c, xs))
    decreases |xs|
  {
    if xs != [] {
      assert LawfulAt(ops, good, c, xs[0]);
      StreamKeeps(ops, good, FillCache(ops, c, xs[0]), xs[1..]);
    }
  }

  /** What a level held or was offered, it holds in the end, or it has fallen out; and nothing else. */
  lemma {:induction false} StreamContents<C(!new)>(ops: CacheOps<C>, good: C -> bool, c: C, xs: seq<nat>, x: nat)
    requires Lawful(ops, good) && good(c)
    ensures ops.lookup(c, x) || x in xs <==> ops.lookup(Stream(ops, c, xs), x) || x in Out(ops, c, xs)
    decreases |xs|
  {
    if xs != [] {
      assert LawfulAt(ops, good, c, xs[0]);
      var c', rest := FillCache(ops, c, xs[0]), xs[1..];
      StreamContents(ops, good, c', rest, x);
      assert x in xs <==> x == xs[0] || x in rest;
      var v := FillVictim(ops, c, xs[0]);
      assert x in Pending(v) <==> v == Tag(x);
    }
  }

  lemma LastOffered<C(!new)>(ops: CacheOps<C>, good: C -> bool, c: C, xs: seq<nat>, x: nat)
    requires Lawful(ops, good) && good(c)
    ensures ops.lookup(Stream(ops, c, xs + [x]), x)
  {
    StreamAdds(ops, c, xs, [x]);
    StreamKeeps(ops, good, c, xs);
    var c' := Stream(ops, c, xs);
    StreamOfOne(ops, c', x);
    assert LawfulAt(ops, good, c', x);
  }

  // ----- One fill -----

  /** What level k is offered when level l is offered xs. */
  function Cascade<C>(ops: CacheOps<C>, cs: seq<C>, xs: seq<nat>, l: nat, k: nat): seq<nat>
    requires k <= |cs|
    decreases k
  {
    if k < l then [] else if k == l then xs else Out(ops, cs[k - 1], Cascade(ops, cs, xs, l, k - 1))
  }

  lemma CascadeBeyond<C>(ops: CacheOps<C>, cs: seq<C>, xs: seq<nat>, l: nat, k: nat)
    requires l < k <= |cs|
    ensures Cascade(ops, cs, xs, l, k) == Out(ops, cs[k - 1], Cascade(ops, cs, xs, l, k - 1))
  {}

  lemma {:induction false} CascadeShift<C>(ops: CacheOps<C>, cs: seq<C>, cs': seq<C>, xs: seq<nat>, l: nat, k: nat)
    requires l < k <= |cs| == |cs'| && forall j :: l < j < |cs| ==> cs'[j] == cs[j]
    ensures Cascade(ops, cs, xs, l, k) == Cascade(ops, cs', Out(ops, cs[l], xs), l + 1, k)
    decreases k
  {
    CascadeBeyond(ops, cs, xs, l, k);
    if k > l + 1 {
      var ys := Out(ops, cs[l], xs);
      CascadeShift(ops, cs, cs', xs, l, k - 1);
      CascadeBeyond(ops, cs', ys, l + 1, k);
    }
  }

  lemma {:induction false} NothingCascades<C>(ops: CacheOps<C>, cs: seq<C>, l: nat, k: nat)
    requires k <= |cs|
    ensures Cascade(ops, cs, [], l, k) == []
    decreases k
  {
    if k > l { NothingCascades(ops, cs, l, k - 1); }
  }

  /** Level k after the fill is what its stream makes of it. */
  lemma {:induction false} FillByLevels<C>(ops: CacheOps<C>, cs: seq<C>, a: nat, l: nat, k: nat)
    requires l < |cs| && k < |cs|
    ensures FillFrom(ops, cs, a, l).caches[k] == Stream(ops, cs[k], Cascade(ops, cs, [a], l, k))
    decreases |cs| - l
  {
    var c', victim := FillCache(ops, cs[l], a), FillVictim(ops, cs[l], a);
    var cs' := cs[l := c'];
    StreamOfOne(ops, cs[l], a);
    if k <= l {
      FillLeavesNearer(ops, cs, a, l, k);
    } else {
      CascadeShift(ops, cs, cs', [a], l, k);
      if victim.Tag? { FillByLevels(ops, cs', victim.address, l + 1, k); } else { NothingCascades(ops, cs', l + 1, k); }
    }
  }

  lemma {:induction false} FillDrops<C>(ops: CacheOps<C>, cs: seq<C>, a: nat, l: nat)
    requires l < |cs|
    ensures FillFrom(ops, cs, a, l).dropped == Cascade(ops, cs, [a], l, |cs|)
    decreases |cs| - l
  {
    var c', victim := FillCache(ops, cs[l], a), FillVictim(ops, cs[l], a);
    var cs' := cs[l := c'];
    StreamOfOne(ops, cs[l], a);
    CascadeShift(ops, cs, cs', [a], l, |cs|);
    if victim.Empty? {
      NothingCascades(ops, cs', l + 1, |cs|);
    } else if l + 1 < |cs| {
      FillDrops(ops, cs', victim.address, l + 1);
    }
  }

  ghost predicate FilledAt<C>(ops: CacheOps<C>, cs: seq<C>, cs': seq<C>, a: nat, l: nat, k: nat)
    requires k < |cs| == |cs'|
  {
    cs'[k] == Stream(ops, cs[k], Cascade(ops, cs, [a], l, k))
  }

  // ----- Back-filling -----

  /** What level k is offered when all levels nearer than l are filled with a, farthest first. */
  function Offered<C>(ops: CacheOps<C>, cs: seq<C>, a: nat, l: nat, k: nat): seq<nat>
    requires k <= |cs|
    decreases k
  {
    if k == 0 then if l > 0 then [a] else []
    else
      var fallen := Out(ops, cs[k - 1], Offered(ops, cs, a, l, k - 1));
      if k < l then [a] + fallen else fallen
  }

  lemma {:induction false} OfferedAlike<C>(ops: CacheOps<C>, cs: seq<C>, cs': seq<C>, a: nat, l: nat, l': nat, k: nat)
    requires k < l && k < l' && k <= |cs| == |cs'| && forall j :: 0 <= j < k ==> cs'[j] == cs[j]
    ensures Offered(ops, cs, a, l, k) == Offered(ops, cs', a, l', k)
    decreases k
  {
    if k > 0 { OfferedAlike(ops, cs, cs', a, l, l', k - 1); }
  }

  /** The farthest fill first, then the others: its cascade comes before theirs. */
  ghost predicate SplitsAt<C>(ops: CacheOps<C>, cs: seq<C>, cs': seq<C>, a: nat, top: nat, k: nat)
    requires k <= |cs| == |cs'|
  {
    if k < top then Offered(ops, cs, a, top + 1, k) == Offered(ops, cs', a, top, k)
    else Offered(ops, cs, a, top + 1, k) == Cascade(ops, cs, [a], top, k) + Offered(ops, cs', a, top, k)
  }

  lemma NearerKept<C>(ops: CacheOps<C>, cs: seq<C>, cs': seq<C>, a: nat, top: nat)
    requires top < |cs| == |cs'| && forall j: nat :: j < |cs| ==> FilledAt(ops, cs, cs', a, top, j)
    ensures forall j :: 0 <= j < top ==> cs'[j] == cs[j]
  {
    forall j: nat | j < top ensures cs'[j] == cs[j] { assert FilledAt(ops, cs, cs', a, top, j); }
  }

  lemma SplitNearer<C>(ops: CacheOps<C>, cs: seq<C>, cs': seq<C>, a: nat, top: nat, k: nat)
    requires k <= top < |cs| == |cs'| && top > 0 && forall j :: 0 <= j < top ==> cs'[j] == cs[j]
    ensures SplitsAt(ops, cs, cs', a, top, k)
  {
    if k < top {
      OfferedAlike(ops, cs, cs', a, top + 1, top, k);
    } else {
      OfferedAlike(ops, cs, cs', a, top + 1, top, k - 1);
      OfferedNearer(ops, cs, a, top + 1, k);
      OfferedBeyond(ops, cs', a, top, k);
      assert Cascade(ops, cs, [a], top, k) == [a];
    }
  }

  lemma SplitFirst<C>(ops: CacheOps<C>, cs: seq<C>, cs': seq<C>, a: nat, top: nat, k: nat)
    requires k <= top < |cs| == |cs'| && top > 0 && forall j: nat :: j < |cs| ==> FilledAt(ops, cs, cs', a, top, j)
    ensures SplitsAt(ops, cs, cs', a, top, k)
  {
    NearerKept(ops, cs, cs', a, top);
    SplitNearer(ops, cs, cs', a, top, k);
  }

  lemma SplitNext<C>(ops: CacheOps<C>, cs: seq<C>, cs': seq<C>, a: nat, top: nat, k: nat)
    requires top < k <= |cs| == |cs'| && SplitsAt(ops, cs, cs', a, top, k - 1)
    requires forall j: nat :: j < |cs| ==> FilledAt(ops, cs, cs', a, top, j)
    ensures SplitsAt(ops, cs, cs', a, top, k)
  {
    assert FilledAt(ops, cs, cs', a, top, k - 1);
    OfferedBeyond(ops, cs, a, top + 1, k);
    OfferedBeyond(ops, cs', a, top, k);
    StreamSplit(ops, cs[k - 1], cs'[k - 1], Cascade(ops, cs, [a], top, k - 1), Offered(ops, cs', a, top, k - 1),
                Offered(ops, cs, a, top + 1, k - 1));
    CascadeBeyond(ops, cs, [a], top, k);
  }

  lemma {:induction false} OfferedSplits<C>(ops: CacheOps<C>, cs: seq<C>, cs': seq<C>, a: nat, top: nat, k: nat)
    requires 0 < top < |cs| == |cs'| && k <= |cs|
    requires forall j: nat :: j < |cs| ==> FilledAt(ops, cs, cs', a, top, j)
    ensures SplitsAt(ops, cs, cs', a, top, k)
  {
    var j := if k <= top then k else top;
    SplitFirst(ops, cs, cs', a, top, j);
    while j < k
      invariant j <= k && SplitsAt(ops, cs, cs', a, top, j)
    {
      j := j + 1;
      SplitNext(ops, cs, cs', a, top, j);
    }
  }

  lemma StreamSplit<C>(ops: CacheOps<C>, c: C, c': C, xs: seq<nat>, ys: seq<nat>, all: seq<nat>)
    requires c' == Stream(ops, c, xs) && all == xs + ys
    ensures Stream(ops, c, all) == Stream(ops, c', ys) && Out(ops, c, all) == Out(ops, c, xs) + Out(ops, c', ys)
  {
    StreamAdds(ops, c, xs, ys);
  }

  lemma OfferedNearer<C>(ops: CacheOps<C>, cs: seq<C>, a: nat, l: nat, k: nat)
    requires 0 < k <= |cs| && k < l
    ensures Offered(ops, cs, a, l, k) == [a] + Out(ops, cs[k - 1], Offered(ops, cs, a, l, k - 1))
  {}

  lemma OfferedBeyond<C>(ops: CacheOps<C>, cs: seq<C>, a: nat, l: nat, k: nat)
    requires 0 < k <= |cs| && k >= l
    ensures Offered(ops, cs, a, l, k) == Out(ops, cs[k - 1], Offered(ops, cs, a, l, k - 1))
  {}

  lemma {:induction false} OfferedToFirst<C>(ops: CacheOps<C>, cs: seq<C>, a: nat, k: nat)
    requires k <= |cs|
    ensures Offered(ops, cs, a, 1, k) == Cascade(ops, cs, [a], 0, k)
    decreases k
  {
    if k > 0 {
      OfferedToFirst(ops, cs, a, k - 1);
      OfferedBeyond(ops, cs, a, 1, k);
    }
  }

  ghost predicate LevelAt<C>(ops: CacheOps<C>, cs: seq<C>, a: nat, l: nat, cs': seq<C>, k: nat)
    requires k < |cs| == |cs'|
  {
    cs'[k] == Stream(ops, cs[k], Offered(ops, cs, a, l, k))
  }

  /** From cs to r every level has done with what it was offered, and the last one's victims are dropped. */
  ghost predicate ByLevels<C>(ops: CacheOps<C>, cs: seq<C>, a: nat, l: nat, r: Levels<C>) {
    && l <= |cs| == |r.caches|
    && (forall k: nat :: k < |cs| ==> LevelAt(ops, cs, a, l, r.caches, k))
    && r.dropped == Offered(ops, cs, a, l, |cs|)
  }

  lemma OnlyNearest<C>(ops: CacheOps<C>, cs: seq<C>, a: nat, r: Levels<C>)
    requires 0 < |cs| == |r.caches| && r.dropped == Cascade(ops, cs, [a], 0, |cs|)
    requires forall k: nat :: k < |cs| ==> FilledAt(ops, cs, r.caches, a, 0, k)
    ensures ByLevels(ops, cs, a, 1, r)
  {
    forall k: nat | k < |cs| ensures LevelAt(ops, cs, a, 1, r.caches, k) {
      OfferedToFirst(ops, cs, a, k);
      assert FilledAt(ops, cs, r.caches, a, 0, k);
    }
    OfferedToFirst(ops, cs, a, |cs|);
  }

  lemma NearerLevel<C>(ops: CacheOps<C>, cs: seq<C>, a: nat, top: nat, cs1: seq<C>, cs2: seq<C>, k: nat)
    requires k < |cs| == |cs1| == |cs2| && SplitsAt(ops, cs, cs1, a, top, k)
    requires FilledAt(ops, cs, cs1, a, top, k) && LevelAt(ops, cs1, a, top, cs2, k)
    ensures LevelAt(ops, cs, a, top + 1, cs2, k)
  {
    StreamSplit(ops, cs[k], cs1[k], Cascade(ops, cs, [a], top, k), Offered(ops, cs1, a, top, k),
                Offered(ops, cs, a, top + 1, k));
  }

  /** After the farthest level the nearer ones are filled. */
  lemma ThenNearer<C>(
    ops: CacheOps<C>, cs: seq<C>, a: nat, top: nat, l: nat, r: Levels<C>, r': Levels<C>, all: Levels<C>)
    requires 0 < top < |cs| == |r.caches| && l == top + 1 && ByLevels(ops, r.caches, a, top, r')
    requires all.caches == r'.caches && all.dropped == r.dropped + r'.dropped
    requires forall k: nat :: k < |cs| ==> FilledAt(ops, cs, r.caches, a, top, k)
    requires r.dropped == Cascade(ops, cs, [a], top, |cs|)
    ensures ByLevels(ops, cs, a, l, all)
  {
    forall k: nat | k < |cs| ensures LevelAt(ops, cs, a, l, r'.caches, k) {
      OfferedSplits(ops, cs, r.caches, a, top, k);
      assert FilledAt(ops, cs, r.caches, a, top, k) && LevelAt(ops, r.caches, a, top, r'.caches, k);
      NearerLevel(ops, cs, a, top, r.caches, r'.caches, k);
    }
    OfferedSplits(ops, cs, r.caches, a, top, |cs|);
  }

  lemma FilledByLevels<C>(ops: CacheOps<C>, cs: seq<C>, a: nat, top: nat, r: Levels<C>)
    requires top < |cs| == |r.caches| && r == FillFrom(ops, cs, a, top)
    ensures forall k: nat :: k < |cs| ==> FilledAt(ops, cs, r.caches, a, top, k)
    ensures r.dropped == Cascade(ops, cs, [a], top, |cs|)
  {
    forall k: nat | k < |cs| ensures FilledAt(ops, cs, r.caches, a, top, k) { FillByLevels(ops, cs, a, top, k); }
    FillDrops(ops, cs, a, top);
  }

  lemma BackFillIs<C>(ops: CacheOps<C>, cs: seq<C>, a: nat, top: nat, r: Levels<C>)
    requires 0 < top < |cs| == |r.caches| && r == FillFrom(ops, cs, a, top)
    ensures var all, r' := BackFill(ops, cs, a, top), BackFill(ops, r.caches, a, top - 1);
            all.caches == r'.caches && all.dropped == r.dropped + r'.dropped
  {}

  lemma BackFillNearest<C>(ops: CacheOps<C>, cs: seq<C>, a: nat)
    requires 0 < |cs|
    ensures ByLevels(ops, cs, a, 1, BackFill(ops, cs, a, 0))
  {
    var r := FillFrom(ops, cs, a, 0);
    FilledByLevels(ops, cs, a, 0, r);
    OnlyNearest(ops, cs, a, r);
  }

  lemma {:induction false} BackFillFarther<C>(
    ops: CacheOps<C>, cs: seq<C>, a: nat, top: nat, l: nat, r: Levels<C>, r': Levels<C>)
    requires 0 < top < |cs| == |r.caches| && l == top + 1 && r == FillFrom(ops, cs, a, top)
    requires r' == BackFill(ops, r.caches, a, top - 1) && ByLevels(ops, r.caches, a, top, r')
    ensures ByLevels(ops, cs, a, l, BackFill(ops, cs, a, top))
  {
    FilledByLevels(ops, cs, a, top, r);
    BackFillIs(ops, cs, a, top, r);
    ThenNearer(ops, cs, a, top, l, r, r', BackFill(ops, cs, a, top));
  }

  lemma {:induction false} BackFillByLevels<C>(ops: CacheOps<C>, cs: seq<C>, a: nat, top: nat, l: nat)
    requires top < |cs| && l == top + 1
    ensures ByLevels(ops, cs, a, l, BackFill(ops, cs, a, top))
    decreases top
  {
    if top == 0 {
      BackFillNearest(ops, cs, a);
    } else {
      var r := FillFrom(ops, cs, a, top);
      BackFillByLevels(ops, r.caches, a, top - 1, top);
      BackFillFarther(ops, cs, a, top, l, r, BackFill(ops, r.caches, a, top - 1));
    }
  }

  // ----- The whole access -----

  /** The caches once the level that has the address has seen the hit. */
  function AfterHit<C>(ops: CacheOps<C>, cs: seq<C>, a: nat, l: nat): (cs': seq<C>)
    ensures |cs'| == |cs|
  {
    if l < |cs| then cs[l := ops.touch(cs[l], a)] else cs
  }

  lemma {:induction false} NothingOffered<C>(ops: CacheOps<C>, cs: seq<C>, a: nat, k: nat)
    requires k <= |cs|
    ensures Offered(ops, cs, a, 0, k) == []
    decreases k
  {
    if k > 0 { NothingOffered(ops, cs, a, k - 1); }
  }

  lemma {:induction false} HitByLevels<C>(ops: CacheOps<C>, cs: seq<C>, a: nat)
    ensures ByLevels(ops, cs, a, 0, Levels(cs, []))
  {
    forall k: nat | k < |cs| ensures LevelAt(ops, cs, a, 0, cs, k) { NothingOffered(ops, cs, a, k); }
    NothingOffered(ops, cs, a, |cs|);
  }

  /**
   The access level by level: the level where the address is found sees a hit; then each level is
   offered the address if it is nearer, and after that, one by one, what falls out of the next
   nearer level. What falls out of the last level is all that is dropped.
   */
  lemma {:induction false} AccessByLevels<C>(ops: CacheOps<C>, cs: seq<C>, a: nat)
    ensures var l := FoundAt(ops, cs, a, 0);
            ByLevels(ops, AfterHit(ops, cs, a, l), a, l, AccessLevels(ops, cs, a))
  {
    var l := FoundAt(ops, cs, a, 0);
    var cs' := AfterHit(ops, cs, a, l);
    if l > 0 {
      BackFillByLevels(ops, cs', a, l - 1, l);
    } else {
      HitByLevels(ops, cs', a);
    }
  }

  // ----- What an access does to the contents -----

  lemma HitKeepsContents<C(!new)>(ops: CacheOps<C>, goods: seq<C -> bool>, cs: seq<C>, a: nat)
    requires ValidLevels(ops, goods, cs)
    ensures var cs' := AfterHit(ops, cs, a, FoundAt(ops, cs, a, 0));
            && ValidLevels(ops, goods, cs')
            && forall k: nat, x: nat :: k < |cs| ==> (ops.lookup(cs'[k], x) <==> ops.lookup(cs[k], x))
  {
    var l := FoundAt(ops, cs, a, 0);
    if l < |cs| { assert LawfulAt(ops, goods[l], cs[l], a); }
  }

  /** What a level is offered is in the end in that level or a farther one, or was dropped. */
  lemma {:induction false} OfferedEnds<C(!new)>(
    ops: CacheOps<C>, goods: seq<C -> bool>, cs: seq<C>, a: nat, l: nat, r: Levels<C>, k: nat, x: nat)
    requires ValidLevels(ops, goods, cs) && ByLevels(ops, cs, a, l, r) && k <= |cs| && x in Offered(ops, cs, a, l, k)
    ensures x in r.dropped || exists j: nat :: k <= j < |cs| && ops.lookup(r.caches[j], x)
    decreases |cs| - k
  {
    if k < |cs| {
      assert LevelAt(ops, cs, a, l, r.caches, k);
      StreamContents(ops, goods[k], cs[k], Offered(ops, cs, a, l, k), x);
      if !ops.lookup(r.caches[k], x) { OfferedEnds(ops, goods, cs, a, l, r, k + 1, x); }
    }
  }

  lemma LostIsOffered<C(!new)>(
    ops: CacheOps<C>, goods: seq<C -> bool>, cs: seq<C>, a: nat, l: nat, r: Levels<C>, k: nat, x: nat)
    requires ValidLevels(ops, goods, cs) && ByLevels(ops, cs, a, l, r) && k < |cs| && Lost(ops, cs, r.caches, k, x)
    ensures x in Offered(ops, cs, a, l, k + 1)
  {
    assert LevelAt(ops, cs, a, l, r.caches, k);
    StreamContents(ops, goods[k], cs[k], Offered(ops, cs, a, l, k), x);
  }

  /** The nearest level gives up one address at most, and it ends in the next one. */
  lemma NearestGivesUp<C(!new)>(
    ops: CacheOps<C>, goods: seq<C -> bool>, cs: seq<C>, a: nat, l: nat, r: Levels<C>, x: nat)
    requires ValidLevels(ops, goods, cs) && ByLevels(ops, cs, a, l, r) && |cs| > 1 && Lost(ops, cs, r.caches, 0, x)
    ensures ops.lookup(r.caches[1], x)
  {
    LostIsOffered(ops, goods, cs, a, l, r, 0, x);
    assert LevelAt(ops, cs, a, l, r.caches, 0) && LevelAt(ops, cs, a, l, r.caches, 1);
    var fallen := Out(ops, cs[0], Offered(ops, cs, a, l, 0));
    StreamOfOne(ops, cs[0], a);
    if l > 1 {
      assert Offered(ops, cs, a, l, 1) == [a] + fallen;
      LastOffered(ops, goods[1], cs[1], [a], x);
    } else if l == 1 {
      assert fallen == [] + [x];
      LastOffered(ops, goods[1], cs[1], [], x);
    }
  }

  /** The last level is the only one from which addresses are dropped. */
  lemma DroppedByLast<C(!new)>(
    ops: CacheOps<C>, goods: seq<C -> bool>, cs: seq<C>, a: nat, l: nat, r: Levels<C>, x: nat)
    requires ValidLevels(ops, goods, cs) && ByLevels(ops, cs, a, l, r) && |cs| > 0
    ensures Lost(ops, cs, r.caches, |cs| - 1, x) ==> x in r.dropped
    ensures x in r.dropped ==> ops.lookup(cs[|cs| - 1], x) || x in Offered(ops, cs, a, l, |cs| - 1)
  {
    var last: nat := |cs| - 1;
    assert LevelAt(ops, cs, a, l, r.caches, last);
    if Lost(ops, cs, r.caches, last, x) { LostIsOffered(ops, goods, cs, a, l, r, last, x); }
    if x in r.dropped { FellOut(ops, goods[last], cs, a, l, last, x); }
  }

  lemma FellOut<C(!new)>(ops: CacheOps<C>, good: C -> bool, cs: seq<C>, a: nat, l: nat, k: nat, x: nat)
    requires k < |cs| && l <= k + 1 && Lawful(ops, good) && good(cs[k]) && x in Offered(ops, cs, a, l, k + 1)
    ensures ops.lookup(cs[k], x) || x in Offered(ops, cs, a, l, k)
  {
    StreamContents(ops, good, cs[k], Offered(ops, cs, a, l, k), x);
  }

  /** What an access takes from a level it puts into a farther one, and it drops only what falls out of the last. */
  ghost predicate PassesDown<C>(ops: CacheOps<C>, cs: seq<C>, cs': seq<C>, dropped: seq<nat>) {
    && |cs'| == |cs|
    && (forall k: nat, x: nat :: k < |cs| && Lost(ops, cs, cs', k, x) ==>
          x in dropped || exists j: nat :: k < j < |cs| && ops.lookup(cs'[j], x))
    && (|cs| > 1 ==> forall x: nat :: Lost(ops, cs, cs', 0, x) ==> ops.lookup(cs'[1], x))
    && (|cs| > 0 ==> forall x: nat :: Lost(ops, cs, cs', |cs| - 1, x) ==> x in dropped)
  }

  lemma LostEnds<C(!new)>(
    ops: CacheOps<C>, goods: seq<C -> bool>, cs: seq<C>, a: nat, l: nat, r: Levels<C>, k: nat, x: nat)
    requires ValidLevels(ops, goods, cs) && ByLevels(ops, cs, a, l, r) && k < |cs| && Lost(ops, cs, r.caches, k, x)
    ensures x in r.dropped || exists j: nat :: k < j < |cs| && ops.lookup(r.caches[j], x)
  {
    LostIsOffered(ops, goods, cs, a, l, r, k, x);
    OfferedEnds(ops, goods, cs, a, l, r, k + 1, x);
  }

  lemma LevelsPassDown<C(!new)>(ops: CacheOps<C>, goods: seq<C -> bool>, cs: seq<C>, a: nat, l: nat, r: Levels<C>)
    requires ValidLevels(ops, goods, cs) && ByLevels(ops, cs, a, l, r)
    ensures PassesDown(ops, cs, r.caches, r.dropped)
  {
    forall k: nat, x: nat | k < |cs| && Lost(ops, cs, r.caches, k, x)
      ensures x in r.dropped || exists j: nat :: k < j < |cs| && ops.lookup(r.caches[j], x)
    {
      LostEnds(ops, goods, cs, a, l, r, k, x);
    }
    if |cs| > 0 {
      forall x: nat | Lost(ops, cs, r.caches, |cs| - 1, x) ensures x in r.dropped {
        DroppedByLast(ops, goods, cs, a, l, r, x);
      }
    }
    if |cs| > 1 {
      forall x: nat | Lost(ops, cs, r.caches, 0, x) ensures ops.lookup(r.caches[1], x) {
        NearestGivesUp(ops, goods, cs, a, l, r, x);
      }
    }
  }

  /**
   For any levels: what an access takes from a level ends in a farther one, or it has fallen out of
   the last level and is dropped; what the nearest level gives up the next one holds afterwards.
   */
  lemma AccessPassesDown<C(!new)>(ops: CacheOps<C>, goods: seq<C -> bool>, cs: seq<C>, a: nat)
    requires ValidLevels(ops, goods, cs)
    ensures PassesDown(ops, cs, AccessLevels(ops, cs, a).caches, AccessLevels(ops, cs, a).dropped)
  {
    var cs', r := AfterHit(ops, cs, a, FoundAt(ops, cs, a, 0)), AccessLevels(ops, cs, a);
    HitKeepsContents(ops, goods, cs, a);
    AccessByLevels(ops, cs, a);
    LevelsPassDown(ops, goods, cs', a, FoundAt(ops, cs, a, 0), r);
    SameContents(ops, cs, cs', r.caches, r.dropped);
  }

  lemma SameContents<C>(ops: CacheOps<C>, cs: seq<C>, cs1: seq<C>, cs': seq<C>, dropped: seq<nat>)
    requires |cs| == |cs1| && PassesDown(ops, cs1, cs', dropped)
    requires forall k: nat, x: nat :: k < |cs| ==> (ops.lookup(cs1[k], x) <==> ops.lookup(cs[k], x))
    ensures PassesDown(ops, cs, cs', dropped)
  {
    forall k: nat, x: nat | k < |cs| && Lost(ops, cs, cs', k, x) ensures Lost(ops, cs1, cs', k, x) {}
  }

  /** So an address that an access took from the nearest level is found in the next one. */
  lemma TakenIsFoundNext<C(!new)>(ops: CacheOps<C>, goods: seq<C -> bool>, cs: seq<C>, a: nat, x: nat)
    requires ValidLevels(ops, goods, cs) && |cs| > 1
    requires var cs' := AccessLevels(ops, cs, a).caches;
             ops.lookup(cs[0], x) && !ops.lookup(cs'[0], x)
    ensures FoundAt(ops, AccessLevels(ops, cs, a).caches, x, 0) == 1
  {
    AccessPassesDown(ops, goods, cs, a);
    var cs' := AccessLevels(ops, cs, a).caches;
    assert Lost(ops, cs, cs', 0, x);
  }
}
