/**
 The replacement policies as objects that change in place. Each operation is proved against the
 machine that the rest of the model reasons about.
 */
module PolicyObjects {
  import opened Collections
  import opened Words
  import opened Machines
  import opened Orders
  import opened Policies
  import opened LruWrapped

  lemma NumbersAreOrder(n: nat)
    ensures IsOrder(Numbers(n), n)
  {
    var order := Numbers(n);
    forall way | 0 <= way < n ensures way in order { assert order[way] == way; }
  }

  class FifoPolicy {
    var order: seq<nat>

    ghost predicate Valid() reads this { |order| > 0 && IsOrder(order, |order|) }

    constructor (ways: nat)
      requires ways > 0
      ensures Valid() && order == Numbers(ways)
    {
      NumbersAreOrder(ways);
      order := Numbers(ways);
    }

    method Hit(way: nat)
      modifies this
      ensures order == old(order) == FifoMachine(|order|).hit(old(order), way)
    {}

    method Miss() returns (way: nat)
      requires Valid()
      modifies this
      ensures Valid() && |order| == old(|order|)
      ensures order == FifoMachine(|order|).miss(old(order)) && way == FifoMachine(|order|).victim(old(order))
    {
      RecycleKeepsOrder(order, |order|);
      order := ToFront(order, |order| - 1);
      assert order == Recycle(old(order));
      way := order[0];
    }
  }

  class LruPolicy {
    var order: seq<nat>

    ghost predicate Valid() reads this { |order| > 0 && IsOrder(order, |order|) }

    constructor (ways: nat)
      requires ways > 0
      ensures Valid() && order == Numbers(ways)
    {
      NumbersAreOrder(ways);
      order := Numbers(ways);
    }

    method Hit(way: nat)
      requires Valid() && way < |order|
      modifies this
      ensures Valid() && |order| == old(|order|)
      ensures order == LruMachine(|order|).hit(old(order), way)
    {
      var i: nat := 0;
      ghost var k := Position(order, way);
      while i < |order| && order[i] != way
        invariant i <= k && order == old(order) && forall j :: 0 <= j < i ==> order[j] != way
      {
        i := i + 1;
      }
      FirstPosition(order, i);
      TouchKeepsOrder(order, |order|, way);
      order := ToFront(order, i);
    }

    method Miss() returns (way: nat)
      requires Valid()
      modifies this
      ensures Valid() && |order| == old(|order|)
      ensures order == LruMachine(|order|).miss(old(order)) && way == LruMachine(|order|).victim(old(order))
    {
      RecycleKeepsOrder(order, |order|);
      order := ToFront(order, |order| - 1);
      assert order == Recycle(old(order));
      way := order[0];
    }
  }

  // ----- SRRIP -----

  /** The loop has aged the entries by the given number of rounds, none of them one too many. */
  ghost predicate AgedBy(bits: nat, entries: seq<nat>, aged: seq<nat>, rounds: nat) {
    InRange(bits, entries) && InRange(bits, aged) && aged == Raised(entries, rounds)
  }

  lemma AgeOnce(bits: nat, entries: seq<nat>, aged: seq<nat>, rounds: nat)
    requires AgedBy(bits, entries, aged, rounds) && forall j :: 0 <= j < |aged| ==> aged[j] != Distant(bits)
    ensures AgedBy(bits, entries, Raised(aged, 1), rounds + 1)
  {}

  lemma LeftmostIs(entries: seq<nat>, aged: seq<nat>, rounds: nat, i: nat, distant: nat)
    requires |entries| == |aged| && i < |aged| && aged[i] == distant
    requires forall j :: 0 <= j < |entries| ==> aged[j] == entries[j] + rounds <= distant
    requires forall j :: 0 <= j < i ==> aged[j] != distant
    ensures i == LeftmostMax(entries) && rounds == distant - entries[i]
  {
    var k := LeftmostMax(entries);
    assert aged[k] <= distant && entries[i] <= entries[k];
  }

  /** The first distant entry is the leftmost maximum of the entries before the aging. */
  lemma FirstDistant(bits: nat, entries: seq<nat>, aged: seq<nat>, rounds: nat, i: nat)
    requires AgedBy(bits, entries, aged, rounds) && i < |aged| && aged[i] == Distant(bits)
    requires forall j :: 0 <= j < i ==> aged[j] != Distant(bits)
    ensures i == LeftmostMax(entries) && rounds == Distant(bits) - entries[i]
    ensures Distant(bits) > 0 && aged[i := Distant(bits) - 1] == SrripMiss(bits, entries)
  {
    DistantPositive(bits);
    LeftmostIs(entries, aged, rounds, i, Distant(bits));
    MissRaises(bits, entries);
  }

  lemma DistantPositive(bits: nat)
    requires bits > 0
    ensures Distant(bits) > 0
  {
    assert Pow2(bits) == 2 * Pow2(bits - 1);
  }

  lemma {:induction false} MissRaises(bits: nat, entries: seq<nat>)
    requires InRange(bits, entries) && Distant(bits) > 0
    ensures var i := LeftmostMax(entries);
            SrripMiss(bits, entries) == Raised(entries, Distant(bits) - entries[i])[i := Distant(bits) - 1]
  {}

  class SrripPolicy {
    const bits: nat
    const byFrequency: bool
    var entries: seq<nat>

    ghost predicate Valid() reads this { InRange(bits, entries) }

    constructor (bits: nat, byFrequency: bool, ways: nat)
      requires bits > 0 && ways > 0
      ensures Valid() && |entries| == ways && forall j :: 0 <= j < ways ==> entries[j] == Distant(bits)
    {
      this.bits, this.byFrequency := bits, byFrequency;
      entries := seq(ways, j => Distant(bits));
    }

    method Hit(way: nat)
      requires Valid() && way < |entries|
      modifies this
      ensures Valid() && |entries| == old(|entries|)
      ensures entries == SrripMachine(bits, byFrequency, |entries|).hit(old(entries), way)
    {
      entries := entries[way := Promote(byFrequency, entries[way])];
    }

    method Find(value: nat) returns (i: nat)
      ensures i <= |entries| && (i < |entries| ==> entries[i] == value)
      ensures forall j :: 0 <= j < i ==> entries[j] != value
    {
      i := 0;
      while i < |entries| && entries[i] != value
        invariant i <= |entries| && forall j :: 0 <= j < i ==> entries[j] != value
      {
        i := i + 1;
      }
    }

    /** The aging loop ends after at most 2^bits - 1 rounds, and computes the closed form. */
    method Miss() returns (way: nat, ghost rounds: nat)
      requires Valid()
      modifies this
      ensures Valid() && |entries| == old(|entries|)
      ensures entries == SrripMachine(bits, byFrequency, |entries|).miss(old(entries))
      ensures way == SrripMachine(bits, byFrequency, |entries|).victim(old(entries)) < |entries|
      ensures rounds == Distant(bits) - old(entries)[way] <= Distant(bits)
    {
      rounds := 0;
      assert Raised(entries, 0) == entries;
      while true
        invariant AgedBy(bits, old(entries), entries, rounds)
        decreases Distant(bits) - entries[0]
      {
        var i := Find(Distant(bits));
        if i < |entries| {
          FirstDistant(bits, old(entries), entries, rounds, i);
          entries := entries[i := Distant(bits) - 1];
          return i, rounds;
        }
        AgeOnce(bits, old(entries), entries, rounds);
        entries := Raised(entries, 1);
        rounds := rounds + 1;
      }
    }
  }

  // ----- LRU over a nested policy -----

  lemma GroupIsQuotient(way: nat, w: nat)
    requires w > 0
    ensures way / w == Group(way, w) && way % w == Slot(way, w)
  {
    GroupSplits(way, w);
    TimesIsProduct(Group(way, w), w);
    QuotientUnique(way, w, Group(way, w), Slot(way, w));
  }

  lemma FillingMiss<X>(n: nat, inner: Machine<X>, s: Wrapped<X>)
    requires s.dirty < Times(inner.ways, n)
    ensures var m := WrappedMachine(n, inner);
            m.miss(s) == m.hit(s.(dirty := s.dirty + 1), s.dirty) && m.victim(s) == s.dirty
  {}

  lemma FilledMiss<X>(n: nat, inner: Machine<X>, s: Wrapped<X>, lru: nat)
    requires s.dirty >= Times(inner.ways, n) && lru == LeastRecent(s.parts.order) < |s.parts.inner|
    ensures var m, nested := WrappedMachine(n, inner), s.parts.inner;
            && m.miss(s) == Wrapped(TwoLevel(Recycle(s.parts.order), nested[lru := inner.miss(nested[lru])]), s.dirty)
            && m.victim(s) == Times(lru, inner.ways) + inner.victim(nested[lru])
  {}

  /** The nested policies are values; their operations are those of the nested machine. */
  class LruWrappedPolicy<X(!new)> {
    const nestedPolicy: Machine<X>
    var outer: LruPolicy
    var nested: seq<X>
    var dirty: nat

    ghost predicate Valid() reads this, outer {
      outer.Valid() && |nested| == |outer.order| && nestedPolicy.ways > 0
    }

    ghost function State(): Wrapped<X> reads this, outer {
      Wrapped(TwoLevel(outer.order, nested), dirty)
    }

    constructor (lruWays: nat, policy: Machine<X>, start: X)
      requires lruWays > 0 && policy.ways > 0
      ensures Valid() && fresh(outer) && nestedPolicy == policy
      ensures State().dirty == 0 && outer.order == Numbers(lruWays)
      ensures forall j :: 0 <= j < lruWays ==> nested[j] == start
    {
      nestedPolicy := policy;
      outer := new LruPolicy(lruWays);
      nested := seq(lruWays, j => start);
      dirty := 0;
    }

    function Ways(): nat
      requires Valid()
      reads this, outer
    {
      |outer.order| * nestedPolicy.ways
    }

    method Hit(way: nat)
      requires Valid() && way < Ways()
      modifies this, outer
      ensures Valid() && outer == old(outer) && |nested| == old(|nested|)
      ensures State() == WrappedMachine(|nested|, nestedPolicy).hit(old(State()), way)
    {
      TimesIsProduct(nestedPolicy.ways, |nested|);
      GroupIsQuotient(way, nestedPolicy.ways);
      GroupBound(way, |nested|, nestedPolicy.ways);
      var lruWay := way / nestedPolicy.ways;
      var nestedWay := way % nestedPolicy.ways;
      outer.Hit(lruWay);
      nested := nested[lruWay := nestedPolicy.hit(nested[lruWay], nestedWay)];
    }

    method Miss() returns (way: nat)
      requires Valid()
      modifies this, outer
      ensures Valid() && outer == old(outer) && |nested| == old(|nested|)
      ensures State() == WrappedMachine(|nested|, nestedPolicy).miss(old(State()))
      ensures way == WrappedMachine(|nested|, nestedPolicy).victim(old(State()))
    {
      TimesIsProduct(nestedPolicy.ways, |nested|);
      ghost var s := State();
      if dirty < Ways() {
        FillingMiss(|nested|, nestedPolicy, s);
        way := dirty;
        dirty := dirty + 1;
        Hit(way);
      } else {
        var lruWay := outer.Miss();
        TimesIsProduct(lruWay, nestedPolicy.ways);
        FilledMiss(|nested|, nestedPolicy, s, lruWay);
        var nestedWay := nestedPolicy.victim(nested[lruWay]);
        nested := nested[lruWay := nestedPolicy.miss(nested[lruWay])];
        way := lruWay * nestedPolicy.ways + nestedWay;
      }
    }
  }
}
