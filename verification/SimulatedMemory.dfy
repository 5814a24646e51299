/**
 The simulated memory as the object whose caches change in place.
 */
module SimulatedMemories {
  import opened Hierarchies
  import opened LevelStreams

  class SimulatedMemory<C(!new)> {
    const ops: CacheOps<C>
    var caches: seq<C>

    constructor (ops: CacheOps<C>, caches: seq<C>)
      ensures this.ops == ops && this.caches == caches
    {
      this.ops := ops;
      this.caches := caches;
    }

    method Fill(address: nat, level: nat)
      requires level < |caches|
      modifies this
      ensures caches == FillFrom(ops, old(caches), address, level).caches
      ensures ops.lookup(old(caches)[level], address) ==> caches == old(caches)
      ensures forall goods: seq<C -> bool> :: ValidLevels(ops, goods, old(caches)) ==>
                exists dropped :: PassedDown(ops, old(caches), caches, address, level, dropped)
      decreases |caches| - level
    {
      ghost var before := caches;
      forall goods: seq<C -> bool> | ValidLevels(ops, goods, before)
        ensures var r := FillFrom(ops, before, address, level);
                exists dropped :: PassedDown(ops, before, r.caches, address, level, dropped)
      {
        FillPassesDown(ops, goods, before, address, level);
      }
      var victim := FillVictim(ops, caches[level], address);
      caches := caches[level := FillCache(ops, caches[level], address)];
      if victim.Tag? && level + 1 < |caches| {
        Fill(victim.address, level + 1);
      }
    }

    method BackFillFrom(address: nat, level: nat)
      requires level < |caches|
      modifies this
      ensures caches == BackFill(ops, old(caches), address, level).caches
      decreases level
    {
      Fill(address, level);
      if level > 0 { BackFillFrom(address, level - 1); }
    }

    method DoAccess(address: nat, level: nat) returns (found: nat)
      requires level <= |caches|
      modifies this
      ensures found == FoundAt(ops, old(caches), address, level)
      ensures caches == AccessAt(ops, old(caches), address, found).caches
      decreases |caches| - level
    {
      if level < |caches| {
        if !ops.lookup(caches[level], address) {
          found := DoAccess(address, level + 1);
          return;
        }
        caches := caches[level := ops.touch(caches[level], address)];
      }
      if level > 0 { BackFillFrom(address, level - 1); }
      return level;
    }

    method InstrumentedAccess(address: nat) returns (found: nat)
      modifies this
      ensures found == FoundAt(ops, old(caches), address, 0)
      ensures caches == AccessLevels(ops, old(caches), address).caches
      ensures exists dropped ::
                ByLevels(ops, AfterHit(ops, old(caches), address, found), address, found, Levels(caches, dropped))
      ensures forall goods: seq<C -> bool> :: ValidLevels(ops, goods, old(caches)) ==>
                exists dropped :: PassesDown(ops, old(caches), caches, dropped)
    {
      ghost var before := caches;
      AccessByLevels(ops, before, address);
      forall goods: seq<C -> bool> | ValidLevels(ops, goods, before)
        ensures exists dropped :: PassesDown(ops, before, AccessLevels(ops, before, address).caches, dropped)
      {
        AccessPassesDown(ops, goods, before, address);
      }
      found := DoAccess(address, 0);
      assert AccessLevels(ops, before, address) == Levels(caches, AccessLevels(ops, before, address).dropped);
    }
  }
}
