/**
 Set-associative caches: many sets, each with its own lines and replacement state.
 */
module SetAssociativeCaches {
  import opened Machines
  import opened CacheSets
  import opened Hierarchies

  /** A placement gives each address its set; each set has its own replacement state. */
  datatype Cache<!S> = Cache(machine: Machine<S>, place: nat -> nat, sets: seq<CacheSet<S>>)

  function SetOf<S>(c: Cache<S>, a: nat): CacheSet<S>
    requires c.place(a) < |c.sets|
  {
    c.sets[c.place(a)]
  }

  predicate Lookup<S>(c: Cache<S>, a: nat) {
    c.place(a) < |c.sets| && Holds(SetOf(c, a), a)
  }

  /** The address's set after a use of the address, which is filled in if it is not there. */
  function Touch<S>(c: Cache<S>, a: nat): Cache<S> {
    if c.place(a) < |c.sets| then
      c.(sets := c.sets[c.place(a) := Access(c.machine, SetOf(c, a), a)])
    else c
  }

  /** The line that filling in an address that is not there replaces. */
  function Victim<S>(c: Cache<S>, a: nat): Line {
    if c.place(a) < |c.sets| && !Lookup(c, a) then
      var s := SetOf(c, a);
      var v := c.machine.victim(s.policy);
      if v < |s.lines| then s.lines[v] else Empty
    else Empty
  }

  /** Tags are unique and lie in the set of their address. */
  ghost predicate ValidCache<S>(inv: S -> bool, c: Cache<S>) {
    && (forall a: nat :: c.place(a) < |c.sets|)
    && (forall i :: 0 <= i < |c.sets| ==> Valid(c.machine, inv, c.sets[i]))
    && (forall i, w :: 0 <= i < |c.sets| && 0 <= w < |c.sets[i].lines| && c.sets[i].lines[w].Tag? ==>
          c.place(c.sets[i].lines[w].address) == i)
  }

  lemma TouchKeeps<S(!new)>(inv: S -> bool, c: Cache<S>, a: nat)
    requires Keeps(c.machine, inv) && ValidCache(inv, c)
    ensures ValidCache(inv, Touch(c, a)) && Lookup(Touch(c, a), a)
  {
    AccessKeeps(c.machine, inv, SetOf(c, a), a);
  }

  lemma HoldsIff(lines: seq<Line>, x: nat)
    ensures FindWay(lines, x) < |lines| <==> Tag(x) in lines
  {
    if FindWay(lines, x) < |lines| { assert lines[FindWay(lines, x)] == Tag(x); }
  }

  /** A touch adds the address and removes at most the victim. */
  lemma TouchContents<S(!new)>(inv: S -> bool, c: Cache<S>, a: nat, x: nat)
    requires Keeps(c.machine, inv) && ValidCache(inv, c)
    ensures Lookup(Touch(c, a), x) <==> x == a || (Lookup(c, x) && Victim(c, a) != Tag(x))
    ensures Victim(c, a).Tag? ==> Lookup(c, Victim(c, a).address) && Victim(c, a).address != a
  {
    TouchKeeps(inv, c, a);
    if c.place(x) == c.place(a) && x != a { SetContents(c.machine, inv, SetOf(c, a), a, x); }
    var v := Victim(c, a);
    if v.Tag? { VictimWasHere(c, a); }
    if x != a && c.place(x) != c.place(a) && v == Tag(x) { VictimPlaced(inv, c, a); }
  }

  lemma VictimWasHere<S>(c: Cache<S>, a: nat)
    requires Victim(c, a).Tag?
    requires forall i, w :: 0 <= i < |c.sets| && 0 <= w < |c.sets[i].lines| && c.sets[i].lines[w].Tag? ==>
               c.place(c.sets[i].lines[w].address) == i
    ensures Lookup(c, Victim(c, a).address) && Victim(c, a).address != a
  {
    var s, x := SetOf(c, a), Victim(c, a).address;
    assert s.lines[c.machine.victim(s.policy)] == Tag(x);
    HoldsIff(s.lines, x);
    HoldsIff(s.lines, a);
  }

  lemma VictimPlaced<S>(inv: S -> bool, c: Cache<S>, a: nat)
    requires ValidCache(inv, c) && Victim(c, a).Tag?
    ensures c.place(Victim(c, a).address) == c.place(a)
  {}

  lemma SetContents<S(!new)>(m: Machine<S>, inv: S -> bool, s: CacheSet<S>, a: nat, x: nat)
    requires Keeps(m, inv) && Valid(m, inv, s) && x != a
    ensures Holds(Access(m, s, a), x)
       <==> Holds(s, x) && (Holds(s, a) || (m.victim(s.policy) < |s.lines| && s.lines[m.victim(s.policy)] != Tag(x)))
  {
    assert KeepsAt(m, inv, s.policy);
    var s' := Access(m, s, a);
    HoldsIff(s.lines, x);
    HoldsIff(s'.lines, x);
    if !Holds(s, a) {
      var v := m.victim(s.policy);
      if Holds(s, x) && s.lines[v] != Tag(x) { assert s'.lines[FindWay(s.lines, x)] == Tag(x); }
      if Holds(s', x) { assert s.lines[FindWay(s'.lines, x)] == Tag(x); }
    }
  }

  // ----- The operations, as the hierarchy uses them -----

  function SetAssociative<S>(): CacheOps<Cache<S>> {
    CacheOps((c: Cache<S>, a: nat) => Lookup(c, a),
             (c: Cache<S>, a: nat) => Touch(c, a),
             (c: Cache<S>, a: nat) => Victim(c, a))
  }

  ghost function Good<S(!new)>(inv: S -> bool): Cache<S> -> bool {
    (c: Cache<S>) => Keeps(c.machine, inv) && ValidCache(inv, c)
  }

  /** A set-associative cache is a lawful cache, for any placement and any policy. */
  lemma SetAssociativeLawful<S(!new)>(inv: S -> bool)
    ensures Lawful(SetAssociative<S>(), Good(inv))
  {
    var ops, good := SetAssociative<S>(), Good(inv);
    forall c, a: nat | good(c) ensures LawfulAt(ops, good, c, a) {
      TouchKeeps(inv, c, a);
      forall x: nat
        ensures ops.lookup(ops.touch(c, a), x) <==> x == a || (ops.lookup(c, x) && ops.victim(c, a) != Tag(x))
      {
        TouchContents(inv, c, a, x);
      }
      TouchContents(inv, c, a, a);
    }
  }
}
