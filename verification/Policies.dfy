/**
 The replacement policies: FIFO, LRU, tree-PLRU, SRRIP, and LRU over tree-PLRU.
 */
module Policies {
  import opened Words
  import opened Machines
  import opened Orders
  import T = PlruTrees

  // ----- FIFO and LRU -----

  function FifoMachine(n: nat): Machine<seq<nat>> {
    Machine(n, (o: seq<nat>, way: nat) => o, Recycle, LeastRecent)
  }

  function LruMachine(n: nat): Machine<seq<nat>> {
    Machine(n, Touch, Recycle, LeastRecent)
  }

  function OrderOf(n: nat): seq<nat> -> bool { (o: seq<nat>) => IsOrder(o, n) }

  lemma OrderMachinesKeep(n: nat)
    requires n > 0
    ensures Keeps(FifoMachine(n), OrderOf(n)) && Keeps(LruMachine(n), OrderOf(n))
  {
    var inv := OrderOf(n);
    forall o | inv(o) ensures KeepsAt(FifoMachine(n), inv, o) && KeepsAt(LruMachine(n), inv, o) {
      RecycleKeepsOrder(o, n);
      forall way: nat | way < n ensures inv(Touch(o, way)) { TouchKeepsOrder(o, n, way); }
    }
  }

  /** From any state of FIFO or LRU, each way is replaced once per cycle. */
  lemma OrderMachinesCycle(n: nat, o: seq<nat>)
    requires n > 0 && IsOrder(o, n)
    ensures Cycles(FifoMachine(n), o) && Cycles(LruMachine(n), o)
  {
    OrderDistinct(o, n);
    forall i: nat | i < n ensures LeastRecent(Iterate(Recycle, o, i)) == o[n - 1 - i] {
      RecycleRun(o, i);
    }
    RecycleRun(o, n);
    assert Turned(o, n) == o;
    var f, l := FifoMachine(n), LruMachine(n);
    forall i: nat | i < n ensures NthVictim(f, o, i) == NthVictim(l, o, i) == o[n - 1 - i] {}
  }

  // ----- Tree-PLRU -----

  function TreeHit(h: nat): (T.Tree, nat) -> T.Tree {
    (t: T.Tree, way: nat) => if T.Perfect(t, h) then T.Hit(t, Bits(way, 0, h)) else t
  }

  function TreeMiss(h: nat): T.Tree -> T.Tree {
    (t: T.Tree) => if T.Perfect(t, h) then T.Miss(t, h) else t
  }

  function TreeVictim(h: nat): T.Tree -> nat {
    (t: T.Tree) => if T.Perfect(t, h) then Value(T.Victim(t, h)) else 0
  }

  function PlruMachine(h: nat): Machine<T.Tree> {
    Machine(Pow2(h), TreeHit(h), TreeMiss(h), TreeVictim(h))
  }

  function PerfectOf(h: nat): T.Tree -> bool { (t: T.Tree) => T.Perfect(t, h) }

  lemma PlruKeeps(h: nat)
    ensures Keeps(PlruMachine(h), PerfectOf(h))
  {
    var m, inv := PlruMachine(h), PerfectOf(h);
    forall t | inv(t) ensures KeepsAt(m, inv, t) {
      ValueBound(T.Victim(t, h));
      forall way: nat | way < m.ways ensures inv(m.hit(t, way)) {
        assert m.hit(t, way) == T.Hit(t, Bits(way, 0, h));
      }
    }
  }

  lemma {:induction false} TreeRun(t: T.Tree, h: nat, k: nat)
    requires T.Perfect(t, h)
    ensures Iterate(TreeMiss(h), t, k) == T.Misses(t, h, k)
  {
    if k > 0 {
      TreeRun(t, h, k - 1);
      LastStep(TreeMiss(h), t, k - 1);
    }
  }

  lemma TreeVictimsDiffer(t: T.Tree, h: nat, i: nat, j: nat)
    requires T.Perfect(t, h) && i < j < Pow2(h)
    ensures T.NthVictim(t, h, i) != T.NthVictim(t, h, j)
  {
    T.EvictedAtTurn(t, T.NthVictim(t, h, i), i);
    T.EvictedAtTurn(t, T.NthVictim(t, h, i), j);
  }

  lemma PlruVictim(t: T.Tree, h: nat, k: nat)
    requires T.Perfect(t, h)
    ensures NthVictim(PlruMachine(h), t, k) == Value(T.NthVictim(t, h, k)) < Pow2(h)
  {
    TreeRun(t, h, k);
    ValueBound(T.NthVictim(t, h, k));
  }

  /** From any tree state, each way is replaced once per cycle. */
  lemma {:induction false} PlruCycles(h: nat, t: T.Tree)
    requires T.Perfect(t, h)
    ensures Cycles(PlruMachine(h), t)
  {
    var m := PlruMachine(h);
    TreeRun(t, h, Pow2(h));
    T.CycleRestores(t, h);
    forall i: nat | i < m.ways ensures NthVictim(m, t, i) < m.ways { PlruVictim(t, h, i); }
    forall i: nat, j: nat | i < j < m.ways ensures NthVictim(m, t, i) != NthVictim(m, t, j) {
      PlruVictim(t, h, i);
      PlruVictim(t, h, j);
      TreeVictimsDiffer(t, h, i, j);
      if Value(T.NthVictim(t, h, i)) == Value(T.NthVictim(t, h, j)) {
        ValueInjective(T.NthVictim(t, h, i), T.NthVictim(t, h, j));
      }
    }
  }

  // ----- SRRIP -----

  function Distant(bits: nat): nat { Pow2(bits) - 1 }

  /** Hit priority forgets the entry; frequency priority brings it one step nearer. */
  function Promote(byFrequency: bool, entry: nat): nat {
    if byFrequency && entry > 0 then entry - 1 else 0
  }

  /** The leftmost position of a maximum. */
  function LeftmostMax(s: seq<nat>): (i: nat)
    requires |s| > 0
    ensures i < |s|
    ensures forall j :: 0 <= j < |s| ==> s[j] <= s[i]
    ensures forall j :: 0 <= j < i ==> s[j] < s[i]
  {
    if |s| == 1 then 0
    else
      var i := LeftmostMax(s[..|s| - 1]);
      if s[|s| - 1] > s[i] then |s| - 1 else i
  }

  function Raised(s: seq<nat>, amount: nat): (r: seq<nat>)
    ensures |r| == |s| && forall j :: 0 <= j < |s| ==> r[j] == s[j] + amount
  {
    seq(|s|, j requires 0 <= j < |s| => s[j] + amount)
  }

  predicate InRange(bits: nat, entries: seq<nat>) {
    bits > 0 && |entries| > 0 && forall j :: 0 <= j < |entries| ==> entries[j] <= Distant(bits)
  }

  /** The closed form of a miss: all entries age until the leftmost maximum is distant; it is replaced. */
  function SrripMiss(bits: nat, entries: seq<nat>): (r: seq<nat>)
    ensures InRange(bits, entries) ==> InRange(bits, r) && |r| == |entries|
  {
    if InRange(bits, entries) then
      var i := LeftmostMax(entries);
      assert Pow2(bits) == 2 * Pow2(bits - 1);
      Raised(entries, Distant(bits) - entries[i])[i := Distant(bits) - 1]
    else entries
  }

  function SrripMachine(bits: nat, byFrequency: bool, n: nat): Machine<seq<nat>> {
    Machine(n,
            (e: seq<nat>, way: nat) => if way < |e| then e[way := Promote(byFrequency, e[way])] else e,
            (e: seq<nat>) => SrripMiss(bits, e),
            (e: seq<nat>) => if |e| > 0 then LeftmostMax(e) else 0)
  }

  function SrripOf(bits: nat, n: nat): seq<nat> -> bool { (e: seq<nat>) => |e| == n && InRange(bits, e) }

  lemma SrripHitStays(bits: nat, byFrequency: bool, n: nat, e: seq<nat>, way: nat)
    requires SrripOf(bits, n)(e) && way < n
    ensures SrripOf(bits, n)(SrripMachine(bits, byFrequency, n).hit(e, way))
  {}

  lemma SrripMissStays(bits: nat, byFrequency: bool, n: nat, e: seq<nat>)
    requires SrripOf(bits, n)(e)
    ensures var m := SrripMachine(bits, byFrequency, n); SrripOf(bits, n)(m.miss(e)) && m.victim(e) < n
  {}

  lemma SrripKeeps(bits: nat, byFrequency: bool, n: nat)
    ensures Keeps(SrripMachine(bits, byFrequency, n), SrripOf(bits, n))
  {
    var m, inv := SrripMachine(bits, byFrequency, n), SrripOf(bits, n);
    forall e | inv(e) ensures KeepsAt(m, inv, e) {
      SrripMissStays(bits, byFrequency, n, e);
      forall way: nat | way < n ensures inv(m.hit(e, way)) { SrripHitStays(bits, byFrequency, n, e, way); }
    }
  }

  /** SRRIP does not cycle: an aged set may replace the same way twice in a row. */
  lemma SrripDoesNotCycle()
    ensures InRange(2, [3, 0]) && !EachOnce(SrripMachine(2, false, 2), [3, 0])
  {
    assert Pow2(2) == 2 * Pow2(1) == 4 * Pow2(0) == 4;
    var m := SrripMachine(2, false, 2);
    assert LeftmostMax([3, 0]) == 0;
    assert SrripMiss(2, [3, 0]) == [2, 0];
    assert LeftmostMax([2, 0]) == 0;
    LastStep(m.miss, [3, 0], 0);
    assert NthVictim(m, [3, 0], 0) == NthVictim(m, [3, 0], 1);
  }
}
