/**
 LRU from any state: whatever a set holds at first, an address used since is cached exactly if fewer
 than `ways` others of its set came after it. So the eviction test without its safeguard counts
 the different addresses of the target's set.
 */
module LruEvictions {
  import opened Collections
  import opened Orders
  import opened Policies
  import opened CacheSets
  import opened Hierarchies
  import opened SetAssociativeCaches
  import opened EvictionTests
  import opened LruStack
  import opened Fills

  // ----- One set -----

  /** Read along the recency order, the lines start with the top of the stack; the others hold anything. */
  ghost predicate Tops(order: seq<nat>, lines: seq<Line>, stack: seq<nat>) {
    |lines| == |order| &&
    forall i :: 0 <= i < |order| && i < |stack| ==> order[i] < |lines| && lines[order[i]] == Tag(stack[i])
  }

  /** An address on the stack is cached exactly if it is among the top n, and then in its place. */
  lemma TopsHold(order: seq<nat>, n: nat, lines: seq<Line>, stack: seq<nat>, a: nat)
    requires IsOrder(order, n) && Unique(lines) && Distinct(stack) && Tops(order, lines, stack) && a in stack
    ensures FindWay(lines, a) < n <==> Position(stack, a) < n
    ensures Position(stack, a) < n ==> FindWay(lines, a) == order[Position(stack, a)]
  {
    var p, w := Position(stack, a), FindWay(lines, a);
    if p < n { FindAt(lines, a, order[p]); }
    if w < n {
      var i := Position(order, w);
      if i < |stack| { FirstPosition(stack, i); }
    }
  }

  /** A cached address is on the stack or below it. */
  lemma BelowTops(order: seq<nat>, n: nat, lines: seq<Line>, stack: seq<nat>, a: nat)
    requires IsOrder(order, n) && Tops(order, lines, stack) && FindWay(lines, a) < n
    ensures Position(order, FindWay(lines, a)) >= |stack| || a in stack
  {
    var i := Position(order, FindWay(lines, a));
    if i < |stack| { assert lines[order[i]] == Tag(stack[i]); }
  }

  lemma TopsToFront(order: seq<nat>, lines: seq<Line>, stack: seq<nat>, i: nat)
    requires Tops(order, lines, stack) && i < |order| && i < |stack|
    ensures Tops(ToFront(order, i), lines, ToFront(stack, i))
  {
    var o', s' := ToFront(order, i), ToFront(stack, i);
    forall j | 0 <= j < |order| && j < |s'| ensures o'[j] < |lines| && lines[o'[j]] == Tag(s'[j]) {
      var l := if j == 0 then i else if j <= i then j - 1 else j;
      assert o'[j] == order[l] && s'[j] == stack[l];
    }
  }

  lemma TopsPushed(order: seq<nat>, lines: seq<Line>, stack: seq<nat>, a: nat, i: nat)
    requires Tops(order, lines, stack) && |stack| <= i < |order| && order[i] < |lines| && lines[order[i]] == Tag(a)
    ensures Tops(ToFront(order, i), lines, [a] + stack)
  {
    var o', s' := ToFront(order, i), [a] + stack;
    forall j | 0 <= j < |order| && j < |s'| ensures o'[j] < |lines| && lines[o'[j]] == Tag(s'[j]) {
      assert o'[j] == order[if j == 0 then i else j - 1];
    }
  }

  lemma TopsHit(order: seq<nat>, n: nat, lines: seq<Line>, stack: seq<nat>, a: nat)
    requires IsOrder(order, n) && Unique(lines) && Distinct(stack) && Tops(order, lines, stack)
    requires FindWay(lines, a) < n
    ensures Tops(Orders.Touch(order, FindWay(lines, a)), lines, Push(stack, a))
  {
    var w := FindWay(lines, a);
    OrderDistinct(order, n);
    if a in stack {
      TopsHold(order, n, lines, stack, a);
      FirstPosition(order, Position(stack, a));
      TopsToFront(order, lines, stack, Position(stack, a));
    } else {
      BelowTops(order, n, lines, stack, a);
      TopsPushed(order, lines, stack, a, Position(order, w));
    }
  }

  lemma TopsRecycled(order: seq<nat>, lines: seq<Line>, stack: seq<nat>, r: seq<nat>, a: nat, n: nat)
    requires |order| == n > 0 && Tops(order, lines, stack) && Shifts(stack, r, a, n) && order[n - 1] < n
    requires forall j :: 0 <= j < n - 1 ==> order[j] != order[n - 1]
    ensures Tops(Recycle(order), lines[order[n - 1] := Tag(a)], r)
  {
    var o', l' := Recycle(order), lines[order[n - 1] := Tag(a)];
    forall j | 0 <= j < n && j < |r| ensures o'[j] < |l'| && l'[o'[j]] == Tag(r[j]) {
      if j > 0 { assert o'[j] == order[j - 1] && order[j - 1] != order[n - 1]; }
    }
  }

  lemma TopsMiss(order: seq<nat>, n: nat, lines: seq<Line>, stack: seq<nat>, a: nat)
    requires n > 0 && IsOrder(order, n) && Unique(lines) && Distinct(stack) && Tops(order, lines, stack)
    requires FindWay(lines, a) >= n
    ensures Tops(Recycle(order), lines[order[n - 1] := Tag(a)], Push(stack, a))
  {
    if a in stack { TopsHold(order, n, lines, stack, a); }
    OrderDistinct(order, n);
    PushShifts(stack, a, n);
    TopsRecycled(order, lines, stack, Push(stack, a), a, n);
  }

  lemma TopsAccess(n: nat, s: CacheSet<seq<nat>>, stack: seq<nat>, a: nat)
    requires n > 0 && Valid(LruMachine(n), OrderOf(n), s) && Distinct(stack) && Tops(s.policy, s.lines, stack)
    ensures var s' := Access(LruMachine(n), s, a);
            Valid(LruMachine(n), OrderOf(n), s') && Tops(s'.policy, s'.lines, Push(stack, a))
  {
    OrderMachinesKeep(n);
    AccessKeeps(LruMachine(n), OrderOf(n), s, a);
    if Holds(s, a) { TopsHit(s.policy, n, s.lines, stack, a); } else { TopsMiss(s.policy, n, s.lines, stack, a); }
  }

  lemma {:induction false} TopsRun(n: nat, s: CacheSet<seq<nat>>, trace: seq<nat>)
    requires n > 0 && Valid(LruMachine(n), OrderOf(n), s)
    ensures var t := Run(LruMachine(n), s, trace);
            Valid(LruMachine(n), OrderOf(n), t) && Tops(t.policy, t.lines, Recency(trace))
  {
    if trace != [] {
      var before, a := trace[..|trace| - 1], trace[|trace| - 1];
      TopsRun(n, s, before);
      RecencyDistinct(before);
      TopsAccess(n, Run(LruMachine(n), s, before), Recency(before), a);
    }
  }

  /** From any state: an address that was used is cached exactly if fewer than n others were used since. */
  lemma LruHitFrom(n: nat, s: CacheSet<seq<nat>>, trace: seq<nat>, a: nat)
    requires n > 0 && Valid(LruMachine(n), OrderOf(n), s) && a in trace
    ensures Holds(Run(LruMachine(n), s, trace), a) <==> |Since(trace, a)| < n
  {
    TopsRun(n, s, trace);
    var t := Run(LruMachine(n), s, trace);
    RecencyDistinct(trace);
    StackDistance(trace, a);
    TopsHold(t.policy, n, t.lines, Recency(trace), a);
  }

  // ----- The whole cache -----

  /** The addresses that fall into a set, in order. */
  function Falling(place: nat -> nat, addresses: seq<nat>, index: nat): seq<nat> {
    if addresses == [] then []
    else
      var before, a := Falling(place, addresses[..|addresses| - 1], index), addresses[|addresses| - 1];
      if place(a) == index then before + [a] else before
  }

  lemma {:induction false} FallingMembers(place: nat -> nat, addresses: seq<nat>, index: nat, x: nat)
    ensures x in Falling(place, addresses, index) <==> x in addresses && place(x) == index
  {
    if addresses != [] {
      assert addresses == addresses[..|addresses| - 1] + [addresses[|addresses| - 1]];
      FallingMembers(place, addresses[..|addresses| - 1], index, x);
    }
  }

  /** Each set sees its own addresses. */
  lemma {:induction false} SetRuns<S(!new)>(c: Cache<S>, addresses: seq<nat>, a: nat)
    requires ValidPlacement(c)
    ensures var c' := TouchAll(SetAssociative<S>(), c, addresses);
            && c'.place == c.place && c'.machine == c.machine && |c'.sets| == |c.sets|
            && SetOf(c', a) == Run(c.machine, SetOf(c, a), Falling(c.place, addresses, c.place(a)))
  {
    if addresses != [] {
      var before, b := addresses[..|addresses| - 1], addresses[|addresses| - 1];
      SetRuns(c, before, a);
      var fallen := Falling(c.place, before, c.place(a));
      RunMore(c.machine, SetOf(c, a), fallen, b);
    }
  }

  lemma {:induction false} TouchFirst<C>(ops: CacheOps<C>, c: C, a: nat, addresses: seq<nat>)
    ensures TouchAll(ops, c, [a] + addresses) == TouchAll(ops, ops.touch(c, a), addresses)
  {
    var all := [a] + addresses;
    if addresses == [] {
      assert all[..0] == [];
    } else {
      assert all[..|all| - 1] == [a] + addresses[..|addresses| - 1];
      TouchFirst(ops, c, a, addresses[..|addresses| - 1]);
    }
  }

  /**
   The test without its safeguard, on an LRU cache in any state and with any addresses: it says that
   the target is evicted exactly if at least n different other addresses of its set came after its
   last use, whether they hit or missed.
   */
  lemma UnsafeLru(n: nat, c: Cache<seq<nat>>, target: nat, addresses: seq<nat>)
    requires n > 0 && c.machine == LruMachine(n) && ValidCache(OrderOf(n), c)
    ensures !Lookup(TouchAll(SetAssociative(), SetAssociativeCaches.Touch(c, target), addresses), target)
       <==> |Since(Falling(c.place, [target] + addresses, c.place(target)), target)| >= n
  {
    var all := [target] + addresses;
    TouchFirst(SetAssociative<seq<nat>>(), c, target, addresses);
    SetRuns(c, all, target);
    FallingMembers(c.place, all, c.place(target), target);
    assert all[0] == target;
    LruHitFrom(n, SetOf(c, target), Falling(c.place, all, c.place(target)), target);
  }

  lemma {:induction false} SinceFirst(x: nat, rest: seq<nat>)
    requires x !in rest
    ensures Since([x] + rest, x) == Members(rest)
  {
    if rest == [] {
      assert [x] + rest == [x];
    } else {
      var before, b := rest[..|rest| - 1], rest[|rest| - 1];
      assert ([x] + rest)[..|rest|] == [x] + before;
      SinceFirst(x, before);
      assert rest == before + [b];
      MembersMore(before, b);
    }
  }

  lemma {:induction false} FallingFirst(place: nat -> nat, x: nat, rest: seq<nat>)
    ensures Falling(place, [x] + rest, place(x)) == [x] + Falling(place, rest, place(x))
  {
    var all := [x] + rest;
    if rest == [] {
      assert all[..0] == [];
    } else {
      assert all[..|all| - 1] == [x] + rest[..|rest| - 1];
      FallingFirst(place, x, rest[..|rest| - 1]);
    }
  }

  /** With other addresses than the target: whether at least n different ones are of its set, hits or not. */
  lemma UnsafeCounts(n: nat, c: Cache<seq<nat>>, target: nat, addresses: seq<nat>)
    requires n > 0 && c.machine == LruMachine(n) && ValidCache(OrderOf(n), c) && target !in addresses
    ensures !Lookup(TouchAll(SetAssociative(), SetAssociativeCaches.Touch(c, target), addresses), target)
       <==> |set a | a in addresses && c.place(a) == c.place(target)| >= n
  {
    UnsafeLru(n, c, target, addresses);
    var fallen := Falling(c.place, addresses, c.place(target));
    FallingFirst(c.place, target, addresses);
    forall x: nat ensures x in fallen <==> x in addresses && c.place(x) == c.place(target) {
      FallingMembers(c.place, addresses, c.place(target), x);
    }
    SinceFirst(target, fallen);
    assert Members(fallen) == set a | a in addresses && c.place(a) == c.place(target);
  }
}
