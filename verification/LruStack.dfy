/**
 LRU as a stack: whether an access hits depends only on how many different addresses came since
 the address was last used. More ways therefore never mean fewer hits.
 */
module LruStack {
  import opened Collections
  import opened Orders
  import opened Policies
  import opened CacheSets

  /** The different addresses of a trace, most recently used first. */
  function Recency(trace: seq<nat>): seq<nat> {
    if trace == [] then []
    else Push(Recency(trace[..|trace| - 1]), trace[|trace| - 1])
  }

  function Push(stack: seq<nat>, a: nat): (r: seq<nat>)
    ensures |r| == |stack| + (if a in stack then 0 else 1)
  {
    if a in stack then ToFront(stack, Position(stack, a)) else [a] + stack
  }

  /** The different addresses used since the last use of a. */
  function Since(trace: seq<nat>, a: nat): set<nat> {
    if trace == [] || trace[|trace| - 1] == a then {}
    else Since(trace[..|trace| - 1], a) + {trace[|trace| - 1]}
  }

  // ----- The stack -----

  lemma PushDistinct(stack: seq<nat>, a: nat)
    requires Distinct(stack)
    ensures Distinct(Push(stack, a)) && forall x :: x in Push(stack, a) <==> x in stack || x == a
  {
    if a in stack {
      ToFrontDistinct(stack, Position(stack, a));
      ToFrontMembers(stack, Position(stack, a));
      assert forall x :: x in Push(stack, a) <==> x in Members(Push(stack, a));
    }
  }

  lemma ToFrontDistinct(s: seq<nat>, i: nat)
    requires Distinct(s) && i < |s|
    ensures Distinct(ToFront(s, i))
  {}

  lemma {:induction false} RecencyDistinct(trace: seq<nat>)
    ensures Distinct(Recency(trace)) && forall x :: x in Recency(trace) <==> x in trace
  {
    if trace != [] {
      var before, a := trace[..|trace| - 1], trace[|trace| - 1];
      RecencyDistinct(before);
      PushDistinct(Recency(before), a);
      assert trace == before + [a];
    }
  }

  /** The entries above an address in the stack. */
  function Above(stack: seq<nat>, a: nat): set<nat>
    requires a in stack
  {
    Members(stack[..Position(stack, a)])
  }

  lemma ToFrontMembers(s: seq<nat>, i: nat)
    requires i < |s|
    ensures Members(ToFront(s, i)) == Members(s)
  {
    var r := ToFront(s, i);
    forall x | x in s ensures x in r {
      var j := Position(s, x);
      assert r[if j == i then 0 else if j < i then j + 1 else j] == x;
    }
  }

  /** Moving an entry from above i to the front changes nothing from i on, nor what is above. */
  lemma FrontOfPrefix(s: seq<nat>, j: nat, i: nat)
    requires j < i < |s|
    ensures ToFront(s, j)[i] == s[i] && Members(ToFront(s, j)[..i]) == Members(s[..i])
  {
    assert ToFront(s, j)[..i] == ToFront(s[..i], j);
    ToFrontMembers(s[..i], j);
  }

  lemma PushAbove(stack: seq<nat>, a: nat, b: nat)
    requires Distinct(stack) && a in stack && a != b
    ensures a in Push(stack, b) && Above(Push(stack, b), a) == Above(stack, a) + {b}
  {
    PushDistinct(stack, b);
    var r, i := Push(stack, b), Position(stack, a);
    if b in stack && Position(stack, b) < i {
      FrontOfPrefix(stack, Position(stack, b), i);
      FirstPosition(r, i);
      OneAbove(stack, b, i);
    } else {
      PushedPrefix(stack, b, i);
      FirstPosition(r, i + 1);
    }
  }

  lemma OneAbove(stack: seq<nat>, b: nat, i: nat)
    requires b in stack && Position(stack, b) < i <= |stack|
    ensures Members(stack[..i]) + {b} == Members(stack[..i])
  {
    assert stack[..i][Position(stack, b)] == b;
  }

  lemma MembersFront(s: seq<nat>, b: nat)
    ensures Members([b] + s) == Members(s) + {b}
  {}

  lemma FrontPrefix(stack: seq<nat>, b: nat, i: nat)
    requires i < |stack| && stack[i] != b && (b in stack ==> i <= Position(stack, b))
    ensures var r := Push(stack, b); i + 1 < |r| && r[i + 1] == stack[i] && r[..i + 1] == [b] + stack[..i]
  {
    var r := Push(stack, b);
    assert i + 1 < |r| && r[0] == b && r[i + 1] == stack[i];
    assert forall j :: 0 <= j < i ==> r[j + 1] == stack[j];
  }

  lemma PushedPrefix(stack: seq<nat>, b: nat, i: nat)
    requires i < |stack| && stack[i] != b && (b in stack ==> i <= Position(stack, b))
    ensures var r := Push(stack, b);
            i + 1 < |r| && r[i + 1] == stack[i] && Members(r[..i + 1]) == Members(stack[..i]) + {b}
  {
    FrontPrefix(stack, b, i);
    MembersFront(stack[..i], b);
  }

  lemma {:induction false} AboveIsSince(trace: seq<nat>, a: nat)
    requires a in trace
    ensures a in Recency(trace) && Above(Recency(trace), a) == Since(trace, a)
  {
    var before, b := trace[..|trace| - 1], trace[|trace| - 1];
    RecencyDistinct(before);
    if a == b {
      assert Recency(trace)[0] == a;
    } else {
      assert trace == before + [b];
      AboveIsSince(before, a);
      PushAbove(Recency(before), a, b);
    }
  }

  lemma CountAbove(stack: seq<nat>, a: nat)
    requires Distinct(stack) && a in stack
    ensures |Above(stack, a)| == Position(stack, a)
  {
    SetOfDistinct(stack[..Position(stack, a)]);
  }

  /** The depth of an address in the stack is the number of addresses used since. */
  lemma StackDistance(trace: seq<nat>, a: nat)
    requires a in trace
    ensures a in Recency(trace) && Above(Recency(trace), a) == Since(trace, a)
    ensures |Since(trace, a)| == Position(Recency(trace), a)
  {
    AboveIsSince(trace, a);
    RecencyDistinct(trace);
    CountAbove(Recency(trace), a);
  }

  // ----- The cache set -----

  /** Read along the recency order, the lines are the top of the stack. */
  ghost predicate Mirrors(order: seq<nat>, lines: seq<Line>, stack: seq<nat>) {
    |lines| == |order| &&
    forall i :: 0 <= i < |order| ==>
      order[i] < |lines| && lines[order[i]] == if i < |stack| then Tag(stack[i]) else Empty
  }

  lemma MirrorHolds(order: seq<nat>, n: nat, lines: seq<Line>, stack: seq<nat>, a: nat)
    requires IsOrder(order, n) && Distinct(stack) && Mirrors(order, lines, stack)
    ensures FindWay(lines, a) < n <==> a in stack && Position(stack, a) < n
    ensures FindWay(lines, a) < n ==> FindWay(lines, a) == order[Position(stack, a)]
  {
    var w := FindWay(lines, a);
    if a in stack && Position(stack, a) < n {
      assert lines[order[Position(stack, a)]] == Tag(a);
    }
    if w < n {
      var i := Position(order, w);
      assert lines[order[i]] == Tag(a);
      FirstPosition(stack, i);
    }
  }

  lemma MirrorHit(order: seq<nat>, n: nat, lines: seq<Line>, stack: seq<nat>, a: nat)
    requires IsOrder(order, n) && Distinct(stack) && Mirrors(order, lines, stack)
    requires a in stack && Position(stack, a) < n
    ensures Mirrors(Touch(order, order[Position(stack, a)]), lines, Push(stack, a))
  {
    var i := Position(stack, a);
    OrderDistinct(order, n);
    FirstPosition(order, i);
    assert Touch(order, order[i]) == ToFront(order, i) && Push(stack, a) == ToFront(stack, i);
    MirrorToFront(order, lines, stack, i);
  }

  lemma MirrorToFront(order: seq<nat>, lines: seq<Line>, stack: seq<nat>, i: nat)
    requires Mirrors(order, lines, stack) && i < |order| && i < |stack|
    ensures Mirrors(ToFront(order, i), lines, ToFront(stack, i))
  {
    var o', s' := ToFront(order, i), ToFront(stack, i);
    forall j | 0 <= j < |order|
      ensures o'[j] < |lines| && lines[o'[j]] == if j < |s'| then Tag(s'[j]) else Empty
    {
      var l := if j == 0 then i else if j <= i then j - 1 else j;
      assert o'[j] == order[l] && (j < |s'| ==> s'[j] == stack[l]);
    }
  }

  /** The top n entries of r are a and those of the stack, one deeper. */
  ghost predicate Shifts(stack: seq<nat>, r: seq<nat>, a: nat, n: nat) {
    && r != [] && r[0] == a && (|r| == |stack| + 1 || |r| == |stack| > n)
    && forall j :: 0 < j < n && j < |r| ==> r[j] == stack[j - 1]
  }

  lemma PushShifts(stack: seq<nat>, a: nat, n: nat)
    requires a in stack ==> Position(stack, a) >= n
    ensures Shifts(stack, Push(stack, a), a, n)
  {}

  lemma MirrorRecycled(order: seq<nat>, lines: seq<Line>, stack: seq<nat>, r: seq<nat>, a: nat, n: nat)
    requires |order| == n > 0 && Mirrors(order, lines, stack) && Shifts(stack, r, a, n)
    requires forall j :: 0 <= j < n - 1 ==> order[j] != order[n - 1]
    ensures Mirrors(Recycle(order), lines[order[n - 1] := Tag(a)], r)
  {
    var o', l' := Recycle(order), lines[order[n - 1] := Tag(a)];
    forall j | 0 <= j < n ensures o'[j] < |l'| && l'[o'[j]] == if j < |r| then Tag(r[j]) else Empty {
      if j > 0 { assert o'[j] == order[j - 1] && order[j - 1] != order[n - 1]; }
    }
  }

  lemma MirrorMiss(order: seq<nat>, n: nat, lines: seq<Line>, stack: seq<nat>, a: nat)
    requires n > 0 && IsOrder(order, n) && Mirrors(order, lines, stack)
    requires a in stack ==> Position(stack, a) >= n
    ensures Mirrors(Recycle(order), lines[order[n - 1] := Tag(a)], Push(stack, a))
  {
    OrderDistinct(order, n);
    PushShifts(stack, a, n);
    MirrorRecycled(order, lines, stack, Push(stack, a), a, n);
  }

  lemma MirrorAccess(n: nat, s: CacheSet<seq<nat>>, stack: seq<nat>, a: nat)
    requires n > 0 && IsOrder(s.policy, n) && Distinct(stack) && Mirrors(s.policy, s.lines, stack)
    ensures var s' := Access(LruMachine(n), s, a);
            IsOrder(s'.policy, n) && Mirrors(s'.policy, s'.lines, Push(stack, a))
  {
    MirrorHolds(s.policy, n, s.lines, stack, a);
    if Holds(s, a) {
      MirrorHit(s.policy, n, s.lines, stack, a);
      TouchKeepsOrder(s.policy, n, FindWay(s.lines, a));
    } else {
      MirrorMiss(s.policy, n, s.lines, stack, a);
      RecycleKeepsOrder(s.policy, n);
    }
  }

  lemma {:induction false} LruMirrors(n: nat, o: seq<nat>, trace: seq<nat>)
    requires n > 0 && IsOrder(o, n)
    ensures var m := LruMachine(n);
            var s := Run(m, Fresh(m, o), trace);
            IsOrder(s.policy, n) && Mirrors(s.policy, s.lines, Recency(trace))
  {
    if trace != [] {
      var before, a := trace[..|trace| - 1], trace[|trace| - 1];
      LruMirrors(n, o, before);
      RecencyDistinct(before);
      MirrorAccess(n, Run(LruMachine(n), Fresh(LruMachine(n), o), before), Recency(before), a);
    }
  }

  /**
   Stack distance: an access hits exactly when the address was used before and fewer than n
   different addresses were used since, whatever order LRU started with.
   */
  lemma LruHit(n: nat, o: seq<nat>, trace: seq<nat>, a: nat)
    requires n > 0 && IsOrder(o, n)
    ensures Holds(Run(LruMachine(n), Fresh(LruMachine(n), o), trace), a)
       <==> a in trace && |Since(trace, a)| < n
  {
    LruMirrors(n, o, trace);
    var s := Run(LruMachine(n), Fresh(LruMachine(n), o), trace);
    RecencyDistinct(trace);
    MirrorHolds(s.policy, n, s.lines, Recency(trace), a);
    if a in trace { StackDistance(trace, a); }
  }

  /** More ways never mean fewer hits. */
  lemma {:induction false} LruMonotone(n: nat, o: seq<nat>, n': nat, o': seq<nat>, trace: seq<nat>)
    requires 0 < n <= n' && IsOrder(o, n) && IsOrder(o', n')
    ensures HitCount(LruMachine(n), Fresh(LruMachine(n), o), trace)
         <= HitCount(LruMachine(n'), Fresh(LruMachine(n'), o'), trace)
  {
    if trace != [] {
      var before, a := trace[..|trace| - 1], trace[|trace| - 1];
      LruMonotone(n, o, n', o', before);
      LruHit(n, o, before, a);
      LruHit(n', o', before, a);
    }
  }
}
