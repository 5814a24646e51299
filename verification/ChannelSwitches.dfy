/**
 When the route stays free of repetitions: the public switch moves five channels on, which is
 safe for as many unserviced switches as it takes to come around, and not for one more.
 */
module ChannelSwitches {
  import opened Channels
  import opened ChannelSafety
  import opened ChannelRuns
  import opened ChannelCalls
  import Orders

  function After(c: nat, n: nat): nat
    requires n > 0
  {
    (c + 5) % n
  }

  // ----- Five steps at a time around n channels -----

  lemma Remainder(x: nat, n: nat) returns (t: nat)
    requires n > 0
    ensures x == t * n + x % n
  {
    t := x / n;
  }

  lemma SmallMultiple(m: int, n: nat, d: nat)
    requires 0 < d < n && m * n == 5 * d
    ensures n % 5 == 0 && m >= 1
  {
    if m <= 0 { ProductGrows(m, 0, n); }
    if m >= 5 { ProductGrows(5, m, n); }
    if m == 1 {
      FiveTimes(n, d);
    } else if m == 2 {
      assert m * n == 2 * n;
      FiveTimes(n, 3 * d - n);
    } else if m == 3 {
      assert m * n == 3 * n;
      FiveTimes(n, 2 * d - n);
    } else {
      assert m * n == 4 * n;
      FiveTimes(n, n - d);
    }
  }

  lemma FiveTimes(n: nat, q: int)
    requires n == 5 * q
    ensures n % 5 == 0
  {}

  lemma ProductGrows(x: int, y: int, n: nat)
    requires x <= y
    ensures x * n <= y * n
  {}

  /** The number of moves after which five channels at a time come around n channels. */
  function Period(n: nat): nat {
    if n % 5 == 0 then n / 5 else n
  }

  /** With fewer moves there is no return ... */
  lemma NoReturn(x: nat, d: nat, n: nat)
    requires n > 0 && 0 < d < Period(n)
    ensures (x + 5 * d) % n != x % n
  {
    if (x + 5 * d) % n == x % n {
      var t := Remainder(x, n);
      var t' := Remainder(x + 5 * d, n);
      assert (t' - t) * n == 5 * d;
      SmallMultiple(t' - t, n, d);
      ProductGrows(1, t' - t, n);
    }
  }

  /** ... and that many do return. */
  lemma Returns(x: nat, n: nat)
    requires n > 0
    ensures (x + 5 * Period(n)) % n == x % n
  {
    var t := Remainder(x, n);
    var k := if n % 5 == 0 then 1 else 5;
    assert 5 * Period(n) == k * n;
    assert x + k * n == (t + k) * n + x % n;
    Orders.QuotientUnique(x + k * n, n, t + k, x % n);
  }

  // ----- Routes of the public switch -----

  ghost predicate Strides(route: seq<nat>, n: nat) {
    n > 0 && route != [] && route[0] < n && forall i :: 0 <= i < |route| - 1 ==> route[i + 1] == After(route[i], n)
  }

  lemma RemainderAdds(a: nat, n: nat)
    requires n > 0
    ensures (a % n + 5) % n == (a + 5) % n
  {
    var t := Remainder(a, n);
    var u := Remainder(a % n + 5, n);
    assert a + 5 == (t + u) * n + (a % n + 5) % n;
    Orders.QuotientUnique(a + 5, n, t + u, (a % n + 5) % n);
  }

  lemma {:induction false} StridePosition(route: seq<nat>, n: nat, i: nat)
    requires Strides(route, n) && i < |route|
    ensures route[i] == (route[0] + 5 * i) % n
  {
    if i > 0 {
      StridePosition(route, n, i - 1);
      RemainderAdds(route[0] + 5 * (i - 1), n);
    }
  }

  /** A route shorter than the period is not closed by the next switch; one as long is. */
  lemma StrideFresh(route: seq<nat>, n: nat)
    requires Strides(route, n)
    ensures After(Last(route), n) < n
    ensures |route| < Period(n) ==> After(Last(route), n) !in route
    ensures |route| == Period(n) ==> After(Last(route), n) == route[0]
  {
    var next, k := After(Last(route), n), |route|;
    StridePosition(route, n, k - 1);
    RemainderAdds(route[0] + 5 * (k - 1), n);
    assert next == (route[0] + 5 * k) % n;
    StridePosition(route, n, 0);
    Returns(route[0], n);
    if k < Period(n) {
      forall i | 0 <= i < k ensures route[i] != next {
        StridePosition(route, n, i);
        NoReturn(route[0] + 5 * i, k - i, n);
        assert route[0] + 5 * i + 5 * (k - i) == route[0] + 5 * k;
      }
    }
  }

  // ----- Runs of the public interface -----

  ghost predicate Strided(s: System) {
    Strides(s.route, |s.channels|) && Last(s.route) == s.active
    && forall to :: Heading(s.client.pc, to) ==> to == After(s.active, |s.channels|)
  }

  /** The public switch goes five channels on. */
  predicate StrideCall(s: System, move: Move) {
    move.ByClient? && s.client.pc == Ready && move.call.SwitchTo? ==>
      |s.channels| > 0 && move.call.channel == After(s.active, |s.channels|)
  }

  /** ... and is published only while fewer than a period of switches would be unserviced with it. */
  predicate Public(s: System, move: Move) {
    StrideCall(s, move) && (move.ByClient? && s.client.pc.PublishSwitch? ==> |s.route| < Period(|s.channels|))
  }

  ghost predicate PublicRun(pmc: seq<Event> -> seq<nat>, s: System, moves: seq<Move>)
    decreases |moves|
  {
    moves == [] || (Public(s, moves[0]) && PublicRun(pmc, Step(pmc, s, moves[0]), moves[1..]))
  }

  lemma StridedPublish(s: System, call: Call)
    requires Strided(s) && s.client.pc.PublishSwitch? && s.active < |s.channels|
    ensures Strided(ClientStep(s, call))
  {
    assert Heading(s.client.pc, s.client.pc.to);
    var r := s.route + [s.client.pc.to];
    forall i | 0 <= i < |r| - 1 ensures r[i + 1] == After(r[i], |s.channels|) {}
  }

  lemma StridedClient(s: System, call: Call)
    requires Strided(s) && StrideCall(s, ByClient(call)) && s.active < |s.channels|
    ensures Strided(ClientStep(s, call))
  {
    if s.client.pc.PublishSwitch? {
      StridedPublish(s, call);
    } else {
      var s' := ClientStep(s, call);
      forall to | Heading(s'.client.pc, to) ensures to == After(s.active, |s.channels|) {
        assert Heading(s.client.pc, to) || (s.client.pc == Ready && call == SwitchTo(to));
      }
    }
  }

  lemma StridedAgent(pmc: seq<Event> -> seq<nat>, s: System)
    requires Inv(pmc, s) && Strided(s)
    ensures Strided(AgentStep(pmc, s))
  {
    if s.agent == ReadSwitch {
      ArriveKeeps(pmc, s);
      var r := s.route[1..];
      forall i | 0 <= i < |r| - 1 ensures r[i + 1] == After(r[i], |s.channels|) {
        assert s.route[i + 2] == After(s.route[i + 1], |s.channels|);
      }
    }
  }

  lemma PublicIsTame(s: System, move: Move)
    requires Strided(s) && Public(s, move)
    ensures Tame(s, move)
  {
    if move.ByClient? && s.client.pc.PublishSwitch? {
      assert Heading(s.client.pc, s.client.pc.to);
      StrideFresh(s.route, |s.channels|);
    }
  }

  /** Public runs with fewer than a period of unserviced switches are tame, for any number of channels. */
  lemma {:induction false} PublicRunsAreTame(pmc: seq<Event> -> seq<nat>, s: System, moves: seq<Move>)
    requires ThreeCounters(pmc) && Inv(pmc, s) && Strided(s) && PublicRun(pmc, s, moves)
    ensures TameRun(pmc, s, moves)
    decreases |moves|
  {
    if moves != [] {
      PublicIsTame(s, moves[0]);
      StepKeeps(pmc, s, moves[0]);
      match moves[0] {
        case ByClient(call) => StridedClient(s, call);
        case ByAgent => StridedAgent(pmc, s);
      }
      PublicRunsAreTame(pmc, Step(pmc, s, moves[0]), moves[1..]);
    }
  }

  /**
   The whole guarantee for the public interface: unless a period of switches is unserviced at
   once, operations are executed in the order of their submission and none is lost. A period is
   the number of channels exactly if five does not divide it.
   */
  lemma {:induction false} PublicInOrder(pmc: seq<Event> -> seq<nat>, count: nat, first: nat, moves: seq<Move>)
    requires ThreeCounters(pmc) && first < count && PublicRun(pmc, Start(count, first), moves)
    ensures var s := Run(pmc, Start(count, first), moves);
            && Inv(pmc, s)
            && s.submitted == s.executed + InFlight(s.channels[s.active], s.agent) + Buffered(s.client)
    ensures Period(count) == count <==> count % 5 != 0
  {
    StartOk(pmc, count, first);
    PublicRunsAreTame(pmc, Start(count, first), moves);
    RunKeeps(pmc, Start(count, first), moves);
  }

  lemma StridedLeaves(s: System)
    requires Strided(s) && Period(|s.channels|) > 1
    ensures Leaves(s)
  {
    var n := |s.channels|;
    StridePosition(s.route, n, |s.route| - 1);
    NoReturn(s.active, 1, n);
    InRangeRemainder(s.active, n);
  }

  lemma InRangeRemainder(x: nat, n: nat)
    requires x < n
    ensures x % n == x
  {}

  lemma {:induction false} StridedRun(pmc: seq<Event> -> seq<nat>, s: System, moves: seq<Move>)
    requires ThreeCounters(pmc) && Inv(pmc, s) && Strided(s) && PublicRun(pmc, s, moves)
    ensures Strided(Run(pmc, s, moves)) && |Run(pmc, s, moves).channels| == |s.channels|
    decreases |moves|
  {
    if moves != [] {
      PublicIsTame(s, moves[0]);
      StepKeeps(pmc, s, moves[0]);
      match moves[0] {
        case ByClient(call) => StridedClient(s, call);
        case ByAgent => StridedAgent(pmc, s);
      }
      StridedRun(pmc, Step(pmc, s, moves[0]), moves[1..]);
    }
  }

  /**
   In the public interface, unless one switch alone leads back, every such run has submitted the
   operations of its calls, and can be completed so that exactly they are executed, in order.
   */
  lemma {:induction false} PublicDelivers(pmc: seq<Event> -> seq<nat>, count: nat, first: nat, moves: seq<Move>)
    returns (more: seq<Move>)
    requires ThreeCounters(pmc) && first < count && PublicRun(pmc, Start(count, first), moves) && Period(count) > 1
    ensures var calls := Begun(pmc, Start(count, first), moves);
            && Run(pmc, Start(count, first), moves).submitted == AllEvents(calls)
            && Begun(pmc, Start(count, first), moves + more) == calls + [Flush]
            && Run(pmc, Start(count, first), moves + more).executed == AllEvents(calls)
  {
    StartOk(pmc, count, first);
    PublicRunsAreTame(pmc, Start(count, first), moves);
    StridedRun(pmc, Start(count, first), moves);
    StridedLeaves(Run(pmc, Start(count, first), moves));
    CallsSubmit(pmc, count, first, moves);
    more := Delivers(pmc, count, first, moves);
  }

  // ----- The hazard -----

  lemma RunOne(pmc: seq<Event> -> seq<nat>, s: System, move: Move, moves: seq<Move>)
    ensures Run(pmc, s, [move] + moves) == Run(pmc, Step(pmc, s, move), moves)
  {
    assert ([move] + moves)[1..] == moves;
  }

  /** The agent has marked its channel idle, and the client is using that channel. */
  ghost predicate Exposed(s: System, pc: ClientPc, buffer: seq<nat>) {
    && s.agent == ReadSwitch && s.served == s.active < |s.channels|
    && s.channels[s.active].control == 0 && |s.channels[s.active].data| == SLOTS
    && s.client.pc == pc && s.client.buffer == buffer
  }

  lemma ExposedSteps(pmc: seq<Event> -> seq<nat>, s: System, w: nat)
    ensures Exposed(s, SwitchWait, []) ==> Exposed(ClientStep(s, Flush), Ready, [])
    ensures Exposed(s, Ready, []) ==> Exposed(ClientStep(s, InstrumentedAccess(w)), FlushWait(Instrument), [w])
    ensures Exposed(s, FlushWait(Instrument), [w]) ==> Exposed(ClientStep(s, Flush), Copying(0, Instrument), [w])
    ensures Exposed(s, Copying(0, Instrument), [w]) ==> AgentStep(pmc, ClientStep(s, Flush)).served == w
  {}

  /** The next access that the client writes into the slots becomes the agent's channel. */
  lemma Misled(pmc: seq<Event> -> seq<nat>, s: System, w: nat)
    requires Exposed(s, SwitchWait, [])
    ensures Run(pmc, s, [ByClient(Flush), ByClient(InstrumentedAccess(w)), ByClient(Flush),
                         ByClient(Flush), ByAgent]).served == w
  {
    var s1 := ClientStep(s, Flush);
    var s2 := ClientStep(s1, InstrumentedAccess(w));
    var s3 := ClientStep(s2, Flush);
    ExposedSteps(pmc, s, w);
    ExposedSteps(pmc, s1, w);
    ExposedSteps(pmc, s2, w);
    ExposedSteps(pmc, s3, w);
    RunOne(pmc, s, ByClient(Flush), [ByClient(InstrumentedAccess(w)), ByClient(Flush), ByClient(Flush), ByAgent]);
    RunOne(pmc, s1, ByClient(InstrumentedAccess(w)), [ByClient(Flush), ByClient(Flush), ByAgent]);
    RunThree(pmc, s2, ByClient(Flush), ByClient(Flush), ByAgent);
  }

  /** The route leads back to the agent's channel, which holds the request to leave it. */
  ghost predicate Closed(s: System, agent: AgentPc) {
    && s.agent == agent && s.served == s.active < |s.channels|
    && s.channels[s.active].control == Encode(SWITCH) && |s.channels[s.active].data| == SLOTS
    && s.client.pc == SwitchWait && s.client.buffer == []
  }

  lemma PublishCloses(pmc: seq<Event> -> seq<nat>, s: System)
    requires Inv(pmc, s) && s.agent == Poll && s.client.pc == PublishSwitch(s.served)
    ensures Closed(ClientStep(s, Flush), Poll)
  {
    if |s.route| > 1 { assert Leads(s.channels[s.route[0]], s.route[1], false); }
  }

  lemma ClosedSteps(pmc: seq<Event> -> seq<nat>, s: System)
    ensures Closed(s, Poll) ==> Closed(AgentStep(pmc, s), SwitchOut)
    ensures Closed(s, SwitchOut) ==> Exposed(AgentStep(pmc, s), SwitchWait, [])
  {}

  /** Closing the route exposes the agent. */
  lemma {:induction false} ClosingExposes(pmc: seq<Event> -> seq<nat>, s: System)
    requires Inv(pmc, s) && s.agent == Poll && s.client.pc == PublishSwitch(s.served)
    ensures Exposed(Run(pmc, s, [ByClient(Flush), ByAgent, ByAgent]), SwitchWait, [])
  {
    PublishCloses(pmc, s);
    var s1 := ClientStep(s, Flush);
    ClosedSteps(pmc, s1);
    ClosedSteps(pmc, AgentStep(pmc, s1));
    RunThree(pmc, s, ByClient(Flush), ByAgent, ByAgent);
  }

  lemma RunThree(pmc: seq<Event> -> seq<nat>, s: System, x: Move, y: Move, z: Move)
    ensures Run(pmc, s, [x, y, z]) == Step(pmc, Step(pmc, Step(pmc, s, x), y), z)
  {
    RunOne(pmc, s, x, [y, z]);
    RunOne(pmc, Step(pmc, s, x), y, [z]);
    RunOne(pmc, Step(pmc, Step(pmc, s, x), y), z, []);
  }

  /**
   A switch back to the channel that the agent has still to leave: whatever word the client
   accesses next, some interleaving makes the agent take that word for its channel.
   */
  lemma ClosedRouteHazard(pmc: seq<Event> -> seq<nat>, s: System, w: nat) returns (moves: seq<Move>)
    requires Inv(pmc, s) && s.agent == Poll && s.client.pc == PublishSwitch(s.served)
    ensures Run(pmc, s, moves).served == w
    ensures forall i :: 0 <= i < |moves| ==> !(moves[i].ByClient? && moves[i].call.SwitchTo?)
  {
    var first := [ByClient(Flush), ByAgent, ByAgent];
    var then_ := [ByClient(Flush), ByClient(InstrumentedAccess(w)), ByClient(Flush), ByClient(Flush), ByAgent];
    ClosingExposes(pmc, s);
    Misled(pmc, Run(pmc, s, first), w);
    RunAdds(pmc, s, first, then_);
    moves := first + then_;
  }

  // ----- The bound is sharp -----

  ghost predicate StrideCalls(pmc: seq<Event> -> seq<nat>, s: System, moves: seq<Move>)
    decreases |moves|
  {
    moves == [] || (StrideCall(s, moves[0]) && StrideCalls(pmc, Step(pmc, s, moves[0]), moves[1..]))
  }

  lemma {:induction false} StrideCallsAdd(pmc: seq<Event> -> seq<nat>, s: System, moves: seq<Move>, more: seq<Move>)
    requires StrideCalls(pmc, s, moves) && StrideCalls(pmc, Run(pmc, s, moves), more)
    ensures StrideCalls(pmc, s, moves + more)
    decreases |moves|
  {
    if moves == [] {
      assert moves + more == more;
    } else {
      assert (moves + more)[1..] == moves[1..] + more;
      StrideCallsAdd(pmc, Step(pmc, s, moves[0]), moves[1..], more);
    }
  }

  lemma {:induction false} NoSwitchCalls(pmc: seq<Event> -> seq<nat>, s: System, moves: seq<Move>)
    requires forall i :: 0 <= i < |moves| ==> !(moves[i].ByClient? && moves[i].call.SwitchTo?)
    ensures StrideCalls(pmc, s, moves)
    decreases |moves|
  {
    if moves != [] { NoSwitchCalls(pmc, Step(pmc, s, moves[0]), moves[1..]); }
  }

  /** The client has made k switches and nothing else, and the agent has not moved. */
  ghost predicate Parked(pmc: seq<Event> -> seq<nat>, s: System, n: nat, k: nat, pc: ClientPc) {
    && Inv(pmc, s) && Strided(s) && |s.channels| == n && |s.route| == k + 1 && s.agent == Poll
    && s.client.pc == pc && s.client.buffer == [] && s.channels[s.active].control == 0
  }

  /** One step of a switch towards its publication. */
  lemma ApproachStep(pmc: seq<Event> -> seq<nat>, s: System, n: nat, k: nat, pc: ClientPc, to: nat)
    requires Parked(pmc, s, n, k, pc) && to == After(s.active, n)
    requires pc == Ready || pc == Await(Switch(to)) || pc == WriteSwitch(to)
    ensures var s' := ClientStep(s, SwitchTo(to));
            var pc' := if pc == Ready then Await(Switch(to))
                       else if pc.Await? then WriteSwitch(to)
                       else PublishSwitch(to);
            Parked(pmc, s', n, k, pc') && s'.active == s.active
  {
    ClientStepKeeps(pmc, s, SwitchTo(to));
    StridedClient(s, SwitchTo(to));
  }

  /** The steps of a switch up to its publication. */
  lemma {:induction false} Approach(pmc: seq<Event> -> seq<nat>, s: System, n: nat, k: nat)
    requires Parked(pmc, s, n, k, Ready)
    ensures var move := ByClient(SwitchTo(After(s.active, n)));
            && StrideCalls(pmc, s, [move, move, move])
            && Parked(pmc, Run(pmc, s, [move, move, move]), n, k, PublishSwitch(After(s.active, n)))
            && Run(pmc, s, [move, move, move]).active == s.active
  {
    var to := After(s.active, n);
    var call := SwitchTo(to);
    var s1 := ClientStep(s, call);
    var s2 := ClientStep(s1, call);
    ApproachStep(pmc, s, n, k, Ready, to);
    ApproachStep(pmc, s1, n, k, Await(Switch(to)), to);
    ApproachStep(pmc, s2, n, k, WriteSwitch(to), to);
    RunThree(pmc, s, ByClient(call), ByClient(call), ByClient(call));
    StrideThree(pmc, s, ByClient(call));
  }

  lemma StrideThree(pmc: seq<Event> -> seq<nat>, s: System, move: Move)
    requires StrideCall(s, move) && StrideCall(Step(pmc, s, move), move)
    requires StrideCall(Step(pmc, Step(pmc, s, move), move), move)
    ensures StrideCalls(pmc, s, [move, move, move])
  {
    assert [move, move, move][1..] == [move, move] && [move, move][1..] == [move] && [move][1..] == [];
    assert StrideCalls(pmc, Step(pmc, Step(pmc, s, move), move), [move]);
    assert StrideCalls(pmc, Step(pmc, s, move), [move, move]);
  }

  lemma DepartStep(pmc: seq<Event> -> seq<nat>, s: System, n: nat, k: nat)
    requires k + 1 < Period(n) && Parked(pmc, s, n, k, PublishSwitch(After(s.active, n)))
    ensures Parked(pmc, ClientStep(s, Flush), n, k + 1, SwitchWait)
  {
    StrideFresh(s.route, n);
    ClientStepKeeps(pmc, s, Flush);
    StridedClient(s, Flush);
    assert After(s.active, n) != Last(s.route);
  }

  lemma WaitStep(pmc: seq<Event> -> seq<nat>, s: System, n: nat, k: nat)
    requires Parked(pmc, s, n, k, SwitchWait)
    ensures Parked(pmc, ClientStep(s, Flush), n, k, Ready)
  {
    ClientStepKeeps(pmc, s, Flush);
    StridedClient(s, Flush);
  }

  /** Publication and the wait for the new channel, which is idle. */
  lemma {:induction false} Depart(pmc: seq<Event> -> seq<nat>, s: System, n: nat, k: nat)
    requires k + 1 < Period(n) && Parked(pmc, s, n, k, PublishSwitch(After(s.active, n)))
    ensures Parked(pmc, Run(pmc, s, [ByClient(Flush), ByClient(Flush)]), n, k + 1, Ready)
  {
    var s1 := ClientStep(s, Flush);
    DepartStep(pmc, s, n, k);
    WaitStep(pmc, s1, n, k + 1);
    RunOne(pmc, s, ByClient(Flush), [ByClient(Flush)]);
    RunOne(pmc, s1, ByClient(Flush), []);
  }

  lemma SwitchOnce(pmc: seq<Event> -> seq<nat>, s: System, n: nat, k: nat) returns (moves: seq<Move>)
    requires Parked(pmc, s, n, k, Ready) && k + 1 < Period(n)
    ensures StrideCalls(pmc, s, moves) && Parked(pmc, Run(pmc, s, moves), n, k + 1, Ready)
  {
    var move := ByClient(SwitchTo(After(s.active, n)));
    var before, after := [move, move, move], [ByClient(Flush), ByClient(Flush)];
    Approach(pmc, s, n, k);
    var t := Run(pmc, s, before);
    Depart(pmc, t, n, k);
    NoSwitchCalls(pmc, t, after);
    RunAdds(pmc, s, before, after);
    StrideCallsAdd(pmc, s, before, after);
    moves := before + after;
  }

  lemma {:induction false} SwitchMany(pmc: seq<Event> -> seq<nat>, s: System, n: nat, k: nat) returns (moves: seq<Move>)
    requires Parked(pmc, s, n, 0, Ready) && k < Period(n)
    ensures StrideCalls(pmc, s, moves) && Parked(pmc, Run(pmc, s, moves), n, k, Ready)
  {
    moves := [];
    if k > 0 {
      moves := SwitchMany(pmc, s, n, k - 1);
      var more := SwitchOnce(pmc, Run(pmc, s, moves), n, k - 1);
      RunAdds(pmc, s, moves, more);
      StrideCallsAdd(pmc, s, moves, more);
      moves := moves + more;
    }
  }

  lemma StartParked(pmc: seq<Event> -> seq<nat>, count: nat, first: nat)
    requires first < count
    ensures Parked(pmc, Start(count, first), count, 0, Ready)
  {
    StartOk(pmc, count, first);
  }

  lemma PeriodPositive(n: nat)
    requires n > 0
    ensures 0 < Period(n) <= n
  {}

  /**
   The bound is sharp: for any number of channels, once a whole period of public switches is
   unserviced, some run makes the agent take a word that the client accesses for its channel.
   */
  lemma BoundIsSharp(pmc: seq<Event> -> seq<nat>, count: nat, first: nat, w: nat) returns (moves: seq<Move>)
    requires first < count
    ensures StrideCalls(pmc, Start(count, first), moves) && Run(pmc, Start(count, first), moves).served == w
  {
    var s := Start(count, first);
    StartParked(pmc, count, first);
    PeriodPositive(count);
    var along := SwitchMany(pmc, s, count, Period(count) - 1);
    var t := Run(pmc, s, along);
    var move := ByClient(SwitchTo(After(t.active, count)));
    Approach(pmc, t, count, Period(count) - 1);
    var u := Run(pmc, t, [move, move, move]);
    StrideFresh(u.route, count);
    var last := ClosedRouteHazard(pmc, u, w);
    NoSwitchCalls(pmc, u, last);
    RunAdds(pmc, t, [move, move, move], last);
    StrideCallsAdd(pmc, t, [move, move, move], last);
    moves := along + ([move, move, move] + last);
    RunAdds(pmc, s, along, [move, move, move] + last);
    StrideCallsAdd(pmc, s, along, [move, move, move] + last);
  }
}
