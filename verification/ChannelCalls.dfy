/**
 What the calls of the memory object do, whatever the interleaving: which operations they submit,
 what they leave in the buffer, what they return, and that they end.
 */
module ChannelCalls {
  import opened Channels
  import opened ChannelSafety
  import opened ChannelRuns

  // ----- The calls of a run, and what they ask for -----

  /** The operations that a call asks the agent for. */
  function EventsOf(call: Call): seq<Event> {
    match call
    case Access(w) => [Operate(w)]
    case InstrumentedAccess(w) => [Operate(w)]
    case Wbinvd => [WriteBackAll]
    case SwitchTo(_) => []
    case Flush => []
  }

  function AllEvents(calls: seq<Call>): seq<Event> {
    if calls == [] then [] else AllEvents(calls[..|calls| - 1]) + EventsOf(calls[|calls| - 1])
  }

  /** The calls that begin in a run: a move of the client begins its call if no call is in progress. */
  function Begun(pmc: seq<Event> -> seq<nat>, s: System, moves: seq<Move>): seq<Call>
    decreases |moves|
  {
    if moves == [] then [] else BegunBy(s, moves[0]) + Begun(pmc, Step(pmc, s, moves[0]), moves[1..])
  }

  function BegunBy(s: System, move: Move): seq<Call> {
    if move.ByClient? && s.client.pc == Ready then [move.call] else []
  }

  /** The words of the accesses since the last full batch and the last call of another kind. */
  function Unflushed(calls: seq<Call>): seq<nat> {
    if calls == [] then []
    else
      match calls[|calls| - 1]
      case Access(w) =>
        var words := Unflushed(calls[..|calls| - 1]) + [w];
        if |words| == SLOTS then [] else words
      case _ => []
  }

  /** The channel that the last switch named. */
  function Target(first: nat, calls: seq<Call>): nat {
    if calls == [] then first
    else
      match calls[|calls| - 1]
      case SwitchTo(to) => to
      case _ => Target(first, calls[..|calls| - 1])
  }

  lemma OneMoreCall(first: nat, calls: seq<Call>, call: Call)
    ensures AllEvents(calls + [call]) == AllEvents(calls) + EventsOf(call)
    ensures Target(first, calls + [call]) == match call case SwitchTo(to) => to case _ => Target(first, calls)
    ensures Unflushed(calls + [call])
         == match call
            case Access(w) => if |Unflushed(calls)| + 1 == SLOTS then [] else Unflushed(calls) + [w]
            case _ => []
  {
    assert (calls + [call])[..|calls|] == calls;
  }

  // ----- The client during and between calls -----

  predicate Publishing(pc: ClientPc, rest: Rest) {
    pc == FlushWait(rest) || (pc.Copying? && pc.rest == rest)
  }

  /** Where the client may be during a call. */
  predicate InProgress(call: Call, pc: ClientPc) {
    match call
    case Access(_) => Publishing(pc, Return)
    case InstrumentedAccess(_) => Publishing(pc, Instrument) || pc == Await(Instrument) || pc.Reading?
    case Wbinvd => Publishing(pc, Invalidate) || pc == Await(Invalidate) || pc == PublishWriteBack
    case SwitchTo(to) =>
      Publishing(pc, Switch(to)) || pc == Await(Switch(to)) || pc == WriteSwitch(to) || pc == PublishSwitch(to)
      || pc == SwitchWait
    case Flush => Publishing(pc, Return)
  }

  /** What the calls so far amount to: the last one, the events before and with it, and what it leaves. */
  datatype Log = Log(last: Call, before: seq<Event>, events: seq<Event>, words: seq<nat>, from: nat, to: nat)

  function LogOf(first: nat, calls: seq<Call>): Log
    requires calls != []
  {
    var earlier := calls[..|calls| - 1];
    Log(calls[|calls| - 1], AllEvents(earlier), AllEvents(calls), Unflushed(calls), Target(first, earlier),
        Target(first, calls))
  }

  /** An instrumented access has returned the counters before and after its own operation. */
  predicate Returned(pmc: seq<Event> -> seq<nat>, result: seq<nat>, l: Log) {
    l.last.InstrumentedAccess? ==> result == pmc(l.before) + pmc(l.events)
  }

  /** The state between calls. */
  ghost predicate Settled(pmc: seq<Event> -> seq<nat>, s: System, l: Log) {
    s.client.buffer == l.words && s.active == l.to && Returned(pmc, s.client.result, l)
  }

  /** The state after these calls, the last of them perhaps in progress. */
  ghost predicate LoggedAs(pmc: seq<Event> -> seq<nat>, s: System, l: Log) {
    && s.submitted == l.events == l.before + EventsOf(l.last)
    && if s.client.pc == Ready then Settled(pmc, s, l)
       else
         && InProgress(l.last, s.client.pc) && l.words == []
         && s.active == (if s.client.pc == SwitchWait then l.to else l.from)
         && l.to == (if l.last.SwitchTo? then l.last.channel else l.from)
  }

  ghost predicate Logged(pmc: seq<Event> -> seq<nat>, s: System, first: nat, calls: seq<Call>) {
    if calls == [] then
      s.client.pc == Ready && s.submitted == [] && s.client.buffer == [] && s.active == first
    else LoggedAs(pmc, s, LogOf(first, calls))
  }

  lemma BeginLogged(pmc: seq<Event> -> seq<nat>, s: System, call: Call, l: Log)
    requires s.client.pc == Ready && s.active < |s.channels| && |s.client.buffer| < SLOTS
    requires l.last == call && l.before == s.submitted && l.events == l.before + EventsOf(call) && l.from == s.active
    requires l.to == if call.SwitchTo? then call.channel else l.from
    requires l.words == if call.Access? && |s.client.buffer| + 1 != SLOTS then s.client.buffer + [call.word] else []
    ensures LoggedAs(pmc, ClientStep(s, call), l)
  {}

  lemma ReadLogged(pmc: seq<Event> -> seq<nat>, s: System, call: Call, l: Log)
    requires Inv(pmc, s) && LoggedAs(pmc, s, l) && s.client.pc.Reading?
    ensures LoggedAs(pmc, ClientStep(s, call), l)
  {
    if |s.client.pc.values| == COUNTERS {
      ReadCounters(pmc, s);
      assert s.submitted[..|s.submitted| - 1] == l.before;
    }
  }

  lemma PublishLogged(pmc: seq<Event> -> seq<nat>, s: System, call: Call, l: Log)
    requires s.active < |s.channels| && LoggedAs(pmc, s, l) && (s.client.pc.FlushWait? || s.client.pc.Copying?)
    ensures LoggedAs(pmc, ClientStep(s, call), l)
  {}

  lemma ProceedLogged(pmc: seq<Event> -> seq<nat>, s: System, call: Call, l: Log)
    requires s.active < |s.channels| && LoggedAs(pmc, s, l) && s.client.buffer == []
    requires s.client.pc != Ready && !s.client.pc.Reading? && !s.client.pc.FlushWait? && !s.client.pc.Copying?
    ensures LoggedAs(pmc, ClientStep(s, call), l)
  {}

  lemma BufferInCall(pmc: seq<Event> -> seq<nat>, s: System)
    requires Inv(pmc, s)
    ensures s.active < |s.channels| && (s.client.pc == Ready ==> |s.client.buffer| < SLOTS)
    ensures s.client.pc == Ready || s.client.pc.FlushWait? || s.client.pc.Copying? || s.client.buffer == []
  {}

  lemma LogOfNext(first: nat, calls: seq<Call>, call: Call)
    ensures var l, words := LogOf(first, calls + [call]), Unflushed(calls);
            && l.last == call && l.before == AllEvents(calls) && l.events == l.before + EventsOf(call)
            && l.from == Target(first, calls) && l.to == (if call.SwitchTo? then call.channel else l.from)
            && l.words == if call.Access? && |words| + 1 != SLOTS then words + [call.word] else []
  {
    OneMoreCall(first, calls, call);
    assert (calls + [call])[..|calls|] == calls;
  }

  lemma LoggedStep(pmc: seq<Event> -> seq<nat>, s: System, first: nat, calls: seq<Call>, move: Move)
    requires Inv(pmc, s) && Logged(pmc, s, first, calls)
    ensures Logged(pmc, Step(pmc, s, move), first, calls + BegunBy(s, move))
  {
    assert calls + [] == calls;
    BufferInCall(pmc, s);
    match move
    case ByAgent =>
    case ByClient(call) =>
      if s.client.pc == Ready {
        LogOfNext(first, calls, call);
        BeginLogged(pmc, s, call, LogOf(first, calls + [call]));
      } else if s.client.pc.Reading? {
        ReadLogged(pmc, s, call, LogOf(first, calls));
      } else if s.client.pc.FlushWait? || s.client.pc.Copying? {
        PublishLogged(pmc, s, call, LogOf(first, calls));
      } else {
        ProceedLogged(pmc, s, call, LogOf(first, calls));
      }
  }

  lemma Regroup(xs: seq<Call>, ys: seq<Call>, zs: seq<Call>)
    ensures xs + (ys + zs) == xs + ys + zs
  {}

  lemma {:induction false} BegunSplits(pmc: seq<Event> -> seq<nat>, s: System, moves: seq<Move>, calls: seq<Call>)
    requires moves != []
    ensures calls + Begun(pmc, s, moves)
         == calls + BegunBy(s, moves[0]) + Begun(pmc, Step(pmc, s, moves[0]), moves[1..])
  {
    Regroup(calls, BegunBy(s, moves[0]), Begun(pmc, Step(pmc, s, moves[0]), moves[1..]));
  }

  lemma {:induction false} LoggedRun(
    pmc: seq<Event> -> seq<nat>, s: System, first: nat, calls: seq<Call>, moves: seq<Move>)
    requires ThreeCounters(pmc) && Inv(pmc, s) && Logged(pmc, s, first, calls) && TameRun(pmc, s, moves)
    ensures Inv(pmc, Run(pmc, s, moves))
    ensures Logged(pmc, Run(pmc, s, moves), first, calls + Begun(pmc, s, moves))
    decreases |moves|
  {
    if moves == [] {
      assert calls + [] == calls;
    } else {
      StepKeeps(pmc, s, moves[0]);
      LoggedStep(pmc, s, first, calls, moves[0]);
      LoggedRun(pmc, Step(pmc, s, moves[0]), first, calls + BegunBy(s, moves[0]), moves[1..]);
      BegunSplits(pmc, s, moves, calls);
    }
  }

  lemma StartLogged(pmc: seq<Event> -> seq<nat>, count: nat, first: nat)
    requires first < count
    ensures Inv(pmc, Start(count, first)) && Logged(pmc, Start(count, first), first, [])
  {
    StartOk(pmc, count, first);
  }

  /**
   After every tame run exactly the operations of the calls begun have been submitted, in order.
   Between calls the buffer holds the accesses not yet flushed, the channel is the one last
   switched to, and an instrumented access has returned its own counters.
   */
  lemma {:induction false} CallsSubmit(pmc: seq<Event> -> seq<nat>, count: nat, first: nat, moves: seq<Move>)
    requires ThreeCounters(pmc) && first < count && TameRun(pmc, Start(count, first), moves)
    ensures var t, calls := Run(pmc, Start(count, first), moves), Begun(pmc, Start(count, first), moves);
            && t.submitted == AllEvents(calls) && t.executed <= AllEvents(calls)
            && (t.client.pc == Ready ==>
                  t.client.buffer == Unflushed(calls) && t.active == Target(first, calls)
                  && (calls != [] ==> Returned(pmc, t.client.result, LogOf(first, calls))))
  {
    StartLogged(pmc, count, first);
    LoggedRun(pmc, Start(count, first), first, [], moves);
    assert [] + Begun(pmc, Start(count, first), moves) == Begun(pmc, Start(count, first), moves);
    ExecutedInOrder(pmc, Run(pmc, Start(count, first), moves));
  }

  // ----- Calls end -----

  function RestWork(rest: Rest): nat {
    match rest
    case Return => 0
    case Instrument => COUNTERS + 2
    case Invalidate => 2
    case Switch(_) => 4
  }

  /** The steps of the client until its call ends, waiting aside. */
  function WorkLeft(c: Client): nat {
    match c.pc
    case Ready => 0
    case FlushWait(rest) => |c.buffer| + 2 + RestWork(rest)
    case Copying(k, rest) => (if k < |c.buffer| then |c.buffer| - k else 0) + 1 + RestWork(rest)
    case Await(rest) => RestWork(rest)
    case Reading(values) => (if |values| < COUNTERS then COUNTERS - |values| else 0) + 1
    case PublishWriteBack => 1
    case WriteSwitch(_) => 3
    case PublishSwitch(_) => 2
    case SwitchWait => 1
  }

  lemma WorkBound(pmc: seq<Event> -> seq<nat>, s: System)
    requires Inv(pmc, s)
    ensures WorkLeft(s.client) <= SLOTS + COUNTERS + 4 && (WorkLeft(s.client) == 0 <==> s.client.pc == Ready)
  {}

  lemma LocalWork(s: ClientSide, call: Call)
    requires !s.client.pc.Ready? && !s.client.pc.PublishSwitch? && s.client.pc != Await(Return)
    requires s.client.pc.FlushWait? || s.client.pc.Await? || s.client.pc == SwitchWait || Idle(s.channel.control)
    requires s.client.pc.Copying? ==> s.client.pc.copied <= |s.client.buffer|
    requires s.client.pc.Reading? ==> |s.client.pc.values| <= COUNTERS
    ensures WorkLeft(ClientLocal(s, call).client)
         == if Idle(s.channel.control) then WorkLeft(s.client) - 1 else WorkLeft(s.client)
  {}

  /** On an idle channel each step of the client is one less to go; on a busy one it waits. */
  lemma WorkStep(pmc: seq<Event> -> seq<nat>, s: System, call: Call)
    requires Inv(pmc, s) && s.client.pc != Ready
    ensures WorkLeft(ClientStep(s, call).client)
         == if s.channels[s.active].control == 0 then WorkLeft(s.client) - 1 else WorkLeft(s.client)
  {
    IdleMeansFree(pmc, s.channels[s.active], s.agent, s.executed);
    if !s.client.pc.PublishSwitch? { LocalWork(ClientView(s), call); }
  }

  /** How often the client moves while its channel is idle. */
  function IdleMoves(pmc: seq<Event> -> seq<nat>, s: System, moves: seq<Move>): nat
    decreases |moves|
  {
    if moves == [] then 0
    else
      (if moves[0].ByClient? && s.active < |s.channels| && s.channels[s.active].control == 0 then 1 else 0)
      + IdleMoves(pmc, Step(pmc, s, moves[0]), moves[1..])
  }

  /** However client and agent interleave, no call makes the client move more than seventeen times, waiting aside. */
  lemma {:induction false} CallBounded(pmc: seq<Event> -> seq<nat>, s: System, moves: seq<Move>)
    requires ThreeCounters(pmc) && Inv(pmc, s) && TameRun(pmc, s, moves) && InCall(pmc, s, moves)
    ensures IdleMoves(pmc, s, moves) < WorkLeft(s.client) <= SLOTS + COUNTERS + 4
    decreases |moves|
  {
    WorkBound(pmc, s);
    if moves != [] {
      StepKeeps(pmc, s, moves[0]);
      if moves[0].ByClient? { WorkStep(pmc, s, moves[0].call); }
      CallBounded(pmc, Step(pmc, s, moves[0]), moves[1..]);
    }
  }

  /** Where a call in progress will switch to, if it will. */
  predicate Heading(pc: ClientPc, to: nat) {
    pc == WriteSwitch(to) || pc == PublishSwitch(to)
    || ((pc.FlushWait? || pc.Copying? || pc.Await?) && pc.rest == Switch(to))
  }

  /** The call in progress does not switch to a channel that is not there, or to the client's own. */
  ghost predicate Leaves(s: System) {
    forall to: nat :: Heading(s.client.pc, to) ==> s.active != to < |s.channels|
  }

  lemma LocalHeading(s: ClientSide, call: Call, to: nat)
    requires s.client.pc != Ready
    ensures Heading(ClientLocal(s, call).client.pc, to) ==> Heading(s.client.pc, to)
    ensures ClientLocal(s, call).submitted == s.submitted
  {}

  lemma StillLeaves(s: System, call: Call)
    requires s.active < |s.channels| && s.client.pc != Ready && Leaves(s)
    ensures Leaves(ClientStep(s, call))
  {
    if !s.client.pc.PublishSwitch? {
      forall to: nat | Heading(ClientStep(s, call).client.pc, to) ensures Heading(s.client.pc, to) {
        LocalHeading(ClientView(s), call, to);
      }
    }
  }

  lemma DrainedRoute(pmc: seq<Event> -> seq<nat>, s: System)
    requires Inv(pmc, s) && Rank(s) == 0
    ensures s.route == [s.active] && (Leaves(s) ==> Tame(s, ByClient(Flush)))
  {
    if |s.route| > 1 { RequestCost(pmc, s); }
    assert s.route == [s.route[0]];
    if s.client.pc.PublishSwitch? { assert Heading(s.client.pc, s.client.pc.to); }
  }

  function ClientMoves(moves: seq<Move>): nat {
    if moves == [] then 0 else (if moves[0].ByClient? then 1 else 0) + ClientMoves(moves[1..])
  }

  lemma {:induction false} ClientMovesAdd(moves: seq<Move>, more: seq<Move>)
    ensures ClientMoves(moves + more) == ClientMoves(moves) + ClientMoves(more)
  {
    if moves == [] {
      assert moves + more == more;
    } else {
      assert (moves + more)[1..] == moves[1..] + more;
      ClientMovesAdd(moves[1..], more);
    }
  }

  lemma {:induction false} NoClientMoves(k: nat)
    ensures ClientMoves(Repeat(k)) == 0
  {
    if k > 0 {
      assert Repeat(k)[1..] == Repeat(k - 1);
      NoClientMoves(k - 1);
    }
  }

  lemma {:induction false} BegunAdds(pmc: seq<Event> -> seq<nat>, s: System, moves: seq<Move>, more: seq<Move>)
    ensures Begun(pmc, s, moves + more) == Begun(pmc, s, moves) + Begun(pmc, Run(pmc, s, moves), more)
    decreases |moves|
  {
    if moves == [] {
      assert moves + more == more;
    } else {
      assert (moves + more)[1..] == moves[1..] + more;
      BegunAdds(pmc, Step(pmc, s, moves[0]), moves[1..], more);
    }
  }

  lemma {:induction false} AgentBeginsNothing(pmc: seq<Event> -> seq<nat>, s: System, k: nat)
    ensures Begun(pmc, s, Repeat(k)) == []
    decreases k
  {
    if k > 0 {
      assert Repeat(k)[1..] == Repeat(k - 1);
      AgentBeginsNothing(pmc, AgentStep(pmc, s), k - 1);
    }
  }

  lemma ThenMove(pmc: seq<Event> -> seq<nat>, s: System, k: nat, call: Call)
    requires TameRun(pmc, s, Repeat(k)) && Tame(Run(pmc, s, Repeat(k)), ByClient(call))
    requires Run(pmc, s, Repeat(k)).client.pc != Ready
    ensures var moves := Repeat(k) + [ByClient(call)];
            && TameRun(pmc, s, moves) && Run(pmc, s, moves) == ClientStep(Run(pmc, s, Repeat(k)), call)
            && ClientMoves(moves) == 1 && Begun(pmc, s, moves) == []
  {
    var drain, move := Repeat(k), ByClient(call);
    RunAdds(pmc, s, drain, [move]);
    assert Run(pmc, Run(pmc, s, drain), [move]) == Run(pmc, ClientStep(Run(pmc, s, drain), call), []);
    TameRunAdds(pmc, s, drain, [move]);
    ClientMovesAdd(drain, [move]);
    NoClientMoves(k);
    BegunAdds(pmc, s, drain, [move]);
    AgentBeginsNothing(pmc, s, k);
  }

  /** What is left after the agent has drained the channels and the client has made one move. */
  lemma DrainAndMove(pmc: seq<Event> -> seq<nat>, s: System) returns (moves: seq<Move>)
    requires ThreeCounters(pmc) && Inv(pmc, s) && s.client.pc != Ready && Leaves(s)
    ensures var t := Run(pmc, s, moves);
            && TameRun(pmc, s, moves) && Inv(pmc, t) && Leaves(t) && WorkLeft(t.client) < WorkLeft(s.client)
    ensures ClientMoves(moves) == 1 && Begun(pmc, s, moves) == []
  {
    Drains(pmc, s);
    Drained(pmc, s, Rank(s));
    var t := Run(pmc, s, Repeat(Rank(s)));
    DrainedRoute(pmc, t);
    WorkBound(pmc, t);
    WorkStep(pmc, t, Flush);
    StillLeaves(t, Flush);
    ClientStepKeeps(pmc, t, Flush);
    ThenMove(pmc, s, Rank(s), Flush);
    moves := Repeat(Rank(s)) + [ByClient(Flush)];
  }

  lemma RunsOn(pmc: seq<Event> -> seq<nat>, s: System, moves: seq<Move>, more: seq<Move>)
    requires TameRun(pmc, s, moves) && TameRun(pmc, Run(pmc, s, moves), more)
    ensures TameRun(pmc, s, moves + more) && Run(pmc, s, moves + more) == Run(pmc, Run(pmc, s, moves), more)
    ensures Begun(pmc, s, moves + more) == Begun(pmc, s, moves) + Begun(pmc, Run(pmc, s, moves), more)
  {
    RunAdds(pmc, s, moves, more);
    TameRunAdds(pmc, s, moves, more);
    BegunAdds(pmc, s, moves, more);
  }

  /**
   Every call ends: from any state in which it does not switch to the client's own channel or to
   none, some moves, at most seventeen of them the client's, end it, and no other call begins.
   */
  lemma {:induction false} CallEnds(pmc: seq<Event> -> seq<nat>, s: System) returns (moves: seq<Move>)
    requires ThreeCounters(pmc) && Inv(pmc, s) && Leaves(s)
    ensures TameRun(pmc, s, moves) && Run(pmc, s, moves).client.pc == Ready
    ensures ClientMoves(moves) <= WorkLeft(s.client) <= SLOTS + COUNTERS + 4 && Begun(pmc, s, moves) == []
    decreases WorkLeft(s.client)
  {
    WorkBound(pmc, s);
    moves := [];
    if s.client.pc != Ready {
      var first := DrainAndMove(pmc, s);
      var rest := CallEnds(pmc, Run(pmc, s, first));
      moves := first + rest;
      RunsOn(pmc, s, first, rest);
      ClientMovesAdd(first, rest);
    }
  }

  /** The call in progress ends, and a flush begins and ends. */
  lemma EndAndFlush(pmc: seq<Event> -> seq<nat>, s: System) returns (moves: seq<Move>)
    requires ThreeCounters(pmc) && Inv(pmc, s) && Leaves(s)
    ensures TameRun(pmc, s, moves) && Run(pmc, s, moves).client.pc == Ready && Begun(pmc, s, moves) == [Flush]
  {
    var end := CallEnds(pmc, s);
    RunKeeps(pmc, s, end);
    var t := Run(pmc, s, end);
    var flushed := FlushFrom(pmc, t);
    moves := end + flushed;
    RunsOn(pmc, s, end, flushed);
  }

  lemma FlushFrom(pmc: seq<Event> -> seq<nat>, s: System) returns (moves: seq<Move>)
    requires ThreeCounters(pmc) && Inv(pmc, s) && s.client.pc == Ready
    ensures TameRun(pmc, s, moves) && Run(pmc, s, moves).client.pc == Ready && Begun(pmc, s, moves) == [Flush]
  {
    ClientStepKeeps(pmc, s, Flush);
    var t := ClientStep(s, Flush);
    assert Leaves(t);
    var rest := CallEnds(pmc, t);
    moves := [ByClient(Flush)] + rest;
    assert moves[1..] == rest;
  }

  // ----- Everything called for is executed -----

  /** After a call of flush the buffer is empty. */
  lemma FlushEmpties(calls: seq<Call>)
    ensures Unflushed(calls + [Flush]) == [] && AllEvents(calls + [Flush]) == AllEvents(calls)
  {
    OneMoreCall(0, calls, Flush);
  }

  /** Once no call is in progress and none of them is left in the buffer, draining executes all calls. */
  lemma FlushedIsExecuted(pmc: seq<Event> -> seq<nat>, s: System, first: nat, calls: seq<Call>)
    requires ThreeCounters(pmc) && Inv(pmc, s) && Logged(pmc, s, first, calls)
    requires s.client.pc == Ready && Unflushed(calls) == []
    ensures Rank(s) >= 0 && TameRun(pmc, s, Repeat(Rank(s))) && Begun(pmc, s, Repeat(Rank(s))) == []
    ensures Run(pmc, s, Repeat(Rank(s))).executed == AllEvents(calls)
  {
    Drains(pmc, s);
    Drained(pmc, s, Rank(s));
    AgentBeginsNothing(pmc, s, Rank(s));
  }

  /** From any logged state: the call in progress ends, a flush is called and ends, the agent drains. */
  lemma DeliversFrom(pmc: seq<Event> -> seq<nat>, s: System, first: nat, calls: seq<Call>) returns (more: seq<Move>)
    requires ThreeCounters(pmc) && Inv(pmc, s) && Logged(pmc, s, first, calls) && Leaves(s)
    ensures TameRun(pmc, s, more) && Begun(pmc, s, more) == [Flush]
    ensures Run(pmc, s, more).executed == AllEvents(calls)
  {
    var end := EndAndFlush(pmc, s);
    var t := Run(pmc, s, end);
    LoggedRun(pmc, s, first, calls, end);
    FlushEmpties(calls);
    FlushedIsExecuted(pmc, t, first, calls + [Flush]);
    more := end + Repeat(Rank(t));
    RunsOn(pmc, s, end, Repeat(Rank(t)));
  }

  /**
   From wherever a tame run has come, the call in progress can end, be followed by a flush, and the
   agent then executes exactly the operations of all calls begun, in order.
   */
  lemma {:induction false} Delivers(pmc: seq<Event> -> seq<nat>, count: nat, first: nat, moves: seq<Move>)
    returns (more: seq<Move>)
    requires ThreeCounters(pmc) && first < count && TameRun(pmc, Start(count, first), moves)
    requires Leaves(Run(pmc, Start(count, first), moves))
    ensures TameRun(pmc, Start(count, first), moves + more)
    ensures Begun(pmc, Start(count, first), moves + more) == Begun(pmc, Start(count, first), moves) + [Flush]
    ensures Run(pmc, Start(count, first), moves + more).executed == AllEvents(Begun(pmc, Start(count, first), moves))
  {
    StartLogged(pmc, count, first);
    more := DeliversAfter(pmc, Start(count, first), first, moves);
  }

  lemma DeliversAfter(pmc: seq<Event> -> seq<nat>, s: System, first: nat, moves: seq<Move>) returns (more: seq<Move>)
    requires ThreeCounters(pmc) && Inv(pmc, s) && Logged(pmc, s, first, []) && TameRun(pmc, s, moves)
    requires Leaves(Run(pmc, s, moves))
    ensures TameRun(pmc, s, moves + more) && Begun(pmc, s, moves + more) == Begun(pmc, s, moves) + [Flush]
    ensures Run(pmc, s, moves + more).executed == AllEvents(Begun(pmc, s, moves))
  {
    LoggedRun(pmc, s, first, [], moves);
    assert [] + Begun(pmc, s, moves) == Begun(pmc, s, moves);
    more := DeliversFrom(pmc, Run(pmc, s, moves), first, Begun(pmc, s, moves));
    RunsOn(pmc, s, moves, more);
  }
}
