/**
 Whole runs of the channel protocol: order, ownership of the slots, the counters that an
 instrumented access reads, and that no wait of the client is for ever.
 */
module ChannelRuns {
  import opened Channels
  import opened ChannelSafety

  ghost predicate Inv(pmc: seq<Event> -> seq<nat>, s: System) {
    && RouteOk(s.channels, s.route, s.agent == ReadSwitch)
    && Last(s.route) == s.active && s.route[0] == s.served
    && (s.agent == SwitchOut ==> |s.route| > 1)
    && (|s.route| > 1 ==> Between(s.agent))
    && Local(pmc, s.client, s.channels[s.active], s.agent, s.submitted, s.executed)
  }

  /** The agent is not at work on a request of the client's. */
  predicate Between(agent: AgentPc) {
    agent == Poll || agent == SwitchOut || agent == ReadSwitch
  }

  /** A switch leads to an existing channel that the agent has not still to leave. */
  predicate Tame(s: System, move: Move) {
    move.ByClient? && s.client.pc.PublishSwitch? ==> s.client.pc.to < |s.channels| && s.client.pc.to !in s.route
  }

  // ----- Single steps -----

  lemma StartOk(pmc: seq<Event> -> seq<nat>, count: nat, first: nat)
    requires first < count
    ensures Inv(pmc, Start(count, first))
  {}

  /** The client moves from an idle channel to another. */
  lemma MoveKeeps(
    pmc: seq<Event> -> seq<nat>, c: Client, ch: Channel, ch': Channel, agent: AgentPc, submitted: seq<Event>,
    executed: seq<Event>)
    requires Local(pmc, c, ch, agent, submitted, executed) && c.pc.PublishSwitch?
    requires |ch'.data| == SLOTS && ch'.control == 0
    ensures Between(agent) && Local(pmc, c.(pc := SwitchWait), ch', agent, submitted, executed)
  {
    IdleMeansFree(pmc, ch, agent, executed);
  }

  lemma PublishSwitchKeeps(pmc: seq<Event> -> seq<nat>, s: System, call: Call)
    requires Inv(pmc, s) && s.client.pc.PublishSwitch? && Tame(s, ByClient(call))
    ensures Inv(pmc, ClientStep(s, call))
  {
    var to := s.client.pc.to;
    assert to != Last(s.route) && s.channels[to].control == 0;
    MoveKeeps(pmc, s.client, s.channels[s.active], s.channels[to], s.agent, s.submitted, s.executed);
    Extend(s.channels, s.route, s.agent == ReadSwitch, to);
  }

  lemma ClientStepKeeps(pmc: seq<Event> -> seq<nat>, s: System, call: Call)
    requires Inv(pmc, s) && Tame(s, ByClient(call))
    ensures Inv(pmc, ClientStep(s, call))
  {
    if s.client.pc.PublishSwitch? {
      PublishSwitchKeeps(pmc, s, call);
    } else {
      var v := ClientLocal(ClientView(s), call);
      ClientKeeps(pmc, ClientView(s), call, s.agent, s.executed);
      ActiveWrite(s.channels, s.route, s.agent == ReadSwitch, v.channel);
    }
  }

  /** On the way along the route the agent only switches: it finds the request to do so ... */
  lemma FindSwitch(pmc: seq<Event> -> seq<nat>, s: System)
    requires Inv(pmc, s) && |s.route| > 1 && s.agent == Poll
    ensures AgentStep(pmc, s) == s.(agent := SwitchOut) && Inv(pmc, AgentStep(pmc, s))
  {
    assert Leads(s.channels[s.route[0]], s.route[1], false);
    assert s.channels[s.served := s.channels[s.served]] == s.channels;
  }

  /** ... and marks the channel idle. */
  lemma LeaveKeeps(pmc: seq<Event> -> seq<nat>, s: System)
    requires Inv(pmc, s) && s.agent == SwitchOut
    ensures var s' := AgentStep(pmc, s);
            && Inv(pmc, s') && s'.agent == ReadSwitch && s'.executed == s.executed
            && s'.channels[s'.active] == s.channels[s.active] && s'.route == s.route
  {
    Leave(s.channels, s.route);
  }

  lemma ArriveKeeps(pmc: seq<Event> -> seq<nat>, s: System)
    requires Inv(pmc, s) && s.agent == ReadSwitch
    ensures Inv(pmc, AgentStep(pmc, s))
    ensures AgentStep(pmc, s) == s.(agent := Poll, served := s.route[1], route := s.route[1..])
  {
    Arrive(s.channels, s.route);
  }

  lemma ServeStepKeeps(pmc: seq<Event> -> seq<nat>, s: System)
    requires ThreeCounters(pmc) && Inv(pmc, s) && |s.route| == 1
    ensures Inv(pmc, AgentStep(pmc, s))
  {
    var v := AgentLocal(pmc, AgentView(s));
    AgentKeeps(pmc, s.client, AgentView(s), s.submitted);
    ActiveWrite(s.channels, s.route, false, v.channel);
  }

  lemma StepKeeps(pmc: seq<Event> -> seq<nat>, s: System, move: Move)
    requires ThreeCounters(pmc) && Inv(pmc, s) && Tame(s, move)
    ensures Inv(pmc, Step(pmc, s, move))
  {
    match move
    case ByClient(call) => ClientStepKeeps(pmc, s, call);
    case ByAgent =>
      if s.agent == ReadSwitch {
        ArriveKeeps(pmc, s);
      } else if s.agent == SwitchOut {
        LeaveKeeps(pmc, s);
      } else if |s.route| > 1 {
        FindSwitch(pmc, s);
      } else {
        ServeStepKeeps(pmc, s);
      }
  }

  // ----- Runs -----

  ghost predicate TameRun(pmc: seq<Event> -> seq<nat>, s: System, moves: seq<Move>)
    decreases |moves|
  {
    moves == [] || (Tame(s, moves[0]) && TameRun(pmc, Step(pmc, s, moves[0]), moves[1..]))
  }

  lemma {:induction false} RunKeeps(pmc: seq<Event> -> seq<nat>, s: System, moves: seq<Move>)
    requires ThreeCounters(pmc) && Inv(pmc, s) && TameRun(pmc, s, moves)
    ensures Inv(pmc, Run(pmc, s, moves))
    decreases |moves|
  {
    if moves != [] {
      StepKeeps(pmc, s, moves[0]);
      RunKeeps(pmc, Step(pmc, s, moves[0]), moves[1..]);
    }
  }

  lemma {:induction false} RunAdds(pmc: seq<Event> -> seq<nat>, s: System, moves: seq<Move>, more: seq<Move>)
    ensures Run(pmc, s, moves + more) == Run(pmc, Run(pmc, s, moves), more)
    decreases |moves|
  {
    if moves == [] {
      assert moves + more == more;
    } else {
      assert (moves + more)[1..] == moves[1..] + more;
      RunAdds(pmc, Step(pmc, s, moves[0]), moves[1..], more);
    }
  }

  lemma {:induction false} TameRunAdds(pmc: seq<Event> -> seq<nat>, s: System, moves: seq<Move>, more: seq<Move>)
    requires TameRun(pmc, s, moves) && TameRun(pmc, Run(pmc, s, moves), more)
    ensures TameRun(pmc, s, moves + more)
    decreases |moves|
  {
    if moves == [] {
      assert moves + more == more;
    } else {
      assert (moves + more)[1..] == moves[1..] + more;
      TameRunAdds(pmc, Step(pmc, s, moves[0]), moves[1..], more);
    }
  }

  /**
   After every tame run the submitted operations are, in order, the executed ones, those in
   flight on the client's channel and those in its buffer; the agent has not been told to exit.
   */
  lemma {:induction false} InOrder(pmc: seq<Event> -> seq<nat>, count: nat, first: nat, moves: seq<Move>)
    requires ThreeCounters(pmc) && first < count && TameRun(pmc, Start(count, first), moves)
    ensures var s := Run(pmc, Start(count, first), moves);
            && s.active < |s.channels| && |s.channels[s.active].data| == SLOTS
            && s.submitted == s.executed + InFlight(s.channels[s.active], s.agent) + Buffered(s.client)
            && s.agent != Exited
  {
    StartOk(pmc, count, first);
    RunKeeps(pmc, Start(count, first), moves);
  }

  /** The agent executes the next submitted operation or none. */
  lemma ExecutesNext(pmc: seq<Event> -> seq<nat>, s: System, move: Move)
    requires ThreeCounters(pmc) && Inv(pmc, s) && Tame(s, move)
    ensures var s' := Step(pmc, s, move);
            s'.executed == s.executed
            || (|s.executed| < |s.submitted| && s'.executed == s.executed + [s.submitted[|s.executed|]])
  {
    if move == ByAgent {
      StepKeeps(pmc, s, move);
      ExecutedInOrder(pmc, AgentStep(pmc, s));
      AgentExecutes(pmc, s);
    }
  }

  lemma ExecutedInOrder(pmc: seq<Event> -> seq<nat>, s: System)
    requires Inv(pmc, s)
    ensures s.executed <= s.submitted
  {}

  lemma AgentExecutes(pmc: seq<Event> -> seq<nat>, s: System)
    ensures var s' := AgentStep(pmc, s);
            s'.submitted == s.submitted && s.executed <= s'.executed && |s'.executed| <= |s.executed| + 1
  {}

  // ----- Who may write a slot -----

  /**
   A step changes slots of one channel only: the client those of its own channel, which is idle
   and which the agent neither serves nor has still to read; the agent those of a batch.
   */
  lemma SlotsOwned(pmc: seq<Event> -> seq<nat>, s: System, move: Move, c: nat)
    requires Inv(pmc, s) && c < |s.channels|
    requires |Step(pmc, s, move).channels| == |s.channels| && Step(pmc, s, move).channels[c].data != s.channels[c].data
    ensures match move
            case ByClient(_) =>
              c == s.active && s.channels[c].control == 0 && Between(s.agent) && (c == s.served ==> s.agent == Poll)
            case ByAgent => c == s.served && Decode(s.channels[c].control).Batch? && s.agent.Reporting?
  {
    match move
    case ByClient(call) => ClientSlots(pmc, s, call, c);
    case ByAgent => AgentSlots(pmc, s, c);
  }

  lemma ClientSlots(pmc: seq<Event> -> seq<nat>, s: System, call: Call, c: nat)
    requires Inv(pmc, s) && c < |s.channels| == |ClientStep(s, call).channels|
    requires ClientStep(s, call).channels[c].data != s.channels[c].data
    ensures c == s.active && s.channels[c].control == 0 && Between(s.agent) && (c == s.served ==> s.agent == Poll)
  {
    IdleMeansFree(pmc, s.channels[s.active], s.agent, s.executed);
    assert |s.route| > 1 ==> s.route[0] != Last(s.route);
  }

  lemma AgentSlots(pmc: seq<Event> -> seq<nat>, s: System, c: nat)
    requires Inv(pmc, s) && c < |s.channels| == |AgentStep(pmc, s).channels|
    requires AgentStep(pmc, s).channels[c].data != s.channels[c].data
    ensures c == s.served && Decode(s.channels[c].control).Batch? && s.agent.Reporting?
  {}

  // ----- Instrumented accesses -----

  /** The client is inside a call all the time. */
  ghost predicate InCall(pmc: seq<Event> -> seq<nat>, s: System, moves: seq<Move>)
    decreases |moves|
  {
    s.client.pc != Ready && (moves == [] || InCall(pmc, Step(pmc, s, moves[0]), moves[1..]))
  }

  lemma SubmitsOnlyWhenReady(pmc: seq<Event> -> seq<nat>, s: System, move: Move)
    requires s.client.pc != Ready
    ensures Step(pmc, s, move).submitted == s.submitted
  {}

  lemma {:induction false} DuringCall(pmc: seq<Event> -> seq<nat>, s: System, moves: seq<Move>)
    requires ThreeCounters(pmc) && Inv(pmc, s) && TameRun(pmc, s, moves) && InCall(pmc, s, moves)
    ensures var t := Run(pmc, s, moves);
            Inv(pmc, t) && t.submitted == s.submitted && t.client.pc != Ready
    decreases |moves|
  {
    if moves != [] {
      StepKeeps(pmc, s, moves[0]);
      SubmitsOnlyWhenReady(pmc, s, moves[0]);
      DuringCall(pmc, Step(pmc, s, moves[0]), moves[1..]);
    }
  }

  /** When the client has read the counters, everything submitted is executed and they are the last one's. */
  lemma ReadCounters(pmc: seq<Event> -> seq<nat>, s: System)
    requires Inv(pmc, s) && s.client.pc.Reading? && |s.client.pc.values| == COUNTERS
    ensures s.executed == s.submitted && s.submitted != [] && s.client.pc.values == Measured(pmc, s.submitted)
  {
    IdleMeansFree(pmc, s.channels[s.active], s.agent, s.executed);
  }

  /**
   An instrumented access returns the counters before and after its own operation, however the
   agent's steps fall and whatever was buffered or pending when it was called.
   */
  lemma {:induction false} InstrumentedExact(pmc: seq<Event> -> seq<nat>, s: System, w: nat, moves: seq<Move>)
    requires ThreeCounters(pmc) && Inv(pmc, s) && s.client.pc == Ready
    requires var begun := ClientStep(s, InstrumentedAccess(w));
             TameRun(pmc, begun, moves) && InCall(pmc, begun, moves)
    requires var pc := Run(pmc, ClientStep(s, InstrumentedAccess(w)), moves).client.pc;
             pc.Reading? && |pc.values| == COUNTERS
    ensures var t := Run(pmc, ClientStep(s, InstrumentedAccess(w)), moves);
            var returned := ClientStep(t, Flush).client;
            returned.pc == Ready && returned.result == pmc(s.submitted) + pmc(s.submitted + [Operate(w)])
  {
    var begun := ClientStep(s, InstrumentedAccess(w));
    ClientStepKeeps(pmc, s, InstrumentedAccess(w));
    DuringCall(pmc, begun, moves);
    ReadCounters(pmc, Run(pmc, begun, moves));
    assert begun.submitted == s.submitted + [Operate(w)];
    assert begun.submitted[..|s.submitted|] == s.submitted;
  }

  // ----- No wait is for ever -----

  /** The agent's steps for a request on a channel. */
  function Cost(control: nat): nat {
    match Decode(control)
    case WriteBack => 3
    case Batch(n) => n + 8
    case _ => 0
  }

  /** The steps that the agent has yet to make until there is nothing for it to do. */
  function Rank(s: System): int
    requires s.active < |s.channels|
  {
    3 * (|s.route| - 1) +
    match s.agent
    case Serving(i, n) => n - i + 7
    case Reporting(_, j) => 7 - j
    case RunWriteBack => 2
    case WriteBackDone => 1
    case SwitchOut => Cost(s.channels[s.active].control) - 1
    case ReadSwitch => Cost(s.channels[s.active].control) - 2
    case _ => Cost(s.channels[s.active].control)
  }

  lemma PollProgress(pmc: seq<Event> -> seq<nat>, s: System)
    requires Inv(pmc, s) && |s.route| == 1 && s.agent == Poll
    ensures Rank(s) >= 0 && (Rank(s) == 0 ==> s.channels[s.active].control == 0)
    ensures Rank(s) > 0 ==> Rank(AgentStep(pmc, s)) == Rank(s) - 1
  {}

  lemma WorkProgress(pmc: seq<Event> -> seq<nat>, s: System)
    requires Inv(pmc, s) && |s.route| == 1 && s.agent != Poll
    ensures Rank(s) > 0 && Rank(AgentStep(pmc, s)) == Rank(s) - 1
  {}

  lemma SwitchProgress(pmc: seq<Event> -> seq<nat>, s: System)
    requires Inv(pmc, s) && |s.route| > 1
    ensures var s' := AgentStep(pmc, s);
            Inv(pmc, s') && Rank(s') == Rank(s) - 1
  {
    if s.agent == ReadSwitch {
      ArriveKeeps(pmc, s);
    } else if s.agent == SwitchOut {
      LeaveKeeps(pmc, s);
    } else {
      FindSwitch(pmc, s);
    }
  }

  lemma RequestCost(pmc: seq<Event> -> seq<nat>, s: System)
    requires Inv(pmc, s) && |s.route| > 1
    ensures Rank(s) > 0
  {}

  /** Each step of the agent brings it one step nearer, until everything published is executed. */
  lemma AgentProgress(pmc: seq<Event> -> seq<nat>, s: System)
    requires ThreeCounters(pmc) && Inv(pmc, s)
    ensures Rank(s) >= 0
    ensures Rank(s) == 0 ==> s.channels[s.active].control == 0 && s.submitted == s.executed + Buffered(s.client)
    ensures Rank(s) > 0 ==> var s' := AgentStep(pmc, s);
                            Inv(pmc, s') && Rank(s') == Rank(s) - 1
  {
    if |s.route| > 1 {
      RequestCost(pmc, s);
      SwitchProgress(pmc, s);
    } else {
      ServeStepKeeps(pmc, s);
      if s.agent == Poll { PollProgress(pmc, s); } else { WorkProgress(pmc, s); }
    }
  }

  function Repeat(k: nat): (moves: seq<Move>)
    ensures |moves| == k && forall i :: 0 <= i < k ==> moves[i] == ByAgent
  {
    seq(k, i => ByAgent)
  }

  /** Left alone, the agent drains the channels: the client's channel becomes idle, so every wait ends. */
  lemma {:induction false} Drains(pmc: seq<Event> -> seq<nat>, s: System)
    requires ThreeCounters(pmc) && Inv(pmc, s)
    ensures Rank(s) >= 0
    ensures var t := Run(pmc, s, Repeat(Rank(s)));
            && t.active == s.active < |t.channels| && t.channels[t.active].control == 0
            && t.client == s.client && t.submitted == s.submitted
            && t.executed + Buffered(t.client) == t.submitted
    decreases if s.active < |s.channels| then Rank(s) else 0
  {
    AgentProgress(pmc, s);
    if Rank(s) > 0 {
      var s' := AgentStep(pmc, s);
      Drains(pmc, s');
      assert Repeat(Rank(s))[1..] == Repeat(Rank(s'));
    }
  }

  /** Draining keeps the invariant, and leaves the agent with nothing to do. */
  lemma {:induction false} Drained(pmc: seq<Event> -> seq<nat>, s: System, k: nat)
    requires ThreeCounters(pmc) && Inv(pmc, s) && k <= Rank(s)
    ensures var t := Run(pmc, s, Repeat(k));
            Inv(pmc, t) && Rank(t) == Rank(s) - k && |t.channels| == |s.channels|
    ensures TameRun(pmc, s, Repeat(k))
    decreases k
  {
    if k > 0 {
      AgentProgress(pmc, s);
      Drained(pmc, AgentStep(pmc, s), k - 1);
      assert Repeat(k)[1..] == Repeat(k - 1);
    }
  }
}
