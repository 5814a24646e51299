/**
 What every interleaving of client and agent keeps, as long as a switch never leads back to a
 channel that the agent has yet to leave.
 */
module ChannelSafety {
  import opened Collections
  import opened Channels

  function Operations(words: seq<nat>): (r: seq<Event>)
    ensures |r| == |words| && forall i :: 0 <= i < |r| ==> r[i] == Operate(words[i])
  {
    seq(|words|, i requires 0 <= i < |words| => Operate(words[i]))
  }

  // ----- One channel -----

  /** A request that asks the agent for work: idle, a batch that fits the slots, or a write-back. */
  predicate Request(control: nat) {
    Decode(control) == NoCommand || control == Encode(WBINVD)
    || (Decode(control).Batch? && control == Encode(Decode(control).count))
  }

  /** Published operations that the agent has not executed yet. */
  function InFlight(ch: Channel, agent: AgentPc): seq<Event>
    requires |ch.data| == SLOTS
  {
    match agent
    case Serving(i, n) => if i <= n <= SLOTS then Operations(ch.data[i..n]) else []
    case Reporting(_, _) => []
    case WriteBackDone => []
    case _ =>
      match Decode(ch.control)
      case WriteBack => [WriteBackAll]
      case Batch(n) => Operations(ch.data[..n])
      case _ => []
  }

  /** Operations that the client has not published yet. */
  function Buffered(c: Client): seq<Event> {
    Operations(c.buffer) + if Invalidating(c.pc) then [WriteBackAll] else []
  }

  predicate Invalidating(pc: ClientPc) {
    pc == PublishWriteBack
    || ((pc.FlushWait? || pc.Copying? || pc.Await?) && pc.rest == Invalidate)
  }

  /** The agent's position fits the request on the client's channel. */
  ghost predicate Served(pmc: seq<Event> -> seq<nat>, ch: Channel, agent: AgentPc, executed: seq<Event>)
    requires |ch.data| == SLOTS
  {
    match agent
    case Serving(i, n) => i < n <= SLOTS && ch.control == Encode(n)
    case Reporting(values, j) =>
      && j <= COUNTERS && Request(ch.control) && Decode(ch.control).Batch?
      && executed != [] && values == Measured(pmc, executed) && |values| == COUNTERS && ch.data[..j] == values[..j]
    case RunWriteBack => ch.control == Encode(WBINVD)
    case WriteBackDone => ch.control == Encode(WBINVD)
    case Exited => false
    case _ => Request(ch.control)
  }

  /** The first slots hold the counters of the last event. */
  ghost predicate Reported(pmc: seq<Event> -> seq<nat>, ch: Channel, executed: seq<Event>)
    requires |ch.data| == SLOTS
  {
    executed != [] && ch.data[..COUNTERS] == Measured(pmc, executed)
  }

  /** The client's position, and that it owns the slots wherever it uses them. */
  ghost predicate ClientOk(pmc: seq<Event> -> seq<nat>, c: Client, ch: Channel, executed: seq<Event>)
    requires |ch.data| == SLOTS
  {
    match c.pc
    case Ready => |c.buffer| < SLOTS
    case FlushWait(_) => 0 < |c.buffer| <= SLOTS
    case Copying(k, _) => 0 < |c.buffer| <= SLOTS && k <= |c.buffer| && ch.control == 0 && ch.data[..k] == c.buffer[..k]
    case Await(rest) =>
      && c.buffer == [] && rest != Return
      && (rest == Instrument ==> ch.control != Encode(WBINVD) && (ch.control == 0 ==> Reported(pmc, ch, executed)))
    case Reading(values) =>
      && c.buffer == [] && ch.control == 0 && Reported(pmc, ch, executed)
      && |values| <= COUNTERS && values == ch.data[..|values|]
    case PublishWriteBack => c.buffer == [] && ch.control == 0
    case WriteSwitch(_) => c.buffer == [] && ch.control == 0
    case PublishSwitch(to) => c.buffer == [] && ch.control == 0 && ch.data[0] == to
    case SwitchWait => c.buffer == []
  }

  /** The client, its channel, and the agent's position if it serves that channel. */
  ghost predicate Local(
    pmc: seq<Event> -> seq<nat>, c: Client, ch: Channel, agent: AgentPc, submitted: seq<Event>, executed: seq<Event>)
  {
    && |ch.data| == SLOTS && Served(pmc, ch, agent, executed) && ClientOk(pmc, c, ch, executed)
    && submitted == executed + InFlight(ch, agent) + Buffered(c)
  }

  /** A busy or polled channel: what an idle control word says about the agent. */
  lemma IdleMeansFree(pmc: seq<Event> -> seq<nat>, ch: Channel, agent: AgentPc, executed: seq<Event>)
    requires |ch.data| == SLOTS && Served(pmc, ch, agent, executed)
    ensures Idle(ch.control) <==> ch.control == 0
    ensures ch.control == 0 ==> agent == Poll || agent == SwitchOut || agent == ReadSwitch
  {
    match agent
    case Serving(_, _) =>
    case _ =>
  }

  lemma AppendOperation(words: seq<nat>, w: nat)
    ensures Operations(words + [w]) == Operations(words) + [Operate(w)]
  {}

  /** A new operation at the end of the buffer. */
  lemma BufferKeeps(
    pmc: seq<Event> -> seq<nat>, s: ClientSide, w: nat, agent: AgentPc, executed: seq<Event>)
    requires Local(pmc, s.client, s.channel, agent, s.submitted, executed) && s.client.pc == Ready
    ensures s.submitted + [Operate(w)] == executed + InFlight(s.channel, agent) + Operations(s.client.buffer + [w])
  {
    AppendOperation(s.client.buffer, w);
  }

  /** A call appends its operation to what is buffered. */
  lemma BeginKeeps(
    pmc: seq<Event> -> seq<nat>, s: ClientSide, call: Call, agent: AgentPc, executed: seq<Event>)
    requires Local(pmc, s.client, s.channel, agent, s.submitted, executed) && s.client.pc == Ready
    ensures var s' := Begin(s, call);
            Local(pmc, s'.client, s'.channel, agent, s'.submitted, executed)
  {
    match call
    case Access(w) => BufferKeeps(pmc, s, w, agent, executed);
    case InstrumentedAccess(w) => BufferKeeps(pmc, s, w, agent, executed);
    case _ =>
  }

  /** The slots that were copied are the buffer: publishing hands it over in order. */
  lemma PublishKeeps(pmc: seq<Event> -> seq<nat>, s: ClientSide, call: Call, agent: AgentPc, executed: seq<Event>)
    requires Local(pmc, s.client, s.channel, agent, s.submitted, executed)
    requires s.client.pc.Copying? && s.client.pc.copied == |s.client.buffer|
    ensures var s' := ClientLocal(s, call);
            Local(pmc, s'.client, s'.channel, agent, s'.submitted, executed)
  {
    IdleMeansFree(pmc, s.channel, agent, executed);
    PublishedIs(s.channel, s.client.buffer, agent);
    BufferEmptied(s.client);
  }

  lemma BufferEmptied(c: Client)
    requires c.pc.Copying?
    ensures Buffered(c) == Operations(c.buffer) + Buffered(Flushing(c.(buffer := []), c.pc.rest))
  {}

  lemma PublishedIs(ch: Channel, buffer: seq<nat>, agent: AgentPc)
    requires |ch.data| == SLOTS && 0 < |buffer| <= SLOTS && ch.data[..|buffer|] == buffer[..|buffer|]
    requires agent == Poll || agent == SwitchOut || agent == ReadSwitch
    ensures var ch' := ch.(control := Encode(|buffer|));
            Request(ch'.control) && Decode(ch'.control).Batch? && InFlight(ch', agent) == Operations(buffer)
  {
    CommandsDoNotAlias(|buffer|);
    assert buffer[..|buffer|] == buffer;
  }

  lemma CopyKeeps(pmc: seq<Event> -> seq<nat>, s: ClientSide, call: Call, agent: AgentPc, executed: seq<Event>)
    requires Local(pmc, s.client, s.channel, agent, s.submitted, executed)
    requires s.client.pc.Copying? && s.client.pc.copied < |s.client.buffer|
    ensures var s' := ClientLocal(s, call);
            Local(pmc, s'.client, s'.channel, agent, s'.submitted, executed)
  {
    IdleMeansFree(pmc, s.channel, agent, executed);
    var k, ch := s.client.pc.copied, s.channel;
    var ch' := Put(ch, k, s.client.buffer[k]);
    assert ch'.data[..k + 1] == ch.data[..k] + [s.client.buffer[k]];
  }

  lemma ReadKeeps(pmc: seq<Event> -> seq<nat>, s: ClientSide, call: Call, agent: AgentPc, executed: seq<Event>)
    requires Local(pmc, s.client, s.channel, agent, s.submitted, executed) && s.client.pc.Reading?
    ensures var s' := ClientLocal(s, call);
            Local(pmc, s'.client, s'.channel, agent, s'.submitted, executed)
  {
    var values, ch := s.client.pc.values, s.channel;
    if |values| < COUNTERS {
      assert values + [Get(ch, |values|)] == ch.data[..|values| + 1];
    }
  }

  lemma WaitKeeps(pmc: seq<Event> -> seq<nat>, s: ClientSide, call: Call, agent: AgentPc, executed: seq<Event>)
    requires Local(pmc, s.client, s.channel, agent, s.submitted, executed)
    requires s.client.pc.FlushWait? || s.client.pc.Await? || s.client.pc == SwitchWait
    ensures var s' := ClientLocal(s, call);
            Local(pmc, s'.client, s'.channel, agent, s'.submitted, executed)
  {
    IdleMeansFree(pmc, s.channel, agent, executed);
  }

  lemma OwnerKeeps(pmc: seq<Event> -> seq<nat>, s: ClientSide, call: Call, agent: AgentPc, executed: seq<Event>)
    requires Local(pmc, s.client, s.channel, agent, s.submitted, executed)
    requires s.client.pc == PublishWriteBack || s.client.pc.WriteSwitch? || s.client.pc.PublishSwitch?
    ensures var s' := ClientLocal(s, call);
            Local(pmc, s'.client, s'.channel, agent, s'.submitted, executed)
  {
    IdleMeansFree(pmc, s.channel, agent, executed);
  }

  /** Every step of the client on its own channel. */
  lemma ClientKeeps(pmc: seq<Event> -> seq<nat>, s: ClientSide, call: Call, agent: AgentPc, executed: seq<Event>)
    requires Local(pmc, s.client, s.channel, agent, s.submitted, executed)
    ensures var s' := ClientLocal(s, call);
            Local(pmc, s'.client, s'.channel, agent, s'.submitted, executed)
  {
    match s.client.pc
    case Ready => BeginKeeps(pmc, s, call, agent, executed);
    case Copying(k, _) =>
      if k < |s.client.buffer| {
        CopyKeeps(pmc, s, call, agent, executed);
      } else {
        PublishKeeps(pmc, s, call, agent, executed);
      }
    case Reading(_) => ReadKeeps(pmc, s, call, agent, executed);
    case FlushWait(_) => WaitKeeps(pmc, s, call, agent, executed);
    case Await(_) => WaitKeeps(pmc, s, call, agent, executed);
    case SwitchWait => WaitKeeps(pmc, s, call, agent, executed);
    case _ => OwnerKeeps(pmc, s, call, agent, executed);
  }

  // ----- The agent on the client's channel -----

  /** The next published operation is executed. */
  lemma ServeMoves(data: seq<nat>, i: nat, n: nat, executed: seq<Event>)
    requires i < n <= |data|
    ensures executed + Operations(data[i..n]) == executed + [Operate(data[i])] + Operations(data[i + 1..n])
  {
    assert data[i..n] == [data[i]] + data[i + 1..n];
  }

  lemma MeasuredSix(pmc: seq<Event> -> seq<nat>, h: seq<Event>)
    requires ThreeCounters(pmc) && h != []
    ensures |Measured(pmc, h)| == COUNTERS
  {}

  lemma ServeKeeps(pmc: seq<Event> -> seq<nat>, c: Client, s: AgentSide, submitted: seq<Event>)
    requires ThreeCounters(pmc) && Local(pmc, c, s.channel, s.pc, submitted, s.executed) && s.pc.Serving?
    ensures var s' := AgentLocal(pmc, s);
            Local(pmc, c, s'.channel, s'.pc, submitted, s'.executed)
  {
    var i, n, ch := s.pc.next, s.pc.count, s.channel;
    CommandsDoNotAlias(n);
    ServeMoves(ch.data, i, n, s.executed);
    MeasuredSix(pmc, s.executed + [Operate(ch.data[i])]);
    if i + 1 == n { assert Operations(ch.data[n..n]) == []; }
  }

  lemma PollKeeps(pmc: seq<Event> -> seq<nat>, c: Client, s: AgentSide, submitted: seq<Event>)
    requires Local(pmc, c, s.channel, s.pc, submitted, s.executed) && s.pc == Poll
    ensures var s' := AgentLocal(pmc, s);
            Local(pmc, c, s'.channel, s'.pc, submitted, s'.executed) && s'.pc != SwitchOut && s'.pc != ReadSwitch
  {
    var ch := s.channel;
    if Decode(ch.control).Batch? { assert ch.data[0..Decode(ch.control).count] == ch.data[..Decode(ch.control).count]; }
  }

  lemma WriteBackKeeps(pmc: seq<Event> -> seq<nat>, c: Client, s: AgentSide, submitted: seq<Event>)
    requires Local(pmc, c, s.channel, s.pc, submitted, s.executed) && (s.pc == RunWriteBack || s.pc == WriteBackDone)
    ensures var s' := AgentLocal(pmc, s);
            Local(pmc, c, s'.channel, s'.pc, submitted, s'.executed)
  {}

  lemma ReportKeeps(pmc: seq<Event> -> seq<nat>, c: Client, s: AgentSide, submitted: seq<Event>)
    requires Local(pmc, c, s.channel, s.pc, submitted, s.executed) && s.pc.Reporting?
    ensures var s' := AgentLocal(pmc, s);
            Local(pmc, c, s'.channel, s'.pc, submitted, s'.executed)
  {
    var values, j, ch := s.pc.values, s.pc.written, s.channel;
    if j < COUNTERS {
      assert Put(ch, j, values[j]).data[..j + 1] == ch.data[..j] + [values[j]] == values[..j + 1];
    } else {
      assert values[..j] == values;
    }
  }

  lemma AgentKeeps(pmc: seq<Event> -> seq<nat>, c: Client, s: AgentSide, submitted: seq<Event>)
    requires ThreeCounters(pmc) && Local(pmc, c, s.channel, s.pc, submitted, s.executed)
    requires s.pc != SwitchOut && s.pc != ReadSwitch
    ensures var s' := AgentLocal(pmc, s);
            && Local(pmc, c, s'.channel, s'.pc, submitted, s'.executed)
            && s'.pc != SwitchOut && s'.pc != ReadSwitch
  {
    match s.pc
    case Poll => PollKeeps(pmc, c, s, submitted);
    case Serving(_, _) => ServeKeeps(pmc, c, s, submitted);
    case Reporting(_, _) => ReportKeeps(pmc, c, s, submitted);
    case _ => WriteBackKeeps(pmc, c, s, submitted);
  }

  // ----- The route -----

  /**
   Along the route every channel but the last holds a switch to the next one; the first may
   already be marked idle while the agent has still to read where to go. All other channels are
   idle.
   */
  ghost predicate RouteOk(chs: seq<Channel>, route: seq<nat>, leaving: bool) {
    && (forall c :: 0 <= c < |chs| ==> |chs[c].data| == SLOTS)
    && route != [] && Distinct(route) && (leaving ==> |route| > 1)
    && (forall i :: 0 <= i < |route| ==> route[i] < |chs|)
    && (forall i :: 0 <= i < |route| - 1 ==> Leads(chs[route[i]], route[i + 1], leaving && i == 0))
    && (forall c :: 0 <= c < |chs| && chs[c].control != 0 ==> c in route)
  }

  predicate Leads(ch: Channel, to: nat, leaving: bool) {
    |ch.data| == SLOTS && ch.data[0] == to && ch.control == if leaving then 0 else Encode(SWITCH)
  }

  function Last(route: seq<nat>): nat
    requires route != []
  {
    route[|route| - 1]
  }

  lemma ActiveWrite(chs: seq<Channel>, route: seq<nat>, leaving: bool, ch: Channel)
    requires RouteOk(chs, route, leaving) && |ch.data| == SLOTS
    ensures RouteOk(chs[Last(route) := ch], route, leaving)
  {
    var chs' := chs[Last(route) := ch];
    forall i | 0 <= i < |route| - 1 ensures Leads(chs'[route[i]], route[i + 1], leaving && i == 0) {
      assert route[i] != Last(route);
      assert Leads(chs[route[i]], route[i + 1], leaving && i == 0);
    }
    assert Last(route) in route;
  }

  lemma Extend(chs: seq<Channel>, route: seq<nat>, leaving: bool, to: nat)
    requires RouteOk(chs, route, leaving) && to < |chs| && to !in route && chs[Last(route)].data[0] == to
    ensures var ch := chs[Last(route)];
            RouteOk(chs[Last(route) := ch.(control := Encode(SWITCH))], route + [to], leaving)
  {
    var ch, r := chs[Last(route)], route + [to];
    ActiveWrite(chs, route, leaving, ch.(control := Encode(SWITCH)));
    var chs' := chs[Last(route) := ch.(control := Encode(SWITCH))];
    forall i | 0 <= i < |r| - 1 ensures Leads(chs'[r[i]], r[i + 1], leaving && i == 0) {
      if i < |route| - 1 { assert Leads(chs'[route[i]], route[i + 1], leaving && i == 0); }
    }
    forall c | 0 <= c < |chs'| && chs'[c].control != 0 ensures c in r { assert c in route; }
  }

  lemma Leave(chs: seq<Channel>, route: seq<nat>)
    requires RouteOk(chs, route, false) && |route| > 1
    ensures RouteOk(chs[route[0] := chs[route[0]].(control := 0)], route, true)
    ensures route[0] != Last(route)
  {
    var chs' := chs[route[0] := chs[route[0]].(control := 0)];
    forall i | 0 <= i < |route| - 1 ensures Leads(chs'[route[i]], route[i + 1], i == 0) {
      assert Leads(chs[route[i]], route[i + 1], false);
    }
  }

  lemma Arrive(chs: seq<Channel>, route: seq<nat>)
    requires RouteOk(chs, route, true)
    ensures RouteOk(chs, route[1..], false) && chs[route[0]].data[0] == route[1] && Last(route[1..]) == Last(route)
  {
    var r := route[1..];
    assert Leads(chs[route[0]], route[1], true);
    forall i | 0 <= i < |r| - 1 ensures Leads(chs[r[i]], r[i + 1], false) {
      assert Leads(chs[route[i + 1]], route[i + 2], false);
    }
    forall c | 0 <= c < |chs| && chs[c].control != 0 ensures c in r {
      assert c in route && c != route[0];
    }
  }
}
