/**
 The protocol between the user's memory object and the kernel's agent: a client that buffers
 operations and publishes them through a control word and seven data slots, and an agent that
 polls the control word. Both move by atomic steps that interleave in any order.
 */
module Channels {

  const SLOTS: nat := 7
  const COUNTERS: nat := 6

  datatype Channel = Channel(control: nat, data: seq<nat>)

  /** What the agent does to the memory: it touches or flushes the address in a word, or writes all back. */
  datatype Event = Operate(word: nat) | WriteBackAll

  // ----- The control word -----

  /** The lowest bit says access; the higher bits hold a count. */
  function Encode(count: nat): nat { 1 + 2 * count }

  const SWITCH: nat := 8
  const WBINVD: nat := 16

  predicate Idle(control: nat) { control % 2 == 0 }

  datatype Command = NoCommand | Terminate | WriteBack | SwitchChannel | Batch(count: nat)

  /** The agent's reading of the control word: it tests the high bits in turn. */
  function Decode(control: nat): Command {
    var count := control / 2;
    if control == 0 then NoCommand
    else if count == 0 then Terminate
    else if count / 16 != 0 then WriteBack
    else if count / 8 != 0 then SwitchChannel
    else Batch(count)
  }

  /** Commands do not alias: each is read as what it was published for, and none ends the agent. */
  lemma CommandsDoNotAlias(count: nat)
    requires 0 < count <= SLOTS
    ensures Decode(Encode(count)) == Batch(count) && Decode(Encode(SWITCH)) == SwitchChannel
    ensures Decode(Encode(WBINVD)) == WriteBack && Decode(0) == NoCommand
    ensures !Idle(Encode(count)) && !Idle(Encode(SWITCH)) && !Idle(Encode(WBINVD)) && Idle(0)
  {}

  // ----- The client -----

  /** What a call of the memory object goes on with once the buffer is flushed. */
  datatype Rest = Return | Instrument | Invalidate | Switch(to: nat)

  datatype ClientPc =
    | Ready
    | FlushWait(rest: Rest)
    | Copying(copied: nat, rest: Rest)
    | Await(rest: Rest)
    | Reading(values: seq<nat>)
    | PublishWriteBack
    | WriteSwitch(to: nat)
    | PublishSwitch(to: nat)
    | SwitchWait

  datatype Client = Client(pc: ClientPc, buffer: seq<nat>, result: seq<nat>)

  datatype Call = Access(word: nat) | InstrumentedAccess(word: nat) | Wbinvd | SwitchTo(channel: nat) | Flush

  /** The client, the channel that it uses and the operations submitted so far. */
  datatype ClientSide = ClientSide(client: Client, channel: Channel, submitted: seq<Event>)

  function Flushing(c: Client, rest: Rest): Client {
    if c.buffer != [] then c.(pc := FlushWait(rest))
    else if rest == Return then c.(pc := Ready)
    else c.(pc := Await(rest))
  }

  /** The start of a call. */
  function Begin(s: ClientSide, call: Call): ClientSide {
    var c := s.client;
    match call
    case Access(w) =>
      var c' := c.(buffer := c.buffer + [w]);
      ClientSide(if |c'.buffer| == SLOTS then Flushing(c', Return) else c', s.channel, s.submitted + [Operate(w)])
    case InstrumentedAccess(w) =>
      ClientSide(Flushing(c.(buffer := c.buffer + [w]), Instrument), s.channel, s.submitted + [Operate(w)])
    case Wbinvd => ClientSide(Flushing(c, Invalidate), s.channel, s.submitted + [WriteBackAll])
    case SwitchTo(to) => s.(client := Flushing(c, Switch(to)))
    case Flush => s.(client := Flushing(c, Return))
  }

  function Put(ch: Channel, k: nat, value: nat): Channel {
    if k < |ch.data| then ch.(data := ch.data[k := value]) else ch
  }

  function Get(ch: Channel, k: nat): nat {
    if k < |ch.data| then ch.data[k] else 0
  }

  /** One step of the client on its own channel; waiting is a step that changes nothing. */
  function ClientLocal(s: ClientSide, call: Call): ClientSide {
    var c, ch := s.client, s.channel;
    match c.pc
    case Ready => Begin(s, call)
    case FlushWait(rest) => if Idle(ch.control) then s.(client := c.(pc := Copying(0, rest))) else s
    case Copying(k, rest) =>
      if k < |c.buffer| then s.(client := c.(pc := Copying(k + 1, rest)), channel := Put(ch, k, c.buffer[k]))
      else s.(client := Flushing(c.(buffer := []), rest), channel := ch.(control := Encode(|c.buffer|)))
    case Await(rest) =>
      if !Idle(ch.control) then s
      else s.(client := c.(pc := match rest
                                 case Return => Ready
                                 case Instrument => Reading([])
                                 case Invalidate => PublishWriteBack
                                 case Switch(to) => WriteSwitch(to)))
    case Reading(values) =>
      if |values| < COUNTERS then s.(client := c.(pc := Reading(values + [Get(ch, |values|)])))
      else s.(client := c.(pc := Ready, result := values))
    case PublishWriteBack => s.(client := c.(pc := Ready), channel := ch.(control := Encode(WBINVD)))
    case WriteSwitch(to) => s.(client := c.(pc := PublishSwitch(to)), channel := Put(ch, 0, to))
    case PublishSwitch(to) => s
    case SwitchWait => if Idle(ch.control) then s.(client := c.(pc := Ready)) else s
  }

  // ----- The agent -----

  datatype AgentPc =
    | Poll
    | Exited
    | RunWriteBack
    | WriteBackDone
    | SwitchOut
    | ReadSwitch
    | Serving(next: nat, count: nat)
    | Reporting(values: seq<nat>, written: nat)

  /** The agent, the channel that it polls and the events so far. */
  datatype AgentSide = AgentSide(pc: AgentPc, channel: Channel, executed: seq<Event>)

  /** The hardware's three counters, whatever they count, depend on what was executed. */
  ghost predicate ThreeCounters(pmc: seq<Event> -> seq<nat>) {
    forall h :: |pmc(h)| == 3
  }

  /** The counters before and after the last event. */
  function Measured(pmc: seq<Event> -> seq<nat>, h: seq<Event>): seq<nat> {
    if h == [] then [] else pmc(h[..|h| - 1]) + pmc(h)
  }

  function AgentLocal(pmc: seq<Event> -> seq<nat>, s: AgentSide): AgentSide {
    var ch := s.channel;
    match s.pc
    case Poll =>
      s.(pc := match Decode(ch.control)
               case NoCommand => Poll
               case Terminate => Exited
               case WriteBack => RunWriteBack
               case SwitchChannel => SwitchOut
               case Batch(count) => Serving(0, count))
    case Exited => s
    case RunWriteBack => s.(pc := WriteBackDone, executed := s.executed + [WriteBackAll])
    case WriteBackDone => s.(pc := Poll, channel := ch.(control := 0))
    case SwitchOut => s.(pc := ReadSwitch, channel := ch.(control := 0))
    case ReadSwitch => s
    case Serving(i, n) =>
      var h := s.executed + [Operate(Get(ch, i))];
      s.(pc := if i + 1 < n then Serving(i + 1, n) else Reporting(Measured(pmc, h), 0), executed := h)
    case Reporting(values, j) =>
      if j < COUNTERS then
        s.(pc := Reporting(values, j + 1), channel := Put(ch, j, if j < |values| then values[j] else 0))
      else s.(pc := Poll, channel := ch.(control := 0))
  }

  // ----- The whole system -----

  /** The route is the agent's channel and then the channels that it was told to switch to. */
  datatype System = System(
    channels: seq<Channel>,
    client: Client, active: nat, submitted: seq<Event>,
    agent: AgentPc, served: nat, executed: seq<Event>,
    route: seq<nat>)

  function ClientView(s: System): ClientSide
    requires s.active < |s.channels|
  {
    ClientSide(s.client, s.channels[s.active], s.submitted)
  }

  function AgentView(s: System): AgentSide
    requires s.served < |s.channels|
  {
    AgentSide(s.agent, s.channels[s.served], s.executed)
  }

  function ClientStep(s: System, call: Call): System {
    if s.active >= |s.channels| then s
    else if s.client.pc.PublishSwitch? then
      s.(channels := s.channels[s.active := s.channels[s.active].(control := Encode(SWITCH))],
         client := s.client.(pc := SwitchWait), active := s.client.pc.to, route := s.route + [s.client.pc.to])
    else
      var v := ClientLocal(ClientView(s), call);
      s.(channels := s.channels[s.active := v.channel], client := v.client, submitted := v.submitted)
  }

  /** The agent switches by marking its channel idle first and reading the first slot after that. */
  function AgentStep(pmc: seq<Event> -> seq<nat>, s: System): System {
    if s.served >= |s.channels| then s
    else if s.agent == ReadSwitch then
      s.(agent := Poll, served := Get(s.channels[s.served], 0), route := if s.route == [] then [] else s.route[1..])
    else
      var v := AgentLocal(pmc, AgentView(s));
      s.(channels := s.channels[s.served := v.channel], agent := v.pc, executed := v.executed)
  }

  datatype Move = ByClient(call: Call) | ByAgent

  function Step(pmc: seq<Event> -> seq<nat>, s: System, move: Move): System {
    match move
    case ByClient(call) => ClientStep(s, call)
    case ByAgent => AgentStep(pmc, s)
  }

  function Run(pmc: seq<Event> -> seq<nat>, s: System, moves: seq<Move>): System
    decreases |moves|
  {
    if moves == [] then s else Run(pmc, Step(pmc, s, moves[0]), moves[1..])
  }

  function Start(count: nat, first: nat): System {
    System(seq(count, i => Channel(0, [0, 0, 0, 0, 0, 0, 0])),
           Client(Ready, [], []), first, [], Poll, first, [], [first])
  }
}
