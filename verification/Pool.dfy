/**
 * The stream pool and `_sendMessage`, `src/bitswap.ts:185-294` and `401-421`, as steps between awaits:
 * a call starts, a dial ends, the call resumes with its stream, an inbound stream arrives, a stream is
 * cleaned up, stop.
 */
module Pool {
  import opened Basics
  import opened Framing

  datatype Direction = Outbound | Inbound

  /** A stream with the flag of its pool record; its index is its identity. */
  datatype Stream = Stream(peer: string, direction: Direction, closed: bool)

  /** Who sent a message: a call of `_sendMessage` or a run of `_serveBlockOnStream`. */
  datatype Origin = SendCall(call: nat) | ServeCall(serve: nat)

  /** Bytes successfully handed to a stream. */
  datatype Sent = Sent(stream: nat, bytes: Bytes, origin: Origin)

  /** Where a call of `_sendMessage` stands: `Got` has the stream, or none when the dial failed. */
  datatype Progress = Dialing(attempt: nat) | Got(attempt: nat, stream: Option<nat>) | Returned | Threw

  datatype Call = Call(peer: string, message: Bytes, dials: nat, progress: Progress)

  datatype State = State(
    pool: map<string, nat>,
    streams: seq<Stream>,
    unsupported: set<string>,
    calls: seq<Call>,
    wire: seq<Sent>)

  datatype DialOutcome = DialOk | DialUnsupported | DialFailed

  datatype Step =
    | SendStart(peer: string, message: Bytes)
    | DialDone(call: nat, outcome: DialOutcome)
    | Resume(call: nat, sent: bool)
    | InboundStream(peer: string)
    | Cleanup(peer: string)
    | CloseAll
    | ClearUnsupported
    | Serve(stream: nat, message: Bytes, serve: nat)

  predicate Reusable(s: State, peer: string) {
    peer in s.pool && s.pool[peer] < |s.streams| && !s.streams[s.pool[peer]].closed
  }

  /** `_sendMessage` up to its first await: the pooled stream is reused, or a dial begins. */
  function AfterSendStart(s: State, peer: string, message: Bytes): State {
    s.(calls := s.calls + [
      if Reusable(s, peer) then Call(peer, message, 0, Got(1, Some(s.pool[peer])))
      else Call(peer, message, 1, Dialing(1))])
  }

  function AfterDial(s: State, i: nat, outcome: DialOutcome): State {
    if !(i < |s.calls| && s.calls[i].progress.Dialing?) then s
    else
      var c := s.calls[i];
      match outcome
      case DialOk =>
        s.(streams := s.streams + [Stream(c.peer, Outbound, false)],
           pool := s.pool[c.peer := |s.streams|],
           calls := s.calls[i := c.(progress := Got(c.progress.attempt, Some(|s.streams|)))])
      case DialUnsupported =>
        s.(unsupported := s.unsupported + {c.peer},
           calls := s.calls[i := c.(progress := Got(c.progress.attempt, None))])
      case DialFailed =>
        s.(calls := s.calls[i := c.(progress := Got(c.progress.attempt, None))])
  }

  function AfterCleanup(s: State, peer: string): State {
    if !(peer in s.pool && s.pool[peer] < |s.streams|) then s
    else
      var id := s.pool[peer];
      s.(streams := s.streams[id := s.streams[id].(closed := true)], pool := s.pool - {peer})
  }

  /** The call goes on: it sends, or cleans up and dials once more, or throws. */
  function AfterResume(s: State, i: nat, sent: bool): State {
    if !(i < |s.calls| && s.calls[i].progress.Got?) then s
    else
      var c := s.calls[i];
      if c.progress.stream.Some? && sent then
        s.(wire := s.wire + [Sent(c.progress.stream.value, Frame(c.message), SendCall(i))],
           calls := s.calls[i := c.(progress := Returned)])
      else if c.progress.attempt == 1 then
        var t := AfterCleanup(s, c.peer);
        t.(calls := t.calls[i := c.(dials := c.dials + 1, progress := Dialing(2))])
      else
        s.(calls := s.calls[i := c.(progress := Threw)])
  }

  predicate HasOutbound(s: State, peer: string) {
    peer in s.pool && s.pool[peer] < |s.streams| && s.streams[s.pool[peer]].direction.Outbound?
  }

  function AfterInbound(s: State, peer: string): State {
    s.(streams := s.streams + [Stream(peer, Inbound, false)],
       pool := if HasOutbound(s, peer) then s.pool else s.pool[peer := |s.streams|])
  }

  function AfterCloseAll(s: State): State {
    s.(streams := seq(|s.streams|, i requires 0 <= i < |s.streams| =>
         if i in s.pool.Values then s.streams[i].(closed := true) else s.streams[i]),
       pool := map[])
  }

  lemma CloseAllFrame(s: State)
    ensures AfterCloseAll(s) == s.(streams := AfterCloseAll(s).streams, pool := map[])
  {
  }

  function Do(s: State, step: Step): State {
    match step
    case SendStart(peer, message) => AfterSendStart(s, peer, message)
    case DialDone(i, outcome) => AfterDial(s, i, outcome)
    case Resume(i, sent) => AfterResume(s, i, sent)
    case InboundStream(peer) => AfterInbound(s, peer)
    case Cleanup(peer) => AfterCleanup(s, peer)
    case CloseAll => AfterCloseAll(s)
    case ClearUnsupported => s.(unsupported := {})
    case Serve(stream, message, serve) => s.(wire := s.wire + [Sent(stream, Frame(message), ServeCall(serve))])
  }

  function Run(s: State, steps: seq<Step>): State
    decreases |steps|
  {
    if steps == [] then s else Run(Do(s, steps[0]), steps[1..])
  }

  // ---------------------------------------------------------------- what holds at every step boundary

  /** A pooled stream belongs to the peer it is filed under and is not closed; so no two peers share one. */
  predicate PoolOk(s: State) {
    forall peer | peer in s.pool ::
      s.pool[peer] < |s.streams| && s.streams[s.pool[peer]].peer == peer && !s.streams[s.pool[peer]].closed
  }

  function TimesSent(wire: seq<Sent>, origin: Origin): nat {
    if wire == [] then 0
    else TimesSent(wire[..|wire| - 1], origin) + (if wire[|wire| - 1].origin == origin then 1 else 0)
  }

  lemma TimesSentMore(wire: seq<Sent>, x: Sent, origin: Origin)
    ensures TimesSent(wire + [x], origin) == TimesSent(wire, origin) + (if x.origin == origin then 1 else 0)
  {
    assert (wire + [x])[..|wire|] == wire;
  }

  /** At most two dials, and one successful send exactly when the call returned normally. */
  predicate CallOk(s: State, i: nat)
    requires i < |s.calls|
  {
    var c := s.calls[i];
    c.dials <= 2 &&
    TimesSent(s.wire, SendCall(i)) == (if c.progress.Returned? then 1 else 0) &&
    match c.progress
    case Dialing(attempt) => (attempt == 1 && c.dials == 1) || (attempt == 2 && 1 <= c.dials <= 2)
    case Got(attempt, _) => (attempt == 1 && c.dials <= 1) || (attempt == 2 && 1 <= c.dials <= 2)
    case Returned => true
    case Threw => c.dials >= 1
  }

  /** Everything sent is one frame, and what a call sent is the frame of its own message. */
  predicate WireOk(s: State) {
    forall x | x in s.wire ::
      Framed(x.bytes) &&
      (x.origin.SendCall? ==>
         x.origin.call < |s.calls| && x.bytes == Frame(s.calls[x.origin.call].message))
  }

  ghost predicate Valid(s: State) {
    PoolOk(s) && WireOk(s) && forall i: nat | i < |s.calls| :: CallOk(s, i)
  }

  function Start(): State {
    State(map[], [], {}, [], [])
  }

  lemma {:induction false} NeverSent(s: State, wire: seq<Sent>, i: nat)
    requires forall x | x in wire :: x.origin != SendCall(i)
    ensures TimesSent(wire, SendCall(i)) == 0
    decreases |wire|
  {
    if wire != [] {
      assert wire[|wire| - 1] in wire;
      NeverSent(s, wire[..|wire| - 1], i);
    }
  }

  lemma SendStartKeeps(s: State, peer: string, message: Bytes)
    requires Valid(s)
    ensures Valid(AfterSendStart(s, peer, message))
  {
    hide Frame, Framed;
    var t := AfterSendStart(s, peer, message);
    NeverSent(s, s.wire, |s.calls|);
    forall i: nat | i < |t.calls|
      ensures CallOk(t, i)
    {
      if i < |s.calls| {
        assert CallOk(s, i);
      }
    }
  }

  lemma DialKeeps(s: State, i: nat, outcome: DialOutcome)
    requires Valid(s)
    ensures Valid(AfterDial(s, i, outcome))
  {
    hide Frame, Framed;
    var t := AfterDial(s, i, outcome);
    forall j: nat | j < |t.calls|
      ensures CallOk(t, j)
    {
      assert CallOk(s, j);
    }
  }

  lemma ResumeKeeps(s: State, i: nat, sent: bool)
    requires Valid(s)
    ensures Valid(AfterResume(s, i, sent))
  {
    hide TimesSent, Frame, Framed;
    var t := AfterResume(s, i, sent);
    if i < |s.calls| {
      UnframeFrame(s.calls[i].message);
    }
    forall j: nat | j < |t.calls|
      ensures CallOk(t, j)
    {
      assert CallOk(s, j);
      if t.wire != s.wire {
        TimesSentMore(s.wire, t.wire[|s.wire|], SendCall(j));
      }
    }
  }

  lemma OtherKeeps(s: State, step: Step)
    requires Valid(s)
    requires step.InboundStream? || step.Cleanup? || step.CloseAll? || step.ClearUnsupported? || step.Serve?
    ensures Valid(Do(s, step))
  {
    hide TimesSent, Frame, Framed;
    var t := Do(s, step);
    if step.Serve? {
      UnframeFrame(step.message);
    }
    forall j: nat | j < |t.calls|
      ensures CallOk(t, j)
    {
      assert CallOk(s, j);
      if t.wire != s.wire {
        TimesSentMore(s.wire, t.wire[|s.wire|], SendCall(j));
      }
    }
  }

  lemma StepKeeps(s: State, step: Step)
    requires Valid(s)
    ensures Valid(Do(s, step))
  {
    hide Valid, AfterSendStart, AfterDial, AfterResume;
    match step {
      case SendStart(peer, message) => SendStartKeeps(s, peer, message);
      case DialDone(i, outcome) => DialKeeps(s, i, outcome);
      case Resume(i, sent) => ResumeKeeps(s, i, sent);
      case _ => OtherKeeps(s, step);
    }
  }

  lemma {:induction false} RunKeeps(s: State, steps: seq<Step>)
    requires Valid(s)
    ensures Valid(Run(s, steps))
    decreases |steps|
  {
    hide Valid, Do;
    if steps != [] {
      StepKeeps(s, steps[0]);
      RunKeeps(Do(s, steps[0]), steps[1..]);
    }
  }

  /**
   * Pool and send discipline over all runs: no pooled stream is marked closed, no call dials more than
   * twice, and a call that returned has sent its message's frame exactly once, any other nothing.
   */
  lemma EveryRunIsDisciplined(steps: seq<Step>)
    ensures var s := Run(Start(), steps);
            PoolOk(s) &&
            (forall x | x in s.wire && x.origin.SendCall? ::
               x.origin.call < |s.calls| && x.bytes == Frame(s.calls[x.origin.call].message)) &&
            forall i: nat | i < |s.calls| ::
              s.calls[i].dials <= 2 &&
              TimesSent(s.wire, SendCall(i)) == (if s.calls[i].progress.Returned? then 1 else 0)
  {
    RunKeeps(Start(), steps);
    var s := Run(Start(), steps);
    forall i: nat | i < |s.calls|
      ensures s.calls[i].dials <= 2 &&
              TimesSent(s.wire, SendCall(i)) == (if s.calls[i].progress.Returned? then 1 else 0)
    {
      assert CallOk(s, i);
    }
  }

  lemma InboundStep(s: State, step: Step, peer: string)
    requires Valid(s) && HasOutbound(s, peer)
    ensures peer in Do(s, step).pool ==> HasOutbound(Do(s, step), peer)
  {
  }

  /** The peer has a pooled stream at every step boundary of the run. */
  ghost predicate AlwaysPooled(s: State, steps: seq<Step>, peer: string) {
    forall k: nat | k <= |steps| :: peer in Run(s, steps[..k]).pool
  }

  /**
   * An inbound stream never displaces an outbound one: from a pooled outbound stream on, whatever else
   * happens and however many inbound streams and dials arrive, the peer's pooled stream is outbound for as
   * long as it has one without a break.
   */
  lemma {:induction false} InboundNeverDisplaces(s: State, steps: seq<Step>, peer: string)
    requires Valid(s) && HasOutbound(s, peer) && AlwaysPooled(s, steps, peer)
    ensures HasOutbound(Run(s, steps), peer)
    decreases |steps|
  {
    hide Valid, Do, HasOutbound;
    if steps != [] {
      var t := Do(s, steps[0]);
      StepKeeps(s, steps[0]);
      forall k: nat | k <= |steps[1..]|
        ensures peer in Run(t, steps[1..][..k]).pool
      {
        assert steps[..k + 1][1..] == steps[1..][..k] && steps[..k + 1][0] == steps[0];
        assert peer in Run(s, steps[..k + 1]).pool;
      }
      assert steps[1..][..0] == [];
      assert peer in Run(t, steps[1..][..0]).pool;
      InboundStep(s, steps[0], peer);
      InboundNeverDisplaces(t, steps[1..], peer);
    }
  }

  /** Two peers never share a pooled stream, so cleaning up one peer closes only its own. */
  lemma CleanupIsLocal(s: State, peer: string, other: string)
    requires Valid(s) && other != peer && other in s.pool
    ensures var t := AfterCleanup(s, peer);
            other in t.pool && t.pool[other] == s.pool[other] && t.streams[t.pool[other]] == s.streams[s.pool[other]]
  {
  }
}
