/**
 * What the steps of a node do for its caller and its peers, said of the pool, the streams, the wire, the
 * wants and the store: when a message is sent and on which stream, who is asked for a want, what a stop,
 * an abort and a put that ended leave behind.
 */
module Duties {
  import opened Basics
  import opened Varints
  import opened Cids
  import opened Codec
  import opened Framing
  import opened Node
  import opened NodeLaws
  import MessageTrees
  import MessageMeaning
  import Exchange
  import Wants
  import Pool

  // ---------------------------------------------------------------- a call that waits for its stream

  /** The step is not the resumption of this call. */
  predicate Leaves(step: Step, i: nat) {
    step.Resume? ==> step.call != i
  }

  lemma CallWaits(lib: Library, s: State, step: Step, i: nat)
    requires i < |s.p.calls| && s.p.calls[i].progress.Got? && Leaves(step, i)
    ensures var t := Do(lib, s, step); i < |t.p.calls| && t.p.calls[i] == s.p.calls[i]
  {
    Projects(lib, s, step);
    var steps := PoolSteps(s, step);
    AtMostOnePoolStep(s.p, steps);
    hide Do, Frame, BlockMessage;
  }

  lemma {:induction false} CallWaitsOn(lib: Library, s: State, steps: seq<Step>, i: nat)
    requires i < |s.p.calls| && s.p.calls[i].progress.Got? && forall step | step in steps :: Leaves(step, i)
    ensures var t := Run(lib, s, steps); i < |t.p.calls| && t.p.calls[i] == s.p.calls[i]
    decreases |steps|
  {
    hide Do, Leaves;
    if steps != [] {
      assert steps[0] in steps;
      CallWaits(lib, s, steps[0], i);
      CallWaitsOn(lib, Do(lib, s, steps[0]), steps[1..], i);
    }
  }

  lemma ResumeSends(lib: Library, s: State, i: nat, j: nat)
    requires i < |s.p.calls| && s.p.calls[i].progress.Got? && s.p.calls[i].progress.stream == Some(j)
    ensures var t := Do(lib, s, Resume(i, true));
            t.p.wire == s.p.wire + [Pool.Sent(j, Frame(s.p.calls[i].message), Pool.SendCall(i))] &&
            t.p.streams == s.p.streams && t.p.pool == s.p.pool &&
            t.p.calls == s.p.calls[i := s.p.calls[i].(progress := Pool.Returned)]
  {
    hide Frame;
  }

  // ---------------------------------------------------------------- sending

  lemma PooledIsOpen(lib: Library, s: State, peer: string)
    requires Valid(lib, s) && peer in s.p.pool
    ensures s.p.pool[peer] < |s.p.streams| && !s.p.streams[s.p.pool[peer]].closed
  {
    hide Wants.Valid, LoopsOk, SourcesOk, HandledOk, ServesOk, ServedOk;
  }

  /** A call begins with a dial exactly when its peer has no open pooled stream, and opens and sends nothing yet. */
  lemma DialsIff(lib: Library, s: State, peer: string, message: Bytes)
    ensures var t := Do(lib, s, SendStart(peer, message));
            var i := |s.p.calls|;
            var open := peer in s.p.pool && s.p.pool[peer] < |s.p.streams| && !s.p.streams[s.p.pool[peer]].closed;
            |t.p.calls| == i + 1 && t.p.calls[..i] == s.p.calls &&
            t.p.calls[i].peer == peer && t.p.calls[i].message == message &&
            (t.p.calls[i].progress.Dialing? <==> !open) && (t.p.calls[i].dials == if open then 0 else 1) &&
            t.p.streams == s.p.streams && t.p.pool == s.p.pool && t.p.wire == s.p.wire && t.w == s.w
  {
  }

  /**
   * An open stream is reused: whatever happens between the start of a call and its resumption, the
   * message goes out, framed and once, on the stream pooled at the start, without a dial or a new stream.
   */
  lemma ReusesOpenStream(lib: Library, s: State, peer: string, message: Bytes, between: seq<Step>)
    requires Valid(lib, s) && peer in s.p.pool
    requires forall step | step in between :: Leaves(step, |s.p.calls|)
    ensures var i, j := |s.p.calls|, s.p.pool[peer];
            var s1 := Do(lib, s, SendStart(peer, message));
            var s2 := Run(lib, s1, between);
            var s3 := Do(lib, s2, Resume(i, true));
            s1.p.streams == s.p.streams && s1.p.pool == s.p.pool && s1.p.wire == s.p.wire &&
            s3.p.wire == s2.p.wire + [Pool.Sent(j, Frame(message), Pool.SendCall(i))] &&
            s3.p.streams == s2.p.streams && i < |s3.p.calls| && s3.p.calls[i].dials == 0 &&
            s3.p.calls[i].progress.Returned?
  {
    PooledIsOpen(lib, s, peer);
    var i, j := |s.p.calls|, s.p.pool[peer];
    var s1 := Do(lib, s, SendStart(peer, message));
    assert s1.p.calls[i] == Pool.Call(peer, message, 0, Pool.Got(1, Some(j)));
    CallWaitsOn(lib, s1, between, i);
    ResumeSends(lib, Run(lib, s1, between), i, j);
    hide Do, Run, Frame, Valid;
  }

  /**
   * A dial that succeeds opens one outbound stream with its read loop, pools it for the peer in place of
   * any other, and the call that dialled sends its message on it.
   */
  lemma DialledStreamCarries(lib: Library, s: State, i: nat, between: seq<Step>)
    requires i < |s.p.calls| && s.p.calls[i].progress.Dialing? && forall step | step in between :: Leaves(step, i)
    ensures var c, j := s.p.calls[i], |s.p.streams|;
            var s1 := Do(lib, s, DialDone(i, Pool.DialOk));
            var s2 := Run(lib, s1, between);
            var s3 := Do(lib, s2, Resume(i, true));
            s1.p.streams == s.p.streams + [Pool.Stream(c.peer, Pool.Outbound, false)] &&
            s1.p.pool == s.p.pool[c.peer := j] && s1.loops == s.loops + [NewLoop(c.peer)] &&
            s1.p.unsupported == s.p.unsupported && s1.p.wire == s.p.wire &&
            s3.p.wire == s2.p.wire + [Pool.Sent(j, Frame(c.message), Pool.SendCall(i))] &&
            i < |s3.p.calls| && s3.p.calls[i].progress.Returned? && s3.p.calls[i].dials == c.dials
  {
    var j := |s.p.streams|;
    var s1 := Do(lib, s, DialDone(i, Pool.DialOk));
    assert s1.p.calls[i].progress.Got? && s1.p.calls[i].progress.stream == Some(j);
    CallWaitsOn(lib, s1, between, i);
    ResumeSends(lib, Run(lib, s1, between), i, j);
    hide Do, Run, Frame;
  }

  /** A first failure, of the dial or of the send, cleans up the peer's stream and dials once more. */
  lemma FirstFailureRetries(lib: Library, s: State, i: nat, sent: bool)
    requires i < |s.p.calls| && s.p.calls[i].progress.Got? && s.p.calls[i].progress.attempt == 1
    requires !sent || s.p.calls[i].progress.stream.None?
    requires Pool.PoolOk(s.p)
    ensures var c := s.p.calls[i];
            var t := Do(lib, s, Resume(i, sent));
            t.p.calls == s.p.calls[i := c.(dials := c.dials + 1, progress := Pool.Dialing(2))] &&
            t.p.wire == s.p.wire && t.p.pool == s.p.pool - {c.peer} && |t.p.streams| == |s.p.streams| &&
            forall j | 0 <= j < |s.p.streams| :: t.p.streams[j] ==
              if c.peer in s.p.pool && s.p.pool[c.peer] == j then s.p.streams[j].(closed := true) else s.p.streams[j]
  {
  }

  /** A second failure makes the call throw: nothing has been sent and nothing else changes. */
  lemma SecondFailureThrows(lib: Library, s: State, i: nat, sent: bool)
    requires i < |s.p.calls| && s.p.calls[i].progress.Got? && s.p.calls[i].progress.attempt != 1
    requires !sent || s.p.calls[i].progress.stream.None?
    ensures Do(lib, s, Resume(i, sent)) ==
            s.(p := s.p.(calls := s.p.calls[i := s.p.calls[i].(progress := Pool.Threw)]))
  {
  }

  /** A dial that fails opens nothing; the peer is marked exactly when it does not support the protocol. */
  lemma DialFails(lib: Library, s: State, i: nat, outcome: Pool.DialOutcome)
    requires i < |s.p.calls| && s.p.calls[i].progress.Dialing? && !outcome.DialOk?
    ensures var c := s.p.calls[i];
            var t := Do(lib, s, DialDone(i, outcome));
            t.p.streams == s.p.streams && t.p.pool == s.p.pool && t.p.wire == s.p.wire && t.loops == s.loops &&
            t.p.calls == s.p.calls[i := c.(progress := Pool.Got(c.progress.attempt, None))] &&
            forall peer :: peer in t.p.unsupported <==>
              peer in s.p.unsupported || (outcome.DialUnsupported? && peer == c.peer)
  {
  }

  /**
   * One retry, and only one: the first send fails, whatever comes in between the second dial succeeds,
   * and the message has then been sent once, on the stream of that dial.
   */
  lemma RetryDelivers(lib: Library, s: State, i: nat, between: seq<Step>)
    requires Pool.PoolOk(s.p) && i < |s.p.calls| && s.p.calls[i].progress.Got? && s.p.calls[i].progress.attempt == 1
    requires forall step | step in between :: Leaves(step, i)
    ensures var c, j := s.p.calls[i], |s.p.streams|;
            var s1 := Do(lib, s, Resume(i, false));
            var s2 := Do(lib, s1, DialDone(i, Pool.DialOk));
            var s3 := Run(lib, s2, between);
            var s4 := Do(lib, s3, Resume(i, true));
            s4.p.wire == s3.p.wire + [Pool.Sent(j, Frame(c.message), Pool.SendCall(i))] &&
            i < |s4.p.calls| && s4.p.calls[i].progress.Returned? && s4.p.calls[i].dials == c.dials + 1
  {
    FirstFailureRetries(lib, s, i, false);
    hide Do, Run, Frame;
    DialledStreamCarries(lib, Do(lib, s, Resume(i, false)), i, between);
  }

  // ---------------------------------------------------------------- unsupported peers

  /** The step ends a dial of the peer with the finding that it does not support the protocol. */
  predicate FoundUnsupported(s: State, step: Step, peer: string) {
    step.DialDone? && step.outcome.DialUnsupported? && step.call < |s.p.calls| &&
    s.p.calls[step.call].progress.Dialing? && s.p.calls[step.call].peer == peer
  }

  /** In the run the peer was found unsupported, and the set has not been cleared since; or it was in it before. */
  predicate Remembered(lib: Library, s: State, steps: seq<Step>, peer: string, before: bool)
    decreases |steps|
  {
    if steps == [] then before
    else Remembered(lib, Do(lib, s, steps[0]), steps[1..], peer,
                    !steps[0].ClearUnsupported? && (before || FoundUnsupported(s, steps[0], peer)))
  }

  lemma UnsupportedStep(lib: Library, s: State, step: Step, peer: string)
    ensures peer in Do(lib, s, step).p.unsupported <==>
      !step.ClearUnsupported? && (peer in s.p.unsupported || FoundUnsupported(s, step, peer))
  {
    Projects(lib, s, step);
    AtMostOnePoolStep(s.p, PoolSteps(s, step));
    hide Do, Frame, BlockMessage;
  }

  /** Over all runs: a peer counts as unsupported exactly when a dial found it so after the last clearing. */
  lemma {:induction false} UnsupportedIff(lib: Library, s: State, steps: seq<Step>, peer: string)
    ensures peer in Run(lib, s, steps).p.unsupported <==>
      Remembered(lib, s, steps, peer, peer in s.p.unsupported)
    decreases |steps|
  {
    hide Do, FoundUnsupported;
    if steps != [] {
      UnsupportedStep(lib, s, steps[0], peer);
      UnsupportedIff(lib, Do(lib, s, steps[0]), steps[1..], peer);
    }
  }

  // ---------------------------------------------------------------- inbound streams, ends of streams

  lemma InboundStep(lib: Library, s: State, peer: string)
    ensures var j := |s.p.streams|;
            var t := Do(lib, s, InboundStream(peer));
            var outbound := peer in s.p.pool && s.p.pool[peer] < j && s.p.streams[s.p.pool[peer]].direction.Outbound?;
            t.p.streams == s.p.streams + [Pool.Stream(peer, Pool.Inbound, false)] &&
            t.loops == s.loops + [NewLoop(peer)] && t.p.wire == s.p.wire && t.p.calls == s.p.calls &&
            t.p.pool == (if outbound then s.p.pool else s.p.pool[peer := j])
  {
  }

  /**
   * An inbound stream gets its read loop, and is pooled exactly when no outbound stream is, so that then
   * the next message to the peer goes out on it.
   */
  lemma InboundIsUsed(lib: Library, s: State, peer: string, message: Bytes)
    requires lib.Lawful() && Valid(lib, s)
    ensures var j := |s.p.streams|;
            var t := Do(lib, s, InboundStream(peer));
            var outbound := peer in s.p.pool && s.p.pool[peer] < j && s.p.streams[s.p.pool[peer]].direction.Outbound?;
            t.p.streams == s.p.streams + [Pool.Stream(peer, Pool.Inbound, false)] &&
            t.loops == s.loops + [NewLoop(peer)] && t.p.wire == s.p.wire &&
            (forall other | other != peer :: (other in t.p.pool <==> other in s.p.pool) &&
                                             (other in s.p.pool ==> t.p.pool[other] == s.p.pool[other])) &&
            peer in t.p.pool && t.p.pool[peer] == (if outbound then s.p.pool[peer] else j) &&
            var u := Do(lib, Do(lib, t, SendStart(peer, message)), Resume(|s.p.calls|, true));
            u.p.wire == s.p.wire + [Pool.Sent(t.p.pool[peer], Frame(message), Pool.SendCall(|s.p.calls|))]
  {
    hide Valid, Run, Frame, Do;
    var t := Do(lib, s, InboundStream(peer));
    InboundStep(lib, s, peer);
    StepKeeps(lib, s, InboundStream(peer));
    ReusesOpenStream(lib, t, peer, message, []);
    RunNone(lib, Do(lib, t, SendStart(peer, message)));
  }

  lemma RunNone(lib: Library, s: State)
    ensures Run(lib, s, []) == s
  {
  }

  /** What ends the peer's stream: its disconnection, or the end of a read loop of its. */
  predicate Ends(s: State, step: Step, peer: string) {
    match step
    case Disconnect(p) => p == peer
    case LoopEnd(i) => i < |s.loops| && s.loops[i].live && s.loops[i].peer == peer
    case _ => false
  }

  /** Then its pooled stream is closed and no longer pooled, all others stay, and the next message dials. */
  lemma EndedStreamIsDropped(lib: Library, s: State, step: Step, peer: string, message: Bytes)
    requires Valid(lib, s) && Ends(s, step, peer)
    ensures var t := Do(lib, s, step);
            t.p.pool == s.p.pool - {peer} && |t.p.streams| == |s.p.streams| && t.p.wire == s.p.wire &&
            (forall j | 0 <= j < |s.p.streams| :: t.p.streams[j] ==
               if peer in s.p.pool && s.p.pool[peer] == j then s.p.streams[j].(closed := true) else s.p.streams[j]) &&
            (step.LoopEnd? ==> !t.loops[step.stream].live) &&
            var u := Do(lib, t, SendStart(peer, message)); u.p.calls[|t.p.calls|].progress.Dialing?
  {
    hide Wants.Valid, LoopsOk, SourcesOk, HandledOk, ServesOk, ServedOk;
    var t := Do(lib, s, step);
    assert peer !in t.p.pool;
    DialsIff(lib, t, peer, message);
  }

  lemma ClosedInPool(p: Pool.State, step: Pool.Step, j: nat)
    requires j < |p.streams| && p.streams[j].closed
    ensures var t := Pool.Do(p, step); j < |t.streams| && t.streams[j].closed
  {
    hide Frame;
  }

  lemma ClosedStep(lib: Library, s: State, step: Step, j: nat)
    requires j < |s.p.streams| && s.p.streams[j].closed
    ensures var t := Do(lib, s, step); j < |t.p.streams| && t.p.streams[j].closed
  {
    hide Do, Pool.Do, PoolSteps;
    Projects(lib, s, step);
    var steps := PoolSteps(s, step);
    OnePoolStep(s, step);
    AtMostOnePoolStep(s.p, steps);
    if steps != [] {
      ClosedInPool(s.p, steps[0], j);
    }
  }

  lemma OnePoolStep(s: State, step: Step)
    ensures |PoolSteps(s, step)| <= 1
  {
    hide BlockMessage;
  }

  /** A closed stream stays closed. */
  lemma {:induction false} ClosedForGood(lib: Library, s: State, steps: seq<Step>, j: nat)
    requires j < |s.p.streams| && s.p.streams[j].closed
    ensures var t := Run(lib, s, steps); j < |t.p.streams| && t.p.streams[j].closed
    decreases |steps|
  {
    hide Do;
    if steps != [] {
      ClosedStep(lib, s, steps[0], j);
      ClosedForGood(lib, Do(lib, s, steps[0]), steps[1..], j);
    }
  }

  // ---------------------------------------------------------------- stop and abort

  /**
   * After a stop nothing is pooled and nothing pending; every stream that was pooled is closed, every want
   * that was pending is rejected, and no other stream or want is touched.
   */
  lemma StopEndsAll(lib: Library, s: State)
    requires Valid(lib, s)
    ensures var t := Do(lib, s, Stop);
            t.p.pool == map[] && t.w.pending == map[] && t.p.wire == s.p.wire &&
            |t.p.streams| == |s.p.streams| && |t.w.deferreds| == |s.w.deferreds| &&
            (forall j | 0 <= j < |s.p.streams| :: t.p.streams[j] ==
               if exists peer :: peer in s.p.pool && s.p.pool[peer] == j
               then s.p.streams[j].(closed := true) else s.p.streams[j]) &&
            forall d | 0 <= d < |s.w.deferreds| :: t.w.deferreds[d] ==
              if Wants.InPending(lib, s.w, d) then s.w.deferreds[d].(outcome := Wants.Rejected) else s.w.deferreds[d]
  {
    hide LoopsOk, SourcesOk, HandledOk, ServesOk, ServedOk;
    hide Wants.HoldingOk, Wants.HeldOnceOk, Wants.OpenOk, Wants.ShapeOk, Wants.ContentOk;
    assert forall d: nat | d < |s.w.deferreds| :: Wants.InPending(lib, s.w, d) <==> d in s.w.pending.Values;
  }

  /**
   * An abort rejects its want for good if that is unsettled, takes its own entry out of the pending ones,
   * and touches nothing else.
   */
  lemma AbortRejects(lib: Library, s: State, d: nat, later: seq<Step>)
    requires d < |s.w.deferreds| && s.w.deferreds[d].outcome.Open?
    ensures var t := Do(lib, s, Abort(d));
            t.p == s.p && t.w.handlers == s.w.handlers && t.w.store == s.w.store &&
            |t.w.deferreds| == |s.w.deferreds| && !Wants.InPending(lib, t.w, d) &&
            (forall e | 0 <= e < |s.w.deferreds| && e != d :: t.w.deferreds[e] == s.w.deferreds[e]) &&
            (forall key | key in s.w.pending && s.w.pending[key] != d ::
               key in t.w.pending && t.w.pending[key] == s.w.pending[key]) &&
            (forall key | key in t.w.pending :: key in s.w.pending) &&
            var u := Run(lib, t, later); d < |u.w.deferreds| && u.w.deferreds[d].outcome.Rejected?
  {
    var t := Do(lib, s, Abort(d));
    SettledForGood(lib, t, later, d);
  }

  lemma SettledWants(lib: Library, w: Wants.State, step: Wants.Step, d: nat)
    requires d < |w.deferreds| && !w.deferreds[d].outcome.Open?
    ensures var t := Wants.Do(lib, w, step); d < |t.deferreds| && t.deferreds[d] == w.deferreds[d]
  {
    hide PrefixToCid;
  }

  lemma {:induction false} SettledWantsOn(lib: Library, w: Wants.State, steps: seq<Wants.Step>, d: nat)
    requires d < |w.deferreds| && !w.deferreds[d].outcome.Open?
    ensures var t := Wants.Run(lib, w, steps); d < |t.deferreds| && t.deferreds[d] == w.deferreds[d]
    decreases |steps|
  {
    hide Wants.Do;
    if steps != [] {
      SettledWants(lib, w, steps[0], d);
      SettledWantsOn(lib, Wants.Do(lib, w, steps[0]), steps[1..], d);
    }
  }

  /** A settled want keeps its outcome over every run. */
  lemma {:induction false} SettledForGood(lib: Library, s: State, steps: seq<Step>, d: nat)
    requires d < |s.w.deferreds| && !s.w.deferreds[d].outcome.Open?
    ensures var t := Run(lib, s, steps); d < |t.w.deferreds| && t.w.deferreds[d] == s.w.deferreds[d]
    decreases |steps|
  {
    hide Do, WantSteps;
    if steps != [] {
      Projects(lib, s, steps[0]);
      SettledWantsOn(lib, s.w, WantSteps(lib, s, steps[0]), d);
      SettledForGood(lib, Do(lib, s, steps[0]), steps[1..], d);
    }
  }

  // ---------------------------------------------------------------- broadcast and onConnect

  /** How many of the connections are to peers not known as unsupported. */
  function Supported(connections: seq<string>, unsupported: set<string>): nat {
    if connections == [] then 0
    else Supported(connections[..|connections| - 1], unsupported) +
         (if connections[|connections| - 1] in unsupported then 0 else 1)
  }

  /** The calls stand for the connections to supported peers, one each, in order, all with this message. */
  predicate AsksEach(calls: seq<Pool.Call>, connections: seq<string>, unsupported: set<string>, message: Bytes) {
    |calls| == Supported(connections, unsupported) &&
    forall i | 0 <= i < |connections| && connections[i] !in unsupported ::
      var k := Supported(connections[..i], unsupported);
      k < |calls| && calls[k].peer == connections[i] && calls[k].message == message
  }

  lemma SupportedCons(x: string, tail: seq<string>, unsupported: set<string>)
    ensures Supported([x] + tail, unsupported) == (if x in unsupported then 0 else 1) + Supported(tail, unsupported)
    decreases |tail|
  {
    var all := [x] + tail;
    if tail == [] {
      assert all[..0] == [];
    } else {
      assert all[..|all| - 1] == [x] + tail[..|tail| - 1];
      SupportedCons(x, tail[..|tail| - 1], unsupported);
    }
  }

  lemma AsksEachCons(
      calls: seq<Pool.Call>, x: string, tail: seq<string>, unsupported: set<string>, message: Bytes,
      first: seq<Pool.Call>, rest: seq<Pool.Call>)
    requires AsksEach(rest, tail, unsupported, message) && calls == first + rest
    requires if x in unsupported then first == []
             else |first| == 1 && first[0].peer == x && first[0].message == message
    ensures AsksEach(calls, [x] + tail, unsupported, message)
  {
    var all := [x] + tail;
    SupportedCons(x, tail, unsupported);
    forall i | 0 <= i < |all| && all[i] !in unsupported
      ensures var k := Supported(all[..i], unsupported);
              k < |calls| && calls[k].peer == all[i] && calls[k].message == message
    {
      if i > 0 {
        assert all[..i] == [x] + tail[..i - 1] && all[i] == tail[i - 1];
        SupportedCons(x, tail[..i - 1], unsupported);
        assert rest[Supported(tail[..i - 1], unsupported)] == calls[Supported(all[..i], unsupported)];
      } else {
        assert all[..0] == [];
      }
    }
  }

  /**
   * A broadcast begins one call per connection to a peer not known as unsupported, in order and with
   * multiplicity, each with the message, and none for any other; nothing else of the node changes.
   */
  lemma {:induction false} BroadcastAsks(
      lib: Library, s: State, connections: seq<string>, unsupported: set<string>, message: Bytes)
    ensures var t := Run(lib, s, Broadcast(connections, unsupported, message));
            s.p.calls <= t.p.calls &&
            AsksEach(t.p.calls[|s.p.calls|..], connections, unsupported, message) &&
            t == s.(p := s.p.(calls := t.p.calls))
    decreases |connections|
  {
    if connections == [] {
      assert s.p.calls[|s.p.calls|..] == [];
    } else {
      hide Do, AsksEach, Supported;
      var x, tail := connections[0], connections[1..];
      var rest := Broadcast(tail, unsupported, message);
      assert connections == [x] + tail;
      if x in unsupported {
        Associative(rest, [], []);
        BroadcastAsks(lib, s, tail, unsupported, message);
        var begun := Run(lib, s, rest).p.calls[|s.p.calls|..];
        Associative(begun, [], []);
        AsksEachCons(begun, x, tail, unsupported, message, [], begun);
      } else {
        var s1 := Do(lib, s, SendStart(x, message));
        DialsIff(lib, s, x, message);
        OnlyCalls(lib, s, x, message);
        HeadAndRest(lib, s, SendStart(x, message), rest);
        BroadcastAsks(lib, s1, tail, unsupported, message);
        var t := Run(lib, s1, rest);
        var first := s1.p.calls[|s.p.calls|..];
        SplitTwice(s.p.calls, s1.p.calls, t.p.calls);
        AsksEachCons(t.p.calls[|s.p.calls|..], x, tail, unsupported, message, first, t.p.calls[|s1.p.calls|..]);
      }
    }
  }

  lemma OnlyCalls(lib: Library, s: State, peer: string, message: Bytes)
    ensures var t := Do(lib, s, SendStart(peer, message)); t == s.(p := s.p.(calls := t.p.calls))
  {
  }

  lemma HeadAndRest(lib: Library, s: State, step: Step, rest: seq<Step>)
    ensures Run(lib, s, [step] + rest) == Run(lib, Do(lib, s, step), rest)
  {
    hide Do;
    assert ([step] + rest)[1..] == rest;
  }

  lemma SplitTwice<T>(a: seq<T>, b: seq<T>, c: seq<T>)
    requires a <= b <= c
    ensures c[|a|..] == b[|a|..] + c[|b|..] && a <= c
  {
  }

  /** The calls stand for pending wants, one per key, each with the want message of its CID. */
  predicate AsksForEach(
      lib: Library, calls: seq<Pool.Call>, w: Wants.State, peer: string, keys: seq<string>)
  {
    |calls| == |keys| &&
    forall i | 0 <= i < |keys| ::
      keys[i] in w.pending && w.pending[keys[i]] < |w.deferreds| && calls[i].peer == peer &&
      calls[i].message == WantMessage(lib, w.deferreds[w.pending[keys[i]]].cid)
  }

  /** On connection, one call begins for each pending want, with the message that asks for its CID. */
  lemma {:induction false} RequestsAsk(lib: Library, s: State, peer: string, keys: seq<string>)
    requires forall key | key in keys :: key in s.w.pending && s.w.pending[key] < |s.w.deferreds|
    ensures var t := Run(lib, s, Requests(lib, s.w, peer, keys));
            s.p.calls <= t.p.calls && AsksForEach(lib, t.p.calls[|s.p.calls|..], s.w, peer, keys) &&
            t == s.(p := s.p.(calls := t.p.calls))
    decreases |keys|
  {
    hide WantMessage, Do;
    if keys == [] {
      assert s.p.calls[|s.p.calls|..] == [];
    } else {
      var front, key := keys[..|keys| - 1], keys[|keys| - 1];
      assert key in keys;
      RequestsAsk(lib, s, peer, front);
      var steps := Requests(lib, s.w, peer, front);
      var msg := WantMessage(lib, s.w.deferreds[s.w.pending[key]].cid);
      assert Requests(lib, s.w, peer, keys) == steps + [SendStart(peer, msg)];
      hide Run, Requests;
      RunSnoc(lib, s, steps, SendStart(peer, msg));
      var m := Run(lib, s, steps);
      DialsIff(lib, m, peer, msg);
      OnlyCalls(lib, m, peer, msg);
      SplitTwice(s.p.calls, m.p.calls, Do(lib, m, SendStart(peer, msg)).p.calls);
    }
  }
}
