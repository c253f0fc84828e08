/** Two nodes: a want sent by one and the block served by the other, under every interleaving and chunking. */
module Exchange {
  import opened Basics
  import opened Varints
  import opened Cids
  import opened Codec
  import opened Framing
  import opened Node
  import opened NodeLaws
  import CodecLaws
  import Wants
  import Pool

  // ---------------------------------------------------------------- what travels on a stream

  /** The bytes sent on a stream, in order. */
  function BytesOn(wire: seq<Pool.Sent>, stream: nat): Bytes {
    if wire == [] then []
    else (if wire[0].stream == stream then wire[0].bytes else []) + BytesOn(wire[1..], stream)
  }

  /** The messages in them. */
  function MessagesOn(wire: seq<Pool.Sent>, stream: nat): seq<Bytes> {
    if wire == [] then []
    else (if wire[0].stream == stream then [Unframe(wire[0].bytes)] else []) + MessagesOn(wire[1..], stream)
  }

  lemma {:induction false} MessagesOnAppend(a: seq<Pool.Sent>, b: seq<Pool.Sent>, stream: nat)
    ensures MessagesOn(a + b, stream) == MessagesOn(a, stream) + MessagesOn(b, stream)
    decreases |a|
  {
    hide Unframe;
    if a == [] {
      assert a + b == b;
    } else {
      assert (a + b)[1..] == a[1..] + b && (a + b)[0] == a[0] && a + b != [];
      MessagesOnAppend(a[1..], b, stream);
      var first := if a[0].stream == stream then [Unframe(a[0].bytes)] else [];
      Associative(first, MessagesOn(a[1..], stream), MessagesOn(b, stream));
    }
  }

  lemma {:induction false} BytesAreFrames(wire: seq<Pool.Sent>, stream: nat)
    requires forall x | x in wire :: Framed(x.bytes)
    ensures BytesOn(wire, stream) == Frames(MessagesOn(wire, stream))
  {
    hide Unframe, Frame;
    if wire != [] {
      BytesAreFrames(wire[1..], stream);
      assert wire[0] in wire;
      var tail := MessagesOn(wire[1..], stream);
      assert [Unframe(wire[0].bytes)] + tail != [] && ([Unframe(wire[0].bytes)] + tail)[1..] == tail;
      assert [] + tail == tail;
    }
  }

  lemma {:induction false} PositionOn(wire: seq<Pool.Sent>, x: Pool.Sent) returns (k: nat)
    requires x in wire
    ensures k < |MessagesOn(wire, x.stream)| && MessagesOn(wire, x.stream)[k] == Unframe(x.bytes)
    decreases |wire|
  {
    hide Unframe;
    if wire[0] == x {
      k := 0;
    } else {
      var j := PositionOn(wire[1..], x);
      k := if wire[0].stream == x.stream then j + 1 else j;
    }
  }

  /** What was sent between two moments stands behind what had been sent before. */
  lemma NewPositionOn(before: seq<Pool.Sent>, wire: seq<Pool.Sent>, x: Pool.Sent) returns (k: nat)
    requires before <= wire && x in wire && x !in before
    ensures |MessagesOn(before, x.stream)| <= k < |MessagesOn(wire, x.stream)|
    ensures MessagesOn(wire, x.stream)[k] == Unframe(x.bytes)
  {
    hide Unframe;
    var tail := wire[|before|..];
    assert wire == before + tail;
    var j := PositionOn(tail, x);
    MessagesOnAppend(before, tail, x.stream);
    k := |MessagesOn(before, x.stream)| + j;
  }

  lemma MoreMessages(before: seq<Pool.Sent>, wire: seq<Pool.Sent>, stream: nat)
    requires before <= wire
    ensures MessagesOn(before, stream) <= MessagesOn(wire, stream)
  {
    assert wire == before + wire[|before|..];
    MessagesOnAppend(before, wire[|before|..], stream);
  }

  /** The message at a position of the wire comes next on its stream. */
  lemma MessageAt(wire: seq<Pool.Sent>, n: nat)
    requires n < |wire|
    ensures MessagesOn(wire[..n + 1], wire[n].stream)
         == MessagesOn(wire[..n], wire[n].stream) + [Unframe(wire[n].bytes)]
  {
    hide Unframe;
    assert wire[..n + 1] == wire[..n] + [wire[n]];
    MessagesOnAppend(wire[..n], [wire[n]], wire[n].stream);
    assert [wire[n]][1..] == [];
    assert MessagesOn([wire[n]], wire[n].stream) == [Unframe(wire[n].bytes)] + [];
  }

  // ---------------------------------------------------------------- what a loop makes of it

  function Received(s: State, stream: nat): Bytes {
    if stream < |s.loops| then s.loops[stream].received else []
  }

  /** How many messages the loop of a stream has delivered. */
  function Delivered(s: State, stream: nat): nat {
    if stream < |s.loops| then |s.loops[stream].delivered| else 0
  }

  lemma {:induction false} WholeAtLeast(msgs: seq<Bytes>, j: nat, n: nat)
    requires j <= |msgs| && |Frames(msgs[..j])| <= n
    ensures Whole(msgs, n) >= j
    decreases j
  {
    hide Frame;
    if j > 0 {
      assert msgs[..j][1..] == msgs[1..][..j - 1];
      WholeAtLeast(msgs[1..], j - 1, n - |Frame(msgs[0])|);
    }
  }

  /**
   * A loop that has received any part of what was sent on a stream, cut anywhere, has delivered the
   * messages that are whole in it, in order, whatever else the node did.
   */
  lemma LoopDelivers(lib: Library, s: State, i: nat, wire: seq<Pool.Sent>, stream: nat)
    requires Valid(lib, s) && (forall x | x in wire :: Framed(x.bytes)) && Framable(MessagesOn(wire, stream))
    requires Received(s, i) <= BytesOn(wire, stream)
    ensures i < |s.loops| ==> s.loops[i].delivered <= MessagesOn(wire, stream)
    ensures forall sent | sent <= wire && i < |s.loops| && BytesOn(sent, stream) <= Received(s, i) ::
      MessagesOn(sent, stream) <= s.loops[i].delivered
  {
    if i < |s.loops| {
      LoopSplits(lib, s, i);
      hide Split, Valid, Framed, Frames, Frame, MessagesOn, BytesOn, Whole, EndOf;
      BytesAreFrames(wire, stream);
      var msgs, n := MessagesOn(wire, stream), |s.loops[i].received|;
      assert s.loops[i].received == Frames(msgs)[..n];
      SplitOfPrefix(msgs, n);
      forall sent | sent <= wire && BytesOn(sent, stream) <= Received(s, i)
        ensures MessagesOn(sent, stream) <= s.loops[i].delivered
      {
        WholeOfPart(sent, wire, stream, n);
      }
    }
  }

  /** A part of the wire that is shorter than `n` bytes is among the messages whole in `n` bytes. */
  lemma WholeOfPart(sent: seq<Pool.Sent>, wire: seq<Pool.Sent>, stream: nat, n: nat)
    requires sent <= wire && |BytesOn(sent, stream)| <= n && forall x | x in wire :: Framed(x.bytes)
    ensures var msgs := MessagesOn(wire, stream); MessagesOn(sent, stream) <= msgs[..Whole(msgs, n)]
  {
    hide Framed, Frames, MessagesOn, BytesOn, Whole;
    assert forall x | x in sent :: x in wire;
    BytesAreFrames(sent, stream);
    MoreMessages(sent, wire, stream);
    var msgs, j := MessagesOn(wire, stream), |MessagesOn(sent, stream)|;
    assert msgs[..j] == MessagesOn(sent, stream);
    WholeAtLeast(msgs, j, n);
  }

  lemma LoopSplits(lib: Library, s: State, i: nat)
    requires Valid(lib, s) && i < |s.loops|
    ensures Split(s.loops[i].received) == Some(Pass(s.loops[i].delivered, s.loops[i].buffer))
  {
    hide Wants.Valid, Pool.Valid, SourcesOk, HandledOk, ServesOk, ServedOk;
  }

  lemma HandlerExists(lib: Library, s: State, i: nat, k: nat) returns (h: nat)
    requires Valid(lib, s) && i < |s.loops| && k < |s.loops[i].delivered|
    requires MessageIn(lib, s.loops[i].delivered[k]).Some?
    ensures HandlerOf(s, h, Wants.Source(i, k))
    ensures s.w.handlers[h].message == MessageIn(lib, s.loops[i].delivered[k]).value
  {
    hide MessageIn, Wants.Valid, Pool.Valid, ServesOk, ServedOk;
    assert i != |s.loops|;
    h :| HandlerOf(s, h, Wants.Source(i, k));
  }

  // ---------------------------------------------------------------- runs of _serveBlockOnStream

  lemma FinishServes(s: State, h: nat)
    ensures s.serves <= Finish(s, h).serves
    ensures forall k | |s.serves| <= k < |Finish(s, h).serves| :: Finish(s, h).serves[k].progress.Waiting?
  {
  }

  lemma {:induction false} MessagesServe(lib: Library, s: State, stream: nat, index: nat, msgs: seq<Bytes>)
    ensures var t := AfterMessages(lib, s, stream, index, msgs);
            s.serves <= t.serves && forall k | |s.serves| <= k < |t.serves| :: t.serves[k].progress.Waiting?
    decreases |msgs|
  {
    hide Finish, MessageIn;
    if msgs != [] {
      var source := Wants.Source(stream, index);
      var t := AfterMessage(lib, s, source, msgs[0]);
      if MessageIn(lib, msgs[0]).Some? {
        FinishServes(s.(w := Wants.AfterDeliver(s.w, source, MessageIn(lib, msgs[0]).value)), |s.w.handlers|);
      }
      MessagesServe(lib, t, stream, index + 1, msgs[1..]);
    }
  }

  /** Only the answer of the store moves a run on. */
  lemma ServesWait(lib: Library, s: State, step: Step)
    requires !step.GetDone?
    ensures var t := Do(lib, s, step);
            s.serves <= t.serves && forall k | |s.serves| <= k < |t.serves| :: t.serves[k].progress.Waiting?
  {
    hide Finish, Split, AfterMessages, Wants.AfterHash, Wants.AfterPut;
    match step {
      case Chunk(i, bytes) =>
        if i < |s.loops| && s.loops[i].live && Split(s.loops[i].buffer + bytes).Some? {
          var loop, pass := s.loops[i], Split(s.loops[i].buffer + bytes).value;
          var next := loop.(received := loop.received + bytes, delivered := loop.delivered + pass.messages,
                            buffer := pass.rest);
          MessagesServe(lib, s.(loops := s.loops[i := next]), i, |loop.delivered|, pass.messages);
        }
      case HashDone(h) => FinishServes(s.(w := Wants.AfterHash(lib, s.w, h)), h);
      case PutDone(h, stored) => FinishServes(s.(w := Wants.AfterPut(s.w, h, stored)), h);
      case _ =>
    }
  }

  /** A run of `_serveBlockOnStream` for `cid` that the message `from` asked for. */
  predicate Serves(s: State, t: nat, from: Wants.Source, cid: Cid) {
    t < |s.serves| && s.serves[t].cid == cid && s.serves[t].handler < |s.w.handlers| &&
    s.w.handlers[s.serves[t].handler].source == from
  }

  /** None of them has failed. */
  predicate NoneSkipped(s: State, from: Wants.Source, cid: Cid) {
    forall t | 0 <= t < |s.serves| :: Serves(s, t, from, cid) ==> !s.serves[t].progress.Skipped?
  }

  /** None of them still waits for the store. */
  predicate NoneWaits(s: State, from: Wants.Source, cid: Cid) {
    forall t | 0 <= t < |s.serves| :: Serves(s, t, from, cid) ==> !s.serves[t].progress.Waiting?
  }

  predicate Succeeds(s: State, step: Step, from: Wants.Source, cid: Cid) {
    step.GetDone? && Serves(s, step.serve, from, cid) && s.serves[step.serve].progress.Waiting? ==>
      step.found && step.sent
  }

  /** In a run, the reads and sends of these alone succeed; any other may fail. */
  predicate TheySucceed(lib: Library, s: State, steps: seq<Step>, from: Wants.Source, cid: Cid)
    decreases |steps|
  {
    steps != [] ==> Succeeds(s, steps[0], from, cid) && TheySucceed(lib, Do(lib, s, steps[0]), steps[1..], from, cid)
  }

  /** Serves that are left as they were or are not of this request, and new ones that wait, skip nothing. */
  lemma SkipsNothing(s: State, t: State, from: Wants.Source, cid: Cid)
    requires NoneSkipped(s, from, cid) && |s.serves| <= |t.serves| && |s.w.handlers| <= |t.w.handlers|
    requires forall h | 0 <= h < |s.w.handlers| :: t.w.handlers[h].source == s.w.handlers[h].source
    requires forall k | 0 <= k < |s.serves| ::
      s.serves[k].handler < |s.w.handlers| && t.serves[k].cid == s.serves[k].cid &&
      t.serves[k].handler == s.serves[k].handler &&
      (t.serves[k].progress.Skipped? ==> s.serves[k].progress.Skipped? || !Serves(s, k, from, cid))
    requires forall k | |s.serves| <= k < |t.serves| :: t.serves[k].progress.Waiting?
    ensures NoneSkipped(t, from, cid)
  {
    forall k | 0 <= k < |t.serves| && Serves(t, k, from, cid)
      ensures !t.serves[k].progress.Skipped?
    {
      assert k < |s.serves| ==> Serves(s, k, from, cid);
    }
  }

  lemma GetSkipsNothing(lib: Library, s: State, step: Step, from: Wants.Source, cid: Cid)
    requires step.GetDone? && (forall v | v in s.serves :: v.handler < |s.w.handlers|)
    requires NoneSkipped(s, from, cid) && cid in s.w.store && Succeeds(s, step, from, cid)
    ensures NoneSkipped(Do(lib, s, step), from, cid)
  {
    hide BlockMessage, NoneSkipped, Pool.Do;
    var t := Do(lib, s, step);
    forall k | 0 <= k < |s.serves|
      ensures s.serves[k].handler < |s.w.handlers|
      ensures t.serves[k].cid == s.serves[k].cid && t.serves[k].handler == s.serves[k].handler
      ensures t.serves[k].progress.Skipped? ==> s.serves[k].progress.Skipped? || !Serves(s, k, from, cid)
    {
      assert s.serves[k] in s.serves;
    }
    SkipsNothing(s, t, from, cid);
  }

  lemma OneStepSkips(lib: Library, s: State, step: Step, from: Wants.Source, cid: Cid)
    requires Valid(lib, s) && NoneSkipped(s, from, cid) && cid in s.w.store && Succeeds(s, step, from, cid)
    ensures var t := Do(lib, s, step); NoneSkipped(t, from, cid) && cid in t.w.store
  {
    hide Do, Valid, NoneSkipped, Succeeds;
    StepGrows(lib, s, step);
    ServesHaveHandlers(lib, s);
    var t := Do(lib, s, step);
    if step.GetDone? {
      GetSkipsNothing(lib, s, step, from, cid);
    } else {
      ServesWait(lib, s, step);
      assert forall k | 0 <= k < |s.serves| :: t.serves[k] == s.serves[k] && s.serves[k] in s.serves;
      SkipsNothing(s, t, from, cid);
    }
  }

  lemma ServesHaveHandlers(lib: Library, s: State)
    requires Valid(lib, s)
    ensures forall v | v in s.serves :: v.handler < |s.w.handlers|
  {
    hide Wants.Valid, Pool.Valid, LoopsOk, SourcesOk, HandledOk, ServedOk;
  }

  /** A block in the store is not skipped in a run in which its own reads and sends succeed. */
  lemma {:induction false} NeverSkips(lib: Library, s: State, steps: seq<Step>, from: Wants.Source, cid: Cid)
    requires lib.Lawful() && Valid(lib, s) && NoneSkipped(s, from, cid) && cid in s.w.store
    requires TheySucceed(lib, s, steps, from, cid)
    ensures NoneSkipped(Run(lib, s, steps), from, cid)
    decreases |steps|
  {
    hide Valid, NoneSkipped, Do, Succeeds;
    if steps != [] {
      OneStepSkips(lib, s, steps[0], from, cid);
      StepKeeps(lib, s, steps[0]);
      NeverSkips(lib, Do(lib, s, steps[0]), steps[1..], from, cid);
    }
  }

  // ---------------------------------------------------------------- the answer on its way

  lemma {:induction false} NoAbortInDelivers(lib: Library, stream: nat, index: nat, msgs: seq<Bytes>, d: nat)
    ensures var ws := DeliverSteps(lib, stream, index, msgs);
            Wants.Abort(d) !in ws && Wants.RejectAll !in ws
    decreases |msgs|
  {
    hide MessageIn;
    if msgs != [] {
      NoAbortInDelivers(lib, stream, index + 1, msgs[1..], d);
    }
  }

  lemma NoAbort(lib: Library, s: State, step: Step, d: nat)
    requires step != Abort(d) && step != Stop
    ensures Wants.Abort(d) !in WantSteps(lib, s, step) && Wants.RejectAll !in WantSteps(lib, s, step)
  {
    hide DeliverSteps, Split;
    if step.Chunk? {
      var i := step.stream;
      if i < |s.loops| && s.loops[i].live && Split(s.loops[i].buffer + step.bytes).Some? {
        NoAbortInDelivers(lib, i, |s.loops[i].delivered|, Split(s.loops[i].buffer + step.bytes).value.messages, d);
      }
    }
  }

  lemma {:induction false} AnsweringThroughout(
      lib: Library, s: State, d: nat, cid: Cid, from: Wants.Source, b: Block, steps: seq<Step>)
    requires lib.Lawful() && Wants.Valid(lib, s.w) && Wants.Answering(lib, s.w, d, cid, from, b)
    requires PrefixToCid(lib, b.prefix, b.data) == Some(cid)
    requires Abort(d) !in steps && Stop !in steps
    ensures Wants.Answering(lib, Run(lib, s, steps).w, d, cid, from, b)
    decreases |steps|
  {
    hide Do, WantSteps, Wants.Valid, Wants.Answering, PrefixToCid;
    if steps != [] {
      Projects(lib, s, steps[0]);
      NoAbort(lib, s, steps[0], d);
      Wants.AnsweringThroughout(lib, s.w, d, cid, from, b, WantSteps(lib, s, steps[0]));
      AnsweringThroughout(lib, Do(lib, s, steps[0]), d, cid, from, b, steps[1..]);
    }
  }

  /** Every handler of this message is through. */
  predicate HasRead(s: State, from: Wants.Source) {
    forall hd | hd in s.w.handlers && hd.source == from :: hd.activity.Finished?
  }

  /**
   * A want is answered, whatever else happens meanwhile or is still going on: if it is pending, is
   * neither aborted nor stopped, and a message with its block is delivered during the run, then once that
   * message has been read and no put for the want is awaited, it is resolved, with data its CID names.
   */
  lemma WantIsAnswered(
      lib: Library, a0: State, steps: seq<Step>, d: nat, cid: Cid, i: nat, k: nat, data: Bytes)
    requires lib.Lawful() && cid.WellFormed() && cid.codec < TWO_31 && lib.Names(cid, data)
    requires Valid(lib, a0)
    requires d < |a0.w.deferreds| && a0.w.deferreds[d].cid == cid && Wants.InPending(lib, a0.w, d)
    requires Abort(d) !in steps && Stop !in steps
    requires Delivered(a0, i) <= k
    requires var a := Run(lib, a0, steps);
             i < |a.loops| && k < |a.loops[i].delivered| &&
             a.loops[i].delivered[k] == BlockMessage(cid, data) && |BlockMessage(cid, data)| < TWO_31 &&
             HasRead(a, Wants.Source(i, k)) && !Wants.Held(a.w, d)
    ensures var a := Run(lib, a0, steps);
            d < |a.w.deferreds| && a.w.deferreds[d].outcome.Resolved? &&
            lib.Names(cid, a.w.deferreds[d].outcome.value)
  {
    hide Run, PrefixToCid, Prefix, MessageIn, BlockMessage, Split, Wants.Held;
    var a := Run(lib, a0, steps);
    var b := Block(Prefix(cid), data);
    var from := Wants.Source(i, k);
    CodecLaws.BlockSurvivesTheWire(lib, cid, data);
    assert Wants.Answering(lib, a0.w, d, cid, from, b) by {
      assert forall h | 0 <= h < |a0.w.handlers| :: a0.w.handlers[h].source != from;
    }
    AnsweringThroughout(lib, a0, d, cid, from, b, steps);
    RunKeeps(lib, a0, steps);
    var h := HandlerExists(lib, a, i, k);
    assert a.w.handlers[h] in a.w.handlers;
    hide Wants.Valid, Wants.Answering;
    Wants.AnsweredWhenRead(lib, a.w, d, cid, from, b);
  }

  // ---------------------------------------------------------------- serving the request

  /** The handler of a message delivered during a run, and its serves, all belong to the run. */
  lemma ServeIsNew(lib: Library, b0: State, b1: State, h: nat, n: nat) returns (t: nat)
    requires Valid(lib, b0) && Valid(lib, b1) && Grows(b0, b1)
    requires h in b1.replies && h < |b1.w.handlers| && n < |b1.w.handlers[h].message.wants|
    requires var src := b1.w.handlers[h].source; Delivered(b0, src.stream) <= src.index
    ensures |b0.serves| <= t < |b1.serves|
    ensures b1.serves[t].handler == h
    ensures b1.serves[t].stream == b1.replies[h] && b1.serves[t].cid == b1.w.handlers[h].message.wants[n]
  {
    hide Wants.Valid, Pool.Valid, MessageIn, Split, ServedOk, HandledOk;
    assert HasServe(b1, h, n);
    t :| ServeOf(b1, t, h, n);
    forall k | 0 <= k < |b0.serves|
      ensures b1.serves[k].handler == b0.serves[k].handler < |b0.w.handlers|
    {
      assert b1.serves[k].(progress := Waiting) == b0.serves[k].(progress := Waiting);
    }
    assert forall g | 0 <= g < |b0.w.handlers| ::
      b1.w.handlers[g].source == b0.w.handlers[g].source &&
      b0.w.handlers[g].source.index < Delivered(b0, b0.w.handlers[g].source.stream);
  }

  /** Every handler of this message is through and found `stream` pooled for its peer. */
  ghost predicate RepliesOn(s: State, from: Wants.Source, stream: nat) {
    forall h: nat | HandlerOf(s, h, from) :: h in s.replies && s.replies[h] == stream
  }

  /**
   * A request is served, whatever else succeeds, fails or is still going on: when its message is
   * delivered during a run, its handler found `jb` pooled, and its own reads and sends are done and
   * succeeded, then a block message for the CID has been sent on `jb`.
   */
  lemma RequestIsServed(
      lib: Library, b0: State, steps: seq<Step>, cid: Cid, ib: nat, m: nat, jb: nat) returns (x: Pool.Sent, data: Bytes)
    requires lib.Lawful() && cid.WellFormed() && cid.hashCode == SHA2_256
    requires Valid(lib, b0) && cid in b0.w.store
    requires Delivered(b0, ib) <= m && |WantMessage(lib, cid)| < TWO_31
    requires TheySucceed(lib, b0, steps, Wants.Source(ib, m), cid)
    requires var b1 := Run(lib, b0, steps);
             ib < |b1.loops| && m < |b1.loops[ib].delivered| &&
             b1.loops[ib].delivered[m] == WantMessage(lib, cid) &&
             RepliesOn(b1, Wants.Source(ib, m), jb) && NoneWaits(b1, Wants.Source(ib, m), cid)
    ensures lib.Names(cid, data) && x.stream == jb && x.bytes == Frame(BlockMessage(cid, data))
    ensures x in Run(lib, b0, steps).p.wire && x !in b0.p.wire
  {
    hide Run, MessageIn, WantMessage, BlockMessage, Frame, TheySucceed;
    var b1 := Run(lib, b0, steps);
    var from := Wants.Source(ib, m);
    RunKeeps(lib, b0, steps);
    RunGrows(lib, b0, steps);
    CodecLaws.WantSurvivesTheWire(lib, cid);
    var h := HandlerExists(lib, b1, ib, m);
    assert b1.w.handlers[h].message.wants == [cid];
    var t := ServeIsNew(lib, b0, b1, h, 0);
    NotYetServing(lib, b0, from, cid);
    NeverSkips(lib, b0, steps, from, cid);
    ServesFrom(lib, b1, t, h);
    assert Serves(b1, t, from, cid);
    assert b1.serves[t].progress.Served?;
    data :| Carries(lib, b1, t, data);
    x := SentBlock(b1, t, data);
    hide Wants.Valid, Grows;
    assert x !in b0.p.wire;
  }

  /** Before a message is delivered, nothing serves it. */
  lemma NotYetServing(lib: Library, s: State, from: Wants.Source, cid: Cid)
    requires Valid(lib, s) && Delivered(s, from.stream) <= from.index
    ensures NoneSkipped(s, from, cid)
  {
    hide Wants.Valid, Pool.Valid, LoopsOk, HandledOk, ServesOk, ServedOk, MessageIn;
    assert forall h | 0 <= h < |s.w.handlers| :: s.w.handlers[h].source != from;
  }

  // ---------------------------------------------------------------- the exchange

  /** The message has a block that answers a want for the CID. */
  predicate Answers(lib: Library, message: Decoded, cid: Cid) {
    exists b | b in message.blocks :: PrefixToCid(lib, b.prefix, b.data) == Some(cid)
  }

  /** Every answer among the messages `low` to `high` of stream `i` is through. */
  predicate AnswersRead(lib: Library, s: State, i: nat, low: nat, high: nat, cid: Cid) {
    forall hd | hd in s.w.handlers && hd.source.stream == i && low <= hd.source.index < high ::
      Answers(lib, hd.message, cid) ==> hd.activity.Finished?
  }

  lemma AnswerIsRead(lib: Library, s: State, i: nat, low: nat, k: nat, high: nat, cid: Cid, data: Bytes)
    requires lib.Lawful() && cid.WellFormed() && cid.codec < TWO_31 && lib.Names(cid, data) && Valid(lib, s)
    requires i < |s.loops| && low <= k < high && k < |s.loops[i].delivered|
    requires s.loops[i].delivered[k] == BlockMessage(cid, data) && |BlockMessage(cid, data)| < TWO_31
    requires AnswersRead(lib, s, i, low, high, cid)
    ensures HasRead(s, Wants.Source(i, k))
  {
    hide MessageIn, PrefixToCid, Prefix, BlockMessage;
    hide Wants.Valid, Pool.Valid, LoopsOk, HandledOk, ServesOk, ServedOk;
    CodecLaws.BlockSurvivesTheWire(lib, cid, data);
    forall hd | hd in s.w.handlers && hd.source == Wants.Source(i, k)
      ensures hd.activity.Finished?
    {
      var h :| 0 <= h < |s.w.handlers| && s.w.handlers[h] == hd;
      var b := Block(Prefix(cid), data);
      assert b in hd.message.blocks;
      assert Answers(lib, hd.message, cid);
    }
  }

  /** The message that the request is, at position `n` of A's wire, as B numbers it. */
  function RequestSource(a1: State, n: nat, ja: nat, ib: nat): Wants.Source {
    Wants.Source(ib, |MessagesOn(Upto(a1.p.wire, n), ja)|)
  }

  /** What the two-node theorem asks of the states it speaks of. */
  ghost predicate Meets(
      lib: Library, cid: Cid, d: nat, n: nat,
      a0: State, a1: State, a2: State, a3: State, b0: State, b1: State, b2: State,
      ja: nat, ib: nat, jb: nat, ia: nat)
  {
    // A's want is live
    d < |a0.w.deferreds| && a0.w.deferreds[d].cid == cid && Wants.InPending(lib, a0.w, d) &&
    // the request is sent between a0 and a1
    |a0.p.wire| <= n < |a1.p.wire| && a1.p.wire[n].stream == ja &&
    a1.p.wire[n].bytes == Frame(WantMessage(lib, cid)) &&
    // B holds the data and has served the request
    cid in b0.w.store &&
    RepliesOn(b1, RequestSource(a1, n, ja, ib), jb) && NoneWaits(b1, RequestSource(a1, n, ja, ib), cid) &&
    // A has dealt with the answer
    AnswersRead(lib, a2, ia, Delivered(a0, ia), |MessagesOn(b1.p.wire, jb)|, cid) && !Wants.Held(a2.w, d) &&
    // the stream from A to B
    Framable(MessagesOn(a3.p.wire, ja)) &&
    Received(b0, ib) <= BytesOn(a0.p.wire, ja) && ib < |b1.loops| &&
    BytesOn(a1.p.wire[..n + 1], ja) <= Received(b1, ib) <= BytesOn(a3.p.wire, ja) &&
    // the stream from B to A
    Framable(MessagesOn(b2.p.wire, jb)) &&
    Received(a0, ia) <= BytesOn(b0.p.wire, jb) && ia < |a2.loops| &&
    BytesOn(b1.p.wire, jb) <= Received(a2, ia) <= BytesOn(b2.p.wire, jb)
  }

  /**
   * Two-node exchange.  Node A has a live want at `a0` and has sent the request by `a1`, at position `n`
   * of its wire; node B holds the data at `b0`.  By `b1`, B has received at least up to the request, has
   * found `jb` pooled when it had read it, and has read and sent the block without failing.  By `a2`, A
   * has received what B had sent on `jb` by `b1`, has read the answers among it and awaits no put for the
   * want.  Everything else at both nodes is arbitrary: other messages, wants, peers and sends come, fail
   * or are under way, and each stream brings the bytes sent on it in order, cut into any chunks, perhaps
   * more of them than named here (`a3` and `b2` are any later states).  Then A's want is resolved with
   * exactly B's data.
   */
  lemma TwoNodeExchange(
      lib: Library, cid: Cid, data: Bytes, d: nat, n: nat,
      a0: State, toA1: seq<Step>, toA2: seq<Step>, toA3: seq<Step>,
      b0: State, toB1: seq<Step>, toB2: seq<Step>,
      ja: nat, ib: nat, jb: nat, ia: nat)
    requires lib.Lawful() && cid.WellFormed() && cid.codec < TWO_31
    requires lib.Names(cid, data) && lib.CollisionFree(data)
    requires Valid(lib, a0) && Valid(lib, b0)
    requires Abort(d) !in toA1 + toA2 && Stop !in toA1 + toA2
    requires var a1, b1 := Run(lib, a0, toA1), Run(lib, b0, toB1);
             var a2, b2 := Run(lib, a1, toA2), Run(lib, b1, toB2);
             Meets(lib, cid, d, n, a0, a1, a2, Run(lib, a2, toA3), b0, b1, b2, ja, ib, jb, ia) &&
             TheySucceed(lib, b0, toB1, RequestSource(a1, n, ja, ib), cid)
    ensures var a2 := Run(lib, Run(lib, a0, toA1), toA2);
            d < |a2.w.deferreds| && a2.w.deferreds[d].outcome == Wants.Resolved(data)
  {
    hide Run, WantMessage, BlockMessage, Valid, MessagesOn, BytesOn, Library.Names, Frame, Unframe, Framed;
    hide RepliesOn, NoneWaits, TheySucceed, AnswersRead, Wants.Held, Wants.InPending;
    var a1, b1 := Run(lib, a0, toA1), Run(lib, b0, toB1);
    var a2, b2 := Run(lib, a1, toA2), Run(lib, b1, toB2);
    var a3 := Run(lib, a2, toA3);
    NamesSha(lib, cid, data);
    // the request reaches B
    var m := RequestArrives(lib, cid, a0, toA1, toA2, toA3, n, b0, b1, toB1, ja, ib);
    // B answers
    var reply, found := RequestIsServed(lib, b0, toB1, cid, ib, m, jb);
    // the answer reaches A
    RunJoins(lib, a0, toA1, toA2);
    var k := AnswerArrives(lib, b0, toB1, toB2, reply, BlockMessage(cid, found), a0, toA1 + toA2, jb, ia);
    RunKeeps(lib, a0, toA1 + toA2);
    AnswerIsRead(lib, a2, ia, Delivered(a0, ia), k, |MessagesOn(b1.p.wire, jb)|, cid, found);
    WantIsAnswered(lib, a0, toA1 + toA2, d, cid, ia, k, found);
    OnlyData(lib, cid, data, a2.w.deferreds[d].outcome.value);
  }

  lemma RequestArrives(
      lib: Library, cid: Cid, a0: State, toA1: seq<Step>, toA2: seq<Step>, toA3: seq<Step>, n: nat,
      b0: State, b1: State, toB1: seq<Step>, ja: nat, ib: nat) returns (m: nat)
    requires lib.Lawful() && Valid(lib, a0) && Valid(lib, b0) && b1 == Run(lib, b0, toB1)
    requires var wire := Run(lib, a0, toA1).p.wire;
             |a0.p.wire| <= n < |wire| && wire[n].stream == ja && wire[n].bytes == Frame(WantMessage(lib, cid))
    requires var a1 := Run(lib, a0, toA1);
             var a3 := Run(lib, Run(lib, a1, toA2), toA3);
             Framable(MessagesOn(a3.p.wire, ja)) &&
             Received(b0, ib) <= BytesOn(a0.p.wire, ja) && ib < |b1.loops| &&
             BytesOn(a1.p.wire[..n + 1], ja) <= Received(b1, ib) <= BytesOn(a3.p.wire, ja)
    ensures m == |MessagesOn(Run(lib, a0, toA1).p.wire[..n], ja)| && Delivered(b0, ib) <= m
    ensures m < |b1.loops[ib].delivered| && b1.loops[ib].delivered[m] == WantMessage(lib, cid)
    ensures |WantMessage(lib, cid)| < TWO_31
  {
    hide Run, WantMessage, Valid, MessagesOn, BytesOn, Frame, Unframe, Framed;
    var a1 := Run(lib, a0, toA1);
    var a2 := Run(lib, a1, toA2);
    var a3 := Run(lib, a2, toA3);
    m := |MessagesOn(a1.p.wire[..n], ja)|;
    ValidWires(lib, a0, toA1, toA2, toA3);
    RunKeeps(lib, b0, toB1);
    MessageAt(a1.p.wire, n);
    UnframeFrame(WantMessage(lib, cid));
    var sent := a1.p.wire[..n + 1];
    assert a0.p.wire <= a1.p.wire[..n] && sent <= a3.p.wire;
    MoreMessages(a0.p.wire, a1.p.wire[..n], ja);
    MoreMessages(sent, a3.p.wire, ja);
    assert MessagesOn(sent, ja)[m] == WantMessage(lib, cid) == MessagesOn(a3.p.wire, ja)[m];
    LoopDelivers(lib, b1, ib, a3.p.wire, ja);
    assert forall x | x in a0.p.wire :: x in a3.p.wire;
    MoreMessages(a0.p.wire, a3.p.wire, ja);
    LoopDelivers(lib, b0, ib, a0.p.wire, ja);
  }

  lemma AnswerArrives(
      lib: Library, b0: State, toB1: seq<Step>, toB2: seq<Step>, reply: Pool.Sent, msg: Bytes,
      a0: State, toA: seq<Step>, jb: nat, ia: nat) returns (k: nat)
    requires lib.Lawful() && Valid(lib, a0) && Valid(lib, b0)
    requires reply in Run(lib, b0, toB1).p.wire && reply !in b0.p.wire
    requires reply.stream == jb && reply.bytes == Frame(msg)
    requires var a2, b1 := Run(lib, a0, toA), Run(lib, b0, toB1);
             var b2 := Run(lib, b1, toB2);
             Framable(MessagesOn(b2.p.wire, jb)) &&
             Received(a0, ia) <= BytesOn(b0.p.wire, jb) && ia < |a2.loops| &&
             BytesOn(b1.p.wire, jb) <= Received(a2, ia) <= BytesOn(b2.p.wire, jb)
    ensures var a2 := Run(lib, a0, toA);
            Delivered(a0, ia) <= k < |a2.loops[ia].delivered| && a2.loops[ia].delivered[k] == msg && |msg| < TWO_31
    ensures k < |MessagesOn(Run(lib, b0, toB1).p.wire, jb)|
  {
    hide Run, Valid, MessagesOn, BytesOn, Frame, Unframe, Framed;
    var a2, b1 := Run(lib, a0, toA), Run(lib, b0, toB1);
    var b2 := Run(lib, b1, toB2);
    ValidWires(lib, b0, toB1, toB2, []);
    RunNothing(lib, b2);
    RunKeeps(lib, a0, toA);
    UnframeFrame(msg);
    k := NewPositionOn(b0.p.wire, b1.p.wire, reply);
    MoreMessages(b1.p.wire, b2.p.wire, jb);
    MoreMessages(b0.p.wire, b2.p.wire, jb);
    assert MessagesOn(b2.p.wire, jb)[k] == msg;
    LoopDelivers(lib, a2, ia, b2.p.wire, jb);
    assert forall x | x in b0.p.wire :: x in b2.p.wire;
    LoopDelivers(lib, a0, ia, b0.p.wire, jb);
  }

  /** Three runs in a row only add to the wire, and all of it is frames. */
  lemma ValidWires(lib: Library, s0: State, to1: seq<Step>, to2: seq<Step>, to3: seq<Step>)
    requires lib.Lawful() && Valid(lib, s0)
    ensures var s1 := Run(lib, s0, to1);
            var s2 := Run(lib, s1, to2);
            var s3 := Run(lib, s2, to3);
            s0.p.wire <= s1.p.wire <= s2.p.wire <= s3.p.wire && forall x | x in s3.p.wire :: Framed(x.bytes)
  {
    hide Run, Valid, Framed;
    var s1 := Run(lib, s0, to1);
    var s2 := Run(lib, s1, to2);
    var s3 := Run(lib, s2, to3);
    RunKeeps(lib, s0, to1);
    RunKeeps(lib, s1, to2);
    RunKeeps(lib, s2, to3);
    SentStays(lib, s0, to1);
    SentStays(lib, s1, to2);
    SentStays(lib, s2, to3);
    AllFramed(lib, s3);
  }

  lemma AllFramed(lib: Library, s: State)
    requires Valid(lib, s)
    ensures forall x | x in s.p.wire :: Framed(x.bytes)
  {
    hide Wants.Valid, LoopsOk, SourcesOk, HandledOk, ServesOk, ServedOk, Framed;
  }

  lemma ServesFrom(lib: Library, s: State, t: nat, h: nat)
    requires Valid(lib, s) && t < |s.serves| && s.serves[t].handler == h
    ensures h < |s.w.handlers|
  {
    ServesHaveHandlers(lib, s);
    assert s.serves[t] in s.serves;
  }

  lemma RunNothing(lib: Library, s: State)
    ensures Run(lib, s, []) == s
  {
  }

  lemma NamesSha(lib: Library, cid: Cid, data: Bytes)
    requires lib.Names(cid, data)
    ensures cid.hashCode == SHA2_256
  {
  }

  lemma OnlyData(lib: Library, cid: Cid, data: Bytes, other: Bytes)
    requires lib.Names(cid, data) && lib.Names(cid, other) && lib.CollisionFree(data)
    ensures other == data
  {
  }

  lemma SentStays(lib: Library, s: State, steps: seq<Step>)
    ensures s.p.wire <= Run(lib, s, steps).p.wire
  {
    RunGrows(lib, s, steps);
  }
}
