/** The shortest exchange: it meets every assumption of the two-node theorem, for any CID and data. */
module ExchangeExample {
  import opened Basics
  import opened Varints
  import opened Cids
  import opened Codec
  import opened Framing
  import opened Node
  import opened NodeLaws
  import opened Exchange
  import CodecLaws
  import Wants
  import Pool

  /** What becomes of the call that the want's broadcast began. */
  const REQUEST_STEPS: seq<Step> := [DialDone(0, Pool.DialOk), Resume(0, true)]

  function AnswerSteps(cid: Cid, data: Bytes): seq<Step> {
    [Chunk(0, Frame(BlockMessage(cid, data))), HashDone(0), PutDone(0, true)]
  }

  function ServingSteps(lib: Library, cid: Cid): seq<Step> {
    [Chunk(0, Frame(WantMessage(lib, cid))), GetDone(0, true, true)]
  }

  lemma RunOne(lib: Library, s: State, steps: seq<Step>)
    requires |steps| == 1
    ensures Run(lib, s, steps) == Do(lib, s, steps[0])
  {
    hide Do;
    assert steps[1..] == [];
  }

  lemma RunTwo(lib: Library, s: State, steps: seq<Step>)
    requires |steps| == 2
    ensures Run(lib, s, steps) == Do(lib, Do(lib, s, steps[0]), steps[1])
  {
    hide Do;
    RunOne(lib, Do(lib, s, steps[0]), steps[1..]);
  }

  lemma RunThree(lib: Library, s: State, steps: seq<Step>)
    requires |steps| == 3
    ensures Run(lib, s, steps) == Do(lib, Do(lib, Do(lib, s, steps[0]), steps[1]), steps[2])
  {
    hide Do;
    RunTwo(lib, Do(lib, s, steps[0]), steps[1..]);
  }

  lemma OneFrame(msg: Bytes)
    requires |msg| < TWO_31
    ensures Split([] + Frame(msg)) == Some(Pass([msg], [])) && Frames([msg]) == Frame(msg)
  {
    hide Frame;
    assert [msg][1..] == [];
    assert Frames([msg]) == Frame(msg) + [] == Frame(msg) == [] + Frame(msg);
    SplitFrames([msg], []);
    assert Frame(msg) + [] == Frame(msg);
    SplitNothing();
    assert [msg] + [] == [msg];
  }

  /** A frame that comes as one chunk on a fresh stream. */
  lemma WholeFrameArrives(lib: Library, s: State, msg: Bytes)
    requires |s.loops| == 1 && s.loops[0] == NewLoop(s.loops[0].peer) && |msg| < TWO_31
    ensures var loop := Loop(s.loops[0].peer, Frame(msg), [msg], [], true);
            Do(lib, s, Chunk(0, Frame(msg))) == AfterMessage(lib, s.(loops := [loop]), Wants.Source(0, 0), msg)
  {
    hide Frame, Split, AfterMessage;
    OneFrame(msg);
    var loop := Loop(s.loops[0].peer, Frame(msg), [msg], [], true);
    assert [] + Frame(msg) == Frame(msg) && [] + [msg] == [msg];
    assert s.loops[0 := loop] == [loop];
    assert [msg][1..] == [];
    var t := AfterMessage(lib, s.(loops := [loop]), Wants.Source(0, 0), msg);
    assert AfterMessages(lib, t, 0, 1, []) == t;
  }

  // ---------------------------------------------------------------- node A up to the request

  /** After `want(cid)` at a node with one connection, to B. */
  function Asking(lib: Library, cid: Cid): State {
    Run(lib, Do(lib, Start(map[]), Want(cid)), Broadcast(["B"], {}, WantMessage(lib, cid)))
  }

  lemma AskingIs(lib: Library, cid: Cid)
    ensures Asking(lib, cid) == State(
              Wants.State(map[lib.name(cid) := 0], [Wants.Deferred(cid, Wants.Open)], [], map[], []),
              Pool.State(map[], [], {}, [Pool.Call("B", WantMessage(lib, cid), 1, Pool.Dialing(1))], []),
              [], [], map[])
  {
    hide WantMessage;
    var connections: seq<string> := ["B"];
    var steps := Broadcast(connections, {}, WantMessage(lib, cid));
    assert connections[1..] == [] && connections[0] !in {};
    assert Broadcast(connections[1..], {}, WantMessage(lib, cid)) == [];
    assert steps == [SendStart("B", WantMessage(lib, cid))] + [];
    RunOne(lib, Do(lib, Start(map[]), Want(cid)), steps);
  }

  lemma AskedIs(lib: Library, cid: Cid)
    ensures var a1 := Run(lib, Asking(lib, cid), REQUEST_STEPS);
            var message := WantMessage(lib, cid);
            a1.w == Asking(lib, cid).w && a1.loops == [NewLoop("B")] && a1.serves == [] &&
            a1.p.wire == [Pool.Sent(0, Frame(message), Pool.SendCall(0))]
  {
    hide WantMessage, Frame;
    AskingIs(lib, cid);
    RunTwo(lib, Asking(lib, cid), REQUEST_STEPS);
  }

  // ---------------------------------------------------------------- node B

  function Holding(lib: Library, cid: Cid, data: Bytes): State {
    Run(lib, Start(map[cid := data]), [InboundStream("A")])
  }

  lemma HoldingIs(lib: Library, cid: Cid, data: Bytes)
    ensures Holding(lib, cid, data) == State(
              Wants.Start(map[cid := data]),
              Pool.State(map["A" := 0], [Pool.Stream("A", Pool.Inbound, false)], {}, [], []),
              [NewLoop("A")], [], map[])
  {
    RunOne(lib, Start(map[cid := data]), [InboundStream("A")]);
  }

  lemma ServedIs(lib: Library, cid: Cid, data: Bytes)
    requires lib.Lawful() && cid.WellFormed() && |WantMessage(lib, cid)| < TWO_31
    ensures var b1 := Run(lib, Holding(lib, cid, data), ServingSteps(lib, cid));
            b1.p.wire == [Pool.Sent(0, Frame(BlockMessage(cid, data)), Pool.ServeCall(0))] &&
            b1.serves == [Serve(0, 0, 0, cid, Served)] && b1.replies == map[0 := 0] && |b1.w.handlers| == 1 &&
            b1.loops == [Loop("A", Frame(WantMessage(lib, cid)), [WantMessage(lib, cid)], [], true)]
  {
    hide WantMessage, BlockMessage, Frame, MessageIn;
    var b0 := Holding(lib, cid, data);
    HoldingIs(lib, cid, data);
    var msg := WantMessage(lib, cid);
    RunTwo(lib, b0, ServingSteps(lib, cid));
    WholeFrameArrives(lib, b0, msg);
    CodecLaws.WantSurvivesTheWire(lib, cid);
    var t := Do(lib, b0, Chunk(0, Frame(msg)));
    assert t.serves == [Serve(0, 0, 0, cid, Waiting)];
    assert t.replies == map[0 := 0];
  }

  // ---------------------------------------------------------------- node A after the answer

  lemma AnsweredIs(lib: Library, cid: Cid, data: Bytes)
    requires lib.Lawful() && cid.WellFormed() && cid.codec < TWO_31 && lib.Names(cid, data)
    requires |BlockMessage(cid, data)| < TWO_31
    ensures var a1 := Run(lib, Asking(lib, cid), REQUEST_STEPS);
            var a2 := Run(lib, a1, AnswerSteps(cid, data));
            (forall hd | hd in a2.w.handlers :: hd.activity.Finished?) && a2.p.wire == a1.p.wire &&
            a2.loops == [Loop("B", Frame(BlockMessage(cid, data)), [BlockMessage(cid, data)], [], true)]
  {
    hide WantMessage, BlockMessage, Frame, MessageIn, PrefixToCid, Prefix;
    var a1 := Run(lib, Asking(lib, cid), REQUEST_STEPS);
    AskingIs(lib, cid);
    AskedIs(lib, cid);
    hide Asking, Run;
    var msg := BlockMessage(cid, data);
    CodecLaws.BlockSurvivesTheWire(lib, cid, data);
    RunThree(lib, a1, AnswerSteps(cid, data));
    WholeFrameArrives(lib, a1, msg);
    var block := Block(Prefix(cid), data);
    var s := Do(lib, a1, Chunk(0, Frame(msg)));
    assert s.w.handlers == [Wants.Handler(Wants.Source(0, 0), Decoded([], [block]), [block], Wants.Hashing)];
    var t := Do(lib, s, HashDone(0));
    assert t.w.handlers == [Wants.Handler(Wants.Source(0, 0), Decoded([], [block]), [], Wants.Putting(cid, data, 0))];
    var u := Do(lib, t, PutDone(0, true));
    assert u.w.handlers == [Wants.Handler(Wants.Source(0, 0), Decoded([], [block]), [], Wants.Finished)];
  }

  lemma NoAbortAsking(lib: Library, cid: Cid, data: Bytes)
    ensures var toA := REQUEST_STEPS + AnswerSteps(cid, data); Abort(0) !in toA && Stop !in toA
  {
    hide WantMessage, BlockMessage, Frame;
  }

  lemma ServingSucceeds(lib: Library, s: State, cid: Cid, from: Wants.Source)
    ensures TheySucceed(lib, s, ServingSteps(lib, cid), from, cid)
  {
    hide Do, WantMessage, Frame;
    var steps := ServingSteps(lib, cid);
    assert steps[1..] == [steps[1]] && steps[1..][1..] == [];
    var t := Do(lib, s, steps[0]);
    assert TheySucceed(lib, Do(lib, t, steps[1]), steps[1..][1..], from, cid);
    assert TheySucceed(lib, t, steps[1..], from, cid);
  }

  lemma AskingValid(lib: Library, cid: Cid)
    requires lib.Lawful()
    ensures Valid(lib, Asking(lib, cid))
  {
    hide Valid, Do, Start, Run, WantMessage;
    StartValid(lib, map[]);
    StepKeeps(lib, Start(map[]), Want(cid));
    RunKeeps(lib, Do(lib, Start(map[]), Want(cid)), Broadcast(["B"], {}, WantMessage(lib, cid)));
  }

  lemma HoldingValid(lib: Library, cid: Cid, data: Bytes)
    requires lib.Lawful() && lib.Names(cid, data)
    ensures Valid(lib, Holding(lib, cid, data))
  {
    hide Valid, Do;
    StartKeeps(lib, map[cid := data], InboundStream("A"));
  }

  lemma StartKeeps(lib: Library, store: map<Cid, Bytes>, step: Step)
    requires lib.Lawful() && Wants.StoreOk(lib, Wants.Start(store))
    ensures Valid(lib, Run(lib, Start(store), [step]))
  {
    hide Valid, Do, Start;
    StartValid(lib, store);
    RunKeeps(lib, Start(store), [step]);
  }

  /** What travels: one request on A's stream, one reply on B's. */
  lemma OneSent(msg: Bytes, origin: Pool.Origin)
    ensures var wire := [Pool.Sent(0, Frame(msg), origin)];
            wire[..0] == [] && wire[..1] == wire && BytesOn(wire, 0) == Frame(msg) && MessagesOn(wire, 0) == [msg]
    ensures BytesOn([], 0) == [] && MessagesOn([], 0) == []
  {
    hide Frame, Unframe;
    UnframeFrame(msg);
    var wire := [Pool.Sent(0, Frame(msg), origin)];
    assert wire[1..] == [];
    assert MessagesOn(wire, 0) == [Unframe(Frame(msg))] + [];
    assert BytesOn(wire, 0) == Frame(msg) + [];
  }

  /** The exchange takes place: A asks, B serves, A's want is resolved with B's data. */
  lemma ExchangeHappens(lib: Library, cid: Cid, data: Bytes)
    requires lib.Lawful() && cid.WellFormed() && cid.codec < TWO_31
    requires lib.Names(cid, data) && lib.CollisionFree(data)
    requires |WantMessage(lib, cid)| < TWO_31 && |BlockMessage(cid, data)| < TWO_31
    ensures var a1 := Run(lib, Asking(lib, cid), REQUEST_STEPS);
            var a2 := Run(lib, a1, AnswerSteps(cid, data));
            |a2.w.deferreds| > 0 && a2.w.deferreds[0].outcome == Wants.Resolved(data)
  {
    hide WantMessage, BlockMessage, Run, Valid, Frame, Library.Names, Library.CollisionFree, BytesOn,
      AnswerSteps, ServingSteps, Asking, Holding, TheySucceed, MessagesOn, Library.Lawful, Cid.WellFormed;
    var a0, b0 := Asking(lib, cid), Holding(lib, cid, data);
    var a1, b1 := Run(lib, a0, REQUEST_STEPS), Run(lib, b0, ServingSteps(lib, cid));
    var a2 := Run(lib, a1, AnswerSteps(cid, data));
    AskingIs(lib, cid);
    AskedIs(lib, cid);
    HoldingIs(lib, cid, data);
    ServedIs(lib, cid, data);
    AnsweredIs(lib, cid, data);
    NoAbortAsking(lib, cid, data);
    AskingValid(lib, cid);
    HoldingValid(lib, cid, data);
    ServingSucceeds(lib, b0, cid, Wants.Source(0, 0));
    OneSent(WantMessage(lib, cid), Pool.SendCall(0));
    OneSent(BlockMessage(cid, data), Pool.ServeCall(0));
    RunNothing(lib, a2);
    RunNothing(lib, b1);
    TwoNodeExchange(lib, cid, data, 0, 0, a0, REQUEST_STEPS, AnswerSteps(cid, data), [],
                    b0, ServingSteps(lib, cid), [], 0, 0, 0, 0);
  }
}
