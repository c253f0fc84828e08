/** What every step of the node machine keeps, and what it never takes back. */
module NodeLaws {
  import opened Basics
  import opened Cids
  import opened Codec
  import opened Framing
  import opened Node
  import Wants
  import Pool

  // ---------------------------------------------------------------- runs

  lemma {:induction false} RunJoins(lib: Library, s: State, a: seq<Step>, b: seq<Step>)
    ensures Run(lib, s, a + b) == Run(lib, Run(lib, s, a), b)
    decreases |a|
  {
    hide Do;
    if a == [] {
      assert a + b == b;
    } else {
      assert (a + b)[1..] == a[1..] + b;
      RunJoins(lib, Do(lib, s, a[0]), a[1..], b);
    }
  }

  lemma RunSnoc(lib: Library, s: State, steps: seq<Step>, step: Step)
    ensures Run(lib, s, steps + [step]) == Do(lib, Run(lib, s, steps), step)
  {
    hide Do;
    RunJoins(lib, s, steps, [step]);
    assert [step][1..] == [];
  }

  // ---------------------------------------------------------------- the two halves

  function DeliverSteps(lib: Library, stream: nat, index: nat, msgs: seq<Bytes>): seq<Wants.Step>
    decreases |msgs|
  {
    if msgs == [] then []
    else
      (match MessageIn(lib, msgs[0])
       case None => []
       case Some(m) => [Wants.Deliver(Wants.Source(stream, index), m)]) +
      DeliverSteps(lib, stream, index + 1, msgs[1..])
  }

  /** The steps of the want machine that a step of the node consists of. */
  function WantSteps(lib: Library, s: State, step: Step): seq<Wants.Step> {
    match step
    case Want(cid) => [Wants.Want(cid)]
    case Abort(d) => [Wants.Abort(d)]
    case HashDone(h) => [Wants.HashDone(h)]
    case PutDone(h, stored) => [Wants.PutDone(h, stored)]
    case Stop => [Wants.RejectAll]
    case Chunk(i, bytes) =>
      if i < |s.loops| && s.loops[i].live && Split(s.loops[i].buffer + bytes).Some?
      then DeliverSteps(lib, i, |s.loops[i].delivered|, Split(s.loops[i].buffer + bytes).value.messages)
      else []
    case _ => []
  }

  /** The steps of the pool machine that a step of the node consists of. */
  function PoolSteps(s: State, step: Step): seq<Pool.Step> {
    match step
    case GetDone(t, found, sent) =>
      if t < |s.serves| && s.serves[t].progress.Waiting? && found && sent && s.serves[t].cid in s.w.store
      then [Pool.Serve(s.serves[t].stream, BlockMessage(s.serves[t].cid, s.w.store[s.serves[t].cid]), t)]
      else []
    case LoopEnd(i) => if i < |s.loops| && s.loops[i].live then [Pool.Cleanup(s.loops[i].peer)] else []
    case SendStart(peer, message) => [Pool.SendStart(peer, message)]
    case DialDone(i, outcome) => [Pool.DialDone(i, outcome)]
    case Resume(i, sent) => [Pool.Resume(i, sent)]
    case InboundStream(peer) => [Pool.InboundStream(peer)]
    case Disconnect(peer) => [Pool.Cleanup(peer)]
    case ClearUnsupported => [Pool.ClearUnsupported]
    case Stop => [Pool.CloseAll]
    case _ => []
  }

  lemma AtMostOneWantStep(lib: Library, w: Wants.State, steps: seq<Wants.Step>)
    requires |steps| <= 1
    ensures Wants.Run(lib, w, steps) == (if steps == [] then w else Wants.Do(lib, w, steps[0]))
  {
    hide Wants.Do;
    assert steps != [] ==> steps[1..] == [];
  }

  lemma AtMostOnePoolStep(p: Pool.State, steps: seq<Pool.Step>)
    requires |steps| <= 1
    ensures Pool.Run(p, steps) == (if steps == [] then p else Pool.Do(p, steps[0]))
  {
    hide Pool.Do;
    assert steps != [] ==> steps[1..] == [];
  }

  lemma FinishFrame(s: State, h: nat)
    ensures var t := Finish(s, h); t.w == s.w && t.p == s.p && t.loops == s.loops && s.serves <= t.serves
  {
  }

  lemma MessageFrame(lib: Library, s: State, source: Wants.Source, msg: Bytes)
    ensures var t := AfterMessage(lib, s, source, msg); t.p == s.p && t.loops == s.loops
  {
    hide MessageIn;
  }

  lemma {:induction false} MessagesProject(lib: Library, s: State, stream: nat, index: nat, msgs: seq<Bytes>)
    ensures var t := AfterMessages(lib, s, stream, index, msgs);
            t.w == Wants.Run(lib, s.w, DeliverSteps(lib, stream, index, msgs)) &&
            t.p == s.p && t.loops == s.loops
    decreases |msgs|
  {
    hide Finish, MessageIn;
    if msgs != [] {
      var t := AfterMessage(lib, s, Wants.Source(stream, index), msgs[0]);
      var tail := DeliverSteps(lib, stream, index + 1, msgs[1..]);
      MessagesProject(lib, t, stream, index + 1, msgs[1..]);
      match MessageIn(lib, msgs[0]) {
        case None => assert [] + tail == tail;
        case Some(m) =>
          var step := Wants.Deliver(Wants.Source(stream, index), m);
          FinishFrame(s.(w := Wants.AfterDeliver(s.w, Wants.Source(stream, index), m)), |s.w.handlers|);
          assert ([step] + tail)[1..] == tail;
      }
    }
  }

  lemma ProjectsChunk(lib: Library, s: State, i: nat, bytes: Bytes)
    ensures var t, step := AfterChunk(lib, s, i, bytes), Chunk(i, bytes);
            t.w == Wants.Run(lib, s.w, WantSteps(lib, s, step)) && t.p == s.p
  {
    hide Split, MessageIn, AfterMessages, DeliverSteps;
    if i < |s.loops| && s.loops[i].live && Split(s.loops[i].buffer + bytes).Some? {
      var loop, pass := s.loops[i], Split(s.loops[i].buffer + bytes).value;
      var next := loop.(received := loop.received + bytes, delivered := loop.delivered + pass.messages,
                        buffer := pass.rest);
      MessagesProject(lib, s.(loops := s.loops[i := next]), i, |loop.delivered|, pass.messages);
    }
  }

  lemma ProjectsWork(lib: Library, s: State, step: Step)
    requires step.HashDone? || step.PutDone?
    ensures Do(lib, s, step).w == Wants.Run(lib, s.w, WantSteps(lib, s, step)) && Do(lib, s, step).p == s.p
  {
    hide Finish, Wants.AfterHash, Wants.AfterPut, Wants.Run;
    AtMostOneWantStep(lib, s.w, WantSteps(lib, s, step));
    var h := step.handler;
    HashStutters(lib, s.w, h);
    if step.HashDone? {
      FinishFrame(s.(w := Wants.AfterHash(lib, s.w, h)), h);
    } else {
      PutStutters(s.w, h, step.stored);
      FinishFrame(s.(w := Wants.AfterPut(s.w, h, step.stored)), h);
    }
  }

  /** The node is its two halves run side by side, so what holds in all their runs holds in all of its. */
  lemma Projects(lib: Library, s: State, step: Step)
    ensures Do(lib, s, step).w == Wants.Run(lib, s.w, WantSteps(lib, s, step))
    ensures Do(lib, s, step).p == Pool.Run(s.p, PoolSteps(s, step))
  {
    match step {
      case HashDone(h) => ProjectsWork(lib, s, step);
      case PutDone(h, stored) => ProjectsWork(lib, s, step);
      case Chunk(i, bytes) =>
        hide AfterChunk, WantSteps;
        ProjectsChunk(lib, s, i, bytes);
      case _ =>
        hide AfterChunk, AfterHash, AfterPut, Wants.Run, Pool.Run, Wants.AfterWant, Wants.AfterAbort;
        hide Pool.AfterDial, Pool.AfterResume, Pool.AfterSendStart, Pool.AfterInbound, Pool.AfterCleanup;
        var ws, ps := WantSteps(lib, s, step), PoolSteps(s, step);
        AtMostOneWantStep(lib, s.w, ws);
        AtMostOnePoolStep(s.p, ps);
    }
  }

  lemma HashStutters(lib: Library, w: Wants.State, h: nat)
    ensures !Wants.IsHashing(w, h) ==> Wants.AfterHash(lib, w, h) == w
  {
  }

  lemma PutStutters(w: Wants.State, h: nat, stored: bool)
    ensures !Wants.IsPutting(w, h) ==> Wants.AfterPut(w, h, stored) == w
  {
  }

  // ---------------------------------------------------------------- the invariant

  /** Each loop has taken every whole message out of all it received, and kept the rest. */
  predicate LoopsOk(s: State) {
    |s.loops| == |s.p.streams| &&
    forall i | 0 <= i < |s.loops| ::
      s.loops[i].peer == s.p.streams[i].peer &&
      Split(s.loops[i].received) == Some(Pass(s.loops[i].delivered, s.loops[i].buffer))
  }

  /** Every handler is that of a delivered message. */
  predicate SourcesOk(lib: Library, s: State) {
    forall h | 0 <= h < |s.w.handlers| ::
      var src := s.w.handlers[h].source;
      src.stream < |s.loops| && src.index < |s.loops[src.stream].delivered| &&
      MessageIn(lib, s.loops[src.stream].delivered[src.index]) == Some(s.w.handlers[h].message)
  }

  predicate HandlerOf(s: State, h: nat, source: Wants.Source) {
    h < |s.w.handlers| && s.w.handlers[h].source == source
  }

  /** Every delivered message that decodes has its handler, except those of `stream` from `index` on. */
  ghost predicate HandledBut(lib: Library, s: State, stream: nat, index: nat) {
    forall i: nat, k: nat | i < |s.loops| && k < |s.loops[i].delivered| && !(i == stream && k >= index) ::
      MessageIn(lib, s.loops[i].delivered[k]).Some? ==> exists h: nat :: HandlerOf(s, h, Wants.Source(i, k))
  }

  ghost predicate HandledOk(lib: Library, s: State) {
    HandledBut(lib, s, |s.loops|, 0)
  }

  predicate ServeOf(s: State, t: nat, h: nat, n: nat) {
    t < |s.serves| && s.serves[t].handler == h && s.serves[t].want == n
  }

  ghost predicate HasServe(s: State, h: nat, n: nat) {
    exists t: nat :: ServeOf(s, t, h, n)
  }

  /** A finished handler that found a stream has one run per want, all on that stream. */
  ghost predicate ServesOk(s: State) {
    (forall h | h in s.replies ::
       h < |s.w.handlers| && s.w.handlers[h].activity.Finished? &&
       forall n: nat | n < |s.w.handlers[h].message.wants| :: HasServe(s, h, n)) &&
    (forall t | 0 <= t < |s.serves| ::
       var v := s.serves[t];
       v.handler in s.replies && s.replies[v.handler] == v.stream && v.handler < |s.w.handlers| &&
       v.want < |s.w.handlers[v.handler].message.wants| &&
       s.w.handlers[v.handler].message.wants[v.want] == v.cid)
  }

  function SentBlock(s: State, t: nat, data: Bytes): Pool.Sent
    requires t < |s.serves|
  {
    Pool.Sent(s.serves[t].stream, Frame(BlockMessage(s.serves[t].cid, data)), Pool.ServeCall(t))
  }

  /** The block a run sent: its message carries data that its CID names. */
  ghost predicate Carries(lib: Library, s: State, t: nat, data: Bytes) {
    t < |s.serves| &&
    SentBlock(s, t, data) in s.p.wire &&
    (s.serves[t].cid.hashCode == SHA2_256 ==> lib.Names(s.serves[t].cid, data))
  }

  ghost predicate ServedOk(lib: Library, s: State) {
    (forall t: nat | t < |s.serves| && s.serves[t].progress.Served? :: exists data :: Carries(lib, s, t, data)) &&
    (forall x | x in s.p.wire && x.origin.ServeCall? :: x.origin.serve < |s.serves|)
  }

  ghost predicate Valid(lib: Library, s: State) {
    Wants.Valid(lib, s.w) && Wants.StoreOk(lib, s.w) && Pool.Valid(s.p) &&
    LoopsOk(s) && SourcesOk(lib, s) && HandledOk(lib, s) && ServesOk(s) && ServedOk(lib, s)
  }

  // ---------------------------------------------------------------- both halves stay valid

  lemma {:induction false} WantsRunKeepsBoth(lib: Library, w: Wants.State, steps: seq<Wants.Step>)
    requires lib.Lawful() && Wants.Valid(lib, w) && Wants.StoreOk(lib, w)
    ensures Wants.Valid(lib, Wants.Run(lib, w, steps)) && Wants.StoreOk(lib, Wants.Run(lib, w, steps))
    decreases |steps|
  {
    hide Wants.Valid, Wants.StoreOk, Wants.Do;
    if steps != [] {
      Wants.StepKeeps(lib, w, steps[0]);
      Wants.StepKeepsStore(lib, w, steps[0]);
      WantsRunKeepsBoth(lib, Wants.Do(lib, w, steps[0]), steps[1..]);
    }
  }

  lemma HalvesKept(lib: Library, s: State, step: Step)
    requires lib.Lawful() && Valid(lib, s)
    ensures var t := Do(lib, s, step);
            Wants.Valid(lib, t.w) && Wants.StoreOk(lib, t.w) && Pool.Valid(t.p)
  {
    hide Do, Wants.Valid, Wants.StoreOk, Pool.Valid;
    Projects(lib, s, step);
    WantsRunKeepsBoth(lib, s.w, WantSteps(lib, s, step));
    Pool.RunKeeps(s.p, PoolSteps(s, step));
  }

  // ---------------------------------------------------------------- what only grows

  /** Handlers keep their source and message, and a finished one stays finished. */
  predicate HandlersGrow(s: Wants.State, t: Wants.State) {
    |s.handlers| <= |t.handlers| &&
    forall h | 0 <= h < |s.handlers| ::
      t.handlers[h].source == s.handlers[h].source && t.handlers[h].message == s.handlers[h].message &&
      (s.handlers[h].activity.Finished? ==> t.handlers[h].activity.Finished?)
  }

  /** What is known of a run of `_serveBlockOnStream` but its progress stays; what was sent stays sent. */
  predicate Grows(s: State, t: State) {
    HandlersGrow(s.w, t.w) && s.w.store.Keys <= t.w.store.Keys &&
    s.p.wire <= t.p.wire && |s.p.calls| <= |t.p.calls| &&
    |s.loops| <= |t.loops| &&
    (forall i | 0 <= i < |s.loops| :: s.loops[i].delivered <= t.loops[i].delivered) &&
    |s.serves| <= |t.serves| &&
    (forall k | 0 <= k < |s.serves| ::
       t.serves[k].(progress := Waiting) == s.serves[k].(progress := Waiting) &&
       (s.serves[k].progress.Served? ==> t.serves[k].progress.Served?)) &&
    (forall h | h in s.replies :: h in t.replies)
  }

  lemma GrowsTransitive(s: State, t: State, u: State)
    requires Grows(s, t) && Grows(t, u)
    ensures Grows(s, u)
  {
    forall k | 0 <= k < |s.serves|
      ensures u.serves[k].(progress := Waiting) == s.serves[k].(progress := Waiting)
      ensures s.serves[k].progress.Served? ==> u.serves[k].progress.Served?
    {
      assert t.serves[k].(progress := Waiting) == s.serves[k].(progress := Waiting);
    }
  }

  lemma FinishGrows(s: State, h: nat)
    ensures Grows(s, Finish(s, h))
  {
  }

  lemma {:induction false} MessagesGrow(lib: Library, s: State, stream: nat, index: nat, msgs: seq<Bytes>)
    ensures Grows(s, AfterMessages(lib, s, stream, index, msgs))
    decreases |msgs|
  {
    hide MessageIn;
    if msgs != [] {
      var source := Wants.Source(stream, index);
      var t := AfterMessage(lib, s, source, msgs[0]);
      assert Grows(s, t) by {
        if MessageIn(lib, msgs[0]).Some? {
          var m := s.(w := Wants.AfterDeliver(s.w, source, MessageIn(lib, msgs[0]).value));
          assert Grows(s, m);
          FinishGrows(m, |s.w.handlers|);
          hide Grows, Finish;
          GrowsTransitive(s, m, t);
        }
      }
      hide Grows, AfterMessage;
      MessagesGrow(lib, t, stream, index + 1, msgs[1..]);
      GrowsTransitive(s, t, AfterMessages(lib, s, stream, index, msgs));
    }
  }

  lemma ChunkGrows(lib: Library, s: State, i: nat, bytes: Bytes)
    ensures Grows(s, AfterChunk(lib, s, i, bytes))
  {
    hide Split;
    if i < |s.loops| && s.loops[i].live {
      var loop := s.loops[i];
      if Split(loop.buffer + bytes).Some? {
        var pass := Split(loop.buffer + bytes).value;
        var next := loop.(received := loop.received + bytes, delivered := loop.delivered + pass.messages,
                          buffer := pass.rest);
        var m := s.(loops := s.loops[i := next]);
        assert Grows(s, m);
        hide Grows, AfterMessages;
        MessagesGrow(lib, m, i, |loop.delivered|, pass.messages);
        GrowsTransitive(s, m, AfterChunk(lib, s, i, bytes));
      }
    }
  }

  /** The want half after a hash or a put. */
  function WorkDone(lib: Library, w: Wants.State, step: Step): Wants.State
    requires step.HashDone? || step.PutDone?
  {
    if step.HashDone? then Wants.AfterHash(lib, w, step.handler) else Wants.AfterPut(w, step.handler, step.stored)
  }

  lemma WorkAdvances(lib: Library, w: Wants.State, step: Step)
    requires step.HashDone? || step.PutDone?
    ensures var t := WorkDone(lib, w, step);
            HandlersGrow(w, t) && |t.handlers| == |w.handlers| && w.store.Keys <= t.store.Keys
  {
    hide PrefixToCid, Wants.Settle;
  }

  lemma OnlyWantsGrow(s: State, w: Wants.State)
    requires HandlersGrow(s.w, w) && s.w.store.Keys <= w.store.Keys
    ensures Grows(s, s.(w := w))
  {
  }

  lemma WorkGrows(lib: Library, s: State, step: Step)
    requires step.HashDone? || step.PutDone?
    ensures Grows(s, Do(lib, s, step))
  {
    hide Grows, Finish, WorkDone, HandlersGrow;
    var m := s.(w := WorkDone(lib, s.w, step));
    WorkAdvances(lib, s.w, step);
    OnlyWantsGrow(s, m.w);
    FinishGrows(m, step.handler);
    GrowsTransitive(s, m, Finish(m, step.handler));
    GrowsReflexive(s);
    WorkIs(lib, s, step);
  }

  lemma WorkIs(lib: Library, s: State, step: Step)
    requires step.HashDone? || step.PutDone?
    ensures var h := step.handler;
            var ready := if step.HashDone? then Wants.IsHashing(s.w, h) else Wants.IsPutting(s.w, h);
            Do(lib, s, step) == if ready then Finish(s.(w := WorkDone(lib, s.w, step)), step.handler) else s
  {
    hide Finish, Wants.AfterHash, Wants.AfterPut;
  }

  lemma GrowsReflexive(s: State)
    ensures Grows(s, s)
  {
  }

  lemma WantGrows(lib: Library, s: State, step: Step)
    requires step.Want? || step.Abort? || step.Stop? || step.ClearUnsupported? || step.Disconnect? || step.LoopEnd?
    ensures Grows(s, Do(lib, s, step))
  {
    hide AfterChunk, AfterHash, AfterPut, AfterGet, AfterDial, AfterInbound;
  }

  lemma StreamGrows(lib: Library, s: State, step: Step)
    requires step.SendStart? || step.DialDone? || step.Resume? || step.InboundStream? || step.GetDone?
    ensures Grows(s, Do(lib, s, step))
  {
    hide AfterChunk, AfterHash, AfterPut, Frame, BlockMessage;
  }

  lemma StepGrows(lib: Library, s: State, step: Step)
    ensures Grows(s, Do(lib, s, step))
  {
    hide Grows;
    match step {
      case Chunk(i, bytes) => ChunkGrows(lib, s, i, bytes);
      case HashDone(_) => WorkGrows(lib, s, step);
      case PutDone(_, _) => WorkGrows(lib, s, step);
      case Want(_) => WantGrows(lib, s, step);
      case Abort(_) => WantGrows(lib, s, step);
      case Stop => WantGrows(lib, s, step);
      case ClearUnsupported => WantGrows(lib, s, step);
      case Disconnect(_) => WantGrows(lib, s, step);
      case LoopEnd(_) => WantGrows(lib, s, step);
      case _ => StreamGrows(lib, s, step);
    }
  }

  /** No run takes back a sent message, a delivered one, a handler or a served block. */
  lemma {:induction false} RunGrows(lib: Library, s: State, steps: seq<Step>)
    ensures Grows(s, Run(lib, s, steps))
    decreases |steps|
  {
    hide Grows, Do;
    GrowsReflexive(s);
    if steps != [] {
      StepGrows(lib, s, steps[0]);
      RunGrows(lib, Do(lib, s, steps[0]), steps[1..]);
      GrowsTransitive(s, Do(lib, s, steps[0]), Run(lib, s, steps));
    }
  }

  // ---------------------------------------------------------------- every step keeps the invariant

  /** The invariant of loops, handlers and serves while the messages of `stream` from `index` on wait. */
  ghost predicate Mid(lib: Library, s: State, stream: nat, index: nat) {
    LoopsOk(s) && SourcesOk(lib, s) && HandledBut(lib, s, stream, index) && ServesOk(s) && ServedOk(lib, s)
  }

  lemma HandledStays(lib: Library, s: State, t: State, stream: nat, index: nat)
    requires HandledBut(lib, s, stream, index) && t.loops == s.loops && HandlersGrow(s.w, t.w)
    ensures HandledBut(lib, t, stream, index)
  {
    hide MessageIn;
    forall i: nat, k: nat | i < |t.loops| && k < |t.loops[i].delivered| && !(i == stream && k >= index)
      ensures MessageIn(lib, t.loops[i].delivered[k]).Some? ==> exists h: nat :: HandlerOf(t, h, Wants.Source(i, k))
    {
      if MessageIn(lib, t.loops[i].delivered[k]).Some? {
        var h: nat :| HandlerOf(s, h, Wants.Source(i, k));
        assert HandlerOf(t, h, Wants.Source(i, k));
      }
    }
  }

  /** A want step that keeps the list of handlers. */
  lemma WantsAdvance(lib: Library, s: State, w: Wants.State, stream: nat, index: nat)
    requires Mid(lib, s, stream, index) && HandlersGrow(s.w, w) && |w.handlers| == |s.w.handlers|
    ensures Mid(lib, s.(w := w), stream, index)
  {
    hide MessageIn, Split, ServesOk, ServedOk, HandledBut;
    var t := s.(w := w);
    HandledStays(lib, s, t, stream, index);
    ServesStay(s, t);
    ServedStays(lib, s, t);
  }

  /** Handlers that only advance keep what is said of the serves. */
  lemma ServesStay(s: State, t: State)
    requires ServesOk(s) && HandlersGrow(s.w, t.w) && t.serves == s.serves && t.replies == s.replies
    ensures ServesOk(t)
  {
    forall h, n: nat | h in s.replies && n < |s.w.handlers[h].message.wants|
      ensures HasServe(t, h, n)
    {
      assert HasServe(s, h, n);
      var k: nat :| ServeOf(s, k, h, n);
      assert ServeOf(t, k, h, n);
    }
  }

  lemma ServedStays(lib: Library, s: State, t: State)
    requires ServedOk(lib, s) && s.p.wire <= t.p.wire && |s.serves| <= |t.serves|
    requires forall k | 0 <= k < |s.serves| :: t.serves[k] == s.serves[k]
    requires forall k | |s.serves| <= k < |t.serves| :: !t.serves[k].progress.Served?
    requires forall x | x in t.p.wire[|s.p.wire|..] :: x.origin.SendCall?
    ensures ServedOk(lib, t)
  {
    assert t.p.wire == s.p.wire + t.p.wire[|s.p.wire|..];
    forall k: nat | k < |t.serves| && t.serves[k].progress.Served?
      ensures exists data :: Carries(lib, t, k, data)
    {
      var data :| Carries(lib, s, k, data);
      assert Carries(lib, t, k, data);
    }
  }

  /** What is said of loops and handlers does not depend on serves, calls or the wire. */
  lemma SameLoops(lib: Library, s: State, t: State, stream: nat, index: nat)
    requires LoopsOk(s) && SourcesOk(lib, s) && HandledBut(lib, s, stream, index)
    requires t.w == s.w && t.loops == s.loops && t.p.streams == s.p.streams
    ensures LoopsOk(t) && SourcesOk(lib, t) && HandledBut(lib, t, stream, index)
  {
    hide MessageIn, Split;
    HandledStays(lib, s, t, stream, index);
  }

  lemma FinishServes(s: State, h: nat)
    requires ServesOk(s) && h !in s.replies
    ensures ServesOk(Finish(s, h))
  {
    var t := Finish(s, h);
    if t != s {
      var wants := s.w.handlers[h].message.wants;
      forall i, n: nat | i in t.replies && n < |t.w.handlers[i].message.wants|
        ensures HasServe(t, i, n)
      {
        if i == h {
          assert ServeOf(t, |s.serves| + n, h, n);
        } else {
          assert HasServe(s, i, n);
          var k: nat :| ServeOf(s, k, i, n);
          assert ServeOf(t, k, i, n);
        }
      }
    }
  }

  lemma FinishKeeps(lib: Library, s: State, h: nat, stream: nat, index: nat)
    requires Mid(lib, s, stream, index) && h !in s.replies
    ensures Mid(lib, Finish(s, h), stream, index)
  {
    var t := Finish(s, h);
    FinishServes(s, h);
    FinishFrame(s, h);
    hide MessageIn, LoopsOk, SourcesOk, HandledBut, ServesOk, ServedOk;
    SameLoops(lib, s, t, stream, index);
    ServedStays(lib, s, t);
  }

  lemma DeliverKeeps(lib: Library, s: State, stream: nat, index: nat)
    requires Mid(lib, s, stream, index) && stream < |s.loops| && index < |s.loops[stream].delivered|
    requires MessageIn(lib, s.loops[stream].delivered[index]).Some?
    ensures var m := MessageIn(lib, s.loops[stream].delivered[index]).value;
            Mid(lib, s.(w := Wants.AfterDeliver(s.w, Wants.Source(stream, index), m)), stream, index + 1)
  {
    hide MessageIn;
    var source := Wants.Source(stream, index);
    var t := s.(w := Wants.AfterDeliver(s.w, source, MessageIn(lib, s.loops[stream].delivered[index]).value));
    hide Split, ServesOk, ServedOk;
    HandledStays(lib, s, t, stream, index);
    assert HandlerOf(t, |s.w.handlers|, source);
    ServesStay(s, t);
    ServedStays(lib, s, t);
  }

  lemma MessageKeeps(lib: Library, s: State, stream: nat, index: nat)
    requires Mid(lib, s, stream, index) && stream < |s.loops| && index < |s.loops[stream].delivered|
    ensures Mid(lib, AfterMessage(lib, s, Wants.Source(stream, index), s.loops[stream].delivered[index]),
                stream, index + 1)
  {
    var msg := s.loops[stream].delivered[index];
    if MessageIn(lib, msg).Some? {
      DeliverKeeps(lib, s, stream, index);
      assert forall h | h in s.replies :: h < |s.w.handlers|;
      hide Mid, Finish, MessageIn;
      var t := s.(w := Wants.AfterDeliver(s.w, Wants.Source(stream, index), MessageIn(lib, msg).value));
      FinishKeeps(lib, t, |s.w.handlers|, stream, index + 1);
    } else {
      hide MessageIn;
    }
  }

  lemma {:induction false} MessagesKeep(lib: Library, s: State, stream: nat, index: nat, msgs: seq<Bytes>)
    requires Mid(lib, s, stream, index) && stream < |s.loops| && index <= |s.loops[stream].delivered|
    requires msgs == s.loops[stream].delivered[index..]
    ensures var t := AfterMessages(lib, s, stream, index, msgs);
            t.loops == s.loops && Mid(lib, t, stream, |s.loops[stream].delivered|)
    decreases |msgs|
  {
    hide Mid, MessageIn;
    if msgs != [] {
      var t := AfterMessage(lib, s, Wants.Source(stream, index), msgs[0]);
      MessageKeeps(lib, s, stream, index);
      MessageFrame(lib, s, Wants.Source(stream, index), msgs[0]);
      assert msgs[1..] == s.loops[stream].delivered[index + 1..];
      MessagesKeep(lib, t, stream, index + 1, msgs[1..]);
    }
  }

  /** The loop's own step: what is received is split exactly as if it had come at once. */
  lemma LoopTakes(lib: Library, s: State, i: nat, bytes: Bytes)
    requires Mid(lib, s, |s.loops|, 0) && i < |s.loops| && Split(s.loops[i].buffer + bytes).Some?
    ensures var loop, pass := s.loops[i], Split(s.loops[i].buffer + bytes).value;
            var next := loop.(received := loop.received + bytes, delivered := loop.delivered + pass.messages,
                              buffer := pass.rest);
            Mid(lib, s.(loops := s.loops[i := next]), i, |loop.delivered|)
  {
    hide Split, MessageIn;
    var loop, pass := s.loops[i], Split(s.loops[i].buffer + bytes).value;
    var next := loop.(received := loop.received + bytes, delivered := loop.delivered + pass.messages,
                      buffer := pass.rest);
    var t := s.(loops := s.loops[i := next]);
    SplitExtends(loop.received, bytes);
    assert Split(next.received) == Some(Pass(next.delivered, next.buffer));
    assert loop.delivered <= next.delivered;
    forall j: nat, k: nat | j < |t.loops| && k < |t.loops[j].delivered| && !(j == i && k >= |loop.delivered|)
      ensures MessageIn(lib, t.loops[j].delivered[k]).Some? ==> exists h: nat :: HandlerOf(t, h, Wants.Source(j, k))
    {
      assert k < |s.loops[j].delivered| && t.loops[j].delivered[k] == s.loops[j].delivered[k];
      if MessageIn(lib, t.loops[j].delivered[k]).Some? {
        var h: nat :| HandlerOf(s, h, Wants.Source(j, k));
        assert HandlerOf(t, h, Wants.Source(j, k));
      }
    }
    assert ServesOk(t) by {
      ServesSame(s, t);
    }
    ServedStays(lib, s, t);
  }

  lemma ServesSame(s: State, t: State)
    requires ServesOk(s) && t.w == s.w && t.replies == s.replies && |t.serves| == |s.serves|
    requires forall k | 0 <= k < |s.serves| :: t.serves[k].(progress := Waiting) == s.serves[k].(progress := Waiting)
    ensures ServesOk(t)
  {
    forall h, n: nat | h in s.replies && n < |s.w.handlers[h].message.wants|
      ensures HasServe(t, h, n)
    {
      assert HasServe(s, h, n);
      var k: nat :| ServeOf(s, k, h, n);
      assert t.serves[k].(progress := Waiting) == s.serves[k].(progress := Waiting);
      assert ServeOf(t, k, h, n);
    }
    forall k | 0 <= k < |t.serves|
      ensures t.serves[k].handler == s.serves[k].handler && t.serves[k].stream == s.serves[k].stream &&
              t.serves[k].want == s.serves[k].want && t.serves[k].cid == s.serves[k].cid
    {
      assert t.serves[k].(progress := Waiting) == s.serves[k].(progress := Waiting);
    }
  }

  lemma AllHandled(lib: Library, s: State, stream: nat)
    requires stream < |s.loops| && Mid(lib, s, stream, |s.loops[stream].delivered|)
    ensures Mid(lib, s, |s.loops|, 0)
  {
    hide MessageIn;
  }

  lemma ChunkKeeps(lib: Library, s: State, i: nat, bytes: Bytes)
    requires Mid(lib, s, |s.loops|, 0)
    ensures var t := AfterChunk(lib, s, i, bytes); Mid(lib, t, |t.loops|, 0)
  {
    if i < |s.loops| && s.loops[i].live {
      var loop := s.loops[i];
      if Split(loop.buffer + bytes).Some? {
        LoopTakes(lib, s, i, bytes);
        hide Split, Mid, AfterMessages;
        var pass := Split(loop.buffer + bytes).value;
        var next := loop.(received := loop.received + bytes, delivered := loop.delivered + pass.messages,
                          buffer := pass.rest);
        var m := s.(loops := s.loops[i := next]);
        assert pass.messages == next.delivered[|loop.delivered|..];
        MessagesKeep(lib, m, i, |loop.delivered|, pass.messages);
        AllHandled(lib, AfterChunk(lib, s, i, bytes), i);
      } else {
        hide Split;
        LoopsSame(lib, s, s.(loops := s.loops[i := loop.(live := false)]));
      }
    }
  }

  /** Steps that touch only liveness, the pool, closed flags and calls. */
  lemma LoopsSame(lib: Library, s: State, t: State)
    requires Mid(lib, s, |s.loops|, 0)
    requires t.w == s.w && t.replies == s.replies && t.serves == s.serves
    requires |t.loops| == |s.loops| && |t.p.streams| == |s.p.streams|
    requires forall i | 0 <= i < |s.loops| :: t.loops[i].(live := true) == s.loops[i].(live := true)
    requires forall i | 0 <= i < |s.p.streams| :: t.p.streams[i].peer == s.p.streams[i].peer
    requires s.p.wire <= t.p.wire && forall x | x in t.p.wire[|s.p.wire|..] :: x.origin.SendCall?
    ensures Mid(lib, t, |t.loops|, 0)
  {
    hide Split, MessageIn;
    forall i | 0 <= i < |s.loops|
      ensures t.loops[i].peer == s.loops[i].peer && t.loops[i].received == s.loops[i].received
      ensures t.loops[i].delivered == s.loops[i].delivered && t.loops[i].buffer == s.loops[i].buffer
    {
      assert t.loops[i].(live := true) == s.loops[i].(live := true);
    }
    forall i: nat, k: nat | i < |t.loops| && k < |t.loops[i].delivered|
      ensures MessageIn(lib, t.loops[i].delivered[k]).Some? ==> exists h: nat :: HandlerOf(t, h, Wants.Source(i, k))
    {
      assert k < |s.loops[i].delivered|;
      if MessageIn(lib, t.loops[i].delivered[k]).Some? {
        var h: nat :| HandlerOf(s, h, Wants.Source(i, k));
        assert HandlerOf(t, h, Wants.Source(i, k));
      }
    }
    ServesSame(s, t);
    ServedStays(lib, s, t);
  }

  lemma NewStreamKeeps(lib: Library, s: State, t: State, peer: string)
    requires Mid(lib, s, |s.loops|, 0)
    requires t.w == s.w && t.replies == s.replies && t.serves == s.serves && t.p.wire == s.p.wire
    requires t.loops == s.loops + [NewLoop(peer)]
    requires |t.p.streams| == |s.p.streams| + 1 && t.p.streams[..|s.p.streams|] == s.p.streams
    requires t.p.streams[|s.p.streams|].peer == peer
    ensures Mid(lib, t, |t.loops|, 0)
  {
    hide MessageIn;
    SplitNothing();
    hide Split;
    forall i: nat, k: nat | i < |t.loops| && k < |t.loops[i].delivered|
      ensures MessageIn(lib, t.loops[i].delivered[k]).Some? ==> exists h: nat :: HandlerOf(t, h, Wants.Source(i, k))
    {
      assert i < |s.loops| && t.loops[i] == s.loops[i];
      if MessageIn(lib, t.loops[i].delivered[k]).Some? {
        var h: nat :| HandlerOf(s, h, Wants.Source(i, k));
        assert HandlerOf(t, h, Wants.Source(i, k));
      }
    }
    assert forall i | 0 <= i < |s.p.streams| :: t.p.streams[i] == t.p.streams[..|s.p.streams|][i];
    ServesSame(s, t);
    ServedStays(lib, s, t);
  }

  lemma GetServes(lib: Library, s: State, k: nat, found: bool, sent: bool)
    requires ServedOk(lib, s) && Wants.StoreOk(lib, s.w)
    ensures ServedOk(lib, AfterGet(s, k, found, sent))
  {
    hide BlockMessage;
    var t := AfterGet(s, k, found, sent);
    forall i: nat | i < |t.serves| && t.serves[i].progress.Served?
      ensures exists data :: Carries(lib, t, i, data)
    {
      if i == k && !s.serves[i].progress.Served? {
        assert Carries(lib, t, i, s.w.store[s.serves[i].cid]);
      } else {
        var data :| Carries(lib, s, i, data);
        assert Carries(lib, t, i, data);
      }
    }
  }

  lemma GetKeeps(lib: Library, s: State, k: nat, found: bool, sent: bool)
    requires Mid(lib, s, |s.loops|, 0) && Wants.StoreOk(lib, s.w)
    ensures var t := AfterGet(s, k, found, sent); Mid(lib, t, |t.loops|, 0)
  {
    var t := AfterGet(s, k, found, sent);
    hide BlockMessage, LoopsOk, SourcesOk, HandledBut, ServesOk, ServedOk, Wants.StoreOk;
    SameLoops(lib, s, t, |s.loops|, 0);
    ServesSame(s, t);
    GetServes(lib, s, k, found, sent);
  }

  lemma WantKeeps(lib: Library, s: State, step: Step)
    requires Mid(lib, s, |s.loops|, 0) && (step.Want? || step.Abort? || step.Stop?)
    ensures var t := Do(lib, s, step); Mid(lib, t, |t.loops|, 0)
  {
    var t := Do(lib, s, step);
    assert HandlersGrow(s.w, t.w) && |t.w.handlers| == |s.w.handlers|;
    hide Mid, HandlersGrow;
    WantsAdvance(lib, s, t.w, |s.loops|, 0);
    LoopsSame(lib, s.(w := t.w), t);
  }

  lemma StreamKeeps(lib: Library, s: State, step: Step)
    requires Mid(lib, s, |s.loops|, 0) && (step.InboundStream? || step.DialDone?)
    ensures var t := Do(lib, s, step); Mid(lib, t, |t.loops|, 0)
  {
    hide Mid;
    var t := Do(lib, s, step);
    if t.loops == s.loops {
      LoopsSame(lib, s, t);
    } else {
      NewStreamKeeps(lib, s, t, if step.InboundStream? then step.peer else s.p.calls[step.call].peer);
    }
  }

  lemma StepKeepsMid(lib: Library, s: State, step: Step)
    requires Mid(lib, s, |s.loops|, 0) && Wants.StoreOk(lib, s.w)
    ensures var t := Do(lib, s, step); Mid(lib, t, |t.loops|, 0)
  {
    hide Mid, AfterChunk, AfterHash, AfterPut, AfterGet, AfterInbound, AfterDial, Wants.StoreOk;
    match step {
      case Chunk(i, bytes) => ChunkKeeps(lib, s, i, bytes);
      case GetDone(k, found, sent) => GetKeeps(lib, s, k, found, sent);
      case HashDone(_) => WorkKeeps(lib, s, step);
      case PutDone(_, _) => WorkKeeps(lib, s, step);
      case InboundStream(_) => StreamKeeps(lib, s, step);
      case DialDone(_, _) => StreamKeeps(lib, s, step);
      case Want(_) => WantKeeps(lib, s, step);
      case Abort(_) => WantKeeps(lib, s, step);
      case Stop => WantKeeps(lib, s, step);
      case _ => LoopsSame(lib, s, Do(lib, s, step));
    }
  }

  lemma WorkKeeps(lib: Library, s: State, step: Step)
    requires Mid(lib, s, |s.loops|, 0) && (step.HashDone? || step.PutDone?)
    ensures var t := Do(lib, s, step); Mid(lib, t, |t.loops|, 0)
  {
    var h := step.handler;
    WorkIs(lib, s, step);
    if (if step.HashDone? then Wants.IsHashing(s.w, h) else Wants.IsPutting(s.w, h)) {
      NotYetReplied(lib, s, h);
      hide Mid, Finish, WorkDone, HandlersGrow, Do;
      var w := WorkDone(lib, s.w, step);
      WorkAdvances(lib, s.w, step);
      WantsAdvance(lib, s, w, |s.loops|, 0);
      FinishKeeps(lib, s.(w := w), h, |s.loops|, 0);
      FinishFrame(s.(w := w), h);
    }
  }

  lemma NotYetReplied(lib: Library, s: State, h: nat)
    requires Mid(lib, s, |s.loops|, 0) && h < |s.w.handlers| && !s.w.handlers[h].activity.Finished?
    ensures h !in s.replies
  {
    hide LoopsOk, SourcesOk, HandledBut, ServedOk;
  }

  lemma StepKeeps(lib: Library, s: State, step: Step)
    requires lib.Lawful() && Valid(lib, s)
    ensures Valid(lib, Do(lib, s, step))
  {
    HalvesKept(lib, s, step);
    hide Do, Wants.Valid, Wants.StoreOk, Pool.Valid;
    assert Mid(lib, s, |s.loops|, 0);
    StepKeepsMid(lib, s, step);
  }

  /** Every interleaving of all these steps keeps the node's invariant. */
  lemma {:induction false} RunKeeps(lib: Library, s: State, steps: seq<Step>)
    requires lib.Lawful() && Valid(lib, s)
    ensures Valid(lib, Run(lib, s, steps))
    decreases |steps|
  {
    hide Valid, Do;
    if steps != [] {
      StepKeeps(lib, s, steps[0]);
      RunKeeps(lib, Do(lib, s, steps[0]), steps[1..]);
    }
  }

  lemma StartValid(lib: Library, store: map<Cid, Bytes>)
    requires Wants.StoreOk(lib, Wants.Start(store))
    ensures Valid(lib, Start(store))
  {
    Wants.StartValid(lib, store);
  }

  /**
   * One node over all its runs, wants, streams, loops and serves interleaved: the two halves keep their
   * promises, every loop has delivered exactly the messages framed in what it received and keeps the
   * rest, and every block served carries data its CID names, on the stream its handler found pooled.
   */
  lemma EveryNodeRunIsSafe(lib: Library, store: map<Cid, Bytes>, steps: seq<Step>)
    requires lib.Lawful() && Wants.StoreOk(lib, Wants.Start(store))
    ensures var s := Run(lib, Start(store), steps);
            Wants.Conserved(lib, s.w) && Wants.ContentOk(lib, s.w) && Wants.StoreOk(lib, s.w) && Pool.PoolOk(s.p) &&
            (forall loop | loop in s.loops :: Split(loop.received) == Some(Pass(loop.delivered, loop.buffer))) &&
            (forall t: nat | t < |s.serves| && s.serves[t].progress.Served? && s.serves[t].cid.hashCode == SHA2_256 ::
               exists data :: lib.Names(s.serves[t].cid, data) &&
                              SentBlock(s, t, data) in s.p.wire)
  {
    StartValid(lib, store);
    RunKeeps(lib, Start(store), steps);
    var s := Run(lib, Start(store), steps);
    hide Run, Split, BlockMessage, SourcesOk, HandledOk, ServesOk;
    Wants.ValidConserves(lib, s.w);
    hide Wants.Conserved;
    forall t: nat | t < |s.serves| && s.serves[t].progress.Served? && s.serves[t].cid.hashCode == SHA2_256
      ensures exists data :: lib.Names(s.serves[t].cid, data) &&
                SentBlock(s, t, data) in s.p.wire
    {
      var data :| Carries(lib, s, t, data);
    }
  }
}
