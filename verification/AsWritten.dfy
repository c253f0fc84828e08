/**
 * The node with both departures of the code in place: aborts that remove by key, `src/bitswap.ts:138-141`,
 * and the read loop that slices twice, `src/bitswap.ts:320-338`; and exactly which of its runs are runs of
 * the node as intended.
 */
module AsWritten {
  import opened Basics
  import opened Varints
  import opened Cids
  import opened Codec
  import opened Framing
  import FramingAsWritten
  import Wants
  import Pool
  import Node
  import NodeLaws
  import Exchange

  type State = Node.State
  type Step = Node.Step

  function AfterChunk(lib: Library, s: State, i: nat, bytes: Bytes): State {
    if !(i < |s.loops| && s.loops[i].live) then s
    else
      var loop := s.loops[i];
      match FramingAsWritten.SplitTwice(loop.buffer + bytes)
      case None => s.(loops := s.loops[i := loop.(live := false)])
      case Some(pass) =>
        var next := loop.(received := loop.received + bytes, delivered := loop.delivered + pass.messages,
                          buffer := pass.rest);
        Node.AfterMessages(lib, s.(loops := s.loops[i := next]), i, |loop.delivered|, pass.messages)
  }

  function Do(lib: Library, s: State, step: Step): State {
    match step
    case Abort(d) => s.(w := Wants.AfterAbortByKey(lib, s.w, d))
    case Chunk(i, bytes) => AfterChunk(lib, s, i, bytes)
    case _ => Node.Do(lib, s, step)
  }

  function Run(lib: Library, s: State, steps: seq<Step>): State
    decreases |steps|
  {
    if steps == [] then s else Run(lib, Do(lib, s, steps[0]), steps[1..])
  }

  // ---------------------------------------------------------------- where the two forms agree

  /** The pass both finishes a frame and leaves part of the next. */
  predicate Cuts(s: Bytes) {
    Split(s).Some? && 0 < |Split(s).value.rest| < |s|
  }

  /** An abort whose key is unowned or its own; a chunk after which no pass cuts a frame. */
  predicate Harmless(lib: Library, s: State, step: Step) {
    match step
    case Abort(d) => Wants.OwnAbort(lib, s.w, Wants.Abort(d))
    case Chunk(i, bytes) => i < |s.loops| && s.loops[i].live ==> !Cuts(s.loops[i].buffer + bytes)
    case _ => true
  }

  predicate HarmlessRun(lib: Library, s: State, steps: seq<Step>)
    decreases |steps|
  {
    steps != [] ==> Harmless(lib, s, steps[0]) && HarmlessRun(lib, Do(lib, s, steps[0]), steps[1..])
  }

  /** Every state of the run is the one that the intended node is in. */
  predicate Agrees(lib: Library, s: State, steps: seq<Step>)
    decreases |steps|
  {
    steps != [] ==>
      Do(lib, s, steps[0]) == Node.Do(lib, s, steps[0]) && Agrees(lib, Do(lib, s, steps[0]), steps[1..])
  }

  lemma SlicesAgreeIff(s: Bytes)
    ensures FramingAsWritten.SplitTwice(s) == Split(s) <==> !Cuts(s)
  {
    hide Split;
    if Split(s).Some? {
      RestIsSuffix(s);
    }
  }

  lemma ChunkSame(lib: Library, s: State, i: nat, bytes: Bytes)
    requires i < |s.loops| && s.loops[i].live ==> !Cuts(s.loops[i].buffer + bytes)
    ensures AfterChunk(lib, s, i, bytes) == Node.AfterChunk(lib, s, i, bytes)
  {
    hide Split, FramingAsWritten.SplitTwice, Node.AfterMessages, Cuts;
    if i < |s.loops| && s.loops[i].live {
      SlicesAgreeIff(s.loops[i].buffer + bytes);
    }
  }

  /** After a pass that cuts a frame, the two buffers differ. */
  lemma ChunkDiffers(lib: Library, s: State, i: nat, bytes: Bytes)
    requires i < |s.loops| && s.loops[i].live && Cuts(s.loops[i].buffer + bytes)
    ensures AfterChunk(lib, s, i, bytes) != Node.AfterChunk(lib, s, i, bytes)
  {
    hide Split, Node.AfterMessages;
    var loop := s.loops[i];
    var whole := loop.buffer + bytes;
    RestIsSuffix(whole);
    var right, wrong := Split(whole).value, FramingAsWritten.SplitTwice(whole).value;
    assert |wrong.rest| < |right.rest|;
    var a := loop.(received := loop.received + bytes, delivered := loop.delivered + right.messages,
                   buffer := right.rest);
    var b := a.(buffer := wrong.rest);
    NodeLaws.MessagesProject(lib, s.(loops := s.loops[i := a]), i, |loop.delivered|, right.messages);
    NodeLaws.MessagesProject(lib, s.(loops := s.loops[i := b]), i, |loop.delivered|, right.messages);
    assert Node.AfterChunk(lib, s, i, bytes).loops[i] == a && AfterChunk(lib, s, i, bytes).loops[i] == b;
  }

  lemma AbortAgreesIff(lib: Library, s: Wants.State, d: nat)
    ensures Wants.AfterAbortByKey(lib, s, d) == Wants.AfterAbort(lib, s, d) <==> Wants.OwnAbort(lib, s, Wants.Abort(d))
  {
    if d < |s.deferreds| {
      var key := lib.name(s.deferreds[d].cid);
      if Wants.OwnAbort(lib, s, Wants.Abort(d)) {
        Wants.SameAbort(lib, s, d);
      } else {
        assert key !in Wants.AfterAbortByKey(lib, s, d).pending && key in Wants.AfterAbort(lib, s, d).pending;
      }
    }
  }

  /** One step as written is the intended one exactly when it is harmless. */
  lemma StepAgreesIff(lib: Library, s: State, step: Step)
    ensures Do(lib, s, step) == Node.Do(lib, s, step) <==> Harmless(lib, s, step)
  {
    match step {
      case Abort(d) =>
        hide Wants.AfterAbort, Wants.AfterAbortByKey, Wants.OwnAbort;
        AbortAgreesIff(lib, s.w, d);
      case Chunk(i, bytes) =>
        hide AfterChunk, Node.AfterChunk, Cuts;
        if i < |s.loops| && s.loops[i].live && Cuts(s.loops[i].buffer + bytes) {
          ChunkDiffers(lib, s, i, bytes);
        } else {
          ChunkSame(lib, s, i, bytes);
        }
      case _ =>
    }
  }

  /** Over all runs: the node as written goes through the intended node's states exactly when every step is harmless. */
  lemma {:induction false} RunAgreesIff(lib: Library, s: State, steps: seq<Step>)
    ensures Agrees(lib, s, steps) <==> HarmlessRun(lib, s, steps)
    ensures HarmlessRun(lib, s, steps) ==> Run(lib, s, steps) == Node.Run(lib, s, steps)
    decreases |steps|
  {
    hide Do, Harmless, Node.Do;
    if steps != [] {
      StepAgreesIff(lib, s, steps[0]);
      RunAgreesIff(lib, Do(lib, s, steps[0]), steps[1..]);
    }
  }

  // ---------------------------------------------------------------- what follows for the code

  /** The node as written keeps the whole invariant over every harmless run. */
  lemma HarmlessRunKeeps(lib: Library, s: State, steps: seq<Step>)
    requires lib.Lawful() && NodeLaws.Valid(lib, s) && HarmlessRun(lib, s, steps)
    ensures NodeLaws.Valid(lib, Run(lib, s, steps))
  {
    hide NodeLaws.Valid, HarmlessRun, Run, Node.Run;
    RunAgreesIff(lib, s, steps);
    NodeLaws.RunKeeps(lib, s, steps);
  }

  /** Two-node exchange for the code as written: the theorem about the intended nodes, over harmless runs. */
  lemma TwoNodeExchangeAsWritten(
      lib: Library, cid: Cid, data: Bytes, d: nat, n: nat,
      a0: State, toA1: seq<Step>, toA2: seq<Step>, toA3: seq<Step>,
      b0: State, toB1: seq<Step>, toB2: seq<Step>,
      ja: nat, ib: nat, jb: nat, ia: nat)
    requires lib.Lawful() && cid.WellFormed() && cid.codec < TWO_31
    requires lib.Names(cid, data) && lib.CollisionFree(data)
    requires NodeLaws.Valid(lib, a0) && NodeLaws.Valid(lib, b0)
    requires HarmlessRun(lib, a0, toA1) && HarmlessRun(lib, b0, toB1)
    requires HarmlessRun(lib, Run(lib, a0, toA1), toA2) && HarmlessRun(lib, Run(lib, b0, toB1), toB2)
    requires HarmlessRun(lib, Run(lib, Run(lib, a0, toA1), toA2), toA3)
    requires Node.Abort(d) !in toA1 + toA2 && Node.Stop !in toA1 + toA2
    requires var a1, b1 := Run(lib, a0, toA1), Run(lib, b0, toB1);
             var a2, b2 := Run(lib, a1, toA2), Run(lib, b1, toB2);
             Exchange.Meets(lib, cid, d, n, a0, a1, a2, Run(lib, a2, toA3), b0, b1, b2, ja, ib, jb, ia) &&
             Exchange.TheySucceed(lib, b0, toB1, Exchange.RequestSource(a1, n, ja, ib), cid)
    ensures var a2 := Run(lib, Run(lib, a0, toA1), toA2);
            d < |a2.w.deferreds| && a2.w.deferreds[d].outcome == Wants.Resolved(data)
  {
    hide Run, Node.Run, HarmlessRun, Exchange.Meets, Exchange.TheySucceed, NodeLaws.Valid;
    hide Library.Names, Library.CollisionFree;
    var a1, b1 := Run(lib, a0, toA1), Run(lib, b0, toB1);
    RunAgreesIff(lib, a0, toA1);
    RunAgreesIff(lib, a1, toA2);
    RunAgreesIff(lib, Run(lib, a1, toA2), toA3);
    RunAgreesIff(lib, b0, toB1);
    RunAgreesIff(lib, b1, toB2);
    Exchange.TwoNodeExchange(lib, cid, data, d, n, a0, toA1, toA2, toA3, b0, toB1, toB2, ja, ib, jb, ia);
  }
}
