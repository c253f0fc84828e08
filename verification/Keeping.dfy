/**
 * What a node keeps and serves: a block whose put ended well stays in the store and is served to whoever
 * asks for it, a message that asks for nothing is answered with nothing.
 */
module Keeping {
  import opened Basics
  import opened Varints
  import opened Cids
  import opened Codec
  import opened Framing
  import opened Node
  import opened NodeLaws
  import opened Exchange
  import Wire
  import MessageTrees
  import MessageMeaning
  import Wants
  import Pool

  // ---------------------------------------------------------------- what is stored

  /** A hash that answers a pending want takes it out and starts exactly the put of its block. */
  lemma HashStartsPut(lib: Library, s: State, h: nat, cid: Cid)
    requires Wants.IsHashing(s.w, h)
    requires var b := s.w.handlers[h].todo[0]; PrefixToCid(lib, b.prefix, b.data) == Some(cid)
    ensures var b := s.w.handlers[h].todo[0];
            var t := Do(lib, s, HashDone(h));
            t.w.store == s.w.store && h < |t.w.handlers| && t.w.handlers[h].todo == s.w.handlers[h].todo[1..] &&
            if lib.name(cid) in s.w.pending then
              t.w.handlers[h].activity == Wants.Putting(cid, b.data, s.w.pending[lib.name(cid)]) &&
              t.w.puts == s.w.puts + [(cid, b.data)] && t.w.pending == s.w.pending - {lib.name(cid)}
            else t.w.puts == s.w.puts && t.w.pending == s.w.pending && !t.w.handlers[h].activity.Putting?
  {
    hide PrefixToCid;
    FinishFrame(s.(w := Wants.AfterHash(lib, s.w, h)), h);
  }

  lemma PutIs(lib: Library, s: State, h: nat, stored: bool)
    requires Wants.IsPutting(s.w, h)
    ensures Do(lib, s, PutDone(h, stored)).w == Wants.AfterPut(s.w, h, stored)
  {
    FinishFrame(s.(w := Wants.AfterPut(s.w, h, stored)), h);
    hide Finish;
  }

  /**
   * A put that ended well has stored the handler's block under its CID and nothing else; one that failed
   * has stored nothing.  The want is resolved with the block in both cases, if nothing settled it before.
   */
  lemma PutStores(lib: Library, s: State, h: nat, stored: bool)
    requires Valid(lib, s) && Wants.IsPutting(s.w, h)
    ensures var p := s.w.handlers[h].activity;
            var t := Do(lib, s, PutDone(h, stored));
            (forall cid | cid != p.cid :: (cid in t.w.store <==> cid in s.w.store) &&
                                          (cid in s.w.store ==> t.w.store[cid] == s.w.store[cid])) &&
            (if stored then p.cid in t.w.store && t.w.store[p.cid] == p.data else t.w.store == s.w.store) &&
            p.deferred < |t.w.deferreds| &&
            (s.w.deferreds[p.deferred].outcome.Open? ==>
               t.w.deferreds[p.deferred].outcome == Wants.Resolved(p.data))
  {
    hide LoopsOk, SourcesOk, HandledOk, ServesOk, ServedOk, Pool.Valid;
    PutIs(lib, s, h, stored);
    hide Do;
  }

  /** No other step touches the store. */
  lemma OnlyPutsStore(lib: Library, s: State, step: Step)
    requires forall h | step == PutDone(h, true) :: !Wants.IsPutting(s.w, h)
    ensures Do(lib, s, step).w.store == s.w.store
  {
    Projects(lib, s, step);
    hide Do;
    if step.Chunk? {
      hide Split;
      var i := step.stream;
      if i < |s.loops| && s.loops[i].live && Split(s.loops[i].buffer + step.bytes).Some? {
        DeliversOnly(lib, i, |s.loops[i].delivered|, Split(s.loops[i].buffer + step.bytes).value.messages);
      }
      DeliversStoreNothing(lib, s.w, WantSteps(lib, s, step));
    } else {
      AtMostOneWantStep(lib, s.w, WantSteps(lib, s, step));
      hide PrefixToCid;
    }
  }

  lemma {:induction false} DeliversStoreNothing(lib: Library, w: Wants.State, steps: seq<Wants.Step>)
    requires forall step | step in steps :: step.Deliver?
    ensures Wants.Run(lib, w, steps).store == w.store
    decreases |steps|
  {
    if steps != [] {
      assert steps[0] in steps;
      DeliversStoreNothing(lib, Wants.Do(lib, w, steps[0]), steps[1..]);
    }
  }

  lemma {:induction false} DeliversOnly(lib: Library, stream: nat, index: nat, msgs: seq<Bytes>)
    ensures forall step | step in DeliverSteps(lib, stream, index, msgs) :: step.Deliver?
    decreases |msgs|
  {
    hide MessageIn;
    if msgs != [] {
      DeliversOnly(lib, stream, index + 1, msgs[1..]);
    }
  }

  /** Over all runs: what a put stored is still in the store, under its CID, with data the CID names. */
  lemma StoredForGood(lib: Library, s: State, h: nat, later: seq<Step>)
    requires lib.Lawful() && Valid(lib, s) && Wants.IsPutting(s.w, h)
    ensures var cid := s.w.handlers[h].activity.cid;
            var t := Run(lib, Do(lib, s, PutDone(h, true)), later);
            cid in t.w.store && lib.Names(cid, t.w.store[cid])
  {
    var cid := s.w.handlers[h].activity.cid;
    var t := Do(lib, s, PutDone(h, true));
    PutStores(lib, s, h, true);
    HoldsNamed(lib, s, h);
    StepKeeps(lib, s, PutDone(h, true));
    hide Do, Run, Valid;
    StaysStored(lib, t, cid, later);
  }

  lemma HoldsNamed(lib: Library, s: State, h: nat)
    requires Valid(lib, s) && Wants.IsPutting(s.w, h)
    ensures var p := s.w.handlers[h].activity;
            lib.Names(p.cid, p.data) && p.deferred < |s.w.deferreds| && s.w.deferreds[p.deferred].cid == p.cid
  {
    hide LoopsOk, SourcesOk, HandledOk, ServesOk, ServedOk, Pool.Valid;
  }

  lemma StaysStored(lib: Library, s: State, cid: Cid, later: seq<Step>)
    requires lib.Lawful() && Valid(lib, s) && cid in s.w.store && cid.hashCode == SHA2_256
    ensures var t := Run(lib, s, later);
            Valid(lib, t) && cid in t.w.store && lib.Names(cid, t.w.store[cid])
  {
    RunKeeps(lib, s, later);
    RunGrows(lib, s, later);
    hide Run, LoopsOk, SourcesOk, HandledOk, ServesOk, ServedOk, Pool.Valid, Wants.Valid;
  }

  // ---------------------------------------------------------------- answered, stored and served

  /** During the run a put for the want ends well. */
  ghost predicate PutEndsWell(lib: Library, s: State, steps: seq<Step>, d: nat)
    decreases |steps|
  {
    steps != [] &&
    ((exists h: nat :: steps[0] == PutDone(h, true) && Wants.Holds(s.w, h, d)) ||
     PutEndsWell(lib, Do(lib, s, steps[0]), steps[1..], d))
  }

  lemma {:induction false} StoredAfterwards(lib: Library, s: State, steps: seq<Step>, d: nat, cid: Cid)
    requires lib.Lawful() && Valid(lib, s) && d < |s.w.deferreds| && s.w.deferreds[d].cid == cid
    requires PutEndsWell(lib, s, steps, d)
    ensures var t := Run(lib, s, steps); Valid(lib, t) && cid in t.w.store && lib.Names(cid, t.w.store[cid])
    decreases |steps|
  {
    var step := steps[0];
    if h: nat :| step == PutDone(h, true) && Wants.Holds(s.w, h, d) {
      HoldsNamed(lib, s, h);
      PutStores(lib, s, h, true);
      StepKeeps(lib, s, step);
      hide Do, Run, Valid;
      OneThenRest(lib, s, steps);
      StaysStored(lib, Do(lib, s, step), cid, steps[1..]);
    } else {
      StepKeeps(lib, s, step);
      SameCid(lib, s, step, d);
      hide Do, Valid;
      StoredAfterwards(lib, Do(lib, s, step), steps[1..], d, cid);
    }
  }

  lemma OneThenRest(lib: Library, s: State, steps: seq<Step>)
    requires steps != []
    ensures Run(lib, s, steps) == Run(lib, Do(lib, s, steps[0]), steps[1..])
  {
  }

  lemma SameCid(lib: Library, s: State, step: Step, d: nat)
    requires d < |s.w.deferreds|
    ensures var t := Do(lib, s, step); d < |t.w.deferreds| && t.w.deferreds[d].cid == s.w.deferreds[d].cid
  {
    Projects(lib, s, step);
    SameCidOn(lib, s.w, WantSteps(lib, s, step), d);
    hide Do;
  }

  lemma {:induction false} SameCidOn(lib: Library, w: Wants.State, steps: seq<Wants.Step>, d: nat)
    requires d < |w.deferreds|
    ensures var t := Wants.Run(lib, w, steps); d < |t.deferreds| && t.deferreds[d].cid == w.deferreds[d].cid
    decreases |steps|
  {
    if steps != [] {
      var t := Wants.Do(lib, w, steps[0]);
      assert d < |t.deferreds| && t.deferreds[d].cid == w.deferreds[d].cid by {
        hide PrefixToCid;
      }
      hide Wants.Do;
      SameCidOn(lib, t, steps[1..], d);
    }
  }

  /**
   * A want that is answered makes its node a provider: when its put ended well, the node holds the block
   * from then on, and a third node that asks for it is served, whatever both do in between.
   */
  lemma AnsweredNodeServes(
      lib: Library, s: State, steps: seq<Step>, d: nat, cid: Cid,
      toC: seq<Step>, ic: nat, m: nat, jc: nat) returns (x: Pool.Sent, data: Bytes)
    requires lib.Lawful() && cid.WellFormed() && cid.hashCode == SHA2_256 && Valid(lib, s)
    requires d < |s.w.deferreds| && s.w.deferreds[d].cid == cid && PutEndsWell(lib, s, steps, d)
    requires var a := Run(lib, s, steps);
             var c := Run(lib, a, toC);
             Delivered(a, ic) <= m && |WantMessage(lib, cid)| < TWO_31 &&
             TheySucceed(lib, a, toC, Wants.Source(ic, m), cid) &&
             ic < |c.loops| && m < |c.loops[ic].delivered| && c.loops[ic].delivered[m] == WantMessage(lib, cid) &&
             RepliesOn(c, Wants.Source(ic, m), jc) && NoneWaits(c, Wants.Source(ic, m), cid)
    ensures lib.Names(cid, data) && x.stream == jc && x.bytes == Frame(BlockMessage(cid, data))
    ensures var a := Run(lib, s, steps); x in Run(lib, a, toC).p.wire && x !in a.p.wire
  {
    hide Run, WantMessage, BlockMessage, Valid, PutEndsWell, TheySucceed, RepliesOn, NoneWaits, Frame;
    StoredAfterwards(lib, s, steps, d, cid);
    x, data := RequestIsServed(lib, Run(lib, s, steps), toC, cid, ic, m, jc);
  }

  // ---------------------------------------------------------------- who is served, and what

  /**
   * A message of nothing but cancels, want-haves and entries without a CID starts no run of
   * `_serveBlockOnStream`, whatever blocks and unknown fields it carries besides.
   */
  lemma CancelsAreNotServed(lib: Library, s: State, tree: seq<MessageTrees.MessageItem>, h: nat)
    requires Valid(lib, s) && h < |s.w.handlers| && forall x | x in tree :: MessageTrees.MessageItemOk(x)
    requires forall x | x in tree && x.Wantlist? ::
      forall w | w in x.items && w.Entry? :: !MessageMeaning.Live(w.fields)
    requires var src := s.w.handlers[h].source;
             src.stream < |s.loops| && src.index < |s.loops[src.stream].delivered| &&
             s.loops[src.stream].delivered[src.index] == MessageTrees.Encode(tree)
    ensures forall v | v in s.serves :: v.handler != h
  {
    hide MessageIn, MessageTrees.MessageItemOk, MessageTrees.Encode, MessageMeaning.CarriedBlocks, MessageMeaning.Live;
    hide Wants.Valid, Pool.Valid, LoopsOk, HandledOk, ServedOk;
    MessageMeaning.MessageMeans(lib, tree);
    NothingWanted(lib, tree);
    assert s.w.handlers[h].message.wants == [];
  }

  lemma {:induction false} NothingWanted(lib: Library, tree: seq<MessageTrees.MessageItem>)
    requires forall x | x in tree && x.Wantlist? ::
      forall w | w in x.items && w.Entry? :: !MessageMeaning.Live(w.fields)
    ensures MessageMeaning.WantedCids(lib, tree) == []
  {
    hide MessageMeaning.Live;
    if tree != [] {
      NothingWanted(lib, tree[1..]);
      assert tree[0] in tree;
      if tree[0].Wantlist? {
        NothingInWantlist(lib, tree[0].items);
      }
    }
  }

  lemma {:induction false} NothingInWantlist(lib: Library, items: seq<MessageTrees.WantlistItem>)
    requires forall w | w in items && w.Entry? :: !MessageMeaning.Live(w.fields)
    ensures MessageMeaning.WantlistCids(lib, items) == []
  {
    if items != [] {
      hide MessageMeaning.Live;
      NothingInWantlist(lib, items[1..]);
      assert items[0] in items;
      if items[0].Entry? {
        NotAskedFor(lib, items[0].fields);
      }
    }
  }

  lemma NotAskedFor(lib: Library, fields: seq<Wire.Field>)
    requires !MessageMeaning.Live(fields)
    ensures MessageMeaning.EntryCids(lib, fields) == []
  {
  }

  /** A read that finds the block, and a send that succeeds, put exactly the block's frame on the handler's stream. */
  lemma GetServesOrSkips(lib: Library, s: State, k: nat, found: bool, sent: bool)
    requires k < |s.serves| && s.serves[k].progress.Waiting?
    ensures var v := s.serves[k];
            var t := Do(lib, s, GetDone(k, found, sent));
            t.w == s.w && t.p.pool == s.p.pool && t.p.streams == s.p.streams && t.p.calls == s.p.calls &&
            (if found && sent && v.cid in s.w.store then
               t.serves == s.serves[k := v.(progress := Served)] &&
               t.p.wire == s.p.wire +
                 [Pool.Sent(v.stream, Frame(BlockMessage(v.cid, s.w.store[v.cid])), Pool.ServeCall(k))]
             else t.serves == s.serves[k := v.(progress := Skipped)] && t.p.wire == s.p.wire)
  {
    hide Frame, BlockMessage;
  }

  // ---------------------------------------------------------------- a handler that gets through

  /** The handler got through in this step. */
  predicate GetsThrough(s: State, t: State, h: nat) {
    h < |t.w.handlers| && t.w.handlers[h].activity.Finished? &&
    (h < |s.w.handlers| ==> !s.w.handlers[h].activity.Finished?)
  }

  /** It serves its wants on the stream pooled for its peer, and not at all without one. */
  predicate Replied(t: State, h: nat)
    requires h < |t.w.handlers|
  {
    var peer := PeerOf(t, t.w.handlers[h].source.stream);
    if peer in t.p.pool then h in t.replies && t.replies[h] == t.p.pool[peer] else h !in t.replies
  }

  lemma FinishReplies(s: State, h: nat)
    requires h < |s.w.handlers| && s.w.handlers[h].activity.Finished? && h !in s.replies
    ensures var t := Finish(s, h);
            Replied(t, h) && t.w == s.w && t.p == s.p && t.loops == s.loops &&
            forall g | g != h :: (g in t.replies <==> g in s.replies) &&
                                 (g in s.replies ==> t.replies[g] == s.replies[g])
  {
  }

  lemma {:induction false} MessagesReply(lib: Library, s: State, stream: nat, index: nat, msgs: seq<Bytes>, h: nat)
    requires forall g | g in s.replies :: g < |s.w.handlers|
    requires h < |s.w.handlers| ==> !s.w.handlers[h].activity.Finished? || Replied(s, h)
    ensures var t := AfterMessages(lib, s, stream, index, msgs);
            (forall g | g in t.replies :: g < |t.w.handlers|) &&
            (h < |t.w.handlers| && t.w.handlers[h].activity.Finished? ==> Replied(t, h))
    decreases |msgs|
  {
    if msgs != [] {
      var t := AfterMessage(lib, s, Wants.Source(stream, index), msgs[0]);
      OneMessageReplies(lib, s, Wants.Source(stream, index), msgs[0], h);
      hide AfterMessage, Replied;
      MessagesReply(lib, t, stream, index + 1, msgs[1..], h);
    }
  }

  lemma OneMessageReplies(lib: Library, s: State, source: Wants.Source, msg: Bytes, h: nat)
    requires forall g | g in s.replies :: g < |s.w.handlers|
    requires h < |s.w.handlers| ==> !s.w.handlers[h].activity.Finished? || Replied(s, h)
    ensures var t := AfterMessage(lib, s, source, msg);
            (forall g | g in t.replies :: g < |t.w.handlers|) &&
            (h < |t.w.handlers| && t.w.handlers[h].activity.Finished? ==> Replied(t, h))
  {
    hide MessageIn;
    if MessageIn(lib, msg).Some? {
      var n := |s.w.handlers|;
      var m := s.(w := Wants.AfterDeliver(s.w, source, MessageIn(lib, msg).value));
      if m.w.handlers[n].activity.Finished? {
        FinishReplies(m, n);
      }
    }
  }

  /**
   * Whenever a handler gets through its blocks, it starts to serve on the stream pooled for its peer at
   * that moment, and on none if there is none.
   */
  lemma ThroughMeansReplied(lib: Library, s: State, step: Step, h: nat)
    requires Valid(lib, s) && GetsThrough(s, Do(lib, s, step), h)
    ensures Replied(Do(lib, s, step), h)
  {
    hide MessageIn, PrefixToCid, Split, Wants.Valid, Pool.Valid, SourcesOk, HandledOk, ServedOk, AfterMessages;
    RepliesAreThrough(lib, s);
    match step {
      case Chunk(i, bytes) =>
        if i < |s.loops| && s.loops[i].live && Split(s.loops[i].buffer + bytes).Some? {
          var loop, pass := s.loops[i], Split(s.loops[i].buffer + bytes).value;
          var next := loop.(received := loop.received + bytes, delivered := loop.delivered + pass.messages,
                            buffer := pass.rest);
          MessagesReply(lib, s.(loops := s.loops[i := next]), i, |loop.delivered|, pass.messages, h);
        }
      case HashDone(g) => WorkReplies(lib, s, step, h);
      case PutDone(g, _) => WorkReplies(lib, s, step, h);
      case _ =>
        ElseSameHandlers(lib, s, step);
    }
  }

  lemma RepliesAreThrough(lib: Library, s: State)
    requires Valid(lib, s)
    ensures forall g | g in s.replies :: g < |s.w.handlers| && s.w.handlers[g].activity.Finished?
  {
    hide Wants.Valid, Pool.Valid, LoopsOk, SourcesOk, HandledOk, ServedOk;
  }

  lemma ElseSameHandlers(lib: Library, s: State, step: Step)
    requires !step.Chunk? && !step.HashDone? && !step.PutDone?
    ensures Do(lib, s, step).w.handlers == s.w.handlers
  {
    hide AfterChunk, AfterHash, AfterPut, BlockMessage, Frame;
  }

  lemma WorkReplies(lib: Library, s: State, step: Step, h: nat)
    requires step.HashDone? || step.PutDone?
    requires forall g | g in s.replies :: g < |s.w.handlers| && s.w.handlers[g].activity.Finished?
    requires GetsThrough(s, Do(lib, s, step), h)
    ensures Replied(Do(lib, s, step), h)
  {
    hide PrefixToCid;
    var g := step.handler;
    WorkIs(lib, s, step);
    var m := s.(w := WorkDone(lib, s.w, step));
    FinishFrame(m, g);
    OnlyItsHandler(lib, s.w, step);
    hide Do, WorkDone;
    if h == g && g < |m.w.handlers| && m.w.handlers[g].activity.Finished? {
      FinishReplies(m, g);
    }
  }

  lemma OnlyItsHandler(lib: Library, w: Wants.State, step: Step)
    requires step.HashDone? || step.PutDone?
    ensures var t := WorkDone(lib, w, step);
            |t.handlers| == |w.handlers| &&
            forall g | 0 <= g < |w.handlers| && g != step.handler :: t.handlers[g] == w.handlers[g]
  {
    hide PrefixToCid;
  }
}
