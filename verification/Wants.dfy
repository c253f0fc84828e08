/**
 * Wants and the handlers of incoming messages, `src/bitswap.ts:110-147` and `351-371`, as steps between
 * the points where the code awaits: registering a want, an abort signal, a message arriving, a hash
 * computed (then look-up, delete and the start of the put run together), a put ended, and stop.
 */
module Wants {
  import opened Basics
  import opened Cids
  import opened Codec
  import CodecLaws

  /** A deferred promise; the first settlement wins. */
  datatype Outcome = Open | Resolved(value: Bytes) | Rejected
  datatype Deferred = Deferred(cid: Cid, outcome: Outcome)

  /** The message number `index` of the stream `stream`. */
  datatype Source = Source(stream: nat, index: nat)

  datatype Activity = Hashing | Putting(cid: Cid, data: Bytes, deferred: nat) | Finished

  /** One run of `_handleMessage`: the blocks still to hash, the current one first. */
  datatype Handler = Handler(source: Source, message: Decoded, todo: seq<Block>, activity: Activity)

  /** Deferreds and handlers are kept for good; an index is the identity of the object. */
  datatype State = State(
    pending: map<string, nat>,
    deferreds: seq<Deferred>,
    handlers: seq<Handler>,
    store: map<Cid, Bytes>,
    puts: seq<(Cid, Bytes)>)

  datatype Step =
    | Want(cid: Cid)
    | Abort(deferred: nat)
    | Deliver(source: Source, message: Decoded)
    | HashDone(handler: nat)
    | PutDone(handler: nat, stored: bool)
    | RejectAll

  function Settle(deferreds: seq<Deferred>, d: nat, outcome: Outcome): seq<Deferred> {
    if d < |deferreds| && deferreds[d].outcome.Open?
    then deferreds[d := deferreds[d].(outcome := outcome)]
    else deferreds
  }

  /** `want`: an equal want that is pending is shared. */
  function AfterWant(lib: Library, s: State, cid: Cid): State {
    if lib.name(cid) in s.pending then s
    else s.(pending := s.pending[lib.name(cid) := |s.deferreds|], deferreds := s.deferreds + [Deferred(cid, Open)])
  }

  /** The abort listener, removing only an entry that is its own. */
  function AfterAbort(lib: Library, s: State, d: nat): State {
    if d >= |s.deferreds| then s
    else
      var key := lib.name(s.deferreds[d].cid);
      s.(pending := if key in s.pending && s.pending[key] == d then s.pending - {key} else s.pending,
         deferreds := Settle(s.deferreds, d, Rejected))
  }

  /** The abort listener as written: it removes whatever entry has its key. */
  function AfterAbortByKey(lib: Library, s: State, d: nat): State {
    if d >= |s.deferreds| then s
    else s.(pending := s.pending - {lib.name(s.deferreds[d].cid)}, deferreds := Settle(s.deferreds, d, Rejected))
  }

  function Working(todo: seq<Block>): Activity {
    if todo == [] then Finished else Hashing
  }

  function AfterDeliver(s: State, source: Source, message: Decoded): State {
    s.(handlers := s.handlers + [Handler(source, message, message.blocks, Working(message.blocks))])
  }

  predicate IsHashing(s: State, h: nat) {
    h < |s.handlers| && s.handlers[h].activity.Hashing? && s.handlers[h].todo != []
  }

  predicate IsPutting(s: State, h: nat) {
    h < |s.handlers| && s.handlers[h].activity.Putting?
  }

  /** The want a block just hashed answers: its CID and its deferred. */
  function Answered(lib: Library, s: State, b: Block): Option<(Cid, nat)> {
    match PrefixToCid(lib, b.prefix, b.data)
    case None => None
    case Some(cid) => if lib.name(cid) in s.pending then Some((cid, s.pending[lib.name(cid)])) else None
  }

  function AfterHash(lib: Library, s: State, h: nat): State {
    if !IsHashing(s, h) then s
    else
      var hd := s.handlers[h];
      var b, rest := hd.todo[0], hd.todo[1..];
      match Answered(lib, s, b)
      case None => s.(handlers := s.handlers[h := hd.(todo := rest, activity := Working(rest))])
      case Some((cid, d)) =>
        s.(pending := s.pending - {lib.name(cid)},
           handlers := s.handlers[h := hd.(todo := rest, activity := Putting(cid, b.data, d))],
           puts := s.puts + [(cid, b.data)])
  }

  /** The put ended, well or badly; the want is resolved either way. */
  function AfterPut(s: State, h: nat, stored: bool): State {
    if !IsPutting(s, h) then s
    else
      var hd := s.handlers[h];
      var p := hd.activity;
      s.(store := if stored then s.store[p.cid := p.data] else s.store,
         deferreds := Settle(s.deferreds, p.deferred, Resolved(p.data)),
         handlers := s.handlers[h := hd.(activity := Working(hd.todo))])
  }

  function RejectPending(pending: map<string, nat>, deferreds: seq<Deferred>): seq<Deferred> {
    seq(|deferreds|, d requires 0 <= d < |deferreds| =>
      if d in pending.Values && deferreds[d].outcome.Open? then deferreds[d].(outcome := Rejected) else deferreds[d])
  }

  function AfterStop(s: State): State {
    s.(pending := map[], deferreds := RejectPending(s.pending, s.deferreds))
  }

  function Do(lib: Library, s: State, step: Step): State {
    match step
    case Want(cid) => AfterWant(lib, s, cid)
    case Abort(d) => AfterAbort(lib, s, d)
    case Deliver(source, message) => AfterDeliver(s, source, message)
    case HashDone(h) => AfterHash(lib, s, h)
    case PutDone(h, stored) => AfterPut(s, h, stored)
    case RejectAll => AfterStop(s)
  }

  function Run(lib: Library, s: State, steps: seq<Step>): State
    decreases |steps|
  {
    if steps == [] then s else Run(lib, Do(lib, s, steps[0]), steps[1..])
  }

  // ---------------------------------------------------------------- where a deferred is

  predicate InPending(lib: Library, s: State, d: nat)
    requires d < |s.deferreds|
  {
    var key := lib.name(s.deferreds[d].cid);
    key in s.pending && s.pending[key] == d
  }

  predicate Holds(s: State, h: nat, d: nat) {
    IsPutting(s, h) && s.handlers[h].activity.deferred == d
  }

  ghost predicate Held(s: State, d: nat) {
    exists h: nat :: Holds(s, h, d)
  }

  ghost predicate HeldOnce(s: State, d: nat) {
    forall h, i :: Holds(s, h, d) && Holds(s, i, d) ==> h == i
  }

  /** Unsettled and with a handler that awaits its put. */
  ghost predicate Taken(s: State, d: nat)
    requires d < |s.deferreds|
  {
    s.deferreds[d].outcome.Open? && Held(s, d)
  }

  predicate Settled(s: State, d: nat)
    requires d < |s.deferreds|
  {
    !s.deferreds[d].outcome.Open?
  }

  function Count(b: bool): nat {
    if b then 1 else 0
  }

  /** Every deferred ever created is in exactly one of the three places, and in one handler at most. */
  ghost predicate Conserved(lib: Library, s: State) {
    forall d: nat | d < |s.deferreds| ::
      Count(InPending(lib, s, d)) + Count(Taken(s, d)) + Count(Settled(s, d)) == 1 && HeldOnce(s, d)
  }

  // ---------------------------------------------------------------- the invariant

  /** Every pending entry is an unsettled deferred for the CID it is filed under. */
  predicate PendingOk(lib: Library, s: State) {
    forall key | key in s.pending ::
      s.pending[key] < |s.deferreds| &&
      lib.name(s.deferreds[s.pending[key]].cid) == key && s.deferreds[s.pending[key]].outcome.Open?
  }

  /** A handler that awaits a put holds a deferred for that CID, which is no longer pending. */
  ghost predicate HoldingOk(lib: Library, s: State) {
    forall h: nat | IsPutting(s, h) ::
      var p := s.handlers[h].activity;
      p.deferred < |s.deferreds| && s.deferreds[p.deferred].cid == p.cid &&
      lib.Names(p.cid, p.data) && !InPending(lib, s, p.deferred)
  }

  ghost predicate HeldOnceOk(s: State) {
    forall d: nat | d < |s.deferreds| :: HeldOnce(s, d)
  }

  ghost predicate OpenOk(lib: Library, s: State) {
    forall d: nat | d < |s.deferreds| && s.deferreds[d].outcome.Open? :: InPending(lib, s, d) || Held(s, d)
  }

  predicate ShapeOk(s: State) {
    forall hd | hd in s.handlers ::
      (hd.activity.Hashing? ==> hd.todo != []) && (hd.activity.Finished? ==> hd.todo == [])
  }

  /** Content-address safety: what resolved wants carry and what is put hashes to the CID's digest. */
  predicate ContentOk(lib: Library, s: State) {
    (forall x | x in s.deferreds :: x.outcome.Resolved? ==> lib.Names(x.cid, x.outcome.value)) &&
    (forall p | p in s.puts :: lib.Names(p.0, p.1))
  }

  predicate StoreOk(lib: Library, s: State) {
    forall cid | cid in s.store && cid.hashCode == SHA2_256 :: lib.Names(cid, s.store[cid])
  }

  ghost predicate Valid(lib: Library, s: State) {
    PendingOk(lib, s) && HoldingOk(lib, s) && HeldOnceOk(s) && OpenOk(lib, s) && ShapeOk(s) && ContentOk(lib, s)
  }

  // ---------------------------------------------------------------- every step keeps it

  lemma WantKeeps(lib: Library, s: State, cid: Cid)
    requires Valid(lib, s)
    ensures Valid(lib, AfterWant(lib, s, cid))
  {
    var t := AfterWant(lib, s, cid);
    if t != s {
      assert forall h: nat, d: nat :: Holds(t, h, d) == Holds(s, h, d);
      forall d: nat | d < |t.deferreds| && t.deferreds[d].outcome.Open?
        ensures InPending(lib, t, d) || Held(t, d)
      {
        if d < |s.deferreds| {
          assert InPending(lib, s, d) || Held(s, d);
          if Held(s, d) {
            var h: nat :| Holds(s, h, d);
            assert Holds(t, h, d);
          }
        }
      }
      assert HeldOnceOk(t) by {
        forall d: nat | d < |t.deferreds|
          ensures HeldOnce(t, d)
        {
          if d < |s.deferreds| {
            assert HeldOnce(s, d);
          }
        }
      }
    }
  }

  /** What only changes outcomes and pending entries leaves every handler's hold as it was. */
  lemma SameHolds(lib: Library, s: State, t: State)
    requires s.handlers == t.handlers && |t.deferreds| == |s.deferreds| && HeldOnceOk(s) && OpenOk(lib, s)
    requires forall d: nat | d < |t.deferreds| && t.deferreds[d].outcome.Open? && !InPending(lib, t, d) ::
      s.deferreds[d].outcome.Open? && !InPending(lib, s, d)
    ensures HeldOnceOk(t) && OpenOk(lib, t)
  {
    assert forall h: nat, d: nat :: Holds(t, h, d) == Holds(s, h, d);
    hide Holds, InPending;
    forall d: nat | d < |t.deferreds|
      ensures HeldOnce(t, d)
      ensures t.deferreds[d].outcome.Open? ==> InPending(lib, t, d) || Held(t, d)
    {
      assert HeldOnce(s, d);
      if t.deferreds[d].outcome.Open? && !InPending(lib, t, d) {
        assert Held(s, d);
        var h: nat :| Holds(s, h, d);
        assert Holds(t, h, d);
      }
    }
  }

  lemma AbortEffect(lib: Library, s: State, d: nat)
    ensures var t := AfterAbort(lib, s, d);
            t.handlers == s.handlers && t.puts == s.puts && |t.deferreds| == |s.deferreds| &&
            (forall e: nat | e < |s.deferreds| ::
               t.deferreds[e].cid == s.deferreds[e].cid && (e != d ==> t.deferreds[e] == s.deferreds[e]) &&
               (t.deferreds[e] == s.deferreds[e] || t.deferreds[e].outcome.Rejected?)) &&
            (d < |s.deferreds| ==> !t.deferreds[d].outcome.Open?)
  {
  }

  lemma AbortKeepsPending(lib: Library, s: State, d: nat)
    requires Valid(lib, s)
    ensures var t := AfterAbort(lib, s, d);
            PendingOk(lib, t) && HoldingOk(lib, t) &&
            forall e: nat | e < |t.deferreds| && e != d :: InPending(lib, t, e) == InPending(lib, s, e)
  {
    hide HeldOnceOk, OpenOk, ContentOk, ShapeOk, Library.Names;
    AbortEffect(lib, s, d);
  }

  lemma AbortKeeps(lib: Library, s: State, d: nat)
    requires Valid(lib, s)
    ensures Valid(lib, AfterAbort(lib, s, d))
  {
    hide HeldOnceOk, OpenOk, AfterAbort, Library.Names, InPending;
    AbortEffect(lib, s, d);
    AbortKeepsPending(lib, s, d);
    hide PendingOk, HoldingOk;
    SameHolds(lib, s, AfterAbort(lib, s, d));
  }

  lemma DeliverKeeps(lib: Library, s: State, source: Source, message: Decoded)
    requires Valid(lib, s)
    ensures Valid(lib, AfterDeliver(s, source, message))
  {
    var t := AfterDeliver(s, source, message);
    assert forall h: nat, d: nat :: Holds(t, h, d) == Holds(s, h, d);
    forall d: nat | d < |t.deferreds|
      ensures HeldOnce(t, d)
      ensures t.deferreds[d].outcome.Open? ==> InPending(lib, t, d) || Held(t, d)
    {
      assert HeldOnce(s, d);
      if Held(s, d) {
        var h: nat :| Holds(s, h, d);
        assert Holds(t, h, d);
      }
    }
  }

  /** A hash that answers no want only moves its handler on. */
  lemma HashSkips(lib: Library, s: State, h: nat)
    requires Valid(lib, s) && IsHashing(s, h) && Answered(lib, s, s.handlers[h].todo[0]).None?
    ensures Valid(lib, AfterHash(lib, s, h))
  {
    hide Answered;
    var t := AfterHash(lib, s, h);
    assert forall i: nat | i < |s.handlers| && i != h :: t.handlers[i] == s.handlers[i];
    assert forall i: nat, d: nat :: Holds(t, i, d) == Holds(s, i, d);
    forall d: nat | d < |t.deferreds|
      ensures HeldOnce(t, d)
      ensures t.deferreds[d].outcome.Open? ==> InPending(lib, t, d) || Held(t, d)
    {
      assert HeldOnce(s, d);
      if Held(s, d) {
        var i: nat :| Holds(s, i, d);
        assert Holds(t, i, d);
      }
    }
  }

  /** A want taken out of the pending ones is held by exactly the handler that took it. */
  lemma TakeKeepsHolds(lib: Library, s: State, t: State, h: nat, cid: Cid, d: nat)
    requires Valid(lib, s) && IsHashing(s, h) && |t.handlers| == |s.handlers| && t.deferreds == s.deferreds
    requires d < |s.deferreds| && s.deferreds[d].cid == cid && InPending(lib, s, d)
    requires t.pending == s.pending - {lib.name(cid)}
    requires t.handlers[h].activity.Putting? && t.handlers[h].activity.deferred == d
    requires forall i: nat | i < |s.handlers| && i != h :: t.handlers[i] == s.handlers[i]
    ensures HeldOnceOk(t) && OpenOk(lib, t)
  {
    hide PendingOk, ShapeOk, ContentOk, Library.Names;
    assert Holds(t, h, d);
    assert forall i: nat, e: nat :: Holds(t, i, e) == (if i == h then e == d else Holds(s, i, e));
    assert forall i: nat :: !Holds(s, i, d);
    hide HoldingOk, Holds;
    forall e: nat | e < |t.deferreds|
      ensures HeldOnce(t, e)
      ensures t.deferreds[e].outcome.Open? ==> InPending(lib, t, e) || Held(t, e)
    {
      assert HeldOnce(s, e);
      assert !Holds(s, h, e) by {
        NotHolding(s, h, e);
      }
      if t.deferreds[e].outcome.Open? && e != d && Held(s, e) {
        var i: nat :| Holds(s, i, e);
        assert Holds(t, i, e);
      }
    }
  }

  lemma NotHolding(s: State, h: nat, d: nat)
    requires IsHashing(s, h)
    ensures !Holds(s, h, d)
  {
  }

  lemma HashTakes(lib: Library, s: State, h: nat)
    requires lib.Lawful() && Valid(lib, s) && IsHashing(s, h) && Answered(lib, s, s.handlers[h].todo[0]).Some?
    ensures Valid(lib, AfterHash(lib, s, h))
  {
    hide PrefixToCid, HeldOnceOk, OpenOk;
    var t := AfterHash(lib, s, h);
    var (cid, d) := Answered(lib, s, s.handlers[h].todo[0]).value;
    assert forall i: nat | i < |s.handlers| && i != h :: t.handlers[i] == s.handlers[i];
    assert s.deferreds[d].cid == cid && InPending(lib, s, d);
    TakeKeepsHolds(lib, s, t, h, cid, d);
  }

  lemma HashKeeps(lib: Library, s: State, h: nat)
    requires lib.Lawful() && Valid(lib, s)
    ensures Valid(lib, AfterHash(lib, s, h))
  {
    hide Valid, Answered;
    if IsHashing(s, h) {
      if Answered(lib, s, s.handlers[h].todo[0]).Some? {
        HashTakes(lib, s, h);
      } else {
        HashSkips(lib, s, h);
      }
    }
  }

  /** A handler whose put has ended lets go of the want, which is settled by then. */
  lemma PutKeepsHolds(lib: Library, s: State, h: nat, stored: bool)
    requires Valid(lib, s) && IsPutting(s, h)
    ensures HeldOnceOk(AfterPut(s, h, stored)) && OpenOk(lib, AfterPut(s, h, stored))
  {
    hide PendingOk, ShapeOk, ContentOk, Library.Names;
    var t := AfterPut(s, h, stored);
    var d := s.handlers[h].activity.deferred;
    assert Holds(s, h, d);
    assert forall i: nat, e: nat :: Holds(t, i, e) == (i != h && Holds(s, i, e));
    assert forall e: nat | e < |s.deferreds| :: t.deferreds[e].cid == s.deferreds[e].cid;
    assert forall e: nat | e < |s.deferreds| && e != d :: t.deferreds[e] == s.deferreds[e];
    forall e: nat | e < |t.deferreds|
      ensures HeldOnce(t, e)
      ensures t.deferreds[e].outcome.Open? ==> InPending(lib, t, e) || Held(t, e)
    {
      assert HeldOnce(s, e);
      if t.deferreds[e].outcome.Open? && Held(s, e) {
        var i: nat :| Holds(s, i, e);
        assert Holds(t, i, e);
      }
    }
  }

  lemma PutKeeps(lib: Library, s: State, h: nat, stored: bool)
    requires Valid(lib, s)
    ensures Valid(lib, AfterPut(s, h, stored))
  {
    if IsPutting(s, h) {
      PutKeepsHolds(lib, s, h, stored);
      hide HeldOnceOk, OpenOk, Library.Names;
      var t := AfterPut(s, h, stored);
      assert Holds(s, h, s.handlers[h].activity.deferred);
      assert forall i: nat | i < |s.handlers| && i != h :: t.handlers[i] == s.handlers[i];
      assert forall e: nat | e < |s.deferreds| :: t.deferreds[e].cid == s.deferreds[e].cid;
      assert forall key | key in s.pending :: s.pending[key] != s.handlers[h].activity.deferred;
    }
  }

  lemma StopKeeps(lib: Library, s: State)
    requires Valid(lib, s)
    ensures Valid(lib, AfterStop(s))
  {
    hide HeldOnceOk, OpenOk;
    var t := AfterStop(s);
    assert forall e: nat | e < |s.deferreds| :: t.deferreds[e].cid == s.deferreds[e].cid;
    assert forall e: nat | e < |s.deferreds| && InPending(lib, s, e) :: e in s.pending.Values;
    SameHolds(lib, s, t);
  }

  lemma StepKeeps(lib: Library, s: State, step: Step)
    requires lib.Lawful() && Valid(lib, s)
    ensures Valid(lib, Do(lib, s, step))
  {
    hide Valid, AfterWant, AfterAbort, AfterDeliver, AfterHash, AfterPut, AfterStop;
    match step {
      case Want(cid) => WantKeeps(lib, s, cid);
      case Abort(d) => AbortKeeps(lib, s, d);
      case Deliver(source, message) => DeliverKeeps(lib, s, source, message);
      case HashDone(h) => HashKeeps(lib, s, h);
      case PutDone(h, stored) => PutKeeps(lib, s, h, stored);
      case RejectAll => StopKeeps(lib, s);
    }
  }

  lemma {:induction false} RunKeeps(lib: Library, s: State, steps: seq<Step>)
    requires lib.Lawful() && Valid(lib, s)
    ensures Valid(lib, Run(lib, s, steps))
    decreases |steps|
  {
    hide Valid, Do;
    if steps != [] {
      StepKeeps(lib, s, steps[0]);
      RunKeeps(lib, Do(lib, s, steps[0]), steps[1..]);
    }
  }

  lemma ValidConserves(lib: Library, s: State)
    requires Valid(lib, s)
    ensures Conserved(lib, s)
  {
    forall d: nat | d < |s.deferreds|
      ensures Count(InPending(lib, s, d)) + Count(Taken(s, d)) + Count(Settled(s, d)) == 1 && HeldOnce(s, d)
    {
      assert forall h: nat :: Holds(s, h, d) ==> IsPutting(s, h) && !InPending(lib, s, d);
    }
  }

  /** A node that has just started over a given block store. */
  function Start(store: map<Cid, Bytes>): State {
    State(map[], [], [], store, [])
  }

  lemma StartValid(lib: Library, store: map<Cid, Bytes>)
    ensures Valid(lib, Start(store))
  {
  }

  /**
   * Safety and conservation over all runs: for every interleaving of wants, aborts, messages, hashes,
   * puts that succeed or fail, and stops, every value a want resolves with and every pair put in the
   * store hashes to the digest of its CID, and each deferred is in exactly one place.
   */
  lemma EveryRunIsSafe(lib: Library, store: map<Cid, Bytes>, steps: seq<Step>)
    requires lib.Lawful()
    ensures var s := Run(lib, Start(store), steps);
            Conserved(lib, s) && ContentOk(lib, s)
  {
    StartValid(lib, store);
    RunKeeps(lib, Start(store), steps);
    ValidConserves(lib, Run(lib, Start(store), steps));
  }

  /** The store stays honest about SHA-256 CIDs if it was so at the start. */
  lemma StepKeepsStore(lib: Library, s: State, step: Step)
    requires Valid(lib, s) && StoreOk(lib, s)
    ensures StoreOk(lib, Do(lib, s, step))
  {
    hide PrefixToCid;
  }

  // ---------------------------------------------------------------- the abort listener as written

  /** Unsettled, and neither pending nor with a handler. */
  ghost predicate Lost(s: State, d: nat) {
    d < |s.deferreds| && s.deferreds[d].outcome.Open? && d !in s.pending.Values && !Held(s, d)
  }

  /**
   * Removing by key keeps every deferred in a place exactly when no other want owns the key by then.
   */
  lemma AbortByKeyConservesIff(lib: Library, s: State, d: nat)
    requires Valid(lib, s) && d < |s.deferreds|
    ensures var key := lib.name(s.deferreds[d].cid);
            Conserved(lib, AfterAbortByKey(lib, s, d)) <==> (key in s.pending ==> s.pending[key] == d)
  {
    var key := lib.name(s.deferreds[d].cid);
    var t := AfterAbortByKey(lib, s, d);
    if key in s.pending && s.pending[key] != d {
      var other := s.pending[key];
      assert InPending(lib, s, other);
      assert forall h: nat :: Holds(t, h, other) == Holds(s, h, other);
      assert forall h: nat :: IsPutting(s, h) ==> !Holds(s, h, other);
      assert Count(InPending(lib, t, other)) + Count(Taken(t, other)) + Count(Settled(t, other)) == 0;
    } else {
      assert t.pending == AfterAbort(lib, s, d).pending;
      AbortKeeps(lib, s, d);
      ValidConserves(lib, t);
    }
  }

  /** The machine as written: every abort removes by key. */
  function DoByKey(lib: Library, s: State, step: Step): State {
    if step.Abort? then AfterAbortByKey(lib, s, step.deferred) else Do(lib, s, step)
  }

  function RunByKey(lib: Library, s: State, steps: seq<Step>): State
    decreases |steps|
  {
    if steps == [] then s else RunByKey(lib, DoByKey(lib, s, steps[0]), steps[1..])
  }

  /** An abort that fires while its key is unowned or its own. */
  predicate OwnAbort(lib: Library, s: State, step: Step) {
    step.Abort? && step.deferred < |s.deferreds| ==>
      var key := lib.name(s.deferreds[step.deferred].cid);
      key in s.pending ==> s.pending[key] == step.deferred
  }

  /** Every abort of a run as written is of that kind. */
  predicate OwnAborts(lib: Library, s: State, steps: seq<Step>)
    decreases |steps|
  {
    steps != [] ==> OwnAbort(lib, s, steps[0]) && OwnAborts(lib, DoByKey(lib, s, steps[0]), steps[1..])
  }

  /** Every state of a run as written has every deferred in a place. */
  ghost predicate AlwaysConserved(lib: Library, s: State, steps: seq<Step>)
    decreases |steps|
  {
    Conserved(lib, s) && (steps != [] ==> AlwaysConserved(lib, DoByKey(lib, s, steps[0]), steps[1..]))
  }

  /** One step as written conserves exactly when it is not an abort of another want's entry. */
  lemma StepByKey(lib: Library, s: State, step: Step)
    requires lib.Lawful() && Valid(lib, s)
    ensures if OwnAbort(lib, s, step) then DoByKey(lib, s, step) == Do(lib, s, step)
            else !Conserved(lib, DoByKey(lib, s, step))
  {
    hide Conserved, Valid;
    if step.Abort? && step.deferred < |s.deferreds| {
      AbortByKeyConservesIff(lib, s, step.deferred);
      if OwnAbort(lib, s, step) {
        SameAbort(lib, s, step.deferred);
      }
    }
  }

  lemma SameAbort(lib: Library, s: State, d: nat)
    requires d < |s.deferreds| && OwnAbort(lib, s, Abort(d))
    ensures AfterAbortByKey(lib, s, d) == AfterAbort(lib, s, d)
  {
    var key := lib.name(s.deferreds[d].cid);
    assert key !in s.pending ==> s.pending - {key} == s.pending;
  }

  /**
   * Over all runs of the code as written: every want has its place at every step exactly when no abort
   * fires while a newer want owns its key.
   */
  lemma {:induction false} RunByKeyConservesIff(lib: Library, s: State, steps: seq<Step>)
    requires lib.Lawful() && Valid(lib, s)
    ensures AlwaysConserved(lib, s, steps) <==> OwnAborts(lib, s, steps)
    decreases |steps|
  {
    ValidConserves(lib, s);
    if steps != [] {
      hide Conserved, Valid, Do, DoByKey, OwnAbort;
      StepByKey(lib, s, steps[0]);
      if OwnAbort(lib, s, steps[0]) {
        StepKeeps(lib, s, steps[0]);
        RunByKeyConservesIff(lib, DoByKey(lib, s, steps[0]), steps[1..]);
      } else {
        NotAlways(lib, DoByKey(lib, s, steps[0]), steps[1..]);
      }
    }
  }

  lemma NotAlways(lib: Library, s: State, steps: seq<Step>)
    requires !Conserved(lib, s)
    ensures !AlwaysConserved(lib, s, steps)
  {
  }

  // ---------------------------------------------------------------- content is safe as written, too

  /** What content-address safety rests on, which no abort disturbs. */
  predicate SafeOk(lib: Library, s: State) {
    ContentOk(lib, s) &&
    (forall key | key in s.pending ::
       s.pending[key] < |s.deferreds| && lib.name(s.deferreds[s.pending[key]].cid) == key) &&
    (forall hd | hd in s.handlers && hd.activity.Putting? ::
       var p := hd.activity;
       p.deferred < |s.deferreds| && s.deferreds[p.deferred].cid == p.cid && lib.Names(p.cid, p.data))
  }

  lemma SettleKeepsCids(deferreds: seq<Deferred>, d: nat, outcome: Outcome)
    ensures var after := Settle(deferreds, d, outcome);
            |after| == |deferreds| &&
            forall e | 0 <= e < |after| ::
              after[e].cid == deferreds[e].cid && deferreds[e] in deferreds &&
              (after[e] == deferreds[e] || (e == d && after[e].outcome == outcome))
  {
  }

  lemma SafeHash(lib: Library, s: State, h: nat)
    requires lib.Lawful() && SafeOk(lib, s)
    ensures SafeOk(lib, AfterHash(lib, s, h))
  {
    hide PrefixToCid, Library.Names;
    var t := AfterHash(lib, s, h);
    assert IsHashing(s, h) ==> forall hd | hd in t.handlers :: hd in s.handlers || hd == t.handlers[h];
  }

  lemma SafePut(lib: Library, s: State, h: nat, stored: bool)
    requires SafeOk(lib, s)
    ensures SafeOk(lib, AfterPut(s, h, stored))
  {
    hide Library.Names, Settle;
    if IsPutting(s, h) {
      var p := s.handlers[h].activity;
      assert s.handlers[h] in s.handlers;
      SettleKeepsCids(s.deferreds, p.deferred, Resolved(p.data));
      var t := AfterPut(s, h, stored);
      assert forall hd | hd in t.handlers :: hd in s.handlers || hd == t.handlers[h];
    }
  }

  lemma SafeStep(lib: Library, s: State, step: Step)
    requires lib.Lawful() && SafeOk(lib, s)
    ensures SafeOk(lib, DoByKey(lib, s, step))
  {
    match step {
      case HashDone(h) => SafeHash(lib, s, h);
      case PutDone(h, stored) => SafePut(lib, s, h, stored);
      case Abort(d) =>
        hide Library.Names, Settle;
        SettleKeepsCids(s.deferreds, d, Rejected);
      case _ => hide Library.Names;
    }
  }

  lemma {:induction false} SafeThroughout(lib: Library, s: State, steps: seq<Step>)
    requires lib.Lawful() && SafeOk(lib, s)
    ensures SafeOk(lib, RunByKey(lib, s, steps))
    decreases |steps|
  {
    hide SafeOk, DoByKey;
    if steps != [] {
      SafeStep(lib, s, steps[0]);
      SafeThroughout(lib, DoByKey(lib, s, steps[0]), steps[1..]);
    }
  }

  /** Content-address safety over all runs of the code as written. */
  lemma EveryRunByKeyIsSafe(lib: Library, store: map<Cid, Bytes>, steps: seq<Step>)
    requires lib.Lawful()
    ensures ContentOk(lib, RunByKey(lib, Start(store), steps))
  {
    SafeThroughout(lib, Start(store), steps);
  }

  // ---------------------------------------------------------------- a want that is lost

  /** A lost deferred stays unsettled through every step but its own abort, a stop included. */
  lemma LostStays(lib: Library, s: State, d: nat, step: Step)
    requires Lost(s, d) && step != Abort(d)
    ensures Lost(DoByKey(lib, s, step), d)
  {
    hide PrefixToCid;
    var t := DoByKey(lib, s, step);
    assert step.PutDone? ==> !Holds(s, step.handler, d);
    forall h: nat
      ensures !Holds(t, h, d)
    {
      assert !Holds(s, h, d);
    }
  }

  lemma {:induction false} LostForever(lib: Library, s: State, d: nat, steps: seq<Step>)
    requires Lost(s, d) && Abort(d) !in steps
    ensures Lost(RunByKey(lib, s, steps), d)
    decreases |steps|
  {
    hide DoByKey;
    if steps != [] {
      LostStays(lib, s, d, steps[0]);
      LostForever(lib, DoByKey(lib, s, steps[0]), d, steps[1..]);
    }
  }

  lemma {:induction false} RunByKeyJoins(lib: Library, s: State, a: seq<Step>, b: seq<Step>)
    ensures RunByKey(lib, s, a + b) == RunByKey(lib, RunByKey(lib, s, a), b)
    decreases |a|
  {
    hide DoByKey;
    if a == [] {
      assert a + b == b;
    } else {
      assert (a + b)[1..] == a[1..] + b;
      RunByKeyJoins(lib, DoByKey(lib, s, a[0]), a[1..], b);
    }
  }

  /** A want is answered, the same CID is wanted again, and the first want's signal fires. */
  function LosingSteps(lib: Library, data: Bytes): seq<Step> {
    var cid := Cid(1, 0x55, SHA2_256, lib.sha256(data));
    [Want(cid), Deliver(Source(0, 0), Decoded([], [Block(Prefix(cid), data)])), HashDone(0), PutDone(0, true),
     Want(cid), Abort(0)]
  }

  lemma BeforeTheAbort(lib: Library, data: Bytes)
    requires lib.Lawful()
    ensures var cid := Cid(1, 0x55, SHA2_256, lib.sha256(data));
            var s := RunByKey(lib, Start(map[]), LosingSteps(lib, data)[..5]);
            s.pending == map[lib.name(cid) := 1] && |s.handlers| == 1 && s.handlers[0].activity.Finished? &&
            s.deferreds == [Deferred(cid, Resolved(data)), Deferred(cid, Open)]
  {
    hide Prefix, PrefixToCid;
    var cid := Cid(1, 0x55, SHA2_256, lib.sha256(data));
    var block := Block(Prefix(cid), data);
    var steps := LosingSteps(lib, data);
    CodecLaws.BlockIdentity(lib, cid, data);
    var s0 := Start(map[]);
    var s1 := DoByKey(lib, s0, steps[0]);
    var s2 := DoByKey(lib, s1, steps[1]);
    var s3 := DoByKey(lib, s2, steps[2]);
    var s4 := DoByKey(lib, s3, steps[3]);
    var s5 := DoByKey(lib, s4, steps[4]);
    assert s3.handlers == [Handler(Source(0, 0), Decoded([], [block]), [], Putting(cid, data, 0))];
    assert s4.deferreds == [Deferred(cid, Resolved(data))] && s4.pending == map[];
    assert RunByKey(lib, s0, steps[..5]) == s5 by {
      hide DoByKey;
      RunFive(lib, s0, steps[..5]);
    }
  }

  lemma RunFive(lib: Library, s: State, steps: seq<Step>)
    requires |steps| == 5
    ensures var s1 := DoByKey(lib, s, steps[0]);
            var s2 := DoByKey(lib, s1, steps[1]);
            var s3 := DoByKey(lib, s2, steps[2]);
            var s4 := DoByKey(lib, s3, steps[3]);
            RunByKey(lib, s, steps) == DoByKey(lib, s4, steps[4])
  {
    hide DoByKey;
    assert steps[1..][1..] == steps[2..] && steps[2..][1..] == steps[3..];
    assert steps[3..][1..] == steps[4..] && steps[4..][1..] == [];
    var s2 := DoByKey(lib, DoByKey(lib, s, steps[0]), steps[1]);
    assert RunByKey(lib, s, steps) == RunByKey(lib, s2, steps[2..]);
    var s4 := DoByKey(lib, DoByKey(lib, s2, steps[2]), steps[3]);
    assert RunByKey(lib, s2, steps[2..]) == RunByKey(lib, s4, steps[4..]);
    assert RunByKey(lib, s4, steps[4..]) == RunByKey(lib, DoByKey(lib, s4, steps[4]), []);
  }

  /** A run of the code as written, for any data, after which the second want is never settled, whatever follows. */
  lemma AbortByKeyLosesAWant(lib: Library, data: Bytes, later: seq<Step>)
    requires lib.Lawful() && Abort(1) !in later
    ensures Lost(RunByKey(lib, Start(map[]), LosingSteps(lib, data) + later), 1)
  {
    BeforeTheAbort(lib, data);
    hide RunByKey;
    var steps := LosingSteps(lib, data);
    var cid := Cid(1, 0x55, SHA2_256, lib.sha256(data));
    var s := RunByKey(lib, Start(map[]), steps[..5]);
    var lost := DoByKey(lib, s, Abort(0));
    assert Lost(lost, 1);
    OneByKey(lib, s, Abort(0));
    hide LosingSteps, Lost, DoByKey;
    assert steps + later == steps[..5] + ([Abort(0)] + later) by {
      AbortComesLast(lib, data);
    }
    RunByKeyJoins(lib, Start(map[]), steps[..5], [Abort(0)] + later);
    RunByKeyJoins(lib, s, [Abort(0)], later);
    LostForever(lib, lost, 1, later);
  }

  lemma AbortComesLast(lib: Library, data: Bytes)
    ensures LosingSteps(lib, data) == LosingSteps(lib, data)[..5] + [Abort(0)]
  {
    hide Prefix;
  }

  lemma OneByKey(lib: Library, s: State, step: Step)
    ensures RunByKey(lib, s, [step]) == DoByKey(lib, s, step)
  {
    hide DoByKey;
    assert [step][1..] == [];
  }

  // ---------------------------------------------------------------- an answer on its way

  /**
   * The want `d` has been answered, or a handler awaits the put of an answer, or it is still pending
   * and no handler of the message `from` has got past the block `b` that answers it.
   */
  ghost predicate Answering(lib: Library, s: State, d: nat, cid: Cid, from: Source, b: Block) {
    d < |s.deferreds| && s.deferreds[d].cid == cid &&
    match s.deferreds[d].outcome
    case Resolved(value) => lib.Names(cid, value)
    case Rejected => false
    case Open =>
      Held(s, d) ||
      (InPending(lib, s, d) &&
       forall hd | hd in s.handlers && hd.source == from && b in hd.message.blocks :: b in hd.todo)
  }

  lemma AnsweringHash(lib: Library, s: State, d: nat, cid: Cid, from: Source, b: Block, h: nat)
    requires lib.Lawful() && Valid(lib, s) && Answering(lib, s, d, cid, from, b)
    requires PrefixToCid(lib, b.prefix, b.data) == Some(cid)
    ensures Answering(lib, AfterHash(lib, s, h), d, cid, from, b)
  {
    hide PrefixToCid, HoldingOk, HeldOnceOk, OpenOk, ShapeOk, ContentOk;
    var t := AfterHash(lib, s, h);
    if IsHashing(s, h) && s.deferreds[d].outcome.Open? {
      var hd := s.handlers[h];
      assert hd.todo == [hd.todo[0]] + hd.todo[1..];
      if Held(s, d) {
        var i: nat :| Holds(s, i, d);
        assert Holds(t, i, d);
      } else if hd.todo[0] == b {
        assert Answered(lib, s, b) == Some((cid, d));
        assert Holds(t, h, d);
      } else if Answered(lib, s, hd.todo[0]).Some? && Answered(lib, s, hd.todo[0]).value.1 == d {
        assert Holds(t, h, d);
      } else {
        forall x | x in t.handlers && x.source == from && b in x.message.blocks
          ensures b in x.todo
        {
          var i: nat :| i < |t.handlers| && t.handlers[i] == x;
          assert s.handlers[i] in s.handlers;
        }
      }
    }
  }

  lemma AnsweringPut(lib: Library, s: State, d: nat, cid: Cid, from: Source, b: Block, h: nat, stored: bool)
    requires Valid(lib, s) && Answering(lib, s, d, cid, from, b)
    ensures Answering(lib, AfterPut(s, h, stored), d, cid, from, b)
  {
    var t := AfterPut(s, h, stored);
    if IsPutting(s, h) && s.deferreds[d].outcome.Open? {
      if Holds(s, h, d) {
        assert t.deferreds[d].outcome == Resolved(s.handlers[h].activity.data);
      } else if Held(s, d) {
        var i: nat :| Holds(s, i, d);
        assert Holds(t, i, d);
      } else {
        forall x | x in t.handlers && x.source == from && b in x.message.blocks
          ensures b in x.todo
        {
          var i: nat :| i < |t.handlers| && t.handlers[i] == x;
          assert s.handlers[i] in s.handlers;
        }
      }
    }
  }

  lemma AnsweringElse(lib: Library, s: State, d: nat, cid: Cid, from: Source, b: Block, step: Step)
    requires Valid(lib, s) && Answering(lib, s, d, cid, from, b)
    requires step.Want? || step.Deliver? || (step.Abort? && step.deferred != d)
    ensures Answering(lib, Do(lib, s, step), d, cid, from, b)
  {
    hide HoldingOk, HeldOnceOk, OpenOk, ShapeOk, ContentOk;
    var t := Do(lib, s, step);
    if Held(s, d) {
      var i: nat :| Holds(s, i, d);
      assert Holds(t, i, d);
    }
  }

  lemma AnsweringKeeps(lib: Library, s: State, d: nat, cid: Cid, from: Source, b: Block, step: Step)
    requires lib.Lawful() && Valid(lib, s) && Answering(lib, s, d, cid, from, b)
    requires PrefixToCid(lib, b.prefix, b.data) == Some(cid)
    requires step != Abort(d) && step != RejectAll
    ensures Answering(lib, Do(lib, s, step), d, cid, from, b)
  {
    hide PrefixToCid, Answering, Valid, AfterHash, AfterPut;
    match step {
      case HashDone(h) => AnsweringHash(lib, s, d, cid, from, b, h);
      case PutDone(h, stored) => AnsweringPut(lib, s, d, cid, from, b, h, stored);
      case RejectAll =>
      case _ => AnsweringElse(lib, s, d, cid, from, b, step);
    }
  }

  /** Without its abort and without a stop, a want keeps its answer on the way through every run. */
  lemma {:induction false} AnsweringThroughout(
      lib: Library, s: State, d: nat, cid: Cid, from: Source, b: Block, steps: seq<Step>)
    requires lib.Lawful() && Valid(lib, s) && Answering(lib, s, d, cid, from, b)
    requires PrefixToCid(lib, b.prefix, b.data) == Some(cid)
    requires Abort(d) !in steps && RejectAll !in steps
    ensures Valid(lib, Run(lib, s, steps)) && Answering(lib, Run(lib, s, steps), d, cid, from, b)
    decreases |steps|
  {
    hide Valid, Answering, Do, PrefixToCid;
    if steps != [] {
      StepKeeps(lib, s, steps[0]);
      AnsweringKeeps(lib, s, d, cid, from, b, steps[0]);
      AnsweringThroughout(lib, Do(lib, s, steps[0]), d, cid, from, b, steps[1..]);
    }
  }

  /** When a handler of the message is through and no put of an answer is awaited, the want is resolved. */
  lemma AnsweredWhenRead(lib: Library, s: State, d: nat, cid: Cid, from: Source, b: Block)
    requires Valid(lib, s) && Answering(lib, s, d, cid, from, b) && !Held(s, d)
    requires exists hd :: hd in s.handlers && hd.source == from && b in hd.message.blocks && hd.activity.Finished?
    ensures s.deferreds[d].outcome.Resolved? && lib.Names(cid, s.deferreds[d].outcome.value)
  {
    assert forall hd | hd in s.handlers && hd.activity.Finished? :: hd.todo == [];
  }
}
