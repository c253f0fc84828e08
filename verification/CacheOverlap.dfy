/**
 * The LRU layer when calls overlap at their awaits, `src/blockstore-cache.ts:29-81`: get, put and delete
 * as the stretches between, with every call in flight kept in a sequence.
 */
module CacheOverlap {
  import opened Basics
  import opened Cids
  import Cache

  /**
   * A call.  One that holds a value and has still to set its entry is `stale` when the inner store has by
   * then lost or changed the block.
   */
  datatype Call =
    | Reading(cid: Cid)
    | Putting(cid: Cid, val: Bytes)
    | Deleting(cid: Cid)
    | Holding(cid: Cid, val: Bytes, stale: bool, answer: Cache.Answer)
    | Ended(answer: Cache.Answer)

  datatype State = State(cache: map<string, Bytes>, inner: Cache.Store, calls: seq<Call>)

  datatype Step =
    | GetStart(cid: Cid)
    | PutStart(cid: Cid, val: Bytes)
    | DeleteStart(cid: Cid)
    | InnerRead(call: nat)
    | InnerPut(call: nat, ok: bool)
    | InnerDelete(call: nat, ok: bool)
    | SetEntry(call: nat, kept: set<string>)

  /** The change a step makes to the inner store: a block it gives a value, or takes away. */
  function Change(s: State, step: Step): Option<(Cid, Option<Bytes>)> {
    match step
    case InnerPut(c, ok) =>
      if ok && c < |s.calls| && s.calls[c].Putting? then Some((s.calls[c].cid, Some(s.calls[c].val))) else None
    case InnerDelete(c, ok) =>
      if ok && c < |s.calls| && s.calls[c].Deleting? then Some((s.calls[c].cid, None)) else None
    case _ => None
  }

  /** Calls that hold a value of a block that changes become stale, or fresh again. */
  function Marked(calls: seq<Call>, cid: Cid, now: Option<Bytes>): seq<Call> {
    seq(|calls|, c requires 0 <= c < |calls| =>
      if calls[c].Holding? && calls[c].cid == cid then calls[c].(stale := now != Some(calls[c].val)) else calls[c])
  }

  function Do(lib: Library, s: State, step: Step): State {
    match step
    case GetStart(cid) =>
      s.(calls := s.calls + [
        if lib.name(cid) in s.cache then Ended(Cache.Yielded(s.cache[lib.name(cid)])) else Reading(cid)])
    case PutStart(cid, val) => s.(calls := s.calls + [Putting(cid, val)])
    case DeleteStart(cid) => s.(cache := s.cache - {lib.name(cid)}, calls := s.calls + [Deleting(cid)])
    case InnerRead(c) =>
      if !(c < |s.calls| && s.calls[c].Reading?) then s
      else
        var cid := s.calls[c].cid;
        s.(calls := s.calls[c := if cid in s.inner
                                 then Holding(cid, s.inner[cid], false, Cache.Yielded(s.inner[cid]))
                                 else Ended(Cache.NotFound)])
    case InnerPut(c, ok) =>
      if !(c < |s.calls| && s.calls[c].Putting?) then s
      else if !ok then s.(calls := s.calls[c := Ended(Cache.Failed)])
      else
        var (cid, val) := (s.calls[c].cid, s.calls[c].val);
        s.(inner := s.inner[cid := val],
           calls := Marked(s.calls, cid, Some(val))[c := Holding(cid, val, false, Cache.Done)])
    case InnerDelete(c, ok) =>
      if !(c < |s.calls| && s.calls[c].Deleting?) then s
      else if !ok then s.(calls := s.calls[c := Ended(Cache.Failed)])
      else
        var cid := s.calls[c].cid;
        s.(inner := s.inner - {cid}, calls := Marked(s.calls, cid, None)[c := Ended(Cache.Done)])
    case SetEntry(c, kept) =>
      if !(c < |s.calls| && s.calls[c].Holding?) then s
      else
        s.(cache := Cache.Set(s.cache, lib.name(s.calls[c].cid), s.calls[c].val, kept),
           calls := s.calls[c := Ended(s.calls[c].answer)])
  }

  function Run(lib: Library, s: State, steps: seq<Step>): State
    decreases |steps|
  {
    if steps == [] then s else Run(lib, Do(lib, s, steps[0]), steps[1..])
  }

  ghost predicate Coherent(lib: Library, s: State) {
    Cache.Coherent(lib, Cache.State(s.cache, s.inner))
  }

  /** A call is stale exactly when the inner store does not hold its value. */
  predicate FlagsOk(s: State) {
    forall call | call in s.calls && call.Holding? ::
      call.stale <==> !(call.cid in s.inner && s.inner[call.cid] == call.val)
  }

  // ---------------------------------------------------------------- when the cache stays coherent

  /**
   * A step that does no harm: a change of the inner store finds the block uncached, or cached with the
   * value it brings; an entry that is set and kept comes from a call whose block has not changed since.
   */
  predicate Calm(lib: Library, s: State, step: Step) {
    match step
    case SetEntry(c, kept) =>
      c < |s.calls| && s.calls[c].Holding? && lib.name(s.calls[c].cid) in kept ==> !s.calls[c].stale
    case _ =>
      match Change(s, step)
      case None => true
      case Some((cid, now)) => lib.name(cid) in s.cache ==> now == Some(s.cache[lib.name(cid)])
  }

  predicate CalmRun(lib: Library, s: State, steps: seq<Step>)
    decreases |steps|
  {
    steps != [] ==> Calm(lib, s, steps[0]) && CalmRun(lib, Do(lib, s, steps[0]), steps[1..])
  }

  ghost predicate AlwaysCoherent(lib: Library, s: State, steps: seq<Step>)
    decreases |steps|
  {
    Coherent(lib, s) && (steps != [] ==> AlwaysCoherent(lib, Do(lib, s, steps[0]), steps[1..]))
  }

  predicate FlagOk(inner: Cache.Store, call: Call) {
    call.Holding? ==> (call.stale <==> !(call.cid in inner && inner[call.cid] == call.val))
  }

  lemma FlagsOneByOne(s: State)
    ensures FlagsOk(s) <==> forall c | 0 <= c < |s.calls| :: FlagOk(s.inner, s.calls[c])
  {
    assert forall c | 0 <= c < |s.calls| :: s.calls[c] in s.calls;
  }

  lemma FlagsKept(lib: Library, s: State, step: Step)
    requires FlagsOk(s)
    ensures FlagsOk(Do(lib, s, step))
  {
    FlagsOneByOne(s);
    FlagsOneByOne(Do(lib, s, step));
    hide FlagsOk;
  }

  lemma StepCoherentIff(lib: Library, s: State, step: Step)
    requires lib.Lawful() && Coherent(lib, s) && FlagsOk(s)
    ensures Coherent(lib, Do(lib, s, step)) <==> Calm(lib, s, step)
  {
    hide FlagsOk;
    match step {
      case SetEntry(c, kept) =>
        if c < |s.calls| && s.calls[c].Holding? {
          SetCoherentIff(lib, s, c, kept);
        }
      case InnerPut(c, ok) =>
        if Change(s, step).Some? {
          ChangeCoherentIff(lib, s, s.calls[c].cid, Some(s.calls[c].val));
        }
      case InnerDelete(c, ok) =>
        if Change(s, step).Some? {
          ChangeCoherentIff(lib, s, s.calls[c].cid, None);
        }
      case _ =>
    }
  }

  lemma SetCoherentIff(lib: Library, s: State, c: nat, kept: set<string>)
    requires lib.Lawful() && Coherent(lib, s) && FlagsOk(s) && c < |s.calls| && s.calls[c].Holding?
    ensures Coherent(lib, Do(lib, s, SetEntry(c, kept))) <==> (lib.name(s.calls[c].cid) in kept ==> !s.calls[c].stale)
  {
    var cid := s.calls[c].cid;
    var t := Do(lib, s, SetEntry(c, kept));
    assert s.calls[c] in s.calls;
    assert forall other | lib.name(other) in t.cache && other != cid ::
      lib.name(other) in s.cache && t.cache[lib.name(other)] == s.cache[lib.name(other)];
    assert lib.name(cid) in t.cache <==> lib.name(cid) in kept;
  }

  lemma ChangeCoherentIff(lib: Library, s: State, cid: Cid, now: Option<Bytes>)
    requires lib.Lawful() && Coherent(lib, s)
    ensures var inner := if now.Some? then s.inner[cid := now.value] else s.inner - {cid};
            Cache.Coherent(lib, Cache.State(s.cache, inner)) <==>
            (lib.name(cid) in s.cache ==> now == Some(s.cache[lib.name(cid)]))
  {
  }

  /**
   * Over all runs of overlapping calls: the cache is coherent at every step exactly when every step of the
   * run is calm.
   */
  lemma {:induction false} RunCoherentIff(lib: Library, s: State, steps: seq<Step>)
    requires lib.Lawful() && Coherent(lib, s) && FlagsOk(s)
    ensures AlwaysCoherent(lib, s, steps) <==> CalmRun(lib, s, steps)
    decreases |steps|
  {
    if steps != [] {
      hide Coherent, FlagsOk, Calm, Do;
      StepCoherentIff(lib, s, steps[0]);
      FlagsKept(lib, s, steps[0]);
      if Calm(lib, s, steps[0]) {
        RunCoherentIff(lib, Do(lib, s, steps[0]), steps[1..]);
      } else {
        NotCoherent(lib, Do(lib, s, steps[0]), steps[1..]);
      }
    }
  }

  lemma NotCoherent(lib: Library, s: State, steps: seq<Step>)
    requires !Coherent(lib, s)
    ensures !AlwaysCoherent(lib, s, steps)
  {
  }

  // ---------------------------------------------------------------- what may end between a read and its set

  /** The last change of a block in a run: `Some(None)` when it is a delete. */
  function LastChange(lib: Library, s: State, steps: seq<Step>, cid: Cid): Option<Option<Bytes>>
    decreases |steps|
  {
    if steps == [] then None
    else
      var later := LastChange(lib, Do(lib, s, steps[0]), steps[1..], cid);
      if later.Some? then later
      else
        match Change(s, steps[0])
        case None => None
        case Some((changed, now)) => if changed == cid then Some(now) else None
  }

  /** The step is not one of this call. */
  predicate Spares(step: Step, c: nat) {
    match step
    case InnerRead(call) => call != c
    case InnerPut(call, _) => call != c
    case InnerDelete(call, _) => call != c
    case SetEntry(call, _) => call != c
    case _ => true
  }

  lemma OneStepHolds(lib: Library, s: State, step: Step, c: nat)
    requires c < |s.calls| && s.calls[c].Holding? && Spares(step, c)
    ensures var t := Do(lib, s, step);
            c < |t.calls| && t.calls[c].Holding? &&
            t.calls[c].cid == s.calls[c].cid && t.calls[c].val == s.calls[c].val &&
            t.calls[c].stale == match Change(s, step)
                                case None => s.calls[c].stale
                                case Some((cid, now)) =>
                                  if cid == s.calls[c].cid then now != Some(s.calls[c].val) else s.calls[c].stale
  {
  }

  /** What a call holds is stale exactly when the last change of its block since was a delete or another value. */
  lemma {:induction false} StaleWhen(lib: Library, s: State, steps: seq<Step>, c: nat)
    requires c < |s.calls| && s.calls[c].Holding? && forall step | step in steps :: Spares(step, c)
    ensures var t := Run(lib, s, steps);
            c < |t.calls| && t.calls[c].Holding? &&
            t.calls[c].cid == s.calls[c].cid && t.calls[c].val == s.calls[c].val &&
            t.calls[c].stale == match LastChange(lib, s, steps, s.calls[c].cid)
                                case None => s.calls[c].stale
                                case Some(now) => now != Some(s.calls[c].val)
    decreases |steps|
  {
    if steps != [] {
      hide Do, Change;
      assert steps[0] in steps;
      OneStepHolds(lib, s, steps[0], c);
      StaleWhen(lib, Do(lib, s, steps[0]), steps[1..], c);
    }
  }

  lemma {:induction false} FlagsThroughout(lib: Library, s: State, steps: seq<Step>)
    requires FlagsOk(s)
    ensures FlagsOk(Run(lib, s, steps))
    decreases |steps|
  {
    if steps != [] {
      hide Do, FlagsOk;
      FlagsKept(lib, s, steps[0]);
      FlagsThroughout(lib, Do(lib, s, steps[0]), steps[1..]);
    }
  }

  /**
   * A get that missed sets its entry late: it reads the block, other calls go on, then it sets the entry,
   * which is kept.  If the cache is coherent until then, it stays so exactly when the last put or delete
   * of the block that took effect in between, if any, was a put of the value that was read.
   */
  lemma LateSetCoherentIff(lib: Library, s: State, c: nat, between: seq<Step>, kept: set<string>)
    requires lib.Lawful() && FlagsOk(s)
    requires c < |s.calls| && s.calls[c].Reading? && s.calls[c].cid in s.inner
    requires forall step | step in between :: Spares(step, c)
    requires lib.name(s.calls[c].cid) in kept
    requires Coherent(lib, Run(lib, Do(lib, s, InnerRead(c)), between))
    ensures var cid := s.calls[c].cid;
            var read := Do(lib, s, InnerRead(c));
            Coherent(lib, Do(lib, Run(lib, read, between), SetEntry(c, kept))) <==>
            LastChange(lib, read, between, cid) in {None, Some(Some(s.inner[cid]))}
  {
    hide Coherent, Run, LastChange;
    var read := Do(lib, s, InnerRead(c));
    FlagsKept(lib, s, InnerRead(c));
    StaleWhen(lib, read, between, c);
    FlagsThroughout(lib, read, between);
    SetCoherentIff(lib, Run(lib, read, between), c, kept);
  }

  /**
   * The run in which it goes wrong, for any block: a get misses and reads, the block is deleted, the get
   * sets its entry.  From then on the deleted block is answered.
   */
  lemma DeletedIsAnswered(lib: Library, cid: Cid, val: Bytes, kept: set<string>)
    requires lib.name(cid) in kept
    ensures var steps := [GetStart(cid), InnerRead(0), DeleteStart(cid), InnerDelete(1, true), SetEntry(0, kept),
                          GetStart(cid)];
            var s := Run(lib, State(map[], map[cid := val], []), steps);
            cid !in s.inner && |s.calls| == 3 && s.calls[2] == Ended(Cache.Yielded(val))
  {
    var s0 := State(map[], map[cid := val], []);
    var steps := [GetStart(cid), InnerRead(0), DeleteStart(cid), InnerDelete(1, true), SetEntry(0, kept),
                  GetStart(cid)];
    var s3 := Do(lib, Do(lib, Do(lib, s0, steps[0]), steps[1]), steps[2]);
    assert s3 == State(map[], map[cid := val],
                       [Holding(cid, val, false, Cache.Yielded(val)), Deleting(cid)]) by {
      ReadThenDelete(lib, cid, val);
    }
    var s6 := Do(lib, Do(lib, Do(lib, s3, steps[3]), steps[4]), steps[5]);
    assert cid !in s6.inner && |s6.calls| == 3 && s6.calls[2] == Ended(Cache.Yielded(val)) by {
      DeleteThenSet(lib, s3, cid, val, kept);
    }
    hide Do;
    RunOfThree(lib, s0, steps);
    assert steps[3..][3..] == [];
    RunOfThree(lib, s3, steps[3..]);
  }

  lemma ReadThenDelete(lib: Library, cid: Cid, val: Bytes)
    ensures Do(lib, Do(lib, Do(lib, State(map[], map[cid := val], []), GetStart(cid)), InnerRead(0)), DeleteStart(cid))
         == State(map[], map[cid := val], [Holding(cid, val, false, Cache.Yielded(val)), Deleting(cid)])
  {
  }

  lemma DeleteThenSet(lib: Library, s: State, cid: Cid, val: Bytes, kept: set<string>)
    requires s == State(map[], map[cid := val], [Holding(cid, val, false, Cache.Yielded(val)), Deleting(cid)])
    requires lib.name(cid) in kept
    ensures var t := Do(lib, Do(lib, Do(lib, s, InnerDelete(1, true)), SetEntry(0, kept)), GetStart(cid));
            cid !in t.inner && |t.calls| == 3 && t.calls[2] == Ended(Cache.Yielded(val))
  {
  }

  lemma RunOfThree(lib: Library, s: State, steps: seq<Step>)
    requires |steps| >= 3
    ensures Run(lib, s, steps) == Run(lib, Do(lib, Do(lib, Do(lib, s, steps[0]), steps[1]), steps[2]), steps[3..])
  {
    hide Do;
    assert steps[1..][1..] == steps[2..] && steps[2..][1..] == steps[3..];
  }

  // ---------------------------------------------------------------- without deletes

  /** Every block in the store, and every value held or on its way, is the one its CID determines. */
  predicate Determined(value: Cid -> Bytes, s: State) {
    Cache.AllDetermined(value, s.inner) &&
    forall call | call in s.calls && (call.Holding? || call.Putting?) :: call.val == value(call.cid)
  }

  predicate NoneStale(s: State) {
    forall call | call in s.calls && call.Holding? :: !call.stale
  }

  /** Not a delete that takes effect, and no put of a value the CID does not determine. */
  predicate Harmless(value: Cid -> Bytes, step: Step) {
    match step
    case InnerDelete(_, ok) => !ok
    case PutStart(cid, val) => val == value(cid)
    case _ => true
  }

  predicate CallFine(value: Cid -> Bytes, call: Call) {
    call.Holding? || call.Putting? ==> call.val == value(call.cid) && (call.Holding? ==> !call.stale)
  }

  lemma FineOneByOne(value: Cid -> Bytes, s: State)
    ensures Determined(value, s) && NoneStale(s) <==>
      Cache.AllDetermined(value, s.inner) && forall c | 0 <= c < |s.calls| :: CallFine(value, s.calls[c])
  {
    assert forall c | 0 <= c < |s.calls| :: s.calls[c] in s.calls;
  }

  lemma HarmlessStep(lib: Library, value: Cid -> Bytes, s: State, step: Step)
    requires lib.Lawful() && Coherent(lib, s) && Determined(value, s) && NoneStale(s) && Harmless(value, step)
    ensures var t := Do(lib, s, step); Calm(lib, s, step) && Determined(value, t) && NoneStale(t)
  {
    FineOneByOne(value, s);
    FineOneByOne(value, Do(lib, s, step));
    hide Determined, NoneStale;
  }

  /** With content-determined values, however calls overlap, only a delete that takes effect can do harm. */
  lemma {:induction false} WithoutDeletesCoherent(lib: Library, value: Cid -> Bytes, s: State, steps: seq<Step>)
    requires lib.Lawful() && Coherent(lib, s) && FlagsOk(s) && Determined(value, s) && NoneStale(s)
    requires forall step | step in steps :: Harmless(value, step)
    ensures AlwaysCoherent(lib, s, steps)
    decreases |steps|
  {
    if steps != [] {
      hide Coherent, FlagsOk, Calm, Do, Determined, NoneStale, Harmless;
      assert steps[0] in steps;
      HarmlessStep(lib, value, s, steps[0]);
      StepCoherentIff(lib, s, steps[0]);
      FlagsKept(lib, s, steps[0]);
      WithoutDeletesCoherent(lib, value, Do(lib, s, steps[0]), steps[1..]);
    }
  }
}
