/**
 * What the layers owe their callers, said of operations and answers: a read answers the last write, the
 * cache saves reads of the inner store, and its three models tell the same story.
 */
module CacheDuties {
  import opened Basics
  import opened Cids
  import opened Cache
  import CacheOverlap
  import StoreStack
  import NetworkStore

  // ---------------------------------------------------------------- reads answer the last write

  /** What an operation makes of a block: a value, nothing, or no change. */
  function Effect(op: Op, cid: Cid): Option<Option<Bytes>> {
    match op
    case Put(c, val, stored) => if stored && c == cid then Some(Some(val)) else None
    case Delete(c, deleted) => if deleted && c == cid then Some(None) else None
    case PutMany(pairs, taken) =>
      var last := LastFor(Upto(pairs, taken), cid);
      if last.Some? then Some(last) else None
    case _ => None
  }

  /** The effect of the last operation that has one. */
  function LastEffect(ops: seq<Op>, cid: Cid): Option<Option<Bytes>> {
    if ops == [] then None
    else if LastEffect(ops[1..], cid).Some? then LastEffect(ops[1..], cid)
    else Effect(ops[0], cid)
  }

  /** The block as the run leaves it. */
  function Current(inner: Store, ops: seq<Op>, cid: Cid): Option<Bytes> {
    match LastEffect(ops, cid)
    case Some(now) => now
    case None => if cid in inner then Some(inner[cid]) else None
  }

  function Lookup(inner: Store, cid: Cid): Option<Bytes> {
    if cid in inner then Some(inner[cid]) else None
  }

  lemma OneEffect(inner: Store, op: Op, cid: Cid)
    ensures Lookup(Bare(inner, op).0, cid) ==
            if Effect(op, cid).Some? then Effect(op, cid).value else Lookup(inner, cid)
  {
    hide PutAll, LastFor, Upto;
    if op.PutMany? {
      PutAllLast(inner, Upto(op.pairs, op.taken), cid);
    }
  }

  lemma {:induction false} BareKeepsLast(inner: Store, ops: seq<Op>, cid: Cid)
    ensures Lookup(BareRun(inner, ops).0, cid) == Current(inner, ops, cid)
    decreases |ops|
  {
    if ops != [] {
      hide Bare, Effect, Lookup;
      OneEffect(inner, ops[0], cid);
      BareKeepsLast(Bare(inner, ops[0]).0, ops[1..], cid);
      LookupIs(inner, cid);
      LookupIs(Bare(inner, ops[0]).0, cid);
    } else {
      LookupIs(inner, cid);
    }
  }

  lemma LookupIs(inner: Store, cid: Cid)
    ensures Lookup(inner, cid) == if cid in inner then Some(inner[cid]) else None
  {
  }

  /**
   * After any operations on the cached store, under any evictions and failures, a get answers the value
   * that the last put of the block that succeeded gave it, and nothing after a delete that succeeded; and
   * a has agrees.
   */
  lemma ReadsLastWrite(
      lib: Library, value: Cid -> Bytes, s: State, ops: seq<Op>, kept: seq<set<string>>, cid: Cid, keep: set<string>)
    requires lib.Lawful() && |kept| == |ops|
    requires Coherent(lib, s) && AllDetermined(value, s.inner) && forall op | op in ops :: Determined(value, op)
    ensures var t := CachedRun(lib, s, ops, kept).0;
            var now := Current(s.inner, ops, cid);
            Cached(lib, t, Get(cid), keep).1 == (if now.Some? then Yielded(now.value) else NotFound) &&
            Cached(lib, t, Has(cid), keep).1 == Present(now.Some?)
  {
    var t := CachedRun(lib, s, ops, kept).0;
    CacheRefinesStore(lib, value, s, ops, kept);
    BareKeepsLast(s.inner, ops, cid);
    hide BareRun, CachedRun, Current, Determined, AllDetermined;
    StepRefines(lib, t, Get(cid), keep);
    StepRefines(lib, t, Has(cid), keep);
  }

  /**
   * A failure of the inner store is reported: a put or delete returns normally exactly when the inner one
   * did, and a bulk put yields the CIDs of the pairs that went in, ending normally only after all of them.
   */
  lemma FailuresAreReported(lib: Library, s: State, op: Op, kept: set<string>)
    ensures var answer := Cached(lib, s, op, kept).1;
            (op.Put? ==> answer in {Done, Failed} && (answer.Done? <==> op.stored)) &&
            (op.Delete? ==> answer in {Done, Failed} && (answer.Done? <==> op.deleted)) &&
            (op.PutMany? ==>
               answer.Yields? && (answer.all <==> |answer.cids| == |op.pairs|) && |answer.cids| <= op.taken &&
               (|answer.cids| < |op.pairs| ==> |answer.cids| == op.taken) &&
               forall i | 0 <= i < |answer.cids| :: i < |op.pairs| && answer.cids[i] == op.pairs[i].0)
  {
  }

  // ---------------------------------------------------------------- the cache saves reads

  /** A cached block is answered from the cache, whatever the inner store holds or has become. */
  lemma CacheComesFirst(lib: Library, cache: map<string, Bytes>, inner: Store, cid: Cid, kept: set<string>)
    requires lib.name(cid) in cache
    ensures Cached(lib, State(cache, inner), Get(cid), kept) == (State(cache, inner), Yielded(cache[lib.name(cid)]))
    ensures Cached(lib, State(cache, inner), Has(cid), kept).1 == Present(true)
  {
  }

  /** A put that succeeds and a get that finds its block leave it cached, unless it is evicted at once. */
  lemma CacheIsFilled(lib: Library, s: State, cid: Cid, val: Bytes, kept: set<string>)
    requires lib.name(cid) in kept
    ensures var t := Cached(lib, s, Put(cid, val, true), kept).0;
            lib.name(cid) in t.cache && t.cache[lib.name(cid)] == val
    ensures lib.name(cid) !in s.cache && cid in s.inner ==>
            var t := Cached(lib, s, Get(cid), kept).0;
            lib.name(cid) in t.cache && t.cache[lib.name(cid)] == s.inner[cid]
    ensures forall key | key in s.cache && key in kept && key != lib.name(cid) ::
      var t := Cached(lib, s, Put(cid, val, true), kept).0; key in t.cache && t.cache[key] == s.cache[key]
  {
  }

  // ---------------------------------------------------------------- overlapping calls, one at a time

  function Plain(s: CacheOverlap.State): State {
    State(s.cache, s.inner)
  }

  lemma RunThree(lib: Library, s: CacheOverlap.State, steps: seq<CacheOverlap.Step>)
    requires |steps| == 3
    ensures CacheOverlap.Run(lib, s, steps) ==
            CacheOverlap.Do(lib, CacheOverlap.Do(lib, CacheOverlap.Do(lib, s, steps[0]), steps[1]), steps[2])
  {
    hide CacheOverlap.Do;
    var s1 := CacheOverlap.Do(lib, s, steps[0]);
    var s2 := CacheOverlap.Do(lib, s1, steps[1]);
    assert steps[1..][1..] == steps[2..] && steps[2..][1..] == [];
    assert CacheOverlap.Run(lib, s, steps) == CacheOverlap.Run(lib, s1, steps[1..]);
    assert CacheOverlap.Run(lib, s1, steps[1..]) == CacheOverlap.Run(lib, s2, steps[2..]);
    assert CacheOverlap.Run(lib, s2, steps[2..]) == CacheOverlap.Run(lib, CacheOverlap.Do(lib, s2, steps[2]), []);
  }

  /** A get that is not interrupted is the get of the cached store: same cache, same answer. */
  lemma UninterruptedGet(lib: Library, s: CacheOverlap.State, cid: Cid, kept: set<string>)
    ensures var c := |s.calls|;
            var t := CacheOverlap.Run(lib, s,
              [CacheOverlap.GetStart(cid), CacheOverlap.InnerRead(c), CacheOverlap.SetEntry(c, kept)]);
            |t.calls| == c + 1 && t.calls[c].Ended? &&
            (Plain(t), t.calls[c].answer) == Cached(lib, Plain(s), Get(cid), kept)
  {
    var c := |s.calls|;
    RunThree(lib, s, [CacheOverlap.GetStart(cid), CacheOverlap.InnerRead(c), CacheOverlap.SetEntry(c, kept)]);
  }

  lemma UninterruptedPut(lib: Library, s: CacheOverlap.State, cid: Cid, val: Bytes, ok: bool, kept: set<string>)
    ensures var c := |s.calls|;
            var t := CacheOverlap.Run(lib, s,
              [CacheOverlap.PutStart(cid, val), CacheOverlap.InnerPut(c, ok), CacheOverlap.SetEntry(c, kept)]);
            |t.calls| == c + 1 && t.calls[c].Ended? &&
            (Plain(t), t.calls[c].answer) == Cached(lib, Plain(s), Put(cid, val, ok), kept)
  {
    var c := |s.calls|;
    RunThree(lib, s, [CacheOverlap.PutStart(cid, val), CacheOverlap.InnerPut(c, ok), CacheOverlap.SetEntry(c, kept)]);
  }

  lemma UninterruptedDelete(lib: Library, s: CacheOverlap.State, cid: Cid, ok: bool, kept: set<string>)
    ensures var c := |s.calls|;
            var t := CacheOverlap.Run(lib, s,
              [CacheOverlap.DeleteStart(cid), CacheOverlap.InnerDelete(c, ok), CacheOverlap.SetEntry(c, kept)]);
            |t.calls| == c + 1 && t.calls[c].Ended? &&
            (Plain(t), t.calls[c].answer) == Cached(lib, Plain(s), Delete(cid, ok), kept)
  {
    var c := |s.calls|;
    RunThree(lib, s, [CacheOverlap.DeleteStart(cid), CacheOverlap.InnerDelete(c, ok), CacheOverlap.SetEntry(c, kept)]);
  }

  // ---------------------------------------------------------------- the stack without a network

  /** The operation as the LRU layer over S3 alone would meet it. */
  function OverS3(op: StoreStack.Op): Op {
    match op
    case Put(cid, val, stored, _) => Put(cid, val, stored)
    case Get(cid, _, _) => Get(cid)
    case Delete(cid, deleted) => Delete(cid, deleted)
  }

  function KeptBy(op: StoreStack.Op): set<string> {
    match op
    case Put(_, _, _, kept) => kept
    case Get(_, _, kept) => kept
    case Delete(_, _) => {}
  }

  /** When S3 does not fail and the network has nothing, the stack is the LRU layer over S3. */
  lemma StackWithoutNetwork(lib: Library, s: StoreStack.State, op: StoreStack.Op)
    requires op.Get? ==> op.w.fault.None? && NetworkStore.Retrieved(op.w).None?
    ensures var (t, yielded) := StoreStack.Do(lib, s, op);
            var (u, answer) := Cached(lib, State(s.cache, s.s3), OverS3(op), KeptBy(op));
            State(t.cache, t.s3) == u && (answer.Yielded? ==> yielded == [answer.value]) &&
            (answer.NotFound? ==> yielded == [])
  {
    hide NetworkStore.Retrieved, NetworkStore.AllAsks;
    if op.Get? && op.cid in s.s3 {
      var chunks: seq<Bytes> := [s.s3[op.cid]];
      var key, filled := lib.name(op.cid), Set(s.cache, lib.name(op.cid), chunks[0], op.kept);
      assert chunks[1..] == [];
      assert StoreStack.Caching(s.cache, key, chunks, op.kept) == StoreStack.Caching(filled, key, [], op.kept);
    }
  }

  /** A block in the cache of the stack is answered without a look at S3 or the network. */
  lemma StackCacheFirst(lib: Library, s: StoreStack.State, cid: Cid, w: NetworkStore.World, kept: set<string>)
    requires lib.name(cid) in s.cache
    ensures StoreStack.Do(lib, s, StoreStack.Get(cid, w, kept)) == (s, [s.cache[lib.name(cid)]])
  {
  }

  /** One that is not is fetched as the network store fetches it, and what that stores is stored. */
  lemma StackFetches(lib: Library, s: StoreStack.State, cid: Cid, w: NetworkStore.World, kept: set<string>)
    requires lib.name(cid) !in s.cache
    ensures var (t, yielded) := StoreStack.Do(lib, s, StoreStack.Get(cid, w, kept));
            (t.s3, yielded) == (NetworkStore.GetResult(s.s3, cid, w).0, NetworkStore.GetResult(s.s3, cid, w).1.yielded)
  {
  }
}
