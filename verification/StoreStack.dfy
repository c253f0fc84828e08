/**
 * The stores as `src/index.ts:35-40` stacks them: the LRU layer over the store that falls back on the
 * network, over S3.
 */
module StoreStack {
  import opened Basics
  import opened Cids
  import Cache
  import NetworkStore

  datatype State = State(cache: map<string, Bytes>, s3: NetworkStore.Store)

  /** A call on the top store, with what the world makes of it and the entries the cache keeps. */
  datatype Op =
    | Put(cid: Cid, val: Bytes, stored: bool, kept: set<string>)
    | Get(cid: Cid, w: NetworkStore.World, kept: set<string>)
    | Delete(cid: Cid, deleted: bool)

  /** Each chunk that passes through is cached as it comes; the last one stays. */
  function Caching(cache: map<string, Bytes>, key: string, chunks: seq<Bytes>, kept: set<string>): map<string, Bytes>
    decreases |chunks|
  {
    if chunks == [] then cache else Caching(Cache.Set(cache, key, chunks[0], kept), key, chunks[1..], kept)
  }

  /** The state after a call and what it yields. */
  function Do(lib: Library, s: State, op: Op): (State, seq<Bytes>) {
    match op
    case Put(cid, val, stored, kept) =>
      (if stored then State(Cache.Set(s.cache, lib.name(cid), val, kept), s.s3[cid := val]) else s, [])
    case Get(cid, w, kept) =>
      if lib.name(cid) in s.cache then (s, [s.cache[lib.name(cid)]])
      else
        var (s3, r) := NetworkStore.GetResult(s.s3, cid, w);
        (State(Caching(s.cache, lib.name(cid), r.yielded, kept), s3), r.yielded)
    case Delete(cid, deleted) =>
      (State(s.cache - {lib.name(cid)}, if deleted then s.s3 - {cid} else s.s3), [])
  }

  /** Every cached entry is in S3, with the same value. */
  ghost predicate Coherent(lib: Library, s: State) {
    Cache.Coherent(lib, Cache.State(s.cache, s.s3))
  }

  function Has(lib: Library, s: State, cid: Cid): bool {
    lib.name(cid) in s.cache || cid in s.s3
  }

  // ---------------------------------------------------------------- when the stack stays coherent

  /**
   * A call that keeps the layers together.  A get that missed, and whose entry is kept, has fetched its
   * block and stored it, or S3 had it all along; if it fetched nothing, it has yielded nothing but the
   * block that S3 holds.
   */
  predicate Settled(lib: Library, s: State, op: Op) {
    op.Get? && lib.name(op.cid) !in s.cache && lib.name(op.cid) in op.kept ==>
      var local := NetworkStore.Local(s.s3, op.cid, op.w);
      var found := NetworkStore.Retrieved(op.w);
      if local.end.Miss? && found.Some?
      then op.w.stored || (op.cid in s.s3 && s.s3[op.cid] == found.value)
      else local.chunks == [] || (op.cid in s.s3 && s.s3[op.cid] == local.chunks[|local.chunks| - 1])
  }

  lemma {:induction false} LastIsCached(
      cache: map<string, Bytes>, key: string, chunks: seq<Bytes>, kept: set<string>, other: string)
    ensures var after := Caching(cache, key, chunks, kept);
            (other in after <==> if chunks == [] then other in cache
                                 else other in kept && (other == key || other in cache)) &&
            (other in after ==>
               after[other] == if chunks != [] && other == key then chunks[|chunks| - 1] else cache[other])
    decreases |chunks|
  {
    if chunks != [] {
      LastIsCached(Cache.Set(cache, key, chunks[0], kept), key, chunks[1..], kept, other);
    }
  }

  lemma GetSettledIff(lib: Library, s: State, op: Op)
    requires lib.Lawful() && Coherent(lib, s) && op.Get?
    ensures Coherent(lib, Do(lib, s, op).0) <==> Settled(lib, s, op)
  {
    hide NetworkStore.Retrieved, NetworkStore.AllAsks;
    if lib.name(op.cid) !in s.cache {
      var (s3, r) := NetworkStore.GetResult(s.s3, op.cid, op.w);
      var t := Do(lib, s, op).0;
      forall other: Cid
        ensures lib.name(other) in t.cache <==>
          if r.yielded == [] then lib.name(other) in s.cache
          else lib.name(other) in op.kept && (other == op.cid || lib.name(other) in s.cache)
        ensures lib.name(other) in t.cache ==>
          t.cache[lib.name(other)] ==
            if r.yielded != [] && other == op.cid then r.yielded[|r.yielded| - 1] else s.cache[lib.name(other)]
      {
        LastIsCached(s.cache, lib.name(op.cid), r.yielded, op.kept, lib.name(other));
      }
      hide Caching;
    }
  }

  lemma StepCoherentIff(lib: Library, s: State, op: Op)
    requires lib.Lawful() && Coherent(lib, s)
    ensures Coherent(lib, Do(lib, s, op).0) <==> Settled(lib, s, op)
  {
    if op.Get? {
      GetSettledIff(lib, s, op);
    } else {
      hide NetworkStore.GetResult, Caching;
    }
  }

  predicate AllSettled(lib: Library, s: State, ops: seq<Op>)
    decreases |ops|
  {
    ops != [] ==> Settled(lib, s, ops[0]) && AllSettled(lib, Do(lib, s, ops[0]).0, ops[1..])
  }

  ghost predicate AlwaysCoherent(lib: Library, s: State, ops: seq<Op>)
    decreases |ops|
  {
    Coherent(lib, s) && (ops != [] ==> AlwaysCoherent(lib, Do(lib, s, ops[0]).0, ops[1..]))
  }

  /** Over all runs: the cache agrees with S3 throughout exactly when every call keeps the layers together. */
  lemma {:induction false} RunCoherentIff(lib: Library, s: State, ops: seq<Op>)
    requires lib.Lawful() && Coherent(lib, s)
    ensures AlwaysCoherent(lib, s, ops) <==> AllSettled(lib, s, ops)
    decreases |ops|
  {
    if ops != [] {
      hide Coherent, Settled, Do;
      StepCoherentIff(lib, s, ops[0]);
      if Settled(lib, s, ops[0]) {
        RunCoherentIff(lib, Do(lib, s, ops[0]).0, ops[1..]);
      } else {
        NotCoherent(lib, Do(lib, s, ops[0]).0, ops[1..]);
      }
    }
  }

  lemma NotCoherent(lib: Library, s: State, ops: seq<Op>)
    requires !Coherent(lib, s)
    ensures !AlwaysCoherent(lib, s, ops)
  {
  }

  /** A get that does not: a peer's block is fetched but not stored; the top store then has a block that S3 lacks. */
  lemma FetchedOnlyIntoCache(lib: Library, cid: Cid, block: Bytes, kept: set<string>)
    requires lib.name(cid) in kept
    ensures var w := NetworkStore.World(None, Some(block), [], 0, [], None, None, false);
            var (t, yielded) := Do(lib, State(map[], map[]), Get(cid, w, kept));
            yielded == [block] && Has(lib, t, cid) && cid !in t.s3
  {
    var w := NetworkStore.World(None, Some(block), [], 0, [], None, None, false);
    hide NetworkStore.AllAsks;
    LastIsCached(map[], lib.name(cid), [block], kept, lib.name(cid));
    assert [] + [block] == [block];
    assert NetworkStore.Retrieved(w) == Some(block);
    assert NetworkStore.Local(map[], cid, w) == NetworkStore.LocalRead([], NetworkStore.Miss);
  }
}
