/** The write-through LRU layer over a block store, `src/blockstore-cache.ts:29-99`. */
module Cache {
  import opened Basics
  import opened Cids

  type Store = map<Cid, Bytes>

  /**
   * An operation with what the inner store makes of it: whether a put or delete succeeds, and how many
   * pairs of a `putMany` it takes before it fails.
   */
  datatype Op =
    | Put(cid: Cid, val: Bytes, stored: bool)
    | Get(cid: Cid)
    | Has(cid: Cid)
    | Delete(cid: Cid, deleted: bool)
    | PutMany(pairs: seq<(Cid, Bytes)>, taken: nat)

  datatype Answer =
    | Done
    | Failed
    | Yielded(value: Bytes)
    | NotFound
    | Present(present: bool)
    | Yields(cids: seq<Cid>, all: bool)

  // ---------------------------------------------------------------- the inner store alone

  function PutAll(inner: Store, pairs: seq<(Cid, Bytes)>): (after: Store)
    ensures inner.Keys <= after.Keys
    decreases |pairs|
  {
    if pairs == [] then inner else PutAll(inner[pairs[0].0 := pairs[0].1], pairs[1..])
  }

  function CidsOf(pairs: seq<(Cid, Bytes)>): seq<Cid> {
    seq(|pairs|, i requires 0 <= i < |pairs| => pairs[i].0)
  }

  function Bare(inner: Store, op: Op): (Store, Answer) {
    match op
    case Put(cid, val, stored) => if stored then (inner[cid := val], Done) else (inner, Failed)
    case Get(cid) => (inner, if cid in inner then Yielded(inner[cid]) else NotFound)
    case Has(cid) => (inner, Present(cid in inner))
    case Delete(cid, deleted) => if deleted then (inner - {cid}, Done) else (inner, Failed)
    case PutMany(pairs, taken) =>
      (PutAll(inner, Upto(pairs, taken)), Yields(CidsOf(Upto(pairs, taken)), taken >= |pairs|))
  }

  // ---------------------------------------------------------------- the cached store

  datatype State = State(cache: map<string, Bytes>, inner: Store)

  /** Setting an entry may evict any others, and the new one too when it is too large. */
  function Set(cache: map<string, Bytes>, key: string, val: Bytes, kept: set<string>): map<string, Bytes> {
    map k | k in cache[key := val] && k in kept :: cache[key := val][k]
  }

  function Cached(lib: Library, s: State, op: Op, kept: set<string>): (State, Answer) {
    match op
    case Put(cid, val, stored) =>
      if stored then (State(Set(s.cache, lib.name(cid), val, kept), s.inner[cid := val]), Done) else (s, Failed)
    case Get(cid) =>
      if lib.name(cid) in s.cache then (s, Yielded(s.cache[lib.name(cid)]))
      else if cid in s.inner then
        (s.(cache := Set(s.cache, lib.name(cid), s.inner[cid], kept)), Yielded(s.inner[cid]))
      else (s, NotFound)
    case Has(cid) => (s, Present(lib.name(cid) in s.cache || cid in s.inner))
    case Delete(cid, deleted) =>
      var t := s.(cache := s.cache - {lib.name(cid)});
      if deleted then (t.(inner := s.inner - {cid}), Done) else (t, Failed)
    case PutMany(pairs, taken) =>
      var (inner, answer) := Bare(s.inner, op);
      (s.(inner := inner), answer)
  }

  /** Every cached entry is present in the inner store, with the same value. */
  ghost predicate Coherent(lib: Library, s: State) {
    forall cid | lib.name(cid) in s.cache :: cid in s.inner && s.inner[cid] == s.cache[lib.name(cid)]
  }

  /** A bulk put, which goes past the cache, gives no block another value than it has. */
  predicate Stable(inner: Store, op: Op) {
    op.PutMany? ==>
      forall cid | cid in inner :: PutAll(inner, Upto(op.pairs, op.taken))[cid] == inner[cid]
  }

  /** One operation: the same answer and the same inner store as without the cache, and coherence kept. */
  lemma StepRefines(lib: Library, s: State, op: Op, kept: set<string>)
    requires lib.Lawful() && Coherent(lib, s) && Stable(s.inner, op)
    ensures var (t, answer) := Cached(lib, s, op, kept);
            Bare(s.inner, op) == (t.inner, answer) && Coherent(lib, t)
  {
  }

  // ---------------------------------------------------------------- any sequence of operations

  function BareRun(inner: Store, ops: seq<Op>): (Store, seq<Answer>)
    decreases |ops|
  {
    if ops == [] then (inner, [])
    else
      var (next, answer) := Bare(inner, ops[0]);
      var (last, answers) := BareRun(next, ops[1..]);
      (last, [answer] + answers)
  }

  function CachedRun(lib: Library, s: State, ops: seq<Op>, kept: seq<set<string>>): (State, seq<Answer>)
    requires |kept| == |ops|
    decreases |ops|
  {
    if ops == [] then (s, [])
    else
      var (next, answer) := Cached(lib, s, ops[0], kept[0]);
      var (last, answers) := CachedRun(lib, next, ops[1..], kept[1..]);
      (last, [answer] + answers)
  }

  /** The value of a block is determined by its CID, as content addressing makes it. */
  predicate Determined(value: Cid -> Bytes, op: Op) {
    match op
    case Put(cid, val, _) => val == value(cid)
    case PutMany(pairs, _) => forall p | p in pairs :: p.1 == value(p.0)
    case _ => true
  }

  predicate AllDetermined(value: Cid -> Bytes, inner: Store) {
    forall cid | cid in inner :: inner[cid] == value(cid)
  }

  lemma {:induction false} PutAllDetermined(value: Cid -> Bytes, inner: Store, pairs: seq<(Cid, Bytes)>)
    requires AllDetermined(value, inner) && forall p | p in pairs :: p.1 == value(p.0)
    ensures AllDetermined(value, PutAll(inner, pairs))
    decreases |pairs|
  {
    if pairs != [] {
      assert pairs[0] in pairs;
      PutAllDetermined(value, inner[pairs[0].0 := pairs[0].1], pairs[1..]);
    }
  }

  lemma DeterminedIsStable(value: Cid -> Bytes, inner: Store, op: Op)
    requires AllDetermined(value, inner) && Determined(value, op)
    ensures Stable(inner, op) && AllDetermined(value, Bare(inner, op).0)
  {
    if op.PutMany? {
      var pairs := Upto(op.pairs, op.taken);
      assert forall p | p in pairs :: p in op.pairs;
      PutAllDetermined(value, inner, pairs);
    }
  }

  /**
   * The cached store refines the bare one: for any sequence of operations, any evictions and any
   * failures of puts and deletes, every answer is the one the inner store alone would give.
   */
  lemma {:induction false} CacheRefinesStore(
      lib: Library, value: Cid -> Bytes, s: State, ops: seq<Op>, kept: seq<set<string>>)
    requires lib.Lawful() && |kept| == |ops|
    requires Coherent(lib, s) && AllDetermined(value, s.inner) && forall op | op in ops :: Determined(value, op)
    ensures var (t, answers) := CachedRun(lib, s, ops, kept);
            BareRun(s.inner, ops) == (t.inner, answers) && Coherent(lib, t)
    decreases |ops|
  {
    if ops != [] {
      hide Coherent, Stable, Bare, Cached, Determined, AllDetermined;
      assert ops[0] in ops;
      DeterminedIsStable(value, s.inner, ops[0]);
      StepRefines(lib, s, ops[0], kept[0]);
      CacheRefinesStore(lib, value, Cached(lib, s, ops[0], kept[0]).0, ops[1..], kept[1..]);
    }
  }

  // ---------------------------------------------------------------- where the assumption is needed

  /** The value that the last pair for a block gives it. */
  function LastFor(pairs: seq<(Cid, Bytes)>, cid: Cid): Option<Bytes> {
    if pairs == [] then None
    else if LastFor(pairs[1..], cid).Some? then LastFor(pairs[1..], cid)
    else if pairs[0].0 == cid then Some(pairs[0].1)
    else None
  }

  lemma {:induction false} PutAllLast(inner: Store, pairs: seq<(Cid, Bytes)>, cid: Cid)
    ensures var after, last := PutAll(inner, pairs), LastFor(pairs, cid);
            (cid in after <==> cid in inner || last.Some?) &&
            (cid in after ==> after[cid] == if last.Some? then last.value else inner[cid])
    decreases |pairs|
  {
    if pairs != [] {
      PutAllLast(inner[pairs[0].0 := pairs[0].1], pairs[1..], cid);
    }
  }

  /**
   * A bulk put, which goes past the cache, keeps it coherent exactly when the last pair taken for each
   * cached block brings the value that is cached.
   */
  lemma PutManyCoherentIff(lib: Library, s: State, pairs: seq<(Cid, Bytes)>, taken: nat, kept: set<string>)
    requires lib.Lawful() && Coherent(lib, s)
    ensures var last := (cid: Cid) => LastFor(Upto(pairs, taken), cid);
            Coherent(lib, Cached(lib, s, PutMany(pairs, taken), kept).0) <==>
            forall cid | lib.name(cid) in s.cache && last(cid).Some? :: last(cid).value == s.cache[lib.name(cid)]
  {
    hide PutAll, LastFor;
    forall cid
      ensures var after, last := PutAll(s.inner, Upto(pairs, taken)), LastFor(Upto(pairs, taken), cid);
              (cid in after <==> cid in s.inner || last.Some?) &&
              (cid in after ==> after[cid] == if last.Some? then last.value else s.inner[cid])
    {
      PutAllLast(s.inner, Upto(pairs, taken), cid);
    }
  }

  /** A bulk put that does not: a cached block is then read with its old value, while the store has the new one. */
  lemma PutManyLeavesStale(lib: Library, cid: Cid, before: Bytes, later: Bytes, all: set<string>)
    requires lib.name(cid) in all && before != later
    ensures var s := State(map[], map[]);
            var s1 := Cached(lib, s, Put(cid, before, true), all).0;
            var s2 := Cached(lib, s1, PutMany([(cid, later)], 1), all).0;
            Cached(lib, s2, Get(cid), all).1 == Yielded(before) && Bare(s2.inner, Get(cid)).1 == Yielded(later)
  {
    var s1 := Cached(lib, State(map[], map[]), Put(cid, before, true), all).0;
    var pairs := [(cid, later)];
    assert Upto(pairs, 1) == pairs && pairs[1..] == [];
    assert PutAll(s1.inner, pairs) == s1.inner[cid := later];
  }

  lemma PutAllStep(inner: Store, pairs: seq<(Cid, Bytes)>, i: nat, n: nat)
    requires i < n <= |pairs|
    ensures PutAll(inner, pairs[i..n]) == PutAll(inner[pairs[i].0 := pairs[i].1], pairs[i + 1..n])
    ensures CidsOf(pairs[..i + 1]) == CidsOf(pairs[..i]) + [pairs[i].0]
  {
    assert pairs[i..n][1..] == pairs[i + 1..n] && pairs[i..n][0] == pairs[i];
  }

  // ---------------------------------------------------------------- the class

  /** Which entries survive a `set` is the cache's choice, passed in as `kept`. */
  class LRUBlockstore {
    const lib: Library
    var cache: map<string, Bytes>
    var innerStore: Store

    ghost function Model(): State
      reads this
    {
      State(cache, innerStore)
    }

    ghost predicate Valid()
      reads this
    {
      lib.Lawful() && Coherent(lib, Model())
    }

    constructor (lib: Library, inner: Store)
      requires lib.Lawful()
      ensures Valid() && this.lib == lib && Model() == State(map[], inner)
    {
      this.lib := lib;
      cache := map[];
      innerStore := inner;
    }

    method SetEntry(key: string, val: Bytes, kept: set<string>)
      modifies this`cache
      ensures cache == Set(old(cache), key, val, kept)
    {
      cache := cache[key := val];
      cache := map k | k in cache && k in kept :: cache[k];
    }

    method Put(cid: Cid, val: Bytes, stored: bool, kept: set<string>) returns (answer: Answer)
      requires Valid()
      modifies this
      ensures Valid() && (innerStore, answer) == Bare(old(innerStore), Op.Put(cid, val, stored))
      ensures (Model(), answer) == Cached(lib, old(Model()), Op.Put(cid, val, stored), kept)
    {
      StepRefines(lib, Model(), Op.Put(cid, val, stored), kept);
      var key := lib.name(cid);
      if !stored {
        return Failed;
      }
      innerStore := innerStore[cid := val];
      SetEntry(key, val, kept);
      answer := Done;
    }

    method Get(cid: Cid, kept: set<string>) returns (answer: Answer)
      requires Valid()
      modifies this
      ensures Valid() && (innerStore, answer) == Bare(old(innerStore), Op.Get(cid))
      ensures (Model(), answer) == Cached(lib, old(Model()), Op.Get(cid), kept)
    {
      StepRefines(lib, Model(), Op.Get(cid), kept);
      var key := lib.name(cid);
      if key in cache {
        return Yielded(cache[key]);
      }
      if cid !in innerStore {
        return NotFound;
      }
      var chunk := innerStore[cid];
      SetEntry(key, chunk, kept);
      answer := Yielded(chunk);
    }

    method Has(cid: Cid) returns (answer: Answer)
      requires Valid()
      ensures (innerStore, answer) == Bare(innerStore, Op.Has(cid))
    {
      StepRefines(lib, Model(), Op.Has(cid), {});
      if lib.name(cid) in cache {
        return Present(true);
      }
      answer := Present(cid in innerStore);
    }

    method Delete(cid: Cid, deleted: bool) returns (answer: Answer)
      requires Valid()
      modifies this
      ensures Valid() && (innerStore, answer) == Bare(old(innerStore), Op.Delete(cid, deleted))
      ensures lib.name(cid) !in cache
      ensures (Model(), answer) == Cached(lib, old(Model()), Op.Delete(cid, deleted), {})
    {
      StepRefines(lib, Model(), Op.Delete(cid, deleted), {});
      cache := cache - {lib.name(cid)};
      if !deleted {
        return Failed;
      }
      innerStore := innerStore - {cid};
      answer := Done;
    }

    /** Straight to the inner store; `taken` pairs go in before it fails. */
    method PutMany(pairs: seq<(Cid, Bytes)>, taken: nat) returns (answer: Answer)
      requires Valid()
      modifies this
      ensures (innerStore, answer) == Bare(old(innerStore), Op.PutMany(pairs, taken))
      ensures cache == old(cache)
      ensures Stable(old(innerStore), Op.PutMany(pairs, taken)) ==> Valid()
    {
      ghost var stable := Stable(innerStore, Op.PutMany(pairs, taken));
      if stable {
        StepRefines(lib, Model(), Op.PutMany(pairs, taken), {});
      }
      hide Stable, Coherent;
      var n := if taken < |pairs| then taken else |pairs|;
      assert Upto(pairs, taken) == pairs[..n] == pairs[0..n];
      ghost var before := innerStore;
      var cids := [];
      for i := 0 to n
        invariant PutAll(innerStore, pairs[i..n]) == PutAll(before, pairs[..n])
        invariant cids == CidsOf(pairs[..i]) && cache == old(cache)
      {
        hide PutAll, CidsOf;
        PutAllStep(innerStore, pairs, i, n);
        innerStore := innerStore[pairs[i].0 := pairs[i].1];
        cids := cids + [pairs[i].0];
      }
      answer := Yields(cids, taken >= |pairs|);
    }
  }
}
