/** Staged retrieval over the network, `src/blockstore-network.ts:16-223`. */
module NetworkStore {
  import opened Basics
  import opened Cids
  import Wants

  type Store = map<Cid, Bytes>

  /** How reading the local store ends, after the chunks it yielded. */
  datatype LocalEnd = Complete | Miss | OtherError

  /** A read of the local store: what it yields and how it ends. */
  datatype LocalRead = LocalRead(chunks: seq<Bytes>, end: LocalEnd)

  /**
   * A provider: which of its addresses accept a dial, what a want yields after it (nothing when it is
   * rejected), and whether the shared budget has run out when its turn comes.
   */
  datatype Provider = Provider(addrs: seq<bool>, want: Option<Bytes>, aborted: bool)

  /** Everything outside the node that one `get` meets. */
  datatype World = World(
    fault: Option<LocalRead>,          // a local read that breaks off, whatever is stored
    broadcast: Option<Bytes>,          // the want of tryBitswap
    dht: seq<Provider>,                // what findProviders yields before it ends or throws
    settles: nat,                      // how much the look-up has asked by the time tryBitswap settles
    turns: seq<bool>,                  // from then on, who asks next: the look-up, or the get itself
    ipni: Option<seq<Provider>>,       // nothing when the request fails or is not ok
    gateway: Option<Bytes>,
    stored: bool)                      // whether a put to the local store succeeds

  datatype Ending = Returned | Rethrown | NotFound

  /** Whose providers are asked. */
  datatype Source = Dht | Ipni

  /** One thing asked of the network. */
  datatype Ask =
    | Broadcast
    | FindProviders
    | Dial(source: Source, provider: nat, addr: nat)
    | WantFrom(source: Source, provider: nat)
    | FetchIPNI
    | FetchGateway

  /** What the consumer of a `get` sees, and what has been asked of the network by the time it ends. */
  datatype Outcome = Outcome(yielded: seq<Bytes>, asked: seq<Ask>, ending: Ending)

  // ---------------------------------------------------------------- providers in turn

  /** The dials of one provider: its addresses in order, up to the first that accepts. */
  function Dials(source: Source, provider: nat, addrs: seq<bool>, first: nat): seq<Ask>
    decreases |addrs|
  {
    if addrs == [] then []
    else [Dial(source, provider, first)] + (if addrs[0] then [] else Dials(source, provider, addrs[1..], first + 1))
  }

  function ProviderAsks(source: Source, provider: nat, p: Provider): seq<Ask> {
    Dials(source, provider, p.addrs, 0) + [WantFrom(source, provider)]
  }

  /** What is asked of the providers numbered from `first` on: one after the other, up to the first that delivers. */
  function Asks(source: Source, providers: seq<Provider>, first: nat): seq<Ask>
    decreases |providers|
  {
    if providers == [] then []
    else
      ProviderAsks(source, first, providers[0]) +
      (if providers[0].want.Some? then [] else Asks(source, providers[1..], first + 1))
  }

  /** The first want that succeeds, over the providers in order. */
  function FirstWant(providers: seq<Provider>): Option<Bytes> {
    if providers == [] then None
    else if providers[0].want.Some? then providers[0].want
    else FirstWant(providers[1..])
  }

  /** The providers whose turn comes before the shared budget runs out. */
  function InBudget(providers: seq<Provider>): seq<Provider> {
    if providers == [] || providers[0].aborted then [] else [providers[0]] + InBudget(providers[1..])
  }

  lemma DialsStep(source: Source, provider: nat, addrs: seq<bool>, i: nat)
    requires i < |addrs|
    ensures Dials(source, provider, addrs[i..], i)
         == [Dial(source, provider, i)] + (if addrs[i] then [] else Dials(source, provider, addrs[i + 1..], i + 1))
  {
    assert addrs[i..][1..] == addrs[i + 1..];
  }

  method DialAny(source: Source, provider: nat, addrs: seq<bool>) returns (asked: seq<Ask>)
    ensures asked == Dials(source, provider, addrs, 0)
  {
    asked := [];
    assert addrs[0..] == addrs && addrs[|addrs|..] == [];
    Associative([], Dials(source, provider, addrs, 0), []);
    for i := 0 to |addrs|
      invariant asked + Dials(source, provider, addrs[i..], i) == Dials(source, provider, addrs, 0)
    {
      hide Dials;
      DialsStep(source, provider, addrs, i);
      Associative(asked, [Dial(source, provider, i)],
                  if addrs[i] then [] else Dials(source, provider, addrs[i + 1..], i + 1));
      asked := asked + [Dial(source, provider, i)];
      Associative(asked, [], []);
      if addrs[i] {
        return;
      }
    }
    Associative(asked, [], []);
  }

  /** One turn of the loop over providers. */
  lemma AsksStep(source: Source, before: seq<Ask>, providers: seq<Provider>, first: nat, dials: seq<Ask>)
    requires providers != [] && dials == Dials(source, first, providers[0].addrs, 0)
    ensures var more := if providers[0].want.Some? then [] else Asks(source, providers[1..], first + 1);
            before + Asks(source, providers, first) == (before + dials + [WantFrom(source, first)]) + more
  {
    var more := if providers[0].want.Some? then [] else Asks(source, providers[1..], first + 1);
    hide Dials;
    Associative(before, dials, [WantFrom(source, first)]);
    Associative(before, dials + [WantFrom(source, first)], more);
  }

  lemma NoAsks(source: Source, before: seq<Ask>, first: nat)
    ensures before + Asks(source, [], first) == before == before + []
  {
  }

  /** The loop over the providers that the look-up finds, in `tryDHTRetrieval`. */
  method TryDHTRetrieval(dht: seq<Provider>) returns (block: Option<Bytes>, asked: seq<Ask>)
    ensures block == FirstWant(dht) && asked == Asks(Dht, dht, 0)
  {
    hide Dials, Asks;
    asked := [];
    assert dht[0..] == dht && dht[|dht|..] == [];
    Associative([], Asks(Dht, dht, 0), []);
    for i := 0 to |dht|
      invariant FirstWant(dht[i..]) == FirstWant(dht)
      invariant asked + Asks(Dht, dht[i..], i) == Asks(Dht, dht, 0)
    {
      assert dht[i..][1..] == dht[i + 1..] && dht[i..][0] == dht[i];
      var dials := DialAny(Dht, i, dht[i].addrs);
      AsksStep(Dht, asked, dht[i..], i, dials);
      asked := asked + dials + [WantFrom(Dht, i)];
      if dht[i].want.Some? {
        NoAsks(Dht, asked, i);
        return dht[i].want, asked;
      }
    }
    NoAsks(Dht, asked, |dht|);
    block := None;
  }

  /** The loop over IPNI providers. */
  method TryIPNI(providers: seq<Provider>) returns (block: Option<Bytes>, asked: seq<Ask>)
    ensures block == FirstWant(InBudget(providers)) && asked == Asks(Ipni, InBudget(providers), 0)
  {
    hide Dials, Asks;
    asked := [];
    assert providers[0..] == providers && providers[|providers|..] == [];
    Associative([], Asks(Ipni, InBudget(providers), 0), []);
    for i := 0 to |providers|
      invariant FirstWant(InBudget(providers[i..])) == FirstWant(InBudget(providers))
      invariant asked + Asks(Ipni, InBudget(providers[i..]), i) == Asks(Ipni, InBudget(providers), 0)
    {
      assert providers[i..][1..] == providers[i + 1..] && providers[i..][0] == providers[i];
      var p := providers[i];
      NoAsks(Ipni, asked, i);
      if p.aborted {
        return None, asked;
      }
      BudgetGoesOn(providers[i..]);
      var dials := DialAny(Ipni, i, p.addrs);
      AsksStep(Ipni, asked, InBudget(providers[i..]), i, dials);
      asked := asked + dials + [WantFrom(Ipni, i)];
      if p.want.Some? {
        NoAsks(Ipni, asked, i);
        return p.want, asked;
      }
    }
    NoAsks(Ipni, asked, |providers|);
    block := None;
  }

  lemma BudgetGoesOn(providers: seq<Provider>)
    requires providers != [] && !providers[0].aborted
    ensures InBudget(providers) != [] && InBudget(providers)[0] == providers[0]
    ensures InBudget(providers)[1..] == InBudget(providers[1..])
  {
  }

  // ---------------------------------------------------------------- a get

  /** `tryBitswap` settles while the look-up is still at work. */
  predicate BroadcastFirst(w: World) {
    w.settles <= |Asks(Dht, w.dht, 0)|
  }

  /** The side of the race that settles first decides, also when it has nothing. */
  function RaceResult(w: World): Option<Bytes> {
    if BroadcastFirst(w) then w.broadcast else FirstWant(w.dht)
  }

  /** What both sides of the race have asked when it is decided. */
  function RaceAsks(w: World): seq<Ask> {
    [Broadcast, FindProviders] + Upto(Asks(Dht, w.dht, 0), w.settles)
  }

  function IPNIResult(w: World): Option<Bytes> {
    if w.ipni.None? then None else FirstWant(InBudget(w.ipni.value))
  }

  function IPNIAsks(w: World): seq<Ask> {
    [FetchIPNI] + if w.ipni.None? then [] else Asks(Ipni, InBudget(w.ipni.value), 0)
  }

  /** The local read: the stored block, or a miss, unless the store itself fails. */
  function Local(store: Store, cid: Cid, w: World): LocalRead {
    if w.fault.Some? then w.fault.value
    else if cid in store then LocalRead([store[cid]], Complete)
    else LocalRead([], Miss)
  }

  /** The block that the stages, one after the other, come up with. */
  function Retrieved(w: World): Option<Bytes> {
    if RaceResult(w).Some? then RaceResult(w) else if IPNIResult(w).Some? then IPNIResult(w) else w.gateway
  }

  /** What the get itself asks once the race is decided. */
  function Later(w: World): seq<Ask> {
    if RaceResult(w).Some? then []
    else IPNIAsks(w) + if IPNIResult(w).Some? then [] else [FetchGateway]
  }

  /** What the look-up has not asked by then: losing the race does not stop it. */
  function Late(w: World): seq<Ask> {
    From(Asks(Dht, w.dht, 0), w.settles)
  }

  /**
   * Two strands woven: all of the get's own asks, and of the look-up's those whose turn comes before the
   * get ends.
   */
  function Weave(own: seq<Ask>, late: seq<Ask>, turns: seq<bool>): seq<Ask>
    decreases |turns|
  {
    if turns == [] then own
    else if turns[0] then
      if late == [] then Weave(own, late, turns[1..]) else [late[0]] + Weave(own, late[1..], turns[1..])
    else
      if own == [] then Weave(own, late, turns[1..]) else [own[0]] + Weave(own[1..], late, turns[1..])
  }

  function AllAsks(w: World): seq<Ask> {
    RaceAsks(w) + Weave(Later(w), Late(w), w.turns)
  }

  function GetResult(store: Store, cid: Cid, w: World): (Store, Outcome) {
    var local := Local(store, cid, w);
    match local.end
    case Complete => (store, Outcome(local.chunks, [], Returned))
    case OtherError => (store, Outcome(local.chunks, [], Rethrown))
    case Miss =>
      match Retrieved(w)
      case None => (store, Outcome(local.chunks, AllAsks(w), NotFound))
      case Some(block) =>
        (if w.stored then store[cid := block] else store, Outcome(local.chunks + [block], AllAsks(w), Returned))
  }

  /** A store over S3 that falls back on the network, `src/blockstore-network.ts:74-223`. */
  class NetworkAwareBlockstore {
    var s3Blockstore: Store

    constructor (s3: Store)
      ensures s3Blockstore == s3
    {
      s3Blockstore := s3;
    }

    /** A put to S3 whose failure is swallowed. */
    method TryPut(cid: Cid, block: Bytes, stored: bool)
      modifies this
      ensures s3Blockstore == if stored then old(s3Blockstore)[cid := block] else old(s3Blockstore)
    {
      if stored {
        s3Blockstore := s3Blockstore[cid := block];
      }
    }

    /** `get`: S3 first, any error but a miss thrown on; then the race, IPNI and the gateway in turn. */
    method Get(cid: Cid, w: World) returns (r: Outcome)
      modifies this
      ensures (s3Blockstore, r) == GetResult(old(s3Blockstore), cid, w)
    {
      hide Asks, Weave;
      var local := if w.fault.Some? then w.fault.value
                   else if cid in s3Blockstore then LocalRead([s3Blockstore[cid]], Complete)
                   else LocalRead([], Miss);
      var yielded := local.chunks;
      match local.end {
        case Complete => return Outcome(yielded, [], Returned);
        case OtherError => return Outcome(yielded, [], Rethrown);
        case Miss =>
      }
      var found, lookup := TryDHTRetrieval(w.dht);
      var block := if w.settles <= |lookup| then w.broadcast else found;
      var race := [Broadcast, FindProviders] + Upto(lookup, w.settles);
      var late := From(lookup, w.settles);
      if block.Some? {
        TryPut(cid, block.value, w.stored);
        return Outcome(yielded + [block.value], race + Weave([], late, w.turns), Returned);
      }
      var own := [FetchIPNI];
      if w.ipni.Some? {
        var ipniBlock, more := TryIPNI(w.ipni.value);
        own := own + more;
        if ipniBlock.Some? {
          TryPut(cid, ipniBlock.value, w.stored);
          Associative(own, [], []);
          return Outcome(yielded + [ipniBlock.value], race + Weave(own, late, w.turns), Returned);
        }
      } else {
        Associative(own, [], []);
      }
      own := own + [FetchGateway];
      if w.gateway.Some? {
        TryPut(cid, w.gateway.value, w.stored);
        return Outcome(yielded + [w.gateway.value], race + Weave(own, late, w.turns), Returned);
      }
      r := Outcome(yielded, race + Weave(own, late, w.turns), NotFound);
    }

    /** `has`: S3 alone is asked, and an error there means absent. */
    method Has(cid: Cid, ok: bool) returns (present: bool)
      ensures present <==> ok && cid in s3Blockstore
    {
      present := ok && cid in s3Blockstore;
    }

    method Put(cid: Cid, block: Bytes, stored: bool) returns (ok: bool)
      modifies this
      ensures (s3Blockstore, ok) == After(old(s3Blockstore), Op.Put(cid, block, stored))
    {
      if stored {
        s3Blockstore := s3Blockstore[cid := block];
      }
      ok := stored;
    }

    method Delete(cid: Cid, deleted: bool) returns (ok: bool)
      modifies this
      ensures (s3Blockstore, ok) == After(old(s3Blockstore), Op.Delete(cid, deleted))
    {
      if deleted {
        s3Blockstore := s3Blockstore - {cid};
      }
      ok := deleted;
    }
  }

  // ---------------------------------------------------------------- what it does to the store

  /**
   * A get asks the network only on a miss, changes the store only then, at its own CID and to exactly
   * what it yields last, and fails exactly when no stage brings a block.
   */
  lemma GetStoresWhatItYields(store: Store, cid: Cid, w: World)
    ensures var (after, r) := GetResult(store, cid, w);
            (r.asked == [] ==> after == store && !r.ending.NotFound?) &&
            (forall other | other != cid :: (other in after <==> other in store) &&
                                            (other in store ==> after[other] == store[other])) &&
            (after != store ==> w.stored && r.asked != [] && r.ending.Returned? &&
                                r.yielded != [] && after == store[cid := r.yielded[|r.yielded| - 1]]) &&
            (r.ending.NotFound? <==>
               Local(store, cid, w).end.Miss? && RaceResult(w).None? && IPNIResult(w).None? && w.gateway.None?)
  {
    hide Asks, FirstWant;
  }

  // ---------------------------------------------------------------- what is found

  /** The value is one that a want for the CID resolved with, in some run of Bitswap, intended or as written. */
  ghost predicate FromBitswap(lib: Library, cid: Cid, value: Bytes) {
    exists store, steps, d: nat :: ResolvedIn(lib, cid, value, store, steps, d)
  }

  predicate ResolvedIn(
      lib: Library, cid: Cid, value: Bytes, store: map<Cid, Bytes>, steps: seq<Wants.Step>, d: nat)
  {
    var done := Wants.Deferred(cid, Wants.Resolved(value));
    var s, t := Wants.Run(lib, Wants.Start(store), steps), Wants.RunByKey(lib, Wants.Start(store), steps);
    (d < |s.deferreds| && s.deferreds[d] == done) || (d < |t.deferreds| && t.deferreds[d] == done)
  }

  /** Every want's value comes from Bitswap; only the local store's chunks and the gateway are taken as honest. */
  ghost predicate Genuine(lib: Library, cid: Cid, w: World) {
    (w.fault.Some? ==> forall c | c in w.fault.value.chunks :: lib.Names(cid, c)) &&
    (w.broadcast.Some? ==> FromBitswap(lib, cid, w.broadcast.value)) &&
    (forall p | p in w.dht && p.want.Some? :: FromBitswap(lib, cid, p.want.value)) &&
    (w.ipni.Some? ==> forall p | p in w.ipni.value && p.want.Some? :: FromBitswap(lib, cid, p.want.value)) &&
    (w.gateway.Some? ==> lib.Names(cid, w.gateway.value))
  }

  /** What Bitswap resolves a want with hashes to the CID's digest. */
  lemma BitswapIsNamed(lib: Library, cid: Cid, value: Bytes)
    requires lib.Lawful() && FromBitswap(lib, cid, value)
    ensures lib.Names(cid, value)
  {
    var store, steps, d: nat :| ResolvedIn(lib, cid, value, store, steps, d);
    Wants.EveryRunIsSafe(lib, store, steps);
    Wants.EveryRunByKeyIsSafe(lib, store, steps);
    var s, t := Wants.Run(lib, Wants.Start(store), steps), Wants.RunByKey(lib, Wants.Start(store), steps);
    var done := Wants.Deferred(cid, Wants.Resolved(value));
    assert done in s.deferreds || done in t.deferreds;
  }

  lemma {:induction false} FirstWantIsOne(providers: seq<Provider>)
    ensures FirstWant(providers).Some? ==> exists p :: p in providers && p.want == FirstWant(providers)
  {
    if providers != [] {
      assert providers[0] in providers;
      if providers[0].want.None? {
        FirstWantIsOne(providers[1..]);
      }
    }
  }

  lemma {:induction false} BudgetIsPart(providers: seq<Provider>)
    ensures forall p | p in InBudget(providers) :: p in providers && !p.aborted
  {
    if providers != [] {
      BudgetIsPart(providers[1..]);
    }
  }

  lemma WantIsNamed(lib: Library, cid: Cid, providers: seq<Provider>)
    requires lib.Lawful() && forall p | p in providers && p.want.Some? :: FromBitswap(lib, cid, p.want.value)
    ensures FirstWant(providers).Some? ==> lib.Names(cid, FirstWant(providers).value)
  {
    hide FromBitswap, FirstWant, Library.Names, Library.Lawful;
    FirstWantIsOne(providers);
    if FirstWant(providers).Some? {
      var p :| p in providers && p.want == FirstWant(providers);
      BitswapIsNamed(lib, cid, p.want.value);
    }
  }

  lemma RetrievedIsNamed(lib: Library, cid: Cid, w: World)
    requires lib.Lawful() && Genuine(lib, cid, w)
    ensures Retrieved(w).Some? ==> lib.Names(cid, Retrieved(w).value)
  {
    hide FromBitswap, FirstWant, InBudget, Library.Names, Library.Lawful, Asks;
    WantIsNamed(lib, cid, w.dht);
    if w.broadcast.Some? {
      BitswapIsNamed(lib, cid, w.broadcast.value);
    }
    if w.ipni.Some? {
      BudgetIsPart(w.ipni.value);
      WantIsNamed(lib, cid, InBudget(w.ipni.value));
    }
  }

  // ---------------------------------------------------------------- the race

  lemma {:induction false} NoWant(providers: seq<Provider>)
    ensures FirstWant(providers).None? <==> forall p | p in providers :: p.want.None?
  {
    if providers != [] {
      NoWant(providers[1..]);
    }
  }

  /**
   * The race loses a block that bitswap would have had exactly when the provider look-up settles first
   * with nothing: the code does not wait for both sides, as its own comment says it does.
   */
  lemma RaceLosesIff(w: World)
    requires w.broadcast.Some?
    ensures RaceResult(w).None? <==>
      w.settles > |Asks(Dht, w.dht, 0)| && forall p | p in w.dht :: p.want.None?
  {
    hide Asks;
    NoWant(w.dht);
  }

  /** Such a get: no provider is found, the look-up is the faster side, and a block that a peer has is not found. */
  lemma RaceLosesABlock(cid: Cid, block: Bytes)
    ensures var w := World(None, Some(block), [], 1, [], None, None, true);
            GetResult(map[], cid, w) ==
              (map[], Outcome([], [Broadcast, FindProviders, FetchIPNI, FetchGateway], NotFound))
  {
    var w := World(None, Some(block), [], 1, [], None, None, true);
    assert RaceAsks(w) == [Broadcast, FindProviders] && IPNIAsks(w) == [FetchIPNI];
    assert RaceResult(w) == None && IPNIResult(w) == None;
    assert Later(w) == [FetchIPNI, FetchGateway];
    assert AllAsks(w) == [Broadcast, FindProviders, FetchIPNI, FetchGateway];
    assert Retrieved(w) == None && Local(map[], cid, w) == LocalRead([], Miss);
  }

  // ---------------------------------------------------------------- any sequence of operations

  datatype Op = Get(cid: Cid, w: World) | Put(cid: Cid, block: Bytes, stored: bool) | Delete(cid: Cid, deleted: bool)

  /** The store after an operation, and whether it returned normally. */
  function After(store: Store, op: Op): (Store, bool) {
    match op
    case Get(cid, w) => var (after, r) := GetResult(store, cid, w); (after, r.ending.Returned?)
    case Put(cid, block, stored) => (if stored then store[cid := block] else store, stored)
    case Delete(cid, deleted) => (if deleted then store - {cid} else store, deleted)
  }

  /** The store after a list of operations. */
  function Run(store: Store, ops: seq<Op>): Store
    decreases |ops|
  {
    if ops == [] then store else Run(After(store, ops[0]).0, ops[1..])
  }

  predicate HonestStore(lib: Library, store: Store) {
    forall cid | cid in store :: lib.Names(cid, store[cid])
  }

  ghost predicate GenuineOp(lib: Library, op: Op) {
    match op
    case Get(cid, w) => Genuine(lib, cid, w)
    case Put(cid, block, _) => lib.Names(cid, block)
    case Delete(_, _) => true
  }

  lemma {:induction false} RunStaysHonest(lib: Library, store: Store, ops: seq<Op>)
    requires lib.Lawful() && HonestStore(lib, store) && forall op | op in ops :: GenuineOp(lib, op)
    ensures HonestStore(lib, Run(store, ops))
    decreases |ops|
  {
    if ops != [] {
      hide Retrieved, Genuine, Library.Names, Library.Lawful, AllAsks;
      assert ops[0] in ops;
      if ops[0].Get? {
        RetrievedIsNamed(lib, ops[0].cid, ops[0].w);
      }
      RunStaysHonest(lib, After(store, ops[0]).0, ops[1..]);
    }
  }

  /**
   * After any run of operations, a `get` yields only data its CID names, from whichever stage: for what
   * wants bring, because every run of Bitswap is safe.
   */
  lemma EveryGetIsNamed(lib: Library, store: Store, ops: seq<Op>, cid: Cid, w: World)
    requires lib.Lawful() && HonestStore(lib, store)
    requires (forall op | op in ops :: GenuineOp(lib, op)) && Genuine(lib, cid, w)
    ensures forall c | c in GetResult(Run(store, ops), cid, w).1.yielded :: lib.Names(cid, c)
  {
    RunStaysHonest(lib, store, ops);
    hide Retrieved, Run, AllAsks;
    RetrievedIsNamed(lib, cid, w);
  }

  /**
   * What is fetched is kept: once a get has stored the block it fetched, then, through any operations
   * that do not put or delete that CID, a local read that does not fail yields exactly this block, and
   * nothing is asked of the network.
   */
  lemma FetchedIsKept(store: Store, cid: Cid, first: World, ops: seq<Op>, w: World)
    requires first.stored && first.fault.None? && cid !in store && Retrieved(first).Some? && w.fault.None?
    requires forall op | op in ops && op.cid == cid :: op.Get? && op.w.fault.None?
    ensures var (after, r) := GetResult(store, cid, first);
            r.yielded == [Retrieved(first).value] &&
            GetResult(Run(after, ops), cid, w) == (Run(after, ops), Outcome(r.yielded, [], Returned))
  {
    hide Retrieved, AllAsks;
    var (after, _) := GetResult(store, cid, first);
    StoredStays(after, cid, ops);
    assert [] + [Retrieved(first).value] == [Retrieved(first).value];
  }

  lemma {:induction false} StoredStays(store: Store, cid: Cid, ops: seq<Op>)
    requires cid in store
    requires forall op | op in ops && op.cid == cid :: op.Get? && op.w.fault.None?
    ensures cid in Run(store, ops) && Run(store, ops)[cid] == store[cid]
    decreases |ops|
  {
    if ops != [] {
      hide Retrieved, AllAsks;
      assert ops[0] in ops;
      StoredStays(After(store, ops[0]).0, cid, ops[1..]);
    }
  }

  // ---------------------------------------------------------------- puts and deletes

  /** Nothing in the run puts or deletes the block, and no get of it meets a failing local read. */
  predicate Spares(ops: seq<Op>, cid: Cid) {
    forall op | op in ops && op.cid == cid :: op.Get? && op.w.fault.None?
  }

  /**
   * A put that succeeded is read: through any operations that do not put or delete the block, a local read
   * that does not fail yields exactly it, with nothing asked of the network.
   */
  lemma PutIsRead(store: Store, cid: Cid, block: Bytes, ops: seq<Op>, w: World)
    requires Spares(ops, cid) && w.fault.None?
    ensures var (after, ok) := After(store, Put(cid, block, true));
            ok && cid in Run(after, ops) &&
            GetResult(Run(after, ops), cid, w) == (Run(after, ops), Outcome([block], [], Returned))
  {
    hide Retrieved, AllAsks;
    StoredStays(After(store, Put(cid, block, true)).0, cid, ops);
  }

  /** No get of the block is made. */
  predicate Avoids(ops: seq<Op>, cid: Cid) {
    forall op | op in ops :: op.cid != cid
  }

  lemma {:induction false} OthersLeaveAlone(store: Store, cid: Cid, ops: seq<Op>)
    requires Avoids(ops, cid)
    ensures (cid in Run(store, ops) <==> cid in store) && (cid in store ==> Run(store, ops)[cid] == store[cid])
    decreases |ops|
  {
    if ops != [] {
      hide Retrieved, AllAsks;
      assert ops[0] in ops;
      OthersLeaveAlone(After(store, ops[0]).0, cid, ops[1..]);
    }
  }

  /**
   * A delete that succeeded is seen: through any operations on other blocks, a local read that does not
   * fail is a miss, so that a get asks the network and ends with nothing when that has nothing.
   */
  lemma DeleteIsMiss(store: Store, cid: Cid, ops: seq<Op>, w: World)
    requires Avoids(ops, cid) && w.fault.None?
    ensures var (after, ok) := After(store, Delete(cid, true));
            ok && cid !in Run(after, ops) &&
            GetResult(Run(after, ops), cid, w).1.asked != [] &&
            (Retrieved(w).None? ==> GetResult(Run(after, ops), cid, w).1.ending.NotFound?)
  {
    hide Retrieved, AllAsks;
    OthersLeaveAlone(After(store, Delete(cid, true)).0, cid, ops);
    assert AllAsks(w) != [] by {
      AsksSomething(w);
    }
  }

  lemma AsksSomething(w: World)
    ensures AllAsks(w) != []
  {
    hide Asks, Weave;
    assert RaceAsks(w)[0] == Broadcast;
  }

  /** A put or delete that failed says so and changes nothing; one that succeeded changes no other block. */
  lemma OnlyItsBlock(store: Store, op: Op, other: Cid)
    requires !op.Get?
    ensures var (after, ok) := After(store, op);
            ok == (if op.Put? then op.stored else op.deleted) && (!ok ==> after == store) &&
            (other != op.cid ==>
               (other in after <==> other in store) && (other in store ==> after[other] == store[other]))
  {
  }

  /**
   * How a get ends.  A local read that completes yields what it yielded; one that fails otherwise than
   * with a miss is thrown on, after what it yielded, with nothing asked and nothing stored; the network
   * decides about a miss.
   */
  lemma LocalReadDecides(store: Store, cid: Cid, w: World)
    ensures var (after, r) := GetResult(store, cid, w);
            (r.ending.Rethrown? <==> w.fault.Some? && w.fault.value.end.OtherError?) &&
            (w.fault.Some? && !w.fault.value.end.Miss? ==>
               after == store && r.asked == [] && r.yielded == w.fault.value.chunks &&
               (r.ending.Returned? <==> w.fault.value.end.Complete?)) &&
            (w.fault.None? && cid in store ==> (after, r) == (store, Outcome([store[cid]], [], Returned))) &&
            (((w.fault.None? && cid !in store) || (w.fault.Some? && w.fault.value.end.Miss?)) ==> r.asked != [])
  {
    hide Retrieved, AllAsks;
    AsksSomething(w);
  }
}
