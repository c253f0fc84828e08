/**
 * What a `get` of the network store asks of the network, and in what order, `src/blockstore-network.ts:86-197`.
 * Two strands ask: the get itself, and the provider look-up, which losing the race does not stop.
 */
module NetworkTrace {
  import opened Basics
  import opened Cids
  import opened NetworkStore

  // ---------------------------------------------------------------- what is asked, and in what order

  /** Address number `n` is there and all before it refused. */
  predicate RefusedBefore(addrs: seq<bool>, n: nat) {
    n < |addrs| && forall i | 0 <= i < n :: !addrs[i]
  }

  lemma RefusedTail(addrs: seq<bool>, n: nat)
    requires addrs != [] && n > 0
    ensures RefusedBefore(addrs, n) <==> !addrs[0] && RefusedBefore(addrs[1..], n - 1)
  {
    if n < |addrs| {
      assert forall i | 0 <= i < n - 1 :: addrs[1..][i] == addrs[i + 1];
      assert forall i | 0 < i < n :: addrs[i] == addrs[1..][i - 1];
    }
  }

  lemma {:induction false} DialsWhen(source: Source, provider: nat, addrs: seq<bool>, first: nat, x: Ask)
    ensures x in Dials(source, provider, addrs, first) <==>
      x.Dial? && x.source == source && x.provider == provider && first <= x.addr &&
      RefusedBefore(addrs, x.addr - first)
    decreases |addrs|
  {
    if addrs != [] {
      DialsWhen(source, provider, addrs[1..], first + 1, x);
      if x.Dial? && x.addr > first {
        RefusedTail(addrs, x.addr - first);
      }
    }
  }

  /** Provider number `n` is there and all before it were asked in vain. */
  predicate InVainBefore(providers: seq<Provider>, n: nat) {
    n < |providers| && forall i | 0 <= i < n :: providers[i].want.None?
  }

  lemma InVainTail(providers: seq<Provider>, n: nat)
    requires providers != [] && n > 0
    ensures InVainBefore(providers, n) <==> providers[0].want.None? && InVainBefore(providers[1..], n - 1)
  {
    if n < |providers| {
      assert forall i | 0 <= i < n - 1 :: providers[1..][i] == providers[i + 1];
      assert forall i | 0 < i < n :: providers[i] == providers[1..][i - 1];
    }
  }

  lemma FirstInVain(providers: seq<Provider>)
    ensures InVainBefore(providers, 0) <==> providers != []
    ensures forall n: nat :: InVainBefore(providers, n) ==> n < |providers|
  {
  }

  lemma ProviderAsksWhen(source: Source, provider: nat, p: Provider, x: Ask)
    ensures x in ProviderAsks(source, provider, p) <==>
      (x.Dial? || x.WantFrom?) && x.source == source && x.provider == provider &&
      (x.Dial? ==> RefusedBefore(p.addrs, x.addr))
  {
    hide Dials;
    DialsWhen(source, provider, p.addrs, 0, x);
  }

  /**
   * A provider is asked exactly when all before it were asked in vain, and one of its addresses is
   * dialled exactly when moreover all its addresses before that one refused.
   */
  lemma {:induction false} AsksWhen(source: Source, providers: seq<Provider>, first: nat, x: Ask)
    ensures x in Asks(source, providers, first) <==>
      (x.Dial? || x.WantFrom?) && x.source == source && first <= x.provider &&
      InVainBefore(providers, x.provider - first) &&
      (x.Dial? ==> RefusedBefore(providers[x.provider - first].addrs, x.addr))
    decreases |providers|
  {
    hide ProviderAsks, RefusedBefore, InVainBefore;
    FirstInVain(providers);
    if providers != [] {
      AsksWhen(source, providers[1..], first + 1, x);
      ProviderAsksWhen(source, first, providers[0], x);
      if (x.Dial? || x.WantFrom?) && x.provider > first {
        InVainTail(providers, x.provider - first);
      }
    }
  }

  /** The order in which things are asked: by stage, then by provider, a provider's addresses before its want. */
  function Stage(x: Ask): nat {
    match x
    case Broadcast => 0
    case FindProviders => 1
    case Dial(source, _, _) => if source.Dht? then 2 else 4
    case WantFrom(source, _) => if source.Dht? then 2 else 4
    case FetchIPNI => 3
    case FetchGateway => 5
  }

  predicate Before(x: Ask, y: Ask) {
    if Stage(x) != Stage(y) then Stage(x) < Stage(y)
    else if x.Dial? && y.Dial? && x.provider == y.provider then x.addr < y.addr
    else if (x.Dial? || x.WantFrom?) && (y.Dial? || y.WantFrom?) then
      x.provider < y.provider || (x.provider == y.provider && x.Dial? && y.WantFrom?)
    else false
  }

  predicate InOrder(asked: seq<Ask>) {
    forall i, j | 0 <= i < j < |asked| :: Before(asked[i], asked[j])
  }

  lemma OrderAppend(a: seq<Ask>, b: seq<Ask>)
    requires InOrder(a) && InOrder(b) && forall x, y | x in a && y in b :: Before(x, y)
    ensures InOrder(a + b)
  {
    hide Before;
  }

  lemma {:induction false} DialsInOrder(source: Source, provider: nat, addrs: seq<bool>, first: nat)
    ensures InOrder(Dials(source, provider, addrs, first))
    decreases |addrs|
  {
    if addrs != [] {
      DialsInOrder(source, provider, addrs[1..], first + 1);
      var tail := if addrs[0] then [] else Dials(source, provider, addrs[1..], first + 1);
      forall y | y in tail
        ensures Before(Dial(source, provider, first), y)
      {
        DialsWhen(source, provider, addrs[1..], first + 1, y);
      }
      OrderAppend([Dial(source, provider, first)], tail);
    }
  }

  lemma ProviderInOrder(source: Source, provider: nat, p: Provider)
    ensures InOrder(ProviderAsks(source, provider, p))
    ensures forall x | x in ProviderAsks(source, provider, p) ::
      (x.Dial? || x.WantFrom?) && x.source == source && x.provider == provider
  {
    hide Dials;
    var dials := Dials(source, provider, p.addrs, 0);
    DialsInOrder(source, provider, p.addrs, 0);
    forall x | x in dials
      ensures x.Dial? && x.source == source && x.provider == provider
    {
      DialsWhen(source, provider, p.addrs, 0, x);
    }
    OrderAppend(dials, [WantFrom(source, provider)]);
  }

  lemma {:induction false} AsksInOrder(source: Source, providers: seq<Provider>, first: nat)
    ensures InOrder(Asks(source, providers, first))
    decreases |providers|
  {
    if providers != [] {
      hide ProviderAsks, InOrder;
      var head := ProviderAsks(source, first, providers[0]);
      var tail := if providers[0].want.Some? then [] else Asks(source, providers[1..], first + 1);
      ProviderInOrder(source, first, providers[0]);
      AsksInOrder(source, providers[1..], first + 1);
      NothingInOrder();
      forall x, y | x in head && y in tail
        ensures Before(x, y)
      {
        AsksWhen(source, providers[1..], first + 1, y);
      }
      OrderAppend(head, tail);
    } else {
      assert InOrder([]);
    }
  }

  lemma NothingInOrder()
    ensures InOrder([]) && forall x :: InOrder([x])
  {
  }

  lemma StageOf(source: Source, providers: seq<Provider>, x: Ask)
    requires x in Asks(source, providers, 0)
    ensures Stage(x) == if source.Dht? then 2 else 4
  {
    AsksWhen(source, providers, 0, x);
  }

  lemma RaceInOrder(w: World)
    ensures InOrder(RaceAsks(w)) && forall x | x in RaceAsks(w) :: Stage(x) <= 2
  {
    hide Asks;
    var lookup := Asks(Dht, w.dht, 0);
    AsksInOrder(Dht, w.dht, 0);
    forall x | x in lookup
      ensures Stage(x) == 2
    {
      StageOf(Dht, w.dht, x);
    }
    var made := Upto(lookup, w.settles);
    assert forall x | x in made :: x in lookup;
    OrderAppend([Broadcast, FindProviders], made);
  }

  lemma IPNIInOrder(w: World)
    ensures InOrder(IPNIAsks(w)) && forall x | x in IPNIAsks(w) :: 3 <= Stage(x) <= 4
  {
    hide Asks, InBudget;
    var asks := if w.ipni.None? then [] else Asks(Ipni, InBudget(w.ipni.value), 0);
    if w.ipni.Some? {
      AsksInOrder(Ipni, InBudget(w.ipni.value), 0);
      forall x | x in asks
        ensures Stage(x) == 4
      {
        StageOf(Ipni, InBudget(w.ipni.value), x);
      }
    }
    OrderAppend([FetchIPNI], asks);
  }

  /** Providers until the shared budget runs out, all of them when it does not. */
  lemma {:induction false} BudgetAt(providers: seq<Provider>, i: nat)
    ensures i < |InBudget(providers)| <==> i < |providers| && forall j | 0 <= j <= i :: !providers[j].aborted
    ensures i < |InBudget(providers)| ==> InBudget(providers)[i] == providers[i]
    decreases |providers|
  {
    if providers != [] {
      if i == 0 {
        assert InBudget(providers) == [] || InBudget(providers)[0] == providers[0];
      } else {
        BudgetAt(providers[1..], i - 1);
        if i < |providers| {
          assert forall j | 0 <= j <= i - 1 :: providers[1..][j] == providers[j + 1];
          assert forall j | 1 <= j <= i :: providers[j] == providers[1..][j - 1];
        }
      }
    }
  }

  /** An IPNI provider is wanted from exactly when its turn comes within the budget and all before it failed. */
  lemma IPNIWantsWhen(w: World, i: nat)
    ensures WantFrom(Ipni, i) in IPNIAsks(w) <==>
      w.ipni.Some? && i < |w.ipni.value| && (forall j | 0 <= j <= i :: !w.ipni.value[j].aborted) &&
      forall j | 0 <= j < i :: w.ipni.value[j].want.None?
  {
    hide Asks, InBudget;
    if w.ipni.Some? {
      var all, within := w.ipni.value, InBudget(w.ipni.value);
      AsksWhen(Ipni, within, 0, WantFrom(Ipni, i));
      BudgetAt(all, i);
      forall j | 0 <= j < i && j < |within|
        ensures j < |all| && within[j] == all[j]
      {
        BudgetAt(all, j);
      }
    }
  }

  // ---------------------------------------------------------------- the two strands

  /** The ask belongs to the provider look-up. */
  predicate IsLookup(x: Ask) {
    x.FindProviders? || ((x.Dial? || x.WantFrom?) && x.source.Dht?)
  }

  /** The asks of one strand, in the order made. */
  function Strand(asked: seq<Ask>, lookup: bool): seq<Ask> {
    if asked == [] then []
    else (if IsLookup(asked[0]) == lookup then [asked[0]] else []) + Strand(asked[1..], lookup)
  }

  lemma StrandCons(x: Ask, tail: seq<Ask>, lookup: bool)
    ensures Strand([x] + tail, lookup) == (if IsLookup(x) == lookup then [x] else []) + Strand(tail, lookup)
    ensures IsLookup(x) != lookup ==> Strand([x] + tail, lookup) == Strand(tail, lookup)
  {
    hide IsLookup;
    assert ([x] + tail)[1..] == tail;
  }

  lemma {:induction false} StrandAppend(a: seq<Ask>, b: seq<Ask>, lookup: bool)
    ensures Strand(a + b, lookup) == Strand(a, lookup) + Strand(b, lookup)
    decreases |a|
  {
    hide IsLookup;
    if a == [] {
      Associative(b, [], []);
      Associative(Strand(b, lookup), [], []);
    } else {
      hide Strand;
      var x, tail := a[0], a[1..];
      assert a == [x] + tail;
      Associative([x], tail, b);
      StrandCons(x, tail + b, lookup);
      StrandCons(x, tail, lookup);
      StrandAppend(tail, b, lookup);
      Associative(if IsLookup(x) == lookup then [x] else [], Strand(tail, lookup), Strand(b, lookup));
    }
  }

  lemma {:induction false} StrandOfOne(asked: seq<Ask>, lookup: bool)
    requires forall x | x in asked :: IsLookup(x) == lookup
    ensures Strand(asked, lookup) == asked && Strand(asked, !lookup) == []
  {
    hide IsLookup;
    if asked != [] {
      assert asked[0] in asked;
      StrandOfOne(asked[1..], lookup);
    }
  }

  lemma {:induction false} StrandHas(asked: seq<Ask>, x: Ask)
    ensures x in asked <==> x in Strand(asked, IsLookup(x))
  {
    hide IsLookup;
    if asked != [] {
      StrandHas(asked[1..], x);
    }
  }

  // ---------------------------------------------------------------- what weaving gives

  lemma WeaveUnfold(own: seq<Ask>, late: seq<Ask>, turns: seq<bool>)
    requires turns != []
    ensures Weave(own, late, turns) ==
      if turns[0] && late != [] then [late[0]] + Weave(own, late[1..], turns[1..])
      else if !turns[0] && own != [] then [own[0]] + Weave(own[1..], late, turns[1..])
      else Weave(own, late, turns[1..])
  {
  }

  /** Woven, the get's own strand is whole and the look-up's is cut off somewhere. */
  lemma {:induction false} WeaveStrands(own: seq<Ask>, late: seq<Ask>, turns: seq<bool>)
    requires (forall x | x in own :: !IsLookup(x)) && forall x | x in late :: IsLookup(x)
    ensures var t := Weave(own, late, turns); Strand(t, false) == own && Strand(t, true) <= late
    decreases |turns|
  {
    if turns == [] {
      hide IsLookup, Strand;
      StrandOfOne(own, false);
    } else {
      hide IsLookup, Strand, Weave;
      WeaveUnfold(own, late, turns);
      if turns[0] && late != [] {
        var x, left := late[0], late[1..];
        assert x in late && late == [x] + left;
        WeaveStrands(own, left, turns[1..]);
        StrandCons(x, Weave(own, left, turns[1..]), false);
        StrandCons(x, Weave(own, left, turns[1..]), true);
      } else if !turns[0] && own != [] {
        var x, left := own[0], own[1..];
        assert x in own && own == [x] + left;
        WeaveStrands(left, late, turns[1..]);
        StrandCons(x, Weave(left, late, turns[1..]), false);
        StrandCons(x, Weave(left, late, turns[1..]), true);
      } else {
        WeaveStrands(own, late, turns[1..]);
      }
    }
  }

  /** Every interleaving is woven so: nothing that the two strands could do is left out. */
  lemma {:induction false} WeaveCovers(t: seq<Ask>, late: seq<Ask>) returns (turns: seq<bool>)
    requires Strand(t, true) <= late
    ensures Weave(Strand(t, false), late, turns) == t
    decreases |t|
  {
    hide IsLookup;
    if t == [] {
      turns := [];
    } else {
      hide Strand;
      var x, tail := t[0], t[1..];
      assert t == [x] + tail;
      StrandCons(x, tail, true);
      StrandCons(x, tail, false);
      var lookup := IsLookup(x);
      var left := if lookup then late[1..] else late;
      var rest := WeaveCovers(tail, left);
      turns := [lookup] + rest;
      assert turns[1..] == rest;
      assert !lookup ==> Strand(t, false)[1..] == Strand(tail, false);
    }
  }

  lemma LookupAsks(w: World, x: Ask)
    requires x in Asks(Dht, w.dht, 0)
    ensures IsLookup(x)
  {
    AsksWhen(Dht, w.dht, 0, x);
  }

  lemma OwnAsks(w: World, x: Ask)
    requires x in Later(w)
    ensures !IsLookup(x) && Stage(x) >= 3 && FetchIPNI in Later(w)
  {
    hide Asks, InBudget, RaceResult, IPNIResult, FirstWant;
    assert IPNIAsks(w)[0] == FetchIPNI;
    if w.ipni.Some? && x in Asks(Ipni, InBudget(w.ipni.value), 0) {
      StageOf(Ipni, InBudget(w.ipni.value), x);
    }
  }

  /** The strands of a get that missed: its own is whole, the look-up's a prefix of all it would ask. */
  lemma StrandsOfGet(w: World)
    ensures Strand(AllAsks(w), false) == [Broadcast] + Later(w)
    ensures Strand(AllAsks(w), true) <= [FindProviders] + Asks(Dht, w.dht, 0)
    ensures !BroadcastFirst(w) ==> Strand(AllAsks(w), true) == [FindProviders] + Asks(Dht, w.dht, 0)
  {
    hide Asks, Later, Weave, IsLookup, Strand, RaceResult;
    var lookup := Asks(Dht, w.dht, 0);
    var early, late := Upto(lookup, w.settles), Late(w);
    assert lookup == early + late;
    forall x | x in lookup
      ensures IsLookup(x)
    {
      LookupAsks(w, x);
    }
    assert forall x | x in early :: x in lookup;
    assert forall x | x in late :: x in lookup;
    forall x | x in Later(w)
      ensures !IsLookup(x)
    {
      OwnAsks(w, x);
    }
    var t := Weave(Later(w), late, w.turns);
    WeaveStrands(Later(w), late, w.turns);
    StrandOfOne(early, true);
    StrandOfRace(early);
    StrandAppend(RaceAsks(w), t, false);
    StrandAppend(RaceAsks(w), t, true);
    Associative([FindProviders], early, late);
  }

  lemma StrandOfRace(early: seq<Ask>)
    requires Strand(early, true) == early && Strand(early, false) == []
    ensures Strand([Broadcast, FindProviders] + early, true) == [FindProviders] + early
    ensures Strand([Broadcast, FindProviders] + early, false) == [Broadcast]
  {
    StrandAppend([Broadcast, FindProviders], early, true);
    StrandAppend([Broadcast, FindProviders], early, false);
    assert [Broadcast, FindProviders][1..] == [FindProviders] && [FindProviders][1..] == [];
  }

  // ---------------------------------------------------------------- order within a strand

  lemma LookupInOrder(w: World)
    ensures InOrder([FindProviders] + Asks(Dht, w.dht, 0))
  {
    hide Asks;
    AsksInOrder(Dht, w.dht, 0);
    forall x | x in Asks(Dht, w.dht, 0)
      ensures Before(FindProviders, x)
    {
      StageOf(Dht, w.dht, x);
    }
    OrderAppend([FindProviders], Asks(Dht, w.dht, 0));
  }

  lemma StagesDecide()
    ensures forall x, y :: Stage(x) < Stage(y) ==> Before(x, y)
  {
  }

  lemma OwnInOrder(w: World)
    ensures InOrder([Broadcast] + Later(w))
  {
    hide IPNIAsks, RaceResult, IPNIResult, InOrder;
    NothingInOrder();
    IPNIInOrder(w);
    StagesDecide();
    hide Before;
    var end := if IPNIResult(w).Some? then [] else [FetchGateway];
    OrderAppend(IPNIAsks(w), end);
    forall x | x in Later(w)
      ensures Stage(x) >= 3
    {
      OwnAsks(w, x);
    }
    OrderAppend([Broadcast], Later(w));
  }

  lemma InOrderPrefix(a: seq<Ask>, b: seq<Ask>)
    requires a <= b && InOrder(b)
    ensures InOrder(a)
  {
    hide Before;
  }

  /**
   * The stages of a get.  Nothing is asked of the network unless the local read is a miss; each strand
   * asks in order, provider by provider and address by address, nothing twice; IPNI is fetched exactly
   * when the race has yielded nothing, the gateway exactly when IPNI has not either.
   */
  lemma GetAsksInStages(store: Store, cid: Cid, w: World)
    ensures var (_, r) := GetResult(store, cid, w);
            InOrder(Strand(r.asked, false)) && InOrder(Strand(r.asked, true)) &&
            (r.asked == [] <==> !Local(store, cid, w).end.Miss?) &&
            (FetchIPNI in r.asked <==> Local(store, cid, w).end.Miss? && RaceResult(w).None?) &&
            (FetchGateway in r.asked <==>
               Local(store, cid, w).end.Miss? && RaceResult(w).None? && IPNIResult(w).None?)
  {
    hide AllAsks, IPNIAsks, RaceResult, IPNIResult, InOrder, Strand, Asks;
    NothingInOrder();
    StrandsOfGet(w);
    OwnInOrder(w);
    LookupInOrder(w);
    InOrderPrefix(Strand(AllAsks(w), true), [FindProviders] + Asks(Dht, w.dht, 0));
    assert Strand([], true) == [] && Strand([], false) == [] by {
      StrandOfOne([], true);
    }
    WhenFetched(w);
    StrandHas(AllAsks(w), Broadcast);
    StrandHas(AllAsks(w), FetchIPNI);
    StrandHas(AllAsks(w), FetchGateway);
  }

  lemma WhenFetched(w: World)
    ensures FetchIPNI in Later(w) <==> RaceResult(w).None?
    ensures FetchGateway in Later(w) <==> RaceResult(w).None? && IPNIResult(w).None?
  {
    hide RaceResult, IPNIResult;
    assert FetchIPNI in IPNIAsks(w) by {
      hide Asks;
      assert IPNIAsks(w)[0] == FetchIPNI;
    }
    IPNIInOrder(w);
    hide IPNIAsks;
    assert FetchGateway !in IPNIAsks(w);
  }

  // ---------------------------------------------------------------- order across the strands

  /** A look-up ask stands behind the fetch of IPNI. */
  predicate Overtaken(asked: seq<Ask>) {
    exists i, j | 0 <= i < j < |asked| :: asked[i] == FetchIPNI && IsLookup(asked[j])
  }

  lemma {:induction false} SameStrand(asked: seq<Ask>, i: nat, j: nat)
    requires i < j < |asked| && IsLookup(asked[i]) == IsLookup(asked[j])
    requires InOrder(Strand(asked, IsLookup(asked[i])))
    ensures Before(asked[i], asked[j])
    decreases |asked|
  {
    hide IsLookup, Before, Strand;
    var x, tail, lookup := asked[0], asked[1..], IsLookup(asked[i]);
    assert asked == [x] + tail;
    StrandCons(x, tail, lookup);
    if i == 0 {
      StrandHas(tail, asked[j]);
      assert asked[j] == tail[j - 1];
      var k :| 0 <= k < |Strand(tail, lookup)| && Strand(tail, lookup)[k] == asked[j];
      assert Strand(asked, lookup)[0] == x && Strand(asked, lookup)[k + 1] == asked[j];
    } else {
      var inner := Strand(tail, lookup);
      var skip := if IsLookup(x) == lookup then 1 else 0;
      assert forall k | 0 <= k < |inner| :: inner[k] == Strand(asked, lookup)[k + skip];
      SameStrand(tail, i - 1, j - 1);
    }
  }

  /** Two strands in order are in order together exactly when no look-up ask stands behind the fetch of IPNI. */
  lemma InOrderIff(asked: seq<Ask>)
    requires InOrder(Strand(asked, false)) && InOrder(Strand(asked, true))
    requires asked != [] && asked[0] == Broadcast
    requires forall x | x in asked && !IsLookup(x) && x != Broadcast :: FetchIPNI in asked
    ensures InOrder(asked) <==> !Overtaken(asked)
  {
    if !Overtaken(asked) {
      forall i, j | 0 <= i < j < |asked|
        ensures Before(asked[i], asked[j])
      {
        PairInOrder(asked, i, j);
      }
    }
  }

  lemma PairInOrder(asked: seq<Ask>, i: nat, j: nat)
    requires InOrder(Strand(asked, false)) && InOrder(Strand(asked, true)) && !Overtaken(asked)
    requires asked != [] && asked[0] == Broadcast
    requires forall x | x in asked && !IsLookup(x) && x != Broadcast :: FetchIPNI in asked
    requires i < j < |asked|
    ensures Before(asked[i], asked[j])
  {
    hide Strand, InOrder;
    if IsLookup(asked[i]) == IsLookup(asked[j]) {
      SameStrand(asked, i, j);
    } else if IsLookup(asked[i]) {
      SameStrand(asked, 0, j);
    } else if asked[i] != Broadcast {
      assert asked[i] in asked;
      var p :| 0 <= p < |asked| && asked[p] == FetchIPNI;
      if p > i {
        SameStrand(asked, i, p);
      }
    }
  }

  /**
   * What a get asks comes stage by stage as a whole exactly when the look-up asks nothing more once IPNI
   * has been fetched, which nothing in the code sees to.
   */
  lemma GetInOrderIff(w: World)
    ensures InOrder(AllAsks(w)) <==> !Overtaken(AllAsks(w))
  {
    hide Asks, Strand, InOrder, Overtaken, Weave, Later;
    StrandsOfGet(w);
    OwnInOrder(w);
    LookupInOrder(w);
    InOrderPrefix(Strand(AllAsks(w), true), [FindProviders] + Asks(Dht, w.dht, 0));
    forall x | x in AllAsks(w) && !IsLookup(x) && x != Broadcast
      ensures FetchIPNI in AllAsks(w)
    {
      StrandHas(AllAsks(w), x);
      StrandHas(AllAsks(w), FetchIPNI);
      assert x in Later(w);
      OwnAsks(w, x);
    }
    InOrderIff(AllAsks(w));
  }

  /**
   * A get for which it does not: one provider with two addresses, the first of which still hangs when
   * the broadcast times out and then fails.  The second is dialled after IPNI, even after the gateway has
   * brought the block that the get then yields.
   */
  lemma LookupOvertaken(cid: Cid, block: Bytes)
    ensures var r := GetResult(map[], cid, SlowDial(block, [false, true])).1;
            r.yielded == [block] && r.ending == Returned && !InOrder(r.asked) &&
            r.asked == [Broadcast, FindProviders, Dial(Dht, 0, 0), FetchIPNI, Dial(Dht, 0, 1), FetchGateway]
    ensures var r := GetResult(map[], cid, SlowDial(block, [false, false, true])).1;
            r.yielded == [block] && r.ending == Returned && !InOrder(r.asked) &&
            r.asked == [Broadcast, FindProviders, Dial(Dht, 0, 0), FetchIPNI, FetchGateway, Dial(Dht, 0, 1)]
  {
    SlowDialAsks(block, [false, true]);
    SlowDialAsks(block, [false, false, true]);
    DialBetween();
    DialLast();
    hide AllAsks, Asks, Retrieved, Weave;
    var race := [Broadcast, FindProviders, Dial(Dht, 0, 0)];
    assert race + [FetchIPNI, Dial(Dht, 0, 1), FetchGateway] ==
           [Broadcast, FindProviders, Dial(Dht, 0, 0), FetchIPNI, Dial(Dht, 0, 1), FetchGateway];
    assert race + [FetchIPNI, FetchGateway, Dial(Dht, 0, 1)] ==
           [Broadcast, FindProviders, Dial(Dht, 0, 0), FetchIPNI, FetchGateway, Dial(Dht, 0, 1)];
    NotInOrder(AllAsks(SlowDial(block, [false, true])), 3, 4);
    NotInOrder(AllAsks(SlowDial(block, [false, false, true])), 3, 5);
  }

  lemma NotInOrder(asked: seq<Ask>, i: nat, j: nat)
    requires i < j < |asked| && asked[i] == FetchIPNI && asked[j] == Dial(Dht, 0, 1)
    ensures !InOrder(asked)
  {
    assert !Before(asked[i], asked[j]);
  }

  lemma DialBetween()
    ensures Weave([FetchIPNI, FetchGateway], [Dial(Dht, 0, 1), WantFrom(Dht, 0)], [false, true])
         == [FetchIPNI, Dial(Dht, 0, 1), FetchGateway]
  {
    var own, late, turns := [FetchIPNI, FetchGateway], [Dial(Dht, 0, 1), WantFrom(Dht, 0)], [false, true];
    assert own[1..] == [FetchGateway] && turns[1..] == [true] && turns[1..][1..] == [];
    assert Weave(own[1..], late, turns[1..]) == [Dial(Dht, 0, 1)] + own[1..];
  }

  lemma DialLast()
    ensures Weave([FetchIPNI, FetchGateway], [Dial(Dht, 0, 1), WantFrom(Dht, 0)], [false, false, true])
         == [FetchIPNI, FetchGateway, Dial(Dht, 0, 1)]
  {
    var own, late, turns := [FetchIPNI, FetchGateway], [Dial(Dht, 0, 1), WantFrom(Dht, 0)], [false, false, true];
    assert own[1..] == [FetchGateway] && own[1..][1..] == [];
    assert turns[1..][1..] == [true] && turns[1..][1..][1..] == [];
    assert Weave(own[1..][1..], late, turns[1..][1..]) == [Dial(Dht, 0, 1)] + [];
    assert Weave(own[1..], late, turns[1..]) == [FetchGateway] + [Dial(Dht, 0, 1)];
  }

  function SlowDial(block: Bytes, turns: seq<bool>): World {
    World(None, None, [Provider([false, false], None, false)], 1, turns, None, Some(block), false)
  }

  lemma SlowDialAsks(block: Bytes, turns: seq<bool>)
    ensures var w := SlowDial(block, turns);
            AllAsks(w) == [Broadcast, FindProviders, Dial(Dht, 0, 0)] +
                          Weave([FetchIPNI, FetchGateway], [Dial(Dht, 0, 1), WantFrom(Dht, 0)], turns) &&
            Retrieved(w) == Some(block)
  {
    hide Weave;
    var w := SlowDial(block, turns);
    var addrs := [false, false];
    assert addrs[1..] == [false] && addrs[1..][1..] == [];
    assert Dials(Dht, 0, addrs[1..], 1) == [Dial(Dht, 0, 1)] + [];
    assert Dials(Dht, 0, addrs, 0) == [Dial(Dht, 0, 0), Dial(Dht, 0, 1)];
    assert w.dht[1..] == [];
    assert Asks(Dht, w.dht, 0) == [Dial(Dht, 0, 0), Dial(Dht, 0, 1), WantFrom(Dht, 0)];
    assert Late(w) == [Dial(Dht, 0, 1), WantFrom(Dht, 0)];
    assert IPNIAsks(w) == [FetchIPNI];
    assert Later(w) == [FetchIPNI, FetchGateway];
    assert RaceAsks(w) == [Broadcast, FindProviders, Dial(Dht, 0, 0)];
  }

  // ---------------------------------------------------------------- after a success

  /** The block that a want or a fetch brought. */
  function Answer(w: World, x: Ask): Option<Bytes> {
    match x
    case Broadcast => w.broadcast
    case WantFrom(source, i) =>
      if source.Dht? then if i < |w.dht| then w.dht[i].want else None
      else if w.ipni.Some? && i < |InBudget(w.ipni.value)| then InBudget(w.ipni.value)[i].want else None
    case FetchGateway => w.gateway
    case _ => None
  }

  /** A want that something follows was in vain. */
  lemma FollowedIsVain(source: Source, providers: seq<Provider>, k: nat)
    requires k + 1 < |Asks(source, providers, 0)| && Asks(source, providers, 0)[k].WantFrom?
    ensures var x := Asks(source, providers, 0)[k]; x.provider < |providers| && providers[x.provider].want.None?
  {
    hide Asks;
    var asks := Asks(source, providers, 0);
    var x, y := asks[k], asks[k + 1];
    AsksInOrder(source, providers, 0);
    AsksWhen(source, providers, 0, x);
    AsksWhen(source, providers, 0, y);
    assert x in asks && y in asks && Before(x, y);
  }

  lemma LastOfAsks(source: Source, providers: seq<Provider>, k: nat)
    requires k < |Asks(source, providers, 0)|
    requires var x := Asks(source, providers, 0)[k];
             x.WantFrom? && x.provider < |providers| && providers[x.provider].want.Some?
    ensures k == |Asks(source, providers, 0)| - 1
  {
    hide Asks;
    if k + 1 < |Asks(source, providers, 0)| {
      FollowedIsVain(source, providers, k);
    }
  }

  lemma {:induction false} LastAnswers(source: Source, providers: seq<Provider>, first: nat)
    requires FirstWant(providers).Some?
    ensures var asks := Asks(source, providers, first);
            asks != [] &&
            var x := asks[|asks| - 1];
            x.WantFrom? && x.source == source && first <= x.provider < first + |providers| &&
            providers[x.provider - first].want == FirstWant(providers)
    decreases |providers|
  {
    hide Dials;
    var head := ProviderAsks(source, first, providers[0]);
    assert head != [] && head[|head| - 1] == WantFrom(source, first);
    hide ProviderAsks;
    if providers[0].want.None? {
      LastAnswers(source, providers[1..], first + 1);
      var tail := Asks(source, providers[1..], first + 1);
      assert (head + tail)[|head + tail| - 1] == tail[|tail| - 1];
    } else {
      Associative(head, [], []);
    }
  }

  lemma {:induction false} WantFound(providers: seq<Provider>, i: nat)
    requires i < |providers| && providers[i].want.Some?
    ensures FirstWant(providers).Some?
    decreases i
  {
    if i > 0 {
      WantFound(providers[1..], i - 1);
    }
  }

  /** A success in the get's own strand ends it: the broadcast's if it decides the race, a later one always. */
  lemma OwnCut(w: World, k: nat)
    requires k < |[Broadcast] + Later(w)|
    requires var x := ([Broadcast] + Later(w))[k]; Answer(w, x).Some? && (x == Broadcast ==> BroadcastFirst(w))
    ensures k == |Later(w)|
  {
    hide Asks, InBudget, FirstWant, IPNIAsks;
    if k == 0 {
      assert Later(w) == [];
    } else {
      hide Later;
      var x := Later(w)[k - 1];
      assert x == ([Broadcast] + Later(w))[k];
      OwnAsks(w, x);
      if x.WantFrom? {
        FromIPNI(w, k - 1);
      } else {
        GatewayIsLast(w, k - 1);
      }
    }
  }

  lemma FromIPNI(w: World, k: nat)
    requires k < |Later(w)| && Later(w)[k].WantFrom? && Later(w)[k].source.Ipni? && Answer(w, Later(w)[k]).Some?
    ensures k == |Later(w)| - 1
  {
    hide Asks, InBudget, FirstWant, RaceResult;
    var found := InBudget(w.ipni.value);
    WantFound(found, Later(w)[k].provider);
    assert IPNIResult(w).Some?;
    Associative(IPNIAsks(w), [], []);
    assert Later(w) == IPNIAsks(w);
    assert Later(w)[k] == Asks(Ipni, found, 0)[k - 1];
    LastOfAsks(Ipni, found, k - 1);
  }

  lemma GatewayIsLast(w: World, k: nat)
    requires k < |Later(w)| && Later(w)[k] == FetchGateway
    ensures k == |Later(w)| - 1
  {
    hide Asks, IPNIAsks, RaceResult, IPNIResult;
    IPNIInOrder(w);
    assert forall i | 0 <= i < |IPNIAsks(w)| :: IPNIAsks(w)[i] in IPNIAsks(w);
  }

  lemma LookupCut(w: World, k: nat)
    requires k < |[FindProviders] + Asks(Dht, w.dht, 0)|
    requires Answer(w, ([FindProviders] + Asks(Dht, w.dht, 0))[k]).Some?
    ensures k == |Asks(Dht, w.dht, 0)|
  {
    hide Asks, InBudget;
    if k > 0 {
      var x := Asks(Dht, w.dht, 0)[k - 1];
      AsksWhen(Dht, w.dht, 0, x);
      LastOfAsks(Dht, w.dht, k - 1);
    }
  }

  /**
   * Cut at the first success, strand by strand: once something that a strand asked has brought the block,
   * that strand asks nothing more; save that a broadcast which comes too late for the race stops nothing.
   */
  lemma NothingAfterSuccess(store: Store, cid: Cid, w: World, lookup: bool, k: nat)
    requires var strand := Strand(GetResult(store, cid, w).1.asked, lookup);
             k < |strand| && Answer(w, strand[k]).Some? && (strand[k] == Broadcast ==> BroadcastFirst(w))
    ensures k == |Strand(GetResult(store, cid, w).1.asked, lookup)| - 1
  {
    hide Asks, Later, Strand, AllAsks, Answer, RaceResult;
    NoStrand(lookup);
    StrandsOfGet(w);
    if lookup {
      LookupCut(w, k);
    } else {
      OwnCut(w, k);
    }
  }

  lemma NoStrand(lookup: bool)
    ensures Strand([], lookup) == []
  {
  }

  lemma LastOfLater(w: World)
    requires RaceResult(w).None? && (IPNIResult(w).Some? || w.gateway.Some?)
    ensures Later(w) != [] && Answer(w, Later(w)[|Later(w)| - 1]) == Retrieved(w)
  {
    hide Asks, FirstWant, InBudget, RaceResult;
    Associative(IPNIAsks(w), [], []);
    if IPNIResult(w).Some? {
      LastAnswers(Ipni, InBudget(w.ipni.value), 0);
    }
  }

  lemma LastOfLookup(w: World)
    requires !BroadcastFirst(w) && RaceResult(w).Some?
    ensures var asks := Asks(Dht, w.dht, 0);
            asks != [] && Answer(w, asks[|asks| - 1]) == RaceResult(w)
  {
    hide Asks, FirstWant;
    LastAnswers(Dht, w.dht, 0);
  }

  /** The block a get yields from the network is the answer to the last ask of the strand that won. */
  lemma YieldsTheLastAnswer(store: Store, cid: Cid, w: World)
    requires Local(store, cid, w).end.Miss? && GetResult(store, cid, w).1.ending.Returned?
    ensures var r := GetResult(store, cid, w).1;
            var strand := Strand(r.asked, !BroadcastFirst(w) && RaceResult(w).Some?);
            r.yielded != [] && strand != [] &&
            Answer(w, strand[|strand| - 1]) == Some(r.yielded[|r.yielded| - 1])
  {
    StrandsOfGet(w);
    if RaceResult(w).Some? {
      if BroadcastFirst(w) {
        assert Later(w) == [];
      } else {
        LastOfLookup(w);
      }
    } else {
      LastOfLater(w);
    }
    hide Asks, Strand, AllAsks, IPNIResult, Later;
  }
}
