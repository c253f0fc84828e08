/**
 * The race of `src/blockstore-network.ts:109-113` over Bitswap itself: the broadcast's want and the wants
 * that the provider look-up makes are wants for one CID, and share a deferred while it is pending.
 */
module Race {
  import opened Basics
  import opened Cids
  import opened Codec
  import CodecLaws
  import Wants
  import NetworkStore

  /** One provider of the look-up: what happens before its want is made, and while it is awaited. */
  datatype Attempt = Attempt(before: seq<Wants.Step>, during: seq<Wants.Step>)

  /** The deferred that a want for the CID gets. */
  function Gets(lib: Library, s: Wants.State, cid: Cid): nat {
    if lib.name(cid) in s.pending then s.pending[lib.name(cid)] else |s.deferreds|
  }

  function AtWant(lib: Library, s: Wants.State, a: Attempt): Wants.State {
    Wants.Run(lib, s, a.before)
  }

  function AfterAttempt(lib: Library, s: Wants.State, a: Attempt, cid: Cid): Wants.State {
    Wants.Run(lib, Wants.AfterWant(lib, AtWant(lib, s, a), cid), a.during)
  }

  function AfterAll(lib: Library, s: Wants.State, attempts: seq<Attempt>, cid: Cid): Wants.State
    decreases |attempts|
  {
    if attempts == [] then s else AfterAll(lib, AfterAttempt(lib, s, attempts[0], cid), attempts[1..], cid)
  }

  predicate Rejected(s: Wants.State, d: nat) {
    d < |s.deferreds| && s.deferreds[d].outcome.Rejected?
  }

  predicate Unsettled(s: Wants.State, d: nat) {
    d < |s.deferreds| && s.deferreds[d].outcome.Open?
  }

  /** Every attempt ends with its want rejected: the look-up comes to its end with nothing. */
  predicate AllFail(lib: Library, s: Wants.State, attempts: seq<Attempt>, cid: Cid)
    decreases |attempts|
  {
    attempts != [] ==>
      Rejected(AfterAttempt(lib, s, attempts[0], cid), Gets(lib, AtWant(lib, s, attempts[0]), cid)) &&
      AllFail(lib, AfterAttempt(lib, s, attempts[0], cid), attempts[1..], cid)
  }

  /** Whenever a want is made, a handler has taken `d` and awaits the put of its block. */
  ghost predicate AlwaysTaken(lib: Library, s: Wants.State, attempts: seq<Attempt>, cid: Cid, d: nat)
    decreases |attempts|
  {
    attempts != [] ==>
      Wants.Held(AtWant(lib, s, attempts[0]), d) &&
      AlwaysTaken(lib, AfterAttempt(lib, s, attempts[0], cid), attempts[1..], cid, d)
  }

  // ---------------------------------------------------------------- settled for good

  lemma SettledStep(lib: Library, s: Wants.State, step: Wants.Step, d: nat)
    requires d < |s.deferreds|
    ensures var t := Wants.Do(lib, s, step);
            d < |t.deferreds| && t.deferreds[d].cid == s.deferreds[d].cid &&
            (!s.deferreds[d].outcome.Open? ==> t.deferreds[d] == s.deferreds[d])
  {
    hide PrefixToCid;
  }

  lemma {:induction false} SettledStays(lib: Library, s: Wants.State, steps: seq<Wants.Step>, d: nat)
    requires d < |s.deferreds|
    ensures var t := Wants.Run(lib, s, steps);
            d < |t.deferreds| && t.deferreds[d].cid == s.deferreds[d].cid &&
            (!s.deferreds[d].outcome.Open? ==> t.deferreds[d] == s.deferreds[d])
    decreases |steps|
  {
    hide Wants.Do;
    if steps != [] {
      SettledStep(lib, s, steps[0], d);
      SettledStays(lib, Wants.Do(lib, s, steps[0]), steps[1..], d);
    }
  }

  lemma OneAttempt(lib: Library, s: Wants.State, a: Attempt, cid: Cid, d: nat)
    requires lib.Lawful() && Wants.Valid(lib, s) && d < |s.deferreds|
    ensures var at, t := AtWant(lib, s, a), AfterAttempt(lib, s, a, cid);
            Wants.Valid(lib, at) && Wants.Valid(lib, t) && d < |at.deferreds| && d < |t.deferreds| &&
            at.deferreds[d].cid == t.deferreds[d].cid == s.deferreds[d].cid &&
            (Unsettled(t, d) ==> Unsettled(at, d)) && (Unsettled(at, d) ==> Unsettled(s, d))
  {
    hide Wants.Run, Wants.Do, Wants.Valid;
    var at := AtWant(lib, s, a);
    var wanted := Wants.AfterWant(lib, at, cid);
    Wants.RunKeeps(lib, s, a.before);
    SettledStays(lib, s, a.before, d);
    Wants.WantKeeps(lib, at, cid);
    Wants.RunKeeps(lib, wanted, a.during);
    SettledStays(lib, wanted, a.during, d);
  }

  lemma {:induction false} UnsettledBefore(lib: Library, s: Wants.State, attempts: seq<Attempt>, cid: Cid, d: nat)
    requires lib.Lawful() && Wants.Valid(lib, s) && d < |s.deferreds|
    requires Unsettled(AfterAll(lib, s, attempts, cid), d)
    ensures Unsettled(s, d)
    decreases |attempts|
  {
    hide AfterAttempt, AtWant, Wants.Valid;
    if attempts != [] {
      OneAttempt(lib, s, attempts[0], cid, d);
      UnsettledBefore(lib, AfterAttempt(lib, s, attempts[0], cid), attempts[1..], cid, d);
    }
  }

  // ---------------------------------------------------------------- who can lose to whom

  /** A want made while `d` is unsettled shares `d`, unless a handler has taken it. */
  lemma SharedUnlessTaken(lib: Library, s: Wants.State, cid: Cid, d: nat)
    requires Wants.Valid(lib, s) && Unsettled(s, d) && s.deferreds[d].cid == cid
    ensures Gets(lib, s, cid) == d || Wants.Held(s, d)
  {
  }

  /**
   * While the broadcast's want is unsettled, a want of the look-up can fail only if a block that answers
   * it had come in before and its put was awaited.
   */
  lemma {:induction false} FailedMeansTaken(
      lib: Library, s: Wants.State, attempts: seq<Attempt>, cid: Cid, d: nat)
    requires lib.Lawful() && Wants.Valid(lib, s) && d < |s.deferreds| && s.deferreds[d].cid == cid
    requires AllFail(lib, s, attempts, cid) && Unsettled(AfterAll(lib, s, attempts, cid), d)
    ensures AlwaysTaken(lib, s, attempts, cid, d)
    decreases |attempts|
  {
    hide AfterAttempt, AtWant, Wants.Valid, Wants.Held, Gets;
    if attempts != [] {
      var a := attempts[0];
      var t := AfterAttempt(lib, s, a, cid);
      OneAttempt(lib, s, a, cid, d);
      UnsettledBefore(lib, t, attempts[1..], cid, d);
      SharedUnlessTaken(lib, AtWant(lib, s, a), cid, d);
      FailedMeansTaken(lib, t, attempts[1..], cid, d);
    }
  }

  /** Between its want and the end of the look-up, nobody takes `d`. */
  ghost predicate NeverTaken(lib: Library, s: Wants.State, attempts: seq<Attempt>, cid: Cid, d: nat)
    decreases |attempts|
  {
    attempts != [] ==>
      !Wants.Held(AtWant(lib, s, attempts[0]), d) &&
      NeverTaken(lib, AfterAttempt(lib, s, attempts[0], cid), attempts[1..], cid, d)
  }

  /**
   * The world of a get is what Bitswap makes of its race: a look-up that settles first with nothing has
   * made one want per provider, all of them rejected with the broadcast's want `d` still unsettled.
   */
  predicate Realises(
      lib: Library, w: NetworkStore.World, s: Wants.State, attempts: seq<Attempt>, cid: Cid, d: nat)
  {
    !NetworkStore.BroadcastFirst(w) && NetworkStore.FirstWant(w.dht).None? ==>
      |attempts| == |w.dht| && AllFail(lib, s, attempts, cid) && Unsettled(AfterAll(lib, s, attempts, cid), d)
  }

  /**
   * The race loses a block that the broadcast brings later exactly when the look-up comes to its end first
   * without having found any provider; save that a put of the block is already awaited.
   */
  lemma RaceLosesIff(
      lib: Library, w: NetworkStore.World, s: Wants.State, attempts: seq<Attempt>, cid: Cid, d: nat)
    requires lib.Lawful() && Wants.Valid(lib, s) && d < |s.deferreds| && s.deferreds[d].cid == cid
    requires w.broadcast.Some? && Realises(lib, w, s, attempts, cid, d) && NeverTaken(lib, s, attempts, cid, d)
    ensures NetworkStore.RaceResult(w).None? <==> !NetworkStore.BroadcastFirst(w) && w.dht == []
  {
    hide AllFail, AfterAll, NetworkStore.Asks, Wants.Valid;
    if NetworkStore.RaceResult(w).None? {
      FailedMeansTaken(lib, s, attempts, cid, d);
      hide NetworkStore.BroadcastFirst;
      assert attempts == [];
    }
  }

  // ---------------------------------------------------------------- the exception

  /** The block comes in; while its put is awaited, the look-up wants it once more, and that want times out. */
  function SlowPut(lib: Library, data: Bytes): Attempt {
    var cid := Cid(1, 0x55, SHA2_256, lib.sha256(data));
    Attempt([Wants.Deliver(Wants.Source(0, 0), Decoded([], [Block(Prefix(cid), data)])), Wants.HashDone(0)],
            [Wants.Abort(1)])
  }

  /** Then the look-up fails first, with a provider found, and the broadcast's want is resolved all the same. */
  lemma SlowPutLosesTheRace(lib: Library, data: Bytes)
    requires lib.Lawful()
    ensures var cid := Cid(1, 0x55, SHA2_256, lib.sha256(data));
            var s := Wants.AfterWant(lib, Wants.Start(map[]), cid);
            var attempts := [SlowPut(lib, data)];
            var t := AfterAll(lib, s, attempts, cid);
            AllFail(lib, s, attempts, cid) && Unsettled(t, 0) &&
            var u := Wants.AfterPut(t, 0, true);
            u.deferreds[0].outcome == Wants.Resolved(data)
  {
    hide Prefix, PrefixToCid;
    var cid := Cid(1, 0x55, SHA2_256, lib.sha256(data));
    var block := Block(Prefix(cid), data);
    var a := SlowPut(lib, data);
    CodecLaws.BlockIdentity(lib, cid, data);
    var s := Wants.AfterWant(lib, Wants.Start(map[]), cid);
    var s1 := Wants.Do(lib, s, a.before[0]);
    var s2 := Wants.Do(lib, s1, a.before[1]);
    assert s1.handlers == [Wants.Handler(Wants.Source(0, 0), Decoded([], [block]), [block], Wants.Hashing)];
    assert Wants.Answered(lib, s1, block) == Some((cid, 0));
    assert [block][1..] == [];
    assert s2.handlers == [Wants.Handler(Wants.Source(0, 0), Decoded([], [block]), [], Wants.Putting(cid, data, 0))];
    var s3 := Wants.AfterWant(lib, s2, cid);
    assert s3.deferreds == [Wants.Deferred(cid, Wants.Open), Wants.Deferred(cid, Wants.Open)];
    var s4 := Wants.Do(lib, s3, Wants.Abort(1));
    assert AtWant(lib, s, a) == s2 && AfterAttempt(lib, s, a, cid) == s4 by {
      hide Wants.Do;
      assert a.before[1..] == [a.before[1]] && a.before[1..][1..] == [] && a.during[1..] == [];
      assert Wants.Run(lib, s, a.before) == Wants.Run(lib, s1, a.before[1..]) == Wants.Run(lib, s2, []);
      assert Wants.Run(lib, s3, a.during) == Wants.Run(lib, s4, []);
    }
    assert [a][1..] == [];
    assert AfterAll(lib, s, [a], cid) == AfterAll(lib, s4, [], cid) == s4;
  }
}
