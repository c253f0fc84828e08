/** Backup peers: `src/backup-bootstrap/selector.ts` and the save rounds of `src/backup-bootstrap/index.ts`. */
module Backup {
  import opened Basics

  const MAX_BACKUP_PEERS: nat := 20

  /** A multiaddress; `peerId` is what `getPeerId()` gives. */
  datatype Addr = Addr(text: string, peerId: Option<string>)

  function Ids(addrs: seq<Addr>): set<string> {
    set a | a in addrs && a.peerId.Some? :: a.peerId.value
  }

  predicate IsOfficial(a: Addr, official: set<string>) {
    a.peerId.Some? && a.peerId.value in official
  }

  function Filtered(addrs: seq<Addr>, official: set<string>): seq<Addr> {
    if addrs == [] then []
    else (if IsOfficial(addrs[0], official) then [] else [addrs[0]]) + Filtered(addrs[1..], official)
  }

  /** What backfill adds to a result of length `len` whose ids are `ids`. */
  function Backfill(saved: seq<Addr>, len: nat, ids: set<string>, max: nat): seq<Addr>
    decreases |saved|
  {
    if saved == [] || len >= max then []
    else
      var a := saved[0];
      if a.peerId.Some? && a.peerId.value !in ids
      then [a] + Backfill(saved[1..], len + 1, ids + {a.peerId.value}, max)
      else Backfill(saved[1..], len, ids, max)
  }

  /** The selection, with the order the shuffle gave. */
  function Selected(shuffled: seq<Addr>, official: set<string>, saved: seq<Addr>, max: nat): seq<Addr> {
    if shuffled == [] then []
    else
      var first := Upto(Filtered(shuffled, official), max);
      first + Backfill(saved, |first|, Ids(first), max)
  }

  lemma IdsSnoc(addrs: seq<Addr>, a: Addr)
    ensures Ids(addrs + [a]) == Ids(addrs) + (if a.peerId.Some? then {a.peerId.value} else {})
  {
    assert forall x :: x in addrs + [a] <==> x in addrs || x == a;
  }

  lemma {:induction false} FilteredSnoc(addrs: seq<Addr>, a: Addr, official: set<string>)
    ensures Filtered(addrs + [a], official)
         == Filtered(addrs, official) + (if IsOfficial(a, official) then [] else [a])
    decreases |addrs|
  {
    hide Filtered, IsOfficial;
    NoneFiltered(official);
    var last := if IsOfficial(a, official) then [] else [a];
    if addrs == [] {
      FilteredCons(a, [], official);
      assert addrs + [a] == [a] + [] && [] + last == last == last + [];
    } else {
      var head, tail := addrs[0], addrs[1..];
      var first := if IsOfficial(head, official) then [] else [head];
      assert addrs == [head] + tail && addrs + [a] == [head] + (tail + [a]);
      FilteredCons(head, tail, official);
      FilteredCons(head, tail + [a], official);
      FilteredSnoc(tail, a, official);
      assert first + (Filtered(tail, official) + last) == (first + Filtered(tail, official)) + last;
    }
  }

  lemma NoneFiltered(official: set<string>)
    ensures Filtered([], official) == []
  {
  }

  lemma FilteredCons(head: Addr, tail: seq<Addr>, official: set<string>)
    ensures Filtered([head] + tail, official)
         == (if IsOfficial(head, official) then [] else [head]) + Filtered(tail, official)
  {
    hide IsOfficial;
    assert ([head] + tail)[1..] == tail;
  }

  /** The loops that collect peer ids in a set. */
  method PeerIds(addrs: seq<Addr>) returns (ids: set<string>)
    ensures ids == Ids(addrs)
  {
    ids := {};
    for i := 0 to |addrs|
      invariant ids == Ids(addrs[..i])
    {
      assert addrs[..i + 1] == addrs[..i] + [addrs[i]];
      IdsSnoc(addrs[..i], addrs[i]);
      if addrs[i].peerId.Some? {
        ids := ids + {addrs[i].peerId.value};
      }
    }
    assert addrs[..|addrs|] == addrs;
  }

  /** The filter callback's loop. */
  method WithoutOfficial(addrs: seq<Addr>, official: set<string>) returns (filtered: seq<Addr>)
    ensures filtered == Filtered(addrs, official)
  {
    filtered := [];
    for i := 0 to |addrs|
      invariant filtered == Filtered(addrs[..i], official)
    {
      assert addrs[..i + 1] == addrs[..i] + [addrs[i]];
      FilteredSnoc(addrs[..i], addrs[i], official);
      if addrs[i].peerId.None? || addrs[i].peerId.value !in official {
        filtered := filtered + [addrs[i]];
      }
    }
    assert addrs[..|addrs|] == addrs;
  }

  /** `selectPeersToSave`; `shuffled` is the outcome of sorting `connected` with a random comparator. */
  method SelectPeersToSave(
      connected: seq<Addr>, officialBootstrap: seq<Addr>, previouslySaved: seq<Addr>, max: nat, shuffled: seq<Addr>)
    returns (result: seq<Addr>)
    requires multiset(shuffled) == multiset(connected)
    ensures result == Selected(shuffled, Ids(officialBootstrap), previouslySaved, max)
  {
    hide Ids, Filtered;
    assert |multiset(shuffled)| == |multiset(connected)|;
    if |connected| == 0 {
      return [];
    }
    var officialPeerIds := PeerIds(officialBootstrap);
    var filtered := WithoutOfficial(shuffled, officialPeerIds);
    result := if max <= |filtered| then filtered[..max] else filtered;
    ghost var first := result;
    ghost var goal := first + Backfill(previouslySaved, |first|, Ids(first), max);
    if |result| < max && |previouslySaved| > 0 {
      var previousPeerIds := PeerIds(result);
      assert previouslySaved[0..] == previouslySaved;
      for i := 0 to |previouslySaved|
        invariant result + Backfill(previouslySaved[i..], |result|, previousPeerIds, max) == goal
      {
        if |result| >= max {
          break;
        }
        var addr := previouslySaved[i];
        assert previouslySaved[i..][1..] == previouslySaved[i + 1..];
        if addr.peerId.Some? && addr.peerId.value !in previousPeerIds {
          ghost var ids := previousPeerIds + {addr.peerId.value};
          ghost var more := Backfill(previouslySaved[i + 1..], |result| + 1, ids, max);
          assert result + ([addr] + more) == (result + [addr]) + more;
          result := result + [addr];
          previousPeerIds := previousPeerIds + {addr.peerId.value};
        }
      }
      assert result + [] == result;
    } else {
      assert first + [] == first;
    }
  }

  // ---------------------------------------------------------------- exact count

  /** Backfilled peers have ids, pairwise distinct and not among those already chosen. */
  lemma {:induction false} BackfillIsFresh(saved: seq<Addr>, len: nat, ids: set<string>, max: nat)
    ensures var more := Backfill(saved, len, ids, max);
            (forall a | a in more :: a in saved && a.peerId.Some? && a.peerId.value !in ids) &&
            (forall i, j | 0 <= i < j < |more| :: more[i].peerId != more[j].peerId)
    decreases |saved|
  {
    if saved != [] && len < max {
      var a := saved[0];
      if a.peerId.Some? && a.peerId.value !in ids {
        BackfillIsFresh(saved[1..], len + 1, ids + {a.peerId.value}, max);
        var rest := Backfill(saved[1..], len + 1, ids + {a.peerId.value}, max);
        assert forall j | 0 <= j < |rest| :: rest[j] in rest;
      } else {
        BackfillIsFresh(saved[1..], len, ids, max);
      }
    }
  }

  function Min(a: nat, b: nat): nat {
    if a <= b then a else b
  }

  lemma {:induction false} BackfillCount(saved: seq<Addr>, len: nat, ids: set<string>, max: nat)
    requires len <= max
    ensures len + |Backfill(saved, len, ids, max)| == Min(max, len + |Ids(saved) - ids|)
    decreases |saved|
  {
    hide Ids;
    NoIds();
    if saved != [] {
      var a, tail := saved[0], saved[1..];
      assert saved == [a] + tail;
      IdsCons(a, tail);
      if a.peerId.Some? && a.peerId.value !in ids {
        var id := a.peerId.value;
        NewId(Ids(tail), ids, id);
        if len < max {
          BackfillCount(tail, len + 1, ids + {id}, max);
        }
      } else {
        assert Ids(saved) - ids == Ids(tail) - ids;
        BackfillCount(tail, len, ids, max);
      }
    }
  }

  lemma NoIds()
    ensures Ids([]) == {}
  {
  }

  lemma NewId(all: set<string>, ids: set<string>, id: string)
    requires id !in ids
    ensures |(all + {id}) - ids| == |all - (ids + {id})| + 1
  {
    assert (all + {id}) - ids == (all - (ids + {id})) + {id};
  }

  lemma IdsCons(a: Addr, tail: seq<Addr>)
    ensures Ids([a] + tail) == Ids(tail) + (if a.peerId.Some? then {a.peerId.value} else {})
  {
    assert forall x :: x in [a] + tail <==> x in tail || x == a;
  }

  /**
   * Exact backfill count: for any non-empty list of connections in any order, the result has the
   * maximum length, or one entry per connection that is not official plus one per distinct saved id
   * that none of those has; and the backfilled ids are pairwise distinct and new.
   */
  lemma ExactCount(shuffled: seq<Addr>, official: set<string>, saved: seq<Addr>, max: nat)
    requires shuffled != []
    ensures var filtered := Filtered(shuffled, official);
            var result := Selected(shuffled, official, saved, max);
            var chosen := Upto(filtered, max);
            |result| == Min(max, |filtered| + |Ids(saved) - Ids(filtered)|) &&
            chosen <= result &&
            (forall i | |chosen| <= i < |result| ::
               result[i] in saved && result[i].peerId.Some? && result[i].peerId.value !in Ids(chosen)) &&
            (forall i, j | |chosen| <= i < j < |result| :: result[i].peerId != result[j].peerId)
  {
    hide Ids, Filtered, Backfill;
    var filtered := Filtered(shuffled, official);
    var chosen := Upto(filtered, max);
    var more := Backfill(saved, |chosen|, Ids(chosen), max);
    var result := Selected(shuffled, official, saved, max);
    BackfillIsFresh(saved, |chosen|, Ids(chosen), max);
    BackfillCount(saved, |chosen|, Ids(chosen), max);
    assert result == chosen + more;
    TailIsMore(chosen, more);
    hide Selected, Upto;
    forall i | |chosen| <= i < |result|
      ensures result[i] in saved && result[i].peerId.Some? && result[i].peerId.value !in Ids(chosen)
    {
      assert result[i] in more;
    }
    forall i, j | |chosen| <= i < j < |result|
      ensures result[i].peerId != result[j].peerId
    {
      assert result[i] == more[i - |chosen|] && result[j] == more[j - |chosen|];
    }
  }

  lemma TailIsMore<T>(a: seq<T>, b: seq<T>)
    ensures forall i | |a| <= i < |a + b| :: (a + b)[i] == b[i - |a|] && (a + b)[i] in b
  {
  }

  // ---------------------------------------------------------------- rounds

  /**
   * The stretches between awaits.  A round computes its list and hands it to the datastore; the put
   * ends, well or badly, and the round feeds its list to the next.  The startup load reads, then its
   * promise resolves.  Rounds and the load may overlap.
   */
  datatype Event =
    | RoundStarts(shuffled: seq<Addr>)
    | SaveEnds(round: nat, stored: bool)
    | LoadReads(ok: bool)
    | LoadEnds
    | Stop

  /** `saves` lists what each round handed over so far; `loaded` is what the startup load has read. */
  datatype State = State(
    previouslySaved: seq<Addr>, stopped: bool, stored: seq<Addr>, saves: seq<seq<Addr>>, loaded: seq<Addr>)

  function After(official: set<string>, s: State, event: Event): State {
    match event
    case RoundStarts(shuffled) =>
      if s.stopped then s
      else s.(saves := s.saves + [Selected(shuffled, official, s.previouslySaved, MAX_BACKUP_PEERS)])
    case SaveEnds(i, stored) =>
      if i >= |s.saves| then s
      else s.(previouslySaved := s.saves[i], stored := if stored then s.saves[i] else s.stored)
    case LoadReads(ok) => s.(loaded := if ok then s.stored else [])
    case LoadEnds => s.(previouslySaved := s.loaded)
    case Stop => s.(stopped := true)
  }

  function Run(official: set<string>, s: State, events: seq<Event>): State
    decreases |events|
  {
    if events == [] then s else Run(official, After(official, s, events[0]), events[1..])
  }

  predicate Clean(addrs: seq<Addr>, official: set<string>) {
    forall a | a in addrs :: !IsOfficial(a, official)
  }

  /** The entries of a saved list that a round can reach: the first ones of twenty distinct peer ids. */
  function Reachable(saved: seq<Addr>): seq<Addr> {
    Backfill(saved, 0, {}, MAX_BACKUP_PEERS)
  }

  predicate RoundsOk(s: State, official: set<string>) {
    Clean(Reachable(s.previouslySaved), official) && Clean(Reachable(s.stored), official) &&
    Clean(Reachable(s.loaded), official) &&
    forall saved | saved in s.saves :: Clean(saved, official)
  }

  lemma {:induction false} FilteredIsClean(addrs: seq<Addr>, official: set<string>)
    ensures Clean(Filtered(addrs, official), official)
    ensures forall a | a in Filtered(addrs, official) :: a in addrs
  {
    if addrs != [] {
      FilteredIsClean(addrs[1..], official);
    }
  }

  lemma {:induction false} FewIds(addrs: seq<Addr>)
    ensures |Ids(addrs)| <= |addrs|
  {
    if addrs != [] {
      assert addrs == [addrs[0]] + addrs[1..];
      IdsCons(addrs[0], addrs[1..]);
      FewIds(addrs[1..]);
    }
  }

  lemma BackfillUnfold(saved: seq<Addr>, len: nat, ids: set<string>, max: nat)
    ensures Backfill(saved, len, ids, max) ==
      if saved == [] || len >= max then []
      else if saved[0].peerId.Some? && saved[0].peerId.value !in ids
      then [saved[0]] + Backfill(saved[1..], len + 1, ids + {saved[0].peerId.value}, max)
      else Backfill(saved[1..], len, ids, max)
  {
  }

  /** Skipping more ids, at the cost of as much room, never reaches further down the list. */
  lemma {:induction false} BackfillNested(
      saved: seq<Addr>, len: nat, ids: set<string>, fewer: nat, some: set<string>, max: nat)
    requires some <= ids && fewer + |ids - some| <= len
    ensures forall a | a in Backfill(saved, len, ids, max) :: a in Backfill(saved, fewer, some, max)
    decreases |saved|
  {
    hide Backfill;
    BackfillUnfold(saved, len, ids, max);
    BackfillUnfold(saved, fewer, some, max);
    if saved != [] && len < max {
      var a, tail := saved[0], saved[1..];
      if a.peerId.Some? && a.peerId.value !in ids {
        var id := a.peerId.value;
        assert (ids + {id}) - (some + {id}) == ids - some;
        BackfillNested(tail, len + 1, ids + {id}, fewer + 1, some + {id}, max);
      } else if a.peerId.Some? && a.peerId.value !in some {
        var id := a.peerId.value;
        assert ids - some == (ids - (some + {id})) + {id};
        BackfillNested(tail, len, ids, fewer + 1, some + {id}, max);
      } else {
        BackfillNested(tail, len, ids, fewer, some, max);
      }
    }
  }

  /** One round saves an official peer only if the list it starts from has one within reach. */
  lemma SelectedIsClean(shuffled: seq<Addr>, official: set<string>, saved: seq<Addr>)
    requires Clean(Reachable(saved), official)
    ensures Clean(Selected(shuffled, official, saved, MAX_BACKUP_PEERS), official)
  {
    if shuffled != [] {
      FilteredIsClean(shuffled, official);
      var chosen := Upto(Filtered(shuffled, official), MAX_BACKUP_PEERS);
      assert forall a | a in chosen :: a in Filtered(shuffled, official);
      FewIds(chosen);
      assert Ids(chosen) - {} == Ids(chosen);
      BackfillNested(saved, |chosen|, Ids(chosen), 0, {}, MAX_BACKUP_PEERS);
    }
  }

  lemma ReachableIsPart(saved: seq<Addr>)
    ensures forall a | a in Reachable(saved) :: a in saved
  {
    BackfillIsFresh(saved, 0, {}, MAX_BACKUP_PEERS);
  }

  lemma {:induction false} RunStaysClean(official: set<string>, s: State, events: seq<Event>)
    requires RoundsOk(s, official)
    ensures RoundsOk(Run(official, s, events), official)
    decreases |events|
  {
    if events != [] {
      var t := After(official, s, events[0]);
      assert RoundsOk(t, official) by {
        match events[0] {
          case RoundStarts(shuffled) => SelectedIsClean(shuffled, official, s.previouslySaved);
          case SaveEnds(i, _) =>
            if i < |s.saves| {
              assert s.saves[i] in s.saves;
              ReachableIsPart(s.saves[i]);
            }
          case LoadReads(_) => ReachableIsPart([]);
          case LoadEnds =>
          case Stop =>
        }
      }
      RunStaysClean(official, t, events[1..]);
    }
  }

  /** A node that has just started over a datastore's list. */
  function Fresh(stored: seq<Addr>): State {
    State([], false, stored, [], [])
  }

  predicate SavesOfficial(stored: seq<Addr>, official: set<string>, events: seq<Event>) {
    exists saved | saved in Run(official, Fresh(stored), events).saves :: !Clean(saved, official)
  }

  /**
   * Saved backups stay clean exactly as far as the first list was: some run, with overlapping loads and
   * rounds, failed saves and a stop anywhere in it, saves an official bootstrap peer if and only if the
   * initially stored list has one within reach of a backfill.
   */
  lemma SavesOfficialIff(stored: seq<Addr>, official: set<string>)
    ensures (exists events :: SavesOfficial(stored, official, events)) <==> !Clean(Reachable(stored), official)
  {
    if Clean(Reachable(stored), official) {
      forall events
        ensures !SavesOfficial(stored, official, events)
      {
        RunStaysClean(official, Fresh(stored), events);
      }
    } else {
      var a :| a in Reachable(stored) && IsOfficial(a, official);
      OnlyOfficialConnected(stored, official, a);
    }
  }

  /** With an official peer as the one connection, a round saves all that a backfill can reach. */
  lemma OnlyOfficialConnected(stored: seq<Addr>, official: set<string>, a: Addr)
    requires a in Reachable(stored) && IsOfficial(a, official)
    ensures SavesOfficial(stored, official, [LoadReads(true), LoadEnds, RoundStarts([a])])
  {
    hide Backfill, Clean;
    var events := [LoadReads(true), LoadEnds, RoundStarts([a])];
    var loaded := Fresh(stored).(loaded := stored, previouslySaved := stored);
    var saved := After(official, loaded, events[2]);
    NoIds();
    assert [a][1..] == [] && Filtered([a], official) == [];
    assert [] + Reachable(stored) == Reachable(stored);
    assert Selected([a], official, stored, MAX_BACKUP_PEERS) == Reachable(stored);
    assert saved.saves == [Reachable(stored)];
    hide Selected, Filtered;
    assert events[1..][1..] == [events[2]] && [events[2]][1..] == [];
    assert Run(official, loaded, [events[2]]) == Run(official, saved, []);
    assert Run(official, Fresh(stored), events) == Run(official, loaded, [events[2]]);
    assert Reachable(stored) in saved.saves;
    NotClean(Reachable(stored), official, a);
  }

  lemma NotClean(addrs: seq<Addr>, official: set<string>, a: Addr)
    requires a in addrs && IsOfficial(a, official)
    ensures !Clean(addrs, official)
  {
  }

  /** In particular no run ever saves an official peer when the initial list names none. */
  lemma CleanStartStaysClean(stored: seq<Addr>, official: set<string>, events: seq<Event>)
    requires Clean(stored, official)
    ensures !SavesOfficial(stored, official, events)
  {
    ReachableIsPart(stored);
    SavesOfficialIff(stored, official);
  }

  lemma SelectedIsShort(shuffled: seq<Addr>, official: set<string>, saved: seq<Addr>)
    ensures |Selected(shuffled, official, saved, MAX_BACKUP_PEERS)| <= MAX_BACKUP_PEERS
  {
    hide Ids, Filtered, Backfill;
    if shuffled != [] {
      var chosen := Upto(Filtered(shuffled, official), MAX_BACKUP_PEERS);
      BackfillCount(saved, |chosen|, Ids(chosen), MAX_BACKUP_PEERS);
    }
  }

  /** Every list a run saves has at most twenty entries. */
  lemma {:induction false} SavesAreShort(official: set<string>, s: State, events: seq<Event>)
    requires forall saved | saved in s.saves :: |saved| <= MAX_BACKUP_PEERS
    ensures forall saved | saved in Run(official, s, events).saves :: |saved| <= MAX_BACKUP_PEERS
    decreases |events|
  {
    if events != [] {
      var t := After(official, s, events[0]);
      if events[0].RoundStarts? {
        SelectedIsShort(events[0].shuffled, official, s.previouslySaved);
      }
      hide Selected;
      SavesAreShort(official, t, events[1..]);
    }
  }

  // ---------------------------------------------------------------- what each round owes

  /** The filter keeps exactly the connections that are not official, as often as they occur. */
  lemma {:induction false} FilterKeeps(addrs: seq<Addr>, official: set<string>, a: Addr)
    ensures multiset(Filtered(addrs, official))[a] == if IsOfficial(a, official) then 0 else multiset(addrs)[a]
  {
    if addrs != [] {
      FilterKeeps(addrs[1..], official, a);
      assert addrs == [addrs[0]] + addrs[1..];
    }
  }

  /** Without a connection nothing is selected, whatever was saved before. */
  lemma NoConnectionsNothing(official: set<string>, saved: seq<Addr>, max: nat)
    ensures Selected([], official, saved, max) == []
  {
  }

  /** The event leaves the list that the next round starts from. */
  predicate KeepsSaved(event: Event) {
    !event.SaveEnds? && !event.LoadEnds?
  }

  /**
   * A save feeds the next round, whether or not the datastore took it: until another save or load ends,
   * every round that starts selects from the list just saved.
   */
  lemma {:induction false} SaveFeedsNextRound(
      official: set<string>, s: State, i: nat, stored: bool, between: seq<Event>, shuffled: seq<Addr>)
    requires i < |s.saves| && forall e | e in between :: KeepsSaved(e)
    ensures var t := Run(official, After(official, s, SaveEnds(i, stored)), between);
            After(official, t, RoundStarts(shuffled)).saves ==
              t.saves + (if t.stopped then [] else [Selected(shuffled, official, s.saves[i], MAX_BACKUP_PEERS)])
  {
    hide Selected;
    KeptThroughout(official, After(official, s, SaveEnds(i, stored)), between);
  }

  lemma {:induction false} KeptThroughout(official: set<string>, s: State, events: seq<Event>)
    requires forall e | e in events :: KeepsSaved(e)
    ensures Run(official, s, events).previouslySaved == s.previouslySaved
    decreases |events|
  {
    if events != [] {
      hide Selected;
      assert events[0] in events;
      KeptThroughout(official, After(official, s, events[0]), events[1..]);
    }
  }

  /** What the datastore took is what a load that succeeds brings to the next round, until another save ends. */
  lemma {:induction false} StoredIsLoaded(official: set<string>, s: State, i: nat, between: seq<Event>)
    requires i < |s.saves| && forall e | e in between :: !e.SaveEnds?
    ensures var t := Run(official, After(official, s, SaveEnds(i, true)), between);
            After(official, After(official, t, LoadReads(true)), LoadEnds).previouslySaved == s.saves[i] &&
            After(official, After(official, t, LoadReads(false)), LoadEnds).previouslySaved == []
  {
    hide Selected;
    StoredThroughout(official, After(official, s, SaveEnds(i, true)), between);
  }

  lemma {:induction false} StoredThroughout(official: set<string>, s: State, events: seq<Event>)
    requires forall e | e in events :: !e.SaveEnds?
    ensures Run(official, s, events).stored == s.stored
    decreases |events|
  {
    if events != [] {
      hide Selected;
      assert events[0] in events;
      StoredThroughout(official, After(official, s, events[0]), events[1..]);
    }
  }

  /** A save that the datastore refused leaves there what was there. */
  lemma RefusedSaveStoresNothing(official: set<string>, s: State, i: nat)
    ensures After(official, s, SaveEnds(i, false)).stored == s.stored
  {
  }

  /** After a stop no round hands anything over any more. */
  lemma {:induction false} StopEndsRounds(official: set<string>, s: State, events: seq<Event>)
    ensures Run(official, After(official, s, Stop), events).saves == s.saves
    decreases |events|
  {
    StoppedSavesNothing(official, After(official, s, Stop), events);
  }

  lemma {:induction false} StoppedSavesNothing(official: set<string>, s: State, events: seq<Event>)
    requires s.stopped
    ensures Run(official, s, events).saves == s.saves
    decreases |events|
  {
    if events != [] {
      StoppedSavesNothing(official, After(official, s, events[0]), events[1..]);
    }
  }

  // ---------------------------------------------------------------- the loop's closure

  /** The variables `startBackupBootstrapLoop` closes over, the datastore, and the lists in flight. */
  class BackupLoop {
    const official: seq<Addr>
    var previouslySaved: seq<Addr>
    var stopped: bool
    var datastore: seq<Addr>
    var saves: seq<seq<Addr>>
    var loaded: seq<Addr>

    ghost function Model(): State
      reads this
    {
      State(previouslySaved, stopped, datastore, saves, loaded)
    }

    constructor (official: seq<Addr>, stored: seq<Addr>)
      ensures this.official == official && Model() == Fresh(stored)
    {
      this.official := official;
      previouslySaved, stopped, datastore, saves, loaded := [], false, stored, [], [];
    }

    /** `saveBackupPeersRound` up to its await. */
    method SaveBackupPeersRound(connected: seq<Addr>, shuffled: seq<Addr>)
      requires multiset(shuffled) == multiset(connected)
      modifies this
      ensures Model() == After(Ids(official), old(Model()), RoundStarts(shuffled))
    {
      if stopped {
        return;
      }
      var peersToSave := SelectPeersToSave(connected, official, previouslySaved, MAX_BACKUP_PEERS, shuffled);
      saves := saves + [peersToSave];
    }

    /** `saveBackupPeers` swallows an error of the datastore, so the round goes on in either case. */
    method OnSaveEnded(round: nat, stored: bool)
      requires round < |saves|
      modifies this
      ensures Model() == After(Ids(official), old(Model()), SaveEnds(round, stored))
    {
      if stored {
        datastore := saves[round];
      }
      previouslySaved := saves[round];
    }

    /** `loadBackupPeers`, which answers an empty list on any error. */
    method LoadBackupPeers(ok: bool)
      modifies this
      ensures Model() == After(Ids(official), old(Model()), LoadReads(ok))
    {
      loaded := if ok then datastore else [];
    }

    method OnLoadEnded()
      modifies this
      ensures Model() == After(Ids(official), old(Model()), LoadEnds)
    {
      previouslySaved := loaded;
    }

    method StopLoop()
      modifies this
      ensures Model() == After(Ids(official), old(Model()), Stop)
    {
      stopped := true;
    }
  }
}
