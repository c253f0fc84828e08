/**
 * `SimpleBitswap`, `src/bitswap.ts:52-431`: the class, with one method for each stretch of code between
 * two awaits, each proved to do exactly the node machine's step and to keep its invariant.
 */
module Bitswap {
  import opened Basics
  import opened Cids
  import opened Codec
  import opened Framing
  import FramingAsWritten
  import Node
  import NodeLaws
  import AsWritten
  import Duties
  import Wants
  import Pool

  class SimpleBitswap {
    const lib: Library
    // blockstore, and what was put in it
    var blockstore: map<Cid, Bytes>
    var puts: seq<(Cid, Bytes)>
    // pendingWants, and the objects it and the handlers refer to
    var pendingWants: map<string, nat>
    var deferreds: seq<Wants.Deferred>
    var handlers: seq<Wants.Handler>
    // streamPool, unsupportedPeers, and the calls of _sendMessage
    var streamPool: map<string, nat>
    var streams: seq<Pool.Stream>
    var unsupportedPeers: set<string>
    var calls: seq<Pool.Call>
    var wire: seq<Pool.Sent>
    // read loops and runs of _serveBlockOnStream
    var loops: seq<Node.Loop>
    var serves: seq<Node.Serve>
    var replies: map<nat, nat>

    ghost function WantModel(): Wants.State
      reads this
    {
      Wants.State(pendingWants, deferreds, handlers, blockstore, puts)
    }

    ghost function PoolModel(): Pool.State
      reads this
    {
      Pool.State(streamPool, streams, unsupportedPeers, calls, wire)
    }

    ghost function Model(): Node.State
      reads this
    {
      Node.State(WantModel(), PoolModel(), loops, serves, replies)
    }

    ghost predicate Valid()
      reads this
    {
      lib.Lawful() && NodeLaws.Valid(lib, Model())
    }

    constructor (lib: Library, store: map<Cid, Bytes>)
      requires lib.Lawful() && Wants.StoreOk(lib, Wants.Start(store))
      ensures this.lib == lib && Model() == Node.Start(store) && Valid()
    {
      this.lib := lib;
      blockstore, puts := store, [];
      pendingWants, deferreds, handlers := map[], [], [];
      streamPool, streams, unsupportedPeers, calls, wire := map[], [], {}, [], [];
      loops, serves, replies := [], [], map[];
      new;
      NodeLaws.StartValid(lib, store);
    }

    // -------------------------------------------------------------- wants

    /** `want` up to its broadcast: registers a deferred, or shares the one already pending for an equal CID. */
    method Register(cid: Cid) returns (deferred: nat)
      requires Valid()
      modifies this
      ensures Valid() && Model() == Node.Do(lib, old(Model()), Node.Want(cid))
      ensures lib.name(cid) in pendingWants && pendingWants[lib.name(cid)] == deferred
      ensures deferred < |deferreds| && deferreds[deferred] == Wants.Deferred(cid, Wants.Open)
    {
      ghost var was := Model();
      var key := lib.name(cid);
      if key in pendingWants {
        deferred := pendingWants[key];
      } else {
        deferred := |deferreds|;
        deferreds := deferreds + [Wants.Deferred(cid, Wants.Open)];
        pendingWants := pendingWants[key := deferred];
      }
      NodeLaws.StepKeeps(lib, was, Node.Want(cid));
    }

    /** `want`: a new want is broadcast over all connections; one that is shared is not. */
    method Want(cid: Cid, connections: seq<string>) returns (deferred: nat)
      requires Valid()
      modifies this
      ensures Valid()
      ensures var sends := Node.Broadcast(connections, old(unsupportedPeers), WantMessage(lib, cid));
              Model() == Node.Run(lib, Node.Do(lib, old(Model()), Node.Want(cid)),
                                  if lib.name(cid) in old(pendingWants) then [] else sends)
      ensures lib.name(cid) in pendingWants && pendingWants[lib.name(cid)] == deferred
      ensures deferred < |deferreds| && deferreds[deferred] == Wants.Deferred(cid, Wants.Open)
      ensures old(calls) <= calls
      ensures if lib.name(cid) in old(pendingWants) then calls == old(calls)
              else Duties.AsksEach(calls[|old(calls)|..], connections, old(unsupportedPeers), WantMessage(lib, cid))
    {
      hide NodeLaws.Valid, WantMessage, Node.Broadcast, Duties.AsksEach;
      var existing := lib.name(cid) in pendingWants;
      deferred := Register(cid);
      if !existing {
        BroadcastWant(cid, connections);
      }
    }

    /** `_broadcastWant` up to its first await. */
    method BroadcastWant(cid: Cid, connections: seq<string>)
      requires Valid()
      modifies this
      ensures Valid() && WantModel() == old(WantModel())
      ensures Model() == Node.Run(lib, old(Model()),
                                  Node.Broadcast(connections, old(unsupportedPeers), WantMessage(lib, cid)))
      ensures old(calls) <= calls
      ensures Duties.AsksEach(calls[|old(calls)|..], connections, old(unsupportedPeers), WantMessage(lib, cid))
    {
      hide NodeLaws.Valid, WantMessage, Duties.AsksEach;
      var msg := EncodeWantBlock(lib, cid);
      ghost var was := Model();
      ghost var peers := unsupportedPeers;
      Duties.BroadcastAsks(lib, was, connections, peers, msg);
      assert connections[0..] == connections;
      for i := 0 to |connections|
        invariant Valid() && WantModel() == was.w && unsupportedPeers == peers
        invariant Node.Run(lib, Model(), Node.Broadcast(connections[i..], peers, msg)) ==
                  Node.Run(lib, was, Node.Broadcast(connections, peers, msg))
      {
        assert connections[i..][1..] == connections[i + 1..];
        if connections[i] !in unsupportedPeers {
          ghost var rest := Node.Broadcast(connections[i + 1..], peers, msg);
          assert ([Node.SendStart(connections[i], msg)] + rest)[1..] == rest;
          var _ := SendMessage(connections[i], msg);
        } else {
          Associative(Node.Broadcast(connections[i + 1..], peers, msg), [], []);
        }
      }
    }

    lemma PendingHaveDeferreds()
      requires Valid()
      ensures forall key | key in pendingWants :: pendingWants[key] < |deferreds|
    {
    }

    lemma PendingHasDeferred(key: string)
      requires Valid() && key in pendingWants
      ensures pendingWants[key] < |deferreds|
    {
    }

    /** The `onConnect` hook: every pending want is sent to the new peer, in some order. */
    method OnConnect(peer: string) returns (ghost asked: seq<string>)
      requires Valid()
      modifies this
      ensures Valid() && WantModel() == old(WantModel())
      ensures Model() == Node.Run(lib, old(Model()), Node.Requests(lib, old(WantModel()), peer, asked))
      ensures if peer in old(unsupportedPeers) then asked == []
              else (forall key :: key in asked <==> key in pendingWants) && |asked| == |pendingWants|
      ensures old(calls) <= calls &&
              Duties.AsksForEach(lib, calls[|old(calls)|..], old(WantModel()), peer, asked)
    {
      hide NodeLaws.Valid, WantMessage, Duties.AsksForEach;
      ghost var was := Model();
      PendingHaveDeferreds();
      asked := [];
      if peer !in unsupportedPeers {
        asked := SendWants(peer);
      }
      Duties.RequestsAsk(lib, was, peer, asked);
    }

    /** The loop of the hook over the pending wants. */
    method SendWants(peer: string) returns (ghost asked: seq<string>)
      requires Valid()
      modifies this
      ensures Valid() && WantModel() == old(WantModel())
      ensures Model() == Node.Run(lib, old(Model()), Node.Requests(lib, old(WantModel()), peer, asked))
      ensures (forall key :: key in asked <==> key in pendingWants) && |asked| == |pendingWants|
    {
      hide NodeLaws.Valid, WantMessage;
      asked := [];
      ghost var was := Model();
      var keys := pendingWants.Keys;
      while keys != {}
        invariant Valid() && WantModel() == was.w
        invariant keys <= pendingWants.Keys && (forall key :: key in asked <==> key in pendingWants.Keys - keys)
        invariant |asked| + |keys| == |pendingWants.Keys|
        invariant Model() == Node.Run(lib, was, Node.Requests(lib, was.w, peer, asked))
        decreases keys
      {
        var key :| key in keys;
        PendingHasDeferred(key);
        var msg := EncodeWantBlock(lib, deferreds[pendingWants[key]].cid);
        NodeLaws.RunSnoc(lib, was, Node.Requests(lib, was.w, peer, asked), Node.SendStart(peer, msg));
        assert (asked + [key])[..|asked|] == asked;
        var _ := SendMessage(peer, msg);
        asked := asked + [key];
        keys := keys - {key};
      }
      assert pendingWants.Keys - keys == pendingWants.Keys;
    }

    method Settle(d: nat, outcome: Wants.Outcome)
      modifies this`deferreds
      ensures deferreds == Wants.Settle(old(deferreds), d, outcome)
    {
      if d < |deferreds| && deferreds[d].outcome.Open? {
        deferreds := deferreds[d := deferreds[d].(outcome := outcome)];
      }
    }

    /** The abort listener, removing the entry only if it is its own. */
    method OnAbort(d: nat)
      requires Valid() && d < |deferreds|
      modifies this
      ensures Valid() && Model() == Node.Do(lib, old(Model()), Node.Abort(d))
    {
      hide NodeLaws.Valid;
      ghost var was := Model();
      var key := lib.name(deferreds[d].cid);
      if key in pendingWants && pendingWants[key] == d {
        pendingWants := pendingWants - {key};
      }
      Settle(d, Wants.Rejected);
      NodeLaws.StepKeeps(lib, was, Node.Abort(d));
    }

    /** The abort listener as written. */
    method OnAbortByKey(d: nat)
      requires d < |deferreds|
      modifies this
      ensures Model() == AsWritten.Do(lib, old(Model()), Node.Abort(d))
      ensures old(Valid()) && Wants.OwnAbort(lib, old(WantModel()), Wants.Abort(d)) ==> Valid()
    {
      hide NodeLaws.Valid, Wants.Settle;
      ghost var was := Model();
      AsWritten.StepAgreesIff(lib, was, Node.Abort(d));
      pendingWants := pendingWants - {lib.name(deferreds[d].cid)};
      Settle(d, Wants.Rejected);
      if lib.Lawful() && NodeLaws.Valid(lib, was) {
        NodeLaws.StepKeeps(lib, was, Node.Abort(d));
      }
    }

    // -------------------------------------------------------------- incoming messages

    /** The end of `_handleMessage`: a run of `_serveBlockOnStream` starts for each want. */
    method ServeWants(h: nat)
      requires h < |handlers| && handlers[h].activity.Finished?
      modifies this`serves, this`replies
      ensures Model() == Node.Finish(old(Model()), h)
    {
      var peer := if handlers[h].source.stream < |loops| then loops[handlers[h].source.stream].peer else "";
      if peer !in streamPool {
        return;
      }
      var stream := streamPool[peer];
      var wants := handlers[h].message.wants;
      ghost var before := serves;
      for i := 0 to |wants|
        invariant serves == before + Node.ServesFor(h, stream, wants)[..i]
        invariant replies == old(replies)
      {
        serves := serves + [Node.Serve(h, i, stream, wants[i], Node.Waiting)];
      }
      assert Node.ServesFor(h, stream, wants)[..|wants|] == Node.ServesFor(h, stream, wants);
      replies := replies[h := stream];
    }

    /** `_handleMessage` up to its first await. */
    method HandleMessage(source: Wants.Source, bytes: Bytes)
      modifies this
      ensures Model() == Node.AfterMessage(lib, old(Model()), source, bytes)
    {
      hide MessageIn;
      var decoded := DecodeMessage(lib, bytes);
      if decoded.Some? {
        var h := |handlers|;
        var message := decoded.value;
        var activity := if message.blocks == [] then Wants.Finished else Wants.Hashing;
        handlers := handlers + [Wants.Handler(source, message, message.blocks, activity)];
        if message.blocks == [] {
          ServeWants(h);
        }
      }
    }

    /** The body of the read loop for one chunk. */
    method OnChunk(i: nat, chunk: Bytes)
      requires Valid() && i < |loops| && loops[i].live
      modifies this
      ensures Valid() && Model() == Node.Do(lib, old(Model()), Node.Chunk(i, chunk))
    {
      hide Split, MessageIn, Node.AfterMessage;
      hide NodeLaws.Valid;
      ghost var was := Model();
      var loop := loops[i];
      var buffer := loop.buffer + chunk;
      var messages, offset, ok := TakeMessages(buffer);
      if !ok {
        loops := loops[i := loop.(live := false)];
        NodeLaws.StepKeeps(lib, was, Node.Chunk(i, chunk));
        return;
      }
      loops := loops[i := loop.(received := loop.received + chunk, delivered := loop.delivered + messages,
                                buffer := buffer[offset..])];
      HandleMessages(i, |loop.delivered|, messages);
      NodeLaws.StepKeeps(lib, was, Node.Chunk(i, chunk));
    }

    /** The body of the read loop for one chunk, as written. */
    method OnChunkAsWritten(i: nat, chunk: Bytes)
      requires i < |loops| && loops[i].live
      modifies this
      ensures Model() == AsWritten.Do(lib, old(Model()), Node.Chunk(i, chunk))
      ensures old(Valid()) && !AsWritten.Cuts(old(loops)[i].buffer + chunk) ==> Valid()
    {
      hide Split, FramingAsWritten.SplitTwice, MessageIn, Node.AfterMessage, NodeLaws.Valid, AsWritten.Cuts;
      ghost var was := Model();
      AsWritten.StepAgreesIff(lib, was, Node.Chunk(i, chunk));
      var loop := loops[i];
      var messages, buffer, ok := FramingAsWritten.ReadChunkTwice(loop.buffer, chunk);
      if ok {
        loops := loops[i := loop.(received := loop.received + chunk, delivered := loop.delivered + messages,
                                  buffer := buffer)];
        ghost var begun := Model();
        HandleMessages(i, |loop.delivered|, messages);
        assert Model() == Node.AfterMessages(lib, begun, i, |loop.delivered|, messages);
      } else {
        loops := loops[i := loop.(live := false)];
      }
      if lib.Lawful() && NodeLaws.Valid(lib, was) {
        NodeLaws.StepKeeps(lib, was, Node.Chunk(i, chunk));
      }
    }

    /** The messages that a pass took, in order. */
    method HandleMessages(stream: nat, first: nat, messages: seq<Bytes>)
      modifies this
      ensures Model() == Node.AfterMessages(lib, old(Model()), stream, first, messages)
    {
      hide MessageIn, Node.AfterMessage;
      assert messages[0..] == messages;
      for k := 0 to |messages|
        invariant Node.AfterMessages(lib, Model(), stream, first + k, messages[k..]) ==
                  Node.AfterMessages(lib, old(Model()), stream, first, messages)
      {
        assert messages[k..][1..] == messages[k + 1..];
        HandleMessage(Wants.Source(stream, first + k), messages[k]);
      }
    }

    /** A hash has been computed: look up, take the want out and start the put, or go on. */
    method AfterHash(h: nat)
      requires Valid() && h < |handlers| && handlers[h].activity.Hashing? && handlers[h].todo != []
      modifies this
      ensures Valid() && Model() == Node.Do(lib, old(Model()), Node.HashDone(h))
    {
      hide PrefixToCid;
      hide NodeLaws.Valid;
      ghost var was := Model();
      var hd := handlers[h];
      var block, rest := hd.todo[0], hd.todo[1..];
      var cid := ReadPrefix(lib, block.prefix, block.data);
      if cid.Some? && lib.name(cid.value) in pendingWants {
        var key := lib.name(cid.value);
        var d := pendingWants[key];
        pendingWants := pendingWants - {key};
        puts := puts + [(cid.value, block.data)];
        handlers := handlers[h := hd.(todo := rest, activity := Wants.Putting(cid.value, block.data, d))];
      } else {
        NextBlock(h, rest);
      }
      NodeLaws.StepKeeps(lib, was, Node.HashDone(h));
    }

    /** The next turn of the loop over blocks, or its end. */
    method NextBlock(h: nat, rest: seq<Block>)
      requires h < |handlers|
      modifies this
      ensures Model() == Node.Finish(old(Model()).(w := old(WantModel()).(handlers :=
                old(handlers)[h := old(handlers)[h].(todo := rest, activity := Wants.Working(rest))])), h)
    {
      handlers := handlers[h := handlers[h].(todo := rest, activity := Wants.Working(rest))];
      if rest == [] {
        ServeWants(h);
      }
    }

    /** The put has ended, well or badly: the want is resolved and the loop goes on. */
    method AfterPut(h: nat, stored: bool)
      requires Valid() && h < |handlers| && handlers[h].activity.Putting?
      modifies this
      ensures Valid() && Model() == Node.Do(lib, old(Model()), Node.PutDone(h, stored))
    {
      hide NodeLaws.Valid;
      ghost var was := Model();
      var hd := handlers[h];
      var put := hd.activity;
      if stored {
        blockstore := blockstore[put.cid := put.data];
      }
      Settle(put.deferred, Wants.Resolved(put.data));
      NextBlock(h, hd.todo);
      NodeLaws.StepKeeps(lib, was, Node.PutDone(h, stored));
    }

    /** `_serveBlockOnStream` once the store has answered. */
    method AfterGet(t: nat, found: bool, sent: bool)
      requires Valid() && t < |serves| && serves[t].progress.Waiting?
      modifies this
      ensures Valid() && Model() == Node.Do(lib, old(Model()), Node.GetDone(t, found, sent))
    {
      hide BlockMessage;
      hide NodeLaws.Valid;
      ghost var was := Model();
      var serve := serves[t];
      if found && sent && serve.cid in blockstore {
        var msg := EncodeBlock(serve.cid, blockstore[serve.cid]);
        var prefixed := EncodeWithLengthPrefix(msg);
        wire := wire + [Pool.Sent(serve.stream, prefixed, Pool.ServeCall(t))];
        serves := serves[t := serve.(progress := Node.Served)];
      } else {
        serves := serves[t := serve.(progress := Node.Skipped)];
      }
      NodeLaws.StepKeeps(lib, was, Node.GetDone(t, found, sent));
    }

    // -------------------------------------------------------------- streams

    /** `_cleanupStream`. */
    method CleanupStream(peer: string)
      modifies this`streams, this`streamPool
      ensures PoolModel() == Pool.AfterCleanup(old(PoolModel()), peer)
    {
      if peer in streamPool && streamPool[peer] < |streams| {
        var id := streamPool[peer];
        streams := streams[id := streams[id].(closed := true)];
        streamPool := streamPool - {peer};
      }
    }

    /** `_sendMessage` up to its first await: `_getOrCreateStream` reuses a stream or begins a dial. */
    method SendMessage(peer: string, message: Bytes) returns (call: nat)
      requires Valid()
      modifies this
      ensures Valid() && Model() == Node.Do(lib, old(Model()), Node.SendStart(peer, message))
      ensures call == |old(calls)|
    {
      hide NodeLaws.Valid, Node.AfterChunk, Node.AfterHash, Node.AfterPut, Node.AfterGet, Frame;
      ghost var was := Model();
      call := |calls|;
      if peer in streamPool && streamPool[peer] < |streams| && !streams[streamPool[peer]].closed {
        calls := calls + [Pool.Call(peer, message, 0, Pool.Got(1, Some(streamPool[peer])))];
      } else {
        calls := calls + [Pool.Call(peer, message, 1, Pool.Dialing(1))];
      }
      NodeLaws.StepKeeps(lib, was, Node.SendStart(peer, message));
    }

    /** `_dialPeer` once the dial has ended. */
    method AfterDial(i: nat, outcome: Pool.DialOutcome)
      requires Valid() && i < |calls| && calls[i].progress.Dialing?
      modifies this
      ensures Valid() && Model() == Node.Do(lib, old(Model()), Node.DialDone(i, outcome))
    {
      hide NodeLaws.Valid, Node.AfterChunk, Node.AfterHash, Node.AfterPut, Node.AfterGet, Frame;
      ghost var was := Model();
      var c := calls[i];
      var attempt := c.progress.attempt;
      match outcome {
        case DialOk =>
          var id := |streams|;
          streams := streams + [Pool.Stream(c.peer, Pool.Outbound, false)];
          streamPool := streamPool[c.peer := id];
          calls := calls[i := c.(progress := Pool.Got(attempt, Some(id)))];
          loops := loops + [Node.NewLoop(c.peer)];
        case DialUnsupported =>
          unsupportedPeers := unsupportedPeers + {c.peer};
          calls := calls[i := c.(progress := Pool.Got(attempt, None))];
        case DialFailed =>
          calls := calls[i := c.(progress := Pool.Got(attempt, None))];
      }
      NodeLaws.StepKeeps(lib, was, Node.DialDone(i, outcome));
    }

    /** `_sendMessage` once it has its stream, or the dial's error: send, retry once, or throw. */
    method ResumeSend(i: nat, sent: bool)
      requires Valid() && i < |calls| && calls[i].progress.Got?
      modifies this
      ensures Valid() && Model() == Node.Do(lib, old(Model()), Node.Resume(i, sent))
    {
      hide NodeLaws.Valid, Node.AfterChunk, Node.AfterHash, Node.AfterPut, Node.AfterGet, Frame;
      ghost var was := Model();
      var c := calls[i];
      if c.progress.stream.Some? && sent {
        var prefixed := EncodeWithLengthPrefix(c.message);
        wire := wire + [Pool.Sent(c.progress.stream.value, prefixed, Pool.SendCall(i))];
        calls := calls[i := c.(progress := Pool.Returned)];
      } else if c.progress.attempt == 1 {
        CleanupStream(c.peer);
        calls := calls[i := c.(dials := c.dials + 1, progress := Pool.Dialing(2))];
      } else {
        calls := calls[i := c.(progress := Pool.Threw)];
      }
      NodeLaws.StepKeeps(lib, was, Node.Resume(i, sent));
    }

    /** `_onInboundStream`: pooled unless an outbound stream is. */
    method OnInboundStream(peer: string) returns (id: nat)
      requires Valid()
      modifies this
      ensures Valid() && Model() == Node.Do(lib, old(Model()), Node.InboundStream(peer))
      ensures id == |old(streams)|
    {
      hide NodeLaws.Valid, Node.AfterChunk, Node.AfterHash, Node.AfterPut, Node.AfterGet, Frame;
      ghost var was := Model();
      id := |streams|;
      if !(peer in streamPool && streamPool[peer] < |streams| && streams[streamPool[peer]].direction.Outbound?) {
        streamPool := streamPool[peer := id];
      }
      streams := streams + [Pool.Stream(peer, Pool.Inbound, false)];
      loops := loops + [Node.NewLoop(peer)];
      NodeLaws.StepKeeps(lib, was, Node.InboundStream(peer));
    }

    /** The `finally` of the read loop. */
    method OnLoopEnd(i: nat)
      requires Valid() && i < |loops| && loops[i].live
      modifies this
      ensures Valid() && Model() == Node.Do(lib, old(Model()), Node.LoopEnd(i))
    {
      hide NodeLaws.Valid, Node.AfterChunk, Node.AfterHash, Node.AfterPut, Node.AfterGet, Frame;
      ghost var was := Model();
      loops := loops[i := loops[i].(live := false)];
      CleanupStream(loops[i].peer);
      NodeLaws.StepKeeps(lib, was, Node.LoopEnd(i));
    }

    method OnDisconnect(peer: string)
      requires Valid()
      modifies this
      ensures Valid() && Model() == Node.Do(lib, old(Model()), Node.Disconnect(peer))
    {
      hide NodeLaws.Valid, Node.AfterChunk, Node.AfterHash, Node.AfterPut, Node.AfterGet, Frame;
      ghost var was := Model();
      CleanupStream(peer);
      NodeLaws.StepKeeps(lib, was, Node.Disconnect(peer));
    }

    method ClearUnsupportedPeers()
      requires Valid()
      modifies this
      ensures Valid() && Model() == Node.Do(lib, old(Model()), Node.ClearUnsupported)
    {
      hide NodeLaws.Valid, Node.AfterChunk, Node.AfterHash, Node.AfterPut, Node.AfterGet, Frame;
      ghost var was := Model();
      unsupportedPeers := {};
      NodeLaws.StepKeeps(lib, was, Node.ClearUnsupported);
    }

    /** `stop` after its await: every pooled stream is closed and every pending want rejected. */
    method Stop()
      requires Valid()
      modifies this
      ensures Valid() && Model() == Node.Do(lib, old(Model()), Node.Stop)
    {
      hide NodeLaws.Valid;
      ghost var was := Model();
      Pool.CloseAllFrame(was.p);
      hide Pool.AfterCloseAll, Wants.RejectPending;
      CloseStreams();
      streamPool := map[];
      RejectWants();
      pendingWants := map[];
      NodeLaws.StepKeeps(lib, was, Node.Stop);
    }

    method CloseStreams()
      modifies this`streams
      ensures streams == Pool.AfterCloseAll(old(PoolModel())).streams
    {
      var peers := streamPool.Keys;
      ghost var closed: set<nat> := {};
      while peers != {}
        invariant peers <= streamPool.Keys
        invariant closed == set peer | peer in streamPool && peer !in peers :: streamPool[peer]
        invariant |streams| == |old(streams)|
        invariant forall i | 0 <= i < |streams| ::
          streams[i] == if i in closed then old(streams)[i].(closed := true) else old(streams)[i]
        decreases peers
      {
        var peer :| peer in peers;
        var id := streamPool[peer];
        if id < |streams| {
          streams := streams[id := streams[id].(closed := true)];
        }
        closed := closed + {id};
        peers := peers - {peer};
      }
      assert closed == streamPool.Values;
    }

    method RejectWants()
      modifies this`deferreds
      ensures deferreds == Wants.RejectPending(pendingWants, old(deferreds))
    {
      var keys := pendingWants.Keys;
      ghost var done: set<nat> := {};
      while keys != {}
        invariant keys <= pendingWants.Keys
        invariant done == set key | key in pendingWants && key !in keys :: pendingWants[key]
        invariant |deferreds| == |old(deferreds)|
        invariant forall d | 0 <= d < |deferreds| ::
          deferreds[d] == if d in done && old(deferreds)[d].outcome.Open?
                          then old(deferreds)[d].(outcome := Wants.Rejected) else old(deferreds)[d]
        decreases keys
      {
        var key :| key in keys;
        Settle(pendingWants[key], Wants.Rejected);
        done := done + {pendingWants[key]};
        keys := keys - {key};
      }
      assert done == pendingWants.Values;
    }
  }
}
