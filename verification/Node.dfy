/**
 * One node: wants and handlers, the stream pool, a read loop per stream and the runs of
 * `_serveBlockOnStream`, `src/bitswap.ts:52-431`, as one machine over the steps between awaits.
 */
module Node {
  import opened Basics
  import opened Cids
  import opened Codec
  import opened Framing
  import Wants
  import Pool

  /** The read loop of a stream.  `received` and `delivered` record its whole history. */
  datatype Loop = Loop(peer: string, received: Bytes, delivered: seq<Bytes>, buffer: Bytes, live: bool)

  datatype Progress = Waiting | Served | Skipped

  /** A run of `_serveBlockOnStream`, for want number `want` of a handler's message. */
  datatype Serve = Serve(handler: nat, want: nat, stream: nat, cid: Cid, progress: Progress)

  /** `replies` records the stream each finished handler found pooled for its peer. */
  datatype State = State(
    w: Wants.State,
    p: Pool.State,
    loops: seq<Loop>,
    serves: seq<Serve>,
    replies: map<nat, nat>)

  datatype Step =
    | Want(cid: Cid)
    | Abort(deferred: nat)
    | HashDone(handler: nat)
    | PutDone(handler: nat, stored: bool)
    | GetDone(serve: nat, found: bool, sent: bool)
    | Chunk(stream: nat, bytes: Bytes)
    | LoopEnd(stream: nat)
    | SendStart(peer: string, message: Bytes)
    | DialDone(call: nat, outcome: Pool.DialOutcome)
    | Resume(call: nat, sent: bool)
    | InboundStream(peer: string)
    | Disconnect(peer: string)
    | ClearUnsupported
    | Stop

  // ---------------------------------------------------------------- the end of a handler

  function ServesFor(h: nat, stream: nat, wants: seq<Cid>): seq<Serve> {
    seq(|wants|, i requires 0 <= i < |wants| => Serve(h, i, stream, wants[i], Waiting))
  }

  function PeerOf(s: State, stream: nat): string {
    if stream < |s.loops| then s.loops[stream].peer else ""
  }

  /** A handler through with its blocks starts to serve the wants, on the stream pooled for its peer. */
  function Finish(s: State, h: nat): State {
    if !(h < |s.w.handlers| && s.w.handlers[h].activity.Finished?) then s
    else
      var hd := s.w.handlers[h];
      var peer := PeerOf(s, hd.source.stream);
      if peer !in s.p.pool then s
      else
        var stream := s.p.pool[peer];
        s.(serves := s.serves + ServesFor(h, stream, hd.message.wants), replies := s.replies[h := stream])
  }

  /** `_handleMessage` up to its first await. */
  function AfterMessage(lib: Library, s: State, source: Wants.Source, msg: Bytes): State {
    match MessageIn(lib, msg)
    case None => s
    case Some(message) => Finish(s.(w := Wants.AfterDeliver(s.w, source, message)), |s.w.handlers|)
  }

  function AfterMessages(lib: Library, s: State, stream: nat, index: nat, msgs: seq<Bytes>): State
    decreases |msgs|
  {
    if msgs == [] then s
    else AfterMessages(lib, AfterMessage(lib, s, Wants.Source(stream, index), msgs[0]), stream, index + 1, msgs[1..])
  }

  /** A chunk arrives; a loop that meets a negative length makes no more progress. */
  function AfterChunk(lib: Library, s: State, i: nat, bytes: Bytes): State {
    if !(i < |s.loops| && s.loops[i].live) then s
    else
      var loop := s.loops[i];
      match Split(loop.buffer + bytes)
      case None => s.(loops := s.loops[i := loop.(live := false)])
      case Some(pass) =>
        var next := loop.(received := loop.received + bytes, delivered := loop.delivered + pass.messages,
                          buffer := pass.rest);
        AfterMessages(lib, s.(loops := s.loops[i := next]), i, |loop.delivered|, pass.messages)
  }

  function AfterHash(lib: Library, s: State, h: nat): State {
    if !Wants.IsHashing(s.w, h) then s else Finish(s.(w := Wants.AfterHash(lib, s.w, h)), h)
  }

  function AfterPut(s: State, h: nat, stored: bool): State {
    if !Wants.IsPutting(s.w, h) then s else Finish(s.(w := Wants.AfterPut(s.w, h, stored)), h)
  }

  /** The store answered: the block is framed and sent, or silently skipped. */
  function AfterGet(s: State, t: nat, found: bool, sent: bool): State {
    if !(t < |s.serves| && s.serves[t].progress.Waiting?) then s
    else
      var serve := s.serves[t];
      if found && sent && serve.cid in s.w.store then
        s.(p := Pool.Do(s.p, Pool.Serve(serve.stream, BlockMessage(serve.cid, s.w.store[serve.cid]), t)),
           serves := s.serves[t := serve.(progress := Served)])
      else
        s.(serves := s.serves[t := serve.(progress := Skipped)])
  }

  function NewLoop(peer: string): Loop {
    Loop(peer, [], [], [], true)
  }

  /** A dial that succeeds opens a stream and starts its read loop. */
  function AfterDial(s: State, i: nat, outcome: Pool.DialOutcome): State {
    var p := Pool.AfterDial(s.p, i, outcome);
    s.(p := p, loops := if |p.streams| > |s.p.streams| then s.loops + [NewLoop(s.p.calls[i].peer)] else s.loops)
  }

  function AfterInbound(s: State, peer: string): State {
    s.(p := Pool.AfterInbound(s.p, peer), loops := s.loops + [NewLoop(peer)])
  }

  /** The loop of any stream of a peer, on ending, cleans up whatever stream is pooled for that peer. */
  function AfterLoopEnd(s: State, i: nat): State {
    if !(i < |s.loops| && s.loops[i].live) then s
    else s.(loops := s.loops[i := s.loops[i].(live := false)], p := Pool.AfterCleanup(s.p, s.loops[i].peer))
  }

  function Do(lib: Library, s: State, step: Step): State {
    match step
    case Want(cid) => s.(w := Wants.AfterWant(lib, s.w, cid))
    case Abort(d) => s.(w := Wants.AfterAbort(lib, s.w, d))
    case HashDone(h) => AfterHash(lib, s, h)
    case PutDone(h, stored) => AfterPut(s, h, stored)
    case GetDone(t, found, sent) => AfterGet(s, t, found, sent)
    case Chunk(i, bytes) => AfterChunk(lib, s, i, bytes)
    case LoopEnd(i) => AfterLoopEnd(s, i)
    case SendStart(peer, message) => s.(p := Pool.AfterSendStart(s.p, peer, message))
    case DialDone(i, outcome) => AfterDial(s, i, outcome)
    case Resume(i, sent) => s.(p := Pool.AfterResume(s.p, i, sent))
    case InboundStream(peer) => AfterInbound(s, peer)
    case Disconnect(peer) => s.(p := Pool.AfterCleanup(s.p, peer))
    case ClearUnsupported => s.(p := Pool.Do(s.p, Pool.ClearUnsupported))
    case Stop => s.(w := Wants.AfterStop(s.w), p := Pool.AfterCloseAll(s.p))
  }

  function Run(lib: Library, s: State, steps: seq<Step>): State
    decreases |steps|
  {
    if steps == [] then s else Run(lib, Do(lib, s, steps[0]), steps[1..])
  }

  /** A broadcast: a call of `_sendMessage` starts for every connection whose peer is not known as unsupported. */
  function Broadcast(connections: seq<string>, unsupported: set<string>, message: Bytes): seq<Step> {
    if connections == [] then []
    else
      (if connections[0] in unsupported then [] else [SendStart(connections[0], message)]) +
      Broadcast(connections[1..], unsupported, message)
  }

  /** The pending wants with these keys, asked of one peer. */
  function Requests(lib: Library, w: Wants.State, peer: string, keys: seq<string>): seq<Step> {
    if keys == [] then []
    else
      var key := keys[|keys| - 1];
      Requests(lib, w, peer, keys[..|keys| - 1]) +
      (if key in w.pending && w.pending[key] < |w.deferreds|
       then [SendStart(peer, WantMessage(lib, w.deferreds[w.pending[key]].cid))] else [])
  }

  function Start(store: map<Cid, Bytes>): State {
    State(Wants.Start(store), Pool.Start(), [], [], map[])
  }
}
