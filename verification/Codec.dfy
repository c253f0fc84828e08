/** The Bitswap message codec, `src/bitswap-codec.ts`. */
module Codec {
  import opened Basics
  import opened Varints
  import opened Wire
  import opened Cids

  datatype Block = Block(prefix: Bytes, data: Bytes)
  datatype Decoded = Decoded(wants: seq<Cid>, blocks: seq<Block>)

  // ---------------------------------------------------------------- encoding

  function EntryFields(lib: Library, cid: Cid): seq<Field> {
    [LenField(1, lib.bytesOf(cid)), VarintField(2, Varint(1)), VarintField(4, Varint(0)), VarintField(5, Varint(1))]
  }

  function WantlistFields(lib: Library, cid: Cid): seq<Field> {
    [LenField(1, EncodeFields(EntryFields(lib, cid))), VarintField(2, Varint(0))]
  }

  /** The message that asks for `cid`. */
  function WantMessage(lib: Library, cid: Cid): Bytes {
    EncodeField(LenField(1, EncodeFields(WantlistFields(lib, cid))))
  }

  function Prefix(cid: Cid): Bytes {
    Varint(cid.version) + Varint(cid.codec) + Varint(cid.hashCode) + Varint(|cid.digest|)
  }

  function BlockFields(cid: Cid, data: Bytes): seq<Field> {
    [LenField(1, Prefix(cid)), LenField(2, data)]
  }

  /** The message that carries a block. */
  function BlockMessage(cid: Cid, data: Bytes): Bytes {
    EncodeField(LenField(3, EncodeFields(BlockFields(cid, data))))
  }

  lemma FlattenFields(fs: seq<Field>, parts: seq<Bytes>)
    requires |parts| == |fs| && forall i :: 0 <= i < |fs| ==> parts[i] == EncodeField(fs[i])
    ensures Flatten(parts) == EncodeFields(fs)
  {
    hide EncodeField;
    if fs != [] {
      FlattenFields(fs[1..], parts[1..]);
    }
  }

  method EncodeWantBlock(lib: Library, cid: Cid) returns (msg: Bytes)
    ensures msg == WantMessage(lib, cid)
  {
    hide EncodeField, EncodeFields, Varint;
    var block := WriteLenField(1, lib.bytesOf(cid));
    var priority := WriteVarintField(2, 1);
    var wantType := WriteVarintField(4, 0);
    var sendDontHave := WriteVarintField(5, 1);
    var entry := ConcatBytes([block, priority, wantType, sendDontHave]);
    FlattenFields(EntryFields(lib, cid), [block, priority, wantType, sendDontHave]);
    var entries := WriteLenField(1, entry);
    var full := WriteVarintField(2, 0);
    var wantlist := ConcatBytes([entries, full]);
    FlattenFields(WantlistFields(lib, cid), [entries, full]);
    msg := WriteLenField(1, wantlist);
  }

  method EncodeBlock(cid: Cid, data: Bytes) returns (msg: Bytes)
    ensures msg == BlockMessage(cid, data)
  {
    hide EncodeField, EncodeFields, Varint;
    var prefixBuf := new JsArray<Byte>();
    AppendVarint(prefixBuf, cid.version);
    AppendVarint(prefixBuf, cid.codec);
    AppendVarint(prefixBuf, cid.hashCode);
    AppendVarint(prefixBuf, |cid.digest|);
    var prefix := prefixBuf.items;
    assert prefix == Prefix(cid);
    var prefixField := WriteLenField(1, prefix);
    var dataField := WriteLenField(2, data);
    var block := ConcatBytes([prefixField, dataField]);
    FlattenFields(BlockFields(cid, data), [prefixField, dataField]);
    msg := WriteLenField(3, block);
  }

  // ---------------------------------------------------------------- decoding a want entry

  datatype WantEntry = WantEntry(cidBytes: Option<Bytes>, wantType: int, cancel: bool)

  const NO_ENTRY := WantEntry(None, 0, false)

  function EntryAfter(e: WantEntry, t: Token): WantEntry {
    match t
    case Chunk(field, payload) => if field == 1 then e.(cidBytes := Some(payload)) else e
    case Number(field, value) =>
      if field == 3 then e.(cancel := value != 0)
      else if field == 4 then e.(wantType := value)
      else e
  }

  function EntryOf(e: WantEntry, ts: seq<Token>): WantEntry
    decreases |ts|
  {
    if ts == [] then e else EntryOf(EntryAfter(e, ts[0]), ts[1..])
  }

  function EntryFrom(e: WantEntry, s: Bytes): Option<WantEntry> {
    match Tokens(EntryLevel, s)
    case None => None
    case Some(ts) => Some(EntryOf(e, ts))
  }

  lemma EntryOfNone(e: WantEntry)
    ensures EntryOf(e, []) == e
  {
  }

  lemma EntryDone(e: WantEntry)
    ensures EntryFrom(e, []) == Some(e)
  {
  }

  /** Equal tokens mean the same entry; no tokens, none. */
  lemma EntryDepends(e: WantEntry, s: Bytes, t: Bytes)
    ensures Tokens(EntryLevel, s) == Tokens(EntryLevel, t) ==> EntryFrom(e, s) == EntryFrom(e, t)
    ensures Tokens(EntryLevel, s) == None ==> EntryFrom(e, s) == None
  {
    hide Tokens;
  }

  lemma EntryStep(e: WantEntry, s: Bytes, t: Token, rest: Bytes)
    requires Tokens(EntryLevel, s) == Prepend(t, Tokens(EntryLevel, rest))
    ensures EntryFrom(e, s) == EntryFrom(EntryAfter(e, t), rest)
  {
  }

  method DecodeWantEntry(bytes: Bytes) returns (entry: Option<WantEntry>)
    ensures entry == EntryFrom(NO_ENTRY, bytes)
  {
    hide Leading, EntryOf, Tokens, From, Upto;
    var e := NO_ENTRY;
    var offset := 0;
    FromStart(bytes);
    while offset < |bytes|
      invariant EntryFrom(e, From(bytes, offset)) == EntryFrom(NO_ENTRY, bytes)
      decreases |bytes| - offset
    {
      ghost var s := From(bytes, offset);
      TokensAt(EntryLevel, bytes, offset);
      var tag, tagLen := ReadVarint(bytes, offset);
      offset := offset + tagLen;
      EntryDepends(e, s, From(bytes, offset));
      var fieldNum, wireType := tag / 8, tag % 8;
      if wireType == 2 {
        var len, lenLen := ReadVarint(bytes, offset);
        offset := offset + lenLen;
        if len < 0 {
          return None;
        }
        var fieldBytes := Upto(From(bytes, offset), len);
        offset := offset + len;
        EntryStep(e, s, Chunk(fieldNum, fieldBytes), From(bytes, offset));
        if fieldNum == 1 {
          e := e.(cidBytes := Some(fieldBytes));
        }
      } else if wireType == 0 {
        var val, varLen := ReadVarint(bytes, offset);
        offset := offset + varLen;
        EntryStep(e, s, Number(fieldNum, val), From(bytes, offset));
        if fieldNum == 3 {
          e := e.(cancel := val != 0);
        } else if fieldNum == 4 {
          e := e.(wantType := val);
        }
      }
    }
    FromEnd(bytes, offset);
    EntryDone(e);
    entry := Some(e);
  }

  // ---------------------------------------------------------------- decoding a wantlist

  function Join<T>(a: Option<seq<T>>, b: Option<seq<T>>): Option<seq<T>> {
    if a.None? || b.None? then None else Some(a.value + b.value)
  }

  lemma JoinAssociative<T>(a: Option<seq<T>>, b: Option<seq<T>>, c: Option<seq<T>>)
    ensures Join(Join(a, b), c) == Join(a, Join(b, c))
    ensures Join(Some([]), a) == a == Join(a, Some([]))
  {
    if a.Some? {
      assert [] + a.value == a.value == a.value + [];
      if b.Some? && c.Some? {
        assert (a.value + b.value) + c.value == a.value + (b.value + c.value);
      }
    }
  }

  /** The CIDs a decoded entry adds: one, or none for a cancel, another want type or bad CID bytes. */
  function Asked(lib: Library, e: WantEntry): seq<Cid> {
    if e.cidBytes.Some? && !e.cancel && e.wantType == 0 then
      match lib.decode(e.cidBytes.value)
      case Some(cid) => [cid]
      case None => []
    else []
  }

  function WantOf(lib: Library, t: Token): Option<seq<Cid>> {
    if t.Number? then Some([])
    else
      match EntryFrom(NO_ENTRY, t.payload)
      case None => None
      case Some(e) => Some(Asked(lib, e))
  }

  function WantsOf(lib: Library, ts: seq<Token>): Option<seq<Cid>> {
    if ts == [] then Some([]) else Join(WantOf(lib, ts[0]), WantsOf(lib, ts[1..]))
  }

  function WantsIn(lib: Library, s: Bytes): Option<seq<Cid>> {
    match Tokens(WantlistLevel, s)
    case None => None
    case Some(ts) => WantsOf(lib, ts)
  }

  lemma NoWants(lib: Library)
    ensures WantsIn(lib, []) == Some([])
  {
  }

  lemma WantsDepend(lib: Library, s: Bytes, t: Bytes)
    ensures Tokens(WantlistLevel, s) == Tokens(WantlistLevel, t) ==> WantsIn(lib, s) == WantsIn(lib, t)
    ensures Tokens(WantlistLevel, s) == None ==> WantsIn(lib, s) == None
  {
    hide Tokens;
  }

  lemma WantsStep(lib: Library, s: Bytes, t: Token, rest: Bytes)
    requires Tokens(WantlistLevel, s) == Prepend(t, Tokens(WantlistLevel, rest))
    ensures WantsIn(lib, s) == Join(WantOf(lib, t), WantsIn(lib, rest))
  {
  }

  /** Pushes the CIDs asked for; answers false when it met a negative length. */
  method DecodeWantlist(lib: Library, bytes: Bytes, out: JsArray<Cid>) returns (ok: bool)
    modifies out
    ensures Join(Some(old(out.items)), WantsIn(lib, bytes)) == (if ok then Some(out.items) else None)
  {
    hide Leading, EntryFrom, WantsOf, WantsIn, Tokens, From, Upto;
    var offset := 0;
    FromStart(bytes);
    while offset < |bytes|
      invariant Join(Some(out.items), WantsIn(lib, From(bytes, offset))) ==
                Join(Some(old(out.items)), WantsIn(lib, bytes))
      decreases |bytes| - offset
    {
      ghost var sofar := Some(out.items);
      ghost var s := From(bytes, offset);
      TokensAt(WantlistLevel, bytes, offset);
      var tag, tagLen := ReadVarint(bytes, offset);
      offset := offset + tagLen;
      WantsDepend(lib, s, From(bytes, offset));
      var fieldNum, wireType := tag / 8, tag % 8;
      if wireType == 2 && fieldNum == 1 {
        var len, lenLen := ReadVarint(bytes, offset);
        offset := offset + lenLen;
        if len < 0 {
          return false;
        }
        var entryBytes := Upto(From(bytes, offset), len);
        offset := offset + len;
        ghost var t := Chunk(fieldNum, entryBytes);
        WantsStep(lib, s, t, From(bytes, offset));
        JoinAssociative(sofar, WantOf(lib, t), WantsIn(lib, From(bytes, offset)));
        var entry := DecodeWantEntry(entryBytes);
        if entry.None? {
          return false;
        }
        var e := entry.value;
        if e.cidBytes.Some? && !e.cancel && e.wantType == 0 {
          var cid := lib.decode(e.cidBytes.value);
          if cid.Some? {
            out.Push(cid.value);
          }
        }
      } else if wireType == 0 {
        var val, varLen := ReadVarint(bytes, offset);
        offset := offset + varLen;
        WantsStep(lib, s, Number(fieldNum, val), From(bytes, offset));
        JoinAssociative(WantsIn(lib, From(bytes, offset)), None, None);
      }
    }
    FromEnd(bytes, offset);
    JoinAssociative(Some(out.items), None, None);
    NoWants(lib);
    ok := true;
  }

  // ---------------------------------------------------------------- decoding a block

  /** The two fields of a payload as they stand while the loop runs. */
  datatype Halves = Halves(prefix: Option<Bytes>, data: Option<Bytes>)
  {
    function Whole(): Option<Block> {
      if prefix.Some? && data.Some? then Some(Block(prefix.value, data.value)) else None
    }
  }

  function HalvesAfter(h: Halves, t: Token): Halves {
    if t.Chunk? && t.field == 1 then h.(prefix := Some(t.payload))
    else if t.Chunk? && t.field == 2 then h.(data := Some(t.payload))
    else h
  }

  function HalvesOf(h: Halves, ts: seq<Token>): Halves
    decreases |ts|
  {
    if ts == [] then h else HalvesOf(HalvesAfter(h, ts[0]), ts[1..])
  }

  function BlockFrom(h: Halves, s: Bytes): Option<Option<Block>> {
    match Tokens(BlockLevel, s)
    case None => None
    case Some(ts) => Some(HalvesOf(h, ts).Whole())
  }

  lemma HalvesDepend(h: Halves, s: Bytes, t: Bytes)
    ensures Tokens(BlockLevel, s) == Tokens(BlockLevel, t) ==> BlockFrom(h, s) == BlockFrom(h, t)
    ensures Tokens(BlockLevel, s) == None ==> BlockFrom(h, s) == None
  {
    hide Tokens;
  }

  lemma HalvesStep(h: Halves, s: Bytes, t: Token, rest: Bytes)
    requires Tokens(BlockLevel, s) == Prepend(t, Tokens(BlockLevel, rest))
    ensures BlockFrom(h, s) == BlockFrom(HalvesAfter(h, t), rest)
  {
  }

  lemma HalvesDone(h: Halves)
    ensures BlockFrom(h, []) == Some(h.Whole())
  {
  }

  const NO_HALVES := Halves(None, None)

  method DecodePayloadBlock(bytes: Bytes) returns (block: Option<Option<Block>>)
    ensures block == BlockFrom(NO_HALVES, bytes)
  {
    hide Leading, BlockFrom, HalvesOf, Tokens, From, Upto;
    var h := NO_HALVES;
    var offset := 0;
    FromStart(bytes);
    while offset < |bytes|
      invariant BlockFrom(h, From(bytes, offset)) == BlockFrom(NO_HALVES, bytes)
      decreases |bytes| - offset
    {
      ghost var s := From(bytes, offset);
      TokensAt(BlockLevel, bytes, offset);
      var tag, tagLen := ReadVarint(bytes, offset);
      offset := offset + tagLen;
      HalvesDepend(h, s, From(bytes, offset));
      var fieldNum, wireType := tag / 8, tag % 8;
      if wireType == 2 {
        var len, lenLen := ReadVarint(bytes, offset);
        offset := offset + lenLen;
        if len < 0 {
          return None;
        }
        var fieldBytes := Upto(From(bytes, offset), len);
        offset := offset + len;
        HalvesStep(h, s, Chunk(fieldNum, fieldBytes), From(bytes, offset));
        if fieldNum == 1 {
          h := h.(prefix := Some(fieldBytes));
        } else if fieldNum == 2 {
          h := h.(data := Some(fieldBytes));
        }
      }
    }
    FromEnd(bytes, offset);
    HalvesDone(h);
    block := Some(h.Whole());
  }

  // ---------------------------------------------------------------- decoding a message

  function Both(a: Option<Decoded>, b: Option<Decoded>): Option<Decoded> {
    if a.None? || b.None? then None
    else Some(Decoded(a.value.wants + b.value.wants, a.value.blocks + b.value.blocks))
  }

  const NOTHING := Decoded([], [])

  function PartOf(lib: Library, t: Token): Option<Decoded> {
    if t.Chunk? && t.field == 1 then
      match WantsIn(lib, t.payload)
      case None => None
      case Some(wants) => Some(Decoded(wants, []))
    else if t.Chunk? && t.field == 3 then
      match BlockFrom(NO_HALVES, t.payload)
      case None => None
      case Some(None) => Some(NOTHING)
      case Some(Some(block)) => Some(Decoded([], [block]))
    else Some(NOTHING)
  }

  function MessageOf(lib: Library, ts: seq<Token>): Option<Decoded> {
    if ts == [] then Some(NOTHING) else Both(PartOf(lib, ts[0]), MessageOf(lib, ts[1..]))
  }

  /** What a message means: `None` only when some length in it reads as a negative number. */
  function MessageIn(lib: Library, s: Bytes): Option<Decoded> {
    match Tokens(MessageLevel, s)
    case None => None
    case Some(ts) => MessageOf(lib, ts)
  }

  lemma BothAssociative(a: Option<Decoded>, b: Option<Decoded>, c: Option<Decoded>)
    ensures Both(Both(a, b), c) == Both(a, Both(b, c))
    ensures Both(Some(NOTHING), a) == a == Both(a, Some(NOTHING))
  {
    if a.Some? {
      assert [] + a.value.wants == a.value.wants == a.value.wants + [];
      assert [] + a.value.blocks == a.value.blocks == a.value.blocks + [];
      if b.Some? && c.Some? {
        assert (a.value.wants + b.value.wants) + c.value.wants == a.value.wants + (b.value.wants + c.value.wants);
        assert (a.value.blocks + b.value.blocks) + c.value.blocks == a.value.blocks + (b.value.blocks + c.value.blocks);
      }
    }
  }

  lemma MessageStep(lib: Library, s: Bytes, t: Token, rest: Bytes)
    requires Tokens(MessageLevel, s) == Prepend(t, Tokens(MessageLevel, rest))
    ensures MessageIn(lib, s) == Both(PartOf(lib, t), MessageIn(lib, rest))
  {
  }

  lemma NegativeMessage(lib: Library, s: Bytes)
    requires Tokens(MessageLevel, s) == None
    ensures MessageIn(lib, s) == None
  {
  }

  lemma NoMessage(lib: Library, s: Bytes)
    requires s == [] || Tokens(MessageLevel, s) == Some([])
    ensures MessageIn(lib, s) == Some(NOTHING)
  {
  }

  method DecodeMessage(lib: Library, bytes: Bytes) returns (message: Option<Decoded>)
    ensures message == MessageIn(lib, bytes)
  {
    hide Leading, WantsIn, BlockFrom, MessageOf, MessageIn, Tokens, From, Upto;
    var wantBlocks := new JsArray<Cid>();
    var blocks := new JsArray<Block>();
    var offset := 0;
    FromStart(bytes);
    BothAssociative(MessageIn(lib, bytes), None, None);
    while offset < |bytes|
      invariant fresh(wantBlocks) && fresh(blocks)
      invariant Both(Some(Decoded(wantBlocks.items, blocks.items)), MessageIn(lib, From(bytes, offset))) ==
                MessageIn(lib, bytes)
      decreases |bytes| - offset
    {
      ghost var sofar := Decoded(wantBlocks.items, blocks.items);
      ghost var s := From(bytes, offset);
      TokensAt(MessageLevel, bytes, offset);
      var tag, tagLen := ReadVarint(bytes, offset);
      offset := offset + tagLen;
      var fieldNum, wireType := tag / 8, tag % 8;
      if wireType == 2 {
        var len, lenLen := ReadVarint(bytes, offset);
        offset := offset + lenLen;
        if len < 0 {
          NegativeMessage(lib, s);
          return None;
        }
        var fieldBytes := Upto(From(bytes, offset), len);
        offset := offset + len;
        ghost var t := Chunk(fieldNum, fieldBytes);
        MessageStep(lib, s, t, From(bytes, offset));
        BothAssociative(Some(sofar), PartOf(lib, t), MessageIn(lib, From(bytes, offset)));
        BothAssociative(Some(sofar), None, None);
        if fieldNum == 1 {
          var ok := DecodeWantlist(lib, fieldBytes, wantBlocks);
          if !ok {
            return None;
          }
        } else if fieldNum == 3 {
          var block := DecodePayloadBlock(fieldBytes);
          if block.None? {
            return None;
          }
          if block.value.Some? {
            blocks.Push(block.value.value);
          }
        }
      } else {
        NoMessage(lib, s);
        BothAssociative(Some(sofar), None, None);
        break;
      }
    }
    FromEnd(bytes, offset);
    NoMessage(lib, []);
    BothAssociative(Some(Decoded(wantBlocks.items, blocks.items)), None, None);
    message := Some(Decoded(wantBlocks.items, blocks.items));
  }

  // ---------------------------------------------------------------- rebuilding a CID

  /** The CID a received block is filed under: its digest is always computed from the data. */
  function PrefixToCid(lib: Library, prefix: Bytes, data: Bytes): (cid: Option<Cid>)
    ensures cid.Some? ==> lib.Names(cid.value, data)
  {
    var version := Leading(prefix);
    var codec := Leading(From(prefix, version.count));
    var hashAlg := Leading(From(prefix, version.count + codec.count));
    if hashAlg.value != SHA2_256 then None
    else if version.value == 0 then Some(Cid(0, DAG_PB, SHA2_256, lib.sha256(data)))
    else Some(Cid(1, codec.value, SHA2_256, lib.sha256(data)))
  }

  method ReadPrefix(lib: Library, prefix: Bytes, data: Bytes) returns (cid: Option<Cid>)
    ensures cid == PrefixToCid(lib, prefix, data)
  {
    hide Leading;
    var version, vLen0 := ReadVarint(prefix, 0);
    assert From(prefix, 0) == prefix;
    var codec, vLen1 := ReadVarint(prefix, vLen0);
    var hashAlg, _ := ReadVarint(prefix, vLen0 + vLen1);
    if hashAlg != SHA2_256 {
      return None;
    }
    var digest := lib.sha256(data);
    cid := Some(if version == 0 then Cid(0, DAG_PB, SHA2_256, digest) else Cid(1, codec, SHA2_256, digest));
  }
}
