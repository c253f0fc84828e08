/** What the Bitswap codec promises: inverse, order, last value wins, unknown fields, size, identity. */
module CodecLaws {
  import opened Basics
  import opened Varints
  import opened Wire
  import opened Cids
  import opened Codec

  // ---------------------------------------------------------------- the last value wins

  /** The payload of the last length-delimited token with this field number. */
  function LastChunk(ts: seq<Token>, field: int): Option<Bytes> {
    if ts == [] then None
    else
      var t := ts[|ts| - 1];
      if t.Chunk? && t.field == field then Some(t.payload) else LastChunk(ts[..|ts| - 1], field)
  }

  /** The value of the last varint token with this field number, zero when there is none. */
  function LastNumber(ts: seq<Token>, field: int): int {
    if ts == [] then 0
    else
      var t := ts[|ts| - 1];
      if t.Number? && t.field == field then t.value else LastNumber(ts[..|ts| - 1], field)
  }

  lemma {:induction false} EntryOfSnoc(e: WantEntry, ts: seq<Token>, t: Token)
    ensures EntryOf(e, ts + [t]) == EntryAfter(EntryOf(e, ts), t)
    decreases |ts|
  {
    hide EntryAfter;
    if ts == [] {
      EntryOfNone(EntryAfter(e, t));
    } else {
      assert (ts + [t])[1..] == ts[1..] + [t];
      EntryOfSnoc(EntryAfter(e, ts[0]), ts[1..], t);
    }
  }

  /** Within an entry the last `block`, `cancel` and `wantType` fields decide, wherever they stand. */
  lemma {:induction false} LastFieldWins(ts: seq<Token>)
    ensures EntryOf(NO_ENTRY, ts) == WantEntry(LastChunk(ts, 1), LastNumber(ts, 4), LastNumber(ts, 3) != 0)
    decreases |ts|
  {
    if ts != [] {
      var front, t := ts[..|ts| - 1], ts[|ts| - 1];
      assert ts == front + [t];
      EntryOfSnoc(NO_ENTRY, front, t);
      LastFieldWins(front);
    }
  }

  // ---------------------------------------------------------------- unknown fields

  /** The fields whose value the decoder at this level uses. */
  predicate Known(level: Level, f: Field) {
    match level
    case MessageLevel => f.LenField? && (f.num == 1 || f.num == 3)
    case WantlistLevel => f.LenField? && f.num == 1
    case EntryLevel => if f.LenField? then f.num == 1 else f.num == 3 || f.num == 4
    case BlockLevel => f.LenField? && (f.num == 1 || f.num == 2)
    case NodeLevel => f.LenField? && (f.num == 1 || f.num == 2)
    case LinkLevel => if f.LenField? then f.num == 1 || f.num == 2 else f.num == 3
  }

  function KnownOnly(level: Level, fs: seq<Field>): (kept: seq<Field>)
    ensures forall f | f in kept :: f in fs && Known(level, f)
  {
    if fs == [] then []
    else (if Known(level, fs[0]) then [fs[0]] else []) + KnownOnly(level, fs[1..])
  }

  lemma TokensOfCons(f: Field, fs: seq<Field>)
    ensures TokensOf([f] + fs) == [TokenOf(f)] + TokensOf(fs)
    ensures TokensOf([f] + fs)[0] == TokenOf(f) && TokensOf([f] + fs)[1..] == TokensOf(fs)
  {
  }

  /** A field the decoder does not use changes nothing when its token arrives. */
  lemma UnknownIsIgnored(lib: Library, level: Level, f: Field, e: WantEntry, h: Halves)
    requires !level.NodeLevel? && !level.LinkLevel?
    requires Consumed(level, f) && !Known(level, f)
    ensures match level
            case MessageLevel => PartOf(lib, TokenOf(f)) == Some(NOTHING)
            case WantlistLevel => WantOf(lib, TokenOf(f)) == Some([])
            case EntryLevel => EntryAfter(e, TokenOf(f)) == e
            case BlockLevel => HalvesAfter(h, TokenOf(f)) == h
  {
    hide WantsIn, BlockFrom, EntryFrom, Leading;
  }

  lemma {:induction false} EntryOfKnown(lib: Library, e: WantEntry, fs: seq<Field>)
    requires forall f | f in fs :: Consumed(EntryLevel, f)
    ensures EntryOf(e, TokensOf(fs)) == EntryOf(e, TokensOf(KnownOnly(EntryLevel, fs)))
    decreases |fs|
  {
    if fs != [] {
      hide TokensOf, TokenOf, EntryAfter, HalvesAfter, WantOf, PartOf;
      var f, tail := fs[0], fs[1..];
      assert fs == [f] + tail && f in fs;
      TokensOfCons(f, tail);
      EntryOfKnown(lib, EntryAfter(e, TokenOf(f)), tail);
      if Known(EntryLevel, f) {
        TokensOfCons(f, KnownOnly(EntryLevel, tail));
      } else {
        UnknownIsIgnored(lib, EntryLevel, f, e, NO_HALVES);
        assert KnownOnly(EntryLevel, fs) == KnownOnly(EntryLevel, tail);
      }
    }
  }

  lemma {:induction false} WantsOfKnown(lib: Library, fs: seq<Field>)
    requires forall f | f in fs :: Consumed(WantlistLevel, f)
    ensures WantsOf(lib, TokensOf(fs)) == WantsOf(lib, TokensOf(KnownOnly(WantlistLevel, fs)))
    decreases |fs|
  {
    if fs != [] {
      hide TokensOf, TokenOf, EntryAfter, HalvesAfter, WantOf, PartOf;
      var f, tail := fs[0], fs[1..];
      assert fs == [f] + tail && f in fs;
      TokensOfCons(f, tail);
      WantsOfKnown(lib, tail);
      if Known(WantlistLevel, f) {
        TokensOfCons(f, KnownOnly(WantlistLevel, tail));
      } else {
        UnknownIsIgnored(lib, WantlistLevel, f, NO_ENTRY, NO_HALVES);
        JoinAssociative(WantsOf(lib, TokensOf(tail)), None, None);
        assert KnownOnly(WantlistLevel, fs) == KnownOnly(WantlistLevel, tail);
      }
    }
  }

  lemma {:induction false} MessageOfKnown(lib: Library, fs: seq<Field>)
    requires forall f | f in fs :: Consumed(MessageLevel, f)
    ensures MessageOf(lib, TokensOf(fs)) == MessageOf(lib, TokensOf(KnownOnly(MessageLevel, fs)))
    decreases |fs|
  {
    if fs != [] {
      hide TokensOf, TokenOf, EntryAfter, HalvesAfter, WantOf, PartOf;
      var f, tail := fs[0], fs[1..];
      assert fs == [f] + tail && f in fs;
      TokensOfCons(f, tail);
      MessageOfKnown(lib, tail);
      if Known(MessageLevel, f) {
        TokensOfCons(f, KnownOnly(MessageLevel, tail));
      } else {
        BothAssociative(MessageOf(lib, TokensOf(tail)), None, None);
        UnknownIsIgnored(lib, MessageLevel, f, NO_ENTRY, NO_HALVES);
        assert KnownOnly(MessageLevel, fs) == KnownOnly(MessageLevel, tail);
      }
    }
  }

  lemma {:induction false} HalvesOfKnown(lib: Library, h: Halves, fs: seq<Field>)
    requires forall f | f in fs :: Consumed(BlockLevel, f)
    ensures HalvesOf(h, TokensOf(fs)) == HalvesOf(h, TokensOf(KnownOnly(BlockLevel, fs)))
    decreases |fs|
  {
    if fs != [] {
      hide TokensOf, TokenOf, EntryAfter, HalvesAfter, WantOf, PartOf;
      var f, tail := fs[0], fs[1..];
      assert fs == [f] + tail && f in fs;
      TokensOfCons(f, tail);
      HalvesOfKnown(lib, HalvesAfter(h, TokenOf(f)), tail);
      if Known(BlockLevel, f) {
        TokensOfCons(f, KnownOnly(BlockLevel, tail));
      } else {
        UnknownIsIgnored(lib, BlockLevel, f, NO_ENTRY, h);
        assert KnownOnly(BlockLevel, fs) == KnownOnly(BlockLevel, tail);
      }
    }
  }

  /**
   * Forward compatibility: at each of the four levels, any fields a newer peer adds among those the loop
   * consumes, anywhere and any number of them, leave what is decoded unchanged.
   */
  lemma ForwardCompatible(lib: Library, level: Level, fs: seq<Field>)
    requires !level.NodeLevel? && !level.LinkLevel?
    requires forall f | f in fs :: Consumed(level, f)
    ensures var s, known := EncodeFields(fs), EncodeFields(KnownOnly(level, fs));
            match level
            case MessageLevel => MessageIn(lib, s) == MessageIn(lib, known)
            case WantlistLevel => WantsIn(lib, s) == WantsIn(lib, known)
            case EntryLevel => EntryFrom(NO_ENTRY, s) == EntryFrom(NO_ENTRY, known)
            case BlockLevel => BlockFrom(NO_HALVES, s) == BlockFrom(NO_HALVES, known)
  {
    hide EncodeFields, Tokens, TokensOf;
    TokensOfAll(level, fs);
    TokensOfAll(level, KnownOnly(level, fs));
    match level {
      case MessageLevel => MessageOfKnown(lib, fs);
      case WantlistLevel => WantsOfKnown(lib, fs);
      case EntryLevel => EntryOfKnown(lib, NO_ENTRY, fs);
      case BlockLevel => HalvesOfKnown(lib, NO_HALVES, fs);
    }
  }

  lemma VarintFieldStops(stop: Field, rest: Bytes)
    requires stop.Valid() && stop.VarintField?
    ensures Tokens(MessageLevel, EncodeField(stop) + rest) == Some([])
  {
    hide Varint, ToInt32, ReadAt, Tokens;
    var s := EncodeField(stop) + rest;
    FromStart(s);
    TokensAt(MessageLevel, s, 0);
    assert s == Varint(8 * stop.num) + (stop.raw + rest);
    ReadVarintAtLevel(MessageLevel, 8 * stop.num, stop.raw + rest);
    TagReads(stop.num, 0);
  }

  /**
   * The one top-level field that is not skipped: at a varint field the message loop stops, so that
   * nothing after it is decoded.
   */
  lemma StopsAtVarint(lib: Library, fs: seq<Field>, stop: Field, rest: Bytes)
    requires forall f | f in fs :: Consumed(MessageLevel, f)
    requires stop.Valid() && stop.VarintField?
    ensures MessageIn(lib, EncodeFields(fs) + (EncodeField(stop) + rest)) == MessageIn(lib, EncodeFields(fs))
  {
    hide EncodeField, EncodeFields, Tokens, TokensOf, MessageOf, Consumed;
    VarintFieldStops(stop, rest);
    TokensOfFields(MessageLevel, fs, EncodeField(stop) + rest);
    TokensOfAll(MessageLevel, fs);
    Associative(TokensOf(fs), [], []);
  }

  // ---------------------------------------------------------------- the encoders' own messages

  /** One encoded message: a want for a CID or a block. */
  datatype Part = Want(cid: Cid) | Carry(cid: Cid, data: Bytes)

  function EncodePart(lib: Library, p: Part): Bytes {
    match p
    case Want(cid) => WantMessage(lib, cid)
    case Carry(cid, data) => BlockMessage(cid, data)
  }

  predicate Encodable(lib: Library, p: Part) {
    p.cid.WellFormed() && |EncodePart(lib, p)| < TWO_31
  }

  function WantedBy(parts: seq<Part>): seq<Cid> {
    if parts == [] then []
    else (if parts[0].Want? then [parts[0].cid] else []) + WantedBy(parts[1..])
  }

  function CarriedBy(parts: seq<Part>): seq<Block> {
    if parts == [] then []
    else (if parts[0].Carry? then [Block(Prefix(parts[0].cid), parts[0].data)] else []) + CarriedBy(parts[1..])
  }

  function EncodeParts(lib: Library, parts: seq<Part>): seq<Bytes> {
    seq(|parts|, i requires 0 <= i < |parts| => EncodePart(lib, parts[i]))
  }

  lemma {:induction false} FieldInside(fs: seq<Field>, i: nat)
    requires i < |fs| && fs[i].LenField?
    ensures |fs[i].payload| <= |EncodeFields(fs)|
  {
    if i > 0 {
      FieldInside(fs[1..], i - 1);
    }
  }

  lemma VarintsOfOne()
    ensures Complete(Varint(0)) && Complete(Varint(1))
    ensures Leading(Varint(0)).value == 0 && Leading(Varint(1)).value == 1
  {
    VarintComplete(0);
    VarintComplete(1);
    ReadBack(0, []);
    ReadBack(1, []);
    assert Varint(0) + [] == Varint(0) && Varint(1) + [] == Varint(1);
  }

  lemma EntryOfCons(e: WantEntry, t: Token, ts: seq<Token>)
    ensures EntryOf(e, [t] + ts) == EntryOf(EntryAfter(e, t), ts)
  {
    hide EntryAfter;
    assert ([t] + ts)[1..] == ts;
  }

  lemma EntryReadBack(lib: Library, cid: Cid)
    requires |lib.bytesOf(cid)| < TWO_31
    ensures EntryFrom(NO_ENTRY, EncodeFields(EntryFields(lib, cid)))
         == Some(WantEntry(Some(lib.bytesOf(cid)), 0, false))
  {
    hide EncodeFields, Tokens, Varint, Leading, TokensOf, EntryOf;
    VarintsOfOne();
    ReadBack(0, []);
    ReadBack(1, []);
    TokensOfAll(EntryLevel, EntryFields(lib, cid));
    EntryTokens(lib, cid);
    var e := WantEntry(Some(lib.bytesOf(cid)), 0, false);
    EntryOfCons(NO_ENTRY, Chunk(1, lib.bytesOf(cid)), [Number(2, 1)] + ([Number(4, 0)] + ([Number(5, 1)] + [])));
    EntryOfCons(e, Number(2, 1), [Number(4, 0)] + ([Number(5, 1)] + []));
    EntryOfCons(e, Number(4, 0), [Number(5, 1)] + []);
    EntryOfCons(e, Number(5, 1), []);
    EntryOfNone(e);
  }

  lemma EntryTokens(lib: Library, cid: Cid)
    ensures TokensOf(EntryFields(lib, cid))
         == [Chunk(1, lib.bytesOf(cid))] + ([Number(2, 1)] + ([Number(4, 0)] + ([Number(5, 1)] + [])))
  {
    hide Varint, Leading;
    VarintsOfOne();
  }

  lemma WantlistReadBack(lib: Library, cid: Cid)
    requires lib.Lawful() && cid.WellFormed()
    requires |EncodeFields(WantlistFields(lib, cid))| < TWO_31
    ensures WantsIn(lib, EncodeFields(WantlistFields(lib, cid))) == Some([cid])
  {
    hide EncodeFields, Tokens, Varint, Leading;
    hide TokensOf, EntryFrom;
    var fs := WantlistFields(lib, cid);
    FieldInside(fs, 0);
    FieldInside(EntryFields(lib, cid), 0);
    VarintsOfOne();
    ReadBack(0, []);
    TokensOfAll(WantlistLevel, fs);
    EntryReadBack(lib, cid);
    var ts := [Chunk(1, EncodeFields(EntryFields(lib, cid))), Number(2, 0)];
    WantlistTokens(lib, cid);
    assert WantOf(lib, ts[0]) == Some([cid]) && WantOf(lib, ts[1]) == Some([]);
    WantsOfTwo(lib, ts);
    assert [cid] + [] == [cid];
  }

  lemma WantlistTokens(lib: Library, cid: Cid)
    ensures TokensOf(WantlistFields(lib, cid))
         == [Chunk(1, EncodeFields(EntryFields(lib, cid))), Number(2, 0)]
  {
    hide Varint, Leading, EncodeFields;
    VarintsOfOne();
  }

  lemma WantsOfTwo(lib: Library, ts: seq<Token>)
    requires |ts| == 2
    ensures WantsOf(lib, ts) == Join(WantOf(lib, ts[0]), WantOf(lib, ts[1]))
  {
    hide WantOf;
    assert ts[1..] == [ts[1]] && ts[1..][1..] == [];
    JoinAssociative(WantOf(lib, ts[1]), None, None);
    assert WantsOf(lib, ts[1..][1..]) == Some([]);
    assert WantsOf(lib, ts[1..]) == WantOf(lib, ts[1]);
  }

  lemma BlockReadBack(cid: Cid, data: Bytes)
    requires cid.WellFormed() && |EncodeFields(BlockFields(cid, data))| < TWO_31
    ensures BlockFrom(NO_HALVES, EncodeFields(BlockFields(cid, data))) == Some(Some(Block(Prefix(cid), data)))
  {
    hide EncodeFields, Tokens, Prefix;
    var fs := BlockFields(cid, data);
    FieldInside(fs, 0);
    FieldInside(fs, 1);
    TokensOfAll(BlockLevel, fs);
    var ts := [Chunk(1, Prefix(cid)), Chunk(2, data)];
    assert TokensOf(fs) == ts;
    assert ts[1..] == [ts[1]] && ts[1..][1..] == [];
    var h1 := HalvesAfter(NO_HALVES, ts[0]);
    assert HalvesOf(NO_HALVES, ts) == HalvesOf(h1, ts[1..]) == HalvesOf(HalvesAfter(h1, ts[1]), ts[1..][1..]);
  }

  function PartField(lib: Library, p: Part): Field {
    match p
    case Want(cid) => LenField(1, EncodeFields(WantlistFields(lib, cid)))
    case Carry(cid, data) => LenField(3, EncodeFields(BlockFields(cid, data)))
  }

  lemma PartEncoded(lib: Library, p: Part)
    ensures EncodePart(lib, p) == EncodeField(PartField(lib, p))
    ensures |PartField(lib, p).payload| <= |EncodePart(lib, p)|
  {
    hide EncodeFields, Varint;
  }

  /** What one encoded message contributes, before anything that follows it. */
  lemma PartReadBack(lib: Library, p: Part, rest: Bytes)
    requires lib.Lawful() && Encodable(lib, p)
    ensures MessageIn(lib, EncodePart(lib, p) + rest)
         == Both(Some(Decoded(WantedBy([p]), CarriedBy([p]))), MessageIn(lib, rest))
  {
    hide EncodeField, EncodeFields, Tokens, Prefix, MessageIn, EncodePart, WantsIn, BlockFrom;
    var f := PartField(lib, p);
    PartEncoded(lib, p);
    TokensOfField(MessageLevel, f, rest);
    MessageStep(lib, EncodePart(lib, p) + rest, TokenOf(f), rest);
    PartDecoded(lib, p);
  }

  lemma PartDecoded(lib: Library, p: Part)
    requires lib.Lawful() && Encodable(lib, p)
    ensures PartOf(lib, TokenOf(PartField(lib, p))) == Some(Decoded(WantedBy([p]), CarriedBy([p])))
  {
    hide EncodeField, EncodeFields, Tokens, Prefix, EncodePart, WantsIn, BlockFrom;
    PartEncoded(lib, p);
    OnePart(p);
    match p {
      case Want(cid) => WantlistReadBack(lib, cid);
      case Carry(cid, data) => BlockReadBack(cid, data);
    }
  }

  lemma OnePart(p: Part)
    ensures WantedBy([p]) == (if p.Want? then [p.cid] else [])
    ensures CarriedBy([p]) == (if p.Carry? then [Block(Prefix(p.cid), p.data)] else [])
  {
    hide Prefix;
    assert [p][1..] == [];
  }

  lemma EncodePartsCons(lib: Library, p: Part, tail: seq<Part>)
    ensures EncodeParts(lib, [p] + tail) == [EncodePart(lib, p)] + EncodeParts(lib, tail)
    ensures Flatten(EncodeParts(lib, [p] + tail)) == EncodePart(lib, p) + Flatten(EncodeParts(lib, tail))
  {
    hide EncodePart;
    var xs := EncodeParts(lib, [p] + tail);
    assert xs == [EncodePart(lib, p)] + EncodeParts(lib, tail);
    assert xs[1..] == EncodeParts(lib, tail);
  }

  lemma PartsCons(p: Part, tail: seq<Part>)
    ensures WantedBy([p] + tail) == WantedBy([p]) + WantedBy(tail)
    ensures CarriedBy([p] + tail) == CarriedBy([p]) + CarriedBy(tail)
  {
    hide Prefix;
    assert ([p] + tail)[1..] == tail && [p][1..] == [];
  }

  /**
   * Decoding is a homomorphism: a message glued together from any list of encoded wants and blocks
   * decodes to exactly the wanted CIDs in order and exactly the blocks in order.
   */
  lemma {:induction false} DecodesParts(lib: Library, parts: seq<Part>)
    requires lib.Lawful() && forall p | p in parts :: Encodable(lib, p)
    ensures MessageIn(lib, Flatten(EncodeParts(lib, parts))) == Some(Decoded(WantedBy(parts), CarriedBy(parts)))
  {
    if parts == [] {
      NoMessage(lib, []);
    } else {
      hide EncodePart, MessageIn, Prefix, EncodeParts, WantedBy, CarriedBy;
      var p, tail := parts[0], parts[1..];
      assert parts == [p] + tail && p in parts;
      EncodePartsCons(lib, p, tail);
      PartReadBack(lib, p, Flatten(EncodeParts(lib, tail)));
      DecodesParts(lib, tail);
      PartsCons(p, tail);
    }
  }

  // ---------------------------------------------------------------- size

  function HalfSize(half: Option<Bytes>): nat {
    if half.Some? then |half.value| else 0
  }

  function BlocksSize(blocks: seq<Block>): nat {
    if blocks == [] then 0 else |blocks[0].prefix| + |blocks[0].data| + BlocksSize(blocks[1..])
  }

  lemma {:induction false} HalvesFit(h: Halves, ts: seq<Token>)
    ensures var r := HalvesOf(h, ts);
            HalfSize(r.prefix) + HalfSize(r.data) <= HalfSize(h.prefix) + HalfSize(h.data) + PayloadSize(ts)
    decreases |ts|
  {
    if ts != [] {
      HalvesFit(HalvesAfter(h, ts[0]), ts[1..]);
    }
  }

  lemma BlockFits(s: Bytes)
    requires BlockFrom(NO_HALVES, s).Some? && BlockFrom(NO_HALVES, s).value.Some?
    ensures var b := BlockFrom(NO_HALVES, s).value.value; |b.prefix| + |b.data| <= |s|
  {
    hide Tokens;
    TokensFit(BlockLevel, s);
    HalvesFit(NO_HALVES, Tokens(BlockLevel, s).value);
  }

  lemma {:induction false} BlocksSizeAppend(a: seq<Block>, b: seq<Block>)
    ensures BlocksSize(a + b) == BlocksSize(a) + BlocksSize(b)
  {
    if a == [] {
      assert a + b == b;
    } else {
      assert (a + b)[1..] == a[1..] + b;
      BlocksSizeAppend(a[1..], b);
    }
  }

  lemma {:induction false} MessageFits(lib: Library, ts: seq<Token>)
    ensures MessageOf(lib, ts).Some? ==> BlocksSize(MessageOf(lib, ts).value.blocks) <= PayloadSize(ts)
  {
    if ts != [] && MessageOf(lib, ts).Some? {
      hide WantsIn, BlockFrom;
      MessageFits(lib, ts[1..]);
      var part := PartOf(lib, ts[0]).value;
      BlocksSizeAppend(part.blocks, MessageOf(lib, ts[1..]).value.blocks);
      if part.blocks != [] {
        BlockFits(ts[0].payload);
        assert BlocksSize(part.blocks) <= |ts[0].payload|;
      }
    }
  }

  /** However a message nests, the prefixes and data it yields together are no longer than it is. */
  lemma DecodedFits(lib: Library, s: Bytes)
    requires MessageIn(lib, s).Some?
    ensures BlocksSize(MessageIn(lib, s).value.blocks) <= |s|
  {
    hide Tokens, MessageOf;
    TokensFit(MessageLevel, s);
    MessageFits(lib, Tokens(MessageLevel, s).value);
  }

  // ---------------------------------------------------------------- identity across the wire

  lemma PrefixReads(cid: Cid)
    requires cid.codec >= 0
    ensures var s := Prefix(cid);
            var v := Leading(s);
            var c := Leading(From(s, v.count));
            v.value == ToInt32(cid.version) && c.value == ToInt32(cid.codec) &&
            Leading(From(s, v.count + c.count)).value == ToInt32(cid.hashCode)
  {
    hide Varint, Leading, ToInt32;
    var s := Prefix(cid);
    var a, b, c, d := Varint(cid.version), Varint(cid.codec), Varint(cid.hashCode), Varint(|cid.digest|);
    assert s == a + (b + (c + d));
    ReadBack(cid.version, b + (c + d));
    assert From(s, |a|) == b + (c + d);
    ReadBack(cid.codec, c + d);
    assert From(s, |a| + |b|) == c + d;
    ReadBack(cid.hashCode, d);
  }

  /**
   * Block identity: the prefix sent with a block rebuilds the CID the block was asked for, of version 0
   * or 1, exactly when its codec is below 2^31.
   */
  lemma BlockIdentity(lib: Library, cid: Cid, data: Bytes)
    requires cid.WellFormed() && lib.Names(cid, data)
    ensures PrefixToCid(lib, Prefix(cid), data) == Some(cid) <==> cid.codec < TWO_31
  {
    hide Leading, Prefix;
    PrefixReads(cid);
    assert ToInt32(cid.version) == cid.version && ToInt32(cid.hashCode) == SHA2_256;
    if cid.version == 1 {
      SmallOnly(cid.codec);
    }
  }

  /** A block whose identity is lost: with codec 2^31 the rebuilt CID has codec -2^31. */
  lemma LargeCodecIsLost(lib: Library, data: Bytes)
    ensures var cid := Cid(1, TWO_31, SHA2_256, lib.sha256(data));
            cid.WellFormed() && lib.Names(cid, data) &&
            PrefixToCid(lib, Prefix(cid), data) == Some(cid.(codec := -0x8000_0000))
  {
    hide Leading, Prefix;
    PrefixReads(Cid(1, TWO_31, SHA2_256, lib.sha256(data)));
  }

  lemma SmallOnly(n: nat)
    ensures ToInt32(n) == n <==> n < TWO_31
  {
  }

  lemma PartMessage(lib: Library, p: Part)
    ensures EncodePart(lib, p) == match p
                                  case Want(cid) => WantMessage(lib, cid)
                                  case Carry(cid, data) => BlockMessage(cid, data)
  {
  }

  /** One encoded message by itself. */
  lemma PartAlone(lib: Library, p: Part)
    requires lib.Lawful() && Encodable(lib, p)
    ensures MessageIn(lib, EncodePart(lib, p)) == Some(Decoded(WantedBy([p]), CarriedBy([p])))
  {
    hide EncodePart, MessageIn, WantedBy, CarriedBy;
    PartReadBack(lib, p, []);
    assert EncodePart(lib, p) + [] == EncodePart(lib, p);
    NoMessage(lib, []);
    BothAssociative(Some(Decoded(WantedBy([p]), CarriedBy([p]))), None, None);
  }

  /** A block message gives back its one block, and that block rebuilds the CID. */
  lemma BlockSurvivesTheWire(lib: Library, cid: Cid, data: Bytes)
    requires lib.Lawful() && cid.WellFormed() && lib.Names(cid, data) && cid.codec < TWO_31
    requires |BlockMessage(cid, data)| < TWO_31
    ensures MessageIn(lib, BlockMessage(cid, data)) == Some(Decoded([], [Block(Prefix(cid), data)]))
    ensures PrefixToCid(lib, Prefix(cid), data) == Some(cid)
  {
    hide MessageIn, PrefixToCid, Prefix, EncodePart;
    var p := Carry(cid, data);
    assert EncodePart(lib, p) == BlockMessage(cid, data) by {
      PartMessage(lib, p);
    }
    PartAlone(lib, p);
    OnePart(p);
    BlockIdentity(lib, cid, data);
  }

  lemma WantSurvivesTheWire(lib: Library, cid: Cid)
    requires lib.Lawful() && cid.WellFormed() && |WantMessage(lib, cid)| < TWO_31
    ensures MessageIn(lib, WantMessage(lib, cid)) == Some(Decoded([cid], []))
  {
    hide MessageIn, Prefix, EncodePart;
    var p := Want(cid);
    assert EncodePart(lib, p) == WantMessage(lib, cid) by {
      PartMessage(lib, p);
    }
    PartAlone(lib, p);
    OnePart(p);
  }
}
