/**
 * What a Bitswap message means, said of its fields and bytes: which CIDs it asks for, which blocks it
 * carries, and what the encoders' bytes are.
 */
module MessageMeaning {
  import opened Basics
  import opened Varints
  import opened Wire
  import opened Cids
  import opened Codec
  import opened CodecLaws
  import opened MessageTrees

  // ---------------------------------------------------------------- the last field of a kind

  /** The payload of the last length-delimited field with this number. */
  function LastPayload(fs: seq<Field>, num: nat): Option<Bytes> {
    if fs == [] then None
    else
      var f := fs[|fs| - 1];
      if f.LenField? && f.num == num then Some(f.payload) else LastPayload(fs[..|fs| - 1], num)
  }

  /** The value of the last varint field with this number, zero when there is none. */
  function LastValue(fs: seq<Field>, num: nat): int {
    if fs == [] then 0
    else
      var f := fs[|fs| - 1];
      if f.VarintField? && f.num == num then Leading(f.raw).value else LastValue(fs[..|fs| - 1], num)
  }

  lemma {:induction false} LastTokens(fs: seq<Field>, num: nat)
    requires num < 0x1000_0000 && forall f | f in fs :: f.Valid()
    ensures LastChunk(TokensOf(fs), num) == LastPayload(fs, num)
    ensures LastNumber(TokensOf(fs), num) == LastValue(fs, num)
    decreases |fs|
  {
    hide Leading, Complete;
    if fs != [] {
      var front, f := fs[..|fs| - 1], fs[|fs| - 1];
      assert f in fs;
      LastTokens(front, num);
      assert TokensOf(fs)[..|fs| - 1] == TokensOf(front);
    }
  }

  // ---------------------------------------------------------------- entries, wantlists, payloads

  /** An entry that asks for a block: its last cancel and its last wantType are zero, or missing. */
  predicate Live(fields: seq<Field>) {
    LastPayload(fields, 1).Some? && LastValue(fields, 3) == 0 && LastValue(fields, 4) == 0
  }

  function EntryCids(lib: Library, fields: seq<Field>): seq<Cid> {
    if Live(fields) && lib.decode(LastPayload(fields, 1).value).Some?
    then [lib.decode(LastPayload(fields, 1).value).value] else []
  }

  function WantlistCids(lib: Library, items: seq<WantlistItem>): seq<Cid> {
    if items == [] then []
    else (if items[0].Entry? then EntryCids(lib, items[0].fields) else []) + WantlistCids(lib, items[1..])
  }

  function WantedCids(lib: Library, tree: seq<MessageItem>): seq<Cid> {
    if tree == [] then []
    else (if tree[0].Wantlist? then WantlistCids(lib, tree[0].items) else []) + WantedCids(lib, tree[1..])
  }

  function PayloadBlock(fields: seq<Field>): seq<Block> {
    var prefix, data := LastPayload(fields, 1), LastPayload(fields, 2);
    if prefix.Some? && data.Some? then [Block(prefix.value, data.value)] else []
  }

  function CarriedBlocks(tree: seq<MessageItem>): seq<Block> {
    if tree == [] then []
    else (if tree[0].Payload? then PayloadBlock(tree[0].fields) else []) + CarriedBlocks(tree[1..])
  }

  lemma EntryMeans(lib: Library, fields: seq<Field>)
    requires WantlistItemOk(Entry(fields))
    ensures WantOf(lib, TokenOf(WantlistField(Entry(fields)))) == Some(EntryCids(lib, fields))
  {
    hide EncodeFields, Tokens, TokensOf, LastPayload, LastValue, LastChunk, LastNumber, EntryOf, Leading, Complete;
    TokensOfAll(EntryLevel, fields);
    LastFieldWins(TokensOf(fields));
    LastTokens(fields, 1);
    LastTokens(fields, 3);
    LastTokens(fields, 4);
  }

  lemma {:induction false} WantlistMeans(lib: Library, items: seq<WantlistItem>)
    requires forall w | w in items :: WantlistItemOk(w)
    ensures WantsOf(lib, TokensOf(WantlistFieldsOf(items))) == Some(WantlistCids(lib, items))
    decreases |items|
  {
    if items != [] {
      hide TokensOf, TokenOf, WantOf, WantlistField, WantlistItemOk, EntryCids, WantsOf;
      var item, tail := items[0], items[1..];
      assert item in items && items == [item] + tail;
      WantlistMeans(lib, tail);
      WantlistConsCount(item, tail);
      WantsOfCons(lib, WantlistField(item), WantlistFieldsOf(tail));
      match item {
        case Entry(fields) => EntryMeans(lib, fields);
        case OtherInWantlist(field) =>
          OtherItem(lib, field);
          Associative(WantlistCids(lib, tail), [], []);
      }
    }
  }

  lemma OtherItem(lib: Library, field: Field)
    requires WantlistItemOk(OtherInWantlist(field))
    ensures WantOf(lib, TokenOf(WantlistField(OtherInWantlist(field)))) == Some([])
  {
    OtherWant(lib, field);
  }

  lemma {:induction false} HalvesOfSnoc(h: Halves, ts: seq<Token>, t: Token)
    ensures HalvesOf(h, ts + [t]) == HalvesAfter(HalvesOf(h, ts), t)
    decreases |ts|
  {
    hide HalvesAfter;
    if ts == [] {
      assert ([] + [t])[1..] == [];
      assert HalvesOf(HalvesAfter(h, t), []) == HalvesAfter(h, t);
    } else {
      assert (ts + [t])[1..] == ts[1..] + [t];
      HalvesOfSnoc(HalvesAfter(h, ts[0]), ts[1..], t);
    }
  }

  lemma {:induction false} LastHalvesWin(ts: seq<Token>)
    ensures HalvesOf(NO_HALVES, ts) == Halves(LastChunk(ts, 1), LastChunk(ts, 2))
    decreases |ts|
  {
    if ts != [] {
      var front, t := ts[..|ts| - 1], ts[|ts| - 1];
      assert ts == front + [t];
      HalvesOfSnoc(NO_HALVES, front, t);
      LastHalvesWin(front);
    }
  }

  lemma LastOfCons(f: Field, tail: seq<Field>, num: nat)
    ensures LastPayload([f] + tail, num)
         == if LastPayload(tail, num).Some? then LastPayload(tail, num)
            else if f.LenField? && f.num == num then Some(f.payload) else None
    decreases |tail|
  {
    var fs := [f] + tail;
    if tail == [] {
      assert fs[..|fs| - 1] == [];
    } else {
      assert fs[..|fs| - 1] == [f] + tail[..|tail| - 1];
      LastOfCons(f, tail[..|tail| - 1], num);
    }
  }

  lemma {:induction false} LastWithout(fs: seq<Field>, num: nat)
    ensures LastPayload(WithoutPassedOver(fs), num) == LastPayload(fs, num)
    decreases |fs|
  {
    hide LastPayload;
    if fs != [] {
      var f, tail := fs[0], fs[1..];
      assert fs == [f] + tail;
      LastWithout(tail, num);
      LastOfCons(f, tail, num);
      if PassedOver(f) {
        assert WithoutPassedOver(fs) == [] + WithoutPassedOver(tail) == WithoutPassedOver(tail);
      } else {
        LastOfCons(f, WithoutPassedOver(tail), num);
      }
    }
  }

  lemma PayloadMeans(fields: seq<Field>)
    requires forall f | f in fields :: PayloadFieldOk(f)
    ensures var block := PayloadBlock(fields);
            BlockFrom(NO_HALVES, EncodeFields(fields)) == Some(if block == [] then None else Some(block[0]))
  {
    hide EncodeFields, Tokens, TokensOf, LastPayload, LastChunk, HalvesOf, PassedOver, Consumed;
    var kept := WithoutPassedOver(fields);
    PayloadTokens(fields);
    LastWithout(fields, 1);
    LastWithout(fields, 2);
    assert forall f | f in kept :: Consumed(BlockLevel, f);
    TokensOfAll(BlockLevel, kept);
    LastHalvesWin(TokensOf(kept));
    assert forall f | f in kept :: f.Valid() by {
      ConsumedIsValid(BlockLevel);
    }
    LastTokens(kept, 1);
    LastTokens(kept, 2);
  }

  lemma ConsumedIsValid(level: Level)
    ensures forall f :: Consumed(level, f) ==> f.Valid()
  {
  }

  // ---------------------------------------------------------------- the whole message

  lemma ItemMeans(lib: Library, item: MessageItem)
    requires MessageItemOk(item)
    ensures PartOf(lib, TokenOf(MessageField(item))) ==
            Some(Decoded(WantedCids(lib, [item]), CarriedBlocks([item])))
  {
    hide EncodeFields, Tokens, TokensOf, WantsOf, BlockFrom, WantlistFieldsOf, WantlistItemOk, Consumed, WantlistCids;
    hide PayloadBlock;
    assert [item][1..] == [];
    match item {
      case Wantlist(items) =>
        WantlistConsumed(items);
        TokensOfAll(WantlistLevel, WantlistFieldsOf(items));
        WantlistMeans(lib, items);
        Associative(WantlistCids(lib, items), [], []);
      case Payload(fields) =>
        PayloadMeans(fields);
        Associative(PayloadBlock(fields), [], []);
        OneBlock(fields);
      case OtherInMessage(field) =>
        UnknownHere(lib, field);
    }
  }

  lemma OneBlock(fields: seq<Field>)
    ensures PayloadBlock(fields) == [] || PayloadBlock(fields) == [PayloadBlock(fields)[0]]
  {
  }

  lemma UnknownHere(lib: Library, field: Field)
    requires Unknown(MessageLevel, field)
    ensures PartOf(lib, TokenOf(field)) == Some(NOTHING)
  {
    UnknownIsIgnored(lib, MessageLevel, field, NO_ENTRY, NO_HALVES);
  }

  lemma MeaningCons(lib: Library, item: MessageItem, tail: seq<MessageItem>)
    ensures WantedCids(lib, [item] + tail) == WantedCids(lib, [item]) + WantedCids(lib, tail)
    ensures CarriedBlocks([item] + tail) == CarriedBlocks([item]) + CarriedBlocks(tail)
  {
    hide WantlistCids, PayloadBlock;
    assert ([item] + tail)[1..] == tail && [item][1..] == [];
  }

  lemma {:induction false} PartsMean(lib: Library, tree: seq<MessageItem>)
    requires forall x | x in tree :: MessageItemOk(x)
    ensures MessageOf(lib, TokensOf(MessageFieldsOf(tree))) == Some(Decoded(WantedCids(lib, tree), CarriedBlocks(tree)))
    decreases |tree|
  {
    if tree != [] {
      hide TokensOf, TokenOf, PartOf, MessageField, MessageItemOk, MessageOf, WantedCids, CarriedBlocks;
      var item, tail := tree[0], tree[1..];
      assert item in tree && tree == [item] + tail;
      PartsMean(lib, tail);
      MessageCons(item, tail);
      MessageOfCons(lib, MessageField(item), MessageFieldsOf(tail));
      ItemMeans(lib, item);
      MeaningCons(lib, item, tail);
    }
  }

  /**
   * What a message means: decoded, it yields, in order, exactly the CIDs of the entries whose last cancel
   * and last wantType are zero, and exactly the blocks of the payloads that have a prefix and data,
   * whatever the order of the fields and whatever unknown fields stand among them.
   */
  lemma MessageMeans(lib: Library, tree: seq<MessageItem>)
    requires forall x | x in tree :: MessageItemOk(x)
    ensures MessageIn(lib, Encode(tree)) == Some(Decoded(WantedCids(lib, tree), CarriedBlocks(tree)))
  {
    hide EncodeFields, Tokens, TokensOf, MessageOf, MessageItemOk, Consumed, MessageFieldsOf, WantedCids, CarriedBlocks;
    MessageConsumed(tree);
    TokensOfAll(MessageLevel, MessageFieldsOf(tree));
    PartsMean(lib, tree);
  }

  // ---------------------------------------------------------------- entries as a peer writes them

  /** An entry for a CID, in whatever fields. */
  datatype Asking = Asking(cid: Cid, fields: seq<Field>)

  /** The CIDs asked for as blocks and not cancelled. */
  function LiveCids(asks: seq<Asking>): seq<Cid> {
    if asks == [] then []
    else
      var a := asks[0];
      (if LastValue(a.fields, 3) == 0 && LastValue(a.fields, 4) == 0 then [a.cid] else []) + LiveCids(asks[1..])
  }

  predicate AskingOk(lib: Library, a: Asking) {
    a.cid.WellFormed() && LastPayload(a.fields, 1) == Some(lib.bytesOf(a.cid)) && WantlistItemOk(Entry(a.fields))
  }

  function AskingItems(asks: seq<Asking>): seq<WantlistItem> {
    seq(|asks|, i requires 0 <= i < |asks| => Entry(asks[i].fields))
  }

  lemma {:induction false} LiveEntries(lib: Library, asks: seq<Asking>)
    requires lib.Lawful() && forall a | a in asks :: AskingOk(lib, a)
    ensures WantlistCids(lib, AskingItems(asks)) == LiveCids(asks)
    decreases |asks|
  {
    if asks != [] {
      hide WantlistItemOk, LastPayload, LastValue;
      assert asks[0] in asks;
      LiveEntries(lib, asks[1..]);
      assert AskingItems(asks)[1..] == AskingItems(asks[1..]);
    }
  }

  /**
   * Cancels and want-haves are not wants: a wantlist of any entries for any CIDs decodes to exactly the
   * CIDs of those whose last wantType is 0 and whose last cancel is 0, in order.
   */
  lemma OnlyLiveEntries(lib: Library, asks: seq<Asking>)
    requires lib.Lawful() && forall a | a in asks :: AskingOk(lib, a)
    requires |EncodeFields(WantlistFieldsOf(AskingItems(asks)))| < TWO_31
    ensures MessageIn(lib, Encode([Wantlist(AskingItems(asks))])) == Some(Decoded(LiveCids(asks), []))
  {
    hide MessageIn, Encode, EncodeFields, WantlistFieldsOf, WantlistItemOk, WantlistCids, LiveCids, LastPayload;
    var items := AskingItems(asks);
    assert forall w | w in items :: WantlistItemOk(w) by {
      assert forall i | 0 <= i < |asks| :: asks[i] in asks;
    }
    var tree := [Wantlist(items)];
    assert tree[1..] == [];
    MessageMeans(lib, tree);
    LiveEntries(lib, asks);
    Associative(LiveCids(asks), [], []);
  }

  // ---------------------------------------------------------------- other wire types

  /** At a tag of wire type 1, 3, 4, 5, 6 or 7 three loops stop, and the other three go on right behind it. */
  lemma OtherWireTypes(level: Level, num: nat, wire: nat, rest: Bytes)
    requires num < 0x2000_0000 && wire < 8 && wire != 0 && wire != 2
    ensures Tokens(level, Varint(8 * num + wire) + rest) ==
      match level
      case MessageLevel => Some([])
      case NodeLevel => Some([])
      case LinkLevel => Some([])
      case _ => Tokens(level, rest)
  {
    hide Varint, ToInt32, ReadAt, Tokens;
    var s := Varint(8 * num + wire) + rest;
    FromStart(s);
    VarintNotEmpty(8 * num + wire);
    TokensAt(level, s, 0);
    ReadVarintAtLevel(level, 8 * num + wire, rest);
    TagReads(num, wire);
    assert From(s, |Varint(8 * num + wire)|) == rest;
  }

  lemma VarintNotEmpty(n: nat)
    ensures Varint(n) != []
  {
  }

  /** A length that promises more bytes than there are: the payload is the part that is there. */
  lemma CutPayload(level: Level, num: nat, payload: Bytes, k: nat)
    requires Consumed(level, LenField(num, payload)) && k <= |payload|
    ensures Tokens(level, Varint(8 * num + 2) + Varint(|payload|) + payload[..k])
         == Some([Chunk(SeenNumber(num), payload[..k])])
  {
    hide Varint, ToInt32, ReadAt, Tokens;
    var tag, len, part := Varint(8 * num + 2), Varint(|payload|), payload[..k];
    var s := tag + len + part;
    assert s == tag + (len + part);
    FromStart(s);
    VarintNotEmpty(8 * num + 2);
    TokensAt(level, s, 0);
    TagReads(num, 2);
    ReadVarintAtLevel(level, 8 * num + 2, len + part);
    assert From(s, |tag|) == len + part;
    ReadVarintAtLevel(level, |payload|, part);
    ReadBack(|payload|, []);
    assert From(s, |tag| + |len|) == part && Upto(part, |payload|) == part;
    assert From(s, |tag| + |len| + |payload|) == [];
    NoTokensAt(level);
    assert [Chunk(SeenNumber(num), part)] + [] == [Chunk(SeenNumber(num), part)];
  }

  lemma NoTokensAt(level: Level)
    ensures Tokens(level, []) == Some([])
  {
  }

  // ---------------------------------------------------------------- the encoders' bytes

  lemma SmallVarint(n: nat)
    requires n <= 127
    ensures Varint(n) == [n]
  {
    VarintLast(n);
  }

  lemma FieldBytes(num: nat, payload: Bytes, n: nat)
    requires num <= 15 && n <= 127
    ensures EncodeField(LenField(num, payload)) == [8 * num + 2] + Varint(|payload|) + payload
    ensures EncodeField(VarintField(num, Varint(n))) == [8 * num, n]
  {
    hide Varint;
    SmallVarint(8 * num + 2);
    SmallVarint(8 * num);
    SmallVarint(n);
  }

  /**
   * The want message, byte for byte, as the Bitswap 1.2.0 specification lays it out: one entry with the
   * CID, priority 1, wantType block and sendDontHave, in a wantlist that is not full.
   */
  lemma WantLayout(lib: Library, cid: Cid)
    ensures var bytes := lib.bytesOf(cid);
            var entry := [0x0a] + Varint(|bytes|) + bytes + [0x10, 1, 0x20, 0, 0x28, 1];
            var wantlist := [0x0a] + Varint(|entry|) + entry + [0x10, 0];
            WantMessage(lib, cid) == [0x0a] + Varint(|wantlist|) + wantlist
  {
    hide Varint, EncodeField;
    var bytes := lib.bytesOf(cid);
    var entry := [0x0a] + Varint(|bytes|) + bytes + [0x10, 1, 0x20, 0, 0x28, 1];
    var wantlist := [0x0a] + Varint(|entry|) + entry + [0x10, 0];
    FieldBytes(1, bytes, 0);
    FieldBytes(2, [], 1);
    FieldBytes(4, [], 0);
    FieldBytes(5, [], 1);
    FieldBytes(2, [], 0);
    var fs := EntryFields(lib, cid);
    FourFields(fs);
    assert EncodeFields(fs) == entry;
    var ws := WantlistFields(lib, cid);
    FieldBytes(1, entry, 0);
    TwoFields(ws);
    assert EncodeFields(ws) == wantlist;
    FieldBytes(1, wantlist, 0);
  }

  lemma TwoFields(fs: seq<Field>)
    requires |fs| == 2
    ensures EncodeFields(fs) == EncodeField(fs[0]) + EncodeField(fs[1])
  {
    hide EncodeField;
    assert fs[1..][1..] == [];
    assert EncodeFields(fs[1..]) == EncodeField(fs[1]) + [];
  }

  lemma FourFields(fs: seq<Field>)
    requires |fs| == 4
    ensures EncodeFields(fs) == EncodeField(fs[0]) + (EncodeField(fs[1]) + (EncodeField(fs[2]) + EncodeField(fs[3])))
  {
    hide EncodeField;
    TwoFields(fs[2..]);
    assert fs[1..][1..] == fs[2..];
    assert EncodeFields(fs[1..]) == EncodeField(fs[1]) + EncodeFields(fs[2..]);
  }

  /** The block message, byte for byte: the prefix is version, codec, hash and digest length. */
  lemma BlockLayout(cid: Cid, data: Bytes)
    requires cid.WellFormed() && cid.hashCode == SHA2_256 && |cid.digest| == 32
    ensures var prefix := [cid.version] + Varint(cid.codec) + [0x12, 0x20];
            var block := [0x0a] + Varint(|prefix|) + prefix + [0x12] + Varint(|data|) + data;
            BlockMessage(cid, data) == [0x1a] + Varint(|block|) + block
  {
    hide Varint, EncodeField;
    SmallVarint(cid.version);
    SmallVarint(0x12);
    SmallVarint(0x20);
    var prefix := [cid.version] + Varint(cid.codec) + [0x12, 0x20];
    assert Prefix(cid) == prefix;
    var block := [0x0a] + Varint(|prefix|) + prefix + [0x12] + Varint(|data|) + data;
    FieldBytes(1, prefix, 0);
    FieldBytes(2, data, 0);
    TwoFields(BlockFields(cid, data));
    assert EncodeFields(BlockFields(cid, data)) == block;
    FieldBytes(3, block, 0);
  }

  /** What a received prefix makes of the data: only SHA-256 gives a CID, and only version 0 a CID of version 0. */
  lemma PrefixMeans(lib: Library, version: nat, codec: nat, hash: nat, tail: Bytes, data: Bytes)
    requires version < TWO_31 && codec < TWO_31 && hash < TWO_31
    ensures var prefix := Varint(version) + Varint(codec) + Varint(hash) + tail;
            PrefixToCid(lib, prefix, data) ==
              if hash != 0x12 then None
              else if version == 0 then Some(Cid(0, 0x70, 0x12, lib.sha256(data)))
              else Some(Cid(1, codec, 0x12, lib.sha256(data)))
  {
    hide Varint, Leading, ToInt32;
    var a, b, c := Varint(version), Varint(codec), Varint(hash);
    var s := a + b + c + tail;
    assert s == a + (b + (c + tail));
    ReadBack(version, b + (c + tail));
    assert From(s, |a|) == b + (c + tail);
    ReadBack(codec, c + tail);
    assert From(s, |a| + |b|) == c + tail;
    ReadBack(hash, tail);
  }
}
