/**
 * Forward compatibility of whole messages: unknown fields at every level of a message at once, with the
 * lengths of everything around them re-encoded.
 */
module MessageTrees {
  import opened Basics
  import opened Varints
  import opened Wire
  import opened Cids
  import opened Codec
  import opened CodecLaws

  datatype WantlistItem = Entry(fields: seq<Field>) | OtherInWantlist(field: Field)

  datatype MessageItem =
    | Wantlist(items: seq<WantlistItem>)
    | Payload(fields: seq<Field>)
    | OtherInMessage(field: Field)

  function WantlistField(item: WantlistItem): Field {
    match item
    case Entry(fields) => LenField(1, EncodeFields(fields))
    case OtherInWantlist(field) => field
  }

  function WantlistFieldsOf(items: seq<WantlistItem>): seq<Field> {
    if items == [] then [] else [WantlistField(items[0])] + WantlistFieldsOf(items[1..])
  }

  function MessageField(item: MessageItem): Field {
    match item
    case Wantlist(items) => LenField(1, EncodeFields(WantlistFieldsOf(items)))
    case Payload(fields) => LenField(3, EncodeFields(fields))
    case OtherInMessage(field) => field
  }

  function MessageFieldsOf(items: seq<MessageItem>): seq<Field> {
    if items == [] then [] else [MessageField(items[0])] + MessageFieldsOf(items[1..])
  }

  function Encode(tree: seq<MessageItem>): Bytes {
    EncodeFields(MessageFieldsOf(tree))
  }

  // ---------------------------------------------------------------- without the unknown fields

  function StripEntries(items: seq<WantlistItem>): seq<WantlistItem> {
    if items == [] then []
    else
      (match items[0]
       case Entry(fields) => [Entry(KnownOnly(EntryLevel, fields))]
       case OtherInWantlist(_) => []) + StripEntries(items[1..])
  }

  /** The message an older peer would have written: no unknown field is left at any level. */
  function Strip(tree: seq<MessageItem>): seq<MessageItem> {
    if tree == [] then []
    else
      (match tree[0]
       case Wantlist(items) => [Wantlist(StripEntries(items))]
       case Payload(fields) => [Payload(KnownOnly(BlockLevel, fields))]
       case OtherInMessage(_) => []) + Strip(tree[1..])
  }

  predicate AllConsumed(level: Level, fs: seq<Field>) {
    forall f | f in fs :: Consumed(level, f)
  }

  predicate Unknown(level: Level, f: Field) {
    Consumed(level, f) && !Known(level, f)
  }

  predicate WantlistItemOk(item: WantlistItem) {
    match item
    case Entry(fields) => AllConsumed(EntryLevel, fields) && |EncodeFields(fields)| < TWO_31
    case OtherInWantlist(field) => Unknown(WantlistLevel, field)
  }

  /** In a payload a varint is passed over, unless its value is 2 modulo 8. */
  predicate PassedOver(f: Field) {
    f.Valid() && f.VarintField? && Leading(f.raw).value % 8 != 2
  }

  predicate PayloadFieldOk(f: Field) {
    Consumed(BlockLevel, f) || PassedOver(f)
  }

  predicate MessageItemOk(item: MessageItem) {
    match item
    case Wantlist(items) =>
      (forall w | w in items :: WantlistItemOk(w)) && |EncodeFields(WantlistFieldsOf(items))| < TWO_31
    case Payload(fields) => (forall f | f in fields :: PayloadFieldOk(f)) && |EncodeFields(fields)| < TWO_31
    case OtherInMessage(field) => Unknown(MessageLevel, field)
  }

  // ---------------------------------------------------------------- lengths only shrink

  lemma {:induction false} VarintGrows(m: nat, n: nat)
    requires m <= n < TWO_32
    ensures |Varint(m)| <= |Varint(n)|
    decreases n
  {
    if m > 127 {
      assert m % TWO_32 == m && n % TWO_32 == n;
      VarintGrows(m / 128, n / 128);
    }
  }

  lemma LenFieldGrows(num: nat, a: Bytes, b: Bytes)
    requires |a| <= |b| < TWO_31
    ensures |EncodeField(LenField(num, a))| <= |EncodeField(LenField(num, b))|
  {
    hide Varint;
    VarintGrows(|a|, |b|);
  }

  lemma {:induction false} KnownOnlyShrinks(level: Level, fs: seq<Field>)
    ensures |EncodeFields(KnownOnly(level, fs))| <= |EncodeFields(fs)|
  {
    hide EncodeField, Known;
    if fs != [] {
      KnownOnlyShrinks(level, fs[1..]);
      var tail := KnownOnly(level, fs[1..]);
      assert ([fs[0]] + tail)[1..] == tail && [] + tail == tail;
    }
  }

  lemma WantlistConsCount(item: WantlistItem, tail: seq<WantlistItem>)
    ensures WantlistFieldsOf([item] + tail) == [WantlistField(item)] + WantlistFieldsOf(tail)
    ensures EncodeFields(WantlistFieldsOf([item] + tail))
         == EncodeField(WantlistField(item)) + EncodeFields(WantlistFieldsOf(tail))
  {
    hide EncodeField, WantlistField;
    assert ([item] + tail)[1..] == tail;
    var fs := [WantlistField(item)] + WantlistFieldsOf(tail);
    assert fs[1..] == WantlistFieldsOf(tail);
  }

  lemma {:induction false} StripEntriesShrinks(items: seq<WantlistItem>)
    requires forall w | w in items :: WantlistItemOk(w)
    ensures |EncodeFields(WantlistFieldsOf(StripEntries(items)))| <= |EncodeFields(WantlistFieldsOf(items))|
    decreases |items|
  {
    if items != [] {
      hide EncodeField, EncodeFields, WantlistFieldsOf, AllConsumed, Unknown;
      var item, tail := items[0], items[1..];
      assert item in items && items == [item] + tail;
      StripEntriesShrinks(tail);
      WantlistConsCount(item, tail);
      match item {
        case Entry(fields) =>
          KnownOnlyShrinks(EntryLevel, fields);
          LenFieldGrows(1, EncodeFields(KnownOnly(EntryLevel, fields)), EncodeFields(fields));
          WantlistConsCount(Entry(KnownOnly(EntryLevel, fields)), StripEntries(tail));
        case OtherInWantlist(_) =>
          assert [] + StripEntries(tail) == StripEntries(tail);
      }
    }
  }

  // ---------------------------------------------------------------- wantlists

  lemma {:induction false} WantlistConsumed(items: seq<WantlistItem>)
    requires forall w | w in items :: WantlistItemOk(w)
    ensures AllConsumed(WantlistLevel, WantlistFieldsOf(items))
    ensures AllConsumed(WantlistLevel, WantlistFieldsOf(StripEntries(items)))
    decreases |items|
  {
    if items != [] {
      hide EncodeFields, KnownOnly, Known;
      var item, tail := items[0], items[1..];
      assert item in items;
      WantlistConsumed(tail);
      if item.Entry? {
        KnownOnlyShrinks(EntryLevel, item.fields);
        var kept := Entry(KnownOnly(EntryLevel, item.fields));
        assert StripEntries(items) == [kept] + StripEntries(tail);
        assert ([kept] + StripEntries(tail))[1..] == StripEntries(tail);
      } else {
        assert StripEntries(items) == StripEntries(tail);
      }
    }
  }

  lemma WantsOfCons(lib: Library, f: Field, tail: seq<Field>)
    ensures WantsOf(lib, TokensOf([f] + tail)) == Join(WantOf(lib, TokenOf(f)), WantsOf(lib, TokensOf(tail)))
  {
    hide WantOf, TokenOf, TokensOf;
    TokensOfCons(f, tail);
  }

  /** An entry means the same with and without its unknown fields. */
  lemma EntryStripped(lib: Library, fields: seq<Field>)
    requires AllConsumed(EntryLevel, fields)
    ensures WantOf(lib, TokenOf(WantlistField(Entry(fields))))
         == WantOf(lib, TokenOf(WantlistField(Entry(KnownOnly(EntryLevel, fields)))))
  {
    hide EncodeFields, EntryFrom, KnownOnly;
    ForwardCompatible(lib, EntryLevel, fields);
  }

  lemma {:induction false} WantsOfStripped(lib: Library, items: seq<WantlistItem>)
    requires forall w | w in items :: WantlistItemOk(w)
    ensures WantsOf(lib, TokensOf(WantlistFieldsOf(items)))
         == WantsOf(lib, TokensOf(WantlistFieldsOf(StripEntries(items))))
    decreases |items|
  {
    if items != [] {
      hide TokensOf, TokenOf, WantOf, WantlistField, KnownOnly, Known, Consumed, WantsOf;
      var item, tail := items[0], items[1..];
      assert item in items && items == [item] + tail;
      WantsOfStripped(lib, tail);
      WantlistConsCount(item, tail);
      WantsOfCons(lib, WantlistField(item), WantlistFieldsOf(tail));
      var rest := StripEntries(tail);
      match item {
        case Entry(fields) =>
          EntryStripped(lib, fields);
          var kept := Entry(KnownOnly(EntryLevel, fields));
          WantlistConsCount(kept, rest);
          WantsOfCons(lib, WantlistField(kept), WantlistFieldsOf(rest));
        case OtherInWantlist(field) =>
          OtherWant(lib, field);
          JoinAssociative(WantsOf(lib, TokensOf(WantlistFieldsOf(rest))), None, None);
          assert [] + rest == rest;
      }
    }
  }

  lemma OtherWant(lib: Library, field: Field)
    requires Unknown(WantlistLevel, field)
    ensures WantlistField(OtherInWantlist(field)) == field && WantOf(lib, TokenOf(field)) == Some([])
  {
    UnknownIsIgnored(lib, WantlistLevel, field, NO_ENTRY, NO_HALVES);
  }

  lemma WantlistStripped(lib: Library, items: seq<WantlistItem>)
    requires forall w | w in items :: WantlistItemOk(w)
    ensures WantsIn(lib, EncodeFields(WantlistFieldsOf(items)))
         == WantsIn(lib, EncodeFields(WantlistFieldsOf(StripEntries(items))))
  {
    hide EncodeFields, Tokens, TokensOf, WantlistItemOk, Consumed;
    WantlistConsumed(items);
    TokensOfAll(WantlistLevel, WantlistFieldsOf(items));
    TokensOfAll(WantlistLevel, WantlistFieldsOf(StripEntries(items)));
    WantsOfStripped(lib, items);
  }

  // ---------------------------------------------------------------- payloads

  /** The payload loop skips the tag of a varint field and reads the value as one more tag. */
  lemma ValueReadAsTag(f: Field, rest: Bytes)
    requires f.Valid() && f.VarintField?
    ensures Tokens(BlockLevel, EncodeField(f) + rest) == Tokens(BlockLevel, f.raw + rest)
  {
    hide Varint, ToInt32, ReadAt, Tokens;
    var s := EncodeField(f) + rest;
    FromStart(s);
    TokensAt(BlockLevel, s, 0);
    assert s == Varint(8 * f.num) + (f.raw + rest);
    ReadVarintAtLevel(BlockLevel, 8 * f.num, f.raw + rest);
    TagReads(f.num, 0);
    assert From(s, |Varint(8 * f.num)|) == f.raw + rest;
  }

  lemma ValueAsTag(raw: Bytes, rest: Bytes)
    requires Complete(raw) && |raw| <= 10 && Leading(raw).value % 8 != 2
    ensures Tokens(BlockLevel, raw + rest) == Tokens(BlockLevel, rest)
  {
    hide ReadAt, Leading, Tokens;
    var s := raw + rest;
    FromStart(s);
    TokensAt(BlockLevel, s, 0);
    ReadRawAtLevel(BlockLevel, raw, rest);
    assert From(s, |raw|) == rest;
  }

  /** A value that looks like the tag of a length-delimited field, with no byte behind it. */
  lemma ValueAsLastTag(raw: Bytes)
    requires Complete(raw) && |raw| <= 10 && Leading(raw).value % 8 == 2
    ensures Tokens(BlockLevel, raw) == Some([Chunk(Leading(raw).value / 8, [])])
  {
    hide ReadAt, Leading, Tokens, Complete;
    var field := Leading(raw).value / 8;
    ReadRawAtLevel(BlockLevel, raw, []);
    assert raw + [] == raw;
    FromStart(raw);
    NothingLeft(raw, |raw|);
    NotEmpty(raw);
    TokensAt(BlockLevel, raw, 0);
    assert Upto(From(raw, |raw| + 1), 0) == [];
    assert Tokens(BlockLevel, raw) == Prepend(Chunk(field, []), Some([]));
    assert [Chunk(field, [])] + [] == [Chunk(field, [])];
  }

  lemma NotEmpty(raw: Bytes)
    requires Complete(raw)
    ensures raw != []
  {
  }

  lemma NothingLeft(t: Bytes, n: nat)
    requires n == |t|
    ensures ReadAt(BlockLevel, From(t, n)) == Read(0, 1) && From(t, n + 1) == [] && Tokens(BlockLevel, []) == Some([])
  {
    assert From(t, n) == [];
    assert Accumulate(0, 0, 0) == 0 by {
      AccumulateBounds(0, 0, 0);
    }
  }

  /** A varint field is passed over, whatever follows it, exactly when its value is not 2 modulo 8. */
  lemma PassedOverIff(f: Field)
    requires f.Valid() && f.VarintField?
    ensures (forall rest :: Tokens(BlockLevel, EncodeField(f) + rest) == Tokens(BlockLevel, rest)) <==> PassedOver(f)
  {
    hide EncodeField, Leading, Tokens, Complete;
    forall rest
      ensures PassedOver(f) ==> Tokens(BlockLevel, EncodeField(f) + rest) == Tokens(BlockLevel, rest)
    {
      ValueReadAsTag(f, rest);
      if PassedOver(f) {
        ValueAsTag(f.raw, rest);
      }
    }
    if !PassedOver(f) {
      ValueReadAsTag(f, []);
      ValueAsLastTag(f.raw);
      assert f.raw + [] == f.raw;
      assert Tokens(BlockLevel, []) == Some([]) by {
        NoTokens();
      }
      assert Tokens(BlockLevel, EncodeField(f) + []) != Tokens(BlockLevel, []);
    }
  }

  lemma NoTokens()
    ensures Tokens(BlockLevel, []) == Some([])
  {
  }

  /** The harm it can do otherwise: after a varint field of value 10 the block has an empty prefix, and is lost. */
  lemma PayloadVarintLosesBlock(lib: Library, cid: Cid, data: Bytes)
    requires cid.WellFormed() && |EncodeFields(BlockFields(cid, data))| < TWO_31
    ensures var s := EncodeFields(BlockFields(cid, data)) + EncodeField(VarintField(3, [10]));
            BlockFrom(NO_HALVES, s) == Some(Some(Block([], data))) && PrefixToCid(lib, [], data) == None
  {
    hide EncodeFields, EncodeField, Tokens, Prefix, Leading, TokensOf, BlockFields, PrefixToCid, HalvesOf, Consumed;
    var f, fs := VarintField(3, [10]), BlockFields(cid, data);
    BlockFieldsTokens(cid, data);
    EmptyPrefix(lib, data);
    TokensOfFields(BlockLevel, fs, EncodeField(f));
    ValueTen();
    HalvesOverwritten(Prefix(cid), data);
    assert TokensOf(fs) + [Chunk(1, [])] == [Chunk(1, Prefix(cid)), Chunk(2, data), Chunk(1, [])];
  }

  lemma ValueTen()
    ensures Tokens(BlockLevel, EncodeField(VarintField(3, [10]))) == Some([Chunk(1, [])])
  {
    var f := VarintField(3, [10]);
    assert Leading([10]).value == 10 by {
      VarintLast(10);
      hide Leading, Varint;
      ReadBack(10, []);
      assert [10] + [] == [10];
    }
    hide EncodeField, Tokens, Leading;
    ValueReadAsTag(f, []);
    ValueAsLastTag(f.raw);
    assert EncodeField(f) + [] == EncodeField(f) && f.raw + [] == f.raw;
  }

  lemma HalvesOverwritten(prefix: Bytes, data: Bytes)
    ensures HalvesOf(NO_HALVES, [Chunk(1, prefix), Chunk(2, data), Chunk(1, [])]) == Halves(Some([]), Some(data))
  {
    var ts := [Chunk(1, prefix), Chunk(2, data), Chunk(1, [])];
    assert ts[1..] == [ts[1], ts[2]] && ts[1..][1..] == [ts[2]] && ts[1..][1..][1..] == [];
    var h1 := HalvesAfter(NO_HALVES, ts[0]);
    var h2 := HalvesAfter(h1, ts[1]);
    assert HalvesOf(NO_HALVES, ts) == HalvesOf(h1, ts[1..]) == HalvesOf(h2, ts[1..][1..]);
    assert HalvesOf(h2, ts[1..][1..]) == HalvesOf(HalvesAfter(h2, ts[2]), ts[1..][1..][1..]);
  }

  lemma BlockFieldsTokens(cid: Cid, data: Bytes)
    requires |EncodeFields(BlockFields(cid, data))| < TWO_31
    ensures TokensOf(BlockFields(cid, data)) == [Chunk(1, Prefix(cid)), Chunk(2, data)]
    ensures forall f | f in BlockFields(cid, data) :: Consumed(BlockLevel, f)
  {
    hide EncodeFields, Prefix;
    FieldInside(BlockFields(cid, data), 0);
    FieldInside(BlockFields(cid, data), 1);
  }

  lemma EmptyPrefix(lib: Library, data: Bytes)
    ensures PrefixToCid(lib, [], data) == None
  {
    assert Accumulate(0, 0, 0) == 0 by {
      AccumulateBounds(0, 0, 0);
    }
    assert Leading([]) == Read(0, 1);
  }

  function WithoutPassedOver(fs: seq<Field>): (kept: seq<Field>)
    ensures forall f | f in kept :: f in fs && !PassedOver(f)
  {
    if fs == [] then []
    else (if PassedOver(fs[0]) then [] else [fs[0]]) + WithoutPassedOver(fs[1..])
  }

  lemma FieldsCons(f: Field, tail: seq<Field>)
    ensures EncodeFields([f] + tail) == EncodeField(f) + EncodeFields(tail)
    ensures KnownOnly(BlockLevel, [f] + tail)
         == (if Known(BlockLevel, f) then [f] else []) + KnownOnly(BlockLevel, tail)
    ensures WithoutPassedOver([f] + tail) == (if PassedOver(f) then [] else [f]) + WithoutPassedOver(tail)
  {
    hide EncodeField, Known, PassedOver;
    assert ([f] + tail)[1..] == tail;
  }

  lemma {:induction false} PayloadTokens(fs: seq<Field>)
    requires forall f | f in fs :: PayloadFieldOk(f)
    ensures Tokens(BlockLevel, EncodeFields(fs)) == Tokens(BlockLevel, EncodeFields(WithoutPassedOver(fs)))
    ensures KnownOnly(BlockLevel, WithoutPassedOver(fs)) == KnownOnly(BlockLevel, fs)
    decreases |fs|
  {
    if fs != [] {
      var f, tail := fs[0], fs[1..];
      assert f in fs && fs == [f] + tail;
      PayloadTokens(tail);
      assert PassedOver(f) ==> !Known(BlockLevel, f);
      hide EncodeField, EncodeFields, Tokens, TokenOf, Known, KnownOnly, WithoutPassedOver, PassedOver, Consumed;
      FieldsCons(f, tail);
      var kept := WithoutPassedOver(tail);
      if PassedOver(f) {
        IsPassedOver(f, EncodeFields(tail));
        Associative(kept, [], []);
        Associative(KnownOnly(BlockLevel, tail), [], []);
      } else {
        FieldsCons(f, kept);
        TokensOfField(BlockLevel, f, EncodeFields(tail));
        TokensOfField(BlockLevel, f, EncodeFields(kept));
      }
    }
  }

  lemma IsPassedOver(f: Field, rest: Bytes)
    requires PassedOver(f)
    ensures Tokens(BlockLevel, EncodeField(f) + rest) == Tokens(BlockLevel, rest)
  {
    hide EncodeField, Tokens, Leading, Complete;
    ValueReadAsTag(f, rest);
    ValueAsTag(f.raw, rest);
  }

  /** A payload means the same with and without its unknown fields. */
  lemma PayloadStripped(lib: Library, fields: seq<Field>)
    requires forall f | f in fields :: PayloadFieldOk(f)
    ensures BlockFrom(NO_HALVES, EncodeFields(fields))
         == BlockFrom(NO_HALVES, EncodeFields(KnownOnly(BlockLevel, fields)))
  {
    hide EncodeFields, Tokens, KnownOnly, WithoutPassedOver, HalvesOf, Consumed, PassedOver;
    PayloadTokens(fields);
    HalvesDepend(NO_HALVES, EncodeFields(fields), EncodeFields(WithoutPassedOver(fields)));
    ForwardCompatible(lib, BlockLevel, WithoutPassedOver(fields));
  }

  /** What a wantlist does with a length-delimited field other than 1: its length and bytes are read as fields. */
  lemma WantlistReadsOn(f: Field, rest: Bytes)
    requires f.Valid() && f.LenField? && SeenNumber(f.num) != 1
    ensures Tokens(WantlistLevel, EncodeField(f) + rest)
         == Tokens(WantlistLevel, Varint(|f.payload|) + f.payload + rest)
  {
    hide Varint, ToInt32, ReadAt, Tokens;
    var s, after := EncodeField(f) + rest, Varint(|f.payload|) + f.payload + rest;
    FromStart(s);
    TokensAt(WantlistLevel, s, 0);
    assert s == Varint(8 * f.num + 2) + after;
    ReadVarintAtLevel(WantlistLevel, 8 * f.num + 2, after);
    TagReads(f.num, 2);
    assert From(s, |Varint(8 * f.num + 2)|) == after;
  }

  // ---------------------------------------------------------------- messages

  function StripItem(item: MessageItem): MessageItem {
    match item
    case Wantlist(items) => Wantlist(StripEntries(items))
    case Payload(fields) => Payload(KnownOnly(BlockLevel, fields))
    case OtherInMessage(_) => item
  }

  lemma StripCons(item: MessageItem, tail: seq<MessageItem>)
    ensures Strip([item] + tail) == (if item.OtherInMessage? then [] else [StripItem(item)]) + Strip(tail)
  {
    hide StripEntries, KnownOnly;
    assert ([item] + tail)[1..] == tail;
  }

  lemma MessageCons(item: MessageItem, tail: seq<MessageItem>)
    ensures MessageFieldsOf([item] + tail) == [MessageField(item)] + MessageFieldsOf(tail)
  {
    hide MessageField;
    assert ([item] + tail)[1..] == tail;
  }

  lemma ItemConsumed(item: MessageItem)
    requires MessageItemOk(item)
    ensures Consumed(MessageLevel, MessageField(item)) && Consumed(MessageLevel, MessageField(StripItem(item)))
  {
    hide EncodeFields, KnownOnly, Known, StripEntries, WantlistFieldsOf, WantlistItemOk;
    match item {
      case Wantlist(items) => StripEntriesShrinks(items);
      case Payload(fields) => KnownOnlyShrinks(BlockLevel, fields);
      case OtherInMessage(_) =>
    }
  }

  lemma {:induction false} MessageConsumed(tree: seq<MessageItem>)
    requires forall x | x in tree :: MessageItemOk(x)
    ensures AllConsumed(MessageLevel, MessageFieldsOf(tree))
    ensures AllConsumed(MessageLevel, MessageFieldsOf(Strip(tree)))
    decreases |tree|
  {
    if tree != [] {
      hide MessageField, StripItem, Consumed, MessageItemOk;
      var item, tail := tree[0], tree[1..];
      assert item in tree && tree == [item] + tail;
      MessageConsumed(tail);
      ItemConsumed(item);
      StripCons(item, tail);
      MessageCons(item, tail);
      MessageCons(StripItem(item), Strip(tail));
      assert [] + Strip(tail) == Strip(tail);
    }
  }

  lemma ItemStripped(lib: Library, item: MessageItem)
    requires MessageItemOk(item)
    ensures if item.OtherInMessage? then PartOf(lib, TokenOf(MessageField(item))) == Some(NOTHING)
            else PartOf(lib, TokenOf(MessageField(item))) == PartOf(lib, TokenOf(MessageField(StripItem(item))))
  {
    hide EncodeFields, KnownOnly, StripEntries, WantlistFieldsOf, WantlistItemOk, WantsIn, BlockFrom;
    match item {
      case Wantlist(items) => WantlistStripped(lib, items);
      case Payload(fields) => PayloadStripped(lib, fields);
      case OtherInMessage(field) => UnknownIsIgnored(lib, MessageLevel, field, NO_ENTRY, NO_HALVES);
    }
  }

  lemma MessageOfCons(lib: Library, f: Field, tail: seq<Field>)
    ensures MessageOf(lib, TokensOf([f] + tail)) == Both(PartOf(lib, TokenOf(f)), MessageOf(lib, TokensOf(tail)))
  {
    hide PartOf, TokenOf, TokensOf;
    TokensOfCons(f, tail);
  }

  lemma {:induction false} MessageOfStripped(lib: Library, tree: seq<MessageItem>)
    requires forall x | x in tree :: MessageItemOk(x)
    ensures MessageOf(lib, TokensOf(MessageFieldsOf(tree)))
         == MessageOf(lib, TokensOf(MessageFieldsOf(Strip(tree))))
    decreases |tree|
  {
    if tree != [] {
      hide TokensOf, TokenOf, PartOf, MessageField, StripItem, MessageItemOk, MessageOf, Strip;
      var item, tail := tree[0], tree[1..];
      assert item in tree && tree == [item] + tail;
      MessageOfStripped(lib, tail);
      ItemStripped(lib, item);
      MessageCons(item, tail);
      MessageOfCons(lib, MessageField(item), MessageFieldsOf(tail));
      StripCons(item, tail);
      var rest := Strip(tail);
      if item.OtherInMessage? {
        BothAssociative(MessageOf(lib, TokensOf(MessageFieldsOf(rest))), None, None);
        assert [] + rest == rest;
      } else {
        MessageCons(StripItem(item), rest);
        MessageOfCons(lib, MessageField(StripItem(item)), MessageFieldsOf(rest));
      }
    } else {
      assert Strip(tree) == tree;
    }
  }

  /**
   * Forward compatibility: a message of any shape, with any number of unknown fields anywhere among its
   * own fields, in its wantlists, in the entries of these and in its payloads, decodes to exactly what
   * the same message without them decodes to.  The unknown fields are those that the loop at their level
   * consumes, and in payloads also varints that it passes over.
   */
  lemma UnknownFieldsChangeNothing(lib: Library, tree: seq<MessageItem>)
    requires forall x | x in tree :: MessageItemOk(x)
    ensures MessageIn(lib, Encode(tree)) == MessageIn(lib, Encode(Strip(tree)))
  {
    hide EncodeFields, Tokens, TokensOf, MessageItemOk, Consumed, MessageFieldsOf, Strip;
    MessageConsumed(tree);
    TokensOfAll(MessageLevel, MessageFieldsOf(tree));
    TokensOfAll(MessageLevel, MessageFieldsOf(Strip(tree)));
    MessageOfStripped(lib, tree);
  }

  // ---------------------------------------------------------------- the encoder's own want

  function WantTree(lib: Library, cid: Cid): seq<MessageItem> {
    [Wantlist([Entry(EntryFields(lib, cid)), OtherInWantlist(VarintField(2, Varint(0)))])]
  }

  lemma WantTreeEncodes(lib: Library, cid: Cid)
    ensures WantlistFieldsOf(WantTree(lib, cid)[0].items) == WantlistFields(lib, cid)
    ensures Encode(WantTree(lib, cid)) == WantMessage(lib, cid)
  {
    hide EncodeField, EntryFields;
    var items := WantTree(lib, cid)[0].items;
    assert items[1..] == [items[1]] && items[1..][1..] == [];
    assert WantlistFieldsOf(items[1..]) == [WantlistField(items[1])] + WantlistFieldsOf(items[1..][1..]);
    assert WantlistFieldsOf(items) == WantlistFields(lib, cid);
    var tree := WantTree(lib, cid);
    var f := MessageField(tree[0]);
    assert tree[1..] == [] && [f][1..] == [];
    assert MessageFieldsOf(tree) == [f];
    assert EncodeFields([f]) == EncodeField(f) + EncodeFields([f][1..]);
    assert EncodeField(f) + [] == EncodeField(f);
  }

  lemma WantTreeOk(lib: Library, cid: Cid)
    requires |WantMessage(lib, cid)| < TWO_31
    ensures forall x | x in WantTree(lib, cid) :: MessageItemOk(x)
  {
    hide EncodeFields, Varint, Leading;
    var fs := EntryFields(lib, cid);
    VarintsOfOne();
    ReadBack(0, []);
    ReadBack(1, []);
    WantTreeEncodes(lib, cid);
    FieldInside(WantlistFields(lib, cid), 0);
    FieldInside(fs, 0);
    assert |EncodeFields(WantlistFields(lib, cid))| <= |WantMessage(lib, cid)|;
  }

  /** A newer peer's want: whatever such fields it adds to the encoder's message, the same CID is asked for. */
  lemma NewerWantIsUnderstood(lib: Library, cid: Cid, tree: seq<MessageItem>)
    requires lib.Lawful() && cid.WellFormed() && |WantMessage(lib, cid)| < TWO_31
    requires forall x | x in tree :: MessageItemOk(x)
    requires Strip(tree) == Strip(WantTree(lib, cid))
    ensures MessageIn(lib, Encode(tree)) == Some(Decoded([cid], []))
  {
    hide MessageIn, Encode, Strip, WantTree, MessageItemOk, WantMessage;
    WantTreeOk(lib, cid);
    UnknownFieldsChangeNothing(lib, tree);
    UnknownFieldsChangeNothing(lib, WantTree(lib, cid));
    WantTreeEncodes(lib, cid);
    WantSurvivesTheWire(lib, cid);
  }
}
