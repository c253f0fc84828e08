/**
 * The protobuf layer: the field writers, the fields of a message as data, and the tokens that each of
 * the repository's six field loops sees in a byte string.  The loops differ only in what they do with a
 * tag, which `Rule` tabulates.
 */
module Wire {
  import opened Basics
  import opened Varints

  /** A field as an encoder lays it out; a varint's own bytes are kept, so any encoding of it is covered. */
  datatype Field = LenField(num: nat, payload: Bytes) | VarintField(num: nat, raw: Bytes)
  {
    function WireType(): int {
      if LenField? then 2 else 0
    }

    /** What the Protocol Buffers encoding allows, with lengths that stay positive as 32-bit integers. */
    predicate Valid() {
      1 <= num < 0x2000_0000 &&
      match this
      case LenField(_, payload) => |payload| < TWO_31
      case VarintField(_, raw) => Complete(raw) && |raw| <= 10
    }
  }

  function EncodeField(f: Field): Bytes {
    match f
    case LenField(num, payload) => Varint(8 * num + 2) + Varint(|payload|) + payload
    case VarintField(num, raw) => Varint(8 * num) + raw
  }

  function EncodeFields(fs: seq<Field>): Bytes {
    if fs == [] then [] else EncodeField(fs[0]) + EncodeFields(fs[1..])
  }

  // ---------------------------------------------------------------- writers

  /** A tag as `(fieldNum << 3) | wire` computes it. */
  function Tag(fieldNum: nat, wire: nat): (tag: int)
    requires wire < 8
    ensures fieldNum < 0x1000_0000 ==> tag == 8 * fieldNum + wire
  {
    ToInt32(8 * fieldNum) + wire
  }

  method WriteVarintField(fieldNum: nat, value: int) returns (out: Bytes)
    ensures out == Varint(Tag(fieldNum, 0)) + Varint(value)
    ensures fieldNum < 0x1000_0000 ==> out == EncodeField(VarintField(fieldNum, Varint(value)))
  {
    hide Varint;
    var buf := new JsArray<Byte>();
    AppendVarint(buf, Tag(fieldNum, 0));
    AppendVarint(buf, value);
    out := buf.items;
  }

  method WriteLenField(fieldNum: nat, bytes: Bytes) returns (out: Bytes)
    ensures out == Varint(Tag(fieldNum, 2)) + Varint(|bytes|) + bytes
    ensures fieldNum < 0x1000_0000 ==> out == EncodeField(LenField(fieldNum, bytes))
  {
    hide Varint;
    var buf := new JsArray<Byte>();
    AppendVarint(buf, Tag(fieldNum, 2));
    AppendVarint(buf, |bytes|);
    ghost var head := buf.items;
    for i := 0 to |bytes|
      invariant buf.items == head + bytes[..i]
    {
      buf.Push(bytes[i]);
    }
    out := buf.items;
  }

  /** Copies each part behind the previous one in a buffer of the summed length, which it fills exactly. */
  method ConcatBytes(parts: seq<Bytes>) returns (result: Bytes)
    ensures result == Flatten(parts)
  {
    hide Flatten;
    NoParts();
    var len := 0;
    for i := 0 to |parts|
      invariant len == |Flatten(parts[..i])|
    {
      OnePartMore(parts, i);
      len := len + |parts[i]|;
    }
    assert parts[..|parts|] == parts;
    var out := new Byte[len];
    var off := 0;
    for i := 0 to |parts|
      invariant off == |Flatten(parts[..i])| <= len == |Flatten(parts)| == out.Length
      invariant out[..off] == Flatten(parts[..i])
    {
      var p := parts[i];
      OnePartMore(parts, i);
      ghost var before := out[..off];
      forall k | 0 <= k < |p| {
        out[off + k] := p[k];
      }
      assert out[..off + |p|] == before + p;
      off := off + |p|;
    }
    result := out[..];
  }

  lemma NoParts()
    ensures Flatten<Byte>([]) == []
  {
  }

  lemma OnePartMore(parts: seq<Bytes>, i: nat)
    requires i < |parts|
    ensures Flatten(parts[..i + 1]) == Flatten(parts[..i]) + parts[i]
    ensures |Flatten(parts[..i + 1])| <= |Flatten(parts)|
  {
    var p := parts[i];
    var one: seq<Bytes> := [p];
    assert one[1..] == [];
    Associative(p, [], []);
    assert Flatten(one) == p;
    hide Flatten;
    assert parts[..i + 1] == parts[..i] + [p];
    FlattenAppend(parts[..i], [p]);
    assert parts == parts[..i + 1] + parts[i + 1..];
    FlattenAppend(parts[..i + 1], parts[i + 1..]);
  }

  // ---------------------------------------------------------------- tokens

  /** The six field loops of the two protobuf readers. */
  datatype Level = MessageLevel | WantlistLevel | EntryLevel | BlockLevel | NodeLevel | LinkLevel

  datatype Action = TakeBytes | TakeVarint | Ignore | Stop

  /** What a loop does after a tag. */
  function Rule(level: Level, field: int, wire: int): Action {
    match level
    case MessageLevel => if wire == 2 then TakeBytes else Stop
    case WantlistLevel =>
      if wire == 2 && field == 1 then TakeBytes else if wire == 0 then TakeVarint else Ignore
    case EntryLevel => if wire == 2 then TakeBytes else if wire == 0 then TakeVarint else Ignore
    case BlockLevel => if wire == 2 then TakeBytes else Ignore
    case NodeLevel => if wire == 2 then TakeBytes else if wire == 0 then TakeVarint else Stop
    case LinkLevel => if wire == 2 then TakeBytes else if wire == 0 then TakeVarint else Stop
  }

  function ReadAt(level: Level, s: Bytes): (r: Read)
    ensures 1 <= r.count <= |s| + 1
  {
    if level.NodeLevel? || level.LinkLevel? then LeadingTen(s) else Leading(s)
  }

  datatype Token = Chunk(field: int, payload: Bytes) | Number(field: int, value: int)

  function Prepend<T>(x: T, r: Option<seq<T>>): Option<seq<T>> {
    if r.None? then None else Some([x] + r.value)
  }

  /**
   * The tokens a loop sees in `s`.  `None` when a length reads as a negative number: from there the
   * loop moves its offset backwards and need not end, which is outside the model.
   */
  function Tokens(level: Level, s: Bytes): Option<seq<Token>>
    decreases |s|
  {
    if s == [] then Some([])
    else
      var tag := ReadAt(level, s);
      var field, wire := tag.value / 8, tag.value % 8;
      var rest := From(s, tag.count);
      match Rule(level, field, wire)
      case Stop => Some([])
      case Ignore => Tokens(level, rest)
      case TakeVarint =>
        var v := ReadAt(level, rest);
        Prepend(Number(field, v.value), Tokens(level, From(rest, v.count)))
      case TakeBytes =>
        var len := ReadAt(level, rest);
        if len.value < 0 then None
        else
          var body := From(rest, len.count);
          Prepend(Chunk(field, Upto(body, len.value)), Tokens(level, From(body, len.value)))
  }

  /** One turn of a loop whose offset is `o`. */
  lemma TokensAt(level: Level, buf: Bytes, o: nat)
    requires o < |buf|
    ensures var tag := ReadAt(level, From(buf, o));
            var field := tag.value / 8;
            var o1 := o + tag.count;
            var next := ReadAt(level, From(buf, o1));
            var o2 := o1 + next.count;
            Tokens(level, From(buf, o)) ==
              match Rule(level, field, tag.value % 8)
              case Stop => Some([])
              case Ignore => Tokens(level, From(buf, o1))
              case TakeVarint => Prepend(Number(field, next.value), Tokens(level, From(buf, o2)))
              case TakeBytes =>
                if next.value < 0 then None
                else Prepend(Chunk(field, Upto(From(buf, o2), next.value)), Tokens(level, From(buf, o2 + next.value)))
  {
    hide ReadAt, Rule;
    var tag := ReadAt(level, From(buf, o));
    var o1 := o + tag.count;
    var next := ReadAt(level, From(buf, o1));
    FromFrom(buf, o, tag.count);
    FromFrom(buf, o1, next.count);
    if next.value >= 0 {
      FromFrom(buf, o1 + next.count, next.value);
    }
  }

  /** A field number as the reader's signed `tag >> 3` shows it. */
  function SeenNumber(num: nat): int {
    if num < 0x1000_0000 then num else num - 0x2000_0000
  }

  function TokenOf(f: Field): Token {
    match f
    case LenField(num, payload) => Chunk(SeenNumber(num), payload)
    case VarintField(num, raw) => Number(SeenNumber(num), Leading(raw).value)
  }

  function TokensOf(fs: seq<Field>): seq<Token> {
    seq(|fs|, i requires 0 <= i < |fs| => TokenOf(fs[i]))
  }

  /** The loop at this level consumes the field whole. */
  predicate Consumed(level: Level, f: Field) {
    f.Valid() &&
    Rule(level, SeenNumber(f.num), f.WireType()) == (if f.LenField? then TakeBytes else TakeVarint)
  }

  lemma TagReads(num: nat, wire: nat)
    requires num < 0x2000_0000 && wire < 8
    ensures ToInt32(8 * num + wire) / 8 == SeenNumber(num)
    ensures ToInt32(8 * num + wire) % 8 == wire
  {
    var tag := 8 * num + wire;
    assert tag % TWO_32 == tag;
    if tag >= TWO_31 {
      assert ToInt32(tag) == 8 * (num - 0x2000_0000) + wire;
    }
  }

  lemma ReadVarintAtLevel(level: Level, n: nat, rest: Bytes)
    ensures ReadAt(level, Varint(n) + rest) == Read(ToInt32(n), |Varint(n)|)
  {
    ReadBack(n, rest);
    ReadersAgree(Varint(n) + rest);
  }

  lemma ReadRawAtLevel(level: Level, raw: Bytes, rest: Bytes)
    requires Complete(raw) && |raw| <= 10
    ensures ReadAt(level, raw + rest) == Read(Leading(raw).value, |raw|)
  {
    ReadComplete(raw, rest);
    ReadersAgree(raw + rest);
  }

  lemma TokensOfLenField(level: Level, num: nat, payload: Bytes, rest: Bytes)
    requires Consumed(level, LenField(num, payload))
    ensures Tokens(level, EncodeField(LenField(num, payload)) + rest)
         == Prepend(Chunk(SeenNumber(num), payload), Tokens(level, rest))
  {
    hide Varint, ToInt32, ReadAt, Tokens;
    var tag, len, after := Varint(8 * num + 2), Varint(|payload|), payload + rest;
    var s := EncodeField(LenField(num, payload)) + rest;
    assert s == tag + (len + after);
    FromStart(s);
    TokensAt(level, s, 0);
    TagReads(num, 2);
    ReadVarintAtLevel(level, 8 * num + 2, len + after);
    assert From(s, |tag|) == len + after;
    ReadVarintAtLevel(level, |payload|, after);
    ReadBack(|payload|, []);
    assert From(s, |tag| + |len|) == after;
    assert Upto(after, |payload|) == payload && From(s, |tag| + |len| + |payload|) == rest;
  }

  lemma TokensOfVarintField(level: Level, num: nat, raw: Bytes, rest: Bytes)
    requires Consumed(level, VarintField(num, raw))
    ensures Tokens(level, EncodeField(VarintField(num, raw)) + rest)
         == Prepend(Number(SeenNumber(num), Leading(raw).value), Tokens(level, rest))
  {
    hide Varint, ToInt32, ReadAt, Leading, Tokens;
    var tag := Varint(8 * num);
    var s := EncodeField(VarintField(num, raw)) + rest;
    assert s == tag + (raw + rest);
    FromStart(s);
    TokensAt(level, s, 0);
    TagReads(num, 0);
    ReadVarintAtLevel(level, 8 * num, raw + rest);
    assert From(s, |tag|) == raw + rest;
    ReadRawAtLevel(level, raw, rest);
    assert From(s, |tag| + |raw|) == rest;
  }

  /** Reading a field before any suffix gives its token and leaves exactly the suffix. */
  lemma TokensOfField(level: Level, f: Field, rest: Bytes)
    requires Consumed(level, f)
    ensures Tokens(level, EncodeField(f) + rest) == Prepend(TokenOf(f), Tokens(level, rest))
  {
    hide EncodeField, Tokens;
    match f {
      case LenField(num, payload) => TokensOfLenField(level, num, payload, rest);
      case VarintField(num, raw) => TokensOfVarintField(level, num, raw, rest);
    }
  }

  function Extend<T>(xs: seq<T>, r: Option<seq<T>>): Option<seq<T>> {
    if r.None? then None else Some(xs + r.value)
  }

  lemma {:induction false} TokensOfFields(level: Level, fs: seq<Field>, rest: Bytes)
    requires forall f | f in fs :: Consumed(level, f)
    ensures Tokens(level, EncodeFields(fs) + rest) == Extend(TokensOf(fs), Tokens(level, rest))
  {
    hide EncodeField, TokenOf, Tokens;
    if fs == [] {
      assert EncodeFields(fs) + rest == rest;
      if Tokens(level, rest).Some? {
        assert TokensOf(fs) + Tokens(level, rest).value == Tokens(level, rest).value;
      }
    } else {
      var tail := EncodeFields(fs[1..]) + rest;
      assert EncodeFields(fs) + rest == EncodeField(fs[0]) + tail;
      TokensOfField(level, fs[0], tail);
      TokensOfFields(level, fs[1..], rest);
      assert TokensOf(fs) == [TokenOf(fs[0])] + TokensOf(fs[1..]);
      if Tokens(level, rest).Some? {
        var ts := Tokens(level, rest).value;
        assert TokensOf(fs) + ts == [TokenOf(fs[0])] + (TokensOf(fs[1..]) + ts);
      }
    }
  }

  /** Printer and reader are inverse at every level, for every list of fields the level consumes. */
  lemma TokensOfAll(level: Level, fs: seq<Field>)
    requires forall f | f in fs :: Consumed(level, f)
    ensures Tokens(level, EncodeFields(fs)) == Some(TokensOf(fs))
  {
    TokensOfFields(level, fs, []);
    assert EncodeFields(fs) + [] == EncodeFields(fs);
    assert TokensOf(fs) + [] == TokensOf(fs);
  }

  // ---------------------------------------------------------------- size

  function PayloadSize(ts: seq<Token>): nat {
    if ts == [] then 0
    else (if ts[0].Chunk? then |ts[0].payload| else 0) + PayloadSize(ts[1..])
  }

  /** The payloads of all tokens are disjoint parts of the input. */
  lemma {:induction false} TokensFit(level: Level, s: Bytes)
    ensures Tokens(level, s).Some? ==> PayloadSize(Tokens(level, s).value) <= |s|
    decreases |s|
  {
    if s != [] && Tokens(level, s).Some? {
      var tag := ReadAt(level, s);
      var field := tag.value / 8;
      var rest := From(s, tag.count);
      match Rule(level, field, tag.value % 8) {
        case Stop =>
        case Ignore => TokensFit(level, rest);
        case TakeVarint =>
          TokensFit(level, From(rest, ReadAt(level, rest).count));
        case TakeBytes =>
          var len := ReadAt(level, rest);
          var body := From(rest, len.count);
          TokensFit(level, From(body, len.value));
      }
    }
  }
}
