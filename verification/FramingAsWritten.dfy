/**
 * The read loop as it stands in `src/bitswap.ts:311-338`: when a chunk finishes one frame and leaves part
 * of the next, the buffer is sliced at the same offset twice.  Here is what that costs, exactly.
 */
module FramingAsWritten {
  import opened Basics
  import opened Varints
  import opened Framing

  /** One pass with the second slice: what it consumed is cut off the rest once more. */
  function SplitTwice(s: Bytes): Option<Pass> {
    match Split(s)
    case None => None
    case Some(p) =>
      RestIsSuffix(s);
      Some(Pass(p.messages, From(p.rest, |s| - |p.rest|)))
  }

  function ReadChunksTwice(buffer: Bytes, chunks: seq<Bytes>): Option<Pass>
    decreases |chunks|
  {
    if chunks == [] then Some(Pass([], buffer))
    else
      match SplitTwice(buffer + chunks[0])
      case None => None
      case Some(p) => After(p.messages, ReadChunksTwice(p.rest, chunks[1..]))
  }

  /**
   * One chunk.  A pass that consumes `k` bytes of whole frames and leaves `r` bytes of a partial one
   * keeps `max(0, r - k)` bytes, which is all `r` when nothing was consumed.
   */
  method ReadChunkTwice(before: Bytes, chunk: Bytes) returns (messages: seq<Bytes>, buffer: Bytes, ok: bool)
    ensures SplitTwice(before + chunk) == (if ok then Some(Pass(messages, buffer)) else None)
    ensures ok ==>
      var r := |Split(before + chunk).value.rest|;
      var k := |before + chunk| - r;
      |buffer| == (if r > k then r - k else 0) && (k == 0 ==> buffer == before + chunk)
  {
    hide Leading, Split;
    buffer := before + chunk;
    ghost var whole := buffer;
    messages := [];
    var offset := 0;
    assert whole[0..] == whole;
    AfterAssociative([], [], Split(whole));
    SplitNothing();
    while offset < |buffer|
      invariant buffer == whole && offset <= |whole|
      invariant After(messages, Split(whole[offset..])) == Split(whole)
      decreases |whole| - offset
    {
      var msgLen, lenBytes := ReadVarint(buffer, offset);
      assert From(buffer, offset) == whole[offset..];
      SplitStops(whole[offset..]);
      if msgLen < 0 {
        return messages, buffer, false;
      }
      if offset + lenBytes + msgLen > |buffer| {
        buffer := buffer[offset..];
        break;
      }
      var msg := buffer[offset + lenBytes..offset + lenBytes + msgLen];
      SplitTakes(whole, offset, Read(msgLen, lenBytes), messages);
      offset := offset + lenBytes + msgLen;
      messages := messages + [msg];
    }
    assert messages + [] == messages;
    assert offset == |whole| ==> whole[offset..] == [];
    assert Split(whole) == Some(Pass(messages, whole[offset..]));
    assert buffer == whole[offset..] || (offset == |whole| && buffer == whole);
    if offset < |buffer| {
      buffer := buffer[offset..];
    } else {
      buffer := [];
    }
    ok := true;
    assert buffer == From(whole[offset..], offset);
  }

  method ReadLoopTwice(chunks: seq<Bytes>) returns (messages: seq<Bytes>, buffer: Bytes, ok: bool)
    ensures ReadChunksTwice([], chunks) == (if ok then Some(Pass(messages, buffer)) else None)
  {
    hide SplitTwice;
    messages, buffer := [], [];
    AfterAssociative([], [], ReadChunksTwice([], chunks));
    assert chunks[0..] == chunks;
    for i := 0 to |chunks|
      invariant After(messages, ReadChunksTwice(buffer, chunks[i..])) == ReadChunksTwice([], chunks)
    {
      var taken, kept, fine := ReadChunkTwice(buffer, chunks[i]);
      if !fine {
        return messages, buffer, false;
      }
      assert chunks[i..][1..] == chunks[i + 1..];
      AfterAssociative(messages, taken, ReadChunksTwice(kept, chunks[i + 1..]));
      messages := messages + taken;
      buffer := kept;
    }
    ok := true;
    assert messages + [] == messages;
  }

  // ---------------------------------------------------------------- what is lost

  /** Some pass both consumes a frame and leaves part of the next. */
  predicate Loses(buffer: Bytes, chunks: seq<Bytes>)
    decreases |chunks|
  {
    chunks != [] &&
    var s := buffer + chunks[0];
    match Split(s)
    case None => false
    case Some(p) => (0 < |p.rest| < |s|) || Loses(p.rest, chunks[1..])
  }

  /** Without such a pass the loop as written and the loop as intended are the same. */
  lemma {:induction false} SameWithoutLoss(buffer: Bytes, chunks: seq<Bytes>)
    requires !Loses(buffer, chunks)
    ensures ReadChunksTwice(buffer, chunks) == ReadChunks(buffer, chunks)
    decreases |chunks|
  {
    if chunks != [] {
      hide Split;
      var s := buffer + chunks[0];
      if Split(s).Some? {
        RestIsSuffix(s);
        SameWithoutLoss(Split(s).value.rest, chunks[1..]);
      }
    }
  }

  lemma AccumulateWithin(acc: nat, b: Byte, shift: nat)
    requires acc < Pow2(shift) && shift + 7 <= 32
    ensures Accumulate(acc, b, shift) < Pow2(shift + 7)
  {
    var p, low := Pow2(shift), b % 128;
    assert Pow2(shift + 7) == p * 128 by {
      Pow2Add(shift, 7);
      Pow2Of32();
    }
    assert p * 128 <= TWO_32 by {
      Pow2Mono(shift + 7, 32);
      Pow2Of32();
    }
    hide Pow2;
    MulMono(low, 127, p);
    AccumulateAbove(acc, b, shift);
  }

  lemma {:induction false} BitsWithin(s: Bytes, shift: nat, acc: nat)
    requires acc < Pow2(shift) && shift + 7 * Length(s) <= 32
    ensures Bits(s, shift, acc) < Pow2(shift + 7 * Length(s))
    decreases |s|
  {
    var next := Accumulate(acc, Head(s), shift);
    AccumulateWithin(acc, Head(s), shift);
    hide Accumulate, Pow2;
    if Head(s) >= 128 {
      BitsWithin(s[1..], shift + 7, next);
    }
  }

  lemma BitsWithinShort(s: Bytes)
    requires Length(s) < 5
    ensures Bits(s, 0, 0) < Pow2(7 * Length(s)) && Bits(s, 0, 0) < TWO_31
  {
    assert Pow2(7 * Length(s)) < TWO_31 by {
      Pow2Mono(7 * Length(s), 28);
      Pow2Add(25, 3);
      Pow2Of32();
      assert Pow2(3) == 8;
    }
    hide Bits;
    assert Pow2(0) == 1;
    BitsWithin(s, 0, 0);
  }

  /** No encoding of a length is shorter than the one `appendVarint` writes. */
  lemma VarintShortest(s: Bytes)
    requires Leading(s).value >= 0
    ensures |Varint(Leading(s).value)| <= Leading(s).count
  {
    hide Bits, Varint, Pow2, Length;
    var n, k := Leading(s).value, Length(s);
    VarintAtMostFive(n);
    if k < 5 {
      BitsWithinShort(s);
      VarintShort(n, k);
    }
  }

  /** Every message taken accounts for at least the bytes of its frame. */
  lemma {:induction false} PassAccounts(s: Bytes)
    requires Split(s).Some?
    ensures |Frames(Split(s).value.messages)| + |Split(s).value.rest| <= |s|
    decreases |s|
  {
    hide Leading, Varint;
    if s != [] {
      var len := Leading(s);
      var size := len.count + len.value;
      if size <= |s| {
        PassAccounts(s[size..]);
        VarintShortest(s);
        var msg := s[len.count..size];
        var tail := Split(s[size..]).value.messages;
        assert ([msg] + tail)[1..] == tail;
      }
    }
  }

  /** A run that loses bytes delivers messages whose frames are shorter than the stream. */
  lemma {:induction false} RunAccounts(buffer: Bytes, chunks: seq<Bytes>)
    requires ReadChunksTwice(buffer, chunks).Some?
    ensures var p := ReadChunksTwice(buffer, chunks).value;
            var used := |Frames(p.messages)| + |p.rest|;
            used <= |buffer| + |Flatten(chunks)| &&
            (Loses(buffer, chunks) ==> used < |buffer| + |Flatten(chunks)|)
    decreases |chunks|
  {
    if chunks != [] {
      hide Split;
      var s := buffer + chunks[0];
      var p := Split(s).value;
      RestIsSuffix(s);
      PassAccounts(s);
      var kept := From(p.rest, |s| - |p.rest|);
      RunAccounts(kept, chunks[1..]);
      FramesAppend(p.messages, ReadChunksTwice(kept, chunks[1..]).value.messages);
      if kept == p.rest {
        assert Loses(buffer, chunks) ==> (0 < |p.rest| < |s|) || Loses(kept, chunks[1..]);
      }
    }
  }

  // ---------------------------------------------------------------- when it happens

  /**
   * A condition on the sizes alone: `pending` bytes of the first frame have already come, and every
   * chunk that ends some frame ends exactly where a frame ends.
   */
  predicate Tidy(msgs: seq<Bytes>, pending: nat, chunks: seq<Bytes>)
    decreases |chunks|
  {
    chunks == [] ||
    var n := pending + |chunks[0]|;
    var j := Whole(msgs, n);
    if j == 0 then Tidy(msgs, n, chunks[1..])
    else n == EndOf(msgs, j) && Tidy(msgs[j..], 0, chunks[1..])
  }

  /** What a pass finds after a chunk, when the buffer so far holds no whole frame. */
  lemma PassOverChunk(msgs: seq<Bytes>, s: Bytes, tail: Bytes)
    requires Framable(msgs) && s + tail == Frames(msgs)
    ensures var j := Whole(msgs, |s|);
            EndOf(msgs, j) <= |s| && Split(s).Some? &&
            Split(s).value.rest == s[EndOf(msgs, j)..] && (j > 0 <==> EndOf(msgs, j) > 0) &&
            (EndOf(msgs, j) == |s| ==> Frames(msgs[j..]) == tail)
  {
    hide Split, Frame, Whole;
    assert s == Frames(msgs)[..|s|];
    SplitOfPrefix(msgs, |s|);
    WholeEnds(msgs, |s|);
    var j := Whole(msgs, |s|);
    if j > 0 {
      EndPositive(msgs, j);
    } else {
      assert msgs[..0] == [];
    }
    assert Frames(msgs)[EndOf(msgs, j)..|s|] == s[EndOf(msgs, j)..];
    assert Frames(msgs)[|s|..] == tail;
  }

  lemma {:induction false} TidyIsNoLoss(msgs: seq<Bytes>, buffer: Bytes, chunks: seq<Bytes>)
    requires Framable(msgs) && buffer + Flatten(chunks) == Frames(msgs)
    requires Whole(msgs, |buffer|) == 0
    ensures Tidy(msgs, |buffer|, chunks) <==> !Loses(buffer, chunks)
    decreases |chunks|
  {
    if chunks != [] {
      hide Split, Frames, Whole, EndOf, Tidy, Loses;
      var s := buffer + chunks[0];
      var tail := Flatten(chunks[1..]);
      assert Frames(msgs) == s + tail;
      PassOverChunk(msgs, s, tail);
      OneChunk(msgs, buffer, chunks);
      var j := Whole(msgs, |s|);
      if j == 0 {
        assert s[0..] == s;
        TidyIsNoLoss(msgs, s, chunks[1..]);
      } else if EndOf(msgs, j) == |s| {
        assert s[|s|..] == [];
        NothingWhole(msgs[j..]);
        assert [] + tail == Frames(msgs[j..]);
        TidyIsNoLoss(msgs[j..], [], chunks[1..]);
      }
    } else {
      assert Tidy(msgs, |buffer|, chunks) && !Loses(buffer, chunks);
    }
  }

  lemma OneChunk(msgs: seq<Bytes>, buffer: Bytes, chunks: seq<Bytes>)
    requires chunks != []
    ensures var s := buffer + chunks[0];
            var j := Whole(msgs, |s|);
            Tidy(msgs, |buffer|, chunks) ==
              (if j == 0 then Tidy(msgs, |s|, chunks[1..])
               else |s| == EndOf(msgs, j) && Tidy(msgs[j..], 0, chunks[1..])) &&
            (Split(s).Some? ==>
              var rest := Split(s).value.rest;
              Loses(buffer, chunks) == ((0 < |rest| < |s|) || Loses(rest, chunks[1..])))
  {
    hide Split, Whole, EndOf;
  }

  lemma EndPositive(msgs: seq<Bytes>, j: nat)
    requires 0 < j <= |msgs|
    ensures EndOf(msgs, j) > 0
  {
    assert msgs[..j][0] == msgs[0];
  }

  /**
   * The loop as written delivers every message of a stream, in order and with an empty buffer at the
   * end, exactly when no chunk both finishes a frame and leaves part of the next.
   */
  lemma AsWrittenDeliversIff(msgs: seq<Bytes>, chunks: seq<Bytes>)
    requires Framable(msgs) && Flatten(chunks) == Frames(msgs)
    ensures ReadChunksTwice([], chunks) == Some(Pass(msgs, [])) <==> Tidy(msgs, 0, chunks)
  {
    hide ReadChunksTwice, ReadChunks, Loses, Tidy, Split;
    assert [] + Flatten(chunks) == Frames(msgs);
    NothingWhole(msgs);
    TidyIsNoLoss(msgs, [], chunks);
    if Loses([], chunks) {
      if ReadChunksTwice([], chunks).Some? {
        RunAccounts([], chunks);
      }
    } else {
      SameWithoutLoss([], chunks);
      MessagesSurviveChunking(msgs, chunks);
    }
  }

  /**
   * The simplest stream that is not delivered: two messages in two chunks, the first of which ends one
   * byte into the second frame.
   */
  lemma TwoMessagesAreLost(a: Bytes, b: Bytes)
    requires Framable([a, b]) && b != []
    ensures var chunks := [Frame(a) + Frame(b)[..1], Frame(b)[1..]];
            ReadChunksTwice([], chunks) != Some(Pass([a, b], []))
  {
    hide Frame, ReadChunksTwice, Tidy;
    var chunks: seq<Bytes> := [Frame(a) + Frame(b)[..1], Frame(b)[1..]];
    TwoInAll(a, b);
    assert !Tidy([a, b], 0, chunks) by {
      NotTidy(a, b);
    }
    AsWrittenDeliversIff([a, b], chunks);
  }

  lemma TwoInAll(a: Bytes, b: Bytes)
    ensures Flatten([Frame(a) + Frame(b)[..1], Frame(b)[1..]]) == Frame(a) + Frame(b) == Frames([a, b])
  {
    hide Frame;
    var chunks: seq<Bytes> := [Frame(a) + Frame(b)[..1], Frame(b)[1..]];
    assert chunks[1..] == [chunks[1]] && chunks[1..][1..] == [];
    Associative(chunks[1], [], []);
    assert Flatten(chunks[1..]) == chunks[1];
    assert Frame(b) == Frame(b)[..1] + Frame(b)[1..];
    Associative(Frame(a), Frame(b)[..1], Frame(b)[1..]);
    assert [a, b][1..] == [b] && [b][1..] == [];
    Associative(Frame(b), [], []);
    assert Frames([b]) == Frame(b);
  }

  lemma NotTidy(a: Bytes, b: Bytes)
    requires b != []
    ensures !Tidy([a, b], 0, [Frame(a) + Frame(b)[..1], Frame(b)[1..]])
  {
    hide Frame;
    var n := |Frame(a) + Frame(b)[..1]|;
    assert [a, b][1..] == [b] && Whole([b], 1) == 0;
    assert Whole([a, b], n) == 1;
    var first: seq<Bytes> := [a, b][..1];
    assert first[0] == a && first[1..] == [];
    Associative(Frame(a), [], []);
    assert Frames(first) == Frame(a) + Frames(first[1..]);
    assert EndOf([a, b], 1) == |Frame(a)|;
  }
}
