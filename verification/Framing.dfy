/**
 * Length-prefixed frames and the read loop that rebuilds messages from arbitrary chunks,
 * `src/bitswap.ts:300-345`, as evidently intended: the buffer is sliced once per chunk.
 */
module Framing {
  import opened Basics
  import opened Varints
  import opened Wire

  function Frame(msg: Bytes): (s: Bytes)
    ensures |s| > |msg|
  {
    Varint(|msg|) + msg
  }

  function Frames(msgs: seq<Bytes>): Bytes {
    if msgs == [] then [] else Frame(msgs[0]) + Frames(msgs[1..])
  }

  /** Messages whose length prefix reads back as it was written. */
  predicate Framable(msgs: seq<Bytes>) {
    forall m | m in msgs :: |m| < TWO_31
  }

  /** The message behind a length prefix. */
  function Unframe(s: Bytes): Bytes {
    From(s, Leading(s).count)
  }

  predicate Framed(s: Bytes) {
    s == Frame(Unframe(s))
  }

  lemma UnframeFrame(msg: Bytes)
    ensures Unframe(Frame(msg)) == msg && Framed(Frame(msg))
  {
    hide Varint, Leading;
    ReadBack(|msg|, msg);
    assert Frame(msg)[|Varint(|msg|)|..] == msg;
  }

  method EncodeWithLengthPrefix(msg: Bytes) returns (out: Bytes)
    ensures out == Frame(msg)
  {
    hide Varint;
    var lenBytes := new JsArray<Byte>();
    AppendVarint(lenBytes, |msg|);
    out := ConcatBytes([lenBytes.items, msg]);
    assert [lenBytes.items, msg][1..] == [msg] && [msg][1..] == [];
    assert Flatten([msg]) == msg;
  }

  // ---------------------------------------------------------------- one pass over the buffer

  /** What one pass takes out of the buffer, and the unparsed bytes behind the last whole frame. */
  datatype Pass = Pass(messages: seq<Bytes>, rest: Bytes)

  function After(messages: seq<Bytes>, p: Option<Pass>): Option<Pass> {
    if p.None? then None else Some(Pass(messages + p.value.messages, p.value.rest))
  }

  /** `None` when a length reads as a negative number, which moves the offset backwards. */
  function Split(s: Bytes): Option<Pass>
    decreases |s|
  {
    if s == [] then Some(Pass([], []))
    else
      var len := Leading(s);
      if len.value < 0 then None
      else if len.count + len.value > |s| then Some(Pass([], s))
      else After([s[len.count..len.count + len.value]], Split(s[len.count + len.value..]))
  }

  lemma AfterAssociative(a: seq<Bytes>, b: seq<Bytes>, p: Option<Pass>)
    ensures After(a, After(b, p)) == After(a + b, p)
    ensures After([], p) == p
  {
    if p.Some? {
      assert a + (b + p.value.messages) == (a + b) + p.value.messages;
      assert [] + p.value.messages == p.value.messages;
    }
  }

  lemma {:induction false} RestIsSuffix(s: Bytes)
    requires Split(s).Some?
    ensures var rest := Split(s).value.rest; |rest| <= |s| && rest == s[|s| - |rest|..]
    decreases |s|
  {
    hide Leading;
    if s != [] {
      var len := Leading(s);
      if len.count + len.value <= |s| {
        RestIsSuffix(s[len.count + len.value..]);
      }
    }
  }

  /** One step of a pass at `offset`: a whole message is taken. */
  lemma SplitTakes(whole: Bytes, offset: nat, len: Read, taken: seq<Bytes>)
    requires offset < |whole| && Leading(whole[offset..]) == len
    requires len.value >= 0 && offset + len.count + len.value <= |whole|
    ensures var start, end := offset + len.count, offset + len.count + len.value;
            After(taken, Split(whole[offset..])) == After(taken + [whole[start..end]], Split(whole[end..]))
  {
    hide Leading;
    var s := whole[offset..];
    var start, end := offset + len.count, offset + len.count + len.value;
    assert s[len.count + len.value..] == whole[end..] && s[len.count..len.count + len.value] == whole[start..end];
    AfterAssociative(taken, [whole[start..end]], Split(whole[end..]));
  }

  /** The step at which a pass ends before the end of the buffer. */
  lemma SplitStops(s: Bytes)
    requires s != []
    ensures Leading(s).value < 0 ==> Split(s) == None
    ensures Leading(s).value >= 0 && Leading(s).count + Leading(s).value > |s| ==> Split(s) == Some(Pass([], s))
  {
    hide Leading;
  }

  lemma SplitNothing()
    ensures Split([]) == Some(Pass([], []))
  {
  }

  /** The inner loop: the messages it takes, and how far its offset got. */
  method TakeMessages(buffer: Bytes) returns (messages: seq<Bytes>, offset: nat, ok: bool)
    ensures ok <==> Split(buffer).Some?
    ensures ok ==> offset <= |buffer| && Split(buffer) == Some(Pass(messages, buffer[offset..]))
  {
    hide Leading, Split;
    messages, offset := [], 0;
    assert buffer[0..] == buffer;
    AfterAssociative([], [], Split(buffer));
    SplitNothing();
    while offset < |buffer|
      invariant offset <= |buffer|
      invariant After(messages, Split(buffer[offset..])) == Split(buffer)
      decreases |buffer| - offset
    {
      var msgLen, lenBytes := ReadVarint(buffer, offset);
      assert From(buffer, offset) == buffer[offset..];
      SplitStops(buffer[offset..]);
      if msgLen < 0 {
        return messages, offset, false;
      }
      if offset + lenBytes + msgLen > |buffer| {
        break;
      }
      var msg := buffer[offset + lenBytes..offset + lenBytes + msgLen];
      SplitTakes(buffer, offset, Read(msgLen, lenBytes), messages);
      offset := offset + lenBytes + msgLen;
      messages := messages + [msg];
    }
    ok := true;
    assert offset == |buffer| ==> buffer[offset..] == [];
    assert Split(buffer[offset..]) == Some(Pass([], buffer[offset..]));
    assert messages + [] == messages;
  }

  // ---------------------------------------------------------------- the loop over chunks

  /** The read loop with a single slice, started with `buffer` left over. */
  function ReadChunks(buffer: Bytes, chunks: seq<Bytes>): Option<Pass>
    decreases |chunks|
  {
    if chunks == [] then Some(Pass([], buffer))
    else
      match Split(buffer + chunks[0])
      case None => None
      case Some(p) => After(p.messages, ReadChunks(p.rest, chunks[1..]))
  }

  method ReadLoop(chunks: seq<Bytes>) returns (messages: seq<Bytes>, buffer: Bytes, ok: bool)
    ensures ReadChunks([], chunks) == (if ok then Some(Pass(messages, buffer)) else None)
  {
    messages, buffer := [], [];
    AfterAssociative([], [], ReadChunks([], chunks));
    assert chunks[0..] == chunks;
    for i := 0 to |chunks|
      invariant After(messages, ReadChunks(buffer, chunks[i..])) == ReadChunks([], chunks)
    {
      buffer := buffer + chunks[i];
      var taken, offset, fine := TakeMessages(buffer);
      if !fine {
        return messages, buffer, false;
      }
      assert chunks[i..][1..] == chunks[i + 1..];
      AfterAssociative(messages, taken, ReadChunks(buffer[offset..], chunks[i + 1..]));
      messages := messages + taken;
      buffer := buffer[offset..];
    }
    ok := true;
    assert messages + [] == messages;
  }

  lemma SplitUnfold(s: Bytes)
    requires s != []
    ensures var len := Leading(s);
            Split(s) == if len.value < 0 then None
                        else if len.count + len.value > |s| then Some(Pass([], s))
                        else After([s[len.count..len.count + len.value]], Split(s[len.count + len.value..]))
  {
    hide Leading;
  }

  /** A length whole in `a` reads the same with more bytes behind; a cut one stays past the end. */
  lemma LeadingExtends(a: Bytes, b: Bytes)
    ensures Leading(a).count <= |a| ==> Leading(a + b) == Leading(a)
    ensures Leading(a).count > |a| && Leading(a).value < 0 ==> Leading(a + b).value < 0
  {
    hide Bits;
    if Length(a) <= |a| {
      BitsInside(a, b, 0, 0);
    } else {
      NegativeStays(a, b);
    }
  }

  /** Once bytes are left over, more bytes continue exactly where the pass stopped. */
  lemma {:induction false} SplitExtends(a: Bytes, b: Bytes)
    ensures Split(a + b) == match Split(a)
                            case None => None
                            case Some(p) => After(p.messages, Split(p.rest + b))
    decreases |a|
  {
    hide Leading, Split, After;
    AfterAssociative([], [], Split(a + b));
    if a == [] {
      SplitNothing();
      assert a + b == b && [] + b == b;
    } else {
      LeadingExtends(a, b);
      SplitUnfold(a);
      SplitUnfold(a + b);
      var len := Leading(a);
      var size := len.count + len.value;
      if len.value >= 0 && size <= |a| {
        var msg, tail := a[len.count..size], a[size..];
        assert (a + b)[size..] == tail + b && (a + b)[len.count..size] == msg;
        SplitExtends(tail, b);
        AfterSome(msg, Split(tail));
        if Split(tail).Some? {
          var p := Split(tail).value;
          AfterAssociative([msg], p.messages, Split(p.rest + b));
        }
      }
    }
  }

  lemma AfterSome(msg: Bytes, p: Option<Pass>)
    ensures After([msg], p) == if p.None? then None else Some(Pass([msg] + p.value.messages, p.value.rest))
  {
  }

  /**
   * Chunk invariance, for every byte stream and every way to cut it: the read loop delivers what one
   * pass over the whole stream would, keeps the same unparsed bytes, and meets a negative length
   * exactly when that pass would.
   */
  lemma {:induction false} ChunkInvariance(buffer: Bytes, chunks: seq<Bytes>)
    requires Split(buffer) == Some(Pass([], buffer))
    ensures ReadChunks(buffer, chunks) == Split(buffer + Flatten(chunks))
    decreases |chunks|
  {
    hide Split;
    if chunks == [] {
      assert buffer + Flatten(chunks) == buffer;
    } else {
      var whole := buffer + chunks[0];
      assert buffer + Flatten(chunks) == whole + Flatten(chunks[1..]);
      SplitExtends(whole, Flatten(chunks[1..]));
      if Split(whole).Some? {
        RestIsSettled(whole);
        ChunkInvariance(Split(whole).value.rest, chunks[1..]);
      }
    }
  }

  /** The bytes a pass leaves hold no whole frame. */
  lemma {:induction false} RestIsSettled(s: Bytes)
    requires Split(s).Some?
    ensures var rest := Split(s).value.rest; Split(rest) == Some(Pass([], rest))
    decreases |s|
  {
    hide Leading;
    if s != [] {
      var len := Leading(s);
      if len.count + len.value <= |s| {
        RestIsSettled(s[len.count + len.value..]);
      }
    }
  }

  // ---------------------------------------------------------------- frames

  lemma FrameReads(msg: Bytes, rest: Bytes)
    requires |msg| < TWO_31
    ensures Leading(Frame(msg) + rest) == Read(|msg|, |Varint(|msg|)|)
  {
    hide Varint, Leading;
    assert Frame(msg) + rest == Varint(|msg|) + (msg + rest);
    ReadBack(|msg|, msg + rest);
  }

  /** A frame followed by any bytes is judged complete, with exactly its own extent. */
  lemma FrameIsComplete(msg: Bytes, rest: Bytes)
    requires |msg| < TWO_31
    ensures Split(Frame(msg) + rest) == After([msg], Split(rest))
  {
    hide Varint, Leading;
    FrameReads(msg, rest);
    var s := Frame(msg) + rest;
    var n := |Varint(|msg|)|;
    assert s[n..n + |msg|] == msg && s[n + |msg|..] == rest;
  }

  lemma {:induction false} CompleteUntilLast(raw: Bytes, k: nat)
    requires Complete(raw) && k < |raw|
    ensures Length(raw[..k]) > k
    decreases k
  {
    if k > 0 {
      assert raw[..k][1..] == raw[1..][..k - 1];
      CompleteUntilLast(raw[1..], k - 1);
    }
  }

  /** Every non-empty strict prefix of a frame is judged incomplete, also one inside its length. */
  lemma CutFrameIsIncomplete(msg: Bytes, k: nat)
    requires |msg| < TWO_31 && 0 < k < |Frame(msg)|
    ensures Split(Frame(msg)[..k]) == Some(Pass([], Frame(msg)[..k]))
  {
    var prefix := Varint(|msg|);
    var s := Frame(msg)[..k];
    hide Varint, Leading, Bits;
    if k < |prefix| {
      VarintComplete(|msg|);
      CompleteUntilLast(prefix, k);
      assert s == prefix[..k];
      assert s + prefix[k..] == prefix && prefix + [] == prefix;
      NegativeStays(s, prefix[k..]);
      ReadBack(|msg|, []);
      LeadingCounts(s);
    } else {
      assert s == prefix + msg[..k - |prefix|];
      ReadBack(|msg|, msg[..k - |prefix|]);
    }
  }

  lemma LeadingCounts(s: Bytes)
    ensures Leading(s).count == Length(s)
  {
  }

  lemma {:induction false} SplitFrames(msgs: seq<Bytes>, rest: Bytes)
    requires Framable(msgs)
    ensures Split(Frames(msgs) + rest) == After(msgs, Split(rest))
  {
    hide Split, Frame;
    if msgs == [] {
      assert Frames(msgs) + rest == rest;
      AfterAssociative([], [], Split(rest));
    } else {
      assert Frames(msgs) + rest == Frame(msgs[0]) + (Frames(msgs[1..]) + rest);
      assert msgs[0] in msgs;
      FrameIsComplete(msgs[0], Frames(msgs[1..]) + rest);
      SplitFrames(msgs[1..], rest);
      AfterAssociative([msgs[0]], msgs[1..], Split(rest));
      assert [msgs[0]] + msgs[1..] == msgs;
    }
  }

  lemma {:induction false} FramesAppend(a: seq<Bytes>, b: seq<Bytes>)
    ensures Frames(a + b) == Frames(a) + Frames(b)
  {
    hide Frame;
    if a == [] {
      assert a + b == b;
    } else {
      assert (a + b)[1..] == a[1..] + b && (a + b)[0] == a[0] && a + b != [];
      FramesAppend(a[1..], b);
      Associative(Frame(a[0]), Frames(a[1..]), Frames(b));
    }
  }

  /** How many whole frames of `msgs` fit in the first `n` bytes, and where the last of them ends. */
  function Whole(msgs: seq<Bytes>, n: nat): (j: nat)
    ensures j <= |msgs|
  {
    if msgs == [] || |Frame(msgs[0])| > n then 0 else 1 + Whole(msgs[1..], n - |Frame(msgs[0])|)
  }

  function EndOf(msgs: seq<Bytes>, j: nat): nat
    requires j <= |msgs|
  {
    |Frames(msgs[..j])|
  }

  lemma {:induction false} WholeEnds(msgs: seq<Bytes>, n: nat)
    requires n <= |Frames(msgs)|
    ensures EndOf(msgs, Whole(msgs, n)) <= n
    ensures Frames(msgs)[EndOf(msgs, Whole(msgs, n))..] == Frames(msgs[Whole(msgs, n)..])
    decreases |msgs|
  {
    var j := Whole(msgs, n);
    assert msgs == msgs[..j] + msgs[j..];
    FramesAppend(msgs[..j], msgs[j..]);
    if j > 0 {
      hide Frame;
      WholeEnds(msgs[1..], n - |Frame(msgs[0])|);
      hide Frames, Whole, EndOf;
      FirstWhole(msgs, n);
    } else {
      assert msgs[..0] == [];
    }
  }

  /** When the first frame is whole in the first `n` bytes, what follows it is a shorter such stream. */
  lemma FirstWhole(msgs: seq<Bytes>, n: nat)
    requires msgs != [] && |Frame(msgs[0])| <= n <= |Frames(msgs)|
    ensures var tail, m := msgs[1..], n - |Frame(msgs[0])|;
            var j := Whole(tail, m);
            m <= |Frames(tail)| && Whole(msgs, n) == 1 + j && msgs[..1 + j] == [msgs[0]] + tail[..j] &&
            Frames(msgs)[..n] == Frame(msgs[0]) + Frames(tail)[..m] &&
            EndOf(msgs, 1 + j) == |Frame(msgs[0])| + EndOf(tail, j) &&
            (EndOf(tail, j) <= m ==> Frames(msgs)[EndOf(msgs, 1 + j)..n] == Frames(tail)[EndOf(tail, j)..m])
  {
    hide Frame;
    var j := Whole(msgs[1..], n - |Frame(msgs[0])|);
    assert msgs[..1 + j][1..] == msgs[1..][..j] && msgs[..1 + j] != [] && msgs[..1 + j][0] == msgs[0];
  }

  /** A pass over the first `n` bytes of a stream of frames takes exactly the whole ones. */
  lemma {:induction false} SplitOfPrefix(msgs: seq<Bytes>, n: nat)
    requires Framable(msgs) && n <= |Frames(msgs)|
    ensures EndOf(msgs, Whole(msgs, n)) <= n
    ensures Split(Frames(msgs)[..n])
         == Some(Pass(msgs[..Whole(msgs, n)], Frames(msgs)[EndOf(msgs, Whole(msgs, n))..n]))
    decreases |msgs|
  {
    hide Split, Frame;
    var s := Frames(msgs)[..n];
    if n == 0 {
      SplitNothing();
      NothingWhole(msgs);
      assert s == [] && msgs[..0] == [];
    } else {
      assert msgs[0] in msgs;
      var size := |Frame(msgs[0])|;
      if size > n {
        CutFrameIsIncomplete(msgs[0], n);
        assert s == Frame(msgs[0])[..n];
        assert msgs[..0] == [];
      } else {
        hide Frames, Whole, EndOf;
        FirstWhole(msgs, n);
        SplitOfPrefix(msgs[1..], n - size);
        FrameIsComplete(msgs[0], Frames(msgs[1..])[..n - size]);
      }
    }
  }

  lemma NothingWhole(msgs: seq<Bytes>)
    ensures Whole(msgs, 0) == 0 && EndOf(msgs, 0) == 0
  {
    assert msgs[..0] == [];
  }

  /** Framed, concatenated and cut anywhere, any list of messages comes out whole and in order. */
  lemma MessagesSurviveChunking(msgs: seq<Bytes>, chunks: seq<Bytes>)
    requires Framable(msgs) && Flatten(chunks) == Frames(msgs)
    ensures ReadChunks([], chunks) == Some(Pass(msgs, []))
  {
    hide ReadChunks;
    assert [] + Flatten(chunks) == Frames(msgs) + [] == Frames(msgs);
    ChunkInvariance([], chunks);
    SplitFrames(msgs, []);
    assert msgs + [] == msgs;
  }
}
