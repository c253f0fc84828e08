/**
 * Varints as `src/bitswap-codec.ts` and `src/api/dag-pb.ts` read and write them, over JavaScript's
 * 32-bit integers.  A 32-bit pattern is a `nat` below 2^32; `|`, `<<`, `>>>` and the final signed
 * reading are written out on naturals.
 */
module Varints {
  import opened Basics

  const TWO_31: nat := 0x8000_0000
  const TWO_32: nat := 0x1_0000_0000

  /** ToInt32 of ECMA-262, section 7.1.6, for non-negative integers. */
  function ToInt32(n: nat): int {
    var m := n % TWO_32;
    if m < TWO_31 then m else m - TWO_32
  }

  function Pow2(k: nat): (p: nat)
    ensures p > 0
  {
    if k == 0 then 1 else 2 * Pow2(k - 1)
  }

  /** Bitwise `|` on bit patterns. */
  function Or(a: nat, b: nat): nat {
    if a == 0 && b == 0 then 0
    else 2 * Or(a / 2, b / 2) + (if a % 2 == 1 || b % 2 == 1 then 1 else 0)
  }

  /** `x << shift`: JavaScript takes the shift count modulo 32 and drops the bits above 2^32. */
  function Shl(x: nat, shift: nat): nat {
    (x * Pow2(shift % 32)) % TWO_32
  }

  // ---------------------------------------------------------------- bit patterns

  lemma {:induction false} OrWithZero(b: nat)
    ensures Or(0, b) == b
  {
    if b != 0 {
      OrWithZero(b / 2);
    }
  }

  lemma {:induction false} OrZero(a: nat)
    ensures Or(a, 0) == a
  {
    if a != 0 {
      OrZero(a / 2);
    }
  }

  lemma {:induction false} OrAtLeast(a: nat, b: nat)
    ensures Or(a, b) >= a
  {
    if a != 0 || b != 0 {
      OrAtLeast(a / 2, b / 2);
    }
  }

  lemma {:induction false} OrBelow(a: nat, b: nat, k: nat)
    requires a < Pow2(k) && b < Pow2(k)
    ensures Or(a, b) < Pow2(k)
  {
    if k > 0 && (a != 0 || b != 0) {
      OrBelow(a / 2, b / 2, k - 1);
    }
  }

  /** On patterns that share no bit, `|` is addition. */
  lemma {:induction false} OrDisjoint(a: nat, x: nat, k: nat)
    requires a < Pow2(k)
    ensures Or(a, x * Pow2(k)) == a + x * Pow2(k)
  {
    if k == 0 {
      OrWithZero(x);
    } else {
      var b := x * Pow2(k - 1);
      assert x * Pow2(k) == 2 * b;
      OrDisjoint(a / 2, x, k - 1);
    }
  }

  lemma Pow2Of32()
    ensures Pow2(7) == 128 && Pow2(25) == 0x200_0000 && Pow2(32) == TWO_32
  {
    assert Pow2(4) == 16;
    assert Pow2(7) == 128;
    assert Pow2(10) == 1024;
    assert Pow2(13) == 8192;
    assert Pow2(16) == 65536;
    assert Pow2(19) == 524288;
    assert Pow2(22) == 4194304;
    assert Pow2(25) == 33554432;
    assert Pow2(28) == 268435456;
    assert Pow2(31) == 2147483648;
  }

  lemma {:induction false} Pow2Add(a: nat, b: nat)
    ensures Pow2(a + b) == Pow2(a) * Pow2(b)
  {
    if a > 0 {
      Pow2Add(a - 1, b);
    }
  }

  lemma {:induction false} Pow2Mono(a: nat, b: nat)
    requires a <= b
    ensures Pow2(a) <= Pow2(b)
  {
    if a < b {
      Pow2Mono(a, b - 1);
    }
  }

  // ---------------------------------------------------------------- writing

  /**
   * The bytes `appendVarint` pushes for `n`; `>>>` first truncates to 32 bits.  A negative number is
   * pushed as it is, and the conversion to a byte array keeps it modulo 256.
   */
  function Varint(n: int): (s: Bytes)
    ensures |s| >= 1
  {
    if n <= 127 then [n % 256] else [n % 128 + 128] + Varint((n % TWO_32) / 128)
  }

  lemma VarintStep(n: int)
    requires n > 127
    ensures Varint(n) == [n % 128 + 128] + Varint((n % TWO_32) / 128)
  {
  }

  method AppendVarint(buf: JsArray<Byte>, n: int)
    modifies buf
    ensures buf.items == old(buf.items) + Varint(n)
  {
    hide Varint;
    var rest := n;
    while rest > 127
      invariant buf.items + Varint(rest) == old(buf.items) + Varint(n)
      decreases rest
    {
      VarintStep(rest);
      Associative(buf.items, [rest % 128 + 128], Varint((rest % TWO_32) / 128));
      buf.Push(rest % 128 + 128);
      rest := (rest % TWO_32) / 128;
    }
    VarintLast(rest);
    buf.Push(rest % 256);
  }

  lemma VarintLast(n: int)
    requires n <= 127
    ensures Varint(n) == [n % 256]
  {
  }

  // ---------------------------------------------------------------- reading

  /** What reading a varint yields: the signed 32-bit value and the number of bytes counted. */
  datatype Read = Read(value: int, count: nat)

  /** The byte at the head of `s`; a read past the end gives `undefined`, whose bits are all zero. */
  function Head(s: Bytes): Byte {
    if s == [] then 0 else s[0]
  }

  /** The pattern in the accumulator after one more byte. */
  function Accumulate(acc: nat, b: Byte, shift: nat): nat {
    Or(acc, Shl(b % 128, shift))
  }

  /** The accumulator after reading the varint at the head of `s`, begun at `shift` with `acc`. */
  function Bits(s: Bytes, shift: nat, acc: nat): nat
    decreases |s|
  {
    var next := Accumulate(acc, Head(s), shift);
    if Head(s) < 128 then next else Bits(s[1..], shift + 7, next)
  }

  /** How many bytes that read counts: the missing byte past the end is counted too. */
  function Length(s: Bytes): (n: nat)
    ensures 1 <= n <= |s| + 1
    decreases |s|
  {
    if Head(s) < 128 then 1 else 1 + Length(s[1..])
  }

  /** The varint at the head of `s`, as the Bitswap codec reads it. */
  function Leading(s: Bytes): (r: Read)
    ensures 1 <= r.count <= |s| + 1
  {
    Read(ToInt32(Bits(s, 0, 0)), Length(s))
  }

  method ReadVarint(buf: Bytes, offset: nat) returns (value: int, count: nat)
    ensures Read(value, count) == Leading(From(buf, offset))
  {
    hide Or, Shl;
    var result: nat, shift: nat, pos: nat := 0, 0, offset;
    while true
      invariant offset <= pos <= offset + |From(buf, offset)|
      invariant Bits(From(buf, pos), shift, result) == Bits(From(buf, offset), 0, 0)
      invariant pos - offset + Length(From(buf, pos)) == Length(From(buf, offset))
      decreases offset + |buf| - pos
    {
      var b: Byte := if pos < |buf| then buf[pos] else 0;
      assert b == Head(From(buf, pos));
      FromFrom(buf, pos, 1);
      pos := pos + 1;
      result := Or(result, Shl(b % 128, shift));
      shift := shift + 7;
      if b < 128 {
        break;
      }
    }
    value, count := ToInt32(result), pos - offset;
  }

  // ---------------------------------------------------------------- what was written is read back

  /** Seven more bits land above the ones already read. */
  lemma AccumulateAbove(acc: nat, b: Byte, shift: nat)
    requires acc < Pow2(shift) && shift < 32 && (b % 128) * Pow2(shift) < TWO_32
    ensures Accumulate(acc, b, shift) == acc + (b % 128) * Pow2(shift)
  {
    ShlInside(b % 128, shift);
    OrDisjoint(acc, b % 128, shift);
  }

  lemma ShlInside(x: nat, shift: nat)
    requires shift < 32 && x * Pow2(shift) < TWO_32
    ensures Shl(x, shift) == x * Pow2(shift)
  {
    assert shift % 32 == shift;
  }

  lemma RoomForSeven(n: nat, shift: nat)
    requires n > 127 && n * Pow2(shift) < TWO_32
    ensures shift < 25 && n < TWO_32
  {
    hide Pow2;
    MulMono(128, n, Pow2(shift));
    MulMono(1, Pow2(shift), n);
    Pow2Of32();
    if shift >= 25 {
      Pow2Mono(25, shift);
    }
  }

  /** The part of `n` above its low seven bits, moved up by seven, keeps within 32 bits. */
  lemma NextSeven(n: nat, shift: nat)
    requires n > 127 && n * Pow2(shift) < TWO_32
    ensures shift + 7 < 32 && n < TWO_32
    ensures n * Pow2(shift) == (n % 128) * Pow2(shift) + (n / 128) * Pow2(shift + 7)
    ensures (n % 128) * Pow2(shift) + Pow2(shift) <= Pow2(shift + 7)
    ensures (n % 128) * Pow2(shift) < TWO_32 && (n / 128) * Pow2(shift + 7) < TWO_32
  {
    hide Pow2;
    RoomForSeven(n, shift);
    Pow2Add(shift, 7);
    Pow2Of32();
    SplitProduct(n, Pow2(shift));
    LowSeven(n % 128, Pow2(shift));
  }

  lemma LowSeven(low: nat, p: nat)
    requires low < 128
    ensures low * p + p <= p * 128
  {
    assert low * p + p == (low + 1) * p;
    MulMono(low + 1, 128, p);
  }

  lemma BitsUnfold(s: Bytes, shift: nat, acc: nat)
    ensures var next := Accumulate(acc, Head(s), shift);
            Bits(s, shift, acc) == (if Head(s) < 128 then next else Bits(s[1..], shift + 7, next)) &&
            Length(s) == (if Head(s) < 128 then 1 else 1 + Length(s[1..]))
  {
    hide Accumulate;
  }

  lemma VarintHigh(n: nat)
    requires 127 < n < TWO_32
    ensures Varint(n) == [n % 128 + 128] + Varint(n / 128)
  {
    hide Varint;
    VarintStep(n);
    assert n % TWO_32 == n;
  }

  lemma HeadAndTail(head: Byte, t: Bytes, rest: Bytes)
    ensures Head([head] + t + rest) == head && ([head] + t + rest)[1..] == t + rest
  {
    assert ([head] + t + rest)[0] == head;
  }

  lemma VarintHead(n: nat, rest: Bytes)
    requires n < TWO_32
    ensures var s := Varint(n) + rest;
            if n <= 127 then Head(s) == n && |Varint(n)| == 1
            else Head(s) == n % 128 + 128 && s[1..] == Varint(n / 128) + rest && |Varint(n)| == 1 + |Varint(n / 128)|
  {
    hide Varint;
    if n <= 127 {
      VarintLast(n);
      HeadAndTail(n, [], rest);
      assert [n] + [] == [n];
    } else {
      VarintHigh(n);
      HeadAndTail(n % 128 + 128, Varint(n / 128), rest);
    }
  }

  lemma {:induction false} BitsOfVarint(n: nat, rest: Bytes, shift: nat, acc: nat)
    requires acc < Pow2(shift) && n * Pow2(shift) < TWO_32 && shift < 32 && n < TWO_32
    ensures Bits(Varint(n) + rest, shift, acc) == acc + n * Pow2(shift)
    ensures Length(Varint(n) + rest) == |Varint(n)|
    decreases n
  {
    hide Accumulate, Bits, Length, Varint, Pow2;
    var s := Varint(n) + rest;
    VarintHead(n, rest);
    BitsUnfold(s, shift, acc);
    if n <= 127 {
      assert Head(s) % 128 == n;
      AccumulateAbove(acc, Head(s), shift);
    } else {
      NextSeven(n, shift);
      assert Head(s) % 128 == n % 128;
      AccumulateAbove(acc, Head(s), shift);
      var next := acc + (n % 128) * Pow2(shift);
      BitsOfVarint(n / 128, rest, shift + 7, next);
    }
  }

  lemma MulMono(a: nat, b: nat, p: nat)
    requires a <= b
    ensures a * p <= b * p && p * a <= p * b
  {
  }

  lemma SplitProduct(n: nat, p: nat)
    ensures n * p == (n % 128) * p + (n / 128) * (p * 128)
  {
    var low, high := n % 128, n / 128;
    assert n == low + 128 * high;
    assert (low + 128 * high) * p == low * p + high * (p * 128);
  }

  lemma Pow2By7(k: nat)
    ensures Pow2(7 * (k + 1)) == Pow2(7 * k) * 128
    ensures Pow2(0) == 1
  {
    Pow2Add(7 * k, 7);
    Pow2Of32();
  }

  lemma {:induction false} VarintShort(n: nat, k: nat)
    requires n < Pow2(7 * k) && 1 <= k <= 5 && n < TWO_32
    ensures |Varint(n)| <= k
    decreases k
  {
    hide Pow2;
    if n > 127 {
      Pow2By7(k - 1);
      assert k > 1 && n % TWO_32 == n;
      VarintShort(n / 128, k - 1);
    }
  }

  lemma VarintAtMostFive(n: nat)
    ensures |Varint(n)| <= 5
  {
    if n > 127 {
      var next := (n % TWO_32) / 128;
      Pow2Of32();
      Pow2Mono(25, 28);
      VarintShort(next, 4);
    }
  }

  /**
   * Varint exactness: whatever follows it, reading back what was appended for `n` gives the signed
   * 32-bit reading of `n` and counts exactly the bytes that were written, at most five.
   */
  lemma ReadBack(n: nat, rest: Bytes)
    ensures Leading(Varint(n) + rest) == Read(ToInt32(n), |Varint(n)|)
    ensures |Varint(n)| <= 5
    ensures n < TWO_31 ==> ToInt32(n) == n
  {
    VarintAtMostFive(n);
    hide Bits, Varint;
    BitsModulo(n, rest);
    ToInt32Modulo(n);
  }

  lemma ToInt32Modulo(n: nat)
    ensures ToInt32(n % TWO_32) == ToInt32(n)
    ensures n < TWO_31 ==> ToInt32(n) == n
  {
    assert n % TWO_32 % TWO_32 == n % TWO_32;
  }

  lemma BitsModulo(n: nat, rest: Bytes)
    ensures Bits(Varint(n) + rest, 0, 0) == n % TWO_32
    ensures Length(Varint(n) + rest) == |Varint(n)|
  {
    hide Bits, Varint, Length;
    if n < TWO_32 {
      assert n * Pow2(0) == n;
      BitsOfVarint(n, rest, 0, 0);
    } else {
      BitsOfLarge(n, rest);
    }
  }

  /** From 2^32 on, `>>>` has dropped the high bits by the second byte. */
  lemma BitsOfLarge(n: nat, rest: Bytes)
    requires n >= TWO_32
    ensures Bits(Varint(n) + rest, 0, 0) == n % TWO_32
    ensures Length(Varint(n) + rest) == |Varint(n)|
  {
    hide Accumulate;
    var s := Varint(n) + rest;
    var m := n % TWO_32;
    assert m % 128 == n % 128;
    assert Head(s) == m % 128 + 128 && Head(s) % 128 == m % 128;
    assert s[1..] == Varint(m / 128) + rest;
    assert (m % 128) * Pow2(0) == m % 128;
    AccumulateAbove(0, Head(s), 0);
    Pow2Of32();
    BitsOfVarint(m / 128, rest, 7, m % 128);
  }

  // ---------------------------------------------------------------- cut and extended varints

  /** A whole varint: every byte but the last carries the continuation bit. */
  predicate Complete(raw: Bytes) {
    raw != [] && raw[|raw| - 1] < 128 && forall i :: 0 <= i < |raw| - 1 ==> raw[i] >= 128
  }

  lemma {:induction false} CompleteReads(raw: Bytes, rest: Bytes, shift: nat, acc: nat)
    requires Complete(raw)
    ensures Bits(raw + rest, shift, acc) == Bits(raw, shift, acc)
    ensures Length(raw + rest) == Length(raw) == |raw|
    decreases |raw|
  {
    hide Accumulate;
    if |raw| > 1 {
      assert (raw + rest)[1..] == raw[1..] + rest;
      CompleteReads(raw[1..], rest, shift + 7, Accumulate(acc, raw[0], shift));
    }
  }

  /** Any complete varint, however long or redundant, is read alone exactly as before a suffix. */
  lemma ReadComplete(raw: Bytes, rest: Bytes)
    requires Complete(raw)
    ensures Leading(raw + rest) == Leading(raw)
    ensures Leading(raw).count == |raw|
  {
    CompleteReads(raw, rest, 0, 0);
  }

  lemma {:induction false} VarintComplete(n: nat)
    ensures Complete(Varint(n))
  {
    if n > 127 {
      VarintComplete((n % TWO_32) / 128);
    }
  }

  /** A read that stays inside `s` does not look at what comes after `s`. */
  lemma {:induction false} BitsInside(s: Bytes, t: Bytes, shift: nat, acc: nat)
    requires Length(s) <= |s|
    ensures Length(s + t) == Length(s) && Bits(s + t, shift, acc) == Bits(s, shift, acc)
    decreases |s|
  {
    hide Accumulate;
    assert Head(s + t) == Head(s);
    if Head(s) >= 128 {
      assert (s + t)[1..] == s[1..] + t;
      BitsInside(s[1..], t, shift + 7, Accumulate(acc, Head(s), shift));
    }
  }

  lemma AccumulateBounds(acc: nat, b: Byte, shift: nat)
    ensures Accumulate(acc, b, shift) >= acc
    ensures acc < TWO_32 ==> Accumulate(acc, b, shift) < TWO_32
    ensures b % 128 == 0 ==> Accumulate(acc, b, shift) == acc
  {
    hide Or;
    var moved := Shl(b % 128, shift);
    OrAtLeast(acc, moved);
    Pow2Of32();
    if acc < TWO_32 {
      OrBelow(acc, moved, 32);
    }
    if b % 128 == 0 {
      OrZero(acc);
    }
  }

  lemma {:induction false} BitsBounds(s: Bytes, shift: nat, acc: nat)
    ensures Bits(s, shift, acc) >= acc
    ensures acc < TWO_32 ==> Bits(s, shift, acc) < TWO_32
    decreases |s|
  {
    hide Accumulate;
    AccumulateBounds(acc, Head(s), shift);
    if Head(s) >= 128 {
      BitsBounds(s[1..], shift + 7, Accumulate(acc, Head(s), shift));
    }
  }

  /** A varint cut off by the end of `s` counts one byte too many, and more bytes only add bits. */
  lemma {:induction false} BitsCut(s: Bytes, t: Bytes, shift: nat, acc: nat)
    requires Length(s) > |s|
    ensures Length(s + t) > |s| && Bits(s + t, shift, acc) >= Bits(s, shift, acc)
    decreases |s|
  {
    hide Accumulate;
    if s == [] {
      assert s + t == t;
      AccumulateBounds(acc, 0, shift);
      BitsBounds(t, shift, acc);
    } else {
      assert (s + t)[1..] == s[1..] + t;
      BitsCut(s[1..], t, shift + 7, Accumulate(acc, s[0], shift));
    }
  }

  lemma SignMonotone(a: nat, b: nat)
    requires a <= b < TWO_32
    ensures ToInt32(a) < 0 ==> ToInt32(b) < 0
  {
  }

  /** Once a cut varint reads as negative it stays negative however it continues. */
  lemma NegativeStays(s: Bytes, t: Bytes)
    requires Length(s) > |s|
    ensures Leading(s).value < 0 ==> Leading(s + t).value < 0
    ensures Leading(s + t).count > |s|
  {
    hide Bits, ToInt32;
    BitsCut(s, t, 0, 0);
    BitsBounds(s, 0, 0);
    BitsBounds(s + t, 0, 0);
    SignMonotone(Bits(s, 0, 0), Bits(s + t, 0, 0));
  }

  // ---------------------------------------------------------------- the ten-byte reader of dag-pb.ts

  /** The accumulator of the reader in `src/api/dag-pb.ts`, which gives up after `cap` bytes. */
  function CappedBits(s: Bytes, cap: nat, shift: nat, acc: nat): nat
    decreases cap
  {
    if cap == 0 then acc
    else
      var next := Accumulate(acc, Head(s), shift);
      if Head(s) < 128 then next else CappedBits(s[1..], cap - 1, shift + 7, next)
  }

  function CappedLength(s: Bytes, cap: nat): (n: nat)
    ensures cap > 0 ==> 1 <= n <= |s| + 1
    decreases cap
  {
    if cap == 0 then 0
    else if Head(s) < 128 then 1 else 1 + CappedLength(s[1..], cap - 1)
  }

  function LeadingTen(s: Bytes): Read {
    Read(ToInt32(CappedBits(s, 10, 0, 0)), CappedLength(s, 10))
  }

  method ReadVarintTen(buf: Bytes, offset: nat) returns (value: int, n: nat)
    ensures Read(value, n) == LeadingTen(From(buf, offset))
  {
    hide Or, Shl;
    ghost var s := From(buf, offset);
    var bits: nat, shift: nat := 0, 0;
    n := 0;
    while n < 10
      invariant n <= 10
      invariant CappedBits(From(s, n), 10 - n, shift, bits) == CappedBits(s, 10, 0, 0)
      invariant n + CappedLength(From(s, n), 10 - n) == CappedLength(s, 10)
      decreases 10 - n
    {
      FromFrom(buf, offset, n);
      FromFrom(s, n, 1);
      var byte: Byte := if offset + n < |buf| then buf[offset + n] else 0;
      assert byte == Head(From(s, n));
      n := n + 1;
      bits := Or(bits, Shl(byte % 128, shift));
      shift := shift + 7;
      if byte < 128 {
        break;
      }
    }
    value := ToInt32(bits);
  }

  lemma {:induction false} CappedAgrees(s: Bytes, cap: nat, shift: nat, acc: nat)
    requires Length(s) <= cap
    ensures CappedBits(s, cap, shift, acc) == Bits(s, shift, acc)
    ensures CappedLength(s, cap) == Length(s)
    decreases cap
  {
    hide Accumulate;
    if Head(s) >= 128 {
      CappedAgrees(s[1..], cap - 1, shift + 7, Accumulate(acc, Head(s), shift));
    }
  }

  /** The two readers of the repository agree on every varint of at most ten bytes. */
  lemma ReadersAgree(s: Bytes)
    requires Length(s) <= 10
    ensures LeadingTen(s) == Leading(s)
  {
    CappedAgrees(s, 10, 0, 0);
  }

  // ---------------------------------------------------------------- longer varints

  /** From the sixth byte on the shift count wraps round, so that high bytes land on low bits. */
  lemma SixthByteWraps(b: Byte)
    requires b < 32
    ensures Leading([128, 128, 128, 128, 128, b]) == Read(8 * b, 6)
  {
    var s: Bytes := [128, 128, 128, 128, 128, b];
    assert s[5..] == [b];
    ShiftOf35(b);
    hide Bits, Length, Accumulate, ToInt32;
    ZeroBytes(s, 5, 0);
    BitsUnfold([b], 35, 0);
    assert Head([b]) == b;
    SmallToInt32(8 * b);
  }

  lemma ShiftOf35(b: Byte)
    requires b < 32
    ensures Accumulate(0, b, 35) == 8 * b
  {
    assert Pow2(3) == 8;
    assert 35 % 32 == 3 && b % 128 == b;
    hide Or, Pow2;
    assert Shl(b, 35) == 8 * b;
    OrWithZero(8 * b);
  }

  lemma SmallToInt32(n: nat)
    requires n < TWO_31
    ensures ToInt32(n) == n
  {
  }

  /** Bytes that carry only the continuation bit add nothing. */
  lemma {:induction false} ZeroBytes(s: Bytes, k: nat, shift: nat)
    requires k < |s| && forall i | 0 <= i < k :: s[i] == 128
    ensures Bits(s, shift, 0) == Bits(s[k..], shift + 7 * k, 0) && Length(s) == k + Length(s[k..])
    decreases k
  {
    if k > 0 {
      AccumulateBounds(0, 128, shift);
      ZeroBytes(s[1..], k - 1, shift + 7);
      assert s[1..][k - 1..] == s[k..];
    } else {
      assert s[0..] == s;
    }
  }

  /** The reader of dag-pb.ts gives up after exactly ten bytes that all carry the continuation bit. */
  lemma {:induction false} GivesUpAfter(s: Bytes, cap: nat)
    ensures CappedLength(s, cap) <= cap
    ensures cap <= |s| && (forall i | 0 <= i < cap :: s[i] >= 128) ==> CappedLength(s, cap) == cap
    decreases cap
  {
    if cap > 0 && Head(s) >= 128 {
      GivesUpAfter(s[1..], cap - 1);
    }
  }

  lemma TenBytesAtMost(s: Bytes)
    ensures LeadingTen(s).count <= 10
    ensures 10 <= |s| && (forall i | 0 <= i < 10 :: s[i] >= 128) ==> LeadingTen(s).count == 10
  {
    GivesUpAfter(s, 10);
  }
}
