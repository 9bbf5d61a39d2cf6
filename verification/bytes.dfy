/** The byte primitives every encoder is built from (dendrite's `Bytes`):
    little-endian fixed-width integers, base-128 varints, ZigZag signed
    integers, bit-packed integers and booleans, and length-prefixed byte
    arrays. The varint and ZigZag schemes are those of the Protocol Buffers
    wire format ("Base 128 Varints" and "ZigZag"), except that a negative
    `int` is written as the 5-byte varint of its unsigned reading.

    Writers return the bytes they append to the output stream; readers take
    the unread part of the input buffer and return the value together with
    what is left, or the exception the Java reader would throw. */
module Bytes {
  import opened Wrappers
  import opened Words
  import opened BitStreams
  import opened Seqs

  /** A value read from the front of a buffer, and the bytes after it. */
  datatype Parsed<+T> = Parsed(value: T, rest: seq<byte>)

  // ---------------------------------------------------------------------
  // Fixed-width little-endian integers

  /** `writeFixedInt` / `writeFixedLong`: the word's bytes, low byte first. */
  function WriteFixed(i: int, w: Word): (r: seq<byte>)
    requires w.Holds(i)
    ensures 8 * |r| == w.Bits()
  {
    LittleEndian(ToUnsigned(i, w), w.Bits() / 8)
  }

  /** `readFixedInt` / `readFixedLong`. */
  function ReadFixed(bs: seq<byte>, w: Word): (r: Outcome<Parsed<int>>)
    ensures r.Failure? <==> 8 * |bs| < w.Bits()
    ensures r.Failure? ==> r.error == BufferUnderflow
    ensures r.Success? ==> w.Holds(r.value.value) && r.value.rest == bs[w.Bits() / 8..]
  {
    var n := w.Bits() / 8;
    if |bs| < n then Failure(BufferUnderflow)
    else Success(Parsed(ToSigned(FromLittleEndian(bs[..n]), w), bs[n..]))
  }

  /** A fixed int (4 bytes) or long (8 bytes) reads back as written, and
      the reader stops right after it. */
  lemma FixedRoundTrip(i: int, w: Word, rest: seq<byte>)
    requires w.Holds(i)
    ensures |WriteFixed(i, w)| == w.Bits() / 8
    ensures ReadFixed(WriteFixed(i, w) + rest, w) == Success(Parsed(i, rest))
  {
    var n := w.Bits() / 8;
    var u := ToUnsigned(i, w);
    var bs := WriteFixed(i, w) + rest;
    TakeOfAppend(WriteFixed(i, w), rest, n);
    DropOfAppend(WriteFixed(i, w), rest, n);
    assert bs[..n] == WriteFixed(i, w) && bs[n..] == rest;
    LittleEndianRoundTrip(u, n);
    Pow2Words();
    assert Pow2(8 * n) == w.Modulus();
    DivModUnique(u, w.Modulus(), 0, u);
    assert FromLittleEndian(bs[..n]) == u;
    SignedUnsigned(i, w);
  }

  // ---------------------------------------------------------------------
  // Base-128 varints

  /** The number of 7-bit groups of `n` without leading zero groups. */
  function NumGroups(n: nat): (g: nat)
    ensures g >= 1
  {
    if n < 0x80 then 1 else 1 + NumGroups(n / 0x80)
  }

  /** `n` as exactly `g` base-128 groups, low group first; every byte but
      the last carries the continuation bit 0x80. */
  function Groups(n: nat, g: nat): (r: seq<byte>)
    requires g >= NumGroups(n)
    ensures |r| == g
    ensures forall k | 0 <= k < g - 1 :: r[k] >= 0x80
    ensures r[g - 1] < 0x80
    decreases g
  {
    if g == 1 then [n] else [n % 0x80 + 0x80] + Groups(n / 0x80, g - 1)
  }

  lemma {:induction false} NumGroupsUpper(n: nat, k: nat)
    requires k >= 1 && n < Pow2(7 * k)
    ensures NumGroups(n) <= k
  {
    if n >= 0x80 {
      Pow2Add(7, 7 * (k - 1));
      Pow2Words();
      if k == 1 {
        assert false;
      }
      NumGroupsUpper(n / 0x80, k - 1);
    }
  }

  lemma {:induction false} NumGroupsLower(n: nat, k: nat)
    requires Pow2(7 * k) <= n
    ensures NumGroups(n) >= k + 1
  {
    if k > 0 {
      Pow2Add(7, 7 * (k - 1));
      Pow2Words();
      Pow2Monotone(7, 7 * k);
      NumGroupsLower(n / 0x80, k - 1);
    }
  }

  /** The varint loop shared by `readUInt`, `readULong` and `readUIntVLQ`:
      it accumulates the low 7 bits of each byte, group `k` at bit `7k`,
      until a byte without the continuation bit, and gives up with
      `tooLong` when `limit` bytes all carried it. */
  function ReadGroups(bs: seq<byte>, limit: nat, tooLong: Exception): (r: Outcome<Parsed<nat>>)
    ensures r.Success? ==> |r.value.rest| < |bs| && bs[|bs| - |r.value.rest|..] == r.value.rest
    decreases limit
  {
    if limit == 0 then Failure(tooLong)
    else if |bs| == 0 then Failure(BufferUnderflow)
    else if bs[0] < 0x80 then Success(Parsed(bs[0], bs[1..]))
    else
      var tail :- ReadGroups(bs[1..], limit - 1, tooLong);
      Success(Parsed(bs[0] - 0x80 + 0x80 * tail.value, tail.rest))
  }

  lemma {:induction false} ReadGroupsOfGroups(n: nat, g: nat, limit: nat, tooLong: Exception, rest: seq<byte>)
    requires NumGroups(n) <= g <= limit
    ensures ReadGroups(Groups(n, g) + rest, limit, tooLong) == Success(Parsed(n, rest))
    decreases g
  {
    if g == 1 {
      assert Groups(n, g) + rest == [n] + rest;
      assert ([n] + rest)[1..] == rest;
    } else {
      ReadGroupsOfGroups(n / 0x80, g - 1, limit - 1, tooLong, rest);
      ReadGroupsStep(n, g, limit, tooLong, rest);
    }
  }

  /** One more group in front of groups that read back. */
  lemma ReadGroupsStep(n: nat, g: nat, limit: nat, tooLong: Exception, rest: seq<byte>)
    requires NumGroups(n) <= g <= limit && g > 1
    requires ReadGroups(Groups(n / 0x80, g - 1) + rest, limit - 1, tooLong) == Success(Parsed(n / 0x80, rest))
    ensures ReadGroups(Groups(n, g) + rest, limit, tooLong) == Success(Parsed(n, rest))
  {
    var head := n % 0x80 + 0x80;
    var tail := Groups(n / 0x80, g - 1);
    assert Groups(n, g) == [head] + tail;
    AppendAssoc([head], tail, rest);
    ReadGroupsCons(head, tail + rest, limit, tooLong, n / 0x80, rest);
    assert head - 0x80 + 0x80 * (n / 0x80) == n by {
      assert n == 0x80 * (n / 0x80) + n % 0x80;
    }
  }

  /** One continuation byte in front of a readable varint. */
  lemma ReadGroupsCons(head: byte, tail: seq<byte>, limit: nat, tooLong: Exception, v: nat, rest: seq<byte>)
    requires head >= 0x80 && limit > 0
    requires ReadGroups(tail, limit - 1, tooLong) == Success(Parsed(v, rest))
    ensures ReadGroups([head] + tail, limit, tooLong) == Success(Parsed(head - 0x80 + 0x80 * v, rest))
  {
    assert ([head] + tail)[1..] == tail;
  }

  /** `limit` bytes that all carry the continuation bit make the reader
      give up, before it reads any further byte. */
  lemma {:induction false} ReadGroupsTooLong(bs: seq<byte>, limit: nat, tooLong: Exception)
    requires limit <= |bs|
    requires forall k | 0 <= k < limit :: bs[k] >= 0x80
    ensures ReadGroups(bs, limit, tooLong) == Failure(tooLong)
    decreases limit
  {
    if limit > 0 {
      ReadGroupsTooLong(bs[1..], limit - 1, tooLong);
    }
  }

  /** The most bytes a varint of the word may take: 5 for an `int`, 10 for a
      `long` (the reader loops while the shift is below the word size). */
  function MaxVarintBytes(w: Word): nat {
    if w.W32? then 5 else 10
  }

  /** The exception the reader throws on an over-long varint. */
  function VarintTooLong(w: Word): Exception {
    if w.W32? then IllegalState("Failed to parse UInt") else IllegalState("Failed to parse ULong")
  }

  /** `getNumUIntBytes` / `getNumULongBytes` as a function: the varint size
      of the unsigned reading of `i`. */
  function NumVarintBytes(i: int, w: Word): (n: nat)
    requires w.Holds(i)
    ensures 1 <= n <= MaxVarintBytes(w)
    ensures i < 0 ==> n == MaxVarintBytes(w)
  {
    VarintSize(i, w);
    NumGroups(ToUnsigned(i, w))
  }

  lemma VarintSize(i: int, w: Word)
    requires w.Holds(i)
    ensures NumGroups(ToUnsigned(i, w)) <= MaxVarintBytes(w)
    ensures i < 0 ==> NumGroups(ToUnsigned(i, w)) == MaxVarintBytes(w)
  {
    Pow2Words();
    if w.W32? {
      VarintSize32(ToUnsigned(i, w), i < 0);
    } else {
      VarintSize64(ToUnsigned(i, w), i < 0);
    }
  }

  lemma VarintSize32(u: nat, negative: bool)
    requires u < Pow2(32) && (negative ==> Pow2(31) <= u)
    ensures NumGroups(u) <= 5
    ensures negative ==> NumGroups(u) == 5
  {
    Pow2Monotone(32, 35);
    NumGroupsUpper(u, 5);
    if negative {
      Pow2Monotone(28, 31);
      NumGroupsLower(u, 4);
    }
  }

  lemma VarintSize64(u: nat, negative: bool)
    requires u < Pow2(64) && (negative ==> Pow2(63) <= u)
    ensures NumGroups(u) <= 10
    ensures negative ==> NumGroups(u) == 10
  {
    Pow2Monotone(64, 70);
    NumGroupsUpper(u, 10);
    if negative {
      NumGroupsLower(u, 9);
    }
  }

  /** `writeUInt` / `writeULong`: the minimal varint of the unsigned reading
      of `i`. */
  function WriteVarint(i: int, w: Word): (r: seq<byte>)
    requires w.Holds(i)
    ensures |r| == NumVarintBytes(i, w)
  {
    Groups(ToUnsigned(i, w), NumVarintBytes(i, w))
  }

  /** `readUInt` / `readULong`: bits past the word size are dropped, as the
      Java shifts drop them. */
  function ReadVarint(bs: seq<byte>, w: Word): (r: Outcome<Parsed<int>>)
    ensures r.Success? ==> w.Holds(r.value.value) && |r.value.rest| < |bs|
  {
    var p :- ReadGroups(bs, MaxVarintBytes(w), VarintTooLong(w));
    Success(Parsed(ToSigned(p.value, w), p.rest))
  }

  /** Every varint byte but the last carries the continuation bit; negative
      values take the maximum size; and the reader returns the value,
      negative ones included. */
  lemma VarintRoundTrip(i: int, w: Word, rest: seq<byte>)
    requires w.Holds(i)
    ensures var bs := WriteVarint(i, w);
      && 1 <= |bs| <= MaxVarintBytes(w)
      && (i < 0 ==> |bs| == MaxVarintBytes(w))
      && (forall k | 0 <= k < |bs| - 1 :: bs[k] >= 0x80)
      && bs[|bs| - 1] < 0x80
    ensures ReadVarint(WriteVarint(i, w) + rest, w) == Success(Parsed(i, rest))
  {
    ReadGroupsOfGroups(ToUnsigned(i, w), NumVarintBytes(i, w), MaxVarintBytes(w), VarintTooLong(w), rest);
    SignedUnsigned(i, w);
  }

  /** `readUInt` throws once five bytes in a row carry the continuation bit
      (ten for `readULong`). */
  lemma VarintTooLongFails(bs: seq<byte>, w: Word)
    requires MaxVarintBytes(w) <= |bs|
    requires forall k | 0 <= k < MaxVarintBytes(w) :: bs[k] >= 0x80
    ensures ReadVarint(bs, w) == Failure(VarintTooLong(w))
  {
    ReadGroupsTooLong(bs, MaxVarintBytes(w), VarintTooLong(w));
  }

  /** `getNumUIntBytes`, as the source computes it: one byte, then one more
      for each further 7-bit shift that leaves a non-zero value. */
  method GetNumUIntBytes(i: int32) returns (n: nat)
    ensures n == |WriteVarint(i, W32)|
    ensures 1 <= n <= 5
  {
    var v: nat := ToUnsigned(i, W32);
    ghost var u := v;
    v := v / 0x80;
    n := 1;
    while v != 0
      invariant NumGroups(u) == n + (if v == 0 then 0 else NumGroups(v))
      decreases v
    {
      v := v / 0x80;
      n := n + 1;
    }
  }

  function WriteUInt(i: int32): seq<byte> {
    WriteVarint(i, W32)
  }

  function WriteULong(i: int64): seq<byte> {
    WriteVarint(i, W64)
  }

  function ReadUInt(bs: seq<byte>): (r: Outcome<Parsed<int32>>)
    ensures r.Success? ==> |r.value.rest| < |bs|
  {
    var p :- ReadVarint(bs, W32);
    Success(Parsed(p.value as int32, p.rest))
  }

  function ReadULong(bs: seq<byte>): (r: Outcome<Parsed<int64>>) {
    var p :- ReadVarint(bs, W64);
    Success(Parsed(p.value as int64, p.rest))
  }

  // ---------------------------------------------------------------------
  // ZigZag

  /** `encodeZigZag32` / `encodeZigZag64`: `(i << 1) ^ (i >> (bits - 1))`.
      The arithmetic shift is all ones for a negative `i` and zero
      otherwise, and `x ^ -1` is `~x`, that is `-x - 1`. */
  function EncodeZigZag(i: int, w: Word): (r: int)
    requires w.Holds(i)
    ensures w.Holds(r)
    ensures ToUnsigned(r, w) == if i >= 0 then 2 * i else -2 * i - 1
  {
    ZigZagBits(i, w);
    var shifted := ToSigned(2 * i, w);
    if i < 0 then -shifted - 1 else shifted
  }

  lemma ZigZagBits(i: int, w: Word)
    requires w.Holds(i)
    ensures var shifted := ToSigned(2 * i, w);
      var r := if i < 0 then -shifted - 1 else shifted;
      w.Holds(r) && ToUnsigned(r, w) == if i >= 0 then 2 * i else -2 * i - 1
  {
    var m, h := w.Modulus(), w.Half();
    assert m == 2 * h;
    if i >= 0 {
      DivModUnique(2 * i, m, 0, 2 * i);
    } else {
      DivModUnique(2 * i, m, -1, 2 * i + m);
    }
  }

  /** `decodeZigZag32` / `decodeZigZag64`: `(i >>> 1) ^ -(i & 1)`. */
  function DecodeZigZag(u: int, w: Word): (r: int)
    requires w.Holds(u)
    ensures w.Holds(r)
  {
    var bits := ToUnsigned(u, w);
    if bits % 2 == 1 then -(bits / 2) - 1 else bits / 2
  }

  /** ZigZag is a bijection on the word: decoding undoes encoding and
      encoding undoes decoding. */
  lemma ZigZagRoundTrip(i: int, w: Word)
    requires w.Holds(i)
    ensures DecodeZigZag(EncodeZigZag(i, w), w) == i
    ensures EncodeZigZag(DecodeZigZag(i, w), w) == i
  {
    var d := DecodeZigZag(i, w);
    var bits := ToUnsigned(i, w);
    assert ToUnsigned(EncodeZigZag(d, w), w) == bits;
    SignedUnsigned(i, w);
    SignedUnsigned(EncodeZigZag(d, w), w);
  }

  function WriteSInt(i: int32): seq<byte> {
    WriteVarint(EncodeZigZag(i, W32), W32)
  }

  function ReadSInt(bs: seq<byte>): (r: Outcome<Parsed<int32>>) {
    var p :- ReadVarint(bs, W32);
    Success(Parsed(DecodeZigZag(p.value, W32) as int32, p.rest))
  }

  function WriteSLong(i: int64): seq<byte> {
    WriteVarint(EncodeZigZag(i, W64), W64)
  }

  function ReadSLong(bs: seq<byte>): (r: Outcome<Parsed<int64>>) {
    var p :- ReadVarint(bs, W64);
    Success(Parsed(DecodeZigZag(p.value, W64) as int64, p.rest))
  }

  lemma UIntRoundTrip(i: int32, rest: seq<byte>)
    ensures 1 <= |WriteUInt(i)| <= 5
    ensures ReadUInt(WriteUInt(i) + rest) == Success(Parsed(i, rest))
  {
    VarintRoundTrip(i, W32, rest);
  }

  lemma ULongRoundTrip(i: int64, rest: seq<byte>)
    ensures 1 <= |WriteULong(i)| <= 10
    ensures ReadULong(WriteULong(i) + rest) == Success(Parsed(i, rest))
  {
    VarintRoundTrip(i, W64, rest);
  }

  lemma SIntRoundTrip(i: int32, rest: seq<byte>)
    ensures ReadSInt(WriteSInt(i) + rest) == Success(Parsed(i, rest))
  {
    VarintRoundTrip(EncodeZigZag(i, W32), W32, rest);
    ZigZagRoundTrip(i, W32);
  }

  lemma SLongRoundTrip(i: int64, rest: seq<byte>)
    ensures ReadSLong(WriteSLong(i) + rest) == Success(Parsed(i, rest))
  {
    VarintRoundTrip(EncodeZigZag(i, W64), W64, rest);
    ZigZagRoundTrip(i, W64);
  }

  // ---------------------------------------------------------------------
  // Unbounded (BigInteger) varints

  /** The number of groups `writeUIntVLQ` emits: its loop flushes a group
      whenever 7 bits are pending and then always writes the remaining
      0 to 6 bits, so a bit length that is a positive multiple of 7 costs a
      trailing zero byte. */
  function NumVLQGroups(n: nat): (g: nat)
    ensures g >= NumGroups(n)
  {
    var b := BitLength(n);
    Pow2Monotone(b, 7 * (b / 7 + 1));
    NumGroupsUpper(n, b / 7 + 1);
    b / 7 + 1
  }

  /** `writeUIntVLQ` on a non-negative BigInteger. */
  function WriteUIntVLQ(n: nat): (r: seq<byte>)
    ensures |r| == BitLength(n) / 7 + 1
  {
    Groups(n, NumVLQGroups(n))
  }

  /** `readUIntVLQ`: the same group loop without a length limit (the
      bound below is never reached, since every iteration consumes a
      byte). The result is never negative: the most significant byte it
      assembles holds at most 7 bits. */
  function ReadUIntVLQ(bs: seq<byte>): (r: Outcome<Parsed<nat>>)
    ensures r.Failure? ==> r.error == BufferUnderflow
  {
    ReadGroupsNoLimit(bs, |bs| + 1);
    ReadGroups(bs, |bs| + 1, IllegalState("unreachable"))
  }

  lemma {:induction false} ReadGroupsNoLimit(bs: seq<byte>, limit: nat)
    requires limit > |bs|
    ensures ReadGroups(bs, limit, IllegalState("unreachable")).Failure? ==>
      ReadGroups(bs, limit, IllegalState("unreachable")).error == BufferUnderflow
  {
    if |bs| > 0 && bs[0] >= 0x80 {
      ReadGroupsNoLimit(bs[1..], limit - 1);
    }
  }

  /** The BigInteger ZigZag of `encodeZigZag`: `-2n + 1` for negative `n`
      (not the `-2n - 1` of the fixed-width scheme), `2n` otherwise. */
  function EncodeZigZagBig(n: int): (r: nat)
    ensures (r % 2 == 1) <==> n < 0
  {
    if n < 0 then -2 * n + 1 else 2 * n
  }

  /** `decodeZigZag`: halve, and negate when the low bit is set. */
  function DecodeZigZagBig(u: nat): int {
    if u % 2 == 1 then -(u / 2) else u / 2
  }

  lemma ZigZagBigRoundTrip(n: int)
    ensures DecodeZigZagBig(EncodeZigZagBig(n)) == n
  {
  }

  function WriteSIntVLQ(n: int): seq<byte> {
    WriteUIntVLQ(EncodeZigZagBig(n))
  }

  function ReadSIntVLQ(bs: seq<byte>): (r: Outcome<Parsed<int>>) {
    var p :- ReadUIntVLQ(bs);
    Success(Parsed(DecodeZigZagBig(p.value), p.rest))
  }

  /** Any integer, however large, reads back from its ZigZag VLQ. */
  lemma SIntVLQRoundTrip(n: int, rest: seq<byte>)
    ensures ReadSIntVLQ(WriteSIntVLQ(n) + rest) == Success(Parsed(n, rest))
  {
    var u := EncodeZigZagBig(n);
    ReadGroupsOfGroups(u, NumVLQGroups(u), |WriteUIntVLQ(u) + rest| + 1, IllegalState("unreachable"), rest);
    ZigZagBigRoundTrip(n);
  }

  // ---------------------------------------------------------------------
  // Bit widths and bit-packed integers

  /** `getBitWidth`: `bits - numberOfLeadingZeros(i)`. */
  function GetBitWidth(i: int, w: Word): (r: nat)
    requires w.Holds(i)
    ensures r <= w.Bits()
    ensures i < 0 ==> r == w.Bits()
    ensures i >= 0 ==> i < Pow2(r) && (r == 0 || Pow2(r - 1) <= i)
  {
    if i < 0 then w.Bits()
    else
      Pow2Words();
      BitLengthLeast(i, w.Bits());
      BitLength(i)
  }

  /** A value "fits" a width when packing it at that width loses nothing:
      it is a non-negative value below `2^width`, or any value of the word
      when the width is the whole word. */
  predicate Fits(i: int, width: nat, w: Word) {
    (0 <= i < Pow2(width)) || (width == w.Bits() && w.Holds(i))
  }

  /** Every value fits the width `getBitWidth` reports for it. */
  lemma FitsBitWidth(i: int, w: Word)
    requires w.Holds(i)
    ensures Fits(i, GetBitWidth(i, w), w)
  {
  }

  /** A fitting value survives the trip through its low `width` bits. */
  lemma FitsLowBits(i: int, width: nat, w: Word)
    requires width <= w.Bits() && w.Holds(i) && Fits(i, width, w)
    ensures ToSigned(i % Pow2(width), w) == i
  {
    Pow2Words();
    if width == w.Bits() {
      assert Pow2(width) == w.Modulus();
      SignedUnsigned(i, w);
    } else {
      SmallLowBits(i, width, w);
    }
  }

  /** A value below `2^width`, for a width short of the word, is its own
      low bits and reads back as itself. */
  lemma SmallLowBits(i: int, width: nat, w: Word)
    requires width < w.Bits() && 0 <= i < Pow2(width)
    ensures ToSigned(i % Pow2(width), w) == i
  {
    DivModUnique(i, Pow2(width), 0, i);
    Pow2Monotone(width, w.Bits() - 1);
    Pow2Words();
    assert Pow2(w.Bits() - 1) == w.Half();
    DivModUnique(i, w.Modulus(), 0, i);
  }

  /** `writePackedInt`: the low `width` bits of `i` in `ceil(width/8)`
      little-endian bytes. */
  function WritePackedInt(i: int32, width: nat): (r: seq<byte>)
    requires width <= 32
    ensures |r| == BytesFor(width)
  {
    LittleEndian(i % Pow2(width), BytesFor(width))
  }

  /** `readPackedInt`: `ceil(width/8)` bytes, masked to `width` bits. */
  function ReadPackedInt(bs: seq<byte>, width: nat): (r: Outcome<Parsed<int32>>)
    requires width <= 32
    ensures r.Failure? <==> |bs| < BytesFor(width)
    ensures r.Success? ==> r.value.rest == bs[BytesFor(width)..]
  {
    var n := BytesFor(width);
    if |bs| < n then Failure(BufferUnderflow)
    else Success(Parsed(ToSigned(FromLittleEndian(bs[..n]) % Pow2(width), W32) as int32, bs[n..]))
  }

  lemma PackedIntRoundTrip(i: int32, width: nat, rest: seq<byte>)
    requires width <= 32
    ensures ReadPackedInt(WritePackedInt(i, width) + rest, width)
         == Success(Parsed(ToSigned(i % Pow2(width), W32) as int32, rest))
    ensures Fits(i, width, W32) ==>
      ReadPackedInt(WritePackedInt(i, width) + rest, width) == Success(Parsed(i, rest))
  {
    var n := BytesFor(width);
    var bs := WritePackedInt(i, width) + rest;
    assert bs[..n] == WritePackedInt(i, width);
    assert bs[n..] == rest;
    var v := i % Pow2(width);
    LittleEndianRoundTrip(v, n);
    Pow2Monotone(width, 8 * n);
    DivModUnique(v, Pow2(8 * n), 0, v);
    DivModUnique(v, Pow2(width), 0, v);
    if Fits(i, width, W32) {
      FitsLowBits(i, width, W32);
    }
  }

  /** Each unsigned field read back as the Java word (a cast to `int` or
      `long` when the width is the whole word). */
  function AsWords(us: seq<int>, w: Word): (r: seq<int>)
    ensures |r| == |us|
    ensures forall k | 0 <= k < |us| :: r[k] == ToSigned(us[k], w) && w.Holds(r[k])
  {
    seq(|us|, k requires 0 <= k < |us| => ToSigned(us[k], w))
  }

  /** `writePackedInts32` / `writePackedInts64` (all four accumulator
      loops): the values as consecutive `width`-bit fields, low bit first,
      zero-padded to a whole byte. Width 0 writes nothing. */
  function WritePackedInts(vs: seq<int>, width: nat, w: Word): (r: seq<byte>)
    requires width <= w.Bits()
    ensures |r| == BytesFor(|vs| * width)
    ensures width == 0 ==> r == []
  {
    Pack(vs, width)
  }

  /** `readPackedInts32` / `readPackedInts64`: reads `ceil(n·width/8)` bytes
      and yields `n` values; width 0 reads nothing and yields zeros. */
  function ReadPackedInts(bs: seq<byte>, width: nat, n: nat, w: Word): (r: Outcome<Parsed<seq<int>>>)
    requires width <= w.Bits()
    ensures r.Failure? <==> |bs| < BytesFor(n * width)
    ensures r.Success? ==> |r.value.value| == n && r.value.rest == bs[BytesFor(n * width)..]
    ensures r.Success? && width == 0 ==> forall k | 0 <= k < n :: r.value.value[k] == 0
    ensures r.Success? ==> forall k | 0 <= k < n :: w.Holds(r.value.value[k])
  {
    var len := BytesFor(n * width);
    if |bs| < len then Failure(BufferUnderflow)
    else Success(Parsed(AsWords(Unpack(bs, width, n), w), bs[len..]))
  }

  /** Reading packed values gives back each value's low `width` bits as the
      Java word. */
  lemma PackedIntsRoundTrip(vs: seq<int>, width: nat, w: Word, rest: seq<byte>)
    requires width <= w.Bits()
    ensures ReadPackedInts(WritePackedInts(vs, width, w) + rest, width, |vs|, w)
         == Success(Parsed(AsWords(LowBits(vs, width), w), rest))
  {
    var bs := WritePackedInts(vs, width, w) + rest;
    UnpackPack(vs, width, rest);
    assert bs[BytesFor(|vs| * width)..] == rest;
  }

  /** Java words that fit the width come back unchanged. */
  lemma PackedIntsRoundTripFitting(vs: seq<int>, width: nat, w: Word, rest: seq<byte>)
    requires width <= w.Bits()
    requires forall k | 0 <= k < |vs| :: w.Holds(vs[k]) && Fits(vs[k], width, w)
    ensures ReadPackedInts(WritePackedInts(vs, width, w) + rest, width, |vs|, w) == Success(Parsed(vs, rest))
  {
    PackedIntsRoundTrip(vs, width, w, rest);
    var r := AsWords(LowBits(vs, width), w);
    forall k | 0 <= k < |vs|
      ensures r[k] == vs[k]
    {
      FitsLowBits(vs[k], width, w);
    }
    assert r == vs;
  }

  // ---------------------------------------------------------------------
  // Packed booleans

  /** `writePackedBooleans`: `b = (b << 1) | bit` over the octuplet, so
      the first boolean lands in the most significant bit. */
  function WritePackedBooleans(octuplet: seq<bool>): (b: nat)
    requires |octuplet| <= 8
    ensures b == FromBits(Reverse(octuplet))
  {
    if |octuplet| == 0 then 0
    else
      var last := |octuplet| - 1;
      assert Reverse(octuplet)[1..] == Reverse(octuplet[..last]);
      2 * WritePackedBooleans(octuplet[..last]) + (if octuplet[last] then 1 else 0)
  }

  /** The sequence back to front. */
  function Reverse<T>(s: seq<T>): (r: seq<T>)
    ensures |r| == |s|
    ensures forall k | 0 <= k < |s| :: r[k] == s[|s| - 1 - k]
  {
    seq(|s|, k requires 0 <= k < |s| => s[|s| - 1 - k])
  }

  /** `readPackedBooleans`: the bits of `b`, most significant first. */
  function ReadPackedBooleans(b: byte): (r: seq<bool>)
    ensures |r| == 8
  {
    Reverse(ToBits(b, 8))
  }

  /** Boolean `k` of a read octuplet is the bit of weight `2^(7-k)`. */
  lemma PackedBooleanBits(b: byte)
    ensures forall k | 0 <= k < 8 :: ReadPackedBooleans(b)[k] <==> (b / Pow2(7 - k)) % 2 == 1
  {
    var bits := ToBits(b, 8);
    var r := ReadPackedBooleans(b);
    assert r == Reverse(bits);
    forall k | 0 <= k < 8
      ensures r[k] <==> (b / Pow2(7 - k)) % 2 == 1
    {
      assert |bits| == 8 && r[k] == bits[|bits| - 1 - k];
      BitOf(b, 8, 7 - k);
    }
  }

  lemma ReverseReverse<T>(s: seq<T>)
    ensures Reverse(Reverse(s)) == s
  {
    var r := Reverse(Reverse(s));
    forall k | 0 <= k < |s|
      ensures r[k] == s[k]
    {
      assert r[k] == Reverse(s)[|s| - 1 - k];
    }
  }

  /** Bit `k` of the stream of `v` is bit `k` of `v`. */
  lemma {:induction false} BitOf(v: nat, n: nat, k: nat)
    requires k < n
    ensures ToBits(v, n)[k] <==> (v / Pow2(k)) % 2 == 1
  {
    if k > 0 {
      BitOf(v / 2, n - 1, k - 1);
      DivModSplit(v, 2, Pow2(k - 1));
    }
  }

  lemma PackedBooleansRoundTrip(octuplet: seq<bool>)
    requires |octuplet| == 8
    ensures WritePackedBooleans(octuplet) < 0x100
    ensures ReadPackedBooleans(WritePackedBooleans(octuplet) as byte) == octuplet
  {
    Pow2Words();
    var b := WritePackedBooleans(octuplet);
    ToFromBits(Reverse(octuplet));
    assert ToBits(b, 8) == Reverse(octuplet);
    ReverseReverse(octuplet);
  }

  // ---------------------------------------------------------------------
  // Length-prefixed byte arrays

  /** `writeByteArray` / `writeByteBuffer`: `null` is the SInt -1; otherwise
      the SInt length followed by the bytes. */
  function WriteByteArray(b: Option<seq<byte>>): (r: seq<byte>)
    requires b.Some? ==> |b.value| < TWO_31
  {
    match b
    case None => WriteSInt(-1)
    case Some(bs) => WriteSInt(|bs|) + bs
  }

  /** `readByteArray` / `readByteBuffer`: a negative length stands for
      `null`; otherwise that many bytes follow. */
  function ReadByteArray(bs: seq<byte>): (r: Outcome<Parsed<Option<seq<byte>>>>)
    ensures r.Success? ==> |r.value.rest| < |bs|
  {
    var len :- ReadSInt(bs);
    if len.value < 0 then Success(Parsed(None, len.rest))
    else if |len.rest| < len.value then Failure(BufferUnderflow)
    else Success(Parsed(Some(len.rest[..len.value]), len.rest[len.value..]))
  }

  lemma ByteArrayRoundTrip(b: Option<seq<byte>>, rest: seq<byte>)
    requires b.Some? ==> |b.value| < TWO_31
    ensures ReadByteArray(WriteByteArray(b) + rest) == Success(Parsed(b, rest))
  {
    match b
    case None =>
      SIntRoundTrip(-1, rest);
    case Some(bs) =>
      SIntRoundTrip(|bs|, bs + rest);
      assert WriteByteArray(b) + rest == WriteSInt(|bs|) + (bs + rest);
      assert (bs + rest)[..|bs|] == bs;
      assert (bs + rest)[|bs|..] == rest;
  }

  /** `sliceAhead`: the buffer from `numBytes` on; `position` throws when
      that is negative or past the end. */
  function SliceAhead(bs: seq<byte>, numBytes: int): (r: Outcome<seq<byte>>)
    ensures r.Success? <==> 0 <= numBytes <= |bs|
    ensures r.Success? ==> bs == bs[..numBytes] + r.value
  {
    if 0 <= numBytes <= |bs| then Success(bs[numBytes..]) else Failure(IllegalArgument("newPosition"))
  }
}
