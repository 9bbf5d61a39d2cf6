/** Least-significant-bit-first bit streams: the layout shared by every
    bit-packing routine of the byte layer. Bit `k` of a stream is bit `k % 8`
    of byte `k / 8`, and a value of width `w` occupies `w` consecutive bits,
    low bit first. */
module BitStreams {
  import opened Words

  /** The low `n` bits of `v`, least significant first. For a negative `v`
      these are the low bits of its two's complement form, so this is also
      Java's `v & ~(-1 << n)`. */
  function ToBits(v: int, n: nat): (r: seq<bool>)
    ensures |r| == n
    decreases n
  {
    if n == 0 then [] else [v % 2 == 1] + ToBits(v / 2, n - 1)
  }

  /** The unsigned value of a stream of bits, least significant first. */
  function FromBits(bits: seq<bool>): (v: nat)
    ensures v < Pow2(|bits|)
  {
    if |bits| == 0 then 0
    else (if bits[0] then 1 else 0) + 2 * FromBits(bits[1..])
  }

  lemma {:induction false} FromToBits(v: int, n: nat)
    ensures FromBits(ToBits(v, n)) == v % Pow2(n)
    decreases n
  {
    if n > 0 {
      var bits := ToBits(v, n);
      assert bits[1..] == ToBits(v / 2, n - 1);
      FromToBits(v / 2, n - 1);
      DivModSplit(v, 2, Pow2(n - 1));
    }
  }

  lemma {:induction false} ToFromBits(bits: seq<bool>)
    ensures ToBits(FromBits(bits), |bits|) == bits
  {
    if |bits| > 0 {
      ToFromBits(bits[1..]);
    }
  }

  /** Only the low `n` bits of `v` reach the stream. */
  lemma {:induction false} ToBitsMod(v: int, n: nat)
    ensures ToBits(v % Pow2(n), n) == ToBits(v, n)
  {
    FromToBits(v, n);
    ToFromBits(ToBits(v, n));
    assert ToBits(v % Pow2(n), n) == ToBits(FromBits(ToBits(v, n)), n);
  }

  /** The bytes of a stream whose length is a multiple of 8. */
  function ToBytes(bits: seq<bool>): (r: seq<byte>)
    requires |bits| % 8 == 0
    ensures 8 * |r| == |bits|
  {
    if |bits| == 0 then []
    else
      Pow2Words();
      [FromBits(bits[..8])] + ToBytes(bits[8..])
  }

  /** The bit stream of a byte sequence. */
  function FromBytes(bs: seq<byte>): (r: seq<bool>)
    ensures |r| == 8 * |bs|
  {
    if |bs| == 0 then [] else ToBits(bs[0], 8) + FromBytes(bs[1..])
  }

  lemma {:induction false} FromToBytes(bits: seq<bool>)
    requires |bits| % 8 == 0
    ensures FromBytes(ToBytes(bits)) == bits
  {
    if |bits| > 0 {
      ToFromBits(bits[..8]);
      FromToBytes(bits[8..]);
      assert bits == bits[..8] + bits[8..];
    }
  }

  lemma {:induction false} ToFromBytes(bs: seq<byte>)
    ensures ToBytes(FromBytes(bs)) == bs
  {
    if |bs| > 0 {
      var head, tail := ToBits(bs[0], 8), FromBytes(bs[1..]);
      assert FromBytes(bs) == head + tail;
      assert (head + tail)[..8] == head && (head + tail)[8..] == tail;
      ByteBits(bs[0]);
      ToFromBytes(bs[1..]);
      assert ToBytes(head + tail) == [bs[0]] + bs[1..];
    }
  }

  /** A byte's eight bits read back as the byte. */
  lemma ByteBits(b: byte)
    ensures FromBits(ToBits(b, 8)) == b
  {
    FromToBits(b, 8);
    Pow2Words();
    DivModUnique(b, 0x100, 0, b);
  }

  lemma {:induction false} FromBytesAppend(a: seq<byte>, b: seq<byte>)
    ensures FromBytes(a + b) == FromBytes(a) + FromBytes(b)
  {
    if |a| > 0 {
      assert (a + b)[0] == a[0];
      assert (a + b)[1..] == a[1..] + b;
      FromBytesAppend(a[1..], b);
    } else {
      assert a + b == b;
    }
  }

  /** The number of bytes that hold `n` bits: `ceil(n / 8)`. */
  function BytesFor(n: nat): (r: nat)
    ensures 8 * r >= n && 8 * r < n + 8
  {
    (n + 7) / 8
  }

  /** The stream padded with zero bits up to the next byte boundary. */
  function PadToByte(bits: seq<bool>): (r: seq<bool>)
    ensures |r| == 8 * BytesFor(|bits|)
    ensures r[..|bits|] == bits
    ensures forall k | |bits| <= k < |r| :: !r[k]
  {
    bits + seq(8 * BytesFor(|bits|) - |bits|, _ => false)
  }

  /** The `w`-bit fields of `vs`, one after the other. */
  function Fields(vs: seq<int>, w: nat): (r: seq<bool>)
    ensures |r| == |vs| * w
  {
    if |vs| == 0 then [] else ToBits(vs[0], w) + Fields(vs[1..], w)
  }

  /** `n` unsigned `w`-bit fields read from the front of a stream. */
  function SplitFields(bits: seq<bool>, w: nat, n: nat): (r: seq<nat>)
    requires n * w <= |bits|
    ensures |r| == n
    ensures forall k | 0 <= k < n :: r[k] < Pow2(w)
  {
    if n == 0 then []
    else [FromBits(bits[..w])] + SplitFields(bits[w..], w, n - 1)
  }

  /** Each value reduced to its low `w` bits. */
  function LowBits(vs: seq<int>, w: nat): (r: seq<nat>)
    ensures |r| == |vs|
    ensures forall k | 0 <= k < |vs| :: r[k] == vs[k] % Pow2(w)
  {
    if |vs| == 0 then [] else [vs[0] % Pow2(w)] + LowBits(vs[1..], w)
  }

  lemma {:induction false} SplitFieldsOfFields(vs: seq<int>, w: nat, tail: seq<bool>)
    ensures |vs| * w <= |Fields(vs, w) + tail|
    ensures SplitFields(Fields(vs, w) + tail, w, |vs|) == LowBits(vs, w)
  {
    if |vs| > 0 {
      var bits := Fields(vs, w) + tail;
      assert bits[..w] == ToBits(vs[0], w);
      assert bits[w..] == Fields(vs[1..], w) + tail;
      FromToBits(vs[0], w);
      SplitFieldsOfFields(vs[1..], w, tail);
    }
  }

  /** `Pack(vs, w)`: the values as consecutive `w`-bit fields, zero-padded to
      whole bytes. */
  function Pack(vs: seq<int>, w: nat): (r: seq<byte>)
    ensures |r| == BytesFor(|vs| * w)
  {
    ToBytes(PadToByte(Fields(vs, w)))
  }

  /** `n` unsigned `w`-bit fields from the first `ceil(n·w/8)` bytes. */
  function Unpack(bs: seq<byte>, w: nat, n: nat): (r: seq<nat>)
    requires BytesFor(n * w) <= |bs|
    ensures |r| == n
  {
    SplitFields(FromBytes(bs[..BytesFor(n * w)]), w, n)
  }

  /** Unpacking what was packed gives back each value's low `w` bits, whatever
      follows the packed bytes. */
  lemma UnpackPack(vs: seq<int>, w: nat, rest: seq<byte>)
    ensures BytesFor(|vs| * w) <= |Pack(vs, w) + rest|
    ensures Unpack(Pack(vs, w) + rest, w, |vs|) == LowBits(vs, w)
  {
    var fields := Fields(vs, w);
    var padded := PadToByte(fields);
    var packed := Pack(vs, w);
    assert (packed + rest)[..BytesFor(|vs| * w)] == packed;
    FromToBytes(padded);
    assert padded == fields + padded[|fields|..];
    SplitFieldsOfFields(vs, w, padded[|fields|..]);
  }

  /** A stream whose fields all fit in `w` bits is read back unchanged. */
  lemma {:induction false} LowBitsOfFitting(vs: seq<int>, w: nat)
    requires forall k | 0 <= k < |vs| :: 0 <= vs[k] < Pow2(w)
    ensures LowBits(vs, w) == vs
  {
    var r := LowBits(vs, w);
    forall k | 0 <= k < |vs|
      ensures r[k] == vs[k]
    {
      DivModUnique(vs[k], Pow2(w), 0, vs[k]);
    }
  }
}
