/** What every value encoder and decoder shares (`AEncoder`, `ADecoder`):
    an encoder counts its values and appends their bytes to a body; its
    output is the count as a UInt followed by the body. A decoder reads the
    count first and then yields values one `decode` call at a time. */
module Encoding {
  import opened Wrappers
  import opened Words
  import opened Bytes

  /** The count prefix, `writeUInt(numValues)`. The Java counter is an `int`,
      so a count past `2^31 - 1` is written as its wrapped value. */
  function WriteCount(n: nat): (r: seq<byte>)
    ensures 1 <= |r| <= 5
  {
    UIntRoundTrip(ToSigned(n, W32) as int32, []);
    WriteUInt(ToSigned(n, W32) as int32)
  }

  lemma CountRoundTrip(n: nat, rest: seq<byte>)
    requires n < TWO_31
    ensures ReadUInt(WriteCount(n) + rest) == Success(Parsed(n, rest))
  {
    UIntRoundTrip(n, rest);
  }

  /** The part of an encoder's state every encoder has: `numValues` and the
      body written to its `mos`. */
  datatype Frame = Frame(numValues: nat, body: seq<byte>)

  /** The state of a fresh or `reset` encoder. */
  const EmptyFrame := Frame(0, [])

  /** `writeTo`: the count, then the body. The `ADecoder` constructor
      reads back the count, wrapped to an `int` as the Java counter
      wraps it, and is left at the body. */
  function WriteFrame(f: Frame): (r: seq<byte>)
    ensures ReadCount(r) == Success(Parsed(ToSigned(f.numValues, W32) as int32, f.body))
    ensures f.numValues < TWO_31 ==> ReadCount(r) == Success(Parsed(f.numValues, f.body))
  {
    UIntRoundTrip(ToSigned(f.numValues, W32) as int32, f.body);
    SignedIdentity(f.numValues, W32);
    WriteCount(f.numValues) + f.body
  }

  /** `getLength` (and `getEstimatedLength`): the size of what `writeTo`
      writes. */
  function FrameLength(f: Frame): (n: nat)
    ensures n == |WriteFrame(f)|
  {
    |WriteCount(f.numValues)| + |f.body|
  }

  /** `reset` leaves nothing but a zero count to write. */
  lemma ResetFrame()
    ensures WriteFrame(EmptyFrame) == [0]
    ensures FrameLength(EmptyFrame) == 1
  {
  }

  /** One more value whose bytes are `bytes`. */
  function Append(f: Frame, bytes: seq<byte>): (r: Frame)
    ensures r.numValues == f.numValues + 1 && r.body == f.body + bytes
  {
    Frame(f.numValues + 1, f.body + bytes)
  }

  /** Bytes written to the body without a new value. */
  function Extend(f: Frame, bytes: seq<byte>): (r: Frame)
    ensures r.numValues == f.numValues && r.body == f.body + bytes
  {
    f.(body := f.body + bytes)
  }

  /** The `ADecoder` constructor: the count, and the buffer after it. */
  function ReadCount(bs: seq<byte>): (r: Outcome<Parsed<int32>>)
    ensures r.Success? ==> |r.value.rest| < |bs|
  {
    ReadUInt(bs)
  }

  /** `n` successive `decode` calls of a decoder whose one step is `step`:
      the values in call order and the decoder after the last call, or the
      first exception. */
  function DecodeN<D, T>(step: D -> Outcome<(T, D)>, d: D, n: nat): (r: Outcome<(seq<T>, D)>)
    ensures r.Success? ==> |r.value.0| == n
    ensures n == 0 ==> r == Success(([], d))
  {
    if n == 0 then Success(([], d))
    else
      var first :- step(d);
      var more :- DecodeN(step, first.1, n - 1);
      Success(([first.0] + more.0, more.1))
  }

  /** Decoding `m + n` values is decoding `m`, then `n` more. */
  lemma {:induction false} DecodeNSplit<D, T>(step: D -> Outcome<(T, D)>, d: D, m: nat, n: nat)
    requires DecodeN(step, d, m).Success?
    ensures var first := DecodeN(step, d, m).value;
      DecodeN(step, d, m + n) ==
        match DecodeN(step, first.1, n)
        case Success(more) => Success((first.0 + more.0, more.1))
        case Failure(e) => Failure(e)
  {
    if m == 0 {
      match DecodeN(step, d, n)
      case Success(more) =>
        assert [] + more.0 == more.0;
      case Failure(_) =>
    } else {
      var one := step(d).value;
      DecodeNSplit(step, one.1, m - 1, n);
      var rest := DecodeN(step, one.1, m - 1).value;
      assert DecodeN(step, d, m).value == ([one.0] + rest.0, rest.1);
      match DecodeN(step, rest.1, n)
      case Success(more) =>
        assert DecodeN(step, one.1, m - 1 + n) == Success((rest.0 + more.0, more.1));
        assert [one.0] + (rest.0 + more.0) == ([one.0] + rest.0) + more.0;
      case Failure(e) =>
        assert DecodeN(step, one.1, m - 1 + n) == Failure(e);
    }
  }

  /** One more successful `decode` after `m` of them. */
  lemma DecodeNSnoc<D, T>(step: D -> Outcome<(T, D)>, d: D, m: nat, xs: seq<T>, d1: D, x: T, d2: D)
    requires DecodeN(step, d, m) == Success((xs, d1))
    requires step(d1) == Success((x, d2))
    ensures DecodeN(step, d, m + 1) == Success((xs + [x], d2))
  {
    DecodeNSplit(step, d, m, 1);
    assert DecodeN(step, d2, 0) == Success(([], d2));
    assert [x] + [] == [x];
    assert DecodeN(step, d1, 1) == Success(([x], d2));
  }

  /** The first `m` of `n` successful decodes are `m` successful decodes. */
  lemma {:induction false} DecodeNPrefix<D, T>(step: D -> Outcome<(T, D)>, d: D, m: nat, n: nat)
    requires m <= n && DecodeN(step, d, n).Success?
    ensures DecodeN(step, d, m).Success?
    ensures DecodeN(step, d, m).value.0 == DecodeN(step, d, n).value.0[..m]
  {
    if m > 0 {
      var first := step(d).value;
      DecodeNPrefix(step, first.1, m - 1, n - 1);
      var b := DecodeN(step, first.1, n - 1).value.0;
      assert ([first.0] + b)[..m] == [first.0] + b[..m - 1];
    }
  }

  /** Two decoders whose next step agrees agree on every number of steps. */
  lemma DecodeNSameStep<D, T>(step: D -> Outcome<(T, D)>, d: D, d1: D, n: nat)
    requires n > 0 && step(d) == step(d1)
    ensures DecodeN(step, d, n) == DecodeN(step, d1, n)
  {
  }

  /** Decoding `xs`, then `ys`, is decoding `xs + ys`. */
  lemma DecodeNThen<D, T>(step: D -> Outcome<(T, D)>, d: D, xs: seq<T>, d1: D, ys: seq<T>, d2: D)
    requires DecodeN(step, d, |xs|) == Success((xs, d1))
    requires DecodeN(step, d1, |ys|) == Success((ys, d2))
    ensures DecodeN(step, d, |xs + ys|) == Success((xs + ys, d2))
  {
    DecodeNSplit(step, d, |xs|, |ys|);
  }

  /** One successful `decode` in front of `n - 1` more. */
  lemma DecodeNCons<D, T>(step: D -> Outcome<(T, D)>, d: D, n: nat, x: T, d1: D, xs: seq<T>, d2: D)
    requires n > 0 && step(d) == Success((x, d1))
    requires DecodeN(step, d1, n - 1) == Success((xs, d2))
    ensures DecodeN(step, d, n) == Success(([x] + xs, d2))
  {
  }

  /** `n` successful decodes start with a successful one. */
  lemma DecodeNUncons<D, T>(step: D -> Outcome<(T, D)>, d: D, n: nat, xs: seq<T>, d2: D)
    requires n > 0 && DecodeN(step, d, n) == Success((xs, d2))
    ensures step(d).Success? && |xs| == n && step(d).value.0 == xs[0]
    ensures DecodeN(step, step(d).value.1, n - 1) == Success((xs[1..], d2))
  {
    var first := step(d).value;
    var more := DecodeN(step, first.1, n - 1).value;
    assert xs == [first.0] + more.0;
  }

  /** One successful `decode` in front of `n - 1` more, whatever they end
      in. */
  lemma DecodeNConsValues<D, T>(step: D -> Outcome<(T, D)>, d: D, n: nat, x: T, d1: D, xs: seq<T>)
    requires n > 0 && step(d) == Success((x, d1))
    requires DecodeN(step, d1, n - 1).Success? && DecodeN(step, d1, n - 1).value.0 == xs
    ensures DecodeN(step, d, n).Success? && DecodeN(step, d, n).value.0 == [x] + xs
  {
  }
}
