/** Machine words as the Java code sees them: bytes, 32- and 64-bit two's
    complement integers, powers of two, bit lengths and little-endian layout.
    Dafny integers are unbounded, so every wrap-around of a Java `int` or
    `long` is written out here with `ToUnsigned` and `ToSigned`. */
module Words {

  const TWO_8: nat := 0x100
  const TWO_31: nat := 0x8000_0000
  const TWO_32: nat := 0x1_0000_0000
  const TWO_63: nat := 0x8000_0000_0000_0000
  const TWO_64: nat := 0x1_0000_0000_0000_0000

  type byte = b: int | 0 <= b < 0x100

  /** A Java `int`. */
  type int32 = i: int | -0x8000_0000 <= i < 0x8000_0000

  /** A Java `long`. */
  type int64 = i: int | -0x8000_0000_0000_0000 <= i < 0x8000_0000_0000_0000

  /** The two Java integer widths. */
  datatype Word = W32 | W64 {

    function Bits(): nat {
      if W32? then 32 else 64
    }

    function Modulus(): int {
      if W32? then TWO_32 else TWO_64
    }

    function Half(): int {
      if W32? then TWO_31 else TWO_63
    }

    /** Whether `i` is a value of this Java type. */
    predicate Holds(i: int) {
      -Half() <= i < Half()
    }
  }

  /** The unsigned reading of the bits of `i` (what `>>>`, `& 0xffffffffL`
      and unsigned varints see). */
  function ToUnsigned(i: int, w: Word): (u: nat)
    ensures u < w.Modulus()
    ensures 0 <= i < w.Modulus() ==> u == i
    ensures -w.Modulus() <= i < 0 ==> u == i + w.Modulus()
  {
    i % w.Modulus()
  }

  /** The Java value whose bits are the low bits of `u` (a narrowing cast). */
  function ToSigned(u: int, w: Word): (i: int)
    ensures w.Holds(i)
    ensures (i - u) % w.Modulus() == 0
  {
    var m := u % w.Modulus();
    if m >= w.Half() then m - w.Modulus() else m
  }

  lemma SignedUnsigned(i: int, w: Word)
    requires w.Holds(i)
    ensures ToSigned(ToUnsigned(i, w), w) == i
  {
  }

  /** A value of the type is its own narrowing. */
  lemma SignedIdentity(i: int, w: Word)
    ensures w.Holds(i) ==> ToSigned(i, w) == i
  {
    if -w.Half() <= i < 0 {
      DivModUnique(i, w.Modulus(), -1, i + w.Modulus());
    } else if 0 <= i < w.Half() {
      DivModUnique(i, w.Modulus(), 0, i);
    }
  }

  lemma UnsignedSigned(u: int, w: Word)
    ensures ToUnsigned(ToSigned(u, w), w) == u % w.Modulus()
  {
  }

  function Pow2(n: nat): (r: nat)
    ensures r >= 1
  {
    if n == 0 then 1 else 2 * Pow2(n - 1)
  }

  lemma {:induction false} Pow2Add(a: nat, b: nat)
    ensures Pow2(a + b) == Pow2(a) * Pow2(b)
  {
    if a > 0 {
      Pow2Add(a - 1, b);
    }
  }

  lemma {:induction false} Pow2Monotone(a: nat, b: nat)
    requires a <= b
    ensures Pow2(a) <= Pow2(b)
  {
    if a < b {
      Pow2Monotone(a, b - 1);
    }
  }

  /** The powers of two that name the Java word sizes. */
  lemma Pow2Words()
    ensures Pow2(7) == 0x80
    ensures Pow2(8) == TWO_8
    ensures Pow2(31) == TWO_31
    ensures Pow2(32) == TWO_32
    ensures Pow2(63) == TWO_63
    ensures Pow2(64) == TWO_64
  {
    assert Pow2(2) == 4;
    assert Pow2(4) == 16 by { Pow2Add(2, 2); }
    assert Pow2(7) == 0x80 by { Pow2Add(4, 3); assert Pow2(3) == 8; }
    assert Pow2(8) == TWO_8 by { Pow2Add(4, 4); }
    assert Pow2(16) == 0x1_0000 by { Pow2Add(8, 8); }
    assert Pow2(32) == TWO_32 by { Pow2Add(16, 16); }
    assert Pow2(31) == TWO_31;
    assert Pow2(64) == TWO_64 by { Pow2Add(32, 32); }
    assert Pow2(63) == TWO_63;
  }

  /** The number of significant bits of `n`: 0 for 0, otherwise the position
      of the highest set bit plus one. */
  function BitLength(n: nat): (r: nat)
    ensures n < Pow2(r)
    ensures n > 0 ==> r > 0 && Pow2(r - 1) <= n
  {
    if n == 0 then 0 else 1 + BitLength(n / 2)
  }

  /** BitLength is the least width that holds `n`. */
  lemma {:induction false} BitLengthLeast(n: nat, w: nat)
    requires n < Pow2(w)
    ensures BitLength(n) <= w
  {
    if n > 0 {
      assert w > 0;
      BitLengthLeast(n / 2, w - 1);
    }
  }

  /** `n` little-endian bytes of `v`, each the low byte of `v >>> 8k`. */
  function LittleEndian(v: nat, n: nat): (r: seq<byte>)
    ensures |r| == n
  {
    if n == 0 then [] else [v % 0x100] + LittleEndian(v / 0x100, n - 1)
  }

  /** The value of little-endian bytes: `b0 | b1 << 8 | b2 << 16 | ...`. */
  function FromLittleEndian(bs: seq<byte>): (v: nat)
    ensures v < Pow2(8 * |bs|)
  {
    if |bs| == 0 then 0
    else
      var rest := FromLittleEndian(bs[1..]);
      Pow2Add(8, 8 * (|bs| - 1));
      Pow2Words();
      bs[0] + 0x100 * rest
  }

  lemma {:induction false} LittleEndianRoundTrip(v: nat, n: nat)
    ensures FromLittleEndian(LittleEndian(v, n)) == v % Pow2(8 * n)
  {
    if n > 0 {
      var bs := LittleEndian(v, n);
      assert bs[1..] == LittleEndian(v / 0x100, n - 1);
      LittleEndianRoundTrip(v / 0x100, n - 1);
      Pow2Add(8, 8 * (n - 1));
      Pow2Words();
      DivModSplit(v, 0x100, Pow2(8 * (n - 1)));
    }
  }

  lemma {:induction false} FromLittleEndianRoundTrip(bs: seq<byte>)
    ensures LittleEndian(FromLittleEndian(bs), |bs|) == bs
  {
    if |bs| > 0 {
      FromLittleEndianRoundTrip(bs[1..]);
    }
  }

  /** `v mod (a·b)` split into the low digit and the high digits. */
  lemma DivModSplit(v: int, a: nat, b: nat)
    requires a > 0 && b > 0
    ensures v % (a * b) == v % a + a * ((v / a) % b)
    ensures v / (a * b) == (v / a) / b
  {
    var q := v / a;
    var r := v % a;
    assert v == a * q + r;
    var q2 := q / b;
    var r2 := q % b;
    assert q == b * q2 + r2;
    assert v == (a * b) * q2 + (a * r2 + r) by {
      assert a * q == a * (b * q2) + a * r2;
      assert a * (b * q2) == (a * b) * q2;
    }
    assert 0 <= a * r2 + r < a * b by {
      assert r2 <= b - 1;
      assert a * r2 <= a * (b - 1);
    }
    DivModUnique(v, a * b, q2, a * r2 + r);
  }

  lemma DivModUnique(v: int, m: nat, q: int, r: int)
    requires m > 0 && 0 <= r < m && v == m * q + r
    ensures v % m == r && v / m == q
  {
    var q', r' := v / m, v % m;
    assert m * (q - q') == r' - r;
    if q > q' {
      MulAtLeast(m, q - q');
    } else if q < q' {
      MulAtLeast(m, q' - q);
    }
  }

  lemma MulAtLeast(m: nat, k: int)
    requires k >= 1
    ensures m * k >= m
  {
  }

  function Abs(i: int): nat {
    if i < 0 then -i else i
  }

  /** Java's integer quotient, exact: it truncates toward zero, so the
      remainder `a - q * b` has the sign of `a` and is smaller than `b` in
      magnitude. The `int` or `long` result is `ToSigned` of it, which
      differs only for `MIN_VALUE / -1`. */
  function Quot(a: int, b: int): (q: int)
    requires b != 0
    ensures a - q * b == 0 || (a - q * b < 0 <==> a < 0)
    ensures Abs(a - q * b) < Abs(b)
    ensures Abs(q) == Abs(a) / Abs(b)
    ensures b > 0 ==> (a >= 0 ==> q >= 0) && (a <= 0 ==> q <= 0)
  {
    var q0 := Abs(a) / Abs(b);
    QuotMagnitude(a, b, q0);
    if (a < 0) == (b < 0) then q0 else -q0
  }

  lemma QuotMagnitude(a: int, b: int, q0: int)
    requires b != 0 && q0 == Abs(a) / Abs(b)
    ensures q0 >= 0
    ensures var q := if (a < 0) == (b < 0) then q0 else -q0;
      a - q * b == if a < 0 then -(Abs(a) % Abs(b)) else Abs(a) % Abs(b)
  {
    var n: int, d: int := Abs(a), Abs(b);
    assert n == q0 * d + n % d;
    var q := if (a < 0) == (b < 0) then q0 else -q0;
    var s := if b < 0 then -1 else 1;
    assert b == s * d;
    assert q * b == (if a < 0 then -(q0 * d) else q0 * d) by {
      assert q * b == q * s * d;
    }
  }
}
