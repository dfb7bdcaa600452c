/**
 * Bit strings and the arithmetic facts the bit-level I/O relies on.
 * A bit string is a `seq<bool>` read most-significant bit first, which is
 * the order in which the compressor's BitWriter emits and its BitReader
 * consumes bits.
 */
module Bits {
  import opened Common

  /**
   * The width of a byte.  A named constant rather than the literal, so that
   * the solver does not unfold `ToBits(x, 8)` eagerly wherever it appears.
   */
  const BitsPerByte: nat := 8

  function Pow2(n: nat): (r: nat)
    ensures r >= 1
  {
    if n == 0 then 1 else 2 * Pow2(n - 1)
  }

  lemma {:induction false} Pow2Add(a: nat, b: nat)
    ensures Pow2(a + b) == Pow2(a) * Pow2(b)
  {
    if a > 0 {
      Pow2Add(a - 1, b);
      assert Pow2(a + b) == 2 * Pow2(a - 1 + b);
    }
  }

  lemma {:induction false} Pow2Monotone(a: nat, b: nat)
    requires a <= b
    ensures Pow2(a) <= Pow2(b)
  {
    if a < b {
      Pow2Monotone(a, b - 1);
    }
  }

  lemma Pow2Byte()
    ensures Pow2(BitsPerByte) == 256
  {
  }

  lemma ConcatAssoc<T>(a: seq<T>, b: seq<T>, c: seq<T>)
    ensures (a + b) + c == a + (b + c)
  {
  }

  /** Division with a positive divisor is determined by quotient and remainder. */
  lemma DivModUnique(x: int, d: int, q: int, r: int)
    requires d > 0 && x == d * q + r && 0 <= r < d
    ensures x / d == q && x % d == r
  {
    var q0, r0 := x / d, x % d;
    assert d * (q - q0) == r0 - r;
    MulBounded(d, q - q0);
  }

  /** A multiple of `d` strictly between `-d` and `d` is zero. */
  lemma MulBounded(d: int, k: int)
    requires d > 0 && -d < d * k < d
    ensures k == 0
  {
    if k > 0 {
      assert d * k == d * (k - 1) + d;
      MulNonNegative(d, k - 1);
    } else if k < 0 {
      assert d * k == -(d * (-k - 1)) - d;
      MulNonNegative(d, -k - 1);
    }
  }

  lemma ModBound(x: int, d: int)
    requires d > 0
    ensures 0 <= x % d < d
  {
  }

  lemma MulNonNegative(a: int, b: int)
    requires a >= 0 && b >= 0
    ensures a * b >= 0
  {
  }

  lemma DivDiv(x: int, a: int, b: int)
    requires a > 0 && b > 0
    ensures x / a / b == x / (a * b)
    ensures x % (a * b) == a * ((x / a) % b) + x % a
  {
    var q1, r1 := x / a, x % a;
    var q2, r2 := q1 / b, q1 % b;
    var ab := a * b;
    assert x == a * q1 + r1;
    assert q1 == b * q2 + r2;
    assert a * q1 == ab * q2 + a * r2 by {
      assert a * (b * q2 + r2) == a * (b * q2) + a * r2;
      assert a * (b * q2) == (a * b) * q2;
    }
    assert a * r2 + r1 < ab by {
      MulNonNegative(a, b - 1 - r2);
      assert a * (b - 1 - r2) == ab - a - a * r2;
    }
    MulNonNegative(a, r2);
    DivModUnique(x, ab, q2, a * r2 + r1);
  }

  /** The low `n` bits of `x` (two's complement for negative `x`), most significant first. */
  function ToBits(x: int, n: nat): (r: seq<bool>)
    ensures |r| == n
    decreases n
  {
    if n == 0 then [] else ToBits(x / 2, n - 1) + [x % 2 == 1]
  }

  /** The unsigned value of a bit string read most significant bit first. */
  function FromBits(bs: seq<bool>): (r: nat)
    ensures r < Pow2(|bs|)
  {
    if bs == [] then 0
    else 2 * FromBits(bs[..|bs| - 1]) + (if bs[|bs| - 1] then 1 else 0)
  }

  function Zeros(n: nat): (r: seq<bool>)
    ensures |r| == n && forall i :: 0 <= i < n ==> !r[i]
  {
    seq(n, _ => false)
  }

  /** Reading back `n` written bits yields the value masked to `n` bits. */
  lemma {:induction false} FromToBits(x: int, n: nat)
    ensures FromBits(ToBits(x, n)) == x % Pow2(n)
    decreases n
  {
    if n > 0 {
      var bs := ToBits(x, n);
      assert bs[..n - 1] == ToBits(x / 2, n - 1);
      FromToBits(x / 2, n - 1);
      DivDiv(x, 2, Pow2(n - 1));
    }
  }

  /** A bit string is the `|bs|`-bit rendering of its own value. */
  lemma {:induction false} ToFromBits(bs: seq<bool>)
    ensures ToBits(FromBits(bs), |bs|) == bs
  {
    if bs != [] {
      var init := bs[..|bs| - 1];
      ToFromBits(init);
      var v := FromBits(bs);
      assert v / 2 == FromBits(init);
      assert bs == init + [bs[|bs| - 1]];
    }
  }

  /** Values below 2^n are determined by their `n`-bit rendering. */
  lemma ToBitsInjective(x: nat, y: nat, n: nat)
    requires x < Pow2(n) && y < Pow2(n) && ToBits(x, n) == ToBits(y, n)
    ensures x == y
  {
    FromToBits(x, n);
    FromToBits(y, n);
    DivModUnique(x, Pow2(n), 0, x);
    DivModUnique(y, Pow2(n), 0, y);
  }

  /** Only the low `n` bits of a value reach its `n`-bit rendering. */
  lemma ToBitsMod(x: int, n: nat)
    ensures ToBits(x % Pow2(n), n) == ToBits(x, n)
  {
    FromToBits(x, n);
    ToFromBits(ToBits(x, n));
    FromToBits(x % Pow2(n), n);
    assert (x % Pow2(n)) % Pow2(n) == x % Pow2(n);
  }

  /** An (a+b)-bit rendering is the high `a` bits followed by the low `b` bits. */
  lemma {:induction false} ToBitsSplit(x: int, a: nat, b: nat)
    ensures ToBits(x, a + b) == ToBits(x / Pow2(b), a) + ToBits(x, b)
    decreases b
  {
    if b > 0 {
      var h := x / 2;
      ToBitsSplit(h, a, b - 1);
      DivDiv(x, 2, Pow2(b - 1));
      assert h / Pow2(b - 1) == x / Pow2(b);
      var last := [x % 2 == 1];
      calc {
        ToBits(x, a + b);
        ToBits(h, a + b - 1) + last;
        (ToBits(h / Pow2(b - 1), a) + ToBits(h, b - 1)) + last;
        ToBits(x / Pow2(b), a) + (ToBits(h, b - 1) + last);
        ToBits(x / Pow2(b), a) + ToBits(x, b);
      }
    }
  }

  lemma {:induction false} ToBitsZero(n: nat)
    ensures ToBits(0, n) == Zeros(n)
  {
    if n > 0 {
      ToBitsZero(n - 1);
    }
  }

  /** Appending `n` bits of `v` below `b` bits of `c` is the shift-and-or `c << n | v`. */
  lemma AppendBits(c: nat, b: nat, v: nat, n: nat)
    requires c < Pow2(b) && v < Pow2(n)
    ensures ToBits(c * Pow2(n) + v, b + n) == ToBits(c, b) + ToBits(v, n)
    ensures c * Pow2(n) + v < Pow2(b + n)
  {
    var x := c * Pow2(n) + v;
    ToBitsSplit(x, b, n);
    DivModUnique(x, Pow2(n), c, v);
    ToBitsMod(x, n);
    ShiftBound(c, b, v, n);
  }

  /** `c << n | v` stays below `2^(b + n)` when `c` fits in `b` bits and `v` in `n`. */
  lemma ShiftBound(c: nat, b: nat, v: nat, n: nat)
    requires c < Pow2(b) && v < Pow2(n)
    ensures c * Pow2(n) + v < Pow2(b + n)
  {
    var p, q := Pow2(b), Pow2(n);
    Pow2Add(b, n);
    MulNonNegative(p - 1 - c, q);
    assert (p - 1 - c) * q == p * q - q - c * q;
  }

  /**
   * The shift-and-or `c<<n | v` that both bit-I/O caches use to take in new bits.
   * A method rather than a function so that callers see only its contract and
   * never the nonlinear product.
   */
  method ShiftOr(c: nat, b: nat, v: nat, n: nat) returns (r: nat)
    requires c < Pow2(b) && v < Pow2(n)
    ensures ToBits(r, b + n) == ToBits(c, b) + ToBits(v, n)
    ensures r < Pow2(b + n)
  {
    MulNonNegative(c, Pow2(n));
    AppendBits(c, b, v, n);
    r := c * Pow2(n) + v;
  }

  /**
   * Splits a `n + k`-bit value into its top `n` bits, `(c >> k) & (1<<n - 1)`,
   * and its low `k` bits, `c & (1<<k - 1)`.
   */
  method SplitTop(c: nat, n: nat, k: nat) returns (hi: nat, lo: nat)
    requires c < Pow2(n + k)
    ensures ToBits(c, n + k) == ToBits(hi, n) + ToBits(lo, k)
    ensures hi == FromBits(ToBits(c, n + k)[..n]) && hi < Pow2(n) && lo < Pow2(k)
  {
    hi := (c / Pow2(k)) % Pow2(n);
    lo := c % Pow2(k);
    ToBitsSplit(c, n, k);
    ToBitsMod(c / Pow2(k), n);
    ToBitsMod(c, k);
    FromToBits(hi, n);
    ModBound(hi, Pow2(n));
    DivModUnique(hi, Pow2(n), 0, hi);
    assert ToBits(c, n + k)[..n] == ToBits(hi, n);
  }

  /** Go's `val & (1<<n - 1)`: the low `n` bits of `x`. */
  method Mask(x: nat, n: nat) returns (r: nat)
    ensures r < Pow2(n) && ToBits(r, n) == ToBits(x, n)
  {
    r := x % Pow2(n);
    ToBitsMod(x, n);
  }

  /**
   * Go's `byte(c << (8 - b))` for a cache `c` of `b < 8` bits: the pending
   * bits moved to the top of a byte, zero bits below them.
   */
  method PadByte(c: nat, b: nat) returns (r: nat)
    requires 0 < b < BitsPerByte && c < Pow2(b)
    ensures r < 256 && ToBits(r, BitsPerByte) == ToBits(c, b) + Zeros(BitsPerByte - b)
  {
    var k := BitsPerByte - b;
    // The padded value fits in a byte, so Go's `byte(...)` conversion keeps it whole.
    r := ShiftOr(c, b, 0, k);
    ToBitsZero(k);
    Pow2Byte();
  }

  /** Bytes as bits, each byte most significant bit first. */
  function BytesToBits(bs: seq<byte>): (r: seq<bool>)
    ensures |r| == 8 * |bs|
  {
    if bs == [] then [] else ToBits(bs[0], BitsPerByte) + BytesToBits(bs[1..])
  }

  lemma {:induction false} BytesToBitsAppend(a: seq<byte>, b: seq<byte>)
    ensures BytesToBits(a + b) == BytesToBits(a) + BytesToBits(b)
  {
    if a != [] {
      assert (a + b)[1..] == a[1..] + b;
      BytesToBitsAppend(a[1..], b);
    } else {
      assert a + b == b;
    }
  }

  /** Appending one byte appends its eight bits. */
  lemma BytesToBitsSnoc(bs: seq<byte>, b: byte)
    ensures BytesToBits(bs + [b]) == BytesToBits(bs) + ToBits(b, BitsPerByte)
  {
    BytesToBitsAppend(bs, [b]);
    assert BytesToBits([b]) == ToBits(b, BitsPerByte) + BytesToBits([]);
  }

  /** Taking the byte at `i` off the front of `bs[i..]`. */
  lemma BytesToBitsAt(bs: seq<byte>, i: nat)
    requires i < |bs|
    ensures BytesToBits(bs[i..]) == ToBits(bs[i], BitsPerByte) + BytesToBits(bs[i + 1..])
  {
    assert bs[i..][1..] == bs[i + 1..];
  }

  /** Go's `binary.Write(w, binary.LittleEndian, uint32(x))`: four bytes, low byte first. */
  function LE32(x: int): (r: seq<byte>)
    ensures |r| == 4
  {
    var v := x % TwoTo32;
    [v % 256, (v / 256) % 256, (v / 65536) % 256, v / 16777216]
  }

  /** Go's `binary.Read` of a little-endian `uint32`. */
  function ReadLE32(bs: seq<byte>): (r: nat)
    requires |bs| == 4
    ensures r < TwoTo32
  {
    var b0, b1, b2, b3: int := bs[0], bs[1], bs[2], bs[3];
    b0 + 256 * b1 + 65536 * b2 + 16777216 * b3
  }

  lemma LE32RoundTrip(x: int)
    ensures ReadLE32(LE32(x)) == x % TwoTo32
  {
    var v := x % TwoTo32;
    DivDiv(v, 256, 256);
    DivDiv(v, 65536, 256);
    assert v == 16777216 * (v / 16777216) + v % 16777216;
  }
}
