/**
 * The MSB-first bit writer: a cache of pending bits in front of a byte sink.
 * The sink is modelled as the growing sequence of bytes written to it; write
 * errors of the underlying writer are not modelled.
 */
module BitWriting {
  import opened Common
  import opened Bits

  /** Moving the top byte `hi` of `BitsPerByte + k` pending bits into the output leaves the stream unchanged. */
  lemma EmitByte(out: seq<byte>, c: nat, k: nat, hi: byte, lo: nat)
    requires ToBits(c, BitsPerByte + k) == ToBits(hi, BitsPerByte) + ToBits(lo, k)
    ensures BytesToBits(out + [hi]) + ToBits(lo, k) == BytesToBits(out) + ToBits(c, BitsPerByte + k)
  {
    BytesToBitsSnoc(out, hi);
  }

  /** The bits a writer holding bytes `out` and `bits` pending bits `cache` stands for. */
  ghost function StreamOf(out: seq<byte>, cache: nat, bits: nat): seq<bool>
  {
    BytesToBits(out) + ToBits(cache, bits)
  }

  /** The state `(out, c, b)` of the drain loop after `emitted` bytes, started from `(out0, c0, b0)`. */
  ghost predicate Draining(out0: seq<byte>, c0: nat, b0: nat, out: seq<byte>, c: nat, b: nat, emitted: nat)
  {
    && c < Pow2(b) && b + 8 * emitted == b0
    && StreamOf(out, c, b) == StreamOf(out0, c0, b0)
    && |out| == |out0| + emitted && out[..|out0|] == out0
    && (emitted == 0 ==> out == out0 && c == c0)
  }

  /**
   * Go's `for bw.bits >= 8` loop on the writer's state: moves whole bytes from
   * the top of the cache to the sink.
   */
  method Drain(out0: seq<byte>, c0: nat, b0: nat) returns (out: seq<byte>, c: nat, b: nat)
    requires b0 <= 64 && c0 < Pow2(b0)
    ensures b < 8 && c < Pow2(b) && StreamOf(out, c, b) == StreamOf(out0, c0, b0)
    ensures |out| == |out0| + b0 / 8 && out[..|out0|] == out0
    ensures b == b0 % 8
    ensures b0 < 8 ==> out == out0 && c == c0
  {
    ghost var emitted: nat := 0;
    out, c, b := out0, c0, b0;
    while b >= 8
      invariant Draining(out0, c0, b0, out, c, b, emitted)
      decreases b
    {
      out, c, b := DrainStep(out0, c0, b0, out, c, b, emitted);
      emitted := emitted + 1;
    }
    DivModUnique(b0, 8, emitted, b);
  }

  /** One iteration of the drain loop: Go's `byte(bw.cache >> (bw.bits - 8))`, written out. */
  method DrainStep(out0: seq<byte>, c0: nat, b0: nat, out: seq<byte>, c: nat, b: nat, ghost emitted: nat)
    returns (out': seq<byte>, c': nat, b': nat)
    requires Draining(out0, c0, b0, out, c, b, emitted) && b >= 8
    ensures Draining(out0, c0, b0, out', c', b', emitted + 1) && b' == b - 8
  {
    var k := b - 8;
    var hi, lo := SplitTop(c, BitsPerByte, k);
    Pow2Byte();
    EmitByte(out, c, k, hi, lo);
    out', c', b' := out + [hi], lo, k;
    assert out'[..|out0|] == out[..|out0|];
  }

  /** Taking `nbits` new bits into the cache appends them to the stream. */
  lemma JoinPending(out: seq<byte>, cache: nat, bits: nat, c: nat, val: nat, nbits: nat)
    requires ToBits(c, bits + nbits) == ToBits(cache, bits) + ToBits(val, nbits)
    ensures StreamOf(out, c, bits + nbits) == StreamOf(out, cache, bits) + ToBits(val, nbits)
  {
    ConcatAssoc(BytesToBits(out), ToBits(cache, bits), ToBits(val, nbits));
  }

  /** The body of `WriteBits` on the writer's state `(out, cache, bits)`, returning the new state. */
  method Put(out: seq<byte>, cache: nat, bits: nat, val: nat, nbits: nat) returns (out': seq<byte>, c': nat, b': nat)
    requires bits < 8 && cache < Pow2(bits) && nbits <= 57
    ensures b' < 8 && c' < Pow2(b')
    ensures StreamOf(out', c', b') == StreamOf(out, cache, bits) + ToBits(val, nbits)
    ensures |out'| == |out| + (bits + nbits) / 8 && out'[..|out|] == out
    ensures b' == (bits + nbits) % 8
    ensures nbits == 0 ==> out' == out && c' == cache && b' == bits
  {
    var v := Mask(val, nbits);
    var c := ShiftOr(cache, bits, v, nbits);
    if nbits == 0 {
      ToBitsInjective(c, cache, bits);
    }
    JoinPending(out, cache, bits, c, val, nbits);
    Pow2Monotone(bits + nbits, 64);
    out', c', b' := Drain(out, c, bits + nbits);
  }

  class BitWriter {
    /** Bytes already handed to the sink. */
    var out: seq<byte>
    /** Pending bits, right-aligned; Go's `uint64` accumulator. */
    var cache: nat
    /** Number of pending bits in `cache`. */
    var bits: nat

    /** Between calls fewer than 8 bits are pending and `cache` holds no stray high bits. */
    ghost predicate Valid()
      reads this
    {
      bits < 8 && cache < Pow2(bits)
    }

    /** Every bit written so far, in order: the emitted bytes followed by the pending bits. */
    ghost function Stream(): seq<bool>
      reads this
    {
      StreamOf(out, cache, bits)
    }

    constructor ()
      ensures Valid() && out == [] && cache == 0 && bits == 0
      ensures Stream() == []
    {
      out, cache, bits := [], 0, 0;
    }

    /** Appends the low `nbits` bits of `val` to the stream, most significant first. */
    method WriteBits(val: nat, nbits: nat)
      requires Valid() && nbits <= 57
      modifies this
      ensures Valid()
      ensures Stream() == old(Stream()) + ToBits(val, nbits)
      ensures |out| == |old(out)| + (old(bits) + nbits) / 8 && out[..|old(out)|] == old(out)
      ensures bits == (old(bits) + nbits) % 8
      ensures nbits == 0 ==> out == old(out) && cache == old(cache) && bits == old(bits)
    {
      out, cache, bits := Put(out, cache, bits, val, nbits);
    }

    /** Emits the pending bits, if any, as one final byte padded with zero bits on the right. */
    method Flush()
      requires Valid()
      modifies this
      ensures Valid() && bits == 0 && cache == 0
      ensures BytesToBits(out) == old(Stream()) + Zeros(if old(bits) > 0 then 8 - old(bits) else 0)
      ensures |out| == (|old(Stream())| + 7) / 8 && out[..|old(out)|] == old(out)
      ensures old(bits) == 0 ==> out == old(out)
    {
      if bits > 0 {
        var b := PadByte(cache, bits);
        BytesToBitsSnoc(out, b);
        out := out + [b];
        bits, cache := 0, 0;
      } else {
        assert ToBits(cache, 0) == [];
      }
    }
  }
}
