/**
 * The MSB-first bit reader: a cache of bits taken from a byte source.
 * The source is modelled as the whole input (`src`) and a read position
 * (`pos`); read errors other than running out of bytes are not modelled.
 */
module BitReading {
  import opened Common
  import opened Bits

  /** Moving the byte at `p` behind the `b` cached bits keeps the stream still to be read. */
  lemma TakeInByte(src: seq<byte>, p: nat, c: nat, b: nat, c': nat, stream: seq<bool>)
    requires p < |src| && ToBits(c, b) + BytesToBits(src[p..]) == stream
    requires ToBits(c', b + BitsPerByte) == ToBits(c, b) + ToBits(src[p], BitsPerByte)
    ensures ToBits(c', b + BitsPerByte) + BytesToBits(src[p + 1..]) == stream
  {
    BytesToBitsAt(src, p);
    ConcatAssoc(ToBits(c, b), ToBits(src[p], BitsPerByte), BytesToBits(src[p + 1..]));
  }

  /** The state `(c, b, p)` of the refill loop that started from `(cache, bits, pos)`. */
  ghost predicate Refilled(src: seq<byte>, stream: seq<bool>, bits: nat, pos: nat, nbits: nat, c: nat, b: nat, p: nat)
  {
    && pos <= p <= |src| && b <= 64 && c < Pow2(b)
    && ToBits(c, b) + BytesToBits(src[p..]) == stream
    && (p == pos ==> b == bits)
    && (p > pos ==> b < nbits + 8)
  }

  /**
   * Go's `for br.bits < nbits` loop on the reader's state: takes whole bytes
   * into the cache until `nbits` are held or the input is exhausted.
   */
  method FillCache(src: seq<byte>, pos: nat, cache: nat, bits: nat, nbits: nat) returns (c: nat, b: nat, p: nat)
    requires pos <= |src| && bits <= 64 && cache < Pow2(bits) && nbits <= 57
    ensures Refilled(src, ToBits(cache, bits) + BytesToBits(src[pos..]), bits, pos, nbits, c, b, p)
    ensures b >= nbits || p == |src|
    ensures bits >= nbits ==> p == pos
  {
    ghost var stream := ToBits(cache, bits) + BytesToBits(src[pos..]);
    c, b, p := cache, bits, pos;
    while b < nbits && p < |src|
      invariant Refilled(src, stream, bits, pos, nbits, c, b, p)
      invariant bits >= nbits ==> p == pos
      decreases |src| - p
    {
      c, b, p := RefillStep(src, stream, bits, pos, nbits, c, b, p);
    }
  }

  /** One iteration of the refill loop: Go's `br.cache = br.cache<<8 | uint64(nextByte)`. */
  method RefillStep(src: seq<byte>, ghost stream: seq<bool>, bits: nat, pos: nat, nbits: nat, c: nat, b: nat, p: nat)
    returns (c': nat, b': nat, p': nat)
    requires Refilled(src, stream, bits, pos, nbits, c, b, p) && b < nbits <= 57 && p < |src|
    ensures Refilled(src, stream, bits, pos, nbits, c', b', p') && p' == p + 1
  {
    Pow2Byte();
    c' := ShiftOr(c, b, src[p], BitsPerByte);
    TakeInByte(src, p, c, b, c', stream);
    b', p' := b + BitsPerByte, p + 1;
  }

  /** Removing the top `n` bits `hi` from an `n + k`-bit cache `c` leaves its low bits `lo` in front of the unread bytes. */
  lemma TakeBits(c: nat, n: nat, k: nat, hi: nat, lo: nat, unread: seq<bool>)
    requires ToBits(c, n + k) == ToBits(hi, n) + ToBits(lo, k)
    requires hi == FromBits(ToBits(c, n + k)[..n])
    ensures hi == FromBits((ToBits(c, n + k) + unread)[..n])
    ensures (ToBits(c, n + k) + unread)[n..] == ToBits(lo, k) + unread
  {
    var s := ToBits(c, n + k) + unread;
    assert s[..n] == ToBits(c, n + k)[..n];
  }

  /**
   * What a read of `nbits` bits from `stream` yields: the first `nbits` bits as
   * a number and the rest of the stream, or, when fewer are left, `0` and the
   * stream untouched.
   */
  ghost predicate ReadOutcome(stream: seq<bool>, nbits: nat, val: nat, ok: bool, rest: seq<bool>)
  {
    && (ok <==> nbits <= |stream|)
    && (ok ==> val == FromBits(stream[..nbits]) && rest == stream[nbits..])
    && (!ok ==> val == 0 && rest == stream)
    && val < Pow2(nbits)
  }

  /** The body of `ReadBits` on the reader's state `(pos, cache, bits)`, returning the new state `(p, c, b)`. */
  method Take(src: seq<byte>, pos: nat, cache: nat, bits: nat, nbits: nat) returns (val: nat, ok: bool, c: nat, b: nat, p: nat)
    requires pos <= |src| && bits <= 64 && cache < Pow2(bits) && nbits <= 57
    ensures p <= |src| && b <= 64 && c < Pow2(b)
    ensures ReadOutcome(ToBits(cache, bits) + BytesToBits(src[pos..]), nbits, val, ok, ToBits(c, b) + BytesToBits(src[p..]))
    ensures !ok ==> p == |src|
    ensures nbits <= bits ==> p == pos
    ensures ok && bits < 8 ==> b < 8
  {
    ghost var stream := ToBits(cache, bits) + BytesToBits(src[pos..]);
    c, b, p := FillCache(src, pos, cache, bits, nbits);
    if b < nbits {
      assert src[p..] == [];
      return 0, false, c, b, p;
    }
    val, c := TakeTop(c, b, nbits, BytesToBits(src[p..]));
    ok, b := true, b - nbits;
  }

  /** Splits the top `nbits` of a `b`-bit cache off as the value read, in front of the `unread` bits. */
  method TakeTop(c: nat, b: nat, nbits: nat, ghost unread: seq<bool>) returns (hi: nat, lo: nat)
    requires c < Pow2(b) && nbits <= b
    ensures lo < Pow2(b - nbits)
    ensures ReadOutcome(ToBits(c, b) + unread, nbits, hi, true, ToBits(lo, b - nbits) + unread)
  {
    var shift := b - nbits;
    hi, lo := SplitTop(c, nbits, shift);
    TakeBits(c, nbits, shift, hi, lo, unread);
  }

  /**
   * Reading `n` bits from a stream that starts with the `n` bits a writer
   * appended for `v` yields `v` masked to `n` bits and leaves what followed.
   */
  lemma ReadWritten(v: int, n: nat, rest: seq<bool>, val: nat, ok: bool, after: seq<bool>)
    requires ReadOutcome(ToBits(v, n) + rest, n, val, ok, after)
    ensures ok && val == v % Pow2(n) && after == rest
  {
    assert (ToBits(v, n) + rest)[..n] == ToBits(v, n);
    assert (ToBits(v, n) + rest)[n..] == rest;
    FromToBits(v, n);
  }

  class BitReader {
    /** Every byte the underlying reader will ever deliver. */
    const src: seq<byte>
    /** Number of bytes already taken from `src`. */
    var pos: nat
    /** Bits taken from the source but not yet returned, right-aligned. */
    var cache: nat
    /** Number of bits held in `cache`. */
    var bits: nat

    ghost predicate Valid()
      reads this
    {
      pos <= |src| && bits <= 64 && cache < Pow2(bits)
    }

    /** The bits still to be read: the cached ones, then the unread bytes. */
    ghost function Remaining(): seq<bool>
      reads this
      requires pos <= |src|
    {
      ToBits(cache, bits) + BytesToBits(src[pos..])
    }

    constructor (input: seq<byte>)
      ensures Valid() && src == input && pos == 0 && cache == 0 && bits == 0
      ensures Remaining() == BytesToBits(input)
    {
      src, pos, cache, bits := input, 0, 0, 0;
      assert input[0..] == input;
    }

    /**
     * Returns the next `nbits` bits as an unsigned value.  When the source
     * runs dry first, the result is `0` with ok false; the bytes taken so far
     * stay in the cache, so the stream still to be read is unchanged.
     */
    method ReadBits(nbits: nat) returns (val: nat, ok: bool)
      requires Valid() && nbits <= 57
      modifies this
      ensures Valid()
      ensures ReadOutcome(old(Remaining()), nbits, val, ok, Remaining())
      ensures !ok ==> pos == |src|
      ensures nbits <= old(bits) ==> pos == old(pos)
      ensures ok && old(bits) < 8 ==> bits < 8
    {
      var c, b, p;
      val, ok, c, b, p := Take(src, pos, cache, bits, nbits);
      cache, bits, pos := c, b, p;
    }
  }
}
