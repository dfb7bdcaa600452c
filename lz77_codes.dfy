/**
 * The length and distance tables of section 3.2.5 of RFC 1951 (DEFLATE), in
 * the form the compressor uses them: lengths 3..258 map to codes 257..285 and
 * distances 1..32768 to codes 300..329 (the RFC's distance codes 0..29 moved
 * up by 300 so that lengths and distances share one Huffman alphabet).  Each
 * code carries `extraBits` raw bits holding the offset from the code's base.
 */
module LZ77Codes {
  import opened Bits

  /** One token of the LZ77 stream: a Huffman symbol and the raw bits that follow it. */
  datatype Symbol = Symbol(code: int, extraBits: nat, extraVal: nat)

  /** What a length or distance code stands for: the smallest value it encodes and the number of extra bits. */
  datatype Base = Base(base: nat, extraBits: nat)

  /** The symbol that ends a block. */
  const EndOfBlock: int := 256
  /** The first distance code; Go's `OFFSET`. */
  const DistanceOffset: int := 300

  /** The powers of two that occur as extra-bit ranges in the tables. */
  lemma Pow2Small()
    ensures Pow2(0) == 1 && Pow2(1) == 2 && Pow2(2) == 4 && Pow2(3) == 8 && Pow2(4) == 16
    ensures Pow2(5) == 32 && Pow2(6) == 64 && Pow2(7) == 128 && Pow2(8) == 256 && Pow2(9) == 512
    ensures Pow2(10) == 1024 && Pow2(11) == 2048 && Pow2(12) == 4096 && Pow2(13) == 8192
  {
  }

  /** The code of the error result of both encoding tables. */
  const Invalid: Symbol := Symbol(-1, 0, 0)

  /** Go's `GetLengthData`: the code and extra bits of a match length. */
  function LengthData(length: int): (s: Symbol)
    ensures s == Invalid <==> !(3 <= length <= 258)
  {
    if 3 <= length <= 10 then Symbol(257 + (length - 3), 0, 0)
    else if 11 <= length <= 18 then Symbol(265 + (length - 11) / 2, 1, (length - 11) % 2)
    else if 19 <= length <= 34 then Symbol(269 + (length - 19) / 4, 2, (length - 19) % 4)
    else if 35 <= length <= 66 then Symbol(273 + (length - 35) / 8, 3, (length - 35) % 8)
    else if 67 <= length <= 130 then Symbol(277 + (length - 67) / 16, 4, (length - 67) % 16)
    else if 131 <= length <= 257 then Symbol(281 + (length - 131) / 32, 5, (length - 131) % 32)
    else if length == 258 then Symbol(285, 0, 0)
    else Invalid
  }

  /** Go's `GetLengthBase`: the smallest length of a length code and its number of extra bits. */
  function LengthBase(code: int): (r: Base)
    ensures r == Base(0, 0) <==> !(257 <= code <= 285)
  {
    var c := code - 257;
    if 0 <= c <= 7 then Base(c + 3, 0)
    else if 8 <= c <= 11 then Base(11 + (c - 8) * 2, 1)
    else if 12 <= c <= 15 then Base(19 + (c - 12) * 4, 2)
    else if 16 <= c <= 19 then Base(35 + (c - 16) * 8, 3)
    else if 20 <= c <= 23 then Base(67 + (c - 20) * 16, 4)
    else if 24 <= c <= 27 then Base(131 + (c - 24) * 32, 5)
    else if c == 28 then Base(258, 0)
    else Base(0, 0)
  }

  /**
   * Every match length 3..258 has a code in 257..285 whose base plus the
   * extra value gives the length back, and the extra value fits in the
   * code's extra bits.
   */
  lemma LengthTable(length: int)
    requires 3 <= length <= 258
    ensures var s := LengthData(length);
      && 257 <= s.code <= 285 && s.extraVal < Pow2(s.extraBits)
      && LengthBase(s.code) == Base(length - s.extraVal, s.extraBits)
  {
    if length <= 34 {
      LengthTable3To34(length);
    } else {
      LengthTable35To258(length);
    }
  }

  /** `LengthTable` for the lengths 3..34. */
  lemma LengthTable3To34(length: int)
    requires 3 <= length <= 34
    ensures var s := LengthData(length);
      && 257 <= s.code <= 285 && s.extraVal < Pow2(s.extraBits)
      && LengthBase(s.code) == Base(length - s.extraVal, s.extraBits)
  {
    Pow2Small();
  }

  /** `LengthTable` for the lengths 35..258. */
  lemma LengthTable35To258(length: int)
    requires 35 <= length <= 258
    ensures var s := LengthData(length);
      && 257 <= s.code <= 285 && s.extraVal < Pow2(s.extraBits)
      && LengthBase(s.code) == Base(length - s.extraVal, s.extraBits)
  {
    Pow2Small();
  }

  /**
   * Decoding a length code and then encoding the length gives the code back,
   * except for code 284 with all five extra bits set: that spells 258, which
   * has its own code 285.
   */
  lemma LengthCodeRoundTrip(code: int, extra: nat)
    requires 257 <= code <= 285 && extra < Pow2(LengthBase(code).extraBits)
    requires code == 285 || LengthBase(code).base + extra <= 257
    ensures LengthData(LengthBase(code).base + extra) == Symbol(code, LengthBase(code).extraBits, extra)
  {
    Pow2Small();
  }

  /** Go's `GetDistanceData`: the code and extra bits of a match distance. */
  function DistanceData(distance: int): (s: Symbol)
    ensures s == Invalid <==> !(1 <= distance <= 32768)
  {
    if 1 <= distance <= 4 then Symbol(DistanceOffset + (distance - 1), 0, 0)
    else if 5 <= distance <= 8 then Symbol(DistanceOffset + 4 + (distance - 5) / 2, 1, (distance - 5) % 2)
    else if 9 <= distance <= 16 then Symbol(DistanceOffset + 6 + (distance - 9) / 4, 2, (distance - 9) % 4)
    else if 17 <= distance <= 32 then Symbol(DistanceOffset + 8 + (distance - 17) / 8, 3, (distance - 17) % 8)
    else if 33 <= distance <= 64 then Symbol(DistanceOffset + 10 + (distance - 33) / 16, 4, (distance - 33) % 16)
    else if 65 <= distance <= 128 then Symbol(DistanceOffset + 12 + (distance - 65) / 32, 5, (distance - 65) % 32)
    else if 129 <= distance <= 256 then Symbol(DistanceOffset + 14 + (distance - 129) / 64, 6, (distance - 129) % 64)
    else if 257 <= distance <= 512 then Symbol(DistanceOffset + 16 + (distance - 257) / 128, 7, (distance - 257) % 128)
    else if 513 <= distance <= 1024 then Symbol(DistanceOffset + 18 + (distance - 513) / 256, 8, (distance - 513) % 256)
    else if 1025 <= distance <= 2048 then Symbol(DistanceOffset + 20 + (distance - 1025) / 512, 9, (distance - 1025) % 512)
    else if 2049 <= distance <= 4096 then Symbol(DistanceOffset + 22 + (distance - 2049) / 1024, 10, (distance - 2049) % 1024)
    else if 4097 <= distance <= 8192 then Symbol(DistanceOffset + 24 + (distance - 4097) / 2048, 11, (distance - 4097) % 2048)
    else if 8193 <= distance <= 16384 then Symbol(DistanceOffset + 26 + (distance - 8193) / 4096, 12, (distance - 8193) % 4096)
    else if 16385 <= distance <= 32768 then Symbol(DistanceOffset + 28 + (distance - 16385) / 8192, 13, (distance - 16385) % 8192)
    else Invalid
  }

  /** Go's `GetDistanceBase`: the smallest distance of a distance code and its number of extra bits. */
  function DistanceBase(code: int): (r: Base)
    ensures r == Base(0, 0) <==> !(DistanceOffset <= code <= DistanceOffset + 29)
  {
    var c := code - DistanceOffset;
    if 0 <= c <= 3 then Base(c + 1, 0)
    else if 4 <= c <= 5 then Base(5 + (c - 4) * 2, 1)
    else if 6 <= c <= 7 then Base(9 + (c - 6) * 4, 2)
    else if 8 <= c <= 9 then Base(17 + (c - 8) * 8, 3)
    else if 10 <= c <= 11 then Base(33 + (c - 10) * 16, 4)
    else if 12 <= c <= 13 then Base(65 + (c - 12) * 32, 5)
    else if 14 <= c <= 15 then Base(129 + (c - 14) * 64, 6)
    else if 16 <= c <= 17 then Base(257 + (c - 16) * 128, 7)
    else if 18 <= c <= 19 then Base(513 + (c - 18) * 256, 8)
    else if 20 <= c <= 21 then Base(1025 + (c - 20) * 512, 9)
    else if 22 <= c <= 23 then Base(2049 + (c - 22) * 1024, 10)
    else if 24 <= c <= 25 then Base(4097 + (c - 24) * 2048, 11)
    else if 26 <= c <= 27 then Base(8193 + (c - 26) * 4096, 12)
    else if 28 <= c <= 29 then Base(16385 + (c - 28) * 8192, 13)
    else Base(0, 0)
  }

  /**
   * Every distance the window allows has a code in 300..329 whose base plus
   * the extra value gives the distance back, and the extra value fits in the
   * code's extra bits.
   */
  lemma DistanceTable(distance: int)
    requires 1 <= distance <= 32768
    ensures var s := DistanceData(distance);
      && DistanceOffset <= s.code <= DistanceOffset + 29 && s.extraVal < Pow2(s.extraBits)
      && DistanceBase(s.code) == Base(distance - s.extraVal, s.extraBits)
  {
    if distance <= 16 {
      DistanceTable1To16(distance);
    } else if distance <= 128 {
      DistanceTable17To128(distance);
    } else if distance <= 1024 {
      DistanceTable129To1024(distance);
    } else if distance <= 8192 {
      DistanceTable1025To8192(distance);
    } else {
      DistanceTable8193To32768(distance);
    }
  }

  /** `DistanceTable` for the distances 1..16. */
  lemma DistanceTable1To16(distance: int)
    requires 1 <= distance <= 16
    ensures var s := DistanceData(distance);
      && DistanceOffset <= s.code <= DistanceOffset + 29 && s.extraVal < Pow2(s.extraBits)
      && DistanceBase(s.code) == Base(distance - s.extraVal, s.extraBits)
  {
    Pow2Small();
  }

  /** `DistanceTable` for the distances 17..128. */
  lemma DistanceTable17To128(distance: int)
    requires 17 <= distance <= 128
    ensures var s := DistanceData(distance);
      && DistanceOffset <= s.code <= DistanceOffset + 29 && s.extraVal < Pow2(s.extraBits)
      && DistanceBase(s.code) == Base(distance - s.extraVal, s.extraBits)
  {
    Pow2Small();
  }

  /** `DistanceTable` for the distances 129..1024. */
  lemma DistanceTable129To1024(distance: int)
    requires 129 <= distance <= 1024
    ensures var s := DistanceData(distance);
      && DistanceOffset <= s.code <= DistanceOffset + 29 && s.extraVal < Pow2(s.extraBits)
      && DistanceBase(s.code) == Base(distance - s.extraVal, s.extraBits)
  {
    Pow2Small();
  }

  /** `DistanceTable` for the distances 1025..8192. */
  lemma DistanceTable1025To8192(distance: int)
    requires 1025 <= distance <= 8192
    ensures var s := DistanceData(distance);
      && DistanceOffset <= s.code <= DistanceOffset + 29 && s.extraVal < Pow2(s.extraBits)
      && DistanceBase(s.code) == Base(distance - s.extraVal, s.extraBits)
  {
    Pow2Small();
  }

  /** `DistanceTable` for the distances 8193..32768. */
  lemma DistanceTable8193To32768(distance: int)
    requires 8193 <= distance <= 32768
    ensures var s := DistanceData(distance);
      && DistanceOffset <= s.code <= DistanceOffset + 29 && s.extraVal < Pow2(s.extraBits)
      && DistanceBase(s.code) == Base(distance - s.extraVal, s.extraBits)
  {
    Pow2Small();
  }

  /** Decoding a distance code and then encoding the distance gives the code back: with `DistanceTable`, the table is a bijection. */
  lemma DistanceCodeRoundTrip(code: int, extra: nat)
    requires DistanceOffset <= code <= DistanceOffset + 29 && extra < Pow2(DistanceBase(code).extraBits)
    ensures DistanceData(DistanceBase(code).base + extra) == Symbol(code, DistanceBase(code).extraBits, extra)
  {
    if code <= DistanceOffset + 5 {
      DistanceCodes0To5(code, extra);
    } else if code <= DistanceOffset + 11 {
      DistanceCodes6To11(code, extra);
    } else if code <= DistanceOffset + 17 {
      DistanceCodes12To17(code, extra);
    } else if code <= DistanceOffset + 23 {
      DistanceCodes18To23(code, extra);
    } else {
      DistanceCodes24To29(code, extra);
    }
  }

  /** `DistanceCodeRoundTrip` for the codes 300 + 0..300 + 5. */
  lemma DistanceCodes0To5(code: int, extra: nat)
    requires DistanceOffset + 0 <= code <= DistanceOffset + 5 && extra < Pow2(DistanceBase(code).extraBits)
    ensures DistanceData(DistanceBase(code).base + extra) == Symbol(code, DistanceBase(code).extraBits, extra)
  {
    Pow2Small();
  }

  /** `DistanceCodeRoundTrip` for the codes 300 + 6..300 + 11. */
  lemma DistanceCodes6To11(code: int, extra: nat)
    requires DistanceOffset + 6 <= code <= DistanceOffset + 11 && extra < Pow2(DistanceBase(code).extraBits)
    ensures DistanceData(DistanceBase(code).base + extra) == Symbol(code, DistanceBase(code).extraBits, extra)
  {
    Pow2Small();
  }

  /** `DistanceCodeRoundTrip` for the codes 300 + 12..300 + 17. */
  lemma DistanceCodes12To17(code: int, extra: nat)
    requires DistanceOffset + 12 <= code <= DistanceOffset + 17 && extra < Pow2(DistanceBase(code).extraBits)
    ensures DistanceData(DistanceBase(code).base + extra) == Symbol(code, DistanceBase(code).extraBits, extra)
  {
    Pow2Small();
  }

  /** `DistanceCodeRoundTrip` for the codes 300 + 18..300 + 23. */
  lemma DistanceCodes18To23(code: int, extra: nat)
    requires DistanceOffset + 18 <= code <= DistanceOffset + 23 && extra < Pow2(DistanceBase(code).extraBits)
    ensures DistanceData(DistanceBase(code).base + extra) == Symbol(code, DistanceBase(code).extraBits, extra)
  {
    Pow2Small();
  }

  /** `DistanceCodeRoundTrip` for the codes 300 + 24..300 + 29. */
  lemma DistanceCodes24To29(code: int, extra: nat)
    requires DistanceOffset + 24 <= code <= DistanceOffset + 29 && extra < Pow2(DistanceBase(code).extraBits)
    ensures DistanceData(DistanceBase(code).base + extra) == Symbol(code, DistanceBase(code).extraBits, extra)
  {
    Pow2Small();
  }
}
