/**
 * The Huffman stage of the compressor (huffman.go's `HuffmanCompress` and
 * `HuffmanDecompress`): a u32 little-endian original length, the explicit
 * tree, then for every LZ77 token its code followed by its extra bits.
 */
module HuffmanCodec {
  import opened Common
  import opened Bits
  import opened BitWriting
  import opened BitReading
  import opened LZ77Codes
  import opened LZ77
  import opened HuffmanTree
  import opened HuffmanCodes
  import opened TreeSerialization

  // ---------------------------------------------------------------------
  // Symbol frequencies
  // ---------------------------------------------------------------------

  /** How many tokens in `ts` carry `code`. */
  function Count(ts: seq<Symbol>, code: int): nat
  {
    if ts == [] then 0
    else Count(ts[..|ts| - 1], code) + (if ts[|ts| - 1].code == code then 1 else 0)
  }

  /** The frequency map `HuffmanCompress` fills, one increment per token. */
  function Frequencies(ts: seq<Symbol>): map<int, int>
  {
    if ts == [] then map[]
    else
      var f := Frequencies(ts[..|ts| - 1]);
      var c := ts[|ts| - 1].code;
      f[c := (if c in f then f[c] else 0) + 1]
  }

  /** The map holds exactly the codes that occur, each with its number of occurrences. */
  lemma {:induction false} FrequenciesCount(ts: seq<Symbol>, code: int)
    ensures code in Frequencies(ts) <==> Count(ts, code) > 0
    ensures code in Frequencies(ts) ==> Frequencies(ts)[code] == Count(ts, code)
  {
    if ts != [] {
      FrequenciesCount(ts[..|ts| - 1], code);
    }
  }

  /** A code occurs in `ts` exactly when some token carries it. */
  lemma {:induction false} CountPositive(ts: seq<Symbol>, code: int)
    ensures Count(ts, code) > 0 <==> exists i :: 0 <= i < |ts| && ts[i].code == code
  {
    if ts != [] {
      var init := ts[..|ts| - 1];
      CountPositive(init, code);
      if exists i :: 0 <= i < |ts| && ts[i].code == code {
        var i :| 0 <= i < |ts| && ts[i].code == code;
        if i < |ts| - 1 {
          assert init[i].code == code;
        }
      }
      if exists i :: 0 <= i < |init| && init[i].code == code {
        var i :| 0 <= i < |init| && init[i].code == code;
        assert ts[i].code == code;
      }
    }
  }

  /** Every token's code is a key of the frequency map. */
  lemma FrequenciesCover(ts: seq<Symbol>, i: nat)
    requires i < |ts|
    ensures ts[i].code in Frequencies(ts)
  {
    CountPositive(ts, ts[i].code);
    FrequenciesCount(ts, ts[i].code);
  }

  /** Go's frequency loop. */
  method CountFrequencies(ts: seq<Symbol>) returns (freqs: map<int, int>)
    ensures freqs == Frequencies(ts)
  {
    freqs := map[];
    var i := 0;
    while i < |ts|
      invariant i <= |ts| && freqs == Frequencies(ts[..i])
    {
      assert ts[..i + 1][..i] == ts[..i];
      var c := ts[i].code;
      freqs := freqs[c := (if c in freqs then freqs[c] else 0) + 1];
      i := i + 1;
    }
    assert ts[..i] == ts;
  }

  // ---------------------------------------------------------------------
  // The tree for a token stream
  // ---------------------------------------------------------------------

  /** The tree `BuildTree` makes from the token frequencies. */
  ghost function TreeFor(ts: seq<Symbol>): Tree
  {
    Huffman(LeafBag(Frequencies(ts)))
  }

  /** Codes of well-formed tokens: bytes, the end marker, length and distance codes. */
  predicate CodeInRange(t: Symbol)
  {
    0 <= t.code < DistanceOffset + 30 && t.extraBits <= 13
  }

  /** Tokens as the tokenizer writes them stay within the alphabet and extra-bit widths. */
  lemma {:induction false} WellFormedInRange(ts: seq<Symbol>)
    requires WellFormed(ts)
    ensures forall i :: 0 <= i < |ts| ==> CodeInRange(ts[i])
    decreases |ts|
  {
    if |ts| > 1 {
      if 0 <= ts[0].code < EndOfBlock {
        WellFormedInRange(ts[1..]);
        forall i | 1 <= i < |ts| ensures CodeInRange(ts[i]) {
          assert ts[i] == ts[1..][i - 1];
        }
      } else {
        BaseBits(ts[0].code);
        BaseBits(ts[1].code);
        WellFormedInRange(ts[2..]);
        forall i | 2 <= i < |ts| ensures CodeInRange(ts[i]) {
          assert ts[i] == ts[2..][i - 2];
        }
      }
    }
  }

  /** Extra-bit widths and the smallest length of the tables. */
  lemma BaseBits(code: int)
    ensures LengthBase(code).extraBits <= 5 && DistanceBase(code).extraBits <= 13
    ensures IsLengthCode(code) ==> LengthBase(code).base >= 3
  {
  }

  /** A leaf of `t` contributes its symbol to `t`'s symbols. */
  lemma {:induction false} LeafSymbol(t: Tree, u: Tree)
    requires u in Leaves(t)
    ensures u.Node? && u.symbol in Symbols(t)
  {
    if t != Nil && !IsLeaf(t) {
      if u in Leaves(t.left) {
        LeafSymbol(t.left, u);
      } else {
        LeafSymbol(t.right, u);
      }
    }
  }

  /** A tree whose leaves all have symbols in `0 .. 511` fits the 9-bit serialisation. */
  lemma {:induction false} LeavesFit(t: Tree)
    requires forall u :: u in Leaves(t) ==> u.Node? && 0 <= u.symbol < Pow2(SymbolBits)
    ensures SymbolsFit(t)
  {
    if t != Nil && !IsLeaf(t) {
      LeavesFit(t.left);
      LeavesFit(t.right);
    }
  }

  /**
   * For the tokenizer's output, `BuildTree` gives a tree `serializeTree` can
   * walk, whose symbols fit in 9 bits and in which every token has a code.
   */
  lemma TreeForTokens(ts: seq<Symbol>)
    requires WellFormed(ts)
    ensures Full(TreeFor(ts)) && SymbolsFit(TreeFor(ts))
    ensures forall i :: 0 <= i < |ts| ==> ts[i].code in Codes(TreeFor(ts))
  {
    var freqs := Frequencies(ts);
    var root := TreeFor(ts);
    WellFormedEnd(ts);
    FrequenciesCover(ts, 0);
    BuildTreeWellBuilt(freqs);
    WellBuiltFull(root);
    BuildTreeLeaves(freqs);
    WellFormedInRange(ts);
    forall u | u in Leaves(root) ensures u.Node? && 0 <= u.symbol < Pow2(SymbolBits) {
      var i :| 0 <= i < |ts| && ts[i].code == u.symbol by {
        FrequenciesCount(ts, u.symbol);
        CountPositive(ts, u.symbol);
      }
      assert CodeInRange(ts[i]);
    }
    LeavesFit(root);
    forall i | 0 <= i < |ts| ensures ts[i].code in Codes(root) {
      FrequenciesCover(ts, i);
      LeafSymbol(root, Leaf(ts[i].code, freqs[ts[i].code]));
    }
  }

  // ---------------------------------------------------------------------
  // Encoding
  // ---------------------------------------------------------------------

  /** Every token of `ts` has a code in `codes`. */
  predicate Covered(ts: seq<Symbol>, codes: map<int, seq<bool>>)
  {
    forall i :: 0 <= i < |ts| ==> ts[i].code in codes
  }

  /** The bits written for one token: its code, then its extra value in its extra bits. */
  function TokenBits(t: Symbol, codes: map<int, seq<bool>>): seq<bool>
  {
    (if t.code in codes then codes[t.code] else []) + ToBits(t.extraVal, t.extraBits)
  }

  /** The bits written for the token stream. */
  function Payload(ts: seq<Symbol>, codes: map<int, seq<bool>>): seq<bool>
  {
    if ts == [] then [] else TokenBits(ts[0], codes) + Payload(ts[1..], codes)
  }

  /** Appending one token appends its bits. */
  lemma {:induction false} PayloadSnoc(ts: seq<Symbol>, t: Symbol, codes: map<int, seq<bool>>)
    ensures Payload(ts + [t], codes) == Payload(ts, codes) + TokenBits(t, codes)
  {
    if ts == [] {
      assert (ts + [t])[1..] == [];
    } else {
      assert (ts + [t])[1..] == ts[1..] + [t];
      PayloadSnoc(ts[1..], t, codes);
      ConcatAssoc(TokenBits(ts[0], codes), Payload(ts[1..], codes), TokenBits(t, codes));
    }
  }

  /** One pass of the token loop, as the writer's stream grows. */
  lemma PayloadStep(before: seq<bool>, ts: seq<Symbol>, i: nat, codes: map<int, seq<bool>>)
    requires i < |ts|
    ensures before + Payload(ts[..i], codes) + TokenBits(ts[i], codes) == before + Payload(ts[..i + 1], codes)
  {
    assert ts[..i + 1] == ts[..i] + [ts[i]];
    PayloadSnoc(ts[..i], ts[i], codes);
    ConcatAssoc(before, Payload(ts[..i], codes), TokenBits(ts[i], codes));
  }

  /** The whole bit stream after the length field: the tree, then the payload. */
  ghost function Encoded(data: seq<byte>, minMatch: nat): seq<bool>
    requires minMatch >= DefaultMinMatch
  {
    var ts := Tokens(data, minMatch);
    TokensWellFormed(data, minMatch);
    TreeForTokens(ts);
    Serialize(TreeFor(ts)) + Payload(ts, Codes(TreeFor(ts)))
  }

  /** `bytes` hold `bits`, then zero bits up to the next byte boundary. */
  ghost predicate Padded(bytes: seq<byte>, bits: seq<bool>)
  {
    |bits| <= 8 * |bytes| < |bits| + 8 && BytesToBits(bytes) == bits + Zeros(8 * |bytes| - |bits|)
  }

  /** Writes one code bit by bit, as Go does with `WriteBits(1, 1)` and `WriteBits(0, 1)`. */
  method WriteCode(code: seq<bool>, bw: BitWriter)
    requires bw.Valid()
    modifies bw
    ensures bw.Valid() && bw.Stream() == old(bw.Stream()) + code
  {
    var j := 0;
    while j < |code|
      invariant j <= |code| && bw.Valid() && bw.Stream() == old(bw.Stream()) + code[..j]
    {
      WriteBit(code[j], bw);
      PrefixStep(old(bw.Stream()), code, j);
      j := j + 1;
    }
    assert code[..j] == code;
  }

  /** One character of a code string. */
  method WriteBit(b: bool, bw: BitWriter)
    requires bw.Valid()
    modifies bw
    ensures bw.Valid() && bw.Stream() == old(bw.Stream()) + [b]
  {
    if b {
      bw.WriteBits(1, 1);
      assert ToBits(1, 1) == [true];
    } else {
      bw.WriteBits(0, 1);
      assert ToBits(0, 1) == [false];
    }
  }

  /** Extending a prefix of `code` by its next element. */
  lemma PrefixStep<T>(before: seq<T>, code: seq<T>, j: nat)
    requires j < |code|
    ensures before + code[..j] + [code[j]] == before + code[..j + 1]
  {
    assert code[..j + 1] == code[..j] + [code[j]];
    ConcatAssoc(before, code[..j], [code[j]]);
  }

  /** Writes one token: its code, then its extra bits when it has any. */
  method WriteToken(t: Symbol, codes: map<int, seq<bool>>, bw: BitWriter)
    requires bw.Valid() && t.code in codes && t.extraBits <= 13
    modifies bw
    ensures bw.Valid() && bw.Stream() == old(bw.Stream()) + TokenBits(t, codes)
  {
    WriteCode(codes[t.code], bw);
    if t.extraBits > 0 {
      bw.WriteBits(t.extraVal, t.extraBits);
    } else {
      assert ToBits(t.extraVal, 0) == [];
    }
    ConcatAssoc(old(bw.Stream()), codes[t.code], ToBits(t.extraVal, t.extraBits));
  }

  /** Go's token loop in `HuffmanCompress`. */
  method WriteTokens(ts: seq<Symbol>, codes: map<int, seq<bool>>, bw: BitWriter)
    requires bw.Valid() && Covered(ts, codes) && forall i :: 0 <= i < |ts| ==> CodeInRange(ts[i])
    modifies bw
    ensures bw.Valid() && bw.Stream() == old(bw.Stream()) + Payload(ts, codes)
  {
    var i := 0;
    while i < |ts|
      invariant i <= |ts| && bw.Valid()
      invariant bw.Stream() == old(bw.Stream()) + Payload(ts[..i], codes)
    {
      assert CodeInRange(ts[i]);
      WriteToken(ts[i], codes, bw);
      PayloadStep(old(bw.Stream()), ts, i, codes);
      i := i + 1;
    }
    assert ts[..i] == ts;
  }

  /**
   * Go's `HuffmanCompress`: the input length as a u32 little-endian, then
   * the tree and the token codes, zero-padded to a whole byte.
   */
  method HuffmanCompress(data: seq<byte>, minMatch: nat) returns (output: seq<byte>)
    requires minMatch >= DefaultMinMatch
    ensures |output| >= 4 && output[..4] == LE32(|data|)
    ensures Padded(output[4..], Encoded(data, minMatch))
  {
    var tokens := LZ77Compress(data, minMatch);
    TokensWellFormed(data, minMatch);
    var freqs := CountFrequencies(tokens);
    var root := BuildTree(freqs);
    TreeForTokens(tokens);
    WellFormedInRange(tokens);
    var body := EncodeTokens(tokens, root);
    output := LE32(|data|) + body;
    assert output[4..] == body;
  }

  /** Everything `HuffmanCompress` writes through the bit writer for the tokens `ts` and the tree `root`. */
  method EncodeTokens(ts: seq<Symbol>, root: Tree) returns (body: seq<byte>)
    requires Full(root) && Covered(ts, Codes(root)) && forall i :: 0 <= i < |ts| ==> CodeInRange(ts[i])
    ensures Padded(body, Serialize(root) + Payload(ts, Codes(root)))
  {
    var codes := Codes(root);
    ghost var expected := Serialize(root) + Payload(ts, codes);
    var bw := new BitWriter();
    SerializeTree(root, bw);
    assert bw.Stream() == Serialize(root);
    WriteTokens(ts, codes, bw);
    assert bw.Stream() == expected;
    ghost var pad := if bw.bits > 0 then 8 - bw.bits else 0;
    bw.Flush();
    FlushPadding(expected, bw.out, pad);
    body := bw.out;
  }

  /** The flushed bytes are the stream padded to a byte boundary. */
  lemma FlushPadding(stream: seq<bool>, out: seq<byte>, k: nat)
    requires |out| == (|stream| + 7) / 8 && k < 8
    requires BytesToBits(out) == stream + Zeros(k)
    ensures Padded(out, stream)
  {
  }

  // ---------------------------------------------------------------------
  // Decoding
  // ---------------------------------------------------------------------

  /** Why `HuffmanDecompress` gives up. */
  datatype DecodeError =
    | TruncatedHeader       // fewer than 4 bytes for the length field
    | MalformedTree         // no bits at all for the tree
    | TruncatedExtraBits    // the stream ends inside a length's or a distance's extra bits
    | SyncError             // a length symbol not followed by a distance symbol (300..331)
    | InvalidBackReference  // a distance of 0 or beyond the bytes decoded so far
    | UnknownSymbol         // a symbol that is neither a byte, 256 nor a length

  /**
   * What one pass of the decoder loop does: append a byte, copy `length`
   * bytes from `distance` back, or stop with a result.
   */
  datatype Step = Byte(value: byte) | Copy(distance: nat, length: nat) | Stop(result: Result<seq<byte>, DecodeError>)

  /** A step and the bits it leaves unread. */
  datatype Stepped = Stepped(step: Step, rest: seq<bool>)

  /**
   * The body of the decoder loop after `symbol` was decoded and with `bits`
   * unread: a byte is appended, 256 stops, a length symbol is followed by
   * its extra bits, a distance symbol and that one's extra bits, and then the
   * bytes are copied one at a time from `distance` back.
   */
  function SymbolStep(root: Tree, symbol: int, bits: seq<bool>, out: seq<byte>): (s: Stepped)
    requires root.Node?
    ensures s.step.Copy? ==> 1 <= s.step.distance <= |out| && s.step.length >= 1
  {
    if symbol < 256 then Stepped(Byte((symbol % 256) as byte), bits)
    else if symbol == EndOfBlock then Stepped(Stop(Success(out)), bits)
    else if IsLengthCode(symbol) then MatchStep(root, symbol, bits, out)
    else Stepped(Stop(Failure(UnknownSymbol)), bits)
  }

  /** The length-symbol branch of `SymbolStep`: the length's extra bits. */
  function MatchStep(root: Tree, symbol: int, bits: seq<bool>, out: seq<byte>): (s: Stepped)
    requires root.Node? && IsLengthCode(symbol)
    ensures s.step.Copy? ==> 1 <= s.step.distance <= |out| && s.step.length >= 1
  {
    var lb := LengthBase(symbol);
    if |bits| < lb.extraBits then Stepped(Stop(Failure(TruncatedExtraBits)), bits)
    else
      BaseBits(symbol);
      DistanceStep(root, lb.base + FromBits(bits[..lb.extraBits]), bits[lb.extraBits..], out)
  }

  /** `MatchStep` once the length's extra bits `extra` were read, leaving `rest`; `length` is the length they give. */
  lemma MatchStepRead(root: Tree, symbol: int, bits: seq<bool>, out: seq<byte>, extra: nat, rest: seq<bool>, length: nat)
    requires root.Node? && IsLengthCode(symbol) && |bits| >= LengthBase(symbol).extraBits
    requires extra == FromBits(bits[..LengthBase(symbol).extraBits]) && rest == bits[LengthBase(symbol).extraBits..]
    requires length == LengthBase(symbol).base + extra
    ensures length >= 3
    ensures MatchStep(root, symbol, bits, out) == DistanceStep(root, length, rest, out)
  {
    BaseBits(symbol);
  }

  /** `MatchStep` when the length's extra bits are missing. */
  lemma MatchStepShort(root: Tree, symbol: int, bits: seq<bool>, out: seq<byte>)
    requires root.Node? && IsLengthCode(symbol) && |bits| < LengthBase(symbol).extraBits
    ensures MatchStep(root, symbol, bits, out) == Stepped(Stop(Failure(TruncatedExtraBits)), bits)
  {
  }

  /** `MatchStep` in the terms of a `ReadBits` of the length's extra bits that gave `extra` and `ok`, leaving `rest`. */
  lemma MatchStepAfterRead(root: Tree, symbol: int, bits: seq<bool>, out: seq<byte>, extra: nat, ok: bool, rest: seq<bool>)
    requires root.Node? && IsLengthCode(symbol) && ReadOutcome(bits, LengthBase(symbol).extraBits, extra, ok, rest)
    ensures LengthBase(symbol).base + extra >= 1
    ensures MatchStep(root, symbol, bits, out) ==
      if ok then DistanceStep(root, LengthBase(symbol).base + extra, rest, out)
      else Stepped(Stop(Failure(TruncatedExtraBits)), bits)
  {
    if ok {
      MatchStepRead(root, symbol, bits, out, extra, rest, LengthBase(symbol).base + extra);
    } else {
      MatchStepShort(root, symbol, bits, out);
    }
  }

  /** After the length: the distance symbol, which must be one of 300..331. */
  function DistanceStep(root: Tree, length: nat, bits: seq<bool>, out: seq<byte>): (s: Stepped)
    requires root.Node? && length >= 1
    ensures s.step.Copy? ==> 1 <= s.step.distance <= |out| && s.step.length >= 1
  {
    var d := NextSymbol(root, bits);
    if !IsDistanceCode(d.symbol) then Stepped(Stop(Failure(SyncError)), d.rest)
    else CopyStep(d.symbol, length, d.rest, out)
  }

  /** After the distance symbol: its extra bits, the check of the distance, and the copy. */
  function CopyStep(distSymbol: int, length: nat, bits: seq<bool>, out: seq<byte>): (s: Stepped)
    requires length >= 1
    ensures s.step.Copy? ==> 1 <= s.step.distance <= |out| && s.step.length >= 1
  {
    var db := DistanceBase(distSymbol);
    if |bits| < db.extraBits then Stepped(Stop(Failure(TruncatedExtraBits)), bits)
    else
      var distance := db.base + FromBits(bits[..db.extraBits]);
      if distance > |out| || distance < 1 then Stepped(Stop(Failure(InvalidBackReference)), bits[db.extraBits..])
      else Stepped(Copy(distance, length), bits[db.extraBits..])
  }

  /** `CopyStep` when the distance's extra bits are missing. */
  lemma CopyStepShort(distSymbol: int, length: nat, bits: seq<bool>, out: seq<byte>)
    requires length >= 1 && |bits| < DistanceBase(distSymbol).extraBits
    ensures CopyStep(distSymbol, length, bits, out) == Stepped(Stop(Failure(TruncatedExtraBits)), bits)
  {
  }

  /** `CopyStep` once the distance's extra bits `extra` were read, leaving `rest`; `distance` is the distance they give. */
  lemma CopyStepRead(distSymbol: int, length: nat, bits: seq<bool>, out: seq<byte>, extra: nat, rest: seq<bool>, distance: nat)
    requires length >= 1 && |bits| >= DistanceBase(distSymbol).extraBits
    requires extra == FromBits(bits[..DistanceBase(distSymbol).extraBits]) && rest == bits[DistanceBase(distSymbol).extraBits..]
    requires distance == DistanceBase(distSymbol).base + extra
    ensures CopyStep(distSymbol, length, bits, out) ==
        if distance > |out| || distance < 1 then Stepped(Stop(Failure(InvalidBackReference)), rest)
        else Stepped(Copy(distance, length), rest)
  {
  }

  /** `CopyStep` in the terms of a `ReadBits` of the distance's extra bits that gave `extra` and `ok`, leaving `rest`. */
  lemma CopyStepAfterRead(distSymbol: int, length: nat, bits: seq<bool>, out: seq<byte>, extra: nat, ok: bool, rest: seq<bool>)
    requires length >= 1 && ReadOutcome(bits, DistanceBase(distSymbol).extraBits, extra, ok, rest)
    ensures CopyStep(distSymbol, length, bits, out) ==
      if !ok then Stepped(Stop(Failure(TruncatedExtraBits)), bits)
      else
        var distance := DistanceBase(distSymbol).base + extra;
        if distance > |out| || distance < 1 then Stepped(Stop(Failure(InvalidBackReference)), rest)
        else Stepped(Copy(distance, length), rest)
  {
    if ok {
      CopyStepRead(distSymbol, length, bits, out, extra, rest, DistanceBase(distSymbol).base + extra);
    } else {
      CopyStepShort(distSymbol, length, bits, out);
    }
  }

  /** One pass of the decoder loop on the bit stream `bits`. */
  function DecodeStep(root: Tree, bits: seq<bool>, out: seq<byte>): (s: Stepped)
    requires root.Node?
    ensures s.step.Copy? ==> 1 <= s.step.distance <= |out| && s.step.length >= 1
  {
    var d := NextSymbol(root, bits);
    SymbolStep(root, d.symbol, d.rest, out)
  }

  /** The decoder loop: runs while fewer than `total` bytes are out. */
  function DecodeLoop(root: Tree, bits: seq<bool>, total: nat, out: seq<byte>): Result<seq<byte>, DecodeError>
    requires root.Node?
    decreases total - |out|
  {
    if |out| >= total then Success(out)
    else
      var s := DecodeStep(root, bits, out);
      match s.step
      case Byte(b) => DecodeLoop(root, s.rest, total, out + [b])
      case Copy(distance, length) => DecodeLoop(root, s.rest, total, CopyMatch(out, distance, length))
      case Stop(result) => result
  }

  /**
   * The decoder only appends: a successful result starts with the bytes
   * decoded so far, and once `total` bytes are out it returns them as they are.
   */
  lemma {:induction false} DecodeLoopExtends(root: Tree, bits: seq<bool>, total: nat, out: seq<byte>)
    requires root.Node?
    ensures var r := DecodeLoop(root, bits, total, out);
      r.Success? ==> |out| <= |r.value| && r.value[..|out|] == out
    ensures |out| >= total ==> DecodeLoop(root, bits, total, out) == Success(out)
    decreases total - |out|
  {
    if |out| < total {
      var s := DecodeStep(root, bits, out);
      match s.step
      case Byte(b) =>
        DecodeLoopExtends(root, s.rest, total, out + [b]);
        var r := DecodeLoop(root, s.rest, total, out + [b]);
        if r.Success? {
          assert r.value[..|out|] == (r.value[..|out| + 1])[..|out|];
        }
      case Copy(distance, length) =>
        var next := CopyMatch(out, distance, length);
        DecodeLoopExtends(root, s.rest, total, next);
        var r := DecodeLoop(root, s.rest, total, next);
        if r.Success? {
          assert r.value[..|out|] == (r.value[..|next|])[..|out|];
        }
      case Stop(result) =>
        StopExtends(root, bits, out);
    }
  }

  /** A step that stops with a success returns the bytes decoded so far. */
  lemma StopExtends(root: Tree, bits: seq<bool>, out: seq<byte>)
    requires root.Node?
    ensures var s := DecodeStep(root, bits, out);
      s.step.Stop? && s.step.result.Success? ==> s.step.result.value == out
  {
  }

  /** What `HuffmanDecompress` returns for the bytes `src`. */
  function HuffmanDecode(src: seq<byte>): Result<seq<byte>, DecodeError>
  {
    if |src| < 4 then Failure(TruncatedHeader)
    else
      var total := ReadLE32(src[..4]);
      var p := Deserialize(BytesToBits(src[4..]));
      if p.tree == Nil then Failure(MalformedTree)
      else DecodeLoop(p.tree, p.rest, total, [])
  }

  /** Go's `HuffmanDecompress`. */
  method HuffmanDecompress(src: seq<byte>) returns (r: Result<seq<byte>, DecodeError>)
    ensures r == HuffmanDecode(src)
  {
    if |src| < 4 {
      return Failure(TruncatedHeader);
    }
    var total := ReadLE32(src[..4]);
    var br := new BitReader(src[4..]);
    var root := DeserializeTree(br);
    if root == Nil {
      return Failure(MalformedTree);
    }
    r := DecodeSymbols(root, br, total);
  }

  /** The decoder loop on the reader. */
  method DecodeSymbols(root: Tree, br: BitReader, total: nat) returns (r: Result<seq<byte>, DecodeError>)
    requires root.Node? && br.Valid()
    modifies br
    ensures r == DecodeLoop(root, old(br.Remaining()), total, [])
  {
    var out: seq<byte> := [];
    while |out| < total
      invariant br.Valid()
      invariant DecodeLoop(root, br.Remaining(), total, out) == DecodeLoop(root, old(br.Remaining()), total, [])
      decreases total - |out|
    {
      ghost var bits := br.Remaining();
      var symbol := DecodeNextSymbol(root, br);
      var step;
      ghost var rest;
      step, rest := ApplySymbol(root, br, symbol, out, br.Remaining());
      assert Stepped(step, rest) == DecodeStep(root, bits, out);
      match step
      case Byte(b) =>
        out := out + [b];
      case Copy(distance, length) =>
        out := CopyBack(out, distance, length);
      case Stop(result) =>
        return result;
    }
    r := Success(out);
  }

  /** `SymbolStep` on the reader. */
  method ApplySymbol(root: Tree, br: BitReader, symbol: int, out: seq<byte>, ghost bits: seq<bool>) returns (step: Step, ghost rest: seq<bool>)
    requires root.Node? && br.Valid() && br.Remaining() == bits
    modifies br
    ensures br.Valid() && br.Remaining() == rest && Stepped(step, rest) == SymbolStep(root, symbol, bits, out)
  {
    rest := bits;
    if symbol < 256 {
      step := Byte((symbol % 256) as byte);
    } else if symbol == EndOfBlock {
      step := Stop(Success(out));
    } else if 257 <= symbol <= 285 {
      step, rest := DecodeMatch(root, br, symbol, out, bits);
    } else {
      step := Stop(Failure(UnknownSymbol));
    }
  }

  /** `MatchStep` on the reader. */
  method DecodeMatch(root: Tree, br: BitReader, symbol: int, out: seq<byte>, ghost bits: seq<bool>) returns (step: Step, ghost rest: seq<bool>)
    requires root.Node? && br.Valid() && IsLengthCode(symbol) && br.Remaining() == bits
    modifies br
    ensures br.Valid() && br.Remaining() == rest && Stepped(step, rest) == MatchStep(root, symbol, bits, out)
  {
    var lb := LengthBase(symbol);
    BaseBits(symbol);
    var extraL, ok := br.ReadBits(lb.extraBits);
    ghost var mid := br.Remaining();
    MatchStepAfterRead(root, symbol, bits, out, extraL, ok, mid);
    if !ok {
      return Stop(Failure(TruncatedExtraBits)), bits;
    }
    step, rest := DecodeDistance(root, br, lb.base + extraL, out, mid);
  }

  /** `DistanceStep` on the reader. */
  method DecodeDistance(root: Tree, br: BitReader, length: nat, out: seq<byte>, ghost bits: seq<bool>) returns (step: Step, ghost rest: seq<bool>)
    requires root.Node? && br.Valid() && length >= 1 && br.Remaining() == bits
    modifies br
    ensures br.Valid() && br.Remaining() == rest && Stepped(step, rest) == DistanceStep(root, length, bits, out)
  {
    var distSymbol := DecodeNextSymbol(root, br);
    ghost var mid := br.Remaining();
    assert NextSymbol(root, bits) == Decoded(distSymbol, mid);
    if distSymbol < 300 || distSymbol > 331 {
      return Stop(Failure(SyncError)), mid;
    }
    step, rest := DecodeCopy(br, distSymbol, length, out, mid);
  }

  /** `CopyStep` on the reader. */
  method DecodeCopy(br: BitReader, distSymbol: int, length: nat, out: seq<byte>, ghost bits: seq<bool>) returns (step: Step, ghost rest: seq<bool>)
    requires br.Valid() && length >= 1 && br.Remaining() == bits
    modifies br
    ensures br.Valid() && br.Remaining() == rest && Stepped(step, rest) == CopyStep(distSymbol, length, bits, out)
  {
    var db := DistanceBase(distSymbol);
    BaseBits(distSymbol);
    var extraD, ok := br.ReadBits(db.extraBits);
    rest := br.Remaining();
    CopyStepAfterRead(distSymbol, length, bits, out, extraD, ok, rest);
    if !ok {
      return Stop(Failure(TruncatedExtraBits)), bits;
    }
    var distance := db.base + extraD;
    if distance > |out| || distance < 1 {
      return Stop(Failure(InvalidBackReference)), rest;
    }
    step := Copy(distance, length);
  }

  /** Go's copy loop: appends `length` bytes, each read `distance` back from the end. */
  method CopyBack(out: seq<byte>, distance: nat, length: nat) returns (r: seq<byte>)
    requires 1 <= distance <= |out|
    ensures r == CopyMatch(out, distance, length)
  {
    r := out;
    var k := 0;
    while k < length
      invariant k <= length && distance <= |r|
      invariant CopyMatch(r, distance, length - k) == CopyMatch(out, distance, length)
    {
      r := r + [r[|r| - distance]];
      k := k + 1;
    }
  }

  // ---------------------------------------------------------------------
  // Round trip
  // ---------------------------------------------------------------------

  /** `Expand` only appends to what was decoded before. */
  lemma {:induction false} ExpandGrows(ts: seq<Symbol>, out: seq<byte>)
    requires Expand(ts, out).Some?
    ensures |Expand(ts, out).value| >= |out| && Expand(ts, out).value[..|out|] == out
    decreases |ts|
  {
    if ts != [] && ts[0].code != EndOfBlock {
      var res := Expand(ts, out).value;
      if 0 <= ts[0].code < EndOfBlock {
        var out' := out + [ts[0].code as byte];
        ExpandGrows(ts[1..], out');
        assert res[..|out|] == res[..|out'|][..|out|];
      } else {
        var out' := CopyMatch(out, TokenDistance(ts[1]), TokenLength(ts[0]));
        ExpandGrows(ts[2..], out');
        assert res[..|out|] == res[..|out'|][..|out|];
      }
    }
  }

  /** A suffix of a covered token stream is covered. */
  lemma CoveredSuffix(ts: seq<Symbol>, codes: map<int, seq<bool>>, k: nat)
    requires Covered(ts, codes) && k <= |ts|
    ensures Covered(ts[k..], codes)
  {
    forall i | 0 <= i < |ts[k..]| ensures ts[k..][i].code in codes {
      assert ts[k..][i] == ts[k + i];
    }
  }

  /** The payload of a stream is its first token's bits, then the payload of the rest. */
  lemma PayloadCons(ts: seq<Symbol>, codes: map<int, seq<bool>>, pad: seq<bool>)
    requires ts != []
    ensures Payload(ts, codes) + pad == TokenBits(ts[0], codes) + (Payload(ts[1..], codes) + pad)
  {
    ConcatAssoc(TokenBits(ts[0], codes), Payload(ts[1..], codes), pad);
  }

  /** Extra bits written for a token read back as its extra value. */
  lemma ExtraBits(t: Symbol, rest: seq<bool>)
    requires t.extraVal < Pow2(t.extraBits)
    ensures var bits := ToBits(t.extraVal, t.extraBits) + rest;
      |bits| >= t.extraBits && FromBits(bits[..t.extraBits]) == t.extraVal && bits[t.extraBits..] == rest
  {
    var bits := ToBits(t.extraVal, t.extraBits) + rest;
    assert bits[..t.extraBits] == ToBits(t.extraVal, t.extraBits);
    FromToBits(t.extraVal, t.extraBits);
    DivModUnique(t.extraVal, Pow2(t.extraBits), 0, t.extraVal);
  }

  /** A token's code decodes to the token's code symbol and leaves its extra bits unread. */
  lemma TokenCode(root: Tree, t: Symbol, rest: seq<bool>)
    requires t.code in Codes(root)
    ensures root.Node? && NextSymbol(root, TokenBits(t, Codes(root)) + rest) == Decoded(t.code, ToBits(t.extraVal, t.extraBits) + rest)
  {
    ConcatAssoc(Codes(root)[t.code], ToBits(t.extraVal, t.extraBits), rest);
    DecodeCode(root, t.code, ToBits(t.extraVal, t.extraBits) + rest);
  }

  /** A literal token's bits decode to its byte. */
  lemma LiteralRoundTrip(root: Tree, t: Symbol, rest: seq<bool>, out: seq<byte>)
    requires root.Node? && 0 <= t.code < EndOfBlock && t == Literal(t.code as byte) && t.code in Codes(root)
    ensures DecodeStep(root, TokenBits(t, Codes(root)) + rest, out) == Stepped(Byte(t.code as byte), rest)
  {
    TokenCode(root, t, rest);
    assert ToBits(t.extraVal, t.extraBits) + rest == rest;
  }

  /** A distance token's extra bits, after its code, give the copy of the match. */
  lemma CopyRoundTrip(dt: Symbol, length: nat, rest: seq<bool>, out: seq<byte>)
    requires length >= 1 && ValidDistance(dt) && 1 <= TokenDistance(dt) <= |out|
    ensures CopyStep(dt.code, length, ToBits(dt.extraVal, dt.extraBits) + rest, out)
      == Stepped(Copy(TokenDistance(dt), length), rest)
  {
    ExtraBits(dt, rest);
    CopyStepRead(dt.code, length, ToBits(dt.extraVal, dt.extraBits) + rest, out, dt.extraVal, rest, TokenDistance(dt));
  }

  /** A distance token's bits, after a length, decode to the copy of the match. */
  lemma DistanceRoundTrip(root: Tree, length: nat, dt: Symbol, rest: seq<bool>, out: seq<byte>)
    requires root.Node? && length >= 1 && ValidDistance(dt) && dt.code in Codes(root)
    requires 1 <= TokenDistance(dt) <= |out|
    ensures DistanceStep(root, length, TokenBits(dt, Codes(root)) + rest, out)
      == Stepped(Copy(TokenDistance(dt), length), rest)
  {
    TokenCode(root, dt, rest);
    CopyRoundTrip(dt, length, rest, out);
  }

  /** A length token's extra bits, after its code, and then the distance token's bits give the copy of the match. */
  lemma LengthRoundTrip(root: Tree, lt: Symbol, dt: Symbol, rest: seq<bool>, out: seq<byte>)
    requires root.Node? && ValidLength(lt) && ValidDistance(dt) && dt.code in Codes(root)
    requires 1 <= TokenDistance(dt) <= |out|
    ensures var after := TokenBits(dt, Codes(root)) + rest;
      MatchStep(root, lt.code, ToBits(lt.extraVal, lt.extraBits) + after, out)
        == Stepped(Copy(TokenDistance(dt), TokenLength(lt)), rest)
  {
    var after := TokenBits(dt, Codes(root)) + rest;
    ExtraBits(lt, after);
    MatchStepRead(root, lt.code, ToBits(lt.extraVal, lt.extraBits) + after, out, lt.extraVal, after, TokenLength(lt));
    DistanceRoundTrip(root, TokenLength(lt), dt, rest, out);
  }

  /** A length token's bits and its distance token's bits decode to the copy of the match. */
  lemma MatchRoundTrip(root: Tree, lt: Symbol, dt: Symbol, rest: seq<bool>, out: seq<byte>)
    requires root.Node? && ValidLength(lt) && ValidDistance(dt) && lt.code in Codes(root) && dt.code in Codes(root)
    requires 1 <= TokenDistance(dt) <= |out|
    ensures DecodeStep(root, TokenBits(lt, Codes(root)) + (TokenBits(dt, Codes(root)) + rest), out)
      == Stepped(Copy(TokenDistance(dt), TokenLength(lt)), rest)
  {
    TokenCode(root, lt, TokenBits(dt, Codes(root)) + rest);
    LengthRoundTrip(root, lt, dt, rest, out);
  }

  /**
   * Decoding the payload of a well-formed token stream, whatever bits follow
   * it, gives what `Expand` gives when the byte count is the result's length.
   */
  lemma {:induction false} DecodeTokens(root: Tree, ts: seq<Symbol>, out: seq<byte>, pad: seq<bool>)
    requires root.Node? && WellFormed(ts) && Covered(ts, Codes(root)) && Expand(ts, out).Some?
    ensures var res := Expand(ts, out).value;
      DecodeLoop(root, Payload(ts, Codes(root)) + pad, |res|, out) == Success(res)
    decreases |ts|
  {
    var codes := Codes(root);
    var res := Expand(ts, out).value;
    ExpandGrows(ts, out);
    if |out| >= |res| {
      assert res == res[..|out|];
    } else if 0 <= ts[0].code < EndOfBlock {
      var out' := out + [ts[0].code as byte];
      CoveredSuffix(ts, codes, 1);
      PayloadCons(ts, codes, pad);
      LiteralRoundTrip(root, ts[0], Payload(ts[1..], codes) + pad, out);
      DecodeTokens(root, ts[1..], out', pad);
    } else if ts[0].code == EndOfBlock {
      assert false;
    } else {
      DecodeMatchTokens(root, ts, out, pad);
    }
  }

  /** The match case of `DecodeTokens`, given the claim for the tokens after the match. */
  lemma {:induction false} DecodeMatchTokens(root: Tree, ts: seq<Symbol>, out: seq<byte>, pad: seq<bool>)
    requires root.Node? && WellFormed(ts) && Covered(ts, Codes(root)) && Expand(ts, out).Some?
    requires |out| < |Expand(ts, out).value| && !(0 <= ts[0].code <= EndOfBlock)
    ensures var res := Expand(ts, out).value;
      DecodeLoop(root, Payload(ts, Codes(root)) + pad, |res|, out) == Success(res)
    decreases |ts|, 0
  {
    var codes := Codes(root);
    var res := Expand(ts, out).value;
    var out' := CopyMatch(out, TokenDistance(ts[1]), TokenLength(ts[0]));
    assert Expand(ts, out) == Expand(ts[2..], out');
    CoveredSuffix(ts, codes, 2);
    PayloadCons(ts, codes, pad);
    PayloadCons(ts[1..], codes, pad);
    assert ts[1..][1..] == ts[2..];
    MatchRoundTrip(root, ts[0], ts[1], Payload(ts[2..], codes) + pad, out);
    DecodeTokens(root, ts[2..], out', pad);
  }

  /** `HuffmanDecode` once the length field and the tree have been read. */
  lemma HuffmanDecodeParsed(src: seq<byte>, total: nat, t: Tree, rest: seq<bool>)
    requires |src| >= 4 && ReadLE32(src[..4]) == total && t.Node?
    requires Deserialize(BytesToBits(src[4..])) == Parsed(t, rest)
    ensures HuffmanDecode(src) == DecodeLoop(t, rest, total, [])
  {
  }

  /** What `HuffmanCompress` writes, `HuffmanDecompress` reads back as the original bytes. */
  lemma HuffmanRoundTrip(data: seq<byte>, minMatch: nat, output: seq<byte>)
    requires minMatch >= DefaultMinMatch && |data| < TwoTo32
    requires |output| >= 4 && output[..4] == LE32(|data|) && Padded(output[4..], Encoded(data, minMatch))
    ensures HuffmanDecode(output) == Success(data)
  {
    var ts := Tokens(data, minMatch);
    TokensWellFormed(data, minMatch);
    TreeForTokens(ts);
    var root := TreeFor(ts);
    var payload := Payload(ts, Codes(root));
    assert Encoded(data, minMatch) == Serialize(root) + payload;
    var pad := Zeros(8 * |output[4..]| - |Serialize(root) + payload|);
    assert BytesToBits(output[4..]) == Serialize(root) + (payload + pad) by {
      ConcatAssoc(Serialize(root), payload, pad);
    }
    LE32RoundTrip(|data|);
    DivModUnique(|data|, TwoTo32, 0, |data|);
    assert ReadLE32(output[..4]) == |data|;
    DeserializeSerialize(root, payload + pad);
    ShapeCodes(root, [], map[]);
    ExpandTokens(data, minMatch);
    DecodeTokens(Shape(root), ts, [], pad);
    HuffmanDecodeParsed(output, |data|, Shape(root), payload + pad);
  }
}
