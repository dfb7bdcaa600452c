/**
 * The LZ77 tokenizer: a brute-force search of the last 32768 bytes for the
 * longest earlier copy of the bytes ahead (at most 258 of them), emitting a
 * literal token per unmatched byte and a length token followed by a distance
 * token per match, and an end-of-block token at the end.  Also the expansion
 * that undoes it, with its byte-by-byte (possibly overlapping) copy.
 */
module LZ77 {
  import opened Common
  import opened Bits
  import opened LZ77Codes

  /** Go's `windowSize`: how far back a match may start. */
  const WindowSize: nat := 32768
  /** Go's `maxMatch`: the longest match. */
  const MaxMatch: nat := 258
  /** Go's `minMatch`: the shortest match worth a length/distance pair. */
  const DefaultMinMatch: nat := 3

  /** The best match found at one position: `length == 0` when there is none. */
  datatype Match = Match(length: nat, distance: nat)

  /** The end-of-block token. */
  const EndToken: Symbol := Symbol(EndOfBlock, 0, 0)

  /** The token for one unmatched byte. */
  function Literal(b: byte): Symbol
  {
    Symbol(b, 0, 0)
  }

  /** The first candidate start of a match for the bytes at `i`. */
  function SearchStart(i: nat): nat
  {
    if i >= WindowSize then i - WindowSize else 0
  }

  /**
   * Go's innermost loop: how far the bytes at `j` and at `i` agree, counting
   * on from `k`, stopping at `MaxMatch` or at the end of the input.
   */
  function MatchLength(data: seq<byte>, i: nat, j: nat, k: nat): (n: nat)
    requires j < i && i + k <= |data| && k <= MaxMatch
    ensures k <= n <= MaxMatch && i + n <= |data|
    decreases MaxMatch - k
  {
    if k < MaxMatch && i + k < |data| && data[j + k] == data[i + k] then MatchLength(data, i, j, k + 1) else k
  }

  /**
   * `MatchLength` is the length of the longest common run: the bytes at `j`
   * and `i` agree up to it, and it stops at `MaxMatch`, at the end of the
   * input or at the first disagreement.
   */
  lemma {:induction false} MatchLengthAgrees(data: seq<byte>, i: nat, j: nat, k: nat)
    requires j < i && i + k <= |data| && k <= MaxMatch
    ensures var n := MatchLength(data, i, j, k);
      && data[j + k..j + n] == data[i + k..i + n]
      && (n == MaxMatch || i + n == |data| || data[j + n] != data[i + n])
    decreases MaxMatch - k
  {
    if k < MaxMatch && i + k < |data| && data[j + k] == data[i + k] {
      var n := MatchLength(data, i, j, k + 1);
      MatchLengthAgrees(data, i, j, k + 1);
      assert data[j + k..j + n] == [data[j + k]] + data[j + k + 1..j + n];
      assert data[i + k..i + n] == [data[i + k]] + data[i + k + 1..i + n];
    }
  }

  /**
   * Go's `for j` loop: scans the candidates `j .. i-1` in order and replaces
   * the best match so far only by a strictly longer one.
   */
  function BestMatch(data: seq<byte>, i: nat, j: nat, best: Match): Match
    requires j <= i < |data|
    decreases i - j
  {
    if j == i then best
    else
      var n := MatchLength(data, i, j, 0);
      BestMatch(data, i, j + 1, if n > best.length then Match(n, i - j) else best)
  }

  /** The match the compressor takes at `i`. */
  function MatchAt(data: seq<byte>, i: nat): Match
    requires i < |data|
  {
    BestMatch(data, i, SearchStart(i), Match(0, 0))
  }

  /** No candidate in `lo .. j-1` matches more than `bound` bytes. */
  ghost predicate AllAtMost(data: seq<byte>, i: nat, lo: nat, j: nat, bound: int)
    requires lo <= j <= i < |data|
    decreases j - lo
  {
    lo == j || (AllAtMost(data, i, lo, j - 1, bound) && MatchLength(data, i, j - 1, 0) <= bound)
  }

  lemma {:induction false} AtMostWeaken(data: seq<byte>, i: nat, lo: nat, j: nat, bound: int, bound': int)
    requires lo <= j <= i < |data| && AllAtMost(data, i, lo, j, bound) && bound <= bound'
    ensures AllAtMost(data, i, lo, j, bound')
    decreases j - lo
  {
    if lo < j {
      AtMostWeaken(data, i, lo, j - 1, bound, bound');
    }
  }

  lemma AtMostExtend(data: seq<byte>, i: nat, lo: nat, j: nat, bound: int)
    requires lo <= j < i < |data| && AllAtMost(data, i, lo, j, bound) && MatchLength(data, i, j, 0) <= bound
    ensures AllAtMost(data, i, lo, j + 1, bound)
  {
  }

  /** `AllAtMost` is the bound on every candidate. */
  lemma {:induction false} AtMostMeans(data: seq<byte>, i: nat, lo: nat, j: nat, bound: int)
    requires lo <= j <= i < |data| && AllAtMost(data, i, lo, j, bound)
    ensures forall c :: lo <= c < j ==> MatchLength(data, i, c, 0) <= bound
    decreases j - lo
  {
    if lo < j {
      AtMostMeans(data, i, lo, j - 1, bound);
    }
  }

  /** `best` is the first longest match among the candidates `lo .. j-1`. */
  ghost predicate FirstLongest(data: seq<byte>, i: nat, lo: nat, j: nat, best: Match)
    requires lo <= j <= i < |data|
  {
    && AllAtMost(data, i, lo, j, best.length)
    && (best.length == 0 ==> best.distance == 0)
    && (best.length > 0 ==>
          && lo <= i - best.distance < j && best.distance <= i
          && MatchLength(data, i, i - best.distance, 0) == best.length
          && AllAtMost(data, i, lo, i - best.distance, best.length - 1))
  }

  /** Scanning the remaining candidates keeps `FirstLongest`. */
  lemma {:induction false} BestMatchFirstLongest(data: seq<byte>, i: nat, lo: nat, j: nat, best: Match)
    requires lo <= j <= i < |data| && FirstLongest(data, i, lo, j, best)
    ensures FirstLongest(data, i, lo, i, BestMatch(data, i, j, best))
    decreases i - j
  {
    if j < i {
      var n := MatchLength(data, i, j, 0);
      var next := if n > best.length then Match(n, i - j) else best;
      FirstLongestStep(data, i, lo, j, best);
      BestMatchFirstLongest(data, i, lo, j + 1, next);
    }
  }

  /** Looking at candidate `j` keeps `FirstLongest`. */
  lemma FirstLongestStep(data: seq<byte>, i: nat, lo: nat, j: nat, best: Match)
    requires lo <= j < i < |data| && FirstLongest(data, i, lo, j, best)
    ensures var n := MatchLength(data, i, j, 0);
      FirstLongest(data, i, lo, j + 1, if n > best.length then Match(n, i - j) else best)
  {
    var n := MatchLength(data, i, j, 0);
    if n > best.length {
      FirstLongestTake(data, i, lo, j, best, n);
    } else {
      AtMostExtend(data, i, lo, j, best.length);
    }
  }

  /** A candidate longer than all before it becomes the first longest. */
  lemma FirstLongestTake(data: seq<byte>, i: nat, lo: nat, j: nat, best: Match, n: nat)
    requires lo <= j < i < |data| && AllAtMost(data, i, lo, j, best.length)
    requires n == MatchLength(data, i, j, 0) && n > best.length
    ensures FirstLongest(data, i, lo, j + 1, Match(n, i - j))
  {
    AtMostWeaken(data, i, lo, j, best.length, n);
    AtMostExtend(data, i, lo, j, n);
    AtMostWeaken(data, i, lo, j, best.length, n - 1);
    assert i - (i - j) == j;
  }

  /**
   * The match taken at `i` is the longest in the window, the first (farthest)
   * of the longest ones, and lies within the window and the bytes seen so far.
   */
  lemma MatchAtIsFirstLongest(data: seq<byte>, i: nat)
    requires i < |data|
    ensures var m := MatchAt(data, i);
      && m.length <= MaxMatch && i + m.length <= |data|
      && (forall c :: SearchStart(i) <= c < i ==> MatchLength(data, i, c, 0) <= m.length)
      && (m.length == 0 ==> m.distance == 0)
      && (m.length > 0 ==>
            && 1 <= m.distance <= WindowSize && m.distance <= i
            && MatchLength(data, i, i - m.distance, 0) == m.length
            && forall c :: SearchStart(i) <= c < i - m.distance ==> MatchLength(data, i, c, 0) < m.length)
  {
    var m := MatchAt(data, i);
    BestMatchFirstLongest(data, i, SearchStart(i), SearchStart(i), Match(0, 0));
    AtMostMeans(data, i, SearchStart(i), i, m.length);
    if m.length > 0 {
      AtMostMeans(data, i, SearchStart(i), i - m.distance, m.length - 1);
    }
  }

  /** What the rest of the model needs of the match taken at `i`: it fits the window, the input and the bytes seen. */
  lemma MatchAtBounds(data: seq<byte>, i: nat)
    requires i < |data|
    ensures var m := MatchAt(data, i);
      && m.length <= MaxMatch && i + m.length <= |data|
      && (m.length > 0 ==>
            1 <= m.distance <= WindowSize && m.distance <= i && MatchLength(data, i, i - m.distance, 0) == m.length)
  {
    BestMatchFirstLongest(data, i, SearchStart(i), SearchStart(i), Match(0, 0));
  }

  /** The tokens for the bytes from `i` on, without the end-of-block token. */
  function TokensFrom(data: seq<byte>, i: nat, minMatch: nat): seq<Symbol>
    requires i <= |data| && minMatch >= DefaultMinMatch
    decreases |data| - i
  {
    if i == |data| then []
    else
      var m := MatchAt(data, i);
      MatchAtBounds(data, i);
      if m.length >= minMatch then [LengthData(m.length), DistanceData(m.distance)] + TokensFrom(data, i + m.length, minMatch)
      else [Literal(data[i])] + TokensFrom(data, i + 1, minMatch)
  }

  /** What `LZ77Compress` returns. */
  function Tokens(data: seq<byte>, minMatch: nat): seq<Symbol>
    requires minMatch >= DefaultMinMatch
  {
    TokensFrom(data, 0, minMatch) + [EndToken]
  }

  /**
   * Go's `LZ77Compress`, with the minimum match length as a parameter
   * (3 in the source).
   */
  method LZ77Compress(data: seq<byte>, minMatch: nat) returns (symbols: seq<Symbol>)
    requires minMatch >= DefaultMinMatch
    ensures symbols == Tokens(data, minMatch)
  {
    symbols := [];
    var i: nat := 0;
    while i < |data|
      invariant i <= |data|
      invariant symbols + TokensFrom(data, i, minMatch) == TokensFrom(data, 0, minMatch)
      decreases |data| - i
    {
      var m := FindMatch(data, i);
      if m.length >= minMatch {
        ConcatAssoc(symbols, [LengthData(m.length), DistanceData(m.distance)], TokensFrom(data, i + m.length, minMatch));
        symbols := symbols + [LengthData(m.length), DistanceData(m.distance)];
        i := i + m.length;
      } else {
        ConcatAssoc(symbols, [Literal(data[i])], TokensFrom(data, i + 1, minMatch));
        symbols := symbols + [Literal(data[i])];
        i := i + 1;
      }
    }
    symbols := symbols + [EndToken];
  }

  /** The body of Go's `for i` loop up to the choice of token: the search for the best match at `i`. */
  method FindMatch(data: seq<byte>, i: nat) returns (m: Match)
    requires i < |data|
    ensures m == MatchAt(data, i)
  {
    m := Match(0, 0);
    var start := SearchStart(i);
    var j := start;
    while j < i
      invariant start <= j <= i
      invariant BestMatch(data, i, j, m) == MatchAt(data, i)
      decreases i - j
    {
      var n := CountMatch(data, i, j);
      if n > m.length {
        m := Match(n, i - j);
      }
      j := j + 1;
    }
  }

  /** Go's `for currMatchLen` loop. */
  method CountMatch(data: seq<byte>, i: nat, j: nat) returns (n: nat)
    requires j < i < |data|
    ensures n == MatchLength(data, i, j, 0)
  {
    n := 0;
    while n < MaxMatch && i + n < |data| && data[j + n] == data[i + n]
      invariant n <= MaxMatch && i + n <= |data|
      invariant MatchLength(data, i, j, n) == MatchLength(data, i, j, 0)
      decreases MaxMatch - n
    {
      n := n + 1;
    }
  }

  /**
   * huffman.go's copy loop: appends `length` bytes, each the byte `distance`
   * back from the end of what has been produced so far, so a copy may read
   * bytes it has itself just written.
   */
  function CopyMatch(out: seq<byte>, distance: nat, length: nat): (r: seq<byte>)
    requires 1 <= distance <= |out|
    ensures |r| == |out| + length && r[..|out|] == out
    decreases length
  {
    if length == 0 then out
    else
      var r := CopyMatch(out + [out[|out| - distance]], distance, length - 1);
      assert r[..|out| + 1][..|out|] == out;
      r
  }

  /** Every copied byte equals the byte `distance` before it, which may itself be a copied one. */
  lemma {:induction false} CopyMatchRepeats(out: seq<byte>, distance: nat, length: nat, t: nat)
    requires 1 <= distance <= |out| && |out| <= t < |out| + length
    ensures var r := CopyMatch(out, distance, length); r[t] == r[t - distance]
    decreases length
  {
    var out' := out + [out[|out| - distance]];
    var r := CopyMatch(out, distance, length);
    assert r == CopyMatch(out', distance, length - 1);
    if t == |out| {
      assert r[..|out'|] == out';
    } else {
      CopyMatchRepeats(out', distance, length - 1, t);
    }
  }

  /** Copying a match found by the tokenizer reproduces the matched bytes. */
  lemma {:induction false} CopyMatchReproduces(data: seq<byte>, i: nat, distance: nat, length: nat)
    requires 1 <= distance <= i && i + length <= |data|
    requires data[i - distance..i - distance + length] == data[i..i + length]
    ensures CopyMatch(data[..i], distance, length) == data[..i + length]
    decreases length
  {
    if length > 0 {
      var j := i - distance;
      assert data[j] == data[j..j + length][0] == data[i..i + length][0] == data[i];
      assert data[..i] + [data[..i][j]] == data[..i + 1];
      assert data[j + 1..j + length] == data[j..j + length][1..];
      assert data[i + 1..i + length] == data[i..i + length][1..];
      CopyMatchReproduces(data, i + 1, distance, length - 1);
    }
  }

  /** Lengths are the length codes 257..285. */
  predicate IsLengthCode(code: int)
  {
    257 <= code <= 285
  }

  /** Distances are the distance codes 300..329; the decoder also lets 330 and 331 through to the table. */
  predicate IsDistanceCode(code: int)
  {
    DistanceOffset <= code <= DistanceOffset + 31
  }

  /** The length a length token stands for. */
  function TokenLength(t: Symbol): nat
  {
    LengthBase(t.code).base + t.extraVal
  }

  /** The distance a distance token stands for. */
  function TokenDistance(t: Symbol): nat
  {
    DistanceBase(t.code).base + t.extraVal
  }

  /**
   * The token-level decoder: literals are appended, a length token and the
   * distance token after it copy bytes from the output, the end-of-block
   * token stops.  `None` for a token stream the decoder rejects.
   */
  function Expand(tokens: seq<Symbol>, out: seq<byte>): Option<seq<byte>>
    decreases |tokens|
  {
    if tokens == [] then Some(out)
    else
      var t := tokens[0];
      if 0 <= t.code < EndOfBlock then Expand(tokens[1..], out + [t.code as byte])
      else if t.code == EndOfBlock then Some(out)
      else if IsLengthCode(t.code) && |tokens| >= 2 && IsDistanceCode(tokens[1].code)
              && 1 <= TokenDistance(tokens[1]) <= |out| then
        Expand(tokens[2..], CopyMatch(out, TokenDistance(tokens[1]), TokenLength(t)))
      else None
  }

  /** A length token as the encoder writes it: a code, and an extra value that fits its extra bits. */
  predicate ValidLength(t: Symbol)
  {
    IsLengthCode(t.code) && t.extraBits == LengthBase(t.code).extraBits && t.extraVal < Pow2(t.extraBits)
  }

  /** A distance token as the encoder writes it. */
  predicate ValidDistance(t: Symbol)
  {
    DistanceOffset <= t.code <= DistanceOffset + 29 && t.extraBits == DistanceBase(t.code).extraBits
    && t.extraVal < Pow2(t.extraBits)
  }

  /**
   * The shape of the tokenizer's output: literals (a byte value, no extra
   * bits) and length tokens each directly followed by a distance token, then
   * exactly one end-of-block token, last.
   */
  predicate WellFormed(tokens: seq<Symbol>)
    decreases |tokens|
  {
    if |tokens| == 0 then false
    else if |tokens| == 1 then tokens[0] == EndToken
    else if 0 <= tokens[0].code < EndOfBlock then tokens[0] == Literal(tokens[0].code as byte) && WellFormed(tokens[1..])
    else ValidLength(tokens[0]) && ValidDistance(tokens[1]) && WellFormed(tokens[2..])
  }

  /** A well-formed token stream holds the end-of-block code only in its last token. */
  lemma {:induction false} WellFormedEnd(tokens: seq<Symbol>)
    requires WellFormed(tokens)
    ensures tokens[|tokens| - 1] == EndToken
    ensures forall k :: 0 <= k < |tokens| - 1 ==> tokens[k].code != EndOfBlock
    decreases |tokens|
  {
    if |tokens| > 1 {
      var skip := if 0 <= tokens[0].code < EndOfBlock then 1 else 2;
      WellFormedEnd(tokens[skip..]);
      assert forall k :: skip <= k < |tokens| - 1 ==> tokens[k] == tokens[skip..][k - skip];
    }
  }

  /** A length and a distance token in front of a well-formed stream keep it well formed. */
  lemma WellFormedMatch(lt: Symbol, dt: Symbol, rest: seq<Symbol>)
    requires ValidLength(lt) && ValidDistance(dt) && WellFormed(rest)
    ensures WellFormed([lt, dt] + rest)
  {
    assert ([lt, dt] + rest)[2..] == rest;
  }

  /** A literal in front of a well-formed stream keeps it well formed. */
  lemma WellFormedLiteral(b: byte, rest: seq<Symbol>)
    requires WellFormed(rest)
    ensures WellFormed([Literal(b)] + rest)
  {
    assert ([Literal(b)] + rest)[1..] == rest;
  }

  /** The tokens for a match are a valid length token and a valid distance token. */
  lemma MatchTokensValid(length: nat, distance: nat)
    requires 3 <= length <= MaxMatch && 1 <= distance <= WindowSize
    ensures ValidLength(LengthData(length)) && ValidDistance(DistanceData(distance))
    ensures TokenLength(LengthData(length)) == length && TokenDistance(DistanceData(distance)) == distance
  {
    LengthTable(length);
    DistanceTable(distance);
  }

  /** The tokens from position `i` on are well formed once the end token is added. */
  lemma {:induction false} TokensFromWellFormed(data: seq<byte>, i: nat, minMatch: nat)
    requires i <= |data| && minMatch >= DefaultMinMatch
    ensures WellFormed(TokensFrom(data, i, minMatch) + [EndToken])
    decreases |data| - i, 1
  {
    if i < |data| {
      if MatchAt(data, i).length >= minMatch {
        WellFormedMatchAt(data, i, minMatch);
      } else {
        WellFormedLiteralAt(data, i, minMatch);
      }
    }
  }

  /** The match case of `TokensFromWellFormed`: the match's two tokens, then the well-formed tokens after it. */
  lemma {:induction false} WellFormedMatchAt(data: seq<byte>, i: nat, minMatch: nat)
    requires i < |data| && minMatch >= DefaultMinMatch && MatchAt(data, i).length >= minMatch
    ensures WellFormed(TokensFrom(data, i, minMatch) + [EndToken])
    decreases |data| - i, 0
  {
    var m := MatchAt(data, i);
    MatchAtBounds(data, i);
    TokensFromWellFormed(data, i + m.length, minMatch);
    MatchTokensValid(m.length, m.distance);
    var rest := TokensFromMatch(data, i, minMatch);
    WellFormedMatch(LengthData(m.length), DistanceData(m.distance), rest);
  }

  /** The literal case of `TokensFromWellFormed`: the literal's token, then the well-formed tokens after it. */
  lemma {:induction false} WellFormedLiteralAt(data: seq<byte>, i: nat, minMatch: nat)
    requires i < |data| && minMatch >= DefaultMinMatch && MatchAt(data, i).length < minMatch
    ensures WellFormed(TokensFrom(data, i, minMatch) + [EndToken])
    decreases |data| - i, 0
  {
    TokensFromWellFormed(data, i + 1, minMatch);
    var rest := TokensFromLiteral(data, i, minMatch);
    WellFormedLiteral(data[i], rest);
  }

  /**
   * The tokenizer's output is well formed: in particular it ends with exactly
   * one end-of-block token, and for empty input it is that token alone.
   */
  lemma TokensWellFormed(data: seq<byte>, minMatch: nat)
    requires minMatch >= DefaultMinMatch
    ensures WellFormed(Tokens(data, minMatch))
    ensures data == [] ==> Tokens(data, minMatch) == [EndToken]
    ensures Tokens(data, minMatch)[|Tokens(data, minMatch)| - 1] == EndToken
    ensures forall k :: 0 <= k < |Tokens(data, minMatch)| - 1 ==> Tokens(data, minMatch)[k].code != EndOfBlock
  {
    TokensFromWellFormed(data, 0, minMatch);
    WellFormedEnd(Tokens(data, minMatch));
  }

  /** Expanding a literal token appends its byte. */
  lemma ExpandLiteral(b: byte, rest: seq<Symbol>, out: seq<byte>)
    ensures Expand([Literal(b)] + rest, out) == Expand(rest, out + [b])
  {
    assert ([Literal(b)] + rest)[1..] == rest;
  }

  /** Expanding a length token and a distance token copies the match. */
  lemma ExpandCopy(lt: Symbol, dt: Symbol, rest: seq<Symbol>, out: seq<byte>)
    requires IsLengthCode(lt.code) && IsDistanceCode(dt.code) && 1 <= TokenDistance(dt) <= |out|
    ensures Expand([lt, dt] + rest, out) == Expand(rest, CopyMatch(out, TokenDistance(dt), TokenLength(lt)))
  {
    assert ([lt, dt] + rest)[2..] == rest;
  }

  /** One step of the round trip: the tokens for the match or byte at `i` turn `data[..i]` into the next prefix. */
  lemma ExpandStep(data: seq<byte>, i: nat, minMatch: nat) returns (next: nat)
    requires i < |data| && minMatch >= DefaultMinMatch
    ensures i < next <= |data|
    ensures Expand(TokensFrom(data, i, minMatch) + [EndToken], data[..i])
         == Expand(TokensFrom(data, next, minMatch) + [EndToken], data[..next])
  {
    var m := MatchAt(data, i);
    if m.length >= minMatch {
      next := i + m.length;
      ExpandMatchStep(data, i, minMatch);
    } else {
      next := i + 1;
      ExpandLiteralStep(data, i, minMatch);
    }
  }

  /** The literal case of `ExpandStep`. */
  lemma ExpandLiteralStep(data: seq<byte>, i: nat, minMatch: nat)
    requires i < |data| && minMatch >= DefaultMinMatch && MatchAt(data, i).length < minMatch
    ensures Expand(TokensFrom(data, i, minMatch) + [EndToken], data[..i])
         == Expand(TokensFrom(data, i + 1, minMatch) + [EndToken], data[..i + 1])
  {
    var rest := TokensFromLiteral(data, i, minMatch);
    ExpandLiteral(data[i], rest, data[..i]);
    assert data[..i] + [data[i]] == data[..i + 1];
  }

  /** The match case of `ExpandStep`. */
  lemma ExpandMatchStep(data: seq<byte>, i: nat, minMatch: nat)
    requires i < |data| && minMatch >= DefaultMinMatch && MatchAt(data, i).length >= minMatch
    ensures var next := i + MatchAt(data, i).length;
      && next <= |data|
      && Expand(TokensFrom(data, i, minMatch) + [EndToken], data[..i])
         == Expand(TokensFrom(data, next, minMatch) + [EndToken], data[..next])
  {
    var m := MatchAt(data, i);
    MatchAtBounds(data, i);
    var rest := TokensFromMatch(data, i, minMatch);
    ExpandMatch(m.length, m.distance, rest, data[..i]);
    MatchCopies(data, i);
  }

  /** The tokens from `i` on, when a match is taken at `i`: its two tokens, then the tokens after it. */
  lemma TokensFromMatch(data: seq<byte>, i: nat, minMatch: nat) returns (rest: seq<Symbol>)
    requires i < |data| && minMatch >= DefaultMinMatch && MatchAt(data, i).length >= minMatch
    ensures var m := MatchAt(data, i);
      && i + m.length <= |data|
      && rest == TokensFrom(data, i + m.length, minMatch) + [EndToken]
      && TokensFrom(data, i, minMatch) + [EndToken] == [LengthData(m.length), DistanceData(m.distance)] + rest
  {
    var m := MatchAt(data, i);
    MatchAtBounds(data, i);
    rest := TokensFrom(data, i + m.length, minMatch) + [EndToken];
    ConcatAssoc([LengthData(m.length), DistanceData(m.distance)], TokensFrom(data, i + m.length, minMatch), [EndToken]);
  }

  /** The tokens from `i` on, when byte `i` is a literal: its token, then the tokens after it. */
  lemma TokensFromLiteral(data: seq<byte>, i: nat, minMatch: nat) returns (rest: seq<Symbol>)
    requires i < |data| && minMatch >= DefaultMinMatch && MatchAt(data, i).length < minMatch
    ensures rest == TokensFrom(data, i + 1, minMatch) + [EndToken]
    ensures TokensFrom(data, i, minMatch) + [EndToken] == [Literal(data[i])] + rest
  {
    rest := TokensFrom(data, i + 1, minMatch) + [EndToken];
    ConcatAssoc([Literal(data[i])], TokensFrom(data, i + 1, minMatch), [EndToken]);
  }

  /** Expanding the two tokens of a match copies it. */
  lemma ExpandMatch(length: nat, distance: nat, rest: seq<Symbol>, out: seq<byte>)
    requires 3 <= length <= MaxMatch && 1 <= distance <= WindowSize && distance <= |out|
    ensures Expand([LengthData(length), DistanceData(distance)] + rest, out) == Expand(rest, CopyMatch(out, distance, length))
  {
    MatchTokensValid(length, distance);
    ExpandCopy(LengthData(length), DistanceData(distance), rest, out);
  }

  /** Copying the match taken at `i` reproduces the bytes it covers. */
  lemma MatchCopies(data: seq<byte>, i: nat)
    requires i < |data| && MatchAt(data, i).length > 0
    ensures var m := MatchAt(data, i);
      1 <= m.distance <= i && i + m.length <= |data|
      && CopyMatch(data[..i], m.distance, m.length) == data[..i + m.length]
  {
    var m := MatchAt(data, i);
    MatchAtBounds(data, i);
    var j := i - m.distance;
    assert MatchLength(data, i, j, 0) == m.length;
    MatchLengthAgrees(data, i, j, 0);
    assert data[j..j + m.length] == data[i..i + m.length];
    CopyMatchReproduces(data, i, m.distance, m.length);
  }

  /** Expanding the tokens from position `i` on, after the bytes before `i`, gives back the whole input. */
  lemma {:induction false} ExpandTokensFrom(data: seq<byte>, i: nat, minMatch: nat)
    requires i <= |data| && minMatch >= DefaultMinMatch
    ensures Expand(TokensFrom(data, i, minMatch) + [EndToken], data[..i]) == Some(data)
    decreases |data| - i
  {
    if i == |data| {
      assert data[..i] == data;
    } else {
      var next := ExpandStep(data, i, minMatch);
      ExpandTokensFrom(data, next, minMatch);
    }
  }

  /** Round trip: expanding the tokenizer's output reproduces its input exactly. */
  lemma ExpandTokens(data: seq<byte>, minMatch: nat)
    requires minMatch >= DefaultMinMatch
    ensures Expand(Tokens(data, minMatch), []) == Some(data)
  {
    ExpandTokensFrom(data, 0, minMatch);
    assert data[..0] == [];
  }
}
