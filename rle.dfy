/**
 * The run-length codec of rle.go. The compressed form is a sequence of
 * `[count][value]` byte pairs, each standing for `count` copies of `value`;
 * a run longer than 255 bytes is split over several pairs.
 */
module RLE {
  import opened Common
  import opened Bits

  /** The longest run one pair can hold: its count must fit in a byte. */
  const MaxRun: nat := 255

  /** Go's error "Arquivo comprimido ou incompleto": the input stops inside a pair. */
  datatype RleError = Truncated

  /** How many leading bytes of `s` equal `v`, counting at most `cap`. */
  function Leading(s: seq<byte>, v: byte, cap: nat): (n: nat)
    ensures n <= cap && n <= |s|
  {
    if cap == 0 || s == [] || s[0] != v then 0 else 1 + Leading(s[1..], v, cap - 1)
  }

  /** The counted bytes all equal `v`, and the count stops at the cap, at the end, or at a different byte. */
  lemma {:induction false} LeadingRun(s: seq<byte>, v: byte, cap: nat)
    ensures forall j | 0 <= j < Leading(s, v, cap) :: s[j] == v
    ensures var n := Leading(s, v, cap); n == cap || n == |s| || s[n] != v
  {
    if !(cap == 0 || s == [] || s[0] != v) {
      LeadingRun(s[1..], v, cap - 1);
      forall j | 1 <= j < Leading(s, v, cap)
        ensures s[j] == v
      {
        assert s[1..][j - 1] == s[j];
      }
    }
  }

  /** The run that starts `data`: its first byte and the copies that follow it, at most 255 in all. */
  function RunLength(data: seq<byte>): (n: nat)
    requires data != []
    ensures 1 <= n <= MaxRun && n <= |data|
  {
    1 + Leading(data[1..], data[0], MaxRun - 1)
  }

  /** The pairs `Compress` writes for `data`, one per run. */
  function Encode(data: seq<byte>): seq<byte>
    decreases |data|
  {
    if data == [] then []
    else
      var n := RunLength(data);
      [n as byte, data[0]] + Encode(data[n..])
  }

  /** `n` copies of `v`. */
  function Repeat(v: byte, n: nat): (r: seq<byte>)
    ensures |r| == n && forall j | 0 <= j < n :: r[j] == v
  {
    seq(n, _ => v)
  }

  /** The bytes the `[count][value]` pairs of `pairs` stand for; a lone last byte stands for nothing. */
  function Expand(pairs: seq<byte>): seq<byte>
    decreases |pairs|
  {
    if |pairs| < 2 then [] else Repeat(pairs[1], pairs[0]) + Expand(pairs[2..])
  }

  /** What `Decompress` returns: an error when a count has no value after it, else every pair expanded. */
  function Decode(data: seq<byte>): Result<seq<byte>, RleError>
  {
    if |data| % 2 == 1 then Failure(Truncated) else Success(Expand(data))
  }

  /** The sum of the counts of a pair sequence. */
  function Total(pairs: seq<byte>): nat
    decreases |pairs|
  {
    if |pairs| < 2 then 0 else pairs[0] + Total(pairs[2..])
  }

  /** Every count of a pair sequence is at least 1. */
  predicate CountsPositive(pairs: seq<byte>)
    decreases |pairs|
  {
    |pairs| < 2 || (pairs[0] >= 1 && CountsPositive(pairs[2..]))
  }

  /** A pair is followed by a pair with the same value only when its own count is 255. */
  predicate Maximal(pairs: seq<byte>)
    decreases |pairs|
  {
    |pairs| < 4 || ((pairs[3] == pairs[1] ==> pairs[0] == MaxRun) && Maximal(pairs[2..]))
  }

  /** The output is `[count][value]` pairs whose counts run from 1 to 255 and add up to the input's length. */
  lemma {:induction false} EncodeShape(data: seq<byte>)
    ensures |Encode(data)| % 2 == 0
    ensures |Encode(data)| <= 2 * |data|
    ensures CountsPositive(Encode(data))
    ensures Total(Encode(data)) == |data|
    decreases |data|
  {
    if data != [] {
      EncodeShape(data[RunLength(data)..]);
    }
  }

  /** Runs are maximal: a pair has a successor with the same value only when its count is 255. */
  lemma {:induction false} EncodeMaximal(data: seq<byte>)
    ensures Maximal(Encode(data))
    decreases |data|
  {
    if data != [] {
      var n := RunLength(data);
      var rest := data[n..];
      EncodeMaximal(rest);
      var e := Encode(data);
      assert e[2..] == Encode(rest);
      if rest != [] {
        // Leading stopped before the end: at its cap or at a different byte.
        LeadingRun(data[1..], data[0], MaxRun - 1);
        assert e[3] == rest[0] == data[1..][n - 1];
      }
    }
  }

  /** Expanding the output gives back the input. */
  lemma {:induction false} ExpandEncode(data: seq<byte>)
    ensures Expand(Encode(data)) == data
    decreases |data|
  {
    EncodeShape(data);
    if data != [] {
      var n := RunLength(data);
      calc {
        Expand(Encode(data));
        { ExpandFirstRun(data); }
        Repeat(data[0], n) + Expand(Encode(data[n..]));
        { ExpandEncode(data[n..]); RunIsRepeat(data); }
        data[..n] + data[n..];
        data;
      }
    }
  }

  /** The first pair of the output expands to the first run. */
  lemma ExpandFirstRun(data: seq<byte>)
    requires data != []
    ensures Expand(Encode(data)) == Repeat(data[0], RunLength(data)) + Expand(Encode(data[RunLength(data)..]))
  {
    var e := Encode(data);
    assert e[0] == RunLength(data) && e[1] == data[0];
    assert e[2..] == Encode(data[RunLength(data)..]);
  }

  /** The first run is that many copies of the first byte. */
  lemma RunIsRepeat(data: seq<byte>)
    requires data != []
    ensures data[..RunLength(data)] == Repeat(data[0], RunLength(data))
  {
    var n := RunLength(data);
    LeadingRun(data[1..], data[0], MaxRun - 1);
    forall j | 1 <= j < n
      ensures data[j] == data[0]
    {
      assert data[1..][j - 1] == data[j];
    }
  }

  /** `Decompress(Compress(d)) = d`. */
  lemma RoundTrip(data: seq<byte>)
    ensures Decode(Encode(data)) == Success(data)
  {
    ExpandEncode(data);
  }

  /** The decompressed length is the sum of the counts. */
  lemma {:induction false} ExpandLength(pairs: seq<byte>)
    ensures |Expand(pairs)| == Total(pairs)
    decreases |pairs|
  {
    if |pairs| >= 2 {
      ExpandLength(pairs[2..]);
    }
  }

  /** Expanding a concatenation of pair sequences expands each part. */
  lemma {:induction false} ExpandAppend(p: seq<byte>, q: seq<byte>)
    requires |p| % 2 == 0
    ensures Expand(p + q) == Expand(p) + Expand(q)
    decreases |p|
  {
    if p != [] {
      assert (p + q)[2..] == p[2..] + q;
      ExpandAppend(p[2..], q);
    } else {
      assert p + q == q;
    }
  }

  /** A pair with count 0 contributes nothing: removing it leaves the expansion unchanged. */
  lemma ZeroCount(p: seq<byte>, v: byte, q: seq<byte>)
    requires |p| % 2 == 0
    ensures Expand(p + [0, v] + q) == Expand(p + q)
  {
    calc {
      Expand(p + [0, v] + q);
      { assert p + [0, v] + q == p + ([0, v] + q); }
      Expand(p + ([0, v] + q));
      { ExpandAppend(p, [0, v] + q); }
      Expand(p) + Expand([0, v] + q);
      { assert ([0, v] + q)[2..] == q; }
      Expand(p) + Expand(q);
      { ExpandAppend(p, q); }
      Expand(p + q);
    }
  }

  /** One more step of `Compress`'s inner loop: the byte at `i + count` extends the run. */
  lemma LeadingNext(data: seq<byte>, i: nat, count: nat)
    requires 1 <= count < MaxRun && i + count < |data| && data[i] == data[i + count]
    ensures Leading(data[i + count..], data[i], MaxRun - count)
            == 1 + Leading(data[i + count + 1..], data[i], MaxRun - (count + 1))
  {
    assert data[i + count..][1..] == data[i + count + 1..];
  }

  /** The run at `i`, as `Compress`'s inner loop starts counting it. */
  lemma RunStart(data: seq<byte>, i: nat)
    requires i < |data|
    ensures RunLength(data[i..]) == 1 + Leading(data[i + 1..], data[i], MaxRun - 1)
  {
    assert data[i..][1..] == data[i + 1..];
  }

  /** Where `Compress`'s inner loop stops, no further byte extends the run. */
  lemma RunStop(data: seq<byte>, i: nat, count: nat)
    requires 1 <= count <= MaxRun && i + count <= |data|
    requires !(i + count < |data| && data[i] == data[i + count] && count < MaxRun)
    ensures Leading(data[i + count..], data[i], MaxRun - count) == 0
  {
  }

  /** The pairs for `data[i..]`: the run at `i`, then the pairs for what follows it. */
  lemma EncodeAt(data: seq<byte>, i: nat, count: nat)
    requires i < |data| && count == RunLength(data[i..])
    ensures i + count <= |data|
    ensures Encode(data[i..]) == [count as byte, data[i]] + Encode(data[i + count..])
  {
    assert data[i..][count..] == data[i + count..];
  }

  /** Go's `Compress`. */
  method Compress(data: seq<byte>) returns (out: seq<byte>)
    ensures out == Encode(data)
  {
    if |data| == 0 {
      return [];
    }
    out := [];
    var i := 0;
    while i < |data|
      invariant i <= |data|
      invariant Encode(data) == out + Encode(data[i..])
      decreases |data| - i
    {
      var count := CountRun(data, i);
      EncodeAt(data, i, count);
      ConcatAssoc(out, [count as byte, data[i]], Encode(data[i + count..]));
      out := out + [count as byte, data[i]];
      i := i + count;
    }
    assert data[i..] == [];
  }

  /** The inner loop of `Compress`: the length of the run at `i`, at most 255. */
  method CountRun(data: seq<byte>, i: nat) returns (count: nat)
    requires i < |data|
    ensures count == RunLength(data[i..])
  {
    count := 1;
    ghost var run := RunLength(data[i..]);
    RunStart(data, i);
    while i + count < |data| && data[i] == data[i + count] && count < MaxRun
      invariant 1 <= count <= MaxRun && i + count <= |data|
      invariant run == count + Leading(data[i + count..], data[i], MaxRun - count)
      decreases MaxRun - count
    {
      LeadingNext(data, i, count);
      count := count + 1;
    }
    RunStop(data, i, count);
  }

  /** Go's `Decompress`. */
  method Decompress(data: seq<byte>) returns (r: Result<seq<byte>, RleError>)
    ensures r == Decode(data)
    ensures r.Failure? <==> |data| % 2 == 1
  {
    var out := [];
    var i := 0;
    while i < |data|
      invariant i <= |data| && i % 2 == 0
      invariant out == Expand(data[..i])
      decreases |data| - i
    {
      if i + 1 >= |data| {
        return Failure(Truncated);
      }
      var count := data[i];
      var val := data[i + 1];
      ghost var before := out;
      for j := 0 to count
        invariant out == before + Repeat(val, j)
      {
        out := out + [val];
      }
      ExpandAppend(data[..i], data[i..i + 2]);
      assert data[..i + 2] == data[..i] + data[i..i + 2];
      i := i + 2;
    }
    assert data[..i] == data;
    return Success(out);
  }
}
