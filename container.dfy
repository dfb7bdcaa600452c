/**
 * The file container of compress.go and its older frequency-table header.
 *
 * A container is `[type byte][u32 LE width][Huffman output]`, where the
 * Huffman output is `[u32 LE length][tree and payload bits]` and the width
 * is the image width for images and 0 for everything else. Image bytes go
 * through the RGB 2D filter before compression and back through its inverse
 * after decompression.
 */
module Container {
  import opened Common
  import opened Bits
  import opened LZ77
  import opened HuffmanTree
  import opened TreeSerialization
  import opened HuffmanCodec
  import Filter2D

  /** `TYPE_IMG`, the data type of an RGB image. The repository's files leave it undefined; the model takes 1. */
  const TypeImage: byte := 1

  // The frequency-table header: a count byte, then `[byte][u32 LE frequency]` per entry.

  /** Why `ReadHeader` fails: the stream ends before the count, before an entry's byte, or inside its frequency. */
  datatype HeaderError = MissingCount | MissingChar | MissingFreq

  /** One header entry. Go writes `uint32(freq)`, so the frequency is cut to 32 bits. */
  function Entry(b: byte, freq: int): (r: seq<byte>)
    ensures |r| == 5 && r[0] == b && ReadLE32(r[1..5]) == freq % TwoTo32
  {
    LE32RoundTrip(freq);
    [b] + LE32(freq)
  }

  /** The entries for the keys of `freqs`, in the order `keys` lists them. */
  function Entries(keys: seq<byte>, freqs: map<byte, int>): (r: seq<byte>)
    requires forall k | k in keys :: k in freqs
    ensures |r| == 5 * |keys|
  {
    if keys == [] then [] else Entry(keys[0], freqs[keys[0]]) + Entries(keys[1..], freqs)
  }

  /** `keys` lists every key of `freqs` exactly once. */
  predicate Lists(keys: seq<byte>, freqs: map<byte, int>)
  {
    |keys| == |freqs|
    && (forall k | k in keys :: k in freqs) && (forall k | k in freqs :: k in keys)
    && (forall i, j | 0 <= i < j < |keys| :: keys[i] != keys[j])
  }

  /** The frequencies as they come back from the header: each cut to 32 bits. */
  function Stored(freqs: map<byte, int>): map<byte, int>
  {
    map k | k in freqs :: freqs[k] % TwoTo32
  }

  /** The frequencies read back for the keys `keys` lists, each cut to 32 bits. */
  function ReadBack(keys: seq<byte>, freqs: map<byte, int>): map<byte, int>
    requires forall k | k in keys :: k in freqs
  {
    map k | k in keys :: freqs[k] % TwoTo32
  }

  /** The entries `ReadHeader` reads: `n` of them, each setting its byte's frequency, a later one winning. */
  function ReadEntries(src: seq<byte>, n: nat, freqs: map<byte, int>): Result<map<byte, int>, HeaderError>
    decreases n
  {
    if n == 0 then Success(freqs)
    else if |src| < 1 then Failure(MissingChar)
    else if |src| < 5 then Failure(MissingFreq)
    else ReadEntries(src[5..], n - 1, freqs[src[0] := ReadLE32(src[1..5])])
  }

  /** What `ReadHeader` returns for the stream `src`. */
  function ParseHeader(src: seq<byte>): Result<map<byte, int>, HeaderError>
  {
    if |src| < 1 then Failure(MissingCount) else ReadEntries(src[1..], src[0], map[])
  }

  /** Appending a key appends its entry. */
  lemma {:induction false} EntriesSnoc(keys: seq<byte>, k: byte, freqs: map<byte, int>)
    requires (forall j | j in keys :: j in freqs) && k in freqs
    ensures Entries(keys + [k], freqs) == Entries(keys, freqs) + Entry(k, freqs[k])
  {
    if keys != [] {
      assert (keys + [k])[1..] == keys[1..] + [k];
      EntriesSnoc(keys[1..], k, freqs);
      ConcatAssoc(Entry(keys[0], freqs[keys[0]]), Entries(keys[1..], freqs), Entry(k, freqs[k]));
    } else {
      assert Entries([k], freqs) == Entry(k, freqs[k]) + Entries([], freqs);
    }
  }

  /**
   * Go's `WriteHeader`. Go visits the map in an unspecified order; `keys` is
   * the order this run chose.
   */
  method WriteHeader(freqs: map<byte, int>) returns (out: seq<byte>, ghost keys: seq<byte>)
    ensures Lists(keys, freqs)
    ensures out == [(|freqs| % 256) as byte] + Entries(keys, freqs)
    ensures |out| == 1 + 5 * |freqs|
    ensures |freqs| <= 255 ==> ParseHeader(out) == Success(Stored(freqs))
  {
    out := [(|freqs| % 256) as byte];
    keys := [];
    var todo := freqs.Keys;
    while todo != {}
      invariant todo <= freqs.Keys && |keys| + |todo| == |freqs|
      invariant forall k :: k in keys <==> k in freqs && k !in todo
      invariant forall i, j | 0 <= i < j < |keys| :: keys[i] != keys[j]
      invariant out == [(|freqs| % 256) as byte] + Entries(keys, freqs)
      decreases |todo|
    {
      var b := Choose(todo);
      EntriesSnoc(keys, b, freqs);
      out := out + Entry(b, freqs[b]);
      keys := keys + [b];
      todo := todo - {b};
    }
    WrittenHeader(freqs, keys);
  }

  /** The header written for the key order `keys` has one byte per entry and reads back as the stored frequencies. */
  lemma WrittenHeader(freqs: map<byte, int>, keys: seq<byte>)
    requires Lists(keys, freqs)
    ensures |[(|freqs| % 256) as byte] + Entries(keys, freqs)| == 1 + 5 * |freqs|
    ensures |freqs| <= 255 ==> ParseHeader([(|freqs| % 256) as byte] + Entries(keys, freqs)) == Success(Stored(freqs))
  {
    var out := [(|freqs| % 256) as byte] + Entries(keys, freqs);
    if |freqs| <= 255 {
      assert out + [] == out;
      HeaderRoundTrip(freqs, keys, []);
    }
  }

  /** Go's `ReadHeader`. */
  method ReadHeader(src: seq<byte>) returns (r: Result<map<byte, int>, HeaderError>)
    ensures r == ParseHeader(src)
  {
    if |src| < 1 {
      return Failure(MissingCount);
    }
    var numEntries := src[0];
    var freqs := map[];
    var pos := 1;
    for i := 0 to numEntries
      invariant pos <= |src|
      invariant ReadEntries(src[pos..], numEntries - i, freqs) == ParseHeader(src)
    {
      if pos + 1 > |src| {
        return Failure(MissingChar);
      }
      var b := src[pos];
      if pos + 5 > |src| {
        return Failure(MissingFreq);
      }
      var freq := ReadLE32(src[pos + 1..pos + 5]);
      assert src[pos..][5..] == src[pos + 5..] && src[pos..][1..5] == src[pos + 1..pos + 5];
      freqs := freqs[b := freq];
      pos := pos + 5;
    }
    return Success(freqs);
  }

  /** Reading the entries of `keys` adds each key with its frequency cut to 32 bits. */
  lemma {:induction false} ReadEntriesOf(keys: seq<byte>, freqs: map<byte, int>, tail: seq<byte>, acc: map<byte, int>)
    requires forall k | k in keys :: k in freqs
    ensures ReadEntries(Entries(keys, freqs) + tail, |keys|, acc)
            == Success(acc + ReadBack(keys, freqs))
    decreases |keys|
  {
    if keys != [] {
      var k := keys[0];
      var src := Entries(keys, freqs) + tail;
      var e := Entry(k, freqs[k]);
      ConcatAssoc(e, Entries(keys[1..], freqs), tail);
      assert src[5..] == Entries(keys[1..], freqs) + tail;
      assert src[0] == k && src[1..5] == e[1..5];
      ReadEntriesOf(keys[1..], freqs, tail, acc[k := freqs[k] % TwoTo32]);
      ReadBackCons(keys, freqs, acc);
    } else {
      assert ReadBack(keys, freqs) == map[];
      assert acc + map[] == acc;
    }
  }

  /** Reading the first key, then the rest, gives the same map as reading them all. */
  lemma ReadBackCons(keys: seq<byte>, freqs: map<byte, int>, acc: map<byte, int>)
    requires keys != [] && forall k | k in keys :: k in freqs
    ensures acc[keys[0] := freqs[keys[0]] % TwoTo32] + ReadBack(keys[1..], freqs) == acc + ReadBack(keys, freqs)
  {
  }

  /**
   * `ReadHeader(WriteHeader(f)) = f` when `f` has at most 255 entries (each
   * frequency cut to 32 bits, so exactly `f` when they all fit), whatever
   * follows the header in the stream.
   */
  lemma HeaderRoundTrip(freqs: map<byte, int>, keys: seq<byte>, tail: seq<byte>)
    requires Lists(keys, freqs) && |freqs| <= 255
    ensures ParseHeader([(|freqs| % 256) as byte] + Entries(keys, freqs) + tail) == Success(Stored(freqs))
    ensures (forall k | k in freqs :: 0 <= freqs[k] < TwoTo32) ==>
            ParseHeader([(|freqs| % 256) as byte] + Entries(keys, freqs) + tail) == Success(freqs)
  {
    var src := [(|freqs| % 256) as byte] + Entries(keys, freqs) + tail;
    assert src[1..] == Entries(keys, freqs) + tail;
    DivModUnique(|freqs|, 256, 0, |freqs|);
    assert src[0] as int == |keys|;
    calc {
      ParseHeader(src);
      ReadEntries(Entries(keys, freqs) + tail, |keys|, map[]);
      { ReadEntriesOf(keys, freqs, tail, map[]); }
      Success(map[] + ReadBack(keys, freqs));
      { StoredKeys(keys, freqs); }
      Success(Stored(freqs));
    }
    if forall k | k in freqs :: 0 <= freqs[k] < TwoTo32 {
      StoredUnchanged(freqs);
    }
  }

  /** The frequencies read for the keys `keys` lists are the stored ones. */
  lemma StoredKeys(keys: seq<byte>, freqs: map<byte, int>)
    requires Lists(keys, freqs)
    ensures map[] + ReadBack(keys, freqs) == Stored(freqs)
  {
  }

  /** Frequencies that fit in 32 bits are stored unchanged. */
  lemma StoredUnchanged(freqs: map<byte, int>)
    requires forall k | k in freqs :: 0 <= freqs[k] < TwoTo32
    ensures Stored(freqs) == freqs
  {
    forall k | k in freqs
      ensures Stored(freqs)[k] == freqs[k]
    {
      DivModUnique(freqs[k], TwoTo32, 0, freqs[k]);
    }
  }

  /** With all 256 byte values present the count byte wraps to 0, and the header reads back empty. */
  lemma HeaderWraps(freqs: map<byte, int>, keys: seq<byte>, tail: seq<byte>)
    requires Lists(keys, freqs) && |freqs| == 256
    ensures ParseHeader([(|freqs| % 256) as byte] + Entries(keys, freqs) + tail) == Success(map[])
  {
  }

  // The container.

  /** Why a container does not decode. */
  datatype FrameError =
    | MissingType            // no type byte
    | MissingWidth           // fewer than four width bytes
    | ZeroWidth              // an image of width 0 with bytes in it: Go divides by zero and panics
    | Huffman(cause: DecodeError)

  /** What `ViktorDecompressAndGetMetadata` returns: the data, its type and the stored width. */
  datatype Unpacked = Unpacked(data: seq<byte>, dataType: byte, width: nat)

  /** The bytes handed to the Huffman coder: the RGB-filtered image, or the data unchanged. */
  function Prepared(data: seq<byte>, dataType: byte, width: nat): (p: seq<byte>)
    requires dataType == TypeImage && data != [] ==> width >= 1
    ensures |p| == |data|
  {
    if dataType == TypeImage then Filter2D.Filter(data, Filter2D.RgbGrid(width, |data|)) else data
  }

  /** `bytes` is what `HuffmanCompress` writes for `payload`: its length, then the padded tree and payload bits. */
  ghost predicate HuffmanOutput(bytes: seq<byte>, payload: seq<byte>)
  {
    |bytes| >= 4 && bytes[..4] == LE32(|payload|) && Padded(bytes[4..], Encoded(payload, DefaultMinMatch))
  }

  /** `output` is what `ViktorCompress` writes for `data`. */
  ghost predicate Framed(output: seq<byte>, data: seq<byte>, dataType: byte, width: nat)
    requires dataType == TypeImage && data != [] ==> width >= 1
  {
    |output| >= 5 && output[0] == dataType
    && output[1..5] == LE32(if dataType == TypeImage then width else 0)
    && HuffmanOutput(output[5..], Prepared(data, dataType, width))
  }

  /**
   * Go's `ViktorCompress`: the type byte, the width (0 unless an image),
   * then the Huffman output of the filtered image or of the data.
   */
  method ViktorCompress(data: seq<byte>, dataType: byte, width: nat) returns (output: seq<byte>)
    requires dataType == TypeImage && data != [] ==> width >= 1
    ensures Framed(output, data, dataType, width)
  {
    output := [dataType];
    var dataToCompress := data;
    if dataType == TypeImage {
      output := output + LE32(width);
      dataToCompress := Filter2D.Apply2DFilterRGB(data, width);
    } else {
      output := output + LE32(0);
    }
    var body := HuffmanCompress(dataToCompress, DefaultMinMatch);
    FramedConcat(output, body, data, dataType, width);
    output := output + body;
  }

  /** The type byte and the width field, then the Huffman output, make a container. */
  lemma FramedConcat(prefix: seq<byte>, body: seq<byte>, data: seq<byte>, dataType: byte, width: nat)
    requires dataType == TypeImage && data != [] ==> width >= 1
    requires prefix == [dataType] + LE32(if dataType == TypeImage then width else 0)
    requires HuffmanOutput(body, Prepared(data, dataType, width))
    ensures Framed(prefix + body, data, dataType, width)
  {
    assert (prefix + body)[5..] == body;
    assert (prefix + body)[1..5] == prefix[1..5];
  }

  /** Go's `Remove2DFilterRGB` as the decompressors call it on the decoded bytes. */
  function RestoreImage(restored: seq<byte>, width: nat): Result<seq<byte>, FrameError>
  {
    if restored != [] && width == 0 then Failure(ZeroWidth)
    else Success(Filter2D.Unfilter(restored, Filter2D.RgbGrid(width, |restored|)))
  }

  /** What `ViktorDecompressAndGetMetadata` returns for the stream `src`. */
  function Unframe(src: seq<byte>): Result<Unpacked, FrameError>
  {
    if |src| < 1 then Failure(MissingType)
    else if |src| < 5 then Failure(MissingWidth)
    else
      var dataType, width := src[0], ReadLE32(src[1..5]);
      match HuffmanDecode(src[5..])
      case Failure(e) => Failure(Huffman(e))
      case Success(restored) =>
        if dataType != TypeImage then Success(Unpacked(restored, dataType, width))
        else
          match RestoreImage(restored, width)
          case Failure(e) => Failure(e)
          case Success(image) => Success(Unpacked(image, dataType, width))
  }

  /**
   * What `ViktorDecompress` returns for the stream `src`: it reads the width
   * only for images, so for any other type the Huffman decoder starts at the
   * width field.
   */
  function UnframeAsWritten(src: seq<byte>): Result<seq<byte>, FrameError>
  {
    if |src| < 1 then Failure(MissingType)
    else if src[0] != TypeImage then
      match HuffmanDecode(src[1..])
      case Failure(e) => Failure(Huffman(e))
      case Success(restored) => Success(restored)
    else if |src| < 5 then Failure(MissingWidth)
    else
      match HuffmanDecode(src[5..])
      case Failure(e) => Failure(Huffman(e))
      case Success(restored) => RestoreImage(restored, ReadLE32(src[1..5]))
  }

  /** `ViktorDecompress` as its type test evidently intends: the width field is always skipped. */
  function DecompressCorrected(src: seq<byte>): Result<seq<byte>, FrameError>
  {
    match Unframe(src)
    case Failure(e) => Failure(e)
    case Success(u) => Success(u.data)
  }

  /** Go's `ViktorDecompressAndGetMetadata`. */
  method ViktorDecompressAndGetMetadata(src: seq<byte>) returns (r: Result<Unpacked, FrameError>)
    ensures r == Unframe(src)
  {
    if |src| < 1 {
      return Failure(MissingType);
    }
    var dataType := src[0];
    if |src| < 5 {
      return Failure(MissingWidth);
    }
    var width := ReadLE32(src[1..5]);
    var decoded := HuffmanDecompress(src[5..]);
    if decoded.Failure? {
      return Failure(Huffman(decoded.error));
    }
    var restored := decoded.value;
    if dataType == TypeImage {
      if restored != [] && width == 0 {
        return Failure(ZeroWidth);
      }
      restored := Filter2D.Remove2DFilterRGB(restored, width);
    }
    return Success(Unpacked(restored, dataType, width));
  }

  /** Go's `ViktorDecompress`, as written. */
  method ViktorDecompress(src: seq<byte>) returns (r: Result<seq<byte>, FrameError>)
    ensures r == UnframeAsWritten(src)
  {
    if |src| < 1 {
      return Failure(MissingType);
    }
    var dataType := src[0];
    var width: nat := 0;
    var rest := src[1..];
    if dataType == TypeImage {
      if |src| < 5 {
        return Failure(MissingWidth);
      }
      width := ReadLE32(src[1..5]);
      rest := src[5..];
    }
    var decoded := HuffmanDecompress(rest);
    if decoded.Failure? {
      return Failure(Huffman(decoded.error));
    }
    var restored := decoded.value;
    if dataType == TypeImage {
      if restored != [] && width == 0 {
        return Failure(ZeroWidth);
      }
      restored := Filter2D.Remove2DFilterRGB(restored, width);
    }
    return Success(restored);
  }

  /**
   * `ViktorDecompressAndGetMetadata(ViktorCompress(d, t, w)) = (d, t, w)`,
   * the width read back as 0 for anything but an image, as long as the
   * length and the width fit the 32-bit fields.
   */
  lemma FrameRoundTrip(data: seq<byte>, dataType: byte, width: nat, output: seq<byte>)
    requires dataType == TypeImage && data != [] ==> width >= 1
    requires |data| < TwoTo32 && width < TwoTo32
    requires Framed(output, data, dataType, width)
    ensures Unframe(output) == Success(Unpacked(data, dataType, if dataType == TypeImage then width else 0))
  {
    var payload := Prepared(data, dataType, width);
    var w := if dataType == TypeImage then width else 0;
    HuffmanRoundTrip(payload, DefaultMinMatch, output[5..]);
    LE32RoundTrip(w);
    DivModUnique(w, TwoTo32, 0, w);
    assert ReadLE32(output[1..5]) == w;
    if dataType == TypeImage {
      Filter2D.RgbRoundTrip(data, width);
    }
  }

  /** The corrected decompressor gives back what `ViktorCompress` was given. */
  lemma CorrectedRoundTrip(data: seq<byte>, dataType: byte, width: nat, output: seq<byte>)
    requires dataType == TypeImage && data != [] ==> width >= 1
    requires |data| < TwoTo32 && width < TwoTo32
    requires Framed(output, data, dataType, width)
    ensures DecompressCorrected(output) == Success(data)
  {
    FrameRoundTrip(data, dataType, width, output);
  }

  /**
   * `ViktorDecompress` loses every non-image file: it reads the zero width
   * field as the length, and a length of 0 stops the decoder at once.
   */
  lemma NonImageDataLost(data: seq<byte>, dataType: byte, width: nat, output: seq<byte>)
    requires dataType != TypeImage && Framed(output, data, dataType, width)
    ensures UnframeAsWritten(output) == Success([])
    ensures data != [] ==> UnframeAsWritten(output) != Success(data)
  {
    var rest := output[1..];
    LE32RoundTrip(0);
    assert rest[..4] == LE32(0);
    assert rest[4..] == output[5..];
    var p := Deserialize(BytesToBits(rest[4..]));
    assert p.tree != Nil;
    assert HuffmanDecode(rest) == DecodeLoop(p.tree, p.rest, 0, []);
  }
}
