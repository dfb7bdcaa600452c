# compression-lib, modelled in Dafny

compression-lib is a small lossless compressor written in Go. This project models its algorithmic core in Dafny and proves its contracts:

- **Bit I/O.** An MSB-first bit writer and bit reader. Each keeps a bit cache and a count of pending bits.
- **LZ77 tokenizer.** A brute-force search over a 32768-byte window. It emits literals, length/distance pairs and an end-of-block token (256).
- **Length and distance tables.** These follow section 3.2.5 of RFC 1951 (DEFLATE). Distance codes are shifted by 300.
- **Huffman coder.**
  - a priority queue ordered by `(Freq, Symbol)`;
  - `BuildTree` and `GenerateCodes`;
  - the symbol decoder;
  - `HuffmanCompress`/`HuffmanDecompress` over the LZ77 tokens.
- **Tree serialisation.** Pre-order: a tag bit, then a 9-bit leaf symbol.
- **Container.** The layout is `[type][u32 LE width][u32 LE length][tree and payload bits]`. Images pass through an RGB 2D prediction filter. An older frequency-table header is also modelled.
- **RLE codec.** A `[count][value]` run-length codec.
- **2D delta filters.** The grey and RGB filters and their inverses.

Byte sources and sinks are modelled as `seq<byte>`, bit streams as `seq<bool>` (most significant bit first) and trees as values. Imperative code stays imperative, with each method proved against a specification function:

- `BitWriter`, `BitReader` and `PriorityQueue` are classes.
- The filters fill arrays.
- The tokenizer, codecs and RLE are loops over sequences.

The Go `int`/`uint32` widths are modelled where they matter. Examples: `uint32(len(data))`, `uint32(width)`, `uint8(len(freqs))`, and the `byte` arithmetic of the filters.

The main results:

- the bit writer's stream is every written value's low bits in order, and reads return exactly those bits (`BitReading.ReadWritten`);
- the LZ77 tokens expand back to the input, and each match taken is the first longest one in the window;
- the length and distance tables are bijections over their domains;
- the Huffman tree is the same for every map iteration order, has one leaf per symbol, and its codes are prefix-free;
- `HuffmanDecompress(HuffmanCompress(d)) = d`;
- RLE round-trips with maximal runs;
- the RGB filters are inverse to each other for every width; the grey ones only when the length is a multiple of the width;
- `ViktorDecompressAndGetMetadata(ViktorCompress(d, t, w)) = (d, t, w)`;
- `ViktorDecompress` loses every non-image file (see Findings).

## Model

| member | source | states |
|---|---|---|
| BitWriting.BitWriter.constructor | bitwriter.go:14-20 | A new writer has an empty output, cache 0 and no pending bits. |
| BitWriting.BitWriter.WriteBits | bitwriter.go:22-37 | Only the low `nbits` of `val` are appended to the stream. Fewer than 8 bits stay pending and the cache keeps no stray high bits. Every complete byte is emitted, oldest bits first, and earlier output is untouched. `nbits = 0` changes nothing. |
| BitWriting.Put | bitwriter.go:23-35 | The body of `WriteBits` on the writer's state: it returns the state whose stream is the old stream plus `ToBits(val, nbits)`, with `(bits + nbits) / 8` bytes emitted. |
| BitWriting.Drain | bitwriter.go:28-35 | The drain loop emits `b0 / 8` bytes. It leaves `b0 % 8` bits pending and the bit stream unchanged. |
| BitWriting.BitWriter.Flush | bitwriter.go:40-50 | The output is the whole stream, zero-padded to a byte boundary: exactly `ceil(totalBits / 8)` bytes. Cache and pending count become 0. With no pending bits, no byte is added. |
| BitReading.BitReader.constructor | bitreader.go:14-18 | A new reader has an empty cache at position 0. It will deliver the input's bits. |
| BitReading.BitReader.ReadBits | bitreader.go:21-38 | On success the result is the next `nbits` bits as a number below `2^nbits`, and they are consumed. Otherwise it returns 0 and the remaining stream is unchanged; bytes pulled into the cache stay there. No byte is pulled when enough bits are cached. Fewer than 8 bits stay cached. |
| BitReading.FillCache | bitreader.go:22-29 | The refill loop pulls bytes one at a time, only while fewer than `nbits` bits are cached, and keeps the remaining stream. |
| BitReading.Take | bitreader.go:21-38 | The body of `ReadBits` on the reader's state, stated as the outcome on the abstract stream. |
| BitReading.ReadWritten | bitwriter.go:22-26 | Reading `n` bits from a stream that starts with a written `(v, n)` returns `v mod 2^n` and leaves the bits that followed. |
| Bits.FromToBits | bitwriter.go:23 | Reading back an `n`-bit rendering yields the value masked to `n` bits. |
| Bits.LE32RoundTrip | compress.go:110-113 | Reading back a little-endian `uint32` gives the value modulo 2^32. |
| LZ77Codes.LengthData | lz77compress.go:64-106 | `GetLengthData` gives code -1 exactly for lengths outside 3..258. |
| LZ77Codes.LengthBase | lz77compress.go:174-200 | `GetLengthBase` gives `(0, 0)` exactly for codes outside 257..285. |
| LZ77Codes.LengthTable | lz77compress.go:64-106 | Every length 3..258 has a code in 257..285 whose extra value fits its extra bits, and base plus extra value gives the length back. |
| LZ77Codes.LengthCodeRoundTrip | lz77compress.go:174-200 | Decoding a length code with an extra value and encoding the length gives the same code and extra value. The one exception, code 284 spelling 258, is excluded. |
| LZ77Codes.DistanceData | lz77compress.go:108-172 | `GetDistanceData` gives code -1 exactly for distances outside 1..32768. |
| LZ77Codes.DistanceBase | lz77compress.go:202-251 | `GetDistanceBase` gives `(0, 0)` exactly for codes outside 300..329. |
| LZ77Codes.DistanceTable | lz77compress.go:108-172 | Every distance 1..32768 has a code in 300..329 whose extra value fits its extra bits, and base plus extra value gives the distance back. |
| LZ77Codes.DistanceCodeRoundTrip | lz77compress.go:202-251 | Decoding a distance code with any extra value that fits and re-encoding gives the same code and extra value; with `DistanceTable`, this makes the table a bijection. |
| LZ77.MatchLength | lz77compress.go:28-33 | The comparison loop's count never exceeds 258 or runs past the input. |
| LZ77.MatchLengthAgrees | lz77compress.go:28-33 | The counted bytes agree with the earlier bytes, and the count stops at 258, at the end of the input, or at a mismatch. |
| LZ77.MatchAtIsFirstLongest | lz77compress.go:17-40 | The match taken at `i` is at least as long as every candidate in the window. It is strictly longer than every candidate before it, so among equal matches the largest distance wins. Its distance is within 1..32768 and within the bytes seen; with no match, the length and distance are 0. |
| LZ77.LZ77Compress | lz77compress.go:9-61 | The method returns exactly the token list `Tokens(data, minMatch)`. |
| LZ77.FindMatch | lz77compress.go:18-40 | The candidate loop returns the first longest match `MatchAt(data, i)`. |
| LZ77.CountMatch | lz77compress.go:28-33 | The comparison loop returns `MatchLength`. |
| LZ77.CopyMatch | huffman.go:193-200 | The overlapping copy appends `length` bytes and keeps what was decoded before. |
| LZ77.CopyMatchRepeats | huffman.go:193-200 | Every copied byte equals the byte `distance` before it, which may itself have been copied. |
| LZ77.CopyMatchReproduces | lz77compress.go:27-48 | Copying a match that the tokenizer found reproduces the matched bytes. |
| LZ77.WellFormedEnd | lz77compress.go:59 | The end-of-block code occurs exactly once, in the last token. |
| LZ77.MatchTokensValid | lz77compress.go:42-48 | The tokens of a match are a length token in 257..285 followed by a distance token in 300..329, and they stand for the match's length and distance. |
| LZ77.TokensWellFormed | lz77compress.go:9-61 | The output is literals and length/distance pairs, then exactly one end token. Empty input yields only the end token. |
| LZ77.ExpandTokens | lz77compress.go:9-61 | Expanding the tokens from empty output reproduces the input exactly. |
| HuffmanTree.LessIsStrictOrder | huffman.go:24-29 | `Less` is irreflexive, asymmetric and transitive, and it orders any two nodes with different symbols. |
| HuffmanTree.Merge | huffman.go:59-71 | The parent's frequency is the sum and its symbol the minimum of its children's. |
| HuffmanTree.PriorityQueue.constructor | huffman.go:46-47 | A new queue is empty. |
| HuffmanTree.PriorityQueue.Push | huffman.go:33-35 | Push appends the node. |
| HuffmanTree.PriorityQueue.Pop | huffman.go:37-43 | Pop removes and returns a least member under `Less`, and only that member. |
| HuffmanTree.MinIndex | huffman.go:24-29 | It finds a member that no other member precedes under `Less`. |
| HuffmanTree.MergeStep | huffman.go:55-72 | With distinct symbols, the tie swap never fires. Merging the two least members keeps the queue distinct and keeps the final tree. |
| HuffmanTree.BuildTree | huffman.go:45-81 | For every map iteration order, the result is the tree `Huffman(LeafBag(freqs))`, which is determined by the map alone. |
| HuffmanTree.PushLeaves | huffman.go:49-52 | The queue ends up holding one leaf per map entry. |
| HuffmanTree.MergeAll | huffman.go:54-80 | The merge loop and the final pop return `Huffman` of the starting queue. |
| HuffmanTree.BuildTreeLeaves | huffman.go:45-81 | The tree has exactly one leaf per map entry, holding its symbol and frequency, and no other leaf. |
| HuffmanTree.HuffmanWellBuilt | huffman.go:54-73 | Every internal node has two children, its frequency is their sum and its symbol their minimum. |
| HuffmanTree.WellBuiltTotal | huffman.go:66-71 | A well-built node's frequency is the total of its leaves' frequencies. |
| HuffmanTree.BuildTreeWellBuilt | huffman.go:45-81 | The tree of a non-empty map is well built, and the root frequency is the total count. |
| HuffmanTree.BuildTreeEmpty | huffman.go:75-77 | An empty map gives a nil tree. |
| HuffmanTree.BuildTreeSingle | huffman.go:79-80 | A one-entry map gives a single leaf with that symbol and frequency. |
| HuffmanCodes.GenerateCodes | huffman.go:84-95 | The table gains exactly the symbols of the tree's leaves. |
| HuffmanCodes.GenerateCodesPaths | huffman.go:84-95 | Every new entry is the prefix code followed by a root path (0 left, 1 right) to a leaf holding that symbol. |
| HuffmanCodes.CodeIsPath | huffman.go:84-95 | Following a symbol's code from the root reaches a leaf with that symbol, so the code length is the leaf's depth. |
| HuffmanCodes.CodesPrefixFree | huffman.go:84-95 | No symbol's code is a prefix of another symbol's code. |
| HuffmanCodes.LoneLeafCode | huffman.go:89-91 | A root that is a lone leaf gets the empty code. |
| HuffmanCodes.NextSymbol | huffman.go:215-236 | The tree walk consumes at most the bits it is given. |
| HuffmanCodes.DecodePath | huffman.go:215-236 | Fed a path to a leaf, the walk returns the leaf's symbol and consumes exactly the path. A leaf root consumes nothing. |
| HuffmanCodes.DecodeCode | huffman.go:215-236 | Fed a symbol's code, the walk returns that symbol and consumes exactly the code's bits. |
| HuffmanCodes.DecodeNextSymbol | huffman.go:215-236 | The reader loop returns `NextSymbol` of the remaining stream, which is 256 once the bits run out, and leaves the rest unread. |
| TreeSerialization.Deserialize | compress.go:83-101 | The parsed tree is nil exactly when the stream is empty, and a non-nil parse consumes at least one bit. |
| TreeSerialization.SerializeSize | compress.go:35-48 | A tree takes `10 * leaves + internals` bits. |
| TreeSerialization.DeserializeSerialize | compress.go:35-48 | Reading back a serialised tree gives its shape, with leaf symbols mod 512 and internal fields 0, and stops exactly after the tree's bits. |
| TreeSerialization.TruncatedLeaf | compress.go:90-93 | A stream ending inside a leaf symbol gives a leaf with symbol 0. |
| TreeSerialization.ShapeCodes | compress.go:83-101 | When all leaf symbols fit in 9 bits, the tree read back has the same code table. |
| TreeSerialization.WellBuiltFull | compress.go:35-48 | Every tree `BuildTree` makes is one `serializeTree` can walk. |
| TreeSerialization.SerializeTree | compress.go:35-48 | The method appends exactly `Serialize(t)` to the writer's stream. |
| TreeSerialization.DeserializeTree | compress.go:83-101 | The method returns `Deserialize` of the remaining stream and leaves the rest unread. |
| HuffmanCodec.FrequenciesCount | huffman.go:101-104 | The frequency map holds exactly the codes that occur, each with its number of occurrences. |
| HuffmanCodec.CountFrequencies | huffman.go:101-104 | The counting loop builds `Frequencies(ts)`. |
| HuffmanCodec.TreeForTokens | huffman.go:106-108 | The tree of the token frequencies is serialisable, its symbols fit 9 bits, and every token's code is in the table. |
| HuffmanCodec.WriteToken | huffman.go:116-132 | Appends a token's code, then its extra value in its extra bits. |
| HuffmanCodec.WriteTokens | huffman.go:116-138 | Appends the payload of all tokens, in order. |
| HuffmanCodec.HuffmanCompress | huffman.go:97-142 | The output is `uint32(len(data))` little-endian, then the serialised tree and payload zero-padded to a byte boundary. |
| HuffmanCodec.EncodeTokens | huffman.go:112-141 | The bit-writer part writes the tree, then the payload, padded. |
| HuffmanCodec.SymbolStep | huffman.go:163-203 | A decoded copy never reads outside the bytes decoded so far: its distance is in 1..`len(result)`. |
| HuffmanCodec.MatchStepAfterRead | huffman.go:168-171 | A length symbol's extra bits give the length, or `TruncatedExtraBits` when the stream ends. |
| HuffmanCodec.CopyStepAfterRead | huffman.go:179-191 | A distance symbol's extra bits give the distance. A distance of 0 or beyond the output is `InvalidBackReference`; a truncated stream is `TruncatedExtraBits`. |
| HuffmanCodec.DistanceStep | huffman.go:173-177 | After a length, any symbol outside 300..331 is a `SyncError`. |
| HuffmanCodec.DecodeLoopExtends | huffman.go:158-212 | The decoder only appends to its output, and stops as soon as `totalChars` bytes are out. |
| HuffmanCodec.HuffmanDecompress | huffman.go:144-213 | The method returns `HuffmanDecode(src)`: a short length field is an error, and so is an empty tree stream. |
| HuffmanCodec.DecodeSymbols | huffman.go:158-212 | The decoder loop on the reader equals `DecodeLoop` on the remaining stream. |
| HuffmanCodec.CopyBack | huffman.go:193-200 | The byte-by-byte copy loop builds `CopyMatch`. |
| HuffmanCodec.DecodeTokens | huffman.go:158-212 | Decoding the bits of a well-formed token stream reproduces its expansion. |
| HuffmanCodec.HuffmanRoundTrip | huffman.go:97-213 | Whatever `HuffmanCompress` writes for data shorter than 2^32 bytes, `HuffmanDecompress` returns that data. |
| Container.Entry | compress.go:19-29 | An entry is the byte followed by the frequency as a `uint32`, which reads back modulo 2^32. |
| Container.WriteHeader | compress.go:10-32 | The output is the count byte `len(freqs) mod 256`, then one entry per key, in an order that lists every key exactly once. It is 1 + 5 bytes per key long, and for at most 255 keys `ReadHeader` reads it back as the stored frequencies. |
| Container.ReadHeader | compress.go:51-80 | The method returns `ParseHeader(src)`: count byte, then that many entries, with a missing byte or a short frequency as an error. |
| Container.HeaderRoundTrip | compress.go:10-80 | For at most 255 entries, `ReadHeader(WriteHeader(f))` gives `f` with each frequency mod 2^32, so exactly `f` when they fit, whatever follows in the stream. |
| Container.HeaderWraps | compress.go:12 | With 256 entries the count wraps to 0 and the header reads back empty. |
| Container.ViktorCompress | compress.go:103-118 | The output is the type byte, then `uint32(width)` for images or 0 otherwise, then `HuffmanCompress` of the RGB-filtered image or of the data. |
| Container.ViktorDecompressAndGetMetadata | compress.go:149-171 | The method returns `Unframe(src)`: type byte, then the width always, then the Huffman stream, then the inverse RGB filter for images. |
| Container.ViktorDecompress | compress.go:120-147 | The method returns `UnframeAsWritten(src)`: the width is read only for images. |
| Container.FrameRoundTrip | compress.go:103-171 | `ViktorDecompressAndGetMetadata(ViktorCompress(d, t, w))` returns `d`, `t` and the width written (`w` for images, 0 otherwise), when length and width fit 32 bits. |
| Container.NonImageDataLost | compress.go:128-138 | For any non-image container `ViktorDecompress` returns empty data, so it never gives back non-empty input. |
| Container.CorrectedRoundTrip | compress.go:149-171 | The decompressor that always skips the width field gives back the data `ViktorCompress` was given. |
| RLE.Compress | rle.go:9-33 | The method returns `Encode(data)`, which is empty for empty input. |
| RLE.CountRun | rle.go:18-21 | The inner loop counts the run at `i`, capped at 255. |
| RLE.EncodeShape | rle.go:17-30 | The output has even length and at most twice the input's. Every count is at least 1 and the counts sum to the input length. |
| RLE.RunLength | rle.go:18-21 | Every count is in 1..255 and stays within the input. |
| RLE.EncodeMaximal | rle.go:19 | Runs are maximal: a pair is followed by a pair with the same value only when its count is 255. |
| RLE.RoundTrip | rle.go:9-58 | `Decompress(Compress(d))` succeeds with `d`. |
| RLE.Decompress | rle.go:36-58 | The method returns `Decode(data)`. It fails exactly when the input has odd length. |
| RLE.ExpandLength | rle.go:47-54 | The decompressed length is the sum of the counts. |
| RLE.ZeroCount | rle.go:47-54 | A pair with count 0 contributes nothing to the output. |
| Filter2D.Predict | preprocessor.go:29 | The prediction `(left + up) / 2` lies between the two neighbours. |
| Filter2D.AddSub | preprocessor.go:31 | Adding the prediction back mod 256 undoes subtracting it, and the reverse. |
| Filter2D.GreyLimit | preprocessor.go:11-16 | The grey filter visits a prefix that leaves fewer than `width` samples out, and visits all samples exactly when the length is a multiple of the width. |
| Filter2D.Filter | preprocessor.go:10-59 | Every filter output has the input's length. |
| Filter2D.Unfilter | preprocessor.go:61-108 | Every inverse filter output has the input's length. |
| Filter2D.UnfilterPrefix | preprocessor.go:61-108 | The inverse reads only restored entries: the first `k` restored samples depend only on the first `k` inputs. |
| Filter2D.UnfilterAt | preprocessor.go:72-82 | Restored sample `k` is its delta plus the prediction from the already restored neighbours. |
| Filter2D.UnfilterFilter | preprocessor.go:10-108 | Restoring filtered data gives back every visited sample and 0 for the rest. |
| Filter2D.FilterUnfilter | preprocessor.go:10-108 | Filtering restored data gives back every visited input and 0 for the rest. |
| Filter2D.UnfilterTail | preprocessor.go:62-66 | Samples past the full rows restore to 0 whatever the input holds there. |
| Filter2D.RgbRoundTrip | preprocessor.go:38-108 | The RGB filter and its inverse undo each other in both directions, for every width at least 1. |
| Filter2D.GreyRoundTrip | preprocessor.go:10-87 | The grey round trip returns the input with the bytes after `height * width` zeroed, and the input itself when the length is a multiple of the width. |
| Filter2D.GreyTailLost | preprocessor.go:11-15 | One byte at width 2 comes back as 0. |
| Filter2D.Apply2DFilter | preprocessor.go:10-36 | The method returns `Filter(data, GreyGrid(width, len(data)))`. |
| Filter2D.FilterRow | preprocessor.go:15-32 | After row `y`, the array holds the filtered samples up to the row's end and zeros after. |
| Filter2D.Remove2DFilter | preprocessor.go:61-87 | The method returns `Unfilter(data, GreyGrid(width, len(data)))`. |
| Filter2D.RestoreRow | preprocessor.go:66-83 | After row `y`, the array holds the restored samples up to the row's end and zeros after. |
| Filter2D.Apply2DFilterRGB | preprocessor.go:38-59 | The method returns `Filter(data, RgbGrid(width, len(data)))`: left is `i-3` only when `i mod 3w >= 3`, up is `i-3w` only when `i >= 3w`. |
| Filter2D.Remove2DFilterRGB | preprocessor.go:89-108 | The method returns `Unfilter(data, RgbGrid(width, len(data)))`, reading restored neighbours. |

## Left out

- I/O errors of the underlying writers and readers, and the `bufio` buffering, are not modelled. Sinks are byte sequences and sources are a byte sequence plus a position.
- Progress and diagnostic logging (`fmt.Printf`) is not modelled. This includes huffman.go:206, which divides by zero when `totalChars` is 1 to 4.
- yoursyncviwer.go, main.go and the image helpers of preprocessor.go are not part of this model. They depend on HTTP, image/png, floating point and file I/O; main.go's older Huffman functions are superseded by huffman.go's.
- The `container/heap` sift-up and sift-down are not modelled. `PriorityQueue.Pop` removes a least member under `Less`, found by a scan.
- BitWriting.BitWriter.WriteBits: requires `nbits <= 57` so that the 64-bit cache cannot overflow; every caller in the source uses at most 13 bits.
- BitReading.BitReader.ReadBits: requires `nbits <= 57` for the same reason.
- LZ77.LZ77Compress: the minimum match is a parameter (at least 3, with `DefaultMinMatch` 3). The callers' signatures disagree with the definition, and the extra `isImage` argument is dropped.
- HuffmanCodec.HuffmanCompress: the error return for a token without a code (huffman.go:118-120) is not modelled; `TreeForTokens` proves every token has a code.
- HuffmanCodec.HuffmanCompress: the length field is `len(data)` mod 2^32, and `HuffmanRoundTrip` requires fewer than 2^32 bytes.
- HuffmanCodec.CopyStep: distance symbols 330 and 331 get base 0 from the table. The model treats the resulting distance 0 as `InvalidBackReference` instead of Go's out-of-range index.
- HuffmanCodec.MatchStep: a failed read of extra bits is `TruncatedExtraBits`. Go ignores the error and goes on with value 0.
- Container.TypeImage: `TYPE_IMG` has no definition in the repository's files; the model takes 1.
- Container.ViktorCompress: widths are natural numbers. Negative Go widths are not modelled, and `FrameRoundTrip` requires widths below 2^32 because `uint32(width)` wraps.
- Container.ViktorDecompressAndGetMetadata: an image with a zero width and non-empty data is the error `ZeroWidth`; Go divides by zero and panics.
- Container.ReadHeader: a short read is an error. Go's `r.Read` may also return fewer bytes without an error on some readers; the model reads whole bytes from a sequence.
- Filter2D.Apply2DFilter: requires `width >= 1` even for empty data, because Go divides by the width first.
- RLE.Expand: a lone trailing byte expands to nothing. `Decode` never passes odd-length input to it.

## Findings

| source | as written | input that shows it | evidently intended | confidence | as-written member | corrected member |
|---|---|---|---|---|---|---|
| compress.go:128-138 | `ViktorDecompress` reads the width field only for images, but `ViktorCompress` always writes it. For any other type, the four zero width bytes are taken as the Huffman length field, so decoding stops at once with an empty result. | `ViktorCompress([65], 0, 0)` then `ViktorDecompress` returns empty data instead of `[65]` | skip the four width bytes for every type, as `ViktorDecompressAndGetMetadata` does | not executed | Container.NonImageDataLost | Container.CorrectedRoundTrip |
