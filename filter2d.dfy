/**
 * The 2D predictive delta filter of preprocessor.go. Each sample is replaced
 * by its difference (mod 256) from the rounded-down mean of its left and
 * upper neighbours, a missing neighbour counting as 0; the inverse adds the
 * same prediction back, taking the neighbours from the samples it has
 * already restored. The grey variant walks a `height` x `width` grid of one
 * byte per pixel; the RGB variant walks the bytes in order with three bytes
 * per pixel, so a sample's neighbours are the same colour channel.
 */
module Filter2D {
  import opened Common
  import opened Bits

  /** Go's `byte((int(left) + int(up)) / 2)`. */
  function Predict(left: byte, up: byte): (p: byte)
    ensures left <= p <= up || up <= p <= left
  {
    (left + up) / 2
  }

  /** Go's `current - prediction` on bytes. */
  function Sub(a: byte, b: byte): byte
  {
    (a - b) % 256
  }

  /** Go's `delta + prediction` on bytes. */
  function Add(a: byte, b: byte): byte
  {
    (a + b) % 256
  }

  /** Adding the prediction back undoes subtracting it, and the other way round. */
  lemma AddSub(a: byte, b: byte)
    ensures Add(Sub(a, b), b) == a && Sub(Add(a, b), b) == a
  {
    if a < b {
      assert Sub(a, b) == a - b + 256;
    } else {
      assert Sub(a, b) == a - b;
    }
    if a + b >= 256 {
      assert Add(a, b) == a + b - 256;
    } else {
      assert Add(a, b) == a + b;
    }
  }

  /**
   * Where a sample's neighbours are: `rowSize` bytes make a row, the left
   * neighbour is `stride` bytes back within the row, the upper one a whole
   * row back, and only the first `limit` samples are filtered (the rest of
   * the output stays 0, as `make` leaves it).
   */
  datatype Grid = Grid(rowSize: nat, stride: nat, limit: nat)
  {
    predicate Valid()
    {
      rowSize >= 1 && stride >= 1
    }
  }

  /** Go's `height * width`: the samples the grey filter visits. */
  function GreyLimit(n: nat, width: nat): (limit: nat)
    requires width >= 1
    ensures limit <= n && n - limit < width
    ensures limit == n <==> n % width == 0
  {
    var q, r := n / width, n % width;
    assert q * width + r == n;
    q * width
  }

  /** The grey layout: one byte per pixel, `width` pixels per row, `len(data) / width` rows. */
  function GreyGrid(width: nat, n: nat): Grid
    requires width >= 1
  {
    Grid(width, 1, GreyLimit(n, width))
  }

  /** The RGB layout: three bytes per pixel, `3 * width` bytes per row, every byte visited. */
  function RgbGrid(width: nat, n: nat): Grid
  {
    Grid(3 * width, 3, n)
  }

  lemma ModAtMost(i: nat, d: nat)
    requires d >= 1
    ensures i % d <= i
  {
    if i < d {
      assert i % d == i;
    } else {
      assert i == d * (i / d) + i % d;
      assert i / d >= 1;
      assert d * (i / d) >= d;
    }
  }

  /** The left neighbour of position `i`, read from `s`; 0 in a row's first pixel. */
  function Left(s: seq<byte>, i: nat, g: Grid): byte
    requires g.Valid() && i <= |s|
  {
    ModAtMost(i, g.rowSize);
    if i % g.rowSize >= g.stride then s[i - g.stride] else 0
  }

  /** The upper neighbour of position `i`, read from `s`; 0 in the first row. */
  function Up(s: seq<byte>, i: nat, g: Grid): byte
    requires g.Valid() && i <= |s|
  {
    if i >= g.rowSize then s[i - g.rowSize] else 0
  }

  /** The prediction for position `i` from the samples of `s` before it. */
  function Prediction(s: seq<byte>, i: nat, g: Grid): byte
    requires g.Valid() && i <= |s|
  {
    Predict(Left(s, i, g), Up(s, i, g))
  }

  /** The filtered samples: each visited sample minus its prediction from `data`. */
  function Filter(data: seq<byte>, g: Grid): (r: seq<byte>)
    requires data != [] ==> g.Valid()
    ensures |r| == |data|
  {
    seq(|data|, i requires 0 <= i < |data| =>
      if i < g.limit then Sub(data[i], Prediction(data, i, g)) else 0)
  }

  /**
   * The restored samples: each visited sample plus its prediction from the
   * samples restored before it.
   */
  function Unfilter(data: seq<byte>, g: Grid): (r: seq<byte>)
    requires data != [] ==> g.Valid()
    ensures |r| == |data|
    decreases |data|
  {
    if data == [] then []
    else
      var n := |data| - 1;
      var prev := Unfilter(data[..n], g);
      prev + [if n < g.limit then Add(data[n], Prediction(prev, n, g)) else 0]
  }

  /** `data` with the samples from `limit` on set to 0. */
  function Masked(data: seq<byte>, limit: nat): (r: seq<byte>)
    ensures |r| == |data|
  {
    seq(|data|, i requires 0 <= i < |data| => if i < limit then data[i] else 0)
  }

  /** A prediction reads only the samples before its position. */
  lemma PredictionPrefix(s: seq<byte>, t: seq<byte>, i: nat, g: Grid)
    requires g.Valid() && i <= |s| && i <= |t| && s[..i] == t[..i]
    ensures Prediction(s, i, g) == Prediction(t, i, g)
  {
    ModAtMost(i, g.rowSize);
    if i % g.rowSize >= g.stride {
      assert s[i - g.stride] == s[..i][i - g.stride];
      assert t[i - g.stride] == t[..i][i - g.stride];
    }
    if i >= g.rowSize {
      assert s[i - g.rowSize] == s[..i][i - g.rowSize];
      assert t[i - g.rowSize] == t[..i][i - g.rowSize];
    }
  }

  /** The first `k` filtered samples depend only on the first `k` samples. */
  lemma FilterPrefix(data: seq<byte>, g: Grid, k: nat)
    requires g.Valid() && k <= |data|
    ensures Filter(data[..k], g) == Filter(data, g)[..k]
  {
    forall i | 0 <= i < k
      ensures Filter(data[..k], g)[i] == Filter(data, g)[i]
    {
      assert data[..k][..i] == data[..i];
      PredictionPrefix(data[..k], data, i, g);
    }
  }

  /** `restored[i]` depends only on `data[0..i]`: the first `k` restored samples are those of the first `k` inputs. */
  lemma {:induction false} UnfilterPrefix(data: seq<byte>, g: Grid, k: nat)
    requires g.Valid() && k <= |data|
    ensures Unfilter(data[..k], g) == Unfilter(data, g)[..k]
    decreases |data|
  {
    if k < |data| {
      var n := |data| - 1;
      assert data[..n][..k] == data[..k];
      UnfilterPrefix(data[..n], g, k);
    } else {
      assert data[..k] == data;
    }
  }

  /** Restoring filtered samples gives back every visited sample and 0 for the others. */
  lemma {:induction false} UnfilterFilter(data: seq<byte>, g: Grid)
    requires g.Valid()
    ensures Unfilter(Filter(data, g), g) == Masked(data, g.limit)
    decreases |data|
  {
    if data != [] {
      var n := |data| - 1;
      var f := Filter(data, g);
      calc {
        Unfilter(f, g);
        Unfilter(f[..n], g) + [if n < g.limit then Add(f[n], Prediction(Unfilter(f[..n], g), n, g)) else 0];
        { FilterPrefix(data, g, n); UnfilterFilter(data[..n], g); }
        Masked(data[..n], g.limit) + [if n < g.limit then Add(f[n], Prediction(Masked(data[..n], g.limit), n, g)) else 0];
        { LastSample(data, g); }
        Masked(data[..n], g.limit) + [if n < g.limit then data[n] else 0];
        { assert Masked(data, g.limit) == Masked(data[..n], g.limit) + [if n < g.limit then data[n] else 0]; }
        Masked(data, g.limit);
      }
    }
  }

  /** The last visited sample: adding its prediction from the samples before it back to its delta restores it. */
  lemma LastSample(data: seq<byte>, g: Grid)
    requires g.Valid() && data != []
    ensures var n := |data| - 1;
      n < g.limit ==> Add(Filter(data, g)[n], Prediction(Masked(data[..n], g.limit), n, g)) == data[n]
  {
    var n := |data| - 1;
    if n < g.limit {
      assert Masked(data[..n], g.limit) == data[..n];
      PredictionPrefix(data[..n], data, n, g);
      AddSub(data[n], Prediction(data, n, g));
    }
  }

  /** Filtering restored samples gives back every visited input and 0 for the others. */
  lemma FilterUnfilter(data: seq<byte>, g: Grid)
    requires g.Valid()
    ensures Filter(Unfilter(data, g), g) == Masked(data, g.limit)
  {
    forall i | 0 <= i < |data| && i < g.limit
      ensures Filter(Unfilter(data, g), g)[i] == data[i]
    {
      FilterUnfilterAt(data, g, i);
    }
  }

  /** One visited position of `FilterUnfilter`. */
  lemma FilterUnfilterAt(data: seq<byte>, g: Grid, i: nat)
    requires g.Valid() && i < |data| && i < g.limit
    ensures Filter(Unfilter(data, g), g)[i] == data[i]
  {
    var u := Unfilter(data, g);
    UnfilterAt(data, g, i);
    AddSub(data[i], Prediction(u, i, g));
  }

  /** `n` zero bytes, as Go's `make` leaves them. */
  function Blank(n: nat): (r: seq<byte>)
    ensures |r| == n && forall i | 0 <= i < n :: r[i] == 0
  {
    seq(n, _ => 0)
  }

  /** Samples past `limit` restore to 0, whatever the input holds there. */
  lemma {:induction false} UnfilterTail(data: seq<byte>, g: Grid)
    requires g.Valid() && g.limit <= |data|
    ensures Unfilter(data, g) == Unfilter(data[..g.limit], g) + Blank(|data| - g.limit)
    decreases |data|
  {
    if g.limit < |data| {
      var n := |data| - 1;
      UnfilterTail(data[..n], g);
      assert data[..n][..g.limit] == data[..g.limit];
      assert Blank(n - g.limit) + [0] == Blank(|data| - g.limit);
    } else {
      assert data[..g.limit] == data;
    }
  }

  /** The RGB filters are inverse to each other in both directions, for every width they accept. */
  lemma RgbRoundTrip(data: seq<byte>, width: nat)
    requires data != [] ==> width >= 1
    ensures Unfilter(Filter(data, RgbGrid(width, |data|)), RgbGrid(width, |data|)) == data
    ensures Filter(Unfilter(data, RgbGrid(width, |data|)), RgbGrid(width, |data|)) == data
  {
    if data != [] {
      UnfilterFilter(data, RgbGrid(width, |data|));
      FilterUnfilter(data, RgbGrid(width, |data|));
    }
  }

  /**
   * The grey filters round-trip when the length is a multiple of the width;
   * otherwise the bytes past the last full row come back as 0.
   */
  lemma GreyRoundTrip(data: seq<byte>, width: nat)
    requires width >= 1
    ensures Unfilter(Filter(data, GreyGrid(width, |data|)), GreyGrid(width, |data|))
            == Masked(data, GreyLimit(|data|, width))
    ensures |data| % width == 0 ==>
            Unfilter(Filter(data, GreyGrid(width, |data|)), GreyGrid(width, |data|)) == data
  {
    UnfilterFilter(data, GreyGrid(width, |data|));
  }

  /** One byte at width 2 is no full row: it is not filtered and comes back as 0. */
  lemma GreyTailLost()
    ensures Unfilter(Filter([5], GreyGrid(2, 1)), GreyGrid(2, 1)) == [0]
  {
    GreyRoundTrip([5], 2);
  }

  /** Restored sample `k` is input `k` plus the prediction from the restored samples before it. */
  lemma UnfilterAt(data: seq<byte>, g: Grid, k: nat)
    requires g.Valid() && k < |data| && k < g.limit
    ensures Unfilter(data, g)[k] == Add(data[k], Prediction(Unfilter(data, g), k, g))
  {
    var u := Unfilter(data, g);
    UnfilterPrefix(data, g, k + 1);
    UnfilterPrefix(data, g, k);
    assert data[..k + 1][..k] == data[..k];
    PredictionPrefix(u[..k], u, k, g);
  }

  /** Writing entry `k` of `f` into an array holding the first `k` entries of `f` and zeros. */
  lemma Fill(f: seq<byte>, k: nat)
    requires k < |f|
    ensures (f[..k] + Blank(|f| - k))[k := f[k]] == f[..k + 1] + Blank(|f| - (k + 1))
  {
  }

  /** Position `y * width + x` of a grid with `n / width` full rows. */
  lemma Cell(y: nat, x: nat, width: nat, n: nat)
    requires width >= 1 && y < n / width && x < width
    ensures y * width + x < GreyLimit(n, width)
    ensures (y * width + x) % width == x
    ensures y * width + x >= width <==> y >= 1
  {
    var q := n / width;
    assert (y + 1) * width <= q * width by {
      assert y + 1 <= q;
    }
    assert (y + 1) * width == y * width + width;
    DivModUnique(y * width + x, width, y, x);
    if y >= 1 {
      assert y * width >= width;
    }
  }

  /** Row `y` ends where row `y + 1` starts, inside the visited samples. */
  lemma RowEnd(y: nat, width: nat, n: nat)
    requires width >= 1 && y < n / width
    ensures y * width + width == (y + 1) * width <= GreyLimit(n, width)
  {
    assert y + 1 <= n / width;
  }

  /** Go's `Apply2DFilter`: the samples of the full rows, each minus its prediction. */
  method Apply2DFilter(data: seq<byte>, width: nat) returns (filtered: seq<byte>)
    requires width >= 1
    ensures filtered == Filter(data, GreyGrid(width, |data|))
  {
    ghost var g := GreyGrid(width, |data|);
    ghost var f := Filter(data, g);
    var height := |data| / width;
    var out := new byte[|data|](_ => 0);
    for y := 0 to height
      invariant y * width <= g.limit
      invariant out[..] == f[..y * width] + Blank(|data| - y * width)
    {
      RowEnd(y, width, |data|);
      FilterRow(data, width, y, y * width, out);
    }
    assert f[..g.limit] + Blank(|data| - g.limit) == f;
    filtered := out[..];
  }

  /** One pass of `Apply2DFilter`'s outer loop: row `y`, left to right. */
  method FilterRow(data: seq<byte>, width: nat, y: nat, ghost start: nat, out: array<byte>)
    requires width >= 1 && y < |data| / width && start == y * width && out.Length == |data|
    requires start + width <= GreyLimit(|data|, width)
    requires out[..] == Filter(data, GreyGrid(width, |data|))[..start] + Blank(|data| - start)
    modifies out
    ensures out[..] == Filter(data, GreyGrid(width, |data|))[..start + width] + Blank(|data| - (start + width))
  {
    ghost var f := Filter(data, GreyGrid(width, |data|));
    for x := 0 to width
      invariant out[..] == f[..start + x] + Blank(|data| - (start + x))
    {
      var index := y * width + x;
      Cell(y, x, width, |data|);
      FilterCell(data, width, y, x, index, out);
    }
  }

  /** One pass of `Apply2DFilter`'s inner loop: the sample at `index`, column `x` of row `y`. */
  method FilterCell(data: seq<byte>, width: nat, y: nat, x: nat, index: nat, out: array<byte>)
    requires width >= 1 && out.Length == |data|
    requires index < GreyLimit(|data|, width) && index % width == x && (index >= width <==> y >= 1)
    requires out[..] == Filter(data, GreyGrid(width, |data|))[..index] + Blank(|data| - index)
    modifies out
    ensures out[..] == Filter(data, GreyGrid(width, |data|))[..index + 1] + Blank(|data| - (index + 1))
  {
    var current := data[index];
    var left, up: byte := 0, 0;
    if x > 0 {
      left := data[index - 1];
    }
    if y > 0 {
      up := data[index - width];
    }
    out[index] := Sub(current, Predict(left, up));
    Fill(Filter(data, GreyGrid(width, |data|)), index);
  }

  /** Go's `Remove2DFilter`: the samples of the full rows restored from their deltas. */
  method Remove2DFilter(data: seq<byte>, width: nat) returns (restored: seq<byte>)
    requires width >= 1
    ensures restored == Unfilter(data, GreyGrid(width, |data|))
  {
    ghost var g := GreyGrid(width, |data|);
    ghost var u := Unfilter(data, g);
    var height := |data| / width;
    var out := new byte[|data|](_ => 0);
    for y := 0 to height
      invariant y * width <= g.limit
      invariant out[..] == u[..y * width] + Blank(|data| - y * width)
    {
      RowEnd(y, width, |data|);
      RestoreRow(data, width, y, y * width, out);
    }
    UnfilterTail(data, g);
    UnfilterPrefix(data, g, g.limit);
    restored := out[..];
  }

  /** One pass of `Remove2DFilter`'s outer loop: row `y`, left to right. */
  method RestoreRow(data: seq<byte>, width: nat, y: nat, ghost start: nat, out: array<byte>)
    requires width >= 1 && y < |data| / width && start == y * width && out.Length == |data|
    requires start + width <= GreyLimit(|data|, width)
    requires out[..] == Unfilter(data, GreyGrid(width, |data|))[..start] + Blank(|data| - start)
    modifies out
    ensures out[..] == Unfilter(data, GreyGrid(width, |data|))[..start + width] + Blank(|data| - (start + width))
  {
    ghost var u := Unfilter(data, GreyGrid(width, |data|));
    for x := 0 to width
      invariant out[..] == u[..start + x] + Blank(|data| - (start + x))
    {
      var index := y * width + x;
      Cell(y, x, width, |data|);
      RestoreCell(data, width, y, x, index, out);
    }
  }

  /**
   * One pass of `Remove2DFilter`'s inner loop: the sample at `index`,
   * predicted from the restored samples to its left and above.
   */
  method RestoreCell(data: seq<byte>, width: nat, y: nat, x: nat, index: nat, out: array<byte>)
    requires width >= 1 && out.Length == |data|
    requires index < GreyLimit(|data|, width) && index % width == x && (index >= width <==> y >= 1)
    requires out[..] == Unfilter(data, GreyGrid(width, |data|))[..index] + Blank(|data| - index)
    modifies out
    ensures out[..] == Unfilter(data, GreyGrid(width, |data|))[..index + 1] + Blank(|data| - (index + 1))
  {
    ghost var g := GreyGrid(width, |data|);
    ghost var u := Unfilter(data, g);
    ghost var before := out[..];
    var delta := data[index];
    var left, up: byte := 0, 0;
    if x > 0 {
      left := out[index - 1];
    }
    if y > 0 {
      up := out[index - width];
    }
    assert Predict(left, up) == Prediction(before, index, g);
    UnfilterAt(data, g, index);
    PredictionPrefix(before, u, index, g);
    out[index] := Add(delta, Predict(left, up));
    Fill(u, index);
  }

  /** Go's `Apply2DFilterRGB`: every byte minus the prediction from the same channel's neighbours. */
  method Apply2DFilterRGB(data: seq<byte>, width: nat) returns (filtered: seq<byte>)
    requires data != [] ==> width >= 1
    ensures filtered == Filter(data, RgbGrid(width, |data|))
  {
    ghost var g := RgbGrid(width, |data|);
    ghost var f := Filter(data, g);
    var rowSize := width * 3;
    var out := new byte[|data|](_ => 0);
    for i := 0 to |data|
      invariant out[..] == f[..i] + Blank(|data| - i)
    {
      var left, up: byte := 0, 0;
      ModAtMost(i, rowSize);
      if i % rowSize >= 3 {
        left := data[i - 3];
      }
      if i >= rowSize {
        up := data[i - rowSize];
      }
      assert Predict(left, up) == Prediction(data, i, g);
      out[i] := Sub(data[i], Predict(left, up));
      Fill(f, i);
    }
    assert f[..|data|] + Blank(0) == f;
    filtered := out[..];
  }

  /** Go's `Remove2DFilterRGB`: every byte plus the prediction from the restored neighbours. */
  method Remove2DFilterRGB(data: seq<byte>, width: nat) returns (restored: seq<byte>)
    requires data != [] ==> width >= 1
    ensures restored == Unfilter(data, RgbGrid(width, |data|))
  {
    ghost var g := RgbGrid(width, |data|);
    ghost var u := Unfilter(data, g);
    var rowSize := width * 3;
    var out := new byte[|data|](_ => 0);
    for i := 0 to |data|
      invariant out[..] == u[..i] + Blank(|data| - i)
    {
      ghost var before := out[..];
      var left, up: byte := 0, 0;
      ModAtMost(i, rowSize);
      if i % rowSize >= 3 {
        left := out[i - 3];
      }
      if i >= rowSize {
        up := out[i - rowSize];
      }
      assert Predict(left, up) == Prediction(before, i, g);
      UnfilterAt(data, g, i);
      PredictionPrefix(before, u, i, g);
      out[i] := Add(data[i], Predict(left, up));
      Fill(u, i);
    }
    assert u[..|data|] + Blank(0) == u;
    restored := out[..];
  }
}
