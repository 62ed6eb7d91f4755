/** The colour histogram of a video (calculate_color_histogram in
    src/videohash.rs, calculate_histogram in src/videohistogram.rs). Every
    decoded frame is a 128 x 128 RGB picture, three bytes per pixel. Each
    channel value falls into one of four buckets (its top two bits); a pixel
    counts towards the cell of its three buckets; the 64 counts are scaled
    so that all pixels of the video together make 255, and the cells are
    listed red-major, then green, then blue. The two copies differ in the
    pixel counter: u64 in the first, i32 in the second, which wraps past
    2^31 pixels. Decoding is left out: a video is the sequence of its
    frames' bytes. */
module ColorHistogram {
  import opened Base

  /** Bits dropped from a channel value to get its bucket. */
  const BucketShift: nat := 6
  /** Buckets per channel: 256 >> BucketShift. */
  const NumBuckets: nat := 4
  /** Frames are scaled to Side x Side pixels. */
  const Side: nat := 128
  /** Side * Side. */
  const PixelsPerFrame: nat := 16384
  /** Cells of the histogram, one per (red, green, blue) bucket triple. */
  const Cells: nat := 64

  /** The bucket of a channel value: its top two bits, v >> BucketShift,
      which on an unsigned byte is v / 64. */
  function Bucket(v: byte): (b: nat)
    ensures b < NumBuckets
    ensures b * 64 <= v as nat < (b + 1) * 64
  {
    v as nat / 64
  }

  /** The position of a bucket triple in the flattened 4 x 4 x 4 array. */
  function Cell(r: nat, g: nat, b: nat): (k: nat)
    requires r < NumBuckets && g < NumBuckets && b < NumBuckets
    ensures k < Cells
  {
    (r * NumBuckets + g) * NumBuckets + b
  }

  /** Flattening loses nothing: the triple can be read back off the cell. */
  lemma CellDecode(r: nat, g: nat, b: nat)
    requires r < NumBuckets && g < NumBuckets && b < NumBuckets
    ensures Cell(r, g, b) / 16 == r
    ensures Cell(r, g, b) / 4 % 4 == g
    ensures Cell(r, g, b) % 4 == b
  {
  }

  /** The cell of pixel `i` of a frame. */
  function PixelCell(frame: seq<byte>, i: nat): (k: nat)
    requires 3 * i + 2 < |frame|
    ensures k < Cells
  {
    Cell(Bucket(frame[3 * i]), Bucket(frame[3 * i + 1]), Bucket(frame[3 * i + 2]))
  }

  /** Every frame holds the bytes of a whole picture. */
  predicate WellSized(frames: seq<seq<byte>>) {
    forall i :: 0 <= i < |frames| ==> |frames[i]| >= 3 * PixelsPerFrame
  }

  /** The cells of the pixels of one frame, in order. */
  function FramePixels(frame: seq<byte>): (cells: seq<nat>)
    requires |frame| >= 3 * PixelsPerFrame
    ensures |cells| == PixelsPerFrame
    ensures forall i :: 0 <= i < |cells| ==> cells[i] < Cells
  {
    seq(PixelsPerFrame, i requires 0 <= i < PixelsPerFrame => PixelCell(frame, i))
  }

  /** The cells of all pixels of a video, frame after frame. */
  function Pixels(frames: seq<seq<byte>>): (cells: seq<nat>)
    requires WellSized(frames)
    ensures |cells| == |frames| * PixelsPerFrame
    ensures forall i :: 0 <= i < |cells| ==> cells[i] < Cells
    decreases |frames|
  {
    if |frames| == 0 then []
    else
      var init := frames[..|frames| - 1];
      assert WellSized(init) by {
        forall i | 0 <= i < |init| ensures |init[i]| >= 3 * PixelsPerFrame {
          assert init[i] == frames[i];
        }
      }
      Pixels(init) + FramePixels(frames[|frames| - 1])
  }

  /** Per cell, how many of `cells` fall into it. */
  function Tally(cells: seq<nat>): (counts: seq<nat>)
    ensures |counts| == Cells
  {
    seq(Cells, k => multiset(cells)[k])
  }

  /** A new pixel raises the count of its own cell by one and no other. */
  lemma TallyAppend(cells: seq<nat>, c: nat)
    requires c < Cells
    ensures Tally(cells + [c]) == Tally(cells)[c := Tally(cells)[c] + 1]
  {
    assert multiset(cells + [c]) == multiset(cells) + multiset{c};
  }

  /** The counts of all cells add up to the number of pixels. */
  lemma {:induction false} TallySum(cells: seq<nat>)
    requires forall i :: 0 <= i < |cells| ==> cells[i] < Cells
    ensures Sum(Tally(cells)) == |cells|
    decreases |cells|
  {
    if |cells| == 0 {
      assert Tally(cells) == seq(Cells, _ => 0);
      SumZeros(Cells);
    } else {
      var init := cells[..|cells| - 1];
      var c := cells[|cells| - 1];
      assert cells == init + [c];
      TallySum(init);
      TallyAppend(init, c);
      SumIncrement(Tally(init), c);
    }
  }

  /** No cell counts more pixels than there are. */
  lemma {:induction false} TallyBound(cells: seq<nat>, k: nat)
    ensures multiset(cells)[k] <= |cells|
    decreases |cells|
  {
    if |cells| > 0 {
      var init := cells[..|cells| - 1];
      assert cells == init + [cells[|cells| - 1]];
      TallyBound(init, k);
    }
  }

  /** A count scaled to the 0..255 range: the share of the pixels in the
      cell, times 255, rounded down. Without any pixel the share is taken as
      zero. */
  function Scaled(x: nat, n: nat): (q: nat)
    requires x <= n
    ensures q <= 255
    ensures n > 0 ==> q * n <= 255 * x < (q + 1) * n
    ensures n == 0 ==> q == 0
  {
    if n == 0 then 0
    else
      ScaleRange(x, n);
      255 * x / n
  }

  /** The scaled count as the byte the histogram stores. */
  function Scale(x: nat, n: nat): (v: byte)
    requires x <= n
    ensures v as nat == Scaled(x, n)
  {
    Scaled(x, n) as byte
  }

  lemma ScaleRange(x: nat, n: nat)
    requires x <= n && n > 0
    ensures 255 * x / n <= 255
    ensures (255 * x / n) * n <= 255 * x < (255 * x / n + 1) * n
  {
    var q := 255 * x / n;
    DivBounds(255 * x, n);
    if q > 255 {
      MulMono(n, 256, q);
      MulMono(n, x, n);
    }
  }

  lemma DivBounds(a: nat, n: nat)
    requires n > 0
    ensures (a / n) * n <= a < (a / n + 1) * n
  {
    assert a == (a / n) * n + a % n;
  }

  lemma MulMono(m: nat, a: nat, b: nat)
    requires a <= b
    ensures m * a <= m * b && a * m <= b * m
  {
    assert m * b == m * a + m * (b - a);
  }

  /** A cell holding at least a 64th of the pixels scales to at least 3. */
  lemma ScaleNonZero(x: nat, n: nat)
    requires x <= n && n > 0 && 64 * x >= n
    ensures Scale(x, n) != 0
  {
  }

  /** The reference histogram of a video: the scaled count of every cell. */
  function ColorHistogramOf(frames: seq<seq<byte>>): (h: seq<byte>)
    requires WellSized(frames)
    ensures |h| == Cells
  {
    var cells := Pixels(frames);
    seq(Cells, k requires 0 <= k < Cells =>
      TallyBound(cells, k);
      Scale(multiset(cells)[k], |cells|))
  }

  /** Counts the pixels of one frame into `counts`. */
  method CountFrame(counts: seq<nat>, frame: seq<byte>, ghost before: seq<nat>) returns (r: seq<nat>)
    requires |frame| >= 3 * PixelsPerFrame && counts == Tally(before)
    ensures r == Tally(before + FramePixels(frame))
  {
    r := counts;
    for i := 0 to PixelsPerFrame
      invariant r == Tally(before + FramePixels(frame)[..i])
    {
      var c := Cell(Bucket(frame[3 * i]), Bucket(frame[3 * i + 1]), Bucket(frame[3 * i + 2]));
      ghost var cells := FramePixels(frame);
      assert cells[i] == c;
      PrefixStep(before, cells, i);
      TallyAppend(before + cells[..i], c);
      r := r[c := r[c] + 1];
    }
    assert FramePixels(frame)[..PixelsPerFrame] == FramePixels(frame);
  }

  lemma PrefixStep(before: seq<nat>, cells: seq<nat>, i: nat)
    requires i < |cells|
    ensures before + cells[..i + 1] == (before + cells[..i]) + [cells[i]]
  {
  }

  /** Counts the pixels of every frame, and how many there are. */
  method CountCells(frames: seq<seq<byte>>) returns (counts: seq<nat>, numPixel: nat)
    requires WellSized(frames)
    ensures counts == Tally(Pixels(frames)) && numPixel == |Pixels(frames)|
    ensures Sum(counts) == numPixel
  {
    counts := seq(Cells, _ => 0);
    numPixel := 0;
    assert counts == Tally([]);
    for f := 0 to |frames|
      invariant WellSized(frames[..f])
      invariant counts == Tally(Pixels(frames[..f]))
      invariant numPixel == f * PixelsPerFrame
    {
      assert frames[..f + 1][..f] == frames[..f];
      assert frames[..f + 1][f] == frames[f];
      counts := CountFrame(counts, frames[f], Pixels(frames[..f]));
      numPixel := numPixel + PixelsPerFrame;
    }
    assert frames[..|frames|] == frames;
    TallySum(Pixels(frames));
  }

  /** calculate_color_histogram / calculate_histogram: counts the cells
      pixel by pixel, frame by frame, then scales every count by the number
      of pixels seen. */
  method CalculateColorHistogram(frames: seq<seq<byte>>) returns (h: seq<byte>)
    requires WellSized(frames)
    ensures h == ColorHistogramOf(frames)
  {
    var counts, numPixel := CountCells(frames);
    ghost var cells := Pixels(frames);
    h := seq(Cells, k requires 0 <= k < Cells =>
      TallyBound(cells, k);
      Scale(counts[k], numPixel));
  }

  /** Some count is at least the average. */
  lemma {:induction false} AboveAverage(s: seq<nat>) returns (k: nat)
    requires |s| > 0
    ensures k < |s| && |s| * s[k] >= Sum(s)
    decreases |s|
  {
    var m := |s| - 1;
    if m == 0 {
      k := 0;
    } else {
      var init := s[..m];
      var j := AboveAverage(init);
      assert Sum(s) == Sum(init) + s[m];
      if init[j] >= s[m] {
        k := j;
      } else {
        k := m;
        MulMono(m, init[j], s[m]);
      }
      assert |s| * s[k] == m * s[k] + s[k];
    }
  }

  /** The histogram is all zeros exactly when the video has no frame: once
      a pixel is counted some cell holds at least a 64th of them, which
      scales to at least 3. */
  lemma EmptyHistogram(frames: seq<seq<byte>>)
    requires WellSized(frames)
    ensures (forall k :: 0 <= k < Cells ==> ColorHistogramOf(frames)[k] == 0) <==> |frames| == 0
  {
    if |frames| > 0 {
      var cells := Pixels(frames);
      var counts := Tally(cells);
      TallySum(cells);
      var k := AboveAverage(counts);
      TallyBound(cells, k);
      ScaleNonZero(counts[k], |cells|);
      assert ColorHistogramOf(frames)[k] != 0;
    }
  }

  /** The width of the pixel counter. calculate_color_histogram declares it
      u64; calculate_histogram leaves it untyped, and with only `+= 1` and
      `as f64` applied to it Rust makes it an i32. */
  datatype Counter = U64 | I32

  /** i32 wrap-around: the value in -2^31..2^31-1 that agrees with `x`
      modulo 2^32. */
  function Wrap32(x: int): (w: int)
    ensures -0x8000_0000 <= w < 0x8000_0000
    ensures -0x8000_0000 <= x < 0x8000_0000 ==> w == x
    ensures 0x8000_0000 <= x < 0x1_0000_0000 ==> w == x - 0x1_0000_0000
  {
    (x + 0x8000_0000) % 0x1_0000_0000 - 0x8000_0000
  }

  /** Adding to a wrapped value wraps like adding to the exact one. */
  lemma WrapAdd(x: int, y: int)
    ensures Wrap32(Wrap32(x) + y) == Wrap32(x + y)
  {
    var k := (x + 0x8000_0000) / 0x1_0000_0000;
    assert Wrap32(x) + y == x + y - 0x1_0000_0000 * k;
    ModTurns(x + y + 0x8000_0000, k);
  }

  lemma ModTurns(a: int, k: int)
    ensures (a - 0x1_0000_0000 * k) % 0x1_0000_0000 == a % 0x1_0000_0000
  {
    var q, r := a / 0x1_0000_0000, a % 0x1_0000_0000;
    assert a - 0x1_0000_0000 * k == 0x1_0000_0000 * (q - k) + r;
  }

  /** `((255 * x as f64) / n as f64) as u8` with a pixel count `n` that may
      have wrapped: the cast saturates, so a negative quotient (and -0.0)
      gives 0, +inf gives 255, NaN gives 0, and a share above 255 gives 255. */
  function SaturatingScale(x: nat, n: int): (v: byte)
    ensures n > 0 && x <= n ==> v as nat == Scaled(x, n)
    ensures n > 0 && x >= n ==> v == 255
    ensures n < 0 ==> v == 0
    ensures n == 0 ==> (v == 0 <==> x == 0) && (x > 0 ==> v == 255)
  {
    if n < 0 then 0
    else if n == 0 then (if x == 0 then 0 else 255)
    else
      var q := 255 * x / n;
      QuotientRange(x, n);
      if q >= 255 then 255 else q as byte
  }

  /** The share `255 * x / n` reaches 255 once `x` reaches `n`, and is the
      scaled count below that. */
  lemma QuotientRange(x: nat, n: nat)
    requires n > 0
    ensures x >= n ==> 255 * x / n >= 255
    ensures x <= n ==> Scaled(x, n) == 255 * x / n
  {
    DivBounds(255 * x, n);
    if x >= n {
      MulMono(255, n, x);
      if 255 * x / n < 255 {
        MulMono(n, 255 * x / n + 1, 255);
      }
    }
  }

  /** The histogram with every cell 0. */
  const ZeroHistogram: seq<byte> := seq(Cells, _ => 0)

  /** The histogram calculate_histogram computes: every cell count scaled by
      the wrapped i32 pixel count. */
  function NarrowHistogramOf(frames: seq<seq<byte>>): (h: seq<byte>)
    requires WellSized(frames)
    ensures |h| == Cells
  {
    var cells := Pixels(frames);
    seq(Cells, k requires 0 <= k < Cells => SaturatingScale(multiset(cells)[k], Wrap32(|cells|)))
  }

  /** The histogram a pass stores, by the width of its pixel counter. */
  function HistogramOf(counter: Counter, frames: seq<seq<byte>>): (h: seq<byte>)
    requires WellSized(frames)
    ensures |h| == Cells
  {
    match counter
    case U64 => ColorHistogramOf(frames)
    case I32 => NarrowHistogramOf(frames)
  }

  /** The counting loop of calculate_histogram: the cell counts are u64 and
      exact; the pixel counter is an i32 that wraps, as in a release build.
      A frame's 16384 single increments wrap to where one wrapped addition of
      16384 does, so the counter moves a frame at a time. */
  method CountCellsNarrow(frames: seq<seq<byte>>) returns (counts: seq<nat>, numPixel: int)
    requires WellSized(frames)
    ensures counts == Tally(Pixels(frames))
    ensures Sum(counts) == |Pixels(frames)|
    ensures numPixel == Wrap32(Sum(counts))
    ensures Sum(counts) < 0x8000_0000 ==> numPixel == Sum(counts)
  {
    counts := seq(Cells, _ => 0);
    numPixel := 0;
    assert counts == Tally([]);
    for f := 0 to |frames|
      invariant WellSized(frames[..f])
      invariant counts == Tally(Pixels(frames[..f]))
      invariant numPixel == Wrap32(f * PixelsPerFrame)
    {
      assert frames[..f + 1][..f] == frames[..f];
      assert frames[..f + 1][f] == frames[f];
      counts := CountFrame(counts, frames[f], Pixels(frames[..f]));
      WrapAdd(f * PixelsPerFrame, PixelsPerFrame);
      numPixel := Wrap32(numPixel + PixelsPerFrame);
    }
    assert frames[..|frames|] == frames;
    TallySum(Pixels(frames));
  }

  /** calculate_histogram: the same counting as calculate_color_histogram,
      but every count is scaled by the i32 pixel counter. */
  method CalculateHistogram(frames: seq<seq<byte>>) returns (h: seq<byte>)
    requires WellSized(frames)
    ensures h == NarrowHistogramOf(frames)
  {
    var counts, numPixel := CountCellsNarrow(frames);
    h := seq(Cells, k requires 0 <= k < Cells => SaturatingScale(counts[k], numPixel));
  }

  /** Below 2^31 pixels, 131072 frames, the i32 counter never wraps and the
      two histograms agree. */
  lemma NarrowAgrees(frames: seq<seq<byte>>)
    requires WellSized(frames) && |frames| < 0x2_0000
    ensures NarrowHistogramOf(frames) == ColorHistogramOf(frames)
  {
    var cells := Pixels(frames);
    forall k | 0 <= k < Cells
      ensures NarrowHistogramOf(frames)[k] == ColorHistogramOf(frames)[k]
    {
      TallyBound(cells, k);
    }
  }

  /** From 2^31 up to 2^32 pixels, 131072 to 262143 frames (73 to 146
      minutes at 30 frames a second), the i32 counter is negative, every
      cell casts to 0, and the histogram is all zeros, unlike the exact
      histogram of the same video. */
  lemma LongVideoZeroed(frames: seq<seq<byte>>)
    requires WellSized(frames) && 0x2_0000 <= |frames| < 0x4_0000
    ensures exists k :: 0 <= k < Cells && ColorHistogramOf(frames)[k] != 0
    ensures NarrowHistogramOf(frames) == ZeroHistogram
  {
    var cells := Pixels(frames);
    assert Wrap32(|cells|) < 0;
    assert NarrowHistogramOf(frames) == ZeroHistogram;
    EmptyHistogram(frames);
  }
}
