/** The scanline copy that every output module performs when a bucket
    arrives: row `r` of a bucket `bw` pixels wide, starting at pixel
    (`x0`, `y0`) of an image `width` pixels wide with `ch` values per pixel,
    is copied from bucket offset `r·bw·ch` to image offset
    `((y0 + r)·width + x0)·ch`, `bw·ch` values per row. Pixel values are of
    any type `T`. */
module ScanlineCopy {

  /** Image offset of the first value of bucket row `r`. */
  function RowStart(width: nat, ch: nat, x0: nat, y0: nat, r: nat): nat
  {
    ((y0 + r) * width + x0) * ch
  }

  /** Image offset of value `k` of bucket row `r`. */
  function Dst(width: nat, ch: nat, x0: nat, y0: nat, r: nat, k: nat): nat
  {
    RowStart(width, ch, x0, y0, r) + k
  }

  /** Number of values in one bucket row. */
  function RowLen(bw: nat, ch: nat): nat
  {
    bw * ch
  }

  /** Bucket offset of value `k` of bucket row `r`. */
  function Src(bw: nat, ch: nat, r: nat, k: nat): nat
  {
    r * (bw * ch) + k
  }

  /** Whether every row's slice lies inside both buffers, so that no slice
      index is out of range. */
  predicate Fits(bufLen: nat, bucketLen: nat, width: nat, ch: nat, x0: nat, bw: nat, y0: nat, rows: nat)
  {
    rows == 0 || (RowStart(width, ch, x0, y0, rows - 1) + bw * ch <= bufLen && rows * (bw * ch) <= bucketLen)
  }

  /** Whether image offset `i` lies in the slice of one of the first `rows` rows. */
  ghost predicate Touched(width: nat, ch: nat, x0: nat, bw: nat, y0: nat, rows: nat, i: int)
  {
    exists r :: 0 <= r < rows && RowStart(width, ch, x0, y0, r) <= i < RowStart(width, ch, x0, y0, r) + bw * ch
  }

  lemma MulMono(a: nat, b: nat, c: nat)
    requires a <= b
    ensures a * c <= b * c
  {
  }

  lemma MulSucc(a: nat, c: nat)
    ensures (a + 1) * c == a * c + c
  {
  }

  /** When the last row fits, every earlier row fits. */
  lemma RowFits(bufLen: nat, bucketLen: nat, width: nat, ch: nat, x0: nat, bw: nat, y0: nat, rows: nat, r: nat)
    requires Fits(bufLen, bucketLen, width, ch, x0, bw, y0, rows) && r < rows
    ensures RowStart(width, ch, x0, y0, r) + bw * ch <= bufLen
    ensures (r + 1) * (bw * ch) <= bucketLen
    ensures r * (bw * ch) + bw * ch == (r + 1) * (bw * ch)
  {
    MulMono(y0 + r, y0 + rows - 1, width);
    MulMono((y0 + r) * width + x0, (y0 + rows - 1) * width + x0, ch);
    MulMono(r + 1, rows, bw * ch);
    MulSucc(r, bw * ch);
  }

  /** Rows no wider than the image do not overlap: each row's slice ends
      before any later row's begins. */
  lemma RowsApart(width: nat, ch: nat, x0: nat, bw: nat, y0: nat, r: nat, s: nat)
    requires bw <= width && r < s
    ensures RowStart(width, ch, x0, y0, r) + bw * ch <= RowStart(width, ch, x0, y0, s)
  {
    MulSucc(y0 + r, width);
    MulMono(y0 + r + 1, y0 + s, width);
    MulMono((y0 + r) * width + x0 + bw, (y0 + s) * width + x0, ch);
  }

  /** `buf` with the slice at `dst` replaced by the bucket slice at `src`:
      one `copy_from_slice`. */
  function Paste<T>(buf: seq<T>, bucket: seq<T>, dst: nat, src: nat, len: nat): (out: seq<T>)
    requires dst + len <= |buf| && src + len <= |bucket|
    ensures |out| == |buf|
    ensures forall i :: 0 <= i < |out| && !(dst <= i < dst + len) ==> out[i] == buf[i]
    ensures forall i :: dst <= i < dst + len ==> out[i] == bucket[src + (i - dst)]
  {
    buf[..dst] + bucket[src..src + len] + buf[dst + len..]
  }

  /** `out` is `buf` except inside the slices of the first `r` rows. */
  ghost predicate KeepsUntouched<T>(buf: seq<T>, out: seq<T>, width: nat, ch: nat, x0: nat, bw: nat, y0: nat, r: nat)
  {
    |out| == |buf| && forall i :: 0 <= i < |out| && !Touched(width, ch, x0, bw, y0, r, i) ==> out[i] == buf[i]
  }

  /** Every value of the first `r` bucket rows sits at its image offset in `out`. */
  ghost predicate HoldsRows<T>(out: seq<T>, bucket: seq<T>, width: nat, ch: nat, x0: nat, bw: nat, y0: nat, r: nat)
  {
    forall q, k :: 0 <= q < r && 0 <= k < bw * ch ==>
      Dst(width, ch, x0, y0, q, k) < |out| && Src(bw, ch, q, k) < |bucket|
      && out[Dst(width, ch, x0, y0, q, k)] == bucket[Src(bw, ch, q, k)]
  }

  /** A value in the first `r` rows, or in row `r`, is in the first `r + 1` rows. */
  lemma TouchedGrows(width: nat, ch: nat, x0: nat, bw: nat, y0: nat, r: nat, i: int)
    ensures Touched(width, ch, x0, bw, y0, r, i) ==> Touched(width, ch, x0, bw, y0, r + 1, i)
    ensures RowStart(width, ch, x0, y0, r) <= i < RowStart(width, ch, x0, y0, r) + bw * ch ==>
      Touched(width, ch, x0, bw, y0, r + 1, i)
  {
    if Touched(width, ch, x0, bw, y0, r, i) {
      var q :| 0 <= q < r && RowStart(width, ch, x0, y0, q) <= i < RowStart(width, ch, x0, y0, q) + bw * ch;
      assert 0 <= q < r + 1;
    }
  }

  lemma StepKeepsUntouched<T>(buf: seq<T>, prev: seq<T>, bucket: seq<T>, width: nat, ch: nat, x0: nat, bw: nat, y0: nat, r: nat)
    requires KeepsUntouched(buf, prev, width, ch, x0, bw, y0, r)
    requires RowStart(width, ch, x0, y0, r) + bw * ch <= |prev| && r * (bw * ch) + bw * ch <= |bucket|
    ensures KeepsUntouched(buf, Paste(prev, bucket, RowStart(width, ch, x0, y0, r), r * (bw * ch), bw * ch), width, ch, x0, bw, y0, r + 1)
  {
    var out := Paste(prev, bucket, RowStart(width, ch, x0, y0, r), r * (bw * ch), bw * ch);
    forall i | 0 <= i < |out| && !Touched(width, ch, x0, bw, y0, r + 1, i)
      ensures out[i] == buf[i]
    {
      TouchedGrows(width, ch, x0, bw, y0, r, i);
    }
  }

  lemma StepHoldsRows<T>(prev: seq<T>, bucket: seq<T>, width: nat, ch: nat, x0: nat, bw: nat, y0: nat, r: nat)
    requires bw <= width && HoldsRows(prev, bucket, width, ch, x0, bw, y0, r)
    requires RowStart(width, ch, x0, y0, r) + bw * ch <= |prev| && r * (bw * ch) + bw * ch <= |bucket|
    ensures HoldsRows(Paste(prev, bucket, RowStart(width, ch, x0, y0, r), r * (bw * ch), bw * ch), bucket, width, ch, x0, bw, y0, r + 1)
  {
    var dst, len := RowStart(width, ch, x0, y0, r), bw * ch;
    var out := Paste(prev, bucket, dst, r * len, len);
    forall q, k | 0 <= q < r + 1 && 0 <= k < len
      ensures Dst(width, ch, x0, y0, q, k) < |out| && Src(bw, ch, q, k) < |bucket|
      ensures out[Dst(width, ch, x0, y0, q, k)] == bucket[Src(bw, ch, q, k)]
    {
      if q < r {
        RowsApart(width, ch, x0, bw, y0, q, r);
        assert Dst(width, ch, x0, y0, q, k) < dst;
        assert out[Dst(width, ch, x0, y0, q, k)] == prev[Dst(width, ch, x0, y0, q, k)];
      } else {
        assert Dst(width, ch, x0, y0, q, k) == dst + k;
        assert Src(bw, ch, q, k) == r * len + k;
        assert out[dst + k] == bucket[r * len + (dst + k - dst)];
      }
    }
  }

  /** Copy `rows` bucket rows into `buf`, one slice per row. Values outside
      the rows' slices are unchanged, and when the bucket is no wider than
      the image every bucket value lands at its image offset. */
  method CopyRows<T>(buf: seq<T>, bucket: seq<T>, width: nat, ch: nat, x0: nat, bw: nat, y0: nat, rows: nat)
    returns (out: seq<T>)
    requires Fits(|buf|, |bucket|, width, ch, x0, bw, y0, rows)
    ensures KeepsUntouched(buf, out, width, ch, x0, bw, y0, rows)
    ensures bw <= width ==> HoldsRows(out, bucket, width, ch, x0, bw, y0, rows)
  {
    out := buf;
    var r := 0;
    while r < rows
      invariant 0 <= r <= rows
      invariant KeepsUntouched(buf, out, width, ch, x0, bw, y0, r)
      invariant bw <= width ==> HoldsRows(out, bucket, width, ch, x0, bw, y0, r)
    {
      RowFits(|buf|, |bucket|, width, ch, x0, bw, y0, rows, r);
      var next := Paste(out, bucket, RowStart(width, ch, x0, y0, r), Src(bw, ch, r, 0), RowLen(bw, ch));
      StepKeepsUntouched(buf, out, bucket, width, ch, x0, bw, y0, r);
      if bw <= width {
        StepHoldsRows(out, bucket, width, ch, x0, bw, y0, r);
      }
      out, r := next, r + 1;
    }
  }

  /** A bucket inside a `width`×`height` image fits a buffer of
      `width·height·ch` values, given a bucket of `rows·bw·ch` values. */
  lemma InsideFits(bufLen: nat, bucketLen: nat, width: nat, height: nat, ch: nat, x0: nat, bw: nat, y0: nat, rows: nat)
    requires bufLen == width * height * ch && rows * (bw * ch) <= bucketLen
    requires x0 + bw <= width && y0 + rows <= height
    ensures Fits(bufLen, bucketLen, width, ch, x0, bw, y0, rows)
  {
    if rows > 0 {
      var last := y0 + rows - 1;
      assert RowStart(width, ch, x0, y0, rows - 1) + bw * ch == (last * width + x0 + bw) * ch;
      assert last * width + x0 + bw <= (last + 1) * width by {
        MulSucc(last, width);
      }
      MulMono(last * width + x0 + bw, (last + 1) * width, ch);
      MulMono(last + 1, height, width);
      MulMono((last + 1) * width, height * width, ch);
      assert height * width * ch == width * height * ch;
    }
  }

  /** Offsets `P·ch + c` with `c < ch` order like the pixels `P`. */
  lemma PixelOffsetOrder(p: nat, q: nat, ch: nat, c: nat, bw: nat)
    requires c < ch
    ensures (q * ch <= p * ch + c < q * ch + bw * ch) <==> (q <= p < q + bw)
  {
    if p < q {
      MulSucc(p, ch);
      MulMono(p + 1, q, ch);
    } else if p >= q + bw {
      MulMono(q + bw, p, ch);
    } else {
      MulMono(q, p, ch);
      MulSucc(p, ch);
      MulMono(p + 1, q + bw, ch);
    }
  }

  /** For a bucket inside the image's width, the slice of row `r` holds
      exactly the values of the pixels of image row `y0 + r` between
      `x0` and `x0 + bw`. */
  lemma SegmentIsRectangle(width: nat, ch: nat, x0: nat, bw: nat, y0: nat, r: nat, y: nat, x: nat, c: nat)
    requires x < width && c < ch && x0 + bw <= width
    ensures var i, start := (y * width + x) * ch + c, RowStart(width, ch, x0, y0, r);
      (start <= i < start + bw * ch) <==> (y == y0 + r && x0 <= x < x0 + bw)
  {
    var p, q := y * width + x, (y0 + r) * width + x0;
    PixelOffsetOrder(p, q, ch, c, bw);
    RowOrder(width, x0, bw, y0 + r, y, x);
  }

  /** Pixel (`x`, `y`) lies among the `bw` pixels from (`x0`, `yr`) in
      row-major order exactly when it is in row `yr`, between `x0` and `x0 + bw`. */
  lemma RowOrder(width: nat, x0: nat, bw: nat, yr: nat, y: nat, x: nat)
    requires x < width && x0 + bw <= width
    ensures var p, q := y * width + x, yr * width + x0;
      (q <= p < q + bw) <==> (y == yr && x0 <= x < x0 + bw)
  {
    if y < yr {
      MulSucc(y, width);
      MulMono(y + 1, yr, width);
    } else if y > yr {
      MulSucc(yr, width);
      MulMono(yr + 1, y, width);
    }
  }

  /** The values a copy may change are exactly those of the bucket's pixel
      rectangle. */
  lemma TouchedIsRectangle(width: nat, ch: nat, x0: nat, bw: nat, y0: nat, rows: nat, y: nat, x: nat, c: nat)
    requires x < width && c < ch && x0 + bw <= width
    ensures Touched(width, ch, x0, bw, y0, rows, (y * width + x) * ch + c)
      <==> (y0 <= y < y0 + rows && x0 <= x < x0 + bw)
  {
    var i := (y * width + x) * ch + c;
    if Touched(width, ch, x0, bw, y0, rows, i) {
      var r :| 0 <= r < rows && RowStart(width, ch, x0, y0, r) <= i < RowStart(width, ch, x0, y0, r) + bw * ch;
      SegmentIsRectangle(width, ch, x0, bw, y0, r, y, x, c);
    }
    if y0 <= y < y0 + rows && x0 <= x < x0 + bw {
      SegmentIsRectangle(width, ch, x0, bw, y0, y - y0, y, x, c);
    }
  }

  /** Value `c` of image pixel (`x`, `y`) inside the bucket is value `c` of
      bucket pixel (`x - x0`, `y - y0`). */
  lemma PixelIndices(width: nat, ch: nat, x0: nat, bw: nat, y0: nat, y: nat, x: nat, c: nat)
    requires y0 <= y && x0 <= x < x0 + bw && c < ch
    ensures (x - x0) * ch + c < bw * ch
    ensures Dst(width, ch, x0, y0, y - y0, (x - x0) * ch + c) == (y * width + x) * ch + c
    ensures Src(bw, ch, y - y0, (x - x0) * ch + c) == ((y - y0) * bw + (x - x0)) * ch + c
  {
    MulSucc(x - x0, ch);
    MulMono(x - x0 + 1, bw, ch);
  }
}
