/**
  Planar I420 to packed BGRA conversion (`yuv420_to_bgra`). The input holds a `w` x `h`
  luma plane followed by two `w/2` x `h/2` chroma planes (U, then V). Each chroma sample
  is repeated over its 2x2 block of luma samples, the three colour channels are computed
  from the full-range YCbCr equations, clipped to [0, 255] and truncated to bytes, and
  the output holds four bytes per pixel (blue, green, red, alpha = 0), row by row.

  The colour equations are evaluated on exact reals; the single-precision rounding of the
  source is not part of the model.
*/
module YuvToBgra {
  import Arith

  newtype byte = b: int | 0 <= b < 256

  predicate Even(n: int) {
    n % 2 == 0
  }

  /** Bytes of the luma plane: one per pixel. */
  function LumaSize(w: nat, h: nat): nat {
    w * h
  }

  /** Bytes of each chroma plane: one per 2x2 block. */
  function ChromaSize(w: nat, h: nat): nat {
    (w / 2) * (h / 2)
  }

  /** Bytes of a whole I420 frame: the luma plane and the two chroma planes. */
  function FrameSize(w: nat, h: nat): nat {
    LumaSize(w, h) + 2 * ChromaSize(w, h)
  }

  /** A frame with a byte to read has pixels: neither dimension is 0. */
  lemma FrameSizePositive(w: nat, h: nat)
    ensures FrameSize(w, h) > 0 ==> w > 0 && h > 0
  {
  }

  /** The chroma sample that pixel `(i, j)` of a `w`-wide frame uses, counted within its chroma plane. */
  function ChromaIndex(w: nat, i: nat, j: nat): nat {
    (i / 2) * (w / 2) + j / 2
  }

  /** `np.frombuffer(yuv, count=count, offset=offset)`: `count` bytes starting at `offset`. */
  function Plane(yuv: seq<byte>, offset: nat, count: nat): seq<byte>
    requires offset + count <= |yuv|
  {
    yuv[offset..offset + count]
  }

  /** A two-dimensional numpy array of bytes: a sequence of rows. */
  type Matrix = seq<seq<byte>>

  /** `m` has `rows` rows of `cols` elements each. */
  predicate IsMatrix(m: Matrix, rows: nat, cols: nat) {
    |m| == rows && forall i :: 0 <= i < |m| ==> |m[i]| == cols
  }

  /** `tobytes()`: the rows one after another. */
  function Flatten(m: Matrix): seq<byte> {
    if |m| == 0 then [] else m[0] + Flatten(m[1..])
  }

  lemma {:induction false} FlattenLength(m: Matrix, rows: nat, cols: nat)
    requires IsMatrix(m, rows, cols)
    ensures |Flatten(m)| == rows * cols
  {
    if rows > 0 {
      FlattenLength(m[1..], rows - 1, cols);
    }
  }

  /** Element `(i, j)` of a matrix with rows of `cols` elements is byte `i * cols + j` of its bytes. */
  lemma {:induction false} FlattenAt(m: Matrix, rows: nat, cols: nat, i: nat, j: nat)
    requires IsMatrix(m, rows, cols)
    requires i < rows && j < cols
    ensures i * cols + j < |Flatten(m)| && Flatten(m)[i * cols + j] == m[i][j]
  {
    FlattenLength(m, rows, cols);
    FlattenLength(m[1..], rows - 1, cols);
    if i > 0 {
      FlattenAt(m[1..], rows - 1, cols, i - 1, j);
      Arith.ShiftRows(i, 1, cols);
    }
  }

  /** `reshape(rows, cols)` of a flat buffer: consecutive runs of `cols` bytes become the rows. */
  function Reshape(s: seq<byte>, rows: nat, cols: nat): (m: Matrix)
    requires |s| == cols * rows
    ensures IsMatrix(m, rows, cols)
    decreases rows
  {
    if rows == 0 then []
    else
      Arith.MulMonotone(1, rows, cols);
      Arith.ShiftRows(rows, 1, cols);
      [s[..cols]] + Reshape(s[cols..], rows - 1, cols)
  }

  /** Reshaping keeps the bytes in order: `tobytes()` undoes `reshape`. */
  lemma {:induction false} FlattenReshape(s: seq<byte>, rows: nat, cols: nat)
    requires |s| == cols * rows
    ensures Flatten(Reshape(s, rows, cols)) == s
  {
    if rows > 0 {
      Arith.MulMonotone(1, rows, cols);
      Arith.ShiftRows(rows, 1, cols);
      FlattenReshape(s[cols..], rows - 1, cols);
      assert s == s[..cols] + s[cols..];
    }
  }

  /** Element `(i, j)` of the reshaped buffer is byte `i * cols + j`. */
  lemma ReshapeAt(s: seq<byte>, rows: nat, cols: nat, i: nat, j: nat)
    requires |s| == cols * rows
    requires i < rows && j < cols
    ensures i * cols + j < |s| && Reshape(s, rows, cols)[i][j] == s[i * cols + j]
  {
    FlattenReshape(s, rows, cols);
    FlattenAt(Reshape(s, rows, cols), rows, cols, i, j);
  }

  /** `repeat(2)` along one axis: every element twice in succession (the rows of a matrix, or the bytes of one row). */
  function Repeat<T>(s: seq<T>): (r: seq<T>)
    ensures |r| == 2 * |s|
  {
    if |s| == 0 then [] else [s[0], s[0]] + Repeat(s[1..])
  }

  /** Element `k` of the repeated sequence is element `k / 2` of the original. */
  lemma {:induction false} RepeatAt<T>(s: seq<T>, k: nat)
    requires k < 2 * |s|
    ensures Repeat(s)[k] == s[k / 2]
  {
    if k >= 2 {
      RepeatAt(s[1..], k - 2);
    }
  }

  /** `m.repeat(2, axis=1)`: every row with each element doubled. */
  function RepeatCols(m: Matrix): (r: Matrix)
    ensures |r| == |m|
  {
    seq(|m|, i requires 0 <= i < |m| => Repeat(m[i]))
  }

  /** A chroma plane brought to luma resolution: `.repeat(2, axis=0).repeat(2, axis=1)`. */
  function Upsample(c: Matrix): Matrix {
    RepeatCols(Repeat(c))
  }

  /** The upsampled plane is twice as high and twice as wide. */
  lemma UpsampleShape(c: Matrix, ch: nat, cw: nat)
    requires IsMatrix(c, ch, cw)
    ensures IsMatrix(Upsample(c), 2 * ch, 2 * cw)
  {
    forall k | 0 <= k < 2 * ch
      ensures |Upsample(c)[k]| == 2 * cw
    {
      RepeatAt(c, k);
    }
  }

  /** Pixel `(i, j)` of the upsampled plane takes sample `(i / 2, j / 2)`: each sample covers one 2x2 block. */
  lemma UpsampleAt(c: Matrix, ch: nat, cw: nat, i: nat, j: nat)
    requires IsMatrix(c, ch, cw)
    requires i < 2 * ch && j < 2 * cw
    ensures IsMatrix(Upsample(c), 2 * ch, 2 * cw)
    ensures Upsample(c)[i][j] == c[i / 2][j / 2]
  {
    UpsampleShape(c, ch, cw);
    RepeatAt(c, i);
    RepeatAt(c[i / 2], j);
  }

  /** `np.clip(x, 0, 255)`. */
  function Clip(x: real): (r: real)
    ensures 0.0 <= r <= 255.0
    ensures 0.0 <= x <= 255.0 ==> r == x
  {
    if x < 0.0 then 0.0 else if x > 255.0 then 255.0 else x
  }

  /** `.astype(np.uint8)` of a clipped value: truncation, which for values in [0, 255] is the floor. */
  function ToUint8(x: real): (b: byte)
    ensures (b as int) as real <= Clip(x) < (b as int) as real + 1.0
  {
    Clip(x).Floor as byte
  }

  /** A byte value read as a float. */
  function Level(c: byte): real {
    (c as int) as real
  }

  /** A chroma byte as a signed difference: `astype(np.float32) - 128.0`. */
  function Centered(c: byte): real {
    Level(c) - 128.0
  }

  /** Red: `y + 1.402 (v - 128)`, clipped and truncated. */
  function RedOf(y: byte, v: byte): byte {
    ToUint8(Level(y) + 1.402 * Centered(v))
  }

  /** Green: `y - 0.344136 (u - 128) - 0.714136 (v - 128)`, clipped and truncated. */
  function GreenOf(y: byte, u: byte, v: byte): byte {
    ToUint8(Level(y) - 0.344136 * Centered(u) - 0.714136 * Centered(v))
  }

  /** Blue: `y + 1.772 (u - 128)`, clipped and truncated. */
  function BlueOf(y: byte, u: byte): byte {
    ToUint8(Level(y) + 1.772 * Centered(u))
  }

  /** A byte value passes through clip-and-truncate unchanged. */
  lemma ToUint8OfLevel(c: byte)
    ensures ToUint8(Level(c)) == c
  {
    var b := ToUint8(Level(c));
    assert (b as int) <= (c as int) < (b as int) + 1;
  }

  /** With neutral chroma (U = V = 128) every channel equals the luma: the frame shows grey levels. */
  lemma NeutralChroma(y: byte)
    ensures BlueOf(y, 128) == y && GreenOf(y, 128, 128) == y && RedOf(y, 128) == y
  {
    ToUint8OfLevel(y);
  }

  /** For fixed chroma, more luma never gives less of any channel. */
  lemma ChannelsMonotoneInLuma(y1: byte, y2: byte, u: byte, v: byte)
    requires y1 <= y2
    ensures BlueOf(y1, u) <= BlueOf(y2, u)
    ensures GreenOf(y1, u, v) <= GreenOf(y2, u, v)
    ensures RedOf(y1, v) <= RedOf(y2, v)
  {
    var l1, l2 := Level(y1), Level(y2);
    assert l1 <= l2;
    var db, dr := 1.772 * Centered(u), 1.402 * Centered(v);
    var dg := 0.344136 * Centered(u) + 0.714136 * Centered(v);
    ToUint8Monotone(l1 + db, l2 + db);
    assert Level(y1) - 0.344136 * Centered(u) - 0.714136 * Centered(v) == l1 - dg;
    assert Level(y2) - 0.344136 * Centered(u) - 0.714136 * Centered(v) == l2 - dg;
    ToUint8Monotone(l1 - dg, l2 - dg);
    ToUint8Monotone(l1 + dr, l2 + dr);
  }

  /** Clip-and-truncate is monotone. */
  lemma ToUint8Monotone(a: real, b: real)
    requires a <= b
    ensures ToUint8(a) <= ToUint8(b)
  {
    assert Clip(a) <= Clip(b);
    var ba, bb := ToUint8(a), ToUint8(b);
    assert (ba as int) as real <= Clip(b) < (bb as int) as real + 1.0;
  }

  /** The blue plane, element by element. */
  function Blues(y: Matrix, u2: Matrix, rows: nat, cols: nat): (b: Matrix)
    requires IsMatrix(y, rows, cols) && IsMatrix(u2, rows, cols)
    ensures IsMatrix(b, rows, cols)
  {
    seq(rows, i requires 0 <= i < rows => seq(cols, j requires 0 <= j < cols => BlueOf(y[i][j], u2[i][j])))
  }

  /** The green plane, element by element. */
  function Greens(y: Matrix, u2: Matrix, v2: Matrix, rows: nat, cols: nat): (g: Matrix)
    requires IsMatrix(y, rows, cols) && IsMatrix(u2, rows, cols) && IsMatrix(v2, rows, cols)
    ensures IsMatrix(g, rows, cols)
  {
    seq(rows, i requires 0 <= i < rows => seq(cols, j requires 0 <= j < cols => GreenOf(y[i][j], u2[i][j], v2[i][j])))
  }

  /** The red plane, element by element. */
  function Reds(y: Matrix, v2: Matrix, rows: nat, cols: nat): (r: Matrix)
    requires IsMatrix(y, rows, cols) && IsMatrix(v2, rows, cols)
    ensures IsMatrix(r, rows, cols)
  {
    seq(rows, i requires 0 <= i < rows => seq(cols, j requires 0 <= j < cols => RedOf(y[i][j], v2[i][j])))
  }

  /** `np.zeros_like(r)`: the alpha plane. */
  function Zeros(rows: nat, cols: nat): (a: Matrix)
    ensures IsMatrix(a, rows, cols)
  {
    seq(rows, _ => seq(cols, _ => 0))
  }

  /** Channel `c` (0 blue, 1 green, 2 red, 3 alpha) of pixel `k` of four equally long rows. */
  function Channel(b: seq<byte>, g: seq<byte>, r: seq<byte>, a: seq<byte>, c: nat, k: nat): byte
    requires |g| == |b| && |r| == |b| && |a| == |b|
    requires c < 4 && k < |b|
  {
    if c == 0 then b[k] else if c == 1 then g[k] else if c == 2 then r[k] else a[k]
  }

  /** One row of `np.dstack([b, g, r, a])`: the four rows interleaved, four bytes per pixel. */
  function Interleave(b: seq<byte>, g: seq<byte>, r: seq<byte>, a: seq<byte>): (out: seq<byte>)
    requires |g| == |b| && |r| == |b| && |a| == |b|
    ensures |out| == 4 * |b|
  {
    seq(4 * |b|, n requires 0 <= n < 4 * |b| => Channel(b, g, r, a, n % 4, n / 4))
  }

  /** Pixel `p` of an interleaved row is bytes `4p .. 4p+3`, in the order blue, green, red, alpha. */
  lemma InterleaveAt(b: seq<byte>, g: seq<byte>, r: seq<byte>, a: seq<byte>, p: nat)
    requires |g| == |b| && |r| == |b| && |a| == |b|
    requires p < |b|
    ensures var out := Interleave(b, g, r, a);
            out[4 * p] == b[p] && out[4 * p + 1] == g[p] && out[4 * p + 2] == r[p] && out[4 * p + 3] == a[p]
  {
  }

  /** `np.dstack([b, g, r, a])` for `rows` x `cols` planes, as rows of `4 * cols` bytes. */
  function Dstack(b: Matrix, g: Matrix, r: Matrix, a: Matrix, rows: nat, cols: nat): (d: Matrix)
    requires IsMatrix(b, rows, cols) && IsMatrix(g, rows, cols) && IsMatrix(r, rows, cols) && IsMatrix(a, rows, cols)
    ensures IsMatrix(d, rows, 4 * cols)
  {
    seq(rows, i requires 0 <= i < rows => Interleave(b[i], g[i], r[i], a[i]))
  }

  /** In the bytes of the stacked planes, pixel `(i, j)` is bytes `4 (i*cols + j) .. +3`: blue, green, red, alpha. */
  lemma DstackAt(b: Matrix, g: Matrix, r: Matrix, a: Matrix, rows: nat, cols: nat, i: nat, j: nat)
    requires IsMatrix(b, rows, cols) && IsMatrix(g, rows, cols) && IsMatrix(r, rows, cols) && IsMatrix(a, rows, cols)
    requires i < rows && j < cols
    ensures var out := Flatten(Dstack(b, g, r, a, rows, cols));
            var p := i * cols + j;
            4 * p + 3 < |out| &&
            out[4 * p] == b[i][j] && out[4 * p + 1] == g[i][j] && out[4 * p + 2] == r[i][j] && out[4 * p + 3] == a[i][j]
  {
    var d := Dstack(b, g, r, a, rows, cols);
    InterleaveAt(b[i], g[i], r[i], a[i], j);
    Arith.PixelBytes(i, j, cols);
    FlattenAt(d, rows, 4 * cols, i, 4 * j);
    FlattenAt(d, rows, 4 * cols, i, 4 * j + 1);
    FlattenAt(d, rows, 4 * cols, i, 4 * j + 2);
    FlattenAt(d, rows, 4 * cols, i, 4 * j + 3);
  }

  /** The luma plane: the first `w * h` bytes, `reshape(h, w)`. */
  function LumaPlane(yuv: seq<byte>, w: nat, h: nat): (y: Matrix)
    requires |yuv| >= FrameSize(w, h)
    ensures IsMatrix(y, h, w)
  {
    Reshape(Plane(yuv, 0, LumaSize(w, h)), h, w)
  }

  /** A chroma plane: `(w/2) * (h/2)` bytes from `offset` on, `reshape(h/2, w/2)`. */
  function ChromaPlane(yuv: seq<byte>, w: nat, h: nat, offset: nat): (c: Matrix)
    requires offset + ChromaSize(w, h) <= |yuv|
    ensures IsMatrix(c, h / 2, w / 2)
  {
    Reshape(Plane(yuv, offset, ChromaSize(w, h)), h / 2, w / 2)
  }

  /** Luma sample `(i, j)` is input byte `i * w + j`. */
  lemma LumaAt(yuv: seq<byte>, w: nat, h: nat, i: nat, j: nat)
    requires |yuv| >= FrameSize(w, h)
    requires i < h && j < w
    ensures i * w + j < LumaSize(w, h) && LumaPlane(yuv, w, h)[i][j] == yuv[i * w + j]
  {
    ReshapeAt(Plane(yuv, 0, LumaSize(w, h)), h, w, i, j);
  }

  /** A chroma plane at luma resolution: `(w/2) * (h/2)` bytes from `offset` on, reshaped and upsampled to `h` x `w`. */
  function UpsampledChroma(yuv: seq<byte>, w: nat, h: nat, offset: nat): (c: Matrix)
    requires Even(w) && Even(h)
    requires offset + ChromaSize(w, h) <= |yuv|
    ensures IsMatrix(c, h, w)
  {
    var plane := ChromaPlane(yuv, w, h, offset);
    UpsampleShape(plane, h / 2, w / 2);
    Upsample(plane)
  }

  /** Upsampled chroma sample `(i, j)` of the plane at `offset` is input byte `offset + ChromaIndex(w, i, j)`. */
  lemma ChromaAt(yuv: seq<byte>, w: nat, h: nat, offset: nat, i: nat, j: nat)
    requires Even(w) && Even(h)
    requires offset + ChromaSize(w, h) <= |yuv|
    requires i < h && j < w
    ensures ChromaIndex(w, i, j) < ChromaSize(w, h)
    ensures UpsampledChroma(yuv, w, h, offset)[i][j] == yuv[offset + ChromaIndex(w, i, j)]
  {
    var cw, ch := w / 2, h / 2;
    assert w == 2 * cw && h == 2 * ch;
    UpsampleAt(ChromaPlane(yuv, w, h, offset), ch, cw, i, j);
    ReshapeAt(Plane(yuv, offset, ChromaSize(w, h)), ch, cw, i / 2, j / 2);
  }

  /**
    `np.dstack([b, g, r, a]).tobytes()` for the colour planes computed, element by element,
    from the luma plane `y` and the upsampled chroma planes `u2` and `v2`.
  */
  function Stack(y: Matrix, u2: Matrix, v2: Matrix, rows: nat, cols: nat): (out: seq<byte>)
    requires IsMatrix(y, rows, cols) && IsMatrix(u2, rows, cols) && IsMatrix(v2, rows, cols)
    ensures |out| == cols * rows * 4
  {
    var d := Dstack(Blues(y, u2, rows, cols), Greens(y, u2, v2, rows, cols), Reds(y, v2, rows, cols), Zeros(rows, cols), rows, cols);
    FlattenLength(d, rows, 4 * cols);
    Arith.FourBytesPerPixel(rows, cols);
    Flatten(d)
  }

  /**
    Pixel `(i, j)` of the stacked planes is bytes `4p .. 4p+3`, `p = i*cols + j`: blue, green,
    red and a zero alpha, computed from the samples `ys`, `us` and `vs` the planes hold at `(i, j)`.
  */
  lemma StackedPixel(y: Matrix, u2: Matrix, v2: Matrix, rows: nat, cols: nat, i: nat, j: nat, ys: byte, us: byte, vs: byte)
    requires IsMatrix(y, rows, cols) && IsMatrix(u2, rows, cols) && IsMatrix(v2, rows, cols)
    requires i < rows && j < cols
    requires y[i][j] == ys && u2[i][j] == us && v2[i][j] == vs
    ensures var out := Stack(y, u2, v2, rows, cols);
            var p := i * cols + j;
            4 * p + 3 < |out| &&
            out[4 * p] == BlueOf(ys, us) &&
            out[4 * p + 1] == GreenOf(ys, us, vs) &&
            out[4 * p + 2] == RedOf(ys, vs) &&
            out[4 * p + 3] == 0
  {
    DstackAt(Blues(y, u2, rows, cols), Greens(y, u2, v2, rows, cols), Reds(y, v2, rows, cols), Zeros(rows, cols), rows, cols, i, j);
  }

  /**
    `yuv420_to_bgra(yuv, w, h)`. The size must be even in both directions: for odd sizes
    the upsampled chroma planes do not have the luma plane's shape.
  */
  function Yuv420ToBgra(yuv: seq<byte>, w: nat, h: nat): (out: seq<byte>)
    requires Even(w) && Even(h)
    requires |yuv| >= FrameSize(w, h)
    ensures |out| == w * h * 4
  {
    Stack(LumaPlane(yuv, w, h), UpsampledChroma(yuv, w, h, LumaSize(w, h)),
          UpsampledChroma(yuv, w, h, LumaSize(w, h) + ChromaSize(w, h)), h, w)
  }

  /** The samples pixel `(i, j)` takes from the luma plane and the two upsampled chroma planes, as input bytes. */
  lemma PixelSamples(yuv: seq<byte>, w: nat, h: nat, i: nat, j: nat)
    requires Even(w) && Even(h)
    requires |yuv| >= FrameSize(w, h)
    requires i < h && j < w
    ensures var p, c := i * w + j, ChromaIndex(w, i, j);
            var uOff, vOff := LumaSize(w, h), LumaSize(w, h) + ChromaSize(w, h);
            0 <= p < LumaSize(w, h) && c < ChromaSize(w, h) &&
            LumaPlane(yuv, w, h)[i][j] == yuv[p] &&
            UpsampledChroma(yuv, w, h, uOff)[i][j] == yuv[uOff + c] &&
            UpsampledChroma(yuv, w, h, vOff)[i][j] == yuv[vOff + c]
  {
    Arith.CellInGrid(i, j, h, w);
    LumaAt(yuv, w, h, i, j);
    ChromaAt(yuv, w, h, LumaSize(w, h), i, j);
    ChromaAt(yuv, w, h, LumaSize(w, h) + ChromaSize(w, h), i, j);
  }

  /** Pixel `(i, j)` of the converted frame, from the samples its luma and upsampled chroma planes hold at `(i, j)`. */
  lemma ConvertedPixel(yuv: seq<byte>, w: nat, h: nat, i: nat, j: nat, ys: byte, us: byte, vs: byte)
    requires Even(w) && Even(h)
    requires |yuv| >= FrameSize(w, h)
    requires i < h && j < w
    requires LumaPlane(yuv, w, h)[i][j] == ys
    requires UpsampledChroma(yuv, w, h, LumaSize(w, h))[i][j] == us
    requires UpsampledChroma(yuv, w, h, LumaSize(w, h) + ChromaSize(w, h))[i][j] == vs
    ensures var out := Yuv420ToBgra(yuv, w, h);
            var p := i * w + j;
            0 <= p && 4 * p + 3 < |out| &&
            out[4 * p] == BlueOf(ys, us) &&
            out[4 * p + 1] == GreenOf(ys, us, vs) &&
            out[4 * p + 2] == RedOf(ys, vs) &&
            out[4 * p + 3] == 0
  {
    Arith.CellInGrid(i, j, h, w);
    StackedPixel(LumaPlane(yuv, w, h), UpsampledChroma(yuv, w, h, LumaSize(w, h)),
                 UpsampledChroma(yuv, w, h, LumaSize(w, h) + ChromaSize(w, h)), h, w, i, j, ys, us, vs);
  }

  /**
    Where each output byte comes from. Pixel `(i, j)` is `p = i*w + j`; its luma is input
    byte `p`, its chroma sample is `c = ChromaIndex(w, i, j) = (i/2)*(w/2) + j/2` of each chroma plane, i.e. input
    byte `w*h + c` for U and `w*h + (w/2)*(h/2) + c` for V; bytes `4p .. 4p+3` of the output
    are its blue, green, red and a zero alpha.
  */
  lemma PixelLayout(yuv: seq<byte>, w: nat, h: nat, i: nat, j: nat)
    requires Even(w) && Even(h)
    requires |yuv| >= FrameSize(w, h)
    requires i < h && j < w
    ensures var p := i * w + j;
            var uAt := LumaSize(w, h) + ChromaIndex(w, i, j);
            var vAt := LumaSize(w, h) + ChromaSize(w, h) + ChromaIndex(w, i, j);
            var out := Yuv420ToBgra(yuv, w, h);
            0 <= p < LumaSize(w, h) && uAt < LumaSize(w, h) + ChromaSize(w, h) && vAt < FrameSize(w, h) &&
            4 * p + 3 < |out| &&
            out[4 * p] == BlueOf(yuv[p], yuv[uAt]) &&
            out[4 * p + 1] == GreenOf(yuv[p], yuv[uAt], yuv[vAt]) &&
            out[4 * p + 2] == RedOf(yuv[p], yuv[vAt]) &&
            out[4 * p + 3] == 0
  {
    var uOff, vOff := LumaSize(w, h), LumaSize(w, h) + ChromaSize(w, h);
    var p, c := i * w + j, ChromaIndex(w, i, j);
    PixelSamples(yuv, w, h, i, j);
    ConvertedPixel(yuv, w, h, i, j, yuv[p], yuv[uOff + c], yuv[vOff + c]);
  }

  /** Where both chroma planes hold only 128, so does the chroma sample of every pixel. */
  lemma NeutralSamples(yuv: seq<byte>, w: nat, h: nat, i: nat, j: nat)
    requires Even(w) && Even(h)
    requires |yuv| >= FrameSize(w, h)
    requires yuv[LumaSize(w, h)..FrameSize(w, h)] == seq(2 * ChromaSize(w, h), _ => 128)
    requires i < h && j < w
    ensures var c := ChromaIndex(w, i, j);
            LumaSize(w, h) + ChromaSize(w, h) + c < |yuv| &&
            yuv[LumaSize(w, h) + c] == 128 && yuv[LumaSize(w, h) + ChromaSize(w, h) + c] == 128
  {
    var luma, c := LumaSize(w, h), ChromaIndex(w, i, j);
    ChromaAt(yuv, w, h, luma, i, j);
    var chroma := yuv[luma..FrameSize(w, h)];
    assert yuv[luma + c] == chroma[c] == 128;
    assert yuv[luma + ChromaSize(w, h) + c] == chroma[ChromaSize(w, h) + c] == 128;
  }

  /** A frame whose chroma planes hold only 128 converts to grey: blue, green and red equal the luma, alpha is 0. */
  lemma NeutralChromaFrame(yuv: seq<byte>, w: nat, h: nat, i: nat, j: nat)
    requires Even(w) && Even(h)
    requires |yuv| >= FrameSize(w, h)
    requires yuv[LumaSize(w, h)..FrameSize(w, h)] == seq(2 * ChromaSize(w, h), _ => 128)
    requires i < h && j < w
    ensures var p := i * w + j;
            var out := Yuv420ToBgra(yuv, w, h);
            0 <= p && 4 * p + 3 < |out| &&
            out[4 * p] == yuv[p] && out[4 * p + 1] == yuv[p] && out[4 * p + 2] == yuv[p] && out[4 * p + 3] == 0
  {
    PixelLayout(yuv, w, h, i, j);
    NeutralSamples(yuv, w, h, i, j);
    NeutralChroma(yuv[i * w + j]);
  }
}
