/**
  The sink's main loop: frames of a fixed size are read from standard input, converted
  from I420 to BGRA when the input is YUV, and copied row by row into the memory-mapped
  framebuffer, clipped to the framebuffer's width, height and stride.

  The input stream is a sequence of bytes that `read(n)` consumes from the front (a
  blocking read returns `n` bytes, or what is left at end of input); the memory map is an
  array of `smem_len` bytes.
*/
module FbSink {
  import opened Wrappers
  import Arith
  import FbGeometry
  import PySlice
  import opened YuvToBgra

  /** `--input`: planar YUV 4:2:0 (the default) or packed BGRA. */
  datatype InputFormat = Yuv420 | Bgra

  /** What the loop works with: the input format and size from the command line and the resolved framebuffer geometry. */
  datatype Session = Session(fmt: InputFormat, w: nat, h: nat, geom: FbGeometry.Geometry)

  /** The sizes and strides of one copy: `copy_w`, `copy_h`, `row_bytes_in`, `row_bytes_copy`. */
  datatype CopyPlan = CopyPlan(copyW: int, copyH: int, rowBytesIn: int, rowBytesCopy: int)

  /** Frames are copied to the framebuffer: BGRA input always, YUV input only on a 32-bit framebuffer. */
  predicate Copies(s: Session) {
    s.fmt == Bgra || s.geom.bpp == 32
  }

  /** YUV frames are converted (and only then do they need an even size). */
  predicate Converts(s: Session) {
    s.fmt == Yuv420 && s.geom.bpp == 32
  }

  /**
    A YUV frame is converted only when its size is even in both directions. A frame with no
    pixels is never converted: its `frame_size` is 0, and the first read ends the loop.
  */
  predicate EvenWhereConverted(s: Session) {
    Converts(s) && s.w > 0 && s.h > 0 ==> Even(s.w) && Even(s.h)
  }

  /**
    The sessions the model covers: a geometry as `get_fb_geom` resolves it, with no
    negative size or stride, and an even size wherever a YUV frame is converted.
  */
  predicate ValidSession(s: Session) {
    FbGeometry.Consistent(s.geom) &&
    s.geom.xres >= 0 && s.geom.yres >= 0 && s.geom.lineLen >= 0 &&
    EvenWhereConverted(s)
  }

  /** `frame_size`: four bytes per pixel for BGRA, a luma plane and two quarter-size chroma planes for YUV. */
  function InputFrameSize(fmt: InputFormat, w: nat, h: nat): nat {
    match fmt
    case Bgra => w * h * 4
    case Yuv420 => YuvToBgra.FrameSize(w, h)
  }

  /** The frame sizes in bytes: four per pixel for BGRA, a luma byte per pixel and a chroma pair per 2x2 block for YUV. */
  lemma InputFrameSizes(fmt: InputFormat, w: nat, h: nat)
    ensures var n := InputFrameSize(fmt, w, h);
            (fmt == Bgra ==> n == 4 * (w * h)) &&
            (fmt == Yuv420 ==> n == w * h + 2 * ((w / 2) * (h / 2)))
  {
  }

  /** An even-sized I420 frame is one and a half bytes per pixel. */
  lemma FrameSizeEven(w: nat, h: nat)
    ensures Even(w) && Even(h) ==> 2 * YuvToBgra.FrameSize(w, h) == 3 * (w * h)
  {
    if Even(w) && Even(h) {
      var cw, ch := w / 2, h / 2;
      assert w * h == 4 * (cw * ch) by {
        assert w == 2 * cw && h == 2 * ch;
      }
    }
  }

  /** The copy sizes `main` computes once, before the loop. */
  function PlanCopy(s: Session): (p: CopyPlan)
    ensures p.copyW == Min(s.w, s.geom.xres) && p.copyH == Min(s.h, s.geom.yres)
    ensures p.rowBytesCopy <= s.geom.lineLen
    ensures Copies(s) ==> p.rowBytesIn == 4 * s.w && p.rowBytesCopy == Min(4 * p.copyW, s.geom.lineLen)
  {
    var copyW := Min(s.w, s.geom.xres);
    var copyH := Min(s.h, s.geom.yres);
    match s.fmt
    case Bgra => CopyPlan(copyW, copyH, s.w * 4, Min(copyW * 4, s.geom.lineLen))
    case Yuv420 =>
      var bytespp := FbGeometry.BytesPerPixel(s.geom.bpp);
      CopyPlan(copyW, copyH, s.w * bytespp, Min(copyW * bytespp, s.geom.lineLen))
  }

  /**
    A plan fits a map of `mapLen` bytes with rows of `lineLen` bytes and a frame of
    `frameLen` bytes: every row it copies lies inside both.
  */
  predicate Fits(p: CopyPlan, lineLen: int, mapLen: int, frameLen: int) {
    0 <= p.copyH && 0 <= p.rowBytesCopy <= lineLen && p.rowBytesCopy <= p.rowBytesIn &&
    Arith.RowStart(p.copyH, lineLen) <= mapLen && Arith.RowStart(p.copyH, p.rowBytesIn) <= frameLen
  }

  /**
    The clipping is sound: whenever frames are copied, no more rows than the framebuffer
    has and no more bytes per row than its stride and the input row hold.
  */
  lemma PlanFits(s: Session)
    requires ValidSession(s) && Copies(s)
    ensures var p := PlanCopy(s);
            0 <= p.copyH <= s.geom.yres && p.copyH <= s.h &&
            0 <= p.rowBytesCopy <= s.geom.lineLen && p.rowBytesCopy <= p.rowBytesIn &&
            Fits(p, s.geom.lineLen, s.geom.smemLen, s.w * s.h * 4)
  {
    var p := PlanCopy(s);
    Arith.RowStartIsProduct(p.copyH, s.geom.lineLen);
    Arith.RowStartIsProduct(p.copyH, p.rowBytesIn);
    Arith.MulMonotone(p.copyH, s.geom.yres, s.geom.lineLen);
    Arith.MulMonotone(p.copyH, s.h, 4 * s.w);
    Arith.FourBytesPerPixel(s.h, s.w);
    assert s.geom.yres * s.geom.lineLen == s.geom.smemLen;
  }

  /** Row `y` of a fitting plan: its source range lies in the frame and its destination range in the map. */
  lemma RowInBounds(p: CopyPlan, lineLen: int, mapLen: int, frameLen: int, y: nat)
    requires Fits(p, lineLen, mapLen, frameLen) && y < p.copyH
    ensures 0 <= Arith.RowStart(y, lineLen) && Arith.RowStart(y, lineLen) + p.rowBytesCopy <= mapLen
    ensures 0 <= Arith.RowStart(y, p.rowBytesIn) && Arith.RowStart(y, p.rowBytesIn) + p.rowBytesCopy <= frameLen
  {
    Arith.RowStartBefore(y, p.copyH, lineLen);
    Arith.RowStartBefore(y, p.copyH, p.rowBytesIn);
  }

  /** `frame_bytes`: the buffer itself for BGRA input, its conversion for YUV input. */
  function FrameBytes(buf: seq<byte>, s: Session): (frame: seq<byte>)
    requires Copies(s) && EvenWhereConverted(s)
    requires 0 < |buf| == InputFrameSize(s.fmt, s.w, s.h)
    ensures |frame| == s.w * s.h * 4
  {
    match s.fmt
    case Bgra => buf
    case Yuv420 =>
      YuvToBgra.FrameSizePositive(s.w, s.h);
      Yuv420ToBgra(buf, s.w, s.h)
  }

  /**
    Row `y` of the copy loop: `fbmap[dst:dst+len] = frame[src:src+len]` with
    `dst = y * line_len`, `src = y * row_bytes_in` (written as `RowStart`) and
    `len = row_bytes_copy`; `None` means the assignment raised.
  */
  function CopyRow(m: seq<byte>, frame: seq<byte>, p: CopyPlan, lineLen: int, y: nat): Option<seq<byte>> {
    var srcOff, dstOff := Arith.RowStart(y, p.rowBytesIn), Arith.RowStart(y, lineLen);
    PySlice.SliceAssign(m, dstOff, dstOff + p.rowBytesCopy, PySlice.Slice(frame, srcOff, srcOff + p.rowBytesCopy))
  }

  /**
    The copy loop from row `y` on: row `y`'s assignment, then the rows after it; `None`
    means an assignment raised.
  */
  function BlitFrom(m: seq<byte>, frame: seq<byte>, p: CopyPlan, lineLen: int, y: nat): Option<seq<byte>>
    decreases if y < p.copyH then p.copyH - y else 0
  {
    if y >= p.copyH then Some(m)
    else
      match CopyRow(m, frame, p, lineLen, y)
      case None => None
      case Some(next) => BlitFrom(next, frame, p, lineLen, y + 1)
  }

  /** `for y in range(copy_h)`: the map after copying one frame. */
  function Blit(m: seq<byte>, frame: seq<byte>, p: CopyPlan, lineLen: int): Option<seq<byte>> {
    BlitFrom(m, frame, p, lineLen, 0)
  }

  /** Byte `i` of the map lies in a row from `y` on (`i / line_len`) at a copied column (`i % line_len < row_bytes_copy`). */
  predicate InRowsFrom(i: int, p: CopyPlan, lineLen: int, y: nat) {
    lineLen > 0 && y <= i / lineLen < p.copyH && i % lineLen < p.rowBytesCopy
  }

  /** Byte `i` of the map lies in a copied row (`i / line_len < copy_h`) at a copied column (`i % line_len < row_bytes_copy`). */
  predicate InRegion(i: int, p: CopyPlan, lineLen: int) {
    InRowsFrom(i, p, lineLen, 0)
  }

  /**
    What the copy loop from row `y` on leaves in the map, byte by byte: a byte at column
    `c` of a copied row `r` holds byte `c` of the frame's row `r`; every other byte keeps
    its value.
  */
  function Copied(m: seq<byte>, frame: seq<byte>, p: CopyPlan, lineLen: int, y: nat): (r: seq<byte>)
    requires Fits(p, lineLen, |m|, |frame|)
    ensures |r| == |m|
  {
    seq(|m|, i requires 0 <= i < |m| =>
      if InRowsFrom(i, p, lineLen, y) then
        RowInBounds(p, lineLen, |m|, |frame|, i / lineLen);
        frame[Arith.RowStart(i / lineLen, p.rowBytesIn) + i % lineLen]
      else m[i])
  }

  /** Copying row `y` into the map and then rows `y + 1 ..` leaves what rows `y ..` leave. */
  lemma CopiedStep(m: seq<byte>, frame: seq<byte>, p: CopyPlan, lineLen: int, y: nat, next: seq<byte>)
    requires Fits(p, lineLen, |m|, |frame|) && y < p.copyH
    requires PySlice.Spliced(m, Arith.RowStart(y, lineLen), frame, Arith.RowStart(y, p.rowBytesIn), p.rowBytesCopy, next)
    ensures Copied(next, frame, p, lineLen, y + 1) == Copied(m, frame, p, lineLen, y)
  {
    var dst, src := Arith.RowStart(y, lineLen), Arith.RowStart(y, p.rowBytesIn);
    forall i | 0 <= i < |m|
      ensures Copied(next, frame, p, lineLen, y + 1)[i] == Copied(m, frame, p, lineLen, y)[i]
    {
      PySlice.SplicedAt(m, dst, frame[src..src + p.rowBytesCopy], i);
      if lineLen > 0 {
        Arith.InRowStart(i, y, lineLen, p.rowBytesCopy);
      }
    }
  }

  /** A row whose slice assignment succeeds: the copy loop goes on from the next row with the spliced map. */
  lemma BlitFromStep(m: seq<byte>, frame: seq<byte>, p: CopyPlan, lineLen: int, y: nat, next: seq<byte>)
    requires y < p.copyH
    requires CopyRow(m, frame, p, lineLen, y) == Some(next)
    ensures BlitFrom(m, frame, p, lineLen, y) == BlitFrom(next, frame, p, lineLen, y + 1)
  {
  }

  /**
    Row `y`'s slice assignment has matching lengths, so instead of raising it replaces bytes
    `[dst, dst + row_bytes_copy)` of the map by as many frame bytes from `src`; the rows
    after it then leave what the rows from `y` on leave.
  */
  lemma RowAssigns(m: seq<byte>, frame: seq<byte>, p: CopyPlan, lineLen: int, y: nat) returns (next: seq<byte>)
    requires Fits(p, lineLen, |m|, |frame|) && y < p.copyH
    ensures PySlice.Spliced(m, Arith.RowStart(y, lineLen), frame, Arith.RowStart(y, p.rowBytesIn), p.rowBytesCopy, next)
    ensures CopyRow(m, frame, p, lineLen, y) == Some(next)
    ensures BlitFrom(m, frame, p, lineLen, y) == BlitFrom(next, frame, p, lineLen, y + 1)
    ensures Copied(next, frame, p, lineLen, y + 1) == Copied(m, frame, p, lineLen, y)
  {
    RowInBounds(p, lineLen, |m|, |frame|, y);
    var dst, src := Arith.RowStart(y, lineLen), Arith.RowStart(y, p.rowBytesIn);
    PySlice.SliceAssignFromSlice(m, dst, frame, src, p.rowBytesCopy);
    next := m[..dst] + frame[src..src + p.rowBytesCopy] + m[dst + p.rowBytesCopy..];
    BlitFromStep(m, frame, p, lineLen, y, next);
    CopiedStep(m, frame, p, lineLen, y, next);
  }

  /** With no rows left to copy the map is as it was. */
  lemma CopiedNone(m: seq<byte>, frame: seq<byte>, p: CopyPlan, lineLen: int, y: nat)
    requires Fits(p, lineLen, |m|, |frame|) && y >= p.copyH
    ensures Copied(m, frame, p, lineLen, y) == m
  {
  }

  /** The copy loop never raises and leaves exactly what `Copied` describes. */
  lemma {:induction false} BlitFromIsCopied(m: seq<byte>, frame: seq<byte>, p: CopyPlan, lineLen: int, y: nat)
    requires Fits(p, lineLen, |m|, |frame|)
    ensures BlitFrom(m, frame, p, lineLen, y) == Some(Copied(m, frame, p, lineLen, y))
    decreases if y < p.copyH then p.copyH - y else 0
  {
    if y < p.copyH {
      var next := RowAssigns(m, frame, p, lineLen, y);
      BlitFromIsCopied(next, frame, p, lineLen, y + 1);
    } else {
      CopiedNone(m, frame, p, lineLen, y);
    }
  }

  /** Copying a frame never raises the map's wrong-size `IndexError` and leaves the map `Copied` describes. */
  lemma BlitIsCopied(m: seq<byte>, frame: seq<byte>, p: CopyPlan, lineLen: int)
    requires Fits(p, lineLen, |m|, |frame|)
    ensures Blit(m, frame, p, lineLen) == Some(Copied(m, frame, p, lineLen, 0))
  {
    BlitFromIsCopied(m, frame, p, lineLen, 0);
  }

  /** Row `y < copy_h`, column `k < row_bytes_copy`: map byte `y * line_len + k` is frame byte `y * row_bytes_in + k`. */
  lemma BlitCopies(m: seq<byte>, frame: seq<byte>, p: CopyPlan, lineLen: int, y: nat, k: nat)
    requires Fits(p, lineLen, |m|, |frame|)
    requires y < p.copyH && k < p.rowBytesCopy
    ensures var out := Blit(m, frame, p, lineLen);
            out.Some? && 0 <= y * lineLen && y * lineLen + k < |out.value| &&
            0 <= y * p.rowBytesIn && y * p.rowBytesIn + k < |frame| &&
            out.value[y * lineLen + k] == frame[y * p.rowBytesIn + k]
  {
    BlitIsCopied(m, frame, p, lineLen);
    RowInBounds(p, lineLen, |m|, |frame|, y);
    Arith.InRowStart(Arith.RowStart(y, lineLen) + k, y, lineLen, p.rowBytesCopy);
    Arith.RowStartIsProduct(y, lineLen);
    Arith.RowStartIsProduct(y, p.rowBytesIn);
  }

  /** Every byte outside the copied rows and columns keeps its value. */
  lemma BlitKeeps(m: seq<byte>, frame: seq<byte>, p: CopyPlan, lineLen: int, i: nat)
    requires Fits(p, lineLen, |m|, |frame|)
    requires i < |m| && !InRegion(i, p, lineLen)
    ensures var out := Blit(m, frame, p, lineLen);
            out.Some? && |out.value| == |m| && out.value[i] == m[i]
  {
    BlitIsCopied(m, frame, p, lineLen);
  }

  /** Copying a second frame with the same plan overwrites everything the first one wrote. */
  lemma BlitOverwrites(m: seq<byte>, f1: seq<byte>, f2: seq<byte>, p: CopyPlan, lineLen: int)
    requires Fits(p, lineLen, |m|, |f1|) && |f2| == |f1|
    ensures Blit(m, f1, p, lineLen).Some?
    ensures Blit(Blit(m, f1, p, lineLen).value, f2, p, lineLen) == Blit(m, f2, p, lineLen)
  {
    BlitIsCopied(m, f1, p, lineLen);
    var once := Copied(m, f1, p, lineLen, 0);
    BlitIsCopied(once, f2, p, lineLen);
    BlitIsCopied(m, f2, p, lineLen);
    assert Copied(once, f2, p, lineLen, 0) == Copied(m, f2, p, lineLen, 0);
  }

  /**
    The number of whole frames of `frameSize` bytes before the last one in `len` bytes: the
    last frame starts at `RowStart(n, frameSize)`, and there is no room for another after it.
    `RowStart` is used here for the offset `n * frameSize` of frame `n` in the input: frames
    lie back to back in the stream as rows do in the map.
  */
  function LastFrameIndex(len: nat, frameSize: nat): (n: nat)
    requires 0 < frameSize <= len
    ensures var start := Arith.RowStart(n, frameSize);
            0 <= start && start + frameSize <= len < start + 2 * frameSize
    decreases len
  {
    if len < 2 * frameSize then 0 else 1 + LastFrameIndex(len - frameSize, frameSize)
  }

  /** The last frame is frame number `len / frame_size - 1`: the whole frames of the input, less one. */
  lemma LastFrameIndexIsQuotient(len: nat, frameSize: nat)
    requires 0 < frameSize <= len
    ensures LastFrameIndex(len, frameSize) == len / frameSize - 1
  {
    var n := LastFrameIndex(len, frameSize);
    Arith.RowStartIsProduct(n + 1, frameSize);
    Arith.DivModOf(n + 1, frameSize, len - Arith.RowStart(n + 1, frameSize));
  }

  /**
    The last whole frame of an input holding at least one: frames are `frame_size` bytes
    back to back, and the last one is the one `LastFrameIndex` counts to.
  */
  function LastFrame(input: seq<byte>, frameSize: nat): (f: seq<byte>)
    requires 0 < frameSize <= |input|
    ensures var start := Arith.RowStart(LastFrameIndex(|input|, frameSize), frameSize);
            |f| == frameSize && f == input[start..start + frameSize]
    decreases |input|
  {
    if |input| < 2 * frameSize then input[..frameSize]
    else
      var rest := input[frameSize..];
      var start := Arith.RowStart(LastFrameIndex(|rest|, frameSize), frameSize);
      assert rest[start..start + frameSize] == input[frameSize + start..frameSize + start + frameSize];
      LastFrame(rest, frameSize)
  }

  /**
    The `while True` loop over the input stream, starting from the map `fb`: each turn
    reads `frame_size` bytes; an empty or short read ends the loop; a YUV frame on a
    framebuffer that is not 32 bits deep is skipped; any other frame is copied (after
    conversion) with the plan computed before the loop. `None` means a slice assignment raised.
  */
  function Run(fb: seq<byte>, input: seq<byte>, s: Session): (r: Option<seq<byte>>)
    requires EvenWhereConverted(s)
    ensures var frameSize := InputFrameSize(s.fmt, s.w, s.h);
            frameSize == 0 || |input| < frameSize ==> r == Some(fb)
    decreases |input|
  {
    var frameSize := InputFrameSize(s.fmt, s.w, s.h);
    var buf := input[..Min(frameSize, |input|)];
    if |buf| == 0 || |buf| < frameSize then Some(fb)
    else
      var rest := input[frameSize..];
      if s.fmt == Yuv420 && s.geom.bpp != 32 then Run(fb, rest, s)
      else
        match Blit(fb, FrameBytes(buf, s), PlanCopy(s), s.geom.lineLen)
        case None => None
        case Some(next) => Run(next, rest, s)
  }

  /** On a map of `smem_len` bytes the loop never raises, whatever the input, and the map keeps its length. */
  lemma {:induction false} RunNeverRaises(fb: seq<byte>, input: seq<byte>, s: Session)
    requires ValidSession(s) && |fb| == s.geom.smemLen
    ensures Run(fb, input, s).Some? && |Run(fb, input, s).value| == |fb|
    decreases |input|
  {
    var frameSize := InputFrameSize(s.fmt, s.w, s.h);
    if frameSize != 0 && |input| >= frameSize {
      var buf, rest := input[..frameSize], input[frameSize..];
      assert input[..Min(frameSize, |input|)] == buf;
      if s.fmt == Yuv420 && s.geom.bpp != 32 {
        RunNeverRaises(fb, rest, s);
      } else {
        PlanFits(s);
        BlitIsCopied(fb, FrameBytes(buf, s), PlanCopy(s), s.geom.lineLen);
        RunNeverRaises(Copied(fb, FrameBytes(buf, s), PlanCopy(s), s.geom.lineLen, 0), rest, s);
      }
    }
  }

  /** YUV input on a framebuffer that is not 32 bits deep: every frame is read and skipped, and the map is never written. */
  lemma {:induction false} RunSkipsEveryFrame(fb: seq<byte>, input: seq<byte>, s: Session)
    requires s.fmt == Yuv420 && s.geom.bpp != 32
    ensures Run(fb, input, s) == Some(fb)
    decreases |input|
  {
    var frameSize := InputFrameSize(s.fmt, s.w, s.h);
    if frameSize != 0 && |input| >= frameSize {
      RunSkipsEveryFrame(fb, input[frameSize..], s);
    }
  }

  /**
    When frames are copied, the map ends up as if only the last whole frame of the input
    had been copied onto it: each frame overwrites the same region, and a trailing partial
    frame is never copied.
  */
  lemma {:induction false} RunShowsLastFrame(fb: seq<byte>, input: seq<byte>, s: Session)
    requires ValidSession(s) && Copies(s) && |fb| == s.geom.smemLen
    requires 0 < InputFrameSize(s.fmt, s.w, s.h) <= |input|
    ensures var last := LastFrame(input, InputFrameSize(s.fmt, s.w, s.h));
            Run(fb, input, s) == Blit(fb, FrameBytes(last, s), PlanCopy(s), s.geom.lineLen)
    decreases |input|
  {
    var frameSize := InputFrameSize(s.fmt, s.w, s.h);
    var p, lineLen := PlanCopy(s), s.geom.lineLen;
    var buf, rest := input[..frameSize], input[frameSize..];
    assert input[..Min(frameSize, |input|)] == buf;
    PlanFits(s);
    var first := FrameBytes(buf, s);
    BlitIsCopied(fb, first, p, lineLen);
    var next := Copied(fb, first, p, lineLen, 0);
    if |rest| >= frameSize {
      var last := LastFrame(rest, frameSize);
      assert LastFrame(input, frameSize) == last;
      RunShowsLastFrame(next, rest, s);
      BlitOverwrites(fb, first, FrameBytes(last, s), p, lineLen);
    }
  }

  /**
    `for y in range(copy_h)` on the memory map itself: each row's slice of the frame is
    written over the row's slice of the map, at the offsets the source computes as products.
  */
  method BlitFrame(fb: array<byte>, frame: seq<byte>, p: CopyPlan, lineLen: int)
    requires Fits(p, lineLen, fb.Length, |frame|)
    modifies fb
    ensures Blit(old(fb[..]), frame, p, lineLen) == Some(fb[..])
  {
    var y: nat := 0;
    while y < p.copyH
      invariant y <= p.copyH
      invariant Copied(fb[..], frame, p, lineLen, y) == Copied(old(fb[..]), frame, p, lineLen, 0)
    {
      var srcOff := y * p.rowBytesIn;
      var dstOff := y * lineLen;
      RowInBounds(p, lineLen, fb.Length, |frame|, y);
      Arith.RowStartIsProduct(y, p.rowBytesIn);
      Arith.RowStartIsProduct(y, lineLen);
      ghost var before := fb[..];
      forall i | dstOff <= i < dstOff + p.rowBytesCopy {
        fb[i] := frame[srcOff + (i - dstOff)];
      }
      assert fb[..] == before[..dstOff] + frame[srcOff..srcOff + p.rowBytesCopy] + before[dstOff + p.rowBytesCopy..];
      CopiedStep(before, frame, p, lineLen, y, fb[..]);
      y := y + 1;
    }
    CopiedNone(fb[..], frame, p, lineLen, y);
    BlitIsCopied(old(fb[..]), frame, p, lineLen);
  }

  /** A turn that reads a whole frame and copies it: the loop goes on from the copy with the rest of the input. */
  lemma RunCopiesFrame(fb: seq<byte>, next: seq<byte>, input: seq<byte>, pos: nat, s: Session)
    requires EvenWhereConverted(s) && Copies(s)
    requires 0 < InputFrameSize(s.fmt, s.w, s.h) && pos + InputFrameSize(s.fmt, s.w, s.h) <= |input|
    requires var frameSize := InputFrameSize(s.fmt, s.w, s.h);
             Blit(fb, FrameBytes(input[pos..pos + frameSize], s), PlanCopy(s), s.geom.lineLen) == Some(next)
    ensures Run(fb, input[pos..], s) == Run(next, input[pos + InputFrameSize(s.fmt, s.w, s.h)..], s)
  {
    var frameSize := InputFrameSize(s.fmt, s.w, s.h);
    assert input[pos..][..Min(frameSize, |input| - pos)] == input[pos..pos + frameSize];
    assert input[pos..][frameSize..] == input[pos + frameSize..];
  }

  /** A turn that reads a whole YUV frame on a framebuffer that is not 32 bits deep: the loop goes on with the rest of the input. */
  lemma RunSkipsFrame(fb: seq<byte>, input: seq<byte>, pos: nat, s: Session)
    requires s.fmt == Yuv420 && s.geom.bpp != 32
    requires 0 < InputFrameSize(s.fmt, s.w, s.h) && pos + InputFrameSize(s.fmt, s.w, s.h) <= |input|
    ensures Run(fb, input[pos..], s) == Run(fb, input[pos + InputFrameSize(s.fmt, s.w, s.h)..], s)
  {
    var frameSize := InputFrameSize(s.fmt, s.w, s.h);
    assert input[pos..][frameSize..] == input[pos + frameSize..];
  }

  /** The copying half of a turn: the frame at `pos`, converted if need be, is copied onto the map. */
  method CopyFrame(fb: array<byte>, input: seq<byte>, pos: nat, s: Session)
    requires ValidSession(s) && Copies(s) && fb.Length == s.geom.smemLen
    requires 0 < InputFrameSize(s.fmt, s.w, s.h) && pos + InputFrameSize(s.fmt, s.w, s.h) <= |input|
    modifies fb
    ensures Run(old(fb[..]), input[pos..], s) == Run(fb[..], input[pos + InputFrameSize(s.fmt, s.w, s.h)..], s)
  {
    var frameSize := InputFrameSize(s.fmt, s.w, s.h);
    var frame := FrameBytes(input[pos..pos + frameSize], s);
    PlanFits(s);
    BlitFrame(fb, frame, PlanCopy(s), s.geom.lineLen);
    RunCopiesFrame(old(fb[..]), fb[..], input, pos, s);
  }

  /** The rest of a turn that read a whole frame: a YUV frame on a framebuffer that is not 32 bits deep is skipped, any other frame copied. */
  method TakeFrame(fb: array<byte>, input: seq<byte>, pos: nat, s: Session)
    requires ValidSession(s) && fb.Length == s.geom.smemLen
    requires 0 < InputFrameSize(s.fmt, s.w, s.h) && pos + InputFrameSize(s.fmt, s.w, s.h) <= |input|
    modifies fb
    ensures Run(old(fb[..]), input[pos..], s) == Run(fb[..], input[pos + InputFrameSize(s.fmt, s.w, s.h)..], s)
  {
    if s.fmt == Yuv420 && s.geom.bpp != 32 {
      RunSkipsFrame(fb[..], input, pos, s);
    } else {
      CopyFrame(fb, input, pos, s);
    }
  }

  /**
    One pass of the body of `main`'s `while True` loop on the memory map: read the next
    `frame_size` bytes from `pos` on; stop (`reading` false) on an empty or short read;
    otherwise skip or convert and copy the frame, and go on after it.
  */
  method Turn(fb: array<byte>, input: seq<byte>, pos: nat, s: Session) returns (pos': nat, reading: bool)
    requires ValidSession(s) && fb.Length == s.geom.smemLen && pos <= |input|
    modifies fb
    ensures pos <= pos' <= |input|
    ensures reading ==> pos < pos' && Run(old(fb[..]), input[pos..], s) == Run(fb[..], input[pos'..], s)
    ensures !reading ==> Run(old(fb[..]), input[pos..], s) == Some(fb[..])
  {
    var frameSize := InputFrameSize(s.fmt, s.w, s.h);
    var buf := input[pos..pos + Min(frameSize, |input| - pos)];
    if |buf| == 0 || |buf| < frameSize {
      return pos, false;
    }
    TakeFrame(fb, input, pos, s);
    return pos + frameSize, true;
  }

  /**
    The read/convert/copy loop of `main` on the memory map: `input` is what standard input
    delivers, `read(n)` takes the next `n` bytes of it (fewer at its end).
  */
  method Stream(fb: array<byte>, input: seq<byte>, s: Session)
    requires ValidSession(s) && fb.Length == s.geom.smemLen
    modifies fb
    ensures Run(old(fb[..]), input, s) == Some(fb[..])
  {
    var pos := 0;
    var reading := true;
    assert input[pos..] == input;
    while reading
      invariant 0 <= pos <= |input|
      invariant reading ==> Run(old(fb[..]), input, s) == Run(fb[..], input[pos..], s)
      invariant !reading ==> Run(old(fb[..]), input, s) == Some(fb[..])
      decreases |input| - pos, reading
    {
      pos, reading := Turn(fb, input, pos, s);
    }
  }
}
