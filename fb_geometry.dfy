/**
  Framebuffer geometry discovery (`get_fb_geom`): the visible size, bits per pixel and row
  stride come from sysfs attributes, each of which may be unreadable; defaults fill the
  gaps, and the mapped length is the stride times the number of rows.

  Each attribute is an `Option` input: `None` is the `read_sysfs` default (the file could
  not be read or its text did not convert), `Some` the converted value.
*/
module FbGeometry {
  import opened Wrappers
  import SysfsText

  /** The five values `get_fb_geom` returns: `(xres, yres, bpp, line_len, smem_len)`. */
  datatype Geometry = Geometry(xres: int, yres: int, bpp: int, lineLen: int, smemLen: int)

  /** The exception `get_fb_geom` lets escape: `virtual_size` converted to a number of values other than two, which the unpacking into `xres, yres` rejects. */
  datatype GeomError = SizeNotAPair(count: nat)

  const DefaultXres: int := 640
  const DefaultYres: int := 480
  const DefaultBpp: int := 32

  /** `(bpp + 7) // 8`: the whole bytes one pixel occupies, i.e. the ceiling of `bpp / 8`. */
  function BytesPerPixel(bpp: int): (n: int)
    ensures 8 * (n - 1) < bpp <= 8 * n
  {
    (bpp + 7) / 8
  }

  /** `bits_per_pixel` falls back to 32. */
  function BppOrDefault(bpp: Option<int>): int {
    match bpp
    case None => DefaultBpp
    case Some(b) => b
  }

  /** `line_len = stride if stride else xres * bytespp`: an absent or zero stride means rows without padding. */
  function LineLength(stride: Option<int>, xres: int, bpp: int): int {
    match stride
    case Some(s) => if s != 0 then s else xres * BytesPerPixel(bpp)
    case None => xres * BytesPerPixel(bpp)
  }

  /** The geometry once the size is known: the mapped length covers `yres` rows of `line_len` bytes. */
  function GeometryOf(xres: int, yres: int, bpp: Option<int>, stride: Option<int>): Geometry {
    var b := BppOrDefault(bpp);
    var lineLen := LineLength(stride, xres, b);
    Geometry(xres, yres, b, lineLen, lineLen * yres)
  }

  /** The invariant every resolved geometry satisfies: the mapping holds exactly `yres` rows of `line_len` bytes. */
  predicate Consistent(g: Geometry) {
    g.smemLen == g.lineLen * g.yres
  }

  /**
    `get_fb_geom` as the source writes it. A missing `virtual_size` gives 640x480, but a
    `virtual_size` that converts to one value or to three raises at the tuple unpacking,
    which is outside `read_sysfs`'s exception guard.
  */
  function GetFbGeomAsWritten(size: Option<seq<int>>, bpp: Option<int>, stride: Option<int>): (r: Result<Geometry, GeomError>)
    ensures r.Failure? <==> size.Some? && |size.value| != 2
    ensures r.Failure? ==> r.error == SizeNotAPair(|size.value|)
    ensures r.Success? ==> Consistent(r.value)
    ensures r.Success? && size.None? ==> r.value.xres == 640 && r.value.yres == 480
    ensures r.Success? && size.Some? ==> r.value.xres == size.value[0] && r.value.yres == size.value[1]
  {
    match size
    case None => Success(GeometryOf(DefaultXres, DefaultYres, bpp, stride))
    case Some(values) =>
      if |values| == 2 then Success(GeometryOf(values[0], values[1], bpp, stride))
      else Failure(SizeNotAPair(|values|))
  }

  /** A one-value `virtual_size` (the text `640`) makes the source raise instead of defaulting. */
  lemma AsWrittenRaisesOnSingleValue()
    ensures GetFbGeomAsWritten(Some([640]), None, None) == Failure(SizeNotAPair(1))
  {
  }

  /**
    Geometry resolution as it is meant to behave: it falls back to defaults and never fails. A `virtual_size` that is
    absent, or that does not hold exactly two values, is treated as unreadable and gives
    640x480; `bits_per_pixel` defaults to 32; an absent or zero stride gives unpadded rows.
  */
  function GetFbGeom(size: Option<seq<int>>, bpp: Option<int>, stride: Option<int>): (g: Geometry)
    ensures Consistent(g)
    ensures size.Some? && |size.value| == 2 ==> g.xres == size.value[0] && g.yres == size.value[1]
    ensures !(size.Some? && |size.value| == 2) ==> g.xres == 640 && g.yres == 480
    ensures bpp.None? ==> g.bpp == 32
    ensures bpp.Some? ==> g.bpp == bpp.value
    ensures stride.None? || stride == Some(0) ==> g.lineLen == g.xres * BytesPerPixel(g.bpp)
    ensures stride.Some? && stride.value != 0 ==> g.lineLen == stride.value
    ensures size.None? && bpp.None? && stride.None? ==> g == Geometry(640, 480, 32, 2560, 1228800)
  {
    match size
    case Some(values) =>
      if |values| == 2 then GeometryOf(values[0], values[1], bpp, stride)
      else GeometryOf(DefaultXres, DefaultYres, bpp, stride)
    case None => GeometryOf(DefaultXres, DefaultYres, bpp, stride)
  }

  /** Wherever the source returns a geometry, the never-failing resolver returns the same one. */
  lemma GetFbGeomAgreesWhereSourceSucceeds(size: Option<seq<int>>, bpp: Option<int>, stride: Option<int>)
    ensures GetFbGeomAsWritten(size, bpp, stride).Success? ==>
              GetFbGeomAsWritten(size, bpp, stride).value == GetFbGeom(size, bpp, stride)
  {
  }

  /** Without a usable stride the rows are exactly as wide as the pixels they hold. */
  lemma DefaultStrideIsUnpadded(size: Option<seq<int>>, bpp: Option<int>)
    ensures var g := GetFbGeom(size, bpp, None);
            g.lineLen == g.xres * BytesPerPixel(g.bpp) && BytesPerPixel(g.bpp) * 8 >= g.bpp
  {
  }

  /** A reported stride is taken as it is, even one narrower than a row of pixels: only the copy clips to it. */
  lemma NarrowStrideIsKept()
    ensures GetFbGeom(Some([640, 480]), Some(32), Some(100)).lineLen < 640 * BytesPerPixel(32)
  {
  }

  /**
    Geometry from the attribute texts as the files hold them (`None`: the file could not be
    read), resolved by the never-failing `GetFbGeom`: a `virtual_size` text holding one or
    three numbers gives 640x480 here, where the source raises (`GetFbGeomAsWritten`).
  */
  function ReadFbGeom(sizeText: Option<string>, bppText: Option<string>, strideText: Option<string>): Geometry {
    GetFbGeom(SysfsText.ReadIntList(sizeText), SysfsText.ReadInt(bppText), SysfsText.ReadInt(strideText))
  }

  /** Attributes written by the kernel (`x,y`, `bpp`, `stride`, each with a newline) resolve to the values written. */
  lemma ReadFbGeomFromKernelText(x: nat, y: nat, bpp: nat, stride: nat)
    ensures var g := ReadFbGeom(Some(SysfsText.ShowNat(x) + "," + SysfsText.ShowNat(y) + "\n"),
                                Some(SysfsText.ShowNat(bpp) + "\n"),
                                Some(SysfsText.ShowNat(stride) + "\n"));
            g.xres == x && g.yres == y && g.bpp == bpp &&
            g.lineLen == (if stride != 0 then stride else x * BytesPerPixel(bpp)) &&
            g.smemLen == g.lineLen * y
  {
    SysfsText.SizeAttributeRoundTrip(x, y);
    SysfsText.IntAttributeRoundTrip(bpp);
    SysfsText.IntAttributeRoundTrip(stride);
  }

  /** With no attribute readable at all the geometry is 640x480 at 32 bits, stride 2560. */
  lemma ReadFbGeomWithoutAttributes()
    ensures ReadFbGeom(None, None, None) == Geometry(640, 480, 32, 2560, 1228800)
  {
  }
}
