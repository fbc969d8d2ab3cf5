# fb_sink: a verified model of the framebuffer frame sink

`scripts/test-camera/fb_sink.py` streams raw video frames from standard input into a
memory-mapped Linux framebuffer. This project models its three computational parts in
Dafny and proves what they promise:

- **Geometry resolution** (`get_fb_geom`). The module `FbGeometry` takes the three sysfs
  attributes (`virtual_size`, `bits_per_pixel`, `stride`) as `Option` inputs. It resolves
  the visible size, the depth, the row stride and the mapped length, with the source's
  defaults. `SysfsText` models the attribute text itself: strip, split at commas,
  decimal conversion. It shows that the values the kernel writes read back as written.
- **I420 to BGRA conversion** (`yuv420_to_bgra`). In `YuvToBgra` the numpy pipeline is
  written step by step over sequences of rows:
  - plane extraction and `reshape`;
  - 2x2 chroma upsampling (`repeat`);
  - the colour equations, clipped and truncated to bytes;
  - `dstack` and `tobytes`.

  Lemmas state where every output byte comes from and what value it holds.
- **The sink loop** (the body of `main`). `FbSink` covers the frame size, the copy plan
  clipped to the device and the per-row slice assignments into the map. `PySlice` models
  Python slice reads and the memory map's slice assignment, including its wrong-size
  `IndexError`. `Run` is a function over the input stream that says what the whole loop
  leaves in the map. `Stream` is the loop itself, a method over an `array` standing for the
  memory map; its turns (`Turn`, `TakeFrame`, `CopyFrame`) and the row loop (`BlitFrame`)
  are proved against `Run` and `Blit`.

Row offsets `y * line_len` and `y * row_bytes_in` are written as `Arith.RowStart(y, width)`,
which is repeated addition. `Arith.RowStartIsProduct` proves it equal to the product, and
`BlitCopies` states the copy in terms of the products themselves.

In two places the code does less than its evident intent:
- Geometry resolution is meant to fall back to defaults and never fail. The source raises
  when `virtual_size` does not hold exactly two numbers (see Findings). The model carries
  both versions: `FbGeometry.GetFbGeomAsWritten` follows the code and raises there;
  `FbGeometry.GetFbGeom`, and `FbGeometry.ReadFbGeom` built on it, follow the intent and
  give 640x480 for such a `virtual_size`.
- Nothing checks that `line_len >= xres * bytespp`. The source keeps any non-zero stride,
  even a narrower one (`FbGeometry.NarrowStrideIsKept`), and so does the model; only the
  copy clips to it.

## Model

| member | source | states |
|---|---|---|
| FbGeometry.BytesPerPixel | scripts/test-camera/fb_sink.py:20 | `(bpp + 7) // 8` is the ceiling of `bpp / 8`: `8(n-1) < bpp <= 8n` |
| FbGeometry.BppOrDefault | scripts/test-camera/fb_sink.py:15 | an absent `bits_per_pixel` gives 32 and a read one is kept (stated by `GetFbGeom`'s `g.bpp` clauses) |
| FbGeometry.LineLength | scripts/test-camera/fb_sink.py:20-21 | an absent or zero stride gives `xres * bytespp`, a non-zero one is kept (stated by `GetFbGeom`, `DefaultStrideIsUnpadded` and `NarrowStrideIsKept`) |
| FbGeometry.GeometryOf | scripts/test-camera/fb_sink.py:20-23 | the geometry of a known size has `smem_len == line_len * yres` (stated as `Consistent` by `GetFbGeom` and `GetFbGeomAsWritten`) |
| FbGeometry.GetFbGeomAsWritten | scripts/test-camera/fb_sink.py:12-23 | the source's resolver fails exactly when `virtual_size` converts to a number of values other than two, and reports that count; otherwise the geometry is consistent, with size 640x480 when the attribute is absent and the two values when present |
| FbGeometry.AsWrittenRaisesOnSingleValue | scripts/test-camera/fb_sink.py:17-19 | a one-value `virtual_size` such as `640` makes the source raise rather than default |
| FbGeometry.GetFbGeom | scripts/test-camera/fb_sink.py:12-23 | the resolver never fails; `smem_len == line_len * yres`; size defaults to 640x480, depth to 32; an absent or zero stride gives `xres * bytespp`, a non-zero one is kept; with nothing readable the geometry is (640, 480, 32, 2560, 1228800) |
| FbGeometry.GetFbGeomAgreesWhereSourceSucceeds | scripts/test-camera/fb_sink.py:12-23 | wherever the source returns a geometry, the never-failing resolver returns the same one |
| FbGeometry.DefaultStrideIsUnpadded | scripts/test-camera/fb_sink.py:20-21 | without a stride the rows are exactly `xres * bytespp` bytes, and `bytespp` bytes hold `bpp` bits |
| FbGeometry.NarrowStrideIsKept | scripts/test-camera/fb_sink.py:21 | a reported stride narrower than a row of pixels is kept as it is |
| FbGeometry.ReadFbGeom | scripts/test-camera/fb_sink.py:12-23 | attribute texts as the kernel writes them resolve to the values written (`ReadFbGeomFromKernelText`); with nothing readable the defaults apply (`ReadFbGeomWithoutAttributes`); built on the corrected resolver, so a `virtual_size` text holding one or three numbers gives 640x480 where the source raises |
| FbGeometry.ReadFbGeomFromKernelText | scripts/test-camera/fb_sink.py:12-23 | attribute texts as the kernel writes them (`x,y`, `bpp`, `stride`, each with a newline) resolve to exactly those values, with the stride rule and `smem_len = line_len * y` |
| FbGeometry.ReadFbGeomWithoutAttributes | scripts/test-camera/fb_sink.py:12-23 | with no attribute readable the geometry is (640, 480, 32, 2560, 1228800) |
| SysfsText.TrimStart | scripts/test-camera/fb_sink.py:7 | the result is a suffix of the text, does not start with whitespace, and only whitespace was dropped |
| SysfsText.TrimEnd | scripts/test-camera/fb_sink.py:7 | the result is a prefix of the text, does not end with whitespace, and only whitespace was dropped |
| SysfsText.Strip | scripts/test-camera/fb_sink.py:7 | whitespace, ASCII and Unicode, is dropped from both ends and nothing else (the `TrimStart` and `TrimEnd` clauses); a value line loses only its newline (`StripValueLine`) |
| SysfsText.LeadingSpaceStripped | scripts/test-camera/fb_sink.py:7 | a whitespace character before the text, ASCII or not, makes no difference to `strip()` |
| SysfsText.NoBreakSpaceStripped | scripts/test-camera/fb_sink.py:4-10 | a number attribute with a no-break space (U+00A0) before its digits still converts to that number |
| SysfsText.StripValueLine | scripts/test-camera/fb_sink.py:7 | `strip()` returns a value without surrounding whitespace unchanged after the newline sysfs appends |
| SysfsText.Split | scripts/test-camera/fb_sink.py:14 | `split(sep)` gives at least one piece, and no piece contains the separator |
| SysfsText.JoinSplit | scripts/test-camera/fb_sink.py:14 | joining the pieces with the separator gives the text back |
| SysfsText.SplitNoSeparator | scripts/test-camera/fb_sink.py:14 | text without the separator splits into itself alone |
| SysfsText.SplitPair | scripts/test-camera/fb_sink.py:14 | `a,b` with separator-free `a` and `b` splits into exactly `[a, b]` |
| SysfsText.DigitChar | scripts/test-camera/fb_sink.py:8 | the digit printed for `d < 10` is a digit of value `d` |
| SysfsText.ParseNat | scripts/test-camera/fb_sink.py:8 | conversion succeeds exactly on non-empty digit strings |
| SysfsText.ShowNat | scripts/test-camera/fb_sink.py:8 | the decimal text of a number is a non-empty digit string |
| SysfsText.DecimalShowNat | scripts/test-camera/fb_sink.py:8 | the printed digits denote the number printed |
| SysfsText.ParseShowNat | scripts/test-camera/fb_sink.py:8 | printing a number and converting the text back gives the number |
| SysfsText.ParseAll | scripts/test-camera/fb_sink.py:14 | `tuple(map(int, parts))` succeeds exactly when every piece converts, and then holds each piece's value in order |
| SysfsText.ReadInt | scripts/test-camera/fb_sink.py:4-10 | `read_sysfs(path, None, int)` reads a kernel-written number back as that number (`IntAttributeRoundTrip`, `NoBreakSpaceStripped`) |
| SysfsText.ReadIntList | scripts/test-camera/fb_sink.py:14 | the `virtual_size` conversion reads a kernel-written `x,y` back as the pair (`SizeAttributeRoundTrip`) and fails when any piece does not convert (`ParseAll`) |
| SysfsText.IntAttributeRoundTrip | scripts/test-camera/fb_sink.py:15-16 | a number attribute written as digits and a newline reads back as that number |
| SysfsText.SizeAttributeRoundTrip | scripts/test-camera/fb_sink.py:14 | a `virtual_size` written as `x,y` and a newline reads back as the pair `(x, y)` |
| YuvToBgra.Plane | scripts/test-camera/fb_sink.py:30-32 | `frombuffer(count, offset)` takes the bytes `[offset, offset + count)`; element by element this is stated by `LumaAt` and `ChromaAt` |
| YuvToBgra.Flatten | scripts/test-camera/fb_sink.py:44 | `tobytes()` of `rows` x `cols` has `rows * cols` bytes, element `(i, j)` at `i * cols + j` (`FlattenLength`, `FlattenAt`), and undoes `reshape` (`FlattenReshape`) |
| YuvToBgra.FlattenLength | scripts/test-camera/fb_sink.py:44 | `tobytes()` of `rows` rows of `cols` bytes has `rows * cols` bytes |
| YuvToBgra.FlattenAt | scripts/test-camera/fb_sink.py:44 | element `(i, j)` is byte `i * cols + j` of `tobytes()` |
| YuvToBgra.Reshape | scripts/test-camera/fb_sink.py:30-32 | `reshape(rows, cols)` of `rows * cols` bytes has `rows` rows of `cols` bytes |
| YuvToBgra.FlattenReshape | scripts/test-camera/fb_sink.py:30-32 | `tobytes()` undoes `reshape`: the bytes keep their order |
| YuvToBgra.ReshapeAt | scripts/test-camera/fb_sink.py:30-32 | element `(i, j)` of the reshaped buffer is byte `i * cols + j` |
| YuvToBgra.Repeat | scripts/test-camera/fb_sink.py:34-35 | `repeat(2)` along one axis (the rows of a plane, or the bytes of one row) doubles the length |
| YuvToBgra.RepeatAt | scripts/test-camera/fb_sink.py:34-35 | element `k` of the repeated sequence is element `k / 2` of the original |
| YuvToBgra.RepeatCols | scripts/test-camera/fb_sink.py:34-35 | `repeat(2, axis=1)` keeps the number of rows |
| YuvToBgra.Upsample | scripts/test-camera/fb_sink.py:34-35 | `.repeat(2, axis=0).repeat(2, axis=1)` turns `h/2` x `w/2` into `h` x `w`, sample `(i, j)` coming from `(i/2, j/2)` (`UpsampleShape`, `UpsampleAt`) |
| YuvToBgra.UpsampleShape | scripts/test-camera/fb_sink.py:34-35 | an `h/2` x `w/2` chroma plane upsamples to `h` x `w` |
| YuvToBgra.UpsampleAt | scripts/test-camera/fb_sink.py:34-35 | upsampled sample `(i, j)` is chroma sample `(i/2, j/2)`: each sample covers one 2x2 block |
| YuvToBgra.Clip | scripts/test-camera/fb_sink.py:38-40 | `np.clip(x, 0, 255)` lies in [0, 255] and leaves values already in range unchanged |
| YuvToBgra.ToUint8 | scripts/test-camera/fb_sink.py:38-40 | the byte is the floor of the clipped value, so every channel lies in [0, 255] |
| YuvToBgra.RedOf | scripts/test-camera/fb_sink.py:38 | red is a byte, equals the luma at neutral chroma (`NeutralChroma`) and never decreases with luma (`ChannelsMonotoneInLuma`) |
| YuvToBgra.GreenOf | scripts/test-camera/fb_sink.py:39 | green is a byte, equals the luma at neutral chroma (`NeutralChroma`) and never decreases with luma (`ChannelsMonotoneInLuma`) |
| YuvToBgra.BlueOf | scripts/test-camera/fb_sink.py:40 | blue is a byte, equals the luma at neutral chroma (`NeutralChroma`) and never decreases with luma (`ChannelsMonotoneInLuma`) |
| YuvToBgra.ToUint8OfLevel | scripts/test-camera/fb_sink.py:36-40 | a byte read as a float passes through clip-and-truncate unchanged |
| YuvToBgra.NeutralChroma | scripts/test-camera/fb_sink.py:34-40 | with U = V = 128, blue, green and red all equal the luma |
| YuvToBgra.ChannelsMonotoneInLuma | scripts/test-camera/fb_sink.py:38-40 | for fixed chroma, more luma never gives less blue, green or red |
| YuvToBgra.ToUint8Monotone | scripts/test-camera/fb_sink.py:38-40 | clip-and-truncate is monotone |
| YuvToBgra.Blues | scripts/test-camera/fb_sink.py:40 | the blue plane has the luma plane's shape |
| YuvToBgra.Greens | scripts/test-camera/fb_sink.py:39 | the green plane has the luma plane's shape |
| YuvToBgra.Reds | scripts/test-camera/fb_sink.py:38 | the red plane has the luma plane's shape |
| YuvToBgra.Zeros | scripts/test-camera/fb_sink.py:42 | `zeros_like(r)` has the red plane's shape |
| YuvToBgra.Interleave | scripts/test-camera/fb_sink.py:43 | a stacked row holds four bytes per pixel |
| YuvToBgra.InterleaveAt | scripts/test-camera/fb_sink.py:43 | pixel `p` of a stacked row is bytes `4p .. 4p+3`: blue, green, red, alpha |
| YuvToBgra.Dstack | scripts/test-camera/fb_sink.py:43 | `dstack` of `rows` x `cols` planes has rows of `4 * cols` bytes |
| YuvToBgra.DstackAt | scripts/test-camera/fb_sink.py:43-44 | in `tobytes()` of the stack, pixel `(i, j)` is bytes `4(i*cols + j) .. +3`, in the order blue, green, red, alpha |
| YuvToBgra.LumaPlane | scripts/test-camera/fb_sink.py:30 | the luma plane is `h` x `w` |
| YuvToBgra.ChromaPlane | scripts/test-camera/fb_sink.py:31-32 | a chroma plane is `h/2` x `w/2` |
| YuvToBgra.LumaAt | scripts/test-camera/fb_sink.py:26-30 | luma sample `(i, j)` is input byte `i * w + j`, inside `[0, w*h)` |
| YuvToBgra.UpsampledChroma | scripts/test-camera/fb_sink.py:31-35 | an upsampled chroma plane is `h` x `w`, the luma plane's shape |
| YuvToBgra.ChromaAt | scripts/test-camera/fb_sink.py:26-35 | upsampled chroma sample `(i, j)` of the plane at `offset` is input byte `offset + (i/2)*(w/2) + j/2`, inside the plane |
| YuvToBgra.Stack | scripts/test-camera/fb_sink.py:43-44 | the stacked bytes are four per pixel |
| YuvToBgra.StackedPixel | scripts/test-camera/fb_sink.py:38-44 | pixel `(i, j)` of the stacked planes holds the blue, green and red of its samples and a zero alpha |
| YuvToBgra.Yuv420ToBgra | scripts/test-camera/fb_sink.py:25-44 | the output has length `4*w*h` |
| YuvToBgra.PixelSamples | scripts/test-camera/fb_sink.py:26-35 | pixel `(i, j)` takes luma byte `p = i*w + j` in Y at `[0, w*h)`, and chroma sample `c = (i/2)*(w/2) + j/2` of U at `w*h` and of V at `w*h + uv` |
| YuvToBgra.ConvertedPixel | scripts/test-camera/fb_sink.py:36-44 | bytes `4p .. 4p+3` of the output are the blue, green and red computed from the pixel's samples, then 0 |
| YuvToBgra.PixelLayout | scripts/test-camera/fb_sink.py:25-44 | where every output byte comes from: the Y, U and V bytes of pixel `(i, j)` lie in their planes, and output bytes `4p .. 4p+3` are B, G, R of those bytes and a zero alpha |
| YuvToBgra.NeutralSamples | scripts/test-camera/fb_sink.py:31-35 | when both chroma planes hold only 128, every pixel's U and V samples are 128 |
| YuvToBgra.NeutralChromaFrame | scripts/test-camera/fb_sink.py:25-44 | a frame whose chroma planes hold only 128 converts to grey: B = G = R = Y at every pixel, alpha 0 |
| PySlice.ClampIndex | scripts/test-camera/fb_sink.py:94 | an adjusted slice bound lies in `[0, n]`; in-range bounds are kept, bounds past the end become `n`, negative ones count from the end |
| PySlice.Slice | scripts/test-camera/fb_sink.py:94 | a slice never fails, is no longer than the sequence, and is the plain subsequence for in-range bounds |
| PySlice.SliceAssign | scripts/test-camera/fb_sink.py:94 | a successful mmap slice assignment keeps the map's length |
| PySlice.SliceAssignInRange | scripts/test-camera/fb_sink.py:94 | assigning an in-range slice from a source of the same length succeeds and replaces exactly that range |
| PySlice.SliceAssignFromSlice | scripts/test-camera/fb_sink.py:94 | copying `len` bytes from an in-range slice into an in-range slice succeeds: the equal-length check does not fire |
| PySlice.SplicedAt | scripts/test-camera/fb_sink.py:94 | after the assignment, bytes inside the range come from the source and all others from the map |
| PySlice.SliceAssignPastEndRaises | scripts/test-camera/fb_sink.py:94 | a destination range running past the end is clipped, so a full-length source raises the wrong-size `IndexError` |
| Arith.RowStartIsProduct | scripts/test-camera/fb_sink.py:92-93 | the row offset by repeated addition equals `y * width` |
| FbSink.InputFrameSize | scripts/test-camera/fb_sink.py:55-58 | `frame_size` is `4*w*h` for BGRA and `w*h + 2*((w/2)*(h/2))` for YUV (`InputFrameSizes`), `3/2` bytes per pixel when even (`FrameSizeEven`) |
| FbSink.Copies | scripts/test-camera/fb_sink.py:83-88 | frames reach the map exactly for BGRA input or a 32-bit framebuffer: otherwise the map is never written (`RunSkipsEveryFrame`), and when it holds the map shows the last frame (`RunShowsLastFrame`) |
| FbSink.InputFrameSizes | scripts/test-camera/fb_sink.py:55-58 | a frame is `4*w*h` bytes for BGRA and `w*h + 2*((w/2)*(h/2))` for YUV |
| YuvToBgra.FrameSizePositive | scripts/test-camera/fb_sink.py:58 | a YUV frame of at least one byte has a non-zero width and height |
| FbSink.FrameSizeEven | scripts/test-camera/fb_sink.py:58 | an even-sized I420 frame is one and a half bytes per pixel |
| FbSink.PlanCopy | scripts/test-camera/fb_sink.py:67-75 | `copy_w` and `copy_h` are the smaller of the frame and device sizes; `row_bytes_copy` never exceeds `line_len`; for copied frames rows are `4*w` bytes in and `min(4*copy_w, line_len)` copied |
| FbSink.PlanFits | scripts/test-camera/fb_sink.py:67-75 | whenever frames are copied, `copy_h <= yres`, `copy_h <= h`, `0 <= row_bytes_copy <= line_len`, `row_bytes_copy <= row_bytes_in`, and all copied rows fit the map and the frame |
| FbSink.RowInBounds | scripts/test-camera/fb_sink.py:91-94 | for row `y < copy_h`, the destination range lies in `[0, smem_len)` and the source range in the frame |
| FbSink.FrameBytes | scripts/test-camera/fb_sink.py:83-89 | the frame that is copied has `4*w*h` bytes, whichever the input format |
| FbSink.CopyRow | scripts/test-camera/fb_sink.py:92-94 | row `y`'s assignment does not raise and replaces exactly `[y*line_len, y*line_len + row_bytes_copy)` with the frame's row (`RowAssigns`) |
| FbSink.BlitFrom | scripts/test-camera/fb_sink.py:91-94 | the row loop from row `y` never raises and leaves what `Copied` describes (`BlitFromIsCopied`); a successful row passes on to the next (`BlitFromStep`) |
| FbSink.Blit | scripts/test-camera/fb_sink.py:91-94 | copying a frame never raises (`BlitIsCopied`), writes the frame's rows into the clipped region (`BlitCopies`), leaves every other byte alone (`BlitKeeps`), and a second frame overwrites all of the first (`BlitOverwrites`) |
| FbSink.Copied | scripts/test-camera/fb_sink.py:91-94 | the byte-by-byte description of a finished copy has the map's length |
| FbSink.CopiedStep | scripts/test-camera/fb_sink.py:91-94 | splicing row `y` into the map and describing rows from `y + 1` gives the description of rows from `y` |
| FbSink.BlitFromStep | scripts/test-camera/fb_sink.py:91-94 | when row `y`'s assignment succeeds, the loop goes on from row `y + 1` with the spliced map |
| FbSink.RowAssigns | scripts/test-camera/fb_sink.py:91-94 | row `y`'s slice assignment has matching lengths, so it does not raise; it replaces exactly bytes `[dst, dst + row_bytes_copy)` with the frame's row bytes |
| FbSink.CopiedNone | scripts/test-camera/fb_sink.py:91 | with no rows left to copy the map is unchanged |
| FbSink.BlitFromIsCopied | scripts/test-camera/fb_sink.py:91-94 | the row loop never raises and leaves exactly what `Copied` describes |
| FbSink.BlitIsCopied | scripts/test-camera/fb_sink.py:91-94 | copying a frame never raises the wrong-size `IndexError` and leaves the map `Copied` describes |
| FbSink.BlitCopies | scripts/test-camera/fb_sink.py:91-94 | for `y < copy_h` and `k < row_bytes_copy`, map byte `y*line_len + k` becomes frame byte `y*row_bytes_in + k`, and both indices are in range |
| FbSink.BlitKeeps | scripts/test-camera/fb_sink.py:91-94 | every map byte outside the copied rows and columns keeps its value |
| FbSink.BlitOverwrites | scripts/test-camera/fb_sink.py:91-94 | copying a second frame with the same plan overwrites everything the first one wrote |
| FbSink.LastFrameIndex | scripts/test-camera/fb_sink.py:78-81 | the last whole frame starts at a multiple of the frame size and has no room for another whole frame after it |
| FbSink.LastFrameIndexIsQuotient | scripts/test-camera/fb_sink.py:78-81 | the last whole frame is frame number `len // frame_size - 1` |
| FbSink.LastFrame | scripts/test-camera/fb_sink.py:78-81 | the last whole frame is `frame_size` bytes of the input, at the offset `LastFrameIndex` gives |
| FbSink.Run | scripts/test-camera/fb_sink.py:77-94 | with a zero frame size, or less input than one frame, the loop ends with the map unchanged |
| FbSink.RunNeverRaises | scripts/test-camera/fb_sink.py:77-94 | on a map of `smem_len` bytes the loop never raises, whatever the input, for every session `ValidSession` admits (a consistent, non-negative geometry and an even size wherever a YUV frame is converted), and the map keeps its length |
| FbSink.RunSkipsEveryFrame | scripts/test-camera/fb_sink.py:83-88 | YUV input on a framebuffer that is not 32 bits deep never writes the map |
| FbSink.RunShowsLastFrame | scripts/test-camera/fb_sink.py:77-94 | when frames are copied, the final map is the initial map with only the last whole frame copied onto it |
| FbSink.RunCopiesFrame | scripts/test-camera/fb_sink.py:83-94 | a turn that reads a whole frame and copies it leaves the loop to continue from the copy with the rest of the input |
| FbSink.RunSkipsFrame | scripts/test-camera/fb_sink.py:86-88 | a skipped YUV frame leaves the loop to continue with the rest of the input and the map unchanged |
| FbSink.BlitFrame | scripts/test-camera/fb_sink.py:91-94 | the row loop on the map array, with every write in bounds, leaves exactly what `Blit` gives |
| FbSink.CopyFrame | scripts/test-camera/fb_sink.py:83-94 | converting and copying the frame at `pos` is the step `Run` takes for it |
| FbSink.TakeFrame | scripts/test-camera/fb_sink.py:83-94 | skipping or copying a whole frame at `pos` is the step `Run` takes for it |
| FbSink.Turn | scripts/test-camera/fb_sink.py:78-94 | one turn of `while True` either stops at a short or empty read with the map as `Run` leaves it, or consumes one whole frame and advances exactly as `Run` does |
| FbSink.Stream | scripts/test-camera/fb_sink.py:77-94 | the loop on the map array ends with exactly the map `Run` describes |

## Left out

- Command-line parsing (`argparse`, lines 47-52): the width, height and input format are fields of `FbSink.Session`.
- Reading sysfs files and `read_sysfs`'s catch-all `except` (lines 4-10): each attribute is an `Option` of its text. `None` stands for any failure to read or convert.
- SysfsText.ParseNat: only plain decimal digits are converted. Python's `int()` also accepts signs, underscores, non-ASCII digits and surrounding whitespace inside a part; those texts convert to `None` here. In the other direction, CPython 3.11 and later rejects a decimal string of more than 4300 digits (so `read_sysfs` returns its default), while `ParseNat` converts digit strings of any length.
- Negative sizes and strides: `FbSink.Session` has natural-number width and height. `FbSink.ValidSession` asks for a non-negative geometry. Python's negative slice bounds are modelled in `PySlice` but not exercised by the loop.
- Device handling (`os.open`, `mmap.mmap`, `fbmap.close`, `os.close` and the `try`/`finally` blocks, lines 60-66 and 95-98): the memory map is an `array` of `smem_len` bytes that the caller provides. A failure to open or map the device is not modelled.
- The blocking `sys.stdin.buffer.read` (line 77): the stream is a `seq` of bytes. `read(n)` takes the next `n` bytes, or what is left at the end of the input.
- YuvToBgra.RedOf, YuvToBgra.GreenOf, YuvToBgra.BlueOf: the colour equations are evaluated on exact reals, not in single precision. Results can differ from numpy's by one unit where float32 rounding crosses an integer.
- YuvToBgra.Yuv420ToBgra, FbSink.FrameBytes, FbSink.Run, FbSink.Stream: these require an even width and height wherever a YUV frame is converted, which is for YUV input on a 32-bit framebuffer with a non-zero width and height. A zero width or height gives a `frame_size` of 0, the first read returns nothing and the loop ends, so those sessions are covered (`YuvToBgra.FrameSizePositive`). For an odd size, the upsampled chroma planes are one row or column short of the luma plane. numpy then fails to broadcast them and raises `ValueError`. The exception is a width of 1 with a height of 1 or an even height, or a height of 1 with an even width: the chroma plane then has no columns (or no rows), the luma plane broadcasts to it, and the frame converts to no bytes at all; in `main` the first row's slice assignment then finds an empty source for a non-empty destination and raises `IndexError` whenever the framebuffer has at least one row and column.
- FbSink.ValidSession: the geometry's `smem_len == line_len * yres` is a precondition of the loop, as `get_fb_geom` guarantees it. A map of any other length is not considered.
- FbSink.PlanCopy: for YUV input on a framebuffer that is not 32 bits deep, the plan uses that depth's `bytespp`, as the source does. No frame is ever copied with it.

## Findings

| source | as written | input that shows it | evidently intended | confidence | as-written member | corrected member |
|---|---|---|---|---|---|---|
| scripts/test-camera/fb_sink.py:14-19 | `virtual_size` is unpacked into `xres, yres` outside `read_sysfs`'s guard, so an attribute that converts to one value or to three raises `ValueError` | `virtual_size` containing `640` | an unusable `virtual_size` falls back to 640x480 like an unreadable one, since geometry resolution is meant never to fail | not executed | FbGeometry.GetFbGeomAsWritten, FbGeometry.AsWrittenRaisesOnSingleValue | FbGeometry.GetFbGeom, FbGeometry.ReadFbGeom |
