/** Compressed buffers of the newer gralloc: their sizes for every type and format helper, how the
    type is chosen per descriptor (gralloc960/mali_gralloc_bufferallocation.cpp), and the headers
    written into them (gralloc960/mali_gralloc_ion.cpp). */
module Afbc {
  import opened Align
  import opened Bytes
  import opened Geometry
  import opened Prelude

  datatype AllocType =
    | UNCOMPRESSED
    | AFBC
    | AFBC_WIDEBLK
    | AFBC_PADDED
    | AFBC_TILED_HEADERS_BASIC
    | AFBC_TILED_HEADERS_WIDEBLK

  const PIXELS_PER_BLOCK := 16
  const HEADER_BYTES := 16

  function WidthAlign(t: AllocType): (a: nat)
    ensures a > 0 && a % 16 == 0
  {
    match t
    case AFBC_TILED_HEADERS_BASIC => 128
    case AFBC_TILED_HEADERS_WIDEBLK => 256
    case AFBC_PADDED => 64
    case AFBC_WIDEBLK => 32
    case _ => 16
  }

  function HeightAlign(t: AllocType): (a: nat)
    ensures a > 0 && a % 16 == 0
  {
    match t
    case AFBC_TILED_HEADERS_BASIC => 128
    case AFBC_TILED_HEADERS_WIDEBLK => 64
    case _ => 16
  }

  function BodyAlign(t: AllocType): (a: nat)
    ensures a > 0
  {
    if t.AFBC_TILED_HEADERS_BASIC? || t.AFBC_TILED_HEADERS_WIDEBLK? then 4096 else 1024
  }

  /** The out parameters of the get_..._stride_and_size helpers; size includes `header` bytes. */
  datatype Strides = Strides(pixelStride: nat, byteStride: nat, size: nat, header: nat)

  /** width / 16 * height / 16, from left to right. */
  function Blocks(w: nat, h: nat): nat {
    Rows(h, w / PIXELS_PER_BLOCK) / PIXELS_PER_BLOCK
  }

  function HeaderRegion(w: nat, h: nat, t: AllocType): nat {
    AlignUp(Blocks(w, h) * HEADER_BYTES, BodyAlign(t))
  }

  function PixelsIn(stride: nat, pixelSize: nat): nat
    requires pixelSize > 0
  {
    stride / pixelSize
  }

  /** get_rgb_stride_and_size. */
  function Rgb(w: nat, h: nat, pixelSize: nat, t: AllocType): Strides
    requires pixelSize > 0
  {
    if t.UNCOMPRESSED? then
      var stride := AlignUp(w * pixelSize, 64);
      Strides(PixelsIn(stride, pixelSize), stride, Rows(h, stride), 0)
    else
      var wa, ha := AlignUp(w, WidthAlign(t)), AlignUp(h, HeightAlign(t));
      var stride := AlignUp(wa * pixelSize, 64);
      var header := HeaderRegion(wa, ha, t);
      Strides(PixelsIn(stride, pixelSize), stride, Rows(ha, stride) + header, header)
  }

  predicate YuvType(t: AllocType) {
    !t.UNCOMPRESSED? && !t.AFBC_PADDED?
  }

  /** get_afbc_yuv420_8bit_stride_and_size; extra is the additional row of blocks of some builds. */
  function Yuv420(w: nat, h: nat, t: AllocType, extra: nat): Option<Strides> {
    if !YuvType(t) then None
    else
      var wa, ha := AlignUp(w, WidthAlign(t)), AlignUp(h + extra, HeightAlign(t));
      var header := HeaderRegion(wa, ha, t);
      Some(Strides(wa, wa, Rows(ha, wa + AlignUp(wa / 2, 16)) + header, header))
  }

  /** get_afbc_yuv422_8bit_stride_and_size. */
  function Yuv422(w: nat, h: nat, t: AllocType): Option<Strides> {
    if !YuvType(t) then None
    else
      var wa, ha := AlignUp(w, WidthAlign(t)), AlignUp(h, HeightAlign(t));
      var header := HeaderRegion(wa, ha, t);
      Some(Strides(wa, wa, Rows(ha, wa) * 2 + header, header))
  }

  /** get_yuv420_10bit_afbc_stride_and_size: the body has half the rows, the headers are counted
      from the height before alignment. */
  function Yuv420Ten(w: nat, h: nat, t: AllocType, extra: nat): Option<Strides> {
    if w % 4 != 0 || !YuvType(t) then None
    else
      var wa, ha := AlignUp(w, WidthAlign(t)), AlignUp((h + extra) / 2, HeightAlign(t));
      var header := HeaderRegion(wa, h + extra, t);
      Some(Strides(AlignUp(wa, 16), AlignUp(wa, 16), Rows(ha, AlignUp(wa * 4, 16)) + header, header))
  }

  /** get_yuv422_10bit_afbc_stride_and_size. */
  function Yuv422Ten(w: nat, h: nat, t: AllocType): Option<Strides> {
    if w % 4 != 0 || !YuvType(t) then None
    else
      var wa, ha := AlignUp(w, WidthAlign(t)), AlignUp(h, HeightAlign(t));
      var header := HeaderRegion(wa, ha, t);
      Some(Strides(AlignUp(wa, 16), AlignUp(wa * 2, 16), Rows(ha, AlignUp(wa * 2, 16)) * 2 + header, header))
  }

  // -------------------------------------------------------------- headers fit

  /** How many headers init_afbc writes, from the dimensions as requested. */
  function HeaderCount(w: nat, h: nat): nat {
    Rows(h, w) / 256
  }

  lemma {:induction false} RowsScale(n: nat, s: nat, k: nat)
    ensures Rows(n, k * s) == k * Rows(n, s)
  {
    if n > 0 {
      RowsScale(n - 1, s, k);
      MulDistributes(k, Rows(n - 1, s), s);
    } else {
      assert k * 0 == 0;
    }
  }

  lemma BlockQuotient(x: nat, y: nat)
    requires y <= 16 * x
    ensures y / 256 <= x / 16
  {
  }

  /** At least as many blocks as headers, whenever the aligned width and some height at least as
      large as requested are counted. */
  lemma CountedBlocks(w: nat, h: nat, ha: nat, t: AllocType)
    requires h <= ha
    ensures HeaderCount(w, h) <= Blocks(AlignUp(w, WidthAlign(t)), ha)
    ensures HEADER_BYTES * HeaderCount(w, h) <= HeaderRegion(AlignUp(w, WidthAlign(t)), ha, t)
  {
    var wa := AlignUp(w, WidthAlign(t));
    var a := WholeBlocks(w, WidthAlign(t));
    RowsMono(h, ha, w, wa);
    RowsScale(ha, a, 16);
    BlockQuotient(Rows(ha, a), Rows(h, w));
  }

  /** For every type and every helper, what init_afbc writes from the unaligned dimensions fits
      the header region, which is part of the allocated size. */
  lemma HeadersFit(w: nat, h: nat, pixelSize: nat, t: AllocType, extra: nat)
    requires pixelSize > 0 && !t.UNCOMPRESSED?
    ensures RoomForHeaders(w, h, Some(Rgb(w, h, pixelSize, t)))
    ensures RoomForHeaders(w, h, Yuv420(w, h, t, extra)) && RoomForHeaders(w, h, Yuv422(w, h, t))
    ensures RoomForHeaders(w, h, Yuv420Ten(w, h, t, extra)) && RoomForHeaders(w, h, Yuv422Ten(w, h, t))
  {
    RgbHeadersFit(w, h, pixelSize, t);
    YuvHeadersFit(w, h, t, extra);
    TenBitHeadersFit(w, h, t, extra);
  }

  lemma RgbHeadersFit(w: nat, h: nat, pixelSize: nat, t: AllocType)
    requires pixelSize > 0 && !t.UNCOMPRESSED?
    ensures HEADER_BYTES * HeaderCount(w, h) <= Rgb(w, h, pixelSize, t).header <= Rgb(w, h, pixelSize, t).size
  {
    CountedBlocks(w, h, AlignUp(h, HeightAlign(t)), t);
  }

  predicate RoomForHeaders(w: nat, h: nat, r: Option<Strides>) {
    r.Some? ==> HEADER_BYTES * HeaderCount(w, h) <= r.value.header <= r.value.size
  }

  lemma YuvHeadersFit(w: nat, h: nat, t: AllocType, extra: nat)
    ensures RoomForHeaders(w, h, Yuv420(w, h, t, extra)) && RoomForHeaders(w, h, Yuv422(w, h, t))
  {
    CountedBlocks(w, h, AlignUp(h, HeightAlign(t)), t);
    CountedBlocks(w, h, AlignUp(h + extra, HeightAlign(t)), t);
  }

  lemma TenBitHeadersFit(w: nat, h: nat, t: AllocType, extra: nat)
    ensures RoomForHeaders(w, h, Yuv420Ten(w, h, t, extra)) && RoomForHeaders(w, h, Yuv422Ten(w, h, t))
  {
    CountedBlocks(w, h, AlignUp(h, HeightAlign(t)), t);
    CountedBlocks(w, h, h + extra, t);
  }

  lemma {:induction false} RowsPositive(n: nat, s: nat)
    requires n > 0 && s > 0
    ensures Rows(n, s) > 0
  {
  }

  /** Growing either dimension of a real picture adds bytes. */
  lemma StrictlyMore(w: nat, h: nat, wa: nat, ha: nat)
    requires 0 < w <= wa && 0 < h <= ha
    ensures Rows(h, w) == Rows(ha, wa) <==> w == wa && h == ha
  {
    RowsMono(h, h, w, wa);
    RowsMono(h, ha, wa, wa);
    if w < wa {
      RowsWiden(h, w, wa - w);
      RowsPositive(h, wa - w);
    }
    if h < ha {
      RowsAdd(h, ha - h, wa);
      RowsPositive(ha - h, wa);
    }
  }

  /** Every block counted for the header region gets a header exactly when the requested dimensions
      are aligned already and no row of blocks was added; otherwise some blocks keep whatever the
      memory held.  Only get_afbc_yuv420_8bit adds an extra row here. */
  lemma EveryBlockHeadedExactly(w: nat, h: nat, t: AllocType, extra: nat)
    requires w > 0 && h > 0
    ensures var wa, ha := AlignUp(w, WidthAlign(t)), AlignUp(h + extra, HeightAlign(t));
            HeaderCount(w, h) == Blocks(wa, ha) <==> w == wa && extra == 0 && h == ha
  {
    var wa, ha := AlignUp(w, WidthAlign(t)), AlignUp(h + extra, HeightAlign(t));
    var a := WholeBlocks(w, WidthAlign(t));
    var b := WholeBlocks(h + extra, HeightAlign(t));
    BlocksOfWhole(a, b, wa, ha);
    StrictlyMore(w, h, wa, ha);
    RowsMono(h, ha, w, wa);
    FullQuotient(Rows(h, w), Rows(b, a));
  }

  lemma SameQuotient(x: nat, y: nat)
    requires x <= y
    ensures x / 256 == y / 256 <==> x % 256 + (y - x) < 256
  {
  }

  lemma BlocksOfRows(a: nat, h: nat, wa: nat)
    requires wa == 16 * a
    ensures Blocks(wa, h) == Rows(h, wa) / 256
  {
    RowsScale(h, a, 16);
    assert wa / 16 == a;
  }

  /** The 10-bit 4:2:0 helper counts its blocks from the height before alignment.  Every one of them
      gets a header exactly when the pixels added to the picture do not complete another block;
      with an extra row of blocks they always do. */
  lemma TenBitHeadedExactly(w: nat, h: nat, t: AllocType, extra: nat)
    requires w > 0
    ensures var wa := AlignUp(w, WidthAlign(t));
            && Rows(h, w) <= Rows(h + extra, wa)
            && (HeaderCount(w, h) == Blocks(wa, h + extra)
                <==> Rows(h, w) % 256 + (Rows(h + extra, wa) - Rows(h, w)) < 256)
            && (extra >= 16 ==> HeaderCount(w, h) < Blocks(wa, h + extra))
  {
    var wa := AlignUp(w, WidthAlign(t));
    var a := WholeBlocks(w, WidthAlign(t));
    RowsMono(h, h + extra, w, wa);
    BlocksOfRows(a, h + extra, wa);
    SameQuotient(Rows(h, w), Rows(h + extra, wa));
    if extra >= 16 {
      RowsMono(h, h, w, wa);
      RowsAdd(h, extra, wa);
      RowsMono(16, extra, 16, wa);
      RowsIsProduct(16, 16);
    }
  }

  lemma WholeBlocks(v: nat, align: nat) returns (n: nat)
    requires align > 0 && align % 16 == 0
    ensures AlignUp(v, align) == 16 * n
  {
    var q := AlignUpQuotient(v, align);
    assert align == 16 * (align / 16);
    n := align / 16 * q;
  }

  lemma BlocksOfWhole(a: nat, b: nat, wa: nat, ha: nat)
    requires wa == 16 * a && ha == 16 * b
    ensures Blocks(wa, ha) == Rows(b, a) && Rows(ha, wa) == 256 * Rows(b, a)
  {
    RowsGrouped(b, 16, a);
    RowsIsProduct(16, a);
    RowsScale(b, a, 16);
    RowsScale(ha, a, 16);
    assert wa / 16 == a;
  }

  lemma FullQuotient(x: nat, n: nat)
    requires x <= 256 * n
    ensures 16 * n / 16 == n && (x / 256 == n <==> x == 256 * n)
  {
  }

  // ----------------------------------------------------------- what the sizes are

  /** The pixels that width and height are filled up to, and the bytes that the headers are. */
  datatype Shape = Shape(width: nat, height: nat, bytes: nat)

  function ShapeOf(t: AllocType): (s: Shape)
    ensures s.width > 0 && s.height > 0 && s.bytes > 0
  {
    match t
    case AFBC_WIDEBLK => Shape(32, 16, 1024)
    case AFBC_PADDED => Shape(64, 16, 1024)
    case AFBC_TILED_HEADERS_BASIC => Shape(128, 128, 4096)
    case AFBC_TILED_HEADERS_WIDEBLK => Shape(256, 64, 4096)
    case _ => Shape(16, 16, 1024)
  }

  /** The headers of so many blocks fill up a region of whole KiB, or of whole pages. */
  predicate HeaderSized(header: int, blocks: int, t: AllocType) {
    LeastMultipleOf(header, ShapeOf(t).bytes, 16 * blocks)
  }

  lemma ShapeIsAlignment(t: AllocType)
    ensures ShapeOf(t) == Shape(WidthAlign(t), HeightAlign(t), BodyAlign(t))
  {
  }

  lemma FilledUp(v: nat, base: nat, va: nat)
    requires base > 0 && base % 16 == 0 && va == AlignUp(v, base)
    ensures LeastMultipleOf(va, base, v) && va % 16 == 0
  {
    AlignUpIsLeast(v, base);
    var n := WholeBlocks(v, base);
    MultipleOf(n, 16);
  }

  lemma Filled(w: nat, h: nat, t: AllocType) returns (wa: nat, ha: nat)
    ensures wa == AlignUp(w, WidthAlign(t)) && ha == AlignUp(h, HeightAlign(t))
    ensures LeastMultipleOf(wa, ShapeOf(t).width, w) && LeastMultipleOf(ha, ShapeOf(t).height, h)
    ensures wa % 16 == 0 && ha % 16 == 0
  {
    wa, ha := AlignUp(w, WidthAlign(t)), AlignUp(h, HeightAlign(t));
    ShapeIsAlignment(t);
    FilledUp(w, WidthAlign(t), wa);
    FilledUp(h, HeightAlign(t), ha);
  }

  /** One header of 16 bytes for each block of 16 by 16 pixels. */
  lemma HeaderIsSized(wa: nat, h: nat, t: AllocType)
    ensures HeaderSized(HeaderRegion(wa, h, t), wa / 16 * h / 16, t)
  {
    RowsIsProduct(h, wa / 16);
    ShapeIsAlignment(t);
    AlignUpIsLeast(Blocks(wa, h) * HEADER_BYTES, BodyAlign(t));
  }

  /** RGB: the header region, and behind it all rows of the filled up picture. */
  lemma RgbSized(w: nat, h: nat, pixelSize: nat, t: AllocType) returns (wa: nat, ha: nat)
    requires pixelSize > 0 && !t.UNCOMPRESSED?
    ensures var r := Rgb(w, h, pixelSize, t);
            && LeastMultipleOf(wa, ShapeOf(t).width, w) && LeastMultipleOf(ha, ShapeOf(t).height, h)
            && LeastMultipleOf(r.byteStride, 64, wa * pixelSize) && r.pixelStride == r.byteStride / pixelSize
            && HeaderSized(r.header, wa / 16 * ha / 16, t) && r.size == r.header + ha * r.byteStride
  {
    wa, ha := Filled(w, h, t);
    AlignUpIsLeast(wa * pixelSize, 64);
    HeaderIsSized(wa, ha, t);
    RowsIsProduct(ha, AlignUp(wa * pixelSize, 64));
  }

  /** Uncompressed RGB has no headers and only whole bursts of 64 bytes. */
  lemma PlainRgbSized(w: nat, h: nat, pixelSize: nat)
    requires pixelSize > 0
    ensures var r := Rgb(w, h, pixelSize, UNCOMPRESSED);
            && LeastMultipleOf(r.byteStride, 64, w * pixelSize) && r.pixelStride == r.byteStride / pixelSize
            && r.header == 0 && r.size == h * r.byteStride
  {
    AlignUpIsLeast(w * pixelSize, 64);
    RowsIsProduct(h, AlignUp(w * pixelSize, 64));
  }

  /** 8-bit 4:2:0: luma and two planes of chroma at half the height, each row of a multiple of 16. */
  lemma Yuv420Sized(w: nat, h: nat, t: AllocType, extra: nat, r: Strides) returns (ha: nat, c: nat)
    requires Yuv420(w, h, t, extra) == Some(r)
    ensures LeastMultipleOf(r.byteStride, ShapeOf(t).width, w) && r.pixelStride == r.byteStride
            && LeastMultipleOf(ha, ShapeOf(t).height, h + extra) && LeastMultipleOf(c, 16, r.byteStride / 2)
            && HeaderSized(r.header, r.byteStride / 16 * ha / 16, t)
            && r.size == r.header + ha * (r.byteStride + c)
  {
    var wa;
    wa, ha := Filled(w, h + extra, t);
    c := AlignUp(wa / 2, 16);
    AlignUpIsLeast(wa / 2, 16);
    HeaderIsSized(wa, ha, t);
    RowsIsProduct(ha, wa + c);
  }

  /** 8-bit 4:2:2: as many bytes of chroma as of luma. */
  lemma Yuv422Sized(w: nat, h: nat, t: AllocType, r: Strides) returns (ha: nat)
    requires Yuv422(w, h, t) == Some(r)
    ensures LeastMultipleOf(r.byteStride, ShapeOf(t).width, w) && r.pixelStride == r.byteStride
            && LeastMultipleOf(ha, ShapeOf(t).height, h)
            && HeaderSized(r.header, r.byteStride / 16 * ha / 16, t)
            && r.size == r.header + 2 * (ha * r.byteStride)
  {
    var wa;
    wa, ha := Filled(w, h, t);
    HeaderIsSized(wa, ha, t);
    RowsIsProduct(ha, wa);
  }

  /** 10-bit 4:2:0: 8 bytes for every 2 by 2 pixels, and a byte stride that counts pixels. */
  lemma Yuv420TenSized(w: nat, h: nat, t: AllocType, extra: nat, r: Strides) returns (ha: nat)
    requires Yuv420Ten(w, h, t, extra) == Some(r)
    ensures LeastMultipleOf(r.byteStride, ShapeOf(t).width, w) && r.pixelStride == r.byteStride
            && LeastMultipleOf(ha, ShapeOf(t).height, (h + extra) / 2)
            && HeaderSized(r.header, r.byteStride / 16 * (h + extra) / 16, t)
            && r.size == r.header + ha * (4 * r.byteStride)
  {
    var wa;
    wa, ha := Filled(w, (h + extra) / 2, t);
    WholeStays(wa, 1);
    WholeStays(wa, 4);
    HeaderIsSized(wa, h + extra, t);
    RowsIsProduct(ha, wa * 4);
  }

  /** 10-bit 4:2:2: 8 bytes for every 2 pixels of a row. */
  lemma Yuv422TenSized(w: nat, h: nat, t: AllocType, r: Strides) returns (ha: nat)
    requires Yuv422Ten(w, h, t) == Some(r)
    ensures LeastMultipleOf(r.pixelStride, ShapeOf(t).width, w) && r.byteStride == 2 * r.pixelStride
            && LeastMultipleOf(ha, ShapeOf(t).height, h)
            && HeaderSized(r.header, r.pixelStride / 16 * ha / 16, t)
            && r.size == r.header + 2 * (ha * r.byteStride)
  {
    var wa;
    wa, ha := Filled(w, h, t);
    WholeStays(wa, 1);
    WholeStays(wa, 2);
    HeaderIsSized(wa, ha, t);
    RowsIsProduct(ha, wa * 2);
  }

  lemma WholeStays(wa: nat, k: nat)
    requires wa % 16 == 0
    ensures AlignUp(wa * k, 16) == wa * k && AlignUp(wa, 16) == wa
  {
    var q := wa / 16;
    assert wa * k == 16 * (q * k);
    MultipleOf(q * k, 16);
    AlignedStays(wa * k, 16);
    AlignedStays(wa, 16);
  }

  /** None of the four is there for uncompressed or padded buffers, nor a 10-bit one for a width
      that is not a multiple of 4. */
  lemma HelpersRefuseExactly(w: nat, h: nat, t: AllocType, extra: nat)
    ensures Yuv420(w, h, t, extra).None? <==> t.UNCOMPRESSED? || t.AFBC_PADDED?
    ensures Yuv422(w, h, t).None? <==> t.UNCOMPRESSED? || t.AFBC_PADDED?
    ensures Yuv420Ten(w, h, t, extra).None? <==> t.UNCOMPRESSED? || t.AFBC_PADDED? || w % 4 != 0
    ensures Yuv422Ten(w, h, t).None? <==> t.UNCOMPRESSED? || t.AFBC_PADDED? || w % 4 != 0
  {
  }

  // ------------------------------------------------------- room behind the headers

  /** n rows of `length` bytes, `stride` apart, lie behind the headers and inside the buffer. */
  predicate RowsBehindHeaders(n: nat, length: nat, stride: nat, header: nat, size: nat) {
    && length <= stride
    && forall y: nat :: y < n ==> header + Rows(y, stride) + length <= size
  }

  lemma RowsHaveRoom(n: nat, na: nat, length: nat, stride: nat, header: nat, size: nat)
    requires n <= na && length <= stride && header + Rows(na, stride) <= size
    ensures RowsBehindHeaders(n, length, stride, header, size)
  {
    forall y: nat | y < n ensures header + Rows(y, stride) + length <= size {
      RowsMono(y + 1, na, stride, stride);
    }
  }

  lemma WiderRow(w: nat, wa: nat, pixelSize: nat)
    requires w <= wa
    ensures w * pixelSize <= wa * pixelSize
  {
    RowsIsProduct(w, pixelSize);
    RowsIsProduct(wa, pixelSize);
    RowsMono(w, wa, pixelSize, pixelSize);
  }

  /** Behind the headers of an RGB buffer there is room for the picture, for every type. */
  lemma {:induction false} RgbPictureFits(w: nat, h: nat, pixelSize: nat, t: AllocType, r: Strides)
    requires pixelSize > 0 && r == Rgb(w, h, pixelSize, t)
    ensures RowsBehindHeaders(h, w * pixelSize, r.byteStride, r.header, r.size)
  {
    if t.UNCOMPRESSED? {
      RowsHaveRoom(h, h, w * pixelSize, r.byteStride, 0, r.size);
    } else {
      var wa, ha := Filled(w, h, t);
      WiderRow(w, wa, pixelSize);
      RowsHaveRoom(h, ha, w * pixelSize, r.byteStride, r.header, r.size);
    }
  }

  /** For 8-bit 4:2:0, luma and at half the width and height two planes of chroma. */
  lemma {:induction false} Yuv420PictureFits(w: nat, h: nat, t: AllocType, extra: nat, r: Strides)
    requires Yuv420(w, h, t, extra) == Some(r)
    ensures RowsBehindHeaders(h + extra, w, r.byteStride, r.header, r.size)
            && r.header + Rows(h + extra, w) + 2 * Rows((h + extra) / 2, (w + 1) / 2) <= r.size
  {
    var wa, ha := Filled(w, h + extra, t);
    PlanesFit(w, h + extra, wa, ha, AlignUp(wa / 2, 16), r.header);
  }

  lemma {:induction false} PlanesFit(w: nat, h: nat, wa: nat, ha: nat, c: nat, header: nat)
    requires w <= wa && wa % 16 == 0 && wa / 2 <= c && h <= ha
    ensures RowsBehindHeaders(h, w, wa, header, Rows(ha, wa + c) + header)
    ensures Rows(h, w) + 2 * Rows(h / 2, (w + 1) / 2) <= Rows(ha, wa + c)
  {
    RowsWiden(ha, wa, c);
    RowsHaveRoom(h, ha, w, wa, header, Rows(ha, wa + c) + header);
    AreaFits(w, h, (w + 1) / 2, h / 2, wa, ha, c);
  }

  lemma {:induction false} AreaFits(w: nat, h: nat, cw: nat, half: nat, wa: nat, ha: nat, c: nat)
    requires w <= wa && h <= ha && cw <= c && half + half <= ha
    ensures Rows(h, w) + 2 * Rows(half, cw) <= Rows(ha, wa) + Rows(ha, c)
  {
    RowsMono(h, ha, w, wa);
    RowsAdd(half, half, cw);
    RowsMono(half + half, ha, cw, c);
  }

  /** For 8-bit 4:2:2, luma and as much chroma. */
  lemma Yuv422PictureFits(w: nat, h: nat, t: AllocType, r: Strides)
    requires Yuv422(w, h, t) == Some(r)
    ensures RowsBehindHeaders(2 * h, w, r.byteStride, r.header, r.size)
  {
    var wa, ha := Filled(w, h, t);
    RowsAdd(ha, ha, wa);
    RowsHaveRoom(2 * h, ha + ha, w, wa, r.header, r.size);
  }

  /** For 10-bit 4:2:2, 4 bytes of every pixel in two halves. */
  lemma Yuv422TenPictureFits(w: nat, h: nat, t: AllocType, r: Strides)
    requires Yuv422Ten(w, h, t) == Some(r)
    ensures RowsBehindHeaders(2 * h, 2 * w, r.byteStride, r.header, r.size)
  {
    var wa, ha := Filled(w, h, t);
    RowsAdd(ha, ha, r.byteStride);
    RowsHaveRoom(2 * h, ha + ha, 2 * w, r.byteStride, r.header, r.size);
  }

  /** For 10-bit 4:2:0, the pairs of rows have room that are whole; the last row of an odd height
      has room exactly when half the height, cut down, is not a whole number of blocks. */
  lemma Yuv420TenPictureFitsExactly(w: nat, h: nat, t: AllocType, extra: nat, r: Strides)
    requires Yuv420Ten(w, h, t, extra) == Some(r) && w > 0
    ensures var rows := h + extra;
            && RowsBehindHeaders(rows / 2, 4 * w, 4 * r.byteStride, r.header, r.size)
            && (RowsBehindHeaders((rows + 1) / 2, 4 * w, 4 * r.byteStride, r.header, r.size)
                <==> rows % 2 == 0 || rows / 2 % ShapeOf(t).height != 0)
  {
    var half := (h + extra) / 2;
    var wa, ha := Filled(w, half, t);
    WholeStays(wa, 1);
    WholeStays(wa, 4);
    RowsHaveRoom(half, ha, 4 * w, 4 * wa, r.header, r.size);
    if (h + extra) % 2 == 1 {
      if half % ShapeOf(t).height == 0 {
        AlignedStays(half, HeightAlign(t));
        assert r.header + Rows(half, 4 * wa) + 4 * w > r.size;
      } else {
        RowsHaveRoom(half + 1, ha, 4 * w, 4 * wa, r.header, r.size);
      }
    }
  }

  // ------------------------------------------------------------ writing headers

  datatype BaseFormat = RGBA_8888 | RGBX_8888 | RGB_888 | RGB_565 | BGRA_8888 | YV12 | NV12 | NV21 | OtherFormat

  /** One header; tiled headers of layout 0 are zero. */
  function HeaderImage(layoutOne: bool, tiled: bool, bodyOffset: nat): (s: seq<byte>)
    ensures |s| == HEADER_BYTES
  {
    if layoutOne then
      LE((bodyOffset + 0x1000_0000) % 0x1_0000_0000, 4) + LE(0x8020_0040, 4) + LE(0x100_4000, 4) + LE(0x2_0080, 4)
    else if tiled then LE(0, 4) + LE(0, 4) + LE(0, 4) + LE(0, 4)
    else LE(bodyOffset % 0x1_0000_0000, 4) + LE(1, 4) + LE(0x1_0000, 4) + LE(0, 4)
  }

  function Copies(header: seq<byte>, n: nat): (s: seq<byte>)
    requires |header| == HEADER_BYTES
    ensures |s| == HEADER_BYTES * n
  {
    if n == 0 then [] else Copies(header, n - 1) + header
  }

  lemma {:induction false} CopyAt(header: seq<byte>, n: nat, i: nat)
    requires |header| == HEADER_BYTES && i < n
    ensures Copies(header, n)[HEADER_BYTES * i..HEADER_BYTES * i + HEADER_BYTES] == header
    decreases n
  {
    if i == n - 1 {
    } else {
      CopyAt(header, n - 1, i);
      var front, at := Copies(header, n - 1), HEADER_BYTES * i;
      assert (front + header)[at..at + HEADER_BYTES] == front[at..at + HEADER_BYTES];
    }
  }

  /** A header, byte by byte: behind the offset of the body come constants, ... */
  lemma HeaderOfLayoutOne(tiled: bool, bodyOffset: nat)
    ensures var s := HeaderImage(true, tiled, bodyOffset);
            && FromLE(s[..4]) == (bodyOffset + 0x1000_0000) % 0x1_0000_0000
            && s[4..] == [0x40, 0x00, 0x20, 0x80] + [0x00, 0x40, 0x00, 0x01] + [0x80, 0x00, 0x02, 0x00]
  {
    FirstWord(bodyOffset + 0x1000_0000);
    WordsOfLayoutOne();
    FourWords(LE((bodyOffset + 0x1000_0000) % 0x1_0000_0000, 4), LE(0x8020_0040, 4), LE(0x100_4000, 4),
              LE(0x2_0080, 4));
  }

  /** ... other ones in layout 0, ... */
  lemma HeaderOfLayoutZero(bodyOffset: nat)
    ensures var s := HeaderImage(false, false, bodyOffset);
            && FromLE(s[..4]) == bodyOffset % 0x1_0000_0000
            && s[4..] == [1, 0, 0, 0] + [0, 0, 1, 0] + [0, 0, 0, 0]
  {
    FirstWord(bodyOffset);
    WordsOfLayoutZero();
    WordZero();
    FourWords(LE(bodyOffset % 0x1_0000_0000, 4), LE(1, 4), LE(0x1_0000, 4), LE(0, 4));
  }

  /** ... and nothing but zeros if that is tiled. */
  lemma TiledHeaderOfLayoutZero(bodyOffset: nat)
    ensures HeaderImage(false, true, bodyOffset) == [0, 0, 0, 0] + [0, 0, 0, 0] + [0, 0, 0, 0] + [0, 0, 0, 0]
  {
    WordZero();
  }

  lemma FourWords(a: seq<byte>, b: seq<byte>, c: seq<byte>, d: seq<byte>)
    requires |a| == |b| == |c| == |d| == 4
    ensures (a + b + c + d)[..4] == a && (a + b + c + d)[4..] == b + c + d
  {
  }

  lemma FirstWord(v: nat)
    ensures FromLE(LE(v % 0x1_0000_0000, 4)) == v % 0x1_0000_0000
  {
    FourBytes();
    FromLEofLE(v % 0x1_0000_0000, 4);
  }

  lemma WordsOfLayoutOne()
    ensures LE(0x8020_0040, 4) == [0x40, 0x00, 0x20, 0x80] && LE(0x100_4000, 4) == [0x00, 0x40, 0x00, 0x01]
    ensures LE(0x2_0080, 4) == [0x80, 0x00, 0x02, 0x00]
  {
    Word(0x8020_0040);
    Word(0x100_4000);
    Word(0x2_0080);
  }

  lemma WordsOfLayoutZero()
    ensures LE(1, 4) == [1, 0, 0, 0] && LE(0x1_0000, 4) == [0, 0, 1, 0]
  {
    Word(1);
    Word(0x1_0000);
  }

  lemma WordZero()
    ensures LE(0, 4) == [0, 0, 0, 0]
  {
    Word(0);
  }

  lemma FourBytes()
    ensures Pow256(4) == 0x1_0000_0000
  {
    assert Pow256(1) == 256 * Pow256(0);
    assert Pow256(2) == 256 * Pow256(1);
    assert Pow256(3) == 256 * Pow256(2);
  }

  lemma Word(v: nat)
    ensures LE(v, 4) == [v % 256, v / 256 % 256, v / 256 / 256 % 256, v / 256 / 256 / 256 % 256]
  {
    assert LE(v, 4) == [v % 256] + LE(v / 256, 3);
    assert LE(v / 256, 3) == [v / 256 % 256] + LE(v / 256 / 256, 2);
    assert LE(v / 256 / 256, 2) == [v / 256 / 256 % 256] + LE(v / 256 / 256 / 256, 1);
    assert LE(v / 256 / 256 / 256, 1) == [v / 256 / 256 / 256 % 256] + LE(v / 256 / 256 / 256 / 256, 0);
  }

  /** memcpy of one header at the moving pointer. */
  method PutHeader(buf: array<byte>, at: nat, header: seq<byte>)
    requires |header| == HEADER_BYTES && at + HEADER_BYTES <= buf.Length
    modifies buf
    ensures buf[..at + HEADER_BYTES] == old(buf[..at]) + header
    ensures buf[at + HEADER_BYTES..] == old(buf[at + HEADER_BYTES..])
  {
    forall j | 0 <= j < HEADER_BYTES {
      buf[at + j] := header[j];
    }
  }

  method PutHeaders(buf: array<byte>, header: seq<byte>, nHeaders: nat)
    requires |header| == HEADER_BYTES && HEADER_BYTES * nHeaders <= buf.Length
    modifies buf
    ensures buf[..] == Copies(header, nHeaders) + old(buf[HEADER_BYTES * nHeaders..])
  {
    var at := 0;
    for i := 0 to nHeaders
      invariant at == HEADER_BYTES * i
      invariant buf[..at] == Copies(header, i)
      invariant buf[at..] == old(buf[at..])
    {
      PutHeader(buf, at, header);
      at := at + HEADER_BYTES;
    }
    assert buf[..] == buf[..at] + buf[at..];
  }

  /** init_afbc: headers one behind the other, of layout 1 for the 8-bit 4:2:0 formats, and not a
      byte behind the last. */
  method InitAfbc(buf: array<byte>, format: BaseFormat, tiled: bool, w: nat, h: nat)
    requires HEADER_BYTES * HeaderCount(w, h) <= buf.Length
    modifies buf
    ensures var need := HEADER_BYTES * HeaderCount(w, h);
            buf[..] == Copies(HeaderImage(format in {YV12, NV12, NV21}, tiled, need), HeaderCount(w, h))
                       + old(buf[need..])
  {
    var nHeaders := HeaderCount(w, h);
    var layoutOne := false;
    match format {
      case YV12 => layoutOne := true;
      case NV12 => layoutOne := true;
      case NV21 => layoutOne := true;
      case _ =>
    }
    PutHeaders(buf, HeaderImage(layoutOne, tiled, HEADER_BYTES * nHeaders), nHeaders);
  }

  // --------------------------------------------------------- choosing the type

  /** The modifier bits of a descriptor's internal format, and the padding usage. */
  datatype Descriptor = Descriptor(basic: bool, splitblk: bool, wideblk: bool, tiled: bool, padding: bool) {
    predicate Compressed() {
      basic || splitblk || wideblk
    }
  }

  /** The type one pass of the loop leaves in alloc_type; None makes the allocation fail. */
  function TypeStep(current: AllocType, d: Descriptor): Option<AllocType> {
    if !d.Compressed() then Some(current)
    else if d.tiled then
      if d.wideblk then Some(AFBC_TILED_HEADERS_WIDEBLK)
      else if d.basic then Some(AFBC_TILED_HEADERS_BASIC)
      else None
    else if d.padding then Some(AFBC_PADDED)
    else if d.wideblk then Some(AFBC_WIDEBLK)
    else Some(AFBC)
  }

  predicate Refused(d: Descriptor) {
    d.Compressed() && d.tiled && !d.wideblk && !d.basic
  }

  /** The type a descriptor gets when it is allocated alone. */
  function OwnType(d: Descriptor): Option<AllocType> {
    TypeStep(UNCOMPRESSED, d)
  }

  /** The buffer of a compressed descriptor has the shape that its modifiers ask for. */
  lemma ShapeForDescriptor(d: Descriptor)
    requires d.Compressed()
    ensures OwnType(d).None? <==> d.tiled && d.splitblk && !d.wideblk && !d.basic
    ensures OwnType(d).Some? ==>
              ShapeOf(OwnType(d).value) ==
              if d.tiled then Shape(if d.wideblk then 256 else 128, if d.wideblk then 64 else 128, 4096)
              else Shape(if d.padding then 64 else if d.wideblk then 32 else 16, 16, 1024)
    ensures OwnType(d).Some? ==> (d.padding && !d.tiled <==> OwnType(d).value.AFBC_PADDED?)
  {
  }

  /** The latest compressed descriptor up to and including i, or -1. */
  function Latest(ds: seq<Descriptor>, i: int): (k: int)
    requires -1 <= i < |ds|
    ensures -1 <= k <= i && (k >= 0 ==> ds[k].Compressed())
    ensures forall j :: k < j <= i ==> !ds[j].Compressed()
  {
    if i == -1 then -1 else if ds[i].Compressed() then i else Latest(ds, i - 1)
  }

  /** The type descriptor i of a batch is allocated with. */
  function TypeIn(ds: seq<Descriptor>, i: int): Option<AllocType>
    requires -1 <= i < |ds|
  {
    var k := Latest(ds, i);
    if k == -1 then Some(UNCOMPRESSED) else OwnType(ds[k])
  }

  lemma TypeInNext(ds: seq<Descriptor>, i: nat)
    requires i < |ds|
    ensures TypeIn(ds, i) == if ds[i].Compressed() then OwnType(ds[i]) else TypeIn(ds, i - 1)
  {
  }

  /** The loop of mali_gralloc_buffer_allocate: alloc_type is set before the loop and only
      compressed descriptors assign it, so a descriptor is allocated with the type of the latest
      compressed one. */
  method SelectTypes(ds: seq<Descriptor>) returns (ok: bool, types: seq<AllocType>)
    ensures ok <==> forall i :: 0 <= i < |ds| ==> !Refused(ds[i])
    ensures ok ==> |types| == |ds| && forall i :: 0 <= i < |ds| ==> TypeIn(ds, i) == Some(types[i])
  {
    var allocType := UNCOMPRESSED;
    types := [];
    for i := 0 to |ds|
      invariant |types| == i
      invariant forall j :: 0 <= j < i ==> !Refused(ds[j])
      invariant TypeIn(ds, i - 1) == Some(allocType)
      invariant forall j :: 0 <= j < i ==> TypeIn(ds, j) == Some(types[j])
    {
      var d := ds[i];
      TypeInNext(ds, i);
      if d.Compressed() {
        if d.tiled {
          if d.wideblk {
            allocType := AFBC_TILED_HEADERS_WIDEBLK;
          } else if d.basic {
            allocType := AFBC_TILED_HEADERS_BASIC;
          } else {
            return false, [];
          }
        } else if d.padding {
          allocType := AFBC_PADDED;
        } else if d.wideblk {
          allocType := AFBC_WIDEBLK;
        } else {
          allocType := AFBC;
        }
      }
      types := types + [allocType];
    }
    ok := true;
  }

  /** init_afbc runs on the compressed descriptors of a batch only, and each of those was sized
      with a header region for its headers, whatever came before it. */
  lemma HeadersFitInBatch(ds: seq<Descriptor>, i: nat, w: nat, h: nat, pixelSize: nat, extra: nat)
    requires i < |ds| && ds[i].Compressed() && TypeIn(ds, i).Some? && pixelSize > 0
    ensures var t := TypeIn(ds, i).value;
            && !t.UNCOMPRESSED?
            && RoomForHeaders(w, h, Some(Rgb(w, h, pixelSize, t)))
            && RoomForHeaders(w, h, Yuv420(w, h, t, extra)) && RoomForHeaders(w, h, Yuv422(w, h, t))
            && RoomForHeaders(w, h, Yuv420Ten(w, h, t, extra)) && RoomForHeaders(w, h, Yuv422Ten(w, h, t))
  {
    TypeInNext(ds, i);
    HeadersFit(w, h, pixelSize, TypeIn(ds, i).value, extra);
  }

  /** Each descriptor of a batch gets the type it would get alone exactly when no uncompressed
      descriptor comes behind a compressed one. */
  lemma BatchMatchesAloneExactly(ds: seq<Descriptor>)
    requires forall i :: 0 <= i < |ds| ==> !Refused(ds[i])
    ensures (forall i :: 0 <= i < |ds| ==> TypeIn(ds, i) == OwnType(ds[i]))
            <==> (forall i, j :: 0 <= i < j < |ds| ==> ds[i].Compressed() ==> ds[j].Compressed())
  {
    if i, j :| 0 <= i < j < |ds| && ds[i].Compressed() && !ds[j].Compressed() {
      assert Latest(ds, j) >= i;
      assert TypeIn(ds, j) != OwnType(ds[j]);
    }
  }
}
