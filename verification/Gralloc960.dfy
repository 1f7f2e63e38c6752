/** The newer gralloc: uncompressed 4:2:0 buffers, their allocation size
    (gralloc960/mali_gralloc_bufferallocation.cpp) and the two descriptions of their planes that
    locking can return (gralloc960/mali_gralloc_bufferaccess.cpp). */
module Gralloc960 {
  import opened Align
  import Afbc
  import opened Geometry
  import opened Prelude

  datatype Format = NV12 | NV21 | YV12 | OtherFormat

  /** get_yv12_stride_and_size without compression, for either stride alignment. */
  function ByteStride(w: nat, align: nat): nat
    requires align > 0
  {
    AlignUp(w, align)
  }

  function AllocSize(w: nat, h: nat, align: nat): nat
    requires align > 0
  {
    var luma := AlignUp(w, align);
    Rows(AlignUp(h, 2), luma + AlignUp(luma / 2, align))
  }

  datatype Allocated = Allocated(byteStride: nat, size: nat)

  /** get_yv12_stride_and_size.  A type other than UNCOMPRESSED is either the descriptor's own or
      left by a compressed one before it in the same batch. */
  function Allocate(w: nat, h: nat, align: nat, t: Afbc.AllocType, extra: nat): Option<Allocated>
    requires align > 0
  {
    if t.UNCOMPRESSED? then Some(Allocated(ByteStride(w, align), AllocSize(w, h, align)))
    else match Afbc.Yuv420(w, h, t, extra)
         case None => None
         case Some(a) => Some(Allocated(a.byteStride, a.size))
  }

  /** The fields of the handle that locking reads; ext says that a compression modifier is set. */
  datatype Handle = Handle(format: Format, ext: bool, height: nat, byteStride: nat)

  datatype Planes = Planes(y: nat, cb: nat, cr: nat, ystride: nat, cstride: nat, chromaStep: nat)

  /** mali_gralloc_lock_ycbcr: fails without software usage, with a modifier, or for another
      format. */
  function LockYcbcr(hnd: Handle, swUsage: bool): Option<Planes> {
    if !swUsage || hnd.ext then None
    else
      var ys := hnd.byteStride;
      var rows := AlignUp(hnd.height, 2);
      var ySize := Rows(rows, ys);
      match hnd.format
      case NV12 => Some(Planes(0, ySize, ySize + 1, ys, ys, 2))
      case NV21 => Some(Planes(0, ySize + 1, ySize, ys, ys, 2))
      case YV12 =>
        var c := AlignUp(ys / 2, 16);
        Some(Planes(0, ySize + Rows(rows / 2, c), ySize, ys, c, 1))
      case OtherFormat => None
  }

  // -------------------------------------------------------------------- samples

  datatype Sample =
    | Y(col: nat, row: nat)
    | Cb(col: nat, row: nat)
    | Cr(col: nat, row: nat)
  {
    predicate In(w: nat, h: nat) {
      if Y? then col < w && row < h else col < Half(w) && row < Half(h)
    }
  }

  function Addr(p: Planes, s: Sample): nat {
    match s
    case Y(col, row) => p.y + Rows(row, p.ystride) + col
    case Cb(col, row) => p.cb + Rows(row, p.cstride) + p.chromaStep * col
    case Cr(col, row) => p.cr + Rows(row, p.cstride) + p.chromaStep * col
  }

  /** Cells of a plane of rows: distinct cells, distinct bytes, all inside the rows. */
  lemma CellsApart(stride: nat, row: nat, col: nat, row2: nat, col2: nat)
    requires col < stride && col2 < stride
    ensures Rows(row, stride) + col == Rows(row2, stride) + col2 ==> row == row2 && col == col2
  {
    if row < row2 {
      CellInside(stride, row, col, row2);
    } else if row2 < row {
      CellInside(stride, row2, col2, row);
    }
  }

  lemma CellInside(stride: nat, row: nat, col: nat, rows: nat)
    requires col < stride && row < rows
    ensures Rows(row, stride) + col < Rows(rows, stride)
  {
    RowsMono(row + 1, rows, stride, stride);
  }

  predicate AlignOk(align: nat) {
    align == 16 || align == 128
  }

  lemma StrideFacts(w: nat, align: nat)
    requires AlignOk(align)
    ensures var s := ByteStride(w, align);
            && w <= s && s == 2 * (s / 2) && 2 * Half(w) <= s
            && s / 2 <= AlignUp(s / 2, 16) <= AlignUp(s / 2, align)
  {
    if align == 16 {
      NarrowStride(w, ByteStride(w, 16));
    } else {
      WideStride(w, ByteStride(w, 128));
    }
  }

  lemma WideStride(w: nat, s: nat)
    requires s == AlignUp(w, 128)
    ensures s % 128 == 0 && s == 2 * (s / 2) && 2 * Half(w) <= s && AlignUp(s / 2, 16) == s / 2
  {
    var q := AlignUpQuotient(w, 128);
    HalfFits(w, 64 * q);
    MultipleOf(q, 128);
    MultipleOf(4 * q, 16);
    assert s / 2 == 16 * (4 * q);
    AlignedStays(s / 2, 16);
  }

  /** The stride holds a row, and the size holds the luma rows and chroma in both layouts. */
  predicate Room(w: nat, h: nat, a: Allocated) {
    var s, rows := a.byteStride, AlignUp(h, 2);
    && w <= s && 2 * Half(w) <= s && Half(w) <= AlignUp(s / 2, 16)
    && rows == 2 * Half(h) && h <= rows
    && Rows(rows, s) + Rows(Half(h), s) <= a.size
    && Rows(rows, s) + 2 * Rows(Half(h), AlignUp(s / 2, 16)) <= a.size
  }

  /** Some rows of a stride and of an aligned half of it are room enough. */
  lemma RowsMakeRoom(w: nat, h: nat, s: nat, n: nat, c: nat, size: nat)
    requires w <= s && s == 2 * (s / 2) && 2 * Half(w) <= s && AlignUp(s / 2, 16) <= c
    requires AlignUp(h, 2) <= n && Rows(n, s + c) <= size
    ensures Room(w, h, Allocated(s, size))
  {
    var rows := AlignUp(h, 2);
    EvenRows(h);
    RowsMono(rows, n, s + c, s + c);
    RowsWiden(rows, s, c);
    ChromaFits(Half(h), s / 2, AlignUp(s / 2, 16), c);
  }

  lemma AllocHolds(w: nat, h: nat, align: nat)
    requires AlignOk(align)
    ensures Room(w, h, Allocated(ByteStride(w, align), AllocSize(w, h, align)))
  {
    var s := ByteStride(w, align);
    StrideFacts(w, align);
    RowsMakeRoom(w, h, s, AlignUp(h, 2), AlignUp(s / 2, align), AllocSize(w, h, align));
  }

  lemma EvenFits(h: nat, half: nat)
    requires h <= 2 * half
    ensures AlignUp(h, 2) <= 2 * half
  {
    EvenRows(h);
    HalfFits(h, half);
  }

  /** A stride that consists of whole blocks. */
  lemma BlockStride(w: nat, s: nat, q: nat)
    requires w <= s == 16 * q
    ensures s == 2 * (s / 2) && 2 * Half(w) <= s
  {
    HalfFits(w, 8 * q);
  }

  lemma BlocksMakeRoom(w: nat, h: nat, s: nat, ha: nat, q: nat, n: nat, header: nat)
    requires w <= s == 16 * q && h <= ha == 16 * n
    ensures Room(w, h, Allocated(s, Rows(ha, s + AlignUp(s / 2, 16)) + header))
  {
    var c := AlignUp(s / 2, 16);
    BlockStride(w, s, q);
    EvenFits(h, 8 * n);
    RowsMakeRoom(w, h, s, ha, c, Rows(ha, s + c) + header);
  }

  /** The compressed size is room enough, too, with or without an extra row of blocks. */
  lemma InheritedHolds(w: nat, h: nat, t: Afbc.AllocType, extra: nat)
    requires Afbc.YuvType(t)
    ensures var a := Afbc.Yuv420(w, h, t, extra).value; Room(w, h, Allocated(a.byteStride, a.size))
  {
    var s, ha := AlignUp(w, Afbc.WidthAlign(t)), AlignUp(h + extra, Afbc.HeightAlign(t));
    var q := Afbc.WholeBlocks(w, Afbc.WidthAlign(t));
    var n := Afbc.WholeBlocks(h + extra, Afbc.HeightAlign(t));
    BlocksMakeRoom(w, h, s, ha, q, n, Afbc.Yuv420(w, h, t, extra).value.header);
  }

  /** Every allocation of 4:2:0 that succeeds has the room, whatever its type. */
  lemma AllocationHasRoom(w: nat, h: nat, align: nat, t: Afbc.AllocType, extra: nat)
    requires AlignOk(align) && Allocate(w, h, align, t, extra).Some?
    ensures Room(w, h, Allocate(w, h, align, t, extra).value)
  {
    if t.UNCOMPRESSED? {
      AllocHolds(w, h, align);
    } else {
      InheritedHolds(w, h, t, extra);
    }
  }

  lemma ChromaFits(n: nat, half: nat, c: nat, a: nat)
    requires half <= c <= a
    ensures Rows(n, 2 * half) <= Rows(2 * n, a) && 2 * Rows(n, c) <= Rows(2 * n, a)
  {
    RowsDouble(n, half);
    RowsMono(2 * n, 2 * n, half, a);
    RowsAdd(n, n, c);
    RowsMono(2 * n, 2 * n, c, a);
  }

  /** Stride and size of an uncompressed allocation. */
  lemma AllocatedExactly(w: nat, h: nat, align: nat, extra: nat) returns (rows: nat, c: nat)
    requires align > 0
    ensures var a := Allocate(w, h, align, Afbc.UNCOMPRESSED, extra);
            && a.Some? && LeastMultipleOf(a.value.byteStride, align, w)
            && LeastMultipleOf(rows, 2, h) && LeastMultipleOf(c, align, a.value.byteStride / 2)
            && a.value.size == rows * (a.value.byteStride + c)
  {
    var s := ByteStride(w, align);
    rows, c := AlignUp(h, 2), AlignUp(s / 2, align);
    AlignUpIsLeast(w, align);
    AlignUpIsLeast(h, 2);
    AlignUpIsLeast(s / 2, align);
    RowsIsProduct(rows, s + c);
  }

  /** Where each format has its chroma: semi-planar with one or the other component first, or in two
      planes with Cr first.  Locking fails without software usage, with a modifier, and for any
      other format. */
  lemma PlanesByFormat(hnd: Handle, swUsage: bool) returns (rows: nat, c: nat)
    ensures LockYcbcr(hnd, swUsage).None? <==> !swUsage || hnd.ext || hnd.format == OtherFormat
    ensures LeastMultipleOf(rows, 2, hnd.height) && LeastMultipleOf(c, 16, hnd.byteStride / 2)
    ensures LockYcbcr(hnd, swUsage).Some? ==>
              var p, s := LockYcbcr(hnd, swUsage).value, hnd.byteStride;
              && p.y == 0 && p.ystride == s
              && (hnd.format == NV12 ==> p.cb == rows * s && p.cr == p.cb + 1 && p.cstride == s && p.chromaStep == 2)
              && (hnd.format == NV21 ==> p.cr == rows * s && p.cb == p.cr + 1 && p.cstride == s && p.chromaStep == 2)
              && (hnd.format == YV12 ==>
                    p.cr == rows * s && p.cb == p.cr + rows / 2 * c && p.cstride == c && p.chromaStep == 1)
  {
    rows, c := AlignUp(hnd.height, 2), AlignUp(hnd.byteStride / 2, 16);
    AlignUpIsLeast(hnd.height, 2);
    AlignUpIsLeast(hnd.byteStride / 2, 16);
    RowsIsProduct(rows, hnd.byteStride);
    RowsIsProduct(rows / 2, c);
  }

  /** The handle of an uncompressed format over an allocation. */
  function HandleFor(format: Format, h: nat, a: Allocated): Handle {
    Handle(format, false, h, a.byteStride)
  }

  /** The byte of a sample: the start of its plane, a row and a column below the stride.  The
      semi-planar formats keep both chroma components in one plane, in even and odd columns. */
  datatype Cell = Cell(start: nat, rows: nat, stride: nat, row: nat, col: nat)

  function CellOf(hnd: Handle, s: Sample): Cell
    requires hnd.format != OtherFormat
  {
    var ys := hnd.byteStride;
    var rows := AlignUp(hnd.height, 2);
    var ySize := Rows(rows, ys);
    if s.Y? then Cell(0, rows, ys, s.row, s.col)
    else if hnd.format == YV12 then
      var c := AlignUp(ys / 2, 16);
      Cell(if s.Cr? then ySize else ySize + Rows(rows / 2, c), rows / 2, c, s.row, s.col)
    else Cell(ySize, rows / 2, ys, s.row, 2 * s.col + if s.Cb? == (hnd.format == NV12) then 0 else 1)
  }

  lemma CellIsAddr(hnd: Handle, s: Sample)
    requires LockYcbcr(hnd, true).Some?
    ensures var c := CellOf(hnd, s);
            Addr(LockYcbcr(hnd, true).value, s) == c.start + Rows(c.row, c.stride) + c.col
  {
  }

  lemma {:induction false} CellBelowEnds(format: Format, w: nat, h: nat, a: Allocated, s: Sample)
    requires Room(w, h, a) && format != OtherFormat && s.In(w, h)
    ensures var c := CellOf(HandleFor(format, h, a), s); c.row < c.rows && c.col < c.stride
  {
  }

  lemma {:induction false} PlaneInside(format: Format, w: nat, h: nat, a: Allocated, s: Sample)
    requires Room(w, h, a) && format != OtherFormat
    ensures var c := CellOf(HandleFor(format, h, a), s); c.start + Rows(c.rows, c.stride) <= a.size
  {
  }

  lemma {:induction false} CellInPlane(format: Format, w: nat, h: nat, a: Allocated, s: Sample)
    requires Room(w, h, a) && format != OtherFormat && s.In(w, h)
    ensures var c := CellOf(HandleFor(format, h, a), s);
            && c.row < c.rows && c.col < c.stride
            && c.start + Rows(c.rows, c.stride) <= a.size
            && Rows(c.row, c.stride) + c.col < Rows(c.rows, c.stride)
  {
    var c := CellOf(HandleFor(format, h, a), s);
    CellBelowEnds(format, w, h, a, s);
    PlaneInside(format, w, h, a, s);
    CellInside(c.stride, c.row, c.col, c.rows);
  }

  /** For every width and height, both alignments and all three formats, in a batch or alone: every
      sample lies inside the allocation. */
  lemma SamplesInBounds(format: Format, w: nat, h: nat, align: nat, t: Afbc.AllocType, extra: nat, s: Sample)
    requires AlignOk(align) && format != OtherFormat && s.In(w, h)
    requires Allocate(w, h, align, t, extra).Some?
    ensures var a := Allocate(w, h, align, t, extra).value;
            var planes := LockYcbcr(HandleFor(format, h, a), true);
            planes.Some? && Addr(planes.value, s) < a.size
  {
    var a := Allocate(w, h, align, t, extra).value;
    AllocationHasRoom(w, h, align, t, extra);
    CellInPlane(format, w, h, a, s);
    CellIsAddr(HandleFor(format, h, a), s);
  }

  /** And no two samples share a byte. */
  lemma SamplesApart(format: Format, w: nat, h: nat, align: nat, t: Afbc.AllocType, extra: nat, s: Sample, r: Sample)
    requires AlignOk(align) && format != OtherFormat
    requires Allocate(w, h, align, t, extra).Some?
    requires s.In(w, h) && r.In(w, h) && s != r
    ensures var planes := LockYcbcr(HandleFor(format, h, Allocate(w, h, align, t, extra).value), true);
            planes.Some? && Addr(planes.value, s) != Addr(planes.value, r)
  {
    AllocationHasRoom(w, h, align, t, extra);
    SamplesApartIn(format, w, h, Allocate(w, h, align, t, extra).value, s, r);
  }

  lemma SamplesApartIn(format: Format, w: nat, h: nat, a: Allocated, s: Sample, t: Sample)
    requires Room(w, h, a) && format != OtherFormat
    requires s.In(w, h) && t.In(w, h) && s != t
    ensures var planes := LockYcbcr(HandleFor(format, h, a), true);
            planes.Some? && Addr(planes.value, s) != Addr(planes.value, t)
  {
    var hnd := HandleFor(format, h, a);
    var c, d := CellOf(hnd, s), CellOf(hnd, t);
    CellInPlane(format, w, h, a, s);
    CellInPlane(format, w, h, a, t);
    CellIsAddr(hnd, s);
    CellIsAddr(hnd, t);
    PlanesApart(hnd, s, t);
    SameCellSameSample(hnd, s, t);
    if c.start == d.start && c.stride == d.stride {
      CellsApart(c.stride, c.row, c.col, d.row, d.col);
    }
  }

  lemma SameCellSameSample(hnd: Handle, s: Sample, t: Sample)
    requires hnd.format != OtherFormat
    ensures var c, d := CellOf(hnd, s), CellOf(hnd, t);
            c == d ==> s == t || Rows(c.rows, c.stride) == 0
  {
  }

  /** Cells of different planes: one plane ends before the other starts. */
  lemma PlanesApart(hnd: Handle, s: Sample, t: Sample)
    requires hnd.format != OtherFormat
    ensures var c, d := CellOf(hnd, s), CellOf(hnd, t);
            || (c.start == d.start && c.stride == d.stride && c.rows == d.rows)
            || c.start + Rows(c.rows, c.stride) <= d.start
            || d.start + Rows(d.rows, d.stride) <= c.start
  {
  }

  // ------------------------------------------------------------- the flexible layout

  datatype FlexComponent = FlexY | FlexCb | FlexCr

  datatype FlexPlane = FlexPlane(
    component: FlexComponent, topLeft: nat, hIncrement: nat, vIncrement: nat, hSubsampling: nat, vSubsampling: nat)

  /** mali_gralloc_lock_flex_async: planes in memory order. */
  function LockFlex(hnd: Handle, swUsage: bool): Option<seq<FlexPlane>> {
    if !swUsage || hnd.ext then None
    else
      var ys := hnd.byteStride;
      var rows := AlignUp(hnd.height, 2);
      var ySize := Rows(rows, ys);
      var luma := FlexPlane(FlexY, 0, 1, ys, 1, 1);
      match hnd.format
      case NV12 => Some([luma, FlexPlane(FlexCb, ySize, 2, ys, 2, 2), FlexPlane(FlexCr, ySize + 1, 2, ys, 2, 2)])
      case NV21 => Some([luma, FlexPlane(FlexCr, ySize, 2, ys, 2, 2), FlexPlane(FlexCb, ySize + 1, 2, ys, 2, 2)])
      case YV12 =>
        var c := AlignUp(ys / 2, 16);
        Some([luma, FlexPlane(FlexCr, ySize, 1, c, 2, 2), FlexPlane(FlexCb, ySize + Rows(rows / 2, c), 1, c, 2, 2)])
      case OtherFormat => None
  }

  function ComponentOf(s: Sample): FlexComponent {
    match s
    case Y(_, _) => FlexY
    case Cb(_, _) => FlexCb
    case Cr(_, _) => FlexCr
  }

  function FlexAddr(p: FlexPlane, s: Sample): nat {
    p.topLeft + Rows(s.row, p.vIncrement) + p.hIncrement * s.col
  }

  /** Both ways of locking succeed for the same handles, and a client of either finds every
      sample at the same address; each component has exactly one plane. */
  lemma FlexAgrees(hnd: Handle, swUsage: bool, s: Sample)
    ensures LockFlex(hnd, swUsage).Some? == LockYcbcr(hnd, swUsage).Some?
    ensures LockFlex(hnd, swUsage).Some? ==>
              var flex := LockFlex(hnd, swUsage).value;
              && |flex| == 3
              && (exists k :: 0 <= k < 3 && flex[k].component == ComponentOf(s))
              && forall k :: 0 <= k < 3 && flex[k].component == ComponentOf(s) ==>
                   FlexAddr(flex[k], s) == Addr(LockYcbcr(hnd, swUsage).value, s)
  {
    if LockFlex(hnd, swUsage).Some? {
      var flex := LockFlex(hnd, swUsage).value;
      assert flex[0].component == FlexY;
      assert flex[1].component == ComponentOf(s) || flex[2].component == ComponentOf(s) || s.Y?;
    }
  }

  /** The flexible planes are in the order of memory, luma first, with every other row and column of
      chroma. */
  lemma FlexPlanesInOrder(hnd: Handle)
    requires LockFlex(hnd, true).Some?
    ensures var flex := LockFlex(hnd, true).value;
            && |flex| == 3 && flex[0].component == FlexY
            && flex[0].topLeft <= flex[1].topLeft <= flex[2].topLeft
            && flex[0].hSubsampling == flex[0].vSubsampling == 1
            && flex[1].hSubsampling == flex[1].vSubsampling == 2
            && flex[2].hSubsampling == flex[2].vSubsampling == 2
  {
  }

  /** An odd multiple of 64 moves when aligned to 128, an even one stays. */
  lemma SixtyFours(q: nat)
    ensures AlignUp(64 * q, 128) == 64 * q <==> q % 2 == 0
  {
    if q % 2 == 0 {
      MultipleOf(q / 2, 128);
      assert 128 * (q / 2) == 64 * q;
      AlignedStays(64 * q, 128);
    } else {
      var r := AlignUpQuotient(64 * q, 128);
      assert 128 * r != 64 * q;
    }
  }

  lemma HalfOfWide(s: nat, q: nat)
    requires s == 128 * q
    ensures s / 2 == 64 * q && (s % 256 == 0 <==> q % 2 == 0)
  {
    var p, r := q / 2, q % 2;
    assert s == 256 * p + 128 * r;
    DivMul(p, 256, 128 * r);
  }

  /** Locking assumes a chroma stride aligned to 16.  That is the stride the allocation was
      computed with exactly when it, too, was aligned to 16, or when the luma stride is a multiple
      of 256. */
  lemma ChromaStrideAgreesExactly(w: nat, align: nat)
    requires AlignOk(align)
    ensures var s := ByteStride(w, align);
            AlignUp(s / 2, 16) == AlignUp(s / 2, align) <==> align == 16 || s % 256 == 0
  {
    var s := ByteStride(w, align);
    if align == 128 {
      WideStride(w, s);
      var q := AlignUpQuotient(w, 128);
      HalfOfWide(s, q);
      SixtyFours(q);
    }
  }
}
