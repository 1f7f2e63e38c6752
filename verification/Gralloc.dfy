/** The older gralloc: allocation sizes of YUV buffers (gralloc/alloc_device.cpp) against the plane
    addresses that locking reports (gralloc/gralloc_module.cpp). */
module Gralloc {
  import opened Align
  import opened Geometry

  /** Plane offsets from the buffer's base, strides, and the distance of chroma samples. */
  datatype Planes = Planes(y: nat, cb: nat, cr: nat, ystride: nat, cstride: nat, chromaStep: nat)

  /** YV12 widths are aligned by the height's class, so that the chroma planes start aligned. */
  function Yv12Stride(w: nat, h: nat): nat {
    if h % 8 == 0 then AlignUp(w, 16) else if h % 4 == 0 then AlignUp(w, 64) else AlignUp(w, 128)
  }

  /** alloc_device_alloc, HAL_PIXEL_FORMAT_YV12. */
  function Yv12Size(w: nat, h: nat): nat {
    var stride := Yv12Stride(w, h);
    Rows(AlignUp(h, 2), stride + AlignUp(stride / 2, 16))
  }

  /** Cr behind `rows` rows of luma, Cb behind half of h rows of chroma. */
  function Planar(h: nat, rows: nat, ystride: nat, cstride: nat): Planes {
    var cr := Rows(rows, ystride);
    Planes(0, cr + Rows(h, cstride) / 2, cr, ystride, cstride, 1)
  }

  /** gralloc_lock_ycbcr, HAL_PIXEL_FORMAT_YV12. */
  function LockYv12(w: nat, h: nat): Planes {
    var ystride := Yv12Stride(w, h);
    Planar(h, AlignUp(h, 2), ystride, AlignUp(ystride / 2, 16))
  }

  /** alloc_device_alloc, HAL_PIXEL_FORMAT_YCrCb_420_SP. */
  function Nv21Size(w: nat, h: nat): nat {
    var stride := AlignUp(w, 16);
    Rows(AlignUp(h, 16), stride + AlignUp(stride / 2, 16))
  }

  /** gralloc_lock_ycbcr, HAL_PIXEL_FORMAT_YCrCb_420_SP. */
  function LockNv21(w: nat, h: nat): Planes {
    var ystride := AlignUp(w, 16);
    Planes(0, Rows(h, ystride) + 1, Rows(h, ystride), ystride, ystride, 2)
  }

  // --------------------------------------------------------------------- YV12

  /** The planes lie one behind the other, none is cut short, and together they are the buffer. */
  predicate Tiles(p: Planes, w: nat, h: nat, size: nat) {
    && p.y == 0
    && w <= p.ystride && Half(w) <= p.cstride
    && p.cr == Rows(h, p.ystride)
    && p.cb == p.cr + Rows(Half(h), p.cstride)
    && size == p.cb + Rows(Half(h), p.cstride)
  }

  /** Luma and chroma stride for each of the three bases; above 16 the half stride needs no
      further alignment. */
  lemma Strides16(w: nat, s: nat, c: nat)
    requires s == AlignUp(w, 16) && c == AlignUp(s / 2, 16)
    ensures s % 16 == 0 && c % 16 == 0 && w <= s && Half(w) <= c
  {
    AlignUpIsMultiple(w, 16);
    AlignUpIsMultiple(s / 2, 16);
  }

  lemma Strides64(w: nat, s: nat, c: nat)
    requires s == AlignUp(w, 64) && c == AlignUp(s / 2, 16)
    ensures s % 64 == 0 && c == s / 2 && c % 32 == 0 && w <= s && Half(w) <= c
  {
    var q := AlignUpQuotient(w, 64);
    assert s / 2 == 32 * q && 32 * q == 16 * (2 * q);
    MultipleOf(q, 64);
    MultipleOf(q, 32);
    MultipleOf(2 * q, 16);
    AlignedStays(s / 2, 16);
    HalfFits(w, 32 * q);
  }

  lemma Strides128(w: nat, s: nat, c: nat)
    requires s == AlignUp(w, 128) && c == AlignUp(s / 2, 16)
    ensures s % 128 == 0 && c == s / 2 && c % 64 == 0 && w <= s && Half(w) <= c
  {
    var q := AlignUpQuotient(w, 128);
    assert s / 2 == 64 * q && 64 * q == 16 * (4 * q);
    MultipleOf(q, 128);
    MultipleOf(q, 64);
    MultipleOf(4 * q, 16);
    AlignedStays(s / 2, 16);
    HalfFits(w, 64 * q);
  }

  /** Strides and size of a YV12 allocation, by the class of the height. */
  lemma Yv12Sized(w: nat, h: nat) returns (rows: nat, s: nat, c: nat)
    ensures LeastMultipleOf(rows, 2, h) && LeastMultipleOf(c, 16, s / 2)
    ensures h % 8 == 0 ==> LeastMultipleOf(s, 16, w)
    ensures h % 8 == 4 ==> LeastMultipleOf(s, 64, w)
    ensures h % 4 != 0 ==> LeastMultipleOf(s, 128, w)
    ensures Yv12Size(w, h) == rows * (s + c)
    ensures var p := LockYv12(w, h);
            && p.y == 0 && p.cr == rows * s && p.cb == p.cr + h * c / 2
            && p.ystride == s && p.cstride == c && p.chromaStep == 1
  {
    rows, s := AlignUp(h, 2), Yv12Stride(w, h);
    c := AlignUp(s / 2, 16);
    AlignUpIsLeast(h, 2);
    AlignUpIsLeast(s / 2, 16);
    StrideByHeight(w, h);
    RowsIsProduct(rows, s + c);
    RowsIsProduct(rows, s);
    RowsIsProduct(h, c);
  }

  lemma StrideByHeight(w: nat, h: nat)
    ensures h % 8 == 0 ==> LeastMultipleOf(Yv12Stride(w, h), 16, w)
    ensures h % 8 == 4 ==> LeastMultipleOf(Yv12Stride(w, h), 64, w)
    ensures h % 4 != 0 ==> LeastMultipleOf(Yv12Stride(w, h), 128, w)
  {
    AlignUpIsLeast(w, 16);
    AlignUpIsLeast(w, 64);
    AlignUpIsLeast(w, 128);
  }

  /** The same for the interleaved format. */
  lemma Nv21Sized(w: nat, h: nat) returns (rows: nat, s: nat, c: nat)
    ensures LeastMultipleOf(rows, 16, h) && LeastMultipleOf(s, 16, w) && LeastMultipleOf(c, 16, s / 2)
    ensures Nv21Size(w, h) == rows * (s + c)
    ensures var p := LockNv21(w, h);
            && p.y == 0 && p.cr == h * s && p.cb == p.cr + 1
            && p.ystride == p.cstride == s && p.chromaStep == 2
  {
    rows, s := AlignUp(h, 16), AlignUp(w, 16);
    c := AlignUp(s / 2, 16);
    AlignUpIsLeast(h, 16);
    AlignUpIsLeast(w, 16);
    AlignUpIsLeast(s / 2, 16);
    RowsIsProduct(rows, s + c);
    RowsIsProduct(h, s);
  }

  predicate StridesOf(h: nat, s: nat, c: nat) {
    if h % 8 == 0 then s % 16 == 0 && c % 16 == 0
    else if h % 4 == 0 then s % 64 == 0 && c % 32 == 0
    else s % 128 == 0 && c % 64 == 0
  }

  lemma Yv12Strides(w: nat, h: nat, s: nat, c: nat)
    requires s == Yv12Stride(w, h) && c == AlignUp(s / 2, 16)
    ensures w <= s && Half(w) <= c && StridesOf(h, s, c)
  {
    if h % 8 == 0 {
      Strides16(w, s, c);
    } else if h % 4 == 0 {
      Strides64(w, s, c);
    } else {
      Strides128(w, s, c);
    }
  }

  /** For every width, the planes tile the allocation exactly when the height is even.  For odd
      heights Cb starts before the last Cr row is over; nothing leaves the buffer even then. */
  lemma Yv12TilesExactly(w: nat, h: nat)
    requires w > 0 && h > 0
    ensures var p := LockYv12(w, h);
            && (Tiles(p, w, h, Yv12Size(w, h)) <==> h % 2 == 0)
            && (p.cb < p.cr + Rows(Half(h), p.cstride) <==> h % 2 == 1)
            && Rows(h, p.ystride) <= p.cr
            && p.cb + Rows(Half(h), p.cstride) <= Yv12Size(w, h)
  {
    var s := Yv12Stride(w, h);
    var c, rows := AlignUp(s / 2, 16), AlignUp(h, 2);
    Yv12Strides(w, h, s, c);
    PlanarTiles(w, h, rows, s, c);
  }

  lemma PlanarTiles(w: nat, h: nat, rows: nat, s: nat, c: nat)
    requires rows == AlignUp(h, 2) && 0 < w <= s && Half(w) <= c && c >= 2
    ensures var p, size := Planar(h, rows, s, c), Rows(rows, s + c);
            && (Tiles(p, w, h, size) <==> h % 2 == 0)
            && (p.cb < p.cr + Rows(Half(h), p.cstride) <==> h % 2 == 1)
            && Rows(h, p.ystride) <= p.cr
            && p.cb + Rows(Half(h), p.cstride) <= size
  {
    RowsWiden(rows, s, c);
    ChromaRows(h, rows, s, c);
  }

  /** The rows of the three planes for h rows of luma, of which `rows` are allocated. */
  lemma ChromaRows(h: nat, rows: nat, s: nat, c: nat)
    requires rows == AlignUp(h, 2) && s > 0 && c >= 2
    ensures rows == 2 * Half(h) && Rows(rows, c) == 2 * Rows(Half(h), c)
    ensures Rows(h, s) <= Rows(rows, s)
    ensures h % 2 == 0 ==> rows == h && Rows(h, c) / 2 == Rows(Half(h), c)
    ensures h % 2 == 1 ==> Rows(h, s) < Rows(rows, s) && Rows(h, c) / 2 < Rows(Half(h), c)
  {
    AlignUpIsMultiple(h, 2);
    HalfRows(h, c);
    RowsMono(h, rows, s, s);
    RowsAdd(Half(h), Half(h), c);
    if h % 2 == 1 {
      RowsAdd(h, 1, s);
      RowsAdd(h / 2, 1, c);
      assert Rows(1, s) == Rows(0, s) + s && Rows(1, c) == Rows(0, c) + c;
    }
  }

  /** Rows in groups of k, each group a multiple of 64 bytes. */
  lemma RowsOnBoundary(rows: nat, n: nat, k: nat, stride: nat)
    requires rows == k * n && k * stride % 64 == 0
    ensures Rows(rows, stride) % 64 == 0
  {
    RowsGrouped(n, k, stride);
    RowsIsProduct(k, stride);
    RowsOfMultiples(n, Rows(k, stride), 64);
  }

  /** In all three height classes both chroma planes start on 64-byte boundaries. */
  lemma Yv12ChromaAligned(w: nat, h: nat)
    requires h % 2 == 0
    ensures LockYv12(w, h).cr % 64 == 0 && LockYv12(w, h).cb % 64 == 0
  {
    var p := LockYv12(w, h);
    Yv12Strides(w, h, p.ystride, p.cstride);
    ChromaRows(h, AlignUp(h, 2), p.ystride + 1, p.cstride + 2);
    HalfRows(h, p.cstride);
    assert p.cr == Rows(h, p.ystride) && p.cb == p.cr + Rows(h / 2, p.cstride);
    RowsOnBoundaries(h, p.ystride, p.cstride);
    SumOfMultiples(p.cr, Rows(h / 2, p.cstride), 64);
  }

  lemma RowsOnBoundaries(h: nat, s: nat, c: nat)
    requires h % 2 == 0 && StridesOf(h, s, c)
    ensures Rows(h, s) % 64 == 0 && Rows(h / 2, c) % 64 == 0
  {
    if h % 8 == 0 {
      Eighths(h);
      BoundariesEight(h / 8, s, c);
    } else if h % 4 == 0 {
      Quarters(h);
      BoundariesFour(h / 4, s, c);
    } else {
      Doubles(s);
      RowsOfMultiples(h, s, 64);
      RowsOfMultiples(h / 2, c, 64);
    }
  }

  lemma Eighths(h: nat)
    requires h % 8 == 0
    ensures h == 8 * (h / 8) && h / 2 == 4 * (h / 8)
  {
  }

  lemma Quarters(h: nat)
    requires h % 4 == 0
    ensures h == 4 * (h / 4) && h / 2 == 2 * (h / 4)
  {
  }

  lemma Doubles(s: nat)
    requires s % 128 == 0
    ensures s % 64 == 0
  {
  }

  lemma BoundariesEight(n: nat, s: nat, c: nat)
    requires s % 16 == 0 && c % 16 == 0
    ensures Rows(8 * n, s) % 64 == 0 && Rows(4 * n, c) % 64 == 0
  {
    RowsOnBoundary(8 * n, n, 8, s);
    RowsOnBoundary(4 * n, n, 4, c);
  }

  lemma BoundariesFour(n: nat, s: nat, c: nat)
    requires s % 64 == 0 && c % 32 == 0
    ensures Rows(4 * n, s) % 64 == 0 && Rows(2 * n, c) % 64 == 0
  {
    RowsOfMultiples(4 * n, s, 64);
    RowsOnBoundary(2 * n, n, 2, c);
  }

  // --------------------------------------------------------------------- NV21

  /** The interleaved plane starts right behind the luma rows and both planes stay inside the
      allocation, for every width and height. */
  lemma Nv21InBounds(w: nat, h: nat)
    ensures var p := LockNv21(w, h);
            && w <= p.ystride && 2 * Half(w) <= p.cstride
            && p.cr == Rows(h, p.ystride) && p.cb == p.cr + 1
            && p.cr + Rows(Half(h), p.cstride) <= Nv21Size(w, h)
  {
    var s, rows := AlignUp(w, 16), AlignUp(h, 16);
    NarrowStride(w, s);
    NarrowStride(h, rows);
    Nv21Planes(h, s / 2, rows / 2, AlignUp(s / 2, 16));
  }

  /** The allocation of 2 * rows lines of 2 * half bytes, and what is left of it for chroma. */
  lemma Nv21Planes(h: nat, half: nat, rows: nat, a: nat)
    requires h <= 2 * rows && half <= a
    ensures Rows(h, 2 * half) + Rows(Half(h), 2 * half) <= Rows(2 * rows, 2 * half + a)
  {
    HalfFits(h, rows);
    RowsWiden(2 * rows, 2 * half, a);
    RowsMono(2 * rows, 2 * rows, half, a);
    RowsDouble(rows, half);
    RowsMono(h, 2 * rows, 2 * half, 2 * half);
    RowsMono(Half(h), rows, 2 * half, 2 * half);
  }
}
