/** The slots of the mapped framebuffer: how both gralloc modules hand them out by a bit mask, and
    where fb_post pans the display to (gralloc/alloc_device.cpp, gralloc/framebuffer_device.cpp,
    gralloc960/framebuffer_device.cpp). */
module FbSlots {
  import opened Align
  import opened Bytes
  import opened Geometry
  import opened Prelude

  /** bufferMask is a 32-bit field, though the shifts and comparisons around it are wider. */
  const MASK_BITS: nat := 32

  const PAGE_SIZE := 4096

  /** mask & (1 << i) is not zero. */
  predicate Bit(mask: nat, i: nat) {
    if i == 0 then mask % 2 == 1 else Bit(mask / 2, i - 1)
  }

  /** mask |= (1 << i) in a field of w bits. */
  function SetBit(mask: nat, i: nat, w: nat): nat {
    (if Bit(mask, i) then mask else mask + Pow2(i)) % Pow2(w)
  }

  /** The mask with the lowest j bits set. */
  function Ones(j: nat): nat {
    Pow2(j) - 1
  }

  lemma {:induction false} BitOfOnes(j: nat, i: nat)
    ensures Bit(Ones(j), i) <==> i < j
  {
    if j == 0 {
      assert Ones(j) == 0;
      if i > 0 {
        BitOfOnes(0, i - 1);
      }
    } else {
      assert Ones(j) == 1 + 2 * Ones(j - 1);
      if i > 0 {
        BitOfOnes(j - 1, i - 1);
      }
    }
  }

  lemma {:induction false} OnesOrdered(a: nat, b: nat)
    ensures Ones(a) >= Ones(b) <==> a >= b
    decreases a + b
  {
    if a == 0 || b == 0 {
    } else {
      OnesOrdered(a - 1, b - 1);
    }
  }

  lemma OnesNext(j: nat)
    ensures Ones(j) + Pow2(j) == Ones(j + 1)
  {
  }

  lemma Wrapped(x: nat, all: nat)
    requires all > 0
    ensures x < all ==> x % all == x
    ensures x == 2 * all - 1 ==> x % all == all - 1
  {
    if x < all {
      DivMul(0, all, x);
    } else if x == 2 * all - 1 {
      DivMul(1, all, all - 1);
    }
  }

  lemma SetFirstClear(j: nat, w: nat)
    requires j <= w
    ensures SetBit(Ones(j), j, w) == Ones(Min(j + 1, w))
  {
    BitOfOnes(j, j);
    OnesNext(j);
    Wrapped(Ones(j + 1), Pow2(w));
    if j < w {
      Pow2Grows(j + 1, w);
    }
  }

  // ------------------------------------------------------------- which slot

  /** The slot of the k-th allocation, counted from 0, out of n: one further each time and back to
      0 behind the last, except that slot 32 cannot be marked. */
  function Slot(k: nat, n: nat): (s: nat)
    ensures s <= MASK_BITS && (n > 0 ==> s < n)
  {
    if k == 0 then 0
    else
      var next := Min(Slot(k - 1, n) + 1, MASK_BITS);
      if next >= n then 0 else next
  }

  /** How many bits are set after k allocations. */
  function Taken(k: nat, n: nat): nat {
    if k == 0 || n == 0 then 0 else Min(Slot(k - 1, n) + 1, MASK_BITS)
  }

  lemma ModNext(k: nat, n: nat)
    requires n > 0
    ensures (k + 1) % n == if k % n + 1 == n then 0 else k % n + 1
  {
    var q, r := k / n, k % n;
    assert k == q * n + r;
    if r + 1 == n {
      assert k + 1 == (q + 1) * n + 0;
      DivMul(q + 1, n, 0);
    } else {
      DivMul(q, n, r + 1);
    }
  }

  lemma {:induction false} RoundRobin(k: nat, n: nat)
    requires 0 < n <= 32
    ensures Slot(k, n) == k % n
  {
    if k == 0 {
      SmallMod(0, n);
    } else {
      RoundRobin(k - 1, n);
      ModNext(k - 1, n);
      assert k - 1 + 1 == k;
    }
  }

  lemma {:induction false} StuckSlot(k: nat, n: nat)
    requires n > 32
    ensures Slot(k, n) == Min(k, 32)
  {
    if k == 0 {
    } else {
      StuckSlot(k - 1, n);
    }
  }

  /** The allocator is round-robin exactly when its mask is wide enough for the slots. */
  lemma RoundRobinExactly(n: nat)
    requires n > 0
    ensures (forall k: nat :: Slot(k, n) == k % n) <==> n <= 32
  {
    if n <= MASK_BITS {
      forall k: nat ensures Slot(k, n) == k % n {
        RoundRobin(k, n);
      }
    } else {
      var k := MASK_BITS + 1;
      StuckSlot(k, n);
      assert Slot(k, n) != k % n;
    }
  }

  ghost predicate WindowsDistinct(n: nat) {
    forall i: nat, j: nat :: i < j < i + n ==> Slot(i, n) != Slot(j, n)
  }

  lemma NearMods(i: nat, j: nat, n: nat)
    requires n > 0 && i < j < i + n
    ensures i % n != j % n
  {
    if i % n == j % n {
      assert j - i == n * (j / n - i / n) by {
        assert j == n * (j / n) + j % n;
        assert i == n * (i / n) + i % n;
        MulDistributes(n, j / n - i / n, i / n);
      }
      MulSign(n, j / n - i / n);
      assert false;
    }
  }

  /** Any n consecutive allocations get n different slots exactly when there are at most 32. */
  lemma WindowsDistinctExactly(n: nat)
    requires n >= 2
    ensures WindowsDistinct(n) <==> n <= 32
  {
    if n <= MASK_BITS {
      forall i: nat, j: nat | i < j < i + n ensures Slot(i, n) != Slot(j, n) {
        RoundRobin(i, n);
        RoundRobin(j, n);
        NearMods(i, j, n);
      }
    } else {
      StuckSlot(MASK_BITS, n);
      StuckSlot(MASK_BITS + 1, n);
      assert Slot(MASK_BITS, n) == Slot(MASK_BITS + 1, n);
    }
  }

  // ------------------------------------------------------------ where it is

  /** line_length * yres. */
  function SlotSize(yres: nat, lineLength: nat): nat {
    Rows(yres, lineLength)
  }

  /** The distance the loop has moved vaddr by. */
  function SlotOffset(slot: nat, yres: nat, lineLength: nat): nat {
    Rows(slot, SlotSize(yres, lineLength))
  }

  /** The size of the mapping: whole pages. */
  function MappedSize(yresVirtual: nat, lineLength: nat): nat {
    AlignUp(Rows(yresVirtual, lineLength), PAGE_SIZE)
  }

  /** The mapping is whole pages of 4 KiB; a slot is yres lines, and they follow each other. */
  lemma MappedExactly(slot: nat, yres: nat, yresVirtual: nat, lineLength: nat)
    ensures LeastMultipleOf(MappedSize(yresVirtual, lineLength), 4096, yresVirtual * lineLength)
    ensures SlotSize(yres, lineLength) == yres * lineLength
    ensures SlotOffset(slot, yres, lineLength) == slot * (yres * lineLength)
  {
    RowsIsProduct(yresVirtual, lineLength);
    RowsIsProduct(yres, lineLength);
    RowsIsProduct(slot, SlotSize(yres, lineLength));
    AlignUpIsLeast(Rows(yresVirtual, lineLength), PAGE_SIZE);
  }

  lemma SlotRows(slot: nat, yres: nat, yresVirtual: nat)
    requires yres > 0 && slot < yresVirtual / yres
    ensures yres * slot + yres <= yresVirtual
  {
    var n := yresVirtual / yres;
    assert yresVirtual == yres * n + yresVirtual % yres;
    MulDistributes(yres, slot, 1);
    MulDistributes(yres, slot + 1, n - (slot + 1));
    MulSign(yres, n - (slot + 1));
    if n - (slot + 1) == 0 {
      assert yres * 0 == 0;
    }
  }

  /** A slot is its yres lines of the virtual screen: inside it, inside the mapping, and panned to
      by its first line. */
  lemma SlotIsItsLines(slot: nat, yres: nat, yresVirtual: nat, lineLength: nat)
    requires yres > 0 && lineLength > 0 && slot < yresVirtual / yres
    ensures var offset := SlotOffset(slot, yres, lineLength);
            && offset + SlotSize(yres, lineLength) <= Rows(yresVirtual, lineLength)
            && Rows(yresVirtual, lineLength) <= MappedSize(yresVirtual, lineLength)
            && offset / lineLength == yres * slot
            && yres * slot + yres <= yresVirtual
  {
    SlotRows(slot, yres, yresVirtual);
    RowsGrouped(slot, yres, lineLength);
    RowsAdd(yres * slot, yres, lineLength);
    RowsMono(yres * slot + yres, yresVirtual, lineLength, lineLength);
    RowsIsProduct(yres * slot, lineLength);
    DivMul(yres * slot, lineLength, 0);
  }

  /** Different slots share no byte. */
  lemma SlotsApart(a: nat, b: nat, yres: nat, lineLength: nat)
    requires a < b
    ensures SlotOffset(a, yres, lineLength) + SlotSize(yres, lineLength) <= SlotOffset(b, yres, lineLength)
  {
    RowsMono(a + 1, b, SlotSize(yres, lineLength), SlotSize(yres, lineLength));
  }

  /** With two to 32 slots, any two of numBuffers consecutive allocations are disjoint parts of the
      mapping. */
  lemma ConsecutiveBuffersApart(i: nat, j: nat, yres: nat, yresVirtual: nat, lineLength: nat)
    requires yres > 0 && lineLength > 0 && 2 <= yresVirtual / yres <= 32
    requires i < j < i + yresVirtual / yres
    ensures var n, size := yresVirtual / yres, SlotSize(yres, lineLength);
            var a, b := SlotOffset(Slot(i, n), yres, lineLength), SlotOffset(Slot(j, n), yres, lineLength);
            && a + size <= MappedSize(yresVirtual, lineLength)
            && b + size <= MappedSize(yresVirtual, lineLength)
            && (a + size <= b || b + size <= a)
  {
    var n := yresVirtual / yres;
    WindowsDistinctExactly(n);
    var s, t := Slot(i, n), Slot(j, n);
    SlotIsItsLines(s, yres, yresVirtual, lineLength);
    SlotIsItsLines(t, yres, yresVirtual, lineLength);
    if s < t {
      SlotsApart(s, t, yres, lineLength);
    } else {
      SlotsApart(t, s, yres, lineLength);
    }
  }

  /** A display panned to the offset of slot s begins at line yres * s, and all its lines exist. */
  lemma PannedToSlot(offset: nat, numBuffers: nat, yres: nat, yresVirtual: nat, lineLength: nat)
    requires yres > 0 && lineLength > 0 && numBuffers == yresVirtual / yres
    ensures forall s: nat :: s < numBuffers && offset == SlotOffset(s, yres, lineLength) ==>
              offset / lineLength == yres * s && yres * s + yres <= yresVirtual
  {
    forall s: nat | s < numBuffers && offset == SlotOffset(s, yres, lineLength)
      ensures offset / lineLength == yres * s && yres * s + yres <= yresVirtual
    {
      SlotIsItsLines(s, yres, yresVirtual, lineLength);
    }
  }

  // ------------------------------------------------------- copying to the screen

  /** What the first n lines of a buffer show: `length` bytes from each, `stride` apart. */
  function Lines(data: seq<byte>, n: nat, length: nat, stride: nat): (s: seq<byte>)
    requires length <= stride && Rows(n, stride) <= |data|
    ensures |s| == Rows(n, length)
  {
    if n == 0 then [] else Lines(data, n - 1, length, stride) + data[Rows(n - 1, stride)..][..length]
  }

  /** Line y of the picture is the line y of the buffer. */
  lemma {:induction false} LineShown(data: seq<byte>, n: nat, length: nat, stride: nat, y: nat)
    requires length <= stride && Rows(n, stride) <= |data| && y < n
    ensures Rows(y, stride) + length <= |data| && Rows(y + 1, length) <= Rows(n, length)
    ensures Lines(data, n, length, stride)[Rows(y, length)..Rows(y + 1, length)] ==
            data[Rows(y, stride)..Rows(y, stride) + length]
  {
    var front, line := Lines(data, n - 1, length, stride), data[Rows(n - 1, stride)..][..length];
    assert Lines(data, n, length, stride) == front + line;
    RowsNext(n - 1, length);
    RowsNext(n - 1, stride);
    if y == n - 1 {
      assert (front + line)[|front|..|front| + length] == line;
      assert line == data[Rows(y, stride)..Rows(y, stride) + length];
    } else {
      LineShown(data, n - 1, length, stride, y);
      LineBelow(front, line, Rows(y, length), Rows(y + 1, length));
    }
  }

  lemma RowsNext(n: nat, stride: nat)
    ensures Rows(n + 1, stride) == Rows(n, stride) + stride
  {
  }

  lemma LineBelow(s: seq<byte>, more: seq<byte>, from: nat, to: nat)
    requires from <= to <= |s|
    ensures (s + more)[from..to] == s[from..to]
  {
  }

  lemma {:induction false} LinesWithoutGaps(data: seq<byte>, n: nat, length: nat)
    requires Rows(n, length) <= |data|
    ensures Lines(data, n, length, length) == data[..Rows(n, length)]
  {
    if n == 0 {
    } else {
      LinesWithoutGaps(data, n - 1, length);
      TakeMore(data, Rows(n - 1, length), length);
    }
  }

  /** Copying the first bytes of data all at once shows its lines. */
  predicate OneCopyShows(data: seq<byte>, n: nat, length: nat, stride: nat)
    requires length <= stride && Rows(n, stride) <= |data|
  {
    Rows(n, length) <= |data| && Lines(data, n, length, stride) == data[..Rows(n, length)]
  }

  /** That is so for every picture exactly when the buffer has no gap between its lines, or only
      one line. */
  lemma OneCopyExactly(n: nat, length: nat, stride: nat)
    requires 0 < length <= stride
    ensures (forall data: seq<byte> | Rows(n, stride) <= |data| :: OneCopyShows(data, n, length, stride)) <==>
            n <= 1 || length == stride
  {
    if n <= 1 || length == stride {
      forall data: seq<byte> | Rows(n, stride) <= |data| ensures OneCopyShows(data, n, length, stride) {
        NoGap(data, n, length, stride);
      }
    } else {
      var data := Marked(Rows(n, stride), length);
      GapShows(data, n, length, stride);
    }
  }

  function Marked(n: nat, at: nat): (s: seq<byte>)
    ensures |s| == n && forall i :: 0 <= i < n ==> s[i] == if i == at then 1 else 0
  {
    seq(n, i => if i == at then 1 else 0)
  }

  lemma NoGap(data: seq<byte>, n: nat, length: nat, stride: nat)
    requires length <= stride && Rows(n, stride) <= |data| && (n <= 1 || length == stride)
    ensures OneCopyShows(data, n, length, stride)
  {
    if length == stride {
      LinesWithoutGaps(data, n, length);
    } else {
      OneLine(data, n, length, stride);
    }
  }

  lemma OneLine(data: seq<byte>, n: nat, length: nat, stride: nat)
    requires n <= 1 && length <= stride && Rows(n, stride) <= |data|
    ensures OneCopyShows(data, n, length, stride)
  {
    if n == 1 {
      assert Rows(0, stride) == 0 == Rows(0, length) && Rows(1, stride) == stride && Rows(1, length) == length;
      assert Lines(data, 0, length, stride) == [];
    }
  }

  lemma GapShows(data: seq<byte>, n: nat, length: nat, stride: nat)
    requires n > 1 && 0 < length < stride && Rows(n, stride) <= |data|
    requires forall i :: 0 <= i < |data| ==> data[i] == if i == length then 1 else 0
    ensures !OneCopyShows(data, n, length, stride)
  {
    var s := Lines(data, n, length, stride);
    LineShown(data, n, length, stride, 1);
    OneRow(length);
    OneRow(stride);
    assert s[length] == s[length..length + length][0] == data[stride..stride + length][0] == 0;
  }

  lemma OneRow(stride: nat)
    ensures Rows(1, stride) == stride && Rows(2, stride) == stride + stride
  {
    RowsNext(0, stride);
    RowsNext(1, stride);
  }

  lemma LineCopied(front: seq<byte>, line: seq<byte>, was: seq<byte>)
    requires |front| + |line| <= |was|
    ensures var s := front + was[|front|..];
            s[..|front|] + line + s[|front| + |line|..] == front + line + was[|front| + |line|..]
  {
  }

  // -------------------------------------------------------------- the module

  datatype Handle = Flip(offset: nat, size: nat) | Regular(size: nat)

  /** The framebuffer part of private_module_t. */
  class FramebufferModule {
    const yres: nat
    const yresVirtual: nat
    const lineLength: nat
    const numBuffers: nat
    const fbSize: nat
    const screen: array<byte>  // the mapping
    var bufferMask: nat
    var currentBuffer: Option<Handle>
    var yoffset: nat
    /** How many allocations have marked a slot. */
    ghost var allocations: nat

    ghost predicate Valid()
      reads this
    {
      && yres > 0 && lineLength > 0
      && numBuffers == yresVirtual / yres < 64
      && fbSize == MappedSize(yresVirtual, lineLength) == screen.Length
      && bufferMask == Ones(Taken(allocations, numBuffers))
    }

    /** init_frame_buffer_locked, from what the driver reports last. */
    constructor (yres: nat, yresVirtual: nat, lineLength: nat)
      requires yres > 0 && lineLength > 0 && yresVirtual / yres < 64
      ensures Valid() && allocations == 0 && currentBuffer == None && fresh(screen)
      ensures screen[..] == seq(screen.Length, i => 0)
      ensures this.yres == yres && this.yresVirtual == yresVirtual && this.lineLength == lineLength
    {
      this.yres := yres;
      this.yresVirtual := yresVirtual;
      this.lineLength := lineLength;
      fbSize := MappedSize(yresVirtual, lineLength);
      screen := new byte[MappedSize(yresVirtual, lineLength)](i => 0);
      numBuffers := yresVirtual / yres;
      bufferMask := 0;
      currentBuffer := None;
      yoffset := 0;
      allocations := 0;
    }

    /** The search of the loop: the first clear bit, and how far vaddr has moved. */
    method FindFree(mask: nat, ghost first: nat) returns (i: nat, offset: nat)
      requires mask == Ones(first) && (first < numBuffers || numBuffers == 0)
      ensures numBuffers > 0 ==> i == first
      ensures i <= numBuffers && offset == SlotOffset(i, yres, lineLength)
    {
      i, offset := 0, 0;
      while i < numBuffers
        invariant i <= numBuffers && (numBuffers > 0 ==> i <= first)
        invariant offset == SlotOffset(i, yres, lineLength)
      {
        BitOfOnes(first, i);
        if !Bit(mask, i) {
          return;
        }
        i, offset := i + 1, offset + SlotSize(yres, lineLength);
      }
    }

    /** Taking a slot marks it; the mask starts over when all bits are set. */
    method TakeSlot() returns (offset: nat)
      requires Valid()
      modifies `bufferMask, `allocations
      ensures Valid() && allocations == old(allocations) + 1
      ensures offset == SlotOffset(Slot(old(allocations), numBuffers), yres, lineLength)
    {
      ghost var first := Slot(allocations, numBuffers);
      OnesOrdered(Taken(allocations, numBuffers), numBuffers);
      if bufferMask >= Ones(numBuffers) {
        bufferMask := 0;
      }
      assert bufferMask == Ones(first);
      var i;
      i, offset := FindFree(bufferMask, first);
      if i < numBuffers {
        SetFirstClear(first, MASK_BITS);
        bufferMask := SetBit(bufferMask, i, MASK_BITS);
      }
      allocations := allocations + 1;
    }

    /** fb_alloc_framebuffer_locked; dmabuf says whether the driver could export the slot. When it
        could not, the caller gets a regular buffer and the slot stays marked. */
    method AllocFramebuffer(dmabuf: bool) returns (h: Handle, byteStride: nat)
      requires Valid()
      modifies `bufferMask, `allocations
      ensures Valid() && allocations == old(allocations) + if numBuffers == 1 then 0 else 1
      ensures h == if numBuffers != 1 && dmabuf
                   then Flip(SlotOffset(Slot(old(allocations), numBuffers), yres, lineLength),
                             SlotSize(yres, lineLength))
                   else Regular(SlotSize(yres, AlignUp(lineLength, 64)))
      ensures byteStride == if h.Flip? then lineLength else AlignUp(lineLength, 64)
      ensures h.size >= SlotSize(yres, lineLength)
      ensures h.size == Rows(yres, byteStride) && lineLength <= byteStride
      ensures h.Flip? && numBuffers > 0 ==> h.offset + h.size <= fbSize
    {
      RowsMono(yres, yres, lineLength, AlignUp(lineLength, 64));
      if numBuffers == 1 {
        return Regular(SlotSize(yres, AlignUp(lineLength, 64))), AlignUp(lineLength, 64);
      }
      var offset := TakeSlot();
      if !dmabuf {
        return Regular(SlotSize(yres, AlignUp(lineLength, 64))), AlignUp(lineLength, 64);
      }
      if numBuffers > 0 {
        SlotIsItsLines(Slot(old(allocations), numBuffers), yres, yresVirtual, lineLength);
      }
      h, byteStride := Flip(offset, SlotSize(yres, lineLength)), lineLength;
    }

    /** memcpy of `length` bytes. */
    method CopyBytes(data: seq<byte>, to: nat, from: nat, length: nat)
      requires to + length <= screen.Length && from + length <= |data|
      modifies screen
      ensures screen[..] == old(screen[..to]) + data[from..][..length] + old(screen[to + length..])
    {
      forall i | 0 <= i < length {
        screen[to + i] := data[from + i];
      }
    }

    /** The copy of fb_post line by line. */
    method CopyLines(data: seq<byte>, byteStride: nat)
      requires Rows(yres, lineLength) <= screen.Length
      requires lineLength <= byteStride && Rows(yres, byteStride) <= |data|
      modifies screen
      ensures screen[..] == Lines(data, yres, lineLength, byteStride) + old(screen[Rows(yres, lineLength)..])
    {
      ghost var was := screen[..];
      var fbOffset, bufferOffset := 0, 0;
      for i := 0 to yres
        invariant fbOffset == Rows(i, lineLength) <= Rows(yres, lineLength)
        invariant bufferOffset == Rows(i, byteStride) <= Rows(yres, byteStride)
        invariant screen[..] == Lines(data, i, lineLength, byteStride) + was[fbOffset..]
      {
        RowsMono(i + 1, yres, lineLength, lineLength);
        RowsMono(i + 1, yres, byteStride, byteStride);
        RowsNext(i, lineLength);
        RowsNext(i, byteStride);
        LineCopied(Lines(data, i, lineLength, byteStride), data[bufferOffset..][..lineLength], was);
        CopyBytes(data, fbOffset, bufferOffset, lineLength);
        fbOffset, bufferOffset := fbOffset + lineLength, bufferOffset + byteStride;
      }
    }

    /** The copy of fb_post: all at once when the buffer has the lines of the screen, otherwise
        line by line.  Either way the screen shows the lines of the buffer. */
    method CopyToScreen(data: seq<byte>, byteStride: nat)
      requires Valid() && numBuffers > 0
      requires lineLength <= byteStride && Rows(yres, byteStride) <= |data|
      modifies screen
      ensures Rows(yres, lineLength) <= screen.Length
      ensures screen[..] == Lines(data, yres, lineLength, byteStride) + old(screen[Rows(yres, lineLength)..])
    {
      SlotIsItsLines(0, yres, yresVirtual, lineLength);
      if byteStride == lineLength {
        LinesWithoutGaps(data, yres, lineLength);
        CopyBytes(data, 0, 0, Rows(yres, lineLength));
      } else {
        CopyLines(data, byteStride);
      }
    }

    /** fb_post; panned says whether the driver took the new offset.  A buffer of slot s is shown
        from line yres * s, and all its lines exist; a regular buffer is copied. */
    method Post(h: Handle, data: seq<byte>, byteStride: nat, panned: bool)
      requires Valid()
      requires h.Regular? ==> numBuffers > 0 && lineLength <= byteStride && Rows(yres, byteStride) <= |data|
      modifies this`currentBuffer, this`yoffset, screen
      ensures Valid()
      ensures currentBuffer == if h.Flip? && panned then Some(h) else None
      ensures h.Regular? ==>
                && yoffset == old(yoffset) && Rows(yres, lineLength) <= screen.Length
                && screen[..] == Lines(data, yres, lineLength, byteStride) + old(screen[Rows(yres, lineLength)..])
      ensures h.Flip? ==> screen[..] == old(screen[..])
      ensures forall s: nat :: s < numBuffers && h.Flip? && h.offset == SlotOffset(s, yres, lineLength) ==>
                yoffset == yres * s && yoffset + yres <= yresVirtual
    {
      currentBuffer := None;
      if h.Flip? {
        yoffset := h.offset / lineLength;
        PannedToSlot(h.offset, numBuffers, yres, yresVirtual, lineLength);
        if panned {
          currentBuffer := Some(h);
        }
      } else {
        CopyToScreen(data, byteStride);
      }
    }
  }
}
