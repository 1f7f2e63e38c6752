/** The aiding database of the u-blox driver and its file format: what saveDatabase writes and
    what loadDatabase leaves in memory, including after a failure half-way
    (ublox_gps_hal/ubxgpsstate.cpp, ublox_gps_hal/ubxgpsstate.h). */
module AidingDb {
  import opened Bytes
  import opened Prelude

  const NUM_GPS_SVS := 32
  const POS_SIZE := 32   // sizeof(DBPOS_t): two doubles, an int, padding, an int64_t
  const TIME_SIZE := 24  // sizeof(DBTIME_t): two int64_t, an int, padding
  const INT_MAX := 0x7FFF_FFFF
  const UINT_MAX := 0xFFFF_FFFF

  type PosImage = s: seq<byte> | |s| == POS_SIZE witness seq(POS_SIZE, i => 0)
  type TimeImage = s: seq<byte> | |s| == TIME_SIZE witness seq(TIME_SIZE, i => 0)

  /** BUF_t: the heap block p points to, and the length field. */
  datatype Buf = Buf(p: Option<seq<byte>>, i: nat) {
    predicate WellFormed() {
      i == if p.Some? then |p.value| else 0
    }

    /** What every call of replaceBuf and loadBuffer leaves behind: no empty block, and none
        longer than the limit, which is what malloc grants, or INT_MAX for a block that can be
        saved. */
    predicate Stored(limit: nat) {
      WellFormed() && (p.Some? ==> 0 < i <= limit && i <= UINT_MAX)
    }
  }

  const NO_BUF := Buf(None, 0)

  datatype Sv = Sv(eph: Buf, alm: Buf, aop: Buf) {
    predicate WellFormed() { eph.WellFormed() && alm.WellFormed() && aop.WellFormed() }
    predicate Stored(limit: nat) { eph.Stored(limit) && alm.Stored(limit) && aop.Stored(limit) }
  }

  datatype Alp = Alp(file: Buf, fileId: U2, timeRefMs: U8)

  /** The part of DB_s that goes to the file.  pos and time are written as raw memory. */
  datatype Db = Db(hui: Buf, alp: Alp, pos: PosImage, time: TimeImage, sv: seq<Sv>) {
    predicate WellFormed() {
      && hui.WellFormed() && alp.file.WellFormed()
      && |sv| == NUM_GPS_SVS && forall k :: 0 <= k < |sv| ==> sv[k].WellFormed()
    }
    predicate Stored(limit: nat) {
      && hui.Stored(limit) && alp.file.Stored(limit)
      && |sv| == NUM_GPS_SVS && forall k :: 0 <= k < |sv| ==> sv[k].Stored(limit)
    }

    /** An int can express every length, so that the data is written as well. */
    predicate Savable() { Stored(INT_MAX) }
  }

  // ------------------------------------------------------------- what save writes

  /** The data that saveBuffer writes behind the length: a length over INT_MAX is negative as an
      int, and nothing is written for it. */
  function SavedData(b: Buf): seq<byte> {
    if b.p.Some? && b.i <= INT_MAX then b.p.value else []
  }

  function EncodeBuf(b: Buf): seq<byte> {
    LE(b.i, 4) + SavedData(b)
  }

  function EncodeAlp(a: Alp): seq<byte> {
    EncodeBuf(a.file) + (LE(a.fileId, 2) + LE(a.timeRefMs, 8))
  }

  function EncodeSv(v: Sv): seq<byte> {
    EncodeBuf(v.eph) + (EncodeBuf(v.alm) + EncodeBuf(v.aop))
  }

  function EncodeSvs(svs: seq<Sv>): seq<byte> {
    if svs == [] then [] else EncodeSv(svs[0]) + EncodeSvs(svs[1..])
  }

  function EncodeDb(d: Db): seq<byte> {
    EncodeBuf(d.hui) + (EncodeAlp(d.alp) + (d.pos + (d.time + EncodeSvs(d.sv))))
  }

  /** A block in the file: its length in four bytes, the lowest first, and its data if an int can
      express the length. */
  lemma BlockBytes(b: Buf)
    ensures var s := EncodeBuf(b);
            && |s| >= 4 && s[0] == b.i % 256 && s[1] == b.i / 0x100 % 256 && s[2] == b.i / 0x1_0000 % 256
            && s[3] == b.i / 0x100_0000 % 256
            && s[4..] == if b.p.Some? && b.i < 0x8000_0000 then b.p.value else []
  {
    Bounds();
    assert Pow256(3) == 256 * Pow256(2) == 0x100_0000 && Pow256(1) == 256 * Pow256(0) == 0x100;
    LEByte(b.i, 4, 0);
    LEByte(b.i, 4, 1);
    LEByte(b.i, 4, 2);
    LEByte(b.i, 4, 3);
  }

  /** The parts of the file in order: ionosphere, ALP file with its number and time stamp, position,
      time, and the satellites. */
  lemma FileLayout(d: Db)
    ensures EncodeDb(d) ==
            EncodeBuf(d.hui) + EncodeBuf(d.alp.file) + LE(d.alp.fileId, 2) + LE(d.alp.timeRefMs, 8) + d.pos + d.time
            + EncodeSvs(d.sv)
  {
  }

  lemma {:induction false} EncodeSvsAppend(a: seq<Sv>, b: seq<Sv>)
    ensures EncodeSvs(a + b) == EncodeSvs(a) + EncodeSvs(b)
  {
    if a == [] {
      assert a + b == b;
    } else {
      assert (a + b)[1..] == a[1..] + b;
      EncodeSvsAppend(a[1..], b);
      Join(EncodeSv(a[0]), EncodeSvs(a[1..]), EncodeSvs(b));
    }
  }

  lemma {:induction false} OneInTheMiddle(a: seq<Sv>, v: Sv, b: seq<Sv>)
    ensures EncodeSvs(a + ([v] + b)) == EncodeSvs(a) + (EncodeSv(v) + EncodeSvs(b))
  {
    EncodeSvsAppend(a, [v] + b);
    assert ([v] + b)[1..] == b;
  }

  /** Every satellite in its place, as ephemeris, almanac and AssistNow parameters. */
  lemma {:induction false} SatelliteLayout(svs: seq<Sv>, k: nat)
    requires k < |svs|
    ensures EncodeSvs(svs) == EncodeSvs(svs[..k]) + (EncodeSv(svs[k]) + EncodeSvs(svs[k + 1..]))
    ensures EncodeSv(svs[k]) == EncodeBuf(svs[k].eph) + EncodeBuf(svs[k].alm) + EncodeBuf(svs[k].aop)
  {
    assert svs == svs[..k] + ([svs[k]] + svs[k + 1..]);
    OneInTheMiddle(svs[..k], svs[k], svs[k + 1..]);
    Join(EncodeBuf(svs[k].eph), EncodeBuf(svs[k].alm), EncodeBuf(svs[k].aop));
  }

  // ------------------------------------------------------------- what load leaves

  /** The outcome of a load: whether it succeeded, what is in memory then, and the unread rest of
      the file. */
  datatype Load<+T> = Load(ok: bool, value: T, rest: seq<byte>)

  /** read() into a field: a short read overwrites only the front of it. */
  function LoadRaw(s: seq<byte>, field: seq<byte>): (r: Load<seq<byte>>)
    ensures |r.value| == |field|
  {
    if |field| <= |s| then Load(true, s[..|field|], s[|field|..])
    else Load(false, s + field[|s|..], [])
  }

  /** loadBuffer(BUF_t): the old block is replaced only after the new one was read whole; a length
      over INT_MAX is negative as an int and equals no number of bytes that read() returns. */
  function LoadBuf(s: seq<byte>, was: Buf, heap: nat): Load<Buf> {
    if |s| < 4 then Load(false, was, [])
    else
      var n, t := FromLE(s[..4]), s[4..];
      if n == 0 then Load(true, NO_BUF, t)
      else if n > heap then Load(false, was, t)
      else if n > INT_MAX || |t| < n then Load(false, was, if |t| < n then [] else t[n..])
      else Load(true, Buf(Some(t[..n]), n), t[n..])
  }

  lemma Bounds()
    ensures Pow256(2) == 0x1_0000 && Pow256(4) == 0x1_0000_0000 && Pow256(8) == 0x1_0000_0000_0000_0000
  {
    assert Pow256(1) == 256 * Pow256(0);
    assert Pow256(3) == 256 * Pow256(2);
    assert Pow256(5) == 256 * Pow256(4);
    assert Pow256(6) == 256 * Pow256(5);
    assert Pow256(7) == 256 * Pow256(6);
  }

  function LoadU2(s: seq<byte>, was: U2): Load<U2> {
    var r := LoadRaw(s, LE(was, 2));
    Bounds();
    FromLEBound(r.value);
    Load(r.ok, FromLE(r.value), r.rest)
  }

  function LoadU8(s: seq<byte>, was: U8): Load<U8> {
    var r := LoadRaw(s, LE(was, 8));
    Bounds();
    FromLEBound(r.value);
    Load(r.ok, FromLE(r.value), r.rest)
  }

  function LoadAlp(s: seq<byte>, was: Alp, heap: nat): Load<Alp> {
    var f := LoadBuf(s, was.file, heap);
    if !f.ok then Load(false, was, f.rest)
    else
      var id := LoadU2(f.rest, was.fileId);
      if !id.ok then Load(false, Alp(f.value, id.value, was.timeRefMs), id.rest)
      else
        var t := LoadU8(id.rest, was.timeRefMs);
        Load(t.ok, Alp(f.value, id.value, t.value), t.rest)
  }

  function LoadSv(s: seq<byte>, was: Sv, heap: nat): Load<Sv> {
    var eph := LoadBuf(s, was.eph, heap);
    if !eph.ok then Load(false, was, eph.rest)
    else
      var alm := LoadBuf(eph.rest, was.alm, heap);
      if !alm.ok then Load(false, Sv(eph.value, was.alm, was.aop), alm.rest)
      else
        var aop := LoadBuf(alm.rest, was.aop, heap);
        Load(aop.ok, Sv(eph.value, alm.value, aop.value), aop.rest)
  }

  function LoadSvs(s: seq<byte>, was: seq<Sv>, heap: nat): (r: Load<seq<Sv>>)
    ensures |r.value| == |was|
    decreases |was|
  {
    if was == [] then Load(true, [], s)
    else
      var v := LoadSv(s, was[0], heap);
      if !v.ok then Load(false, [v.value] + was[1..], v.rest)
      else
        var vs := LoadSvs(v.rest, was[1..], heap);
        Load(vs.ok, [v.value] + vs.value, vs.rest)
  }

  function LoadDb(s: seq<byte>, was: Db, heap: nat): Load<Db> {
    var hui := LoadBuf(s, was.hui, heap);
    if !hui.ok then Load(false, was, hui.rest)
    else
      var d1 := was.(hui := hui.value);
      var alp := LoadAlp(hui.rest, was.alp, heap);
      if !alp.ok then Load(false, d1.(alp := alp.value), alp.rest)
      else
        var pos := LoadRaw(alp.rest, was.pos);
        if !pos.ok then Load(false, d1.(alp := alp.value, pos := pos.value), pos.rest)
        else
          var time := LoadRaw(pos.rest, was.time);
          if !time.ok then Load(false, d1.(alp := alp.value, pos := pos.value, time := time.value), time.rest)
          else
            var svs := LoadSvs(time.rest, was.sv, heap);
            Load(svs.ok, Db(hui.value, alp.value, pos.value, time.value, svs.value), svs.rest)
  }

  // ------------------------------------------------------------------ round trip

  lemma BufRoundTrip(b: Buf, more: seq<byte>, was: Buf, heap: nat)
    requires b.Stored(heap) && b.Stored(INT_MAX)
    ensures LoadBuf(EncodeBuf(b) + more, was, heap) == Load(true, b, more)
  {
    var s := EncodeBuf(b) + more;
    assert s[..4] == LE(b.i, 4);
    Bounds();
    FromLEofLE(b.i, 4);
    assert s[4..] == SavedData(b) + more;
    if b.p.Some? {
      assert s[4..][..b.i] == b.p.value && s[4..][b.i..] == more;
    }
  }

  /** A block that the heap holds is read back exactly when an int can express its length;
      otherwise the length alone was saved, and loading it leaves the block in use alone. */
  lemma BufSavedExactly(b: Buf, more: seq<byte>, was: Buf, heap: nat)
    requires b.Stored(heap)
    ensures LoadBuf(EncodeBuf(b) + more, was, heap) == Load(true, b, more) <==> b.i <= INT_MAX
    ensures b.i > INT_MAX ==> var r := LoadBuf(EncodeBuf(b) + more, was, heap); !r.ok && r.value == was
  {
    if b.i <= INT_MAX {
      BufRoundTrip(b, more, was, heap);
    } else {
      Bounds();
      FromLEofLE(b.i, 4);
      assert (EncodeBuf(b) + more)[..4] == LE(b.i, 4);
    }
  }

  lemma RawRoundTrip(field: seq<byte>, more: seq<byte>, was: seq<byte>)
    requires |was| == |field|
    ensures LoadRaw(field + more, was) == Load(true, field, more)
  {
  }

  lemma IntRoundTrip(id: U2, t: U8, more: seq<byte>, wasId: U2, wasT: U8)
    ensures LoadU2(LE(id, 2) + more, wasId) == Load(true, id, more)
    ensures LoadU8(LE(t, 8) + more, wasT) == Load(true, t, more)
  {
    Bounds();
    RawRoundTrip(LE(id, 2), more, LE(wasId, 2));
    RawRoundTrip(LE(t, 8), more, LE(wasT, 8));
    FromLEofLE(id, 2);
    FromLEofLE(t, 8);
  }

  lemma AlpRoundTrip(a: Alp, more: seq<byte>, was: Alp, heap: nat)
    requires a.file.Stored(heap) && a.file.Stored(INT_MAX)
    ensures LoadAlp(EncodeAlp(a) + more, was, heap) == Load(true, a, more)
  {
    var id, t := LE(a.fileId, 2), LE(a.timeRefMs, 8);
    Join(EncodeBuf(a.file), id + t, more);
    Join(id, t, more);
    BufRoundTrip(a.file, id + (t + more), was.file, heap);
    IntRoundTrip(a.fileId, a.timeRefMs, t + more, was.fileId, was.timeRefMs);
    IntRoundTrip(a.fileId, a.timeRefMs, more, was.fileId, was.timeRefMs);
  }

  lemma SvRoundTrip(v: Sv, more: seq<byte>, was: Sv, heap: nat)
    requires v.Stored(heap) && v.Stored(INT_MAX)
    ensures LoadSv(EncodeSv(v) + more, was, heap) == Load(true, v, more)
  {
    var alm, aop := EncodeBuf(v.alm), EncodeBuf(v.aop);
    Join(EncodeBuf(v.eph), alm + aop, more);
    Join(alm, aop, more);
    BufRoundTrip(v.eph, alm + (aop + more), was.eph, heap);
    BufRoundTrip(v.alm, aop + more, was.alm, heap);
    BufRoundTrip(v.aop, more, was.aop, heap);
  }

  lemma SvMore(v: Sv, tail: seq<byte>, svs: seq<Sv>, more: seq<byte>, was: seq<Sv>, heap: nat)
    requires v.Stored(heap) && v.Stored(INT_MAX) && was != [] && LoadSvs(tail, was[1..], heap) == Load(true, svs, more)
    ensures LoadSvs(EncodeSv(v) + tail, was, heap) == Load(true, [v] + svs, more)
  {
    SvRoundTrip(v, tail, was[0], heap);
  }

  lemma {:induction false} SvsRoundTrip(svs: seq<Sv>, more: seq<byte>, was: seq<Sv>, heap: nat)
    requires |was| == |svs| && forall k :: 0 <= k < |svs| ==> svs[k].Stored(heap) && svs[k].Stored(INT_MAX)
    ensures LoadSvs(EncodeSvs(svs) + more, was, heap) == Load(true, svs, more)
    decreases |svs|
  {
    if svs == [] {
      assert EncodeSvs(svs) + more == more;
    } else {
      var tail := EncodeSvs(svs[1..]) + more;
      Join(EncodeSv(svs[0]), EncodeSvs(svs[1..]), more);
      SvsRoundTrip(svs[1..], more, was[1..], heap);
      SvMore(svs[0], tail, svs[1..], more, was, heap);
      assert svs == [svs[0]] + svs[1..];
    }
  }

  /** Loading a saved file, whatever is in memory and whatever follows, restores every field of
      every record and stops exactly at the end of what was saved. */
  lemma SaveThenLoad(d: Db, more: seq<byte>, was: Db, heap: nat)
    requires d.Stored(heap) && d.Savable() && |was.sv| == NUM_GPS_SVS
    ensures LoadDb(EncodeDb(d) + more, was, heap) == Load(true, d, more)
  {
    var svs := EncodeSvs(d.sv);
    var hui, alp := EncodeBuf(d.hui), EncodeAlp(d.alp);
    Join(hui, alp + (d.pos + (d.time + svs)), more);
    Join(alp, d.pos + (d.time + svs), more);
    Join(d.pos, d.time + svs, more);
    Join(d.time, svs, more);
    BufRoundTrip(d.hui, alp + (d.pos + (d.time + (svs + more))), was.hui, heap);
    AlpRoundTrip(d.alp, d.pos + (d.time + (svs + more)), was.alp, heap);
    RawRoundTrip(d.pos, d.time + (svs + more), was.pos);
    RawRoundTrip(d.time, svs + more, was.time);
    SvsRoundTrip(d.sv, more, was.sv, heap);
  }

  // ------------------------------------------------- more file, same result; truncation

  /** r2 is r1 with more bytes behind. */
  predicate Extends<T(==)>(r1: Load<T>, r2: Load<T>, more: seq<byte>) {
    r1.ok ==> r2 == Load(true, r1.value, r1.rest + more)
  }

  lemma BufExtends(s: seq<byte>, more: seq<byte>, was: Buf, heap: nat)
    ensures Extends(LoadBuf(s, was, heap), LoadBuf(s + more, was, heap), more)
  {
    if 4 <= |s| {
      var n, t := FromLE(s[..4]), s[4..];
      assert (s + more)[..4] == s[..4] && (s + more)[4..] == t + more;
      if n <= |t| {
        assert (t + more)[..n] == t[..n] && (t + more)[n..] == t[n..] + more;
      }
    }
  }

  lemma RawExtends(s: seq<byte>, more: seq<byte>, was: seq<byte>)
    ensures Extends(LoadRaw(s, was), LoadRaw(s + more, was), more)
  {
    if |was| <= |s| {
      assert (s + more)[..|was|] == s[..|was|] && (s + more)[|was|..] == s[|was|..] + more;
    }
  }

  lemma AlpExtends(s: seq<byte>, more: seq<byte>, was: Alp, heap: nat)
    ensures Extends(LoadAlp(s, was, heap), LoadAlp(s + more, was, heap), more)
  {
    var f := LoadBuf(s, was.file, heap);
    BufExtends(s, more, was.file, heap);
    if f.ok {
      RawExtends(f.rest, more, LE(was.fileId, 2));
      RawExtends(LoadU2(f.rest, was.fileId).rest, more, LE(was.timeRefMs, 8));
    }
  }

  lemma SvExtends(s: seq<byte>, more: seq<byte>, was: Sv, heap: nat)
    ensures Extends(LoadSv(s, was, heap), LoadSv(s + more, was, heap), more)
  {
    var eph := LoadBuf(s, was.eph, heap);
    BufExtends(s, more, was.eph, heap);
    if eph.ok {
      BufExtends(eph.rest, more, was.alm, heap);
      BufExtends(LoadBuf(eph.rest, was.alm, heap).rest, more, was.aop, heap);
    }
  }

  lemma {:induction false} SvsExtends(s: seq<byte>, more: seq<byte>, was: seq<Sv>, heap: nat)
    ensures Extends(LoadSvs(s, was, heap), LoadSvs(s + more, was, heap), more)
    decreases |was|
  {
    if was == [] {
    } else {
      SvExtends(s, more, was[0], heap);
      SvsExtends(LoadSv(s, was[0], heap).rest, more, was[1..], heap);
    }
  }

  lemma DbExtends(s: seq<byte>, more: seq<byte>, was: Db, heap: nat)
    ensures Extends(LoadDb(s, was, heap), LoadDb(s + more, was, heap), more)
  {
    var hui := LoadBuf(s, was.hui, heap);
    BufExtends(s, more, was.hui, heap);
    if hui.ok {
      var alp := LoadAlp(hui.rest, was.alp, heap);
      AlpExtends(hui.rest, more, was.alp, heap);
      if alp.ok {
        var pos := LoadRaw(alp.rest, was.pos);
        RawExtends(alp.rest, more, was.pos);
        RawExtends(pos.rest, more, was.time);
        SvsExtends(LoadRaw(pos.rest, was.time).rest, more, was.sv, heap);
      }
    }
  }

  lemma SvLoadStored(s: seq<byte>, was: Sv, heap: nat, limit: nat)
    requires was.Stored(limit) && Min(heap, INT_MAX) <= limit
    ensures LoadSv(s, was, heap).value.Stored(limit)
  {
  }

  lemma AlpLoadStored(s: seq<byte>, was: Alp, heap: nat, limit: nat)
    requires was.file.Stored(limit) && Min(heap, INT_MAX) <= limit
    ensures LoadAlp(s, was, heap).value.file.Stored(limit)
  {
  }

  lemma {:induction false} SvsLoadStored(s: seq<byte>, was: seq<Sv>, heap: nat, limit: nat)
    requires Min(heap, INT_MAX) <= limit && forall k :: 0 <= k < |was| ==> was[k].Stored(limit)
    ensures forall k :: 0 <= k < |was| ==> LoadSvs(s, was, heap).value[k].Stored(limit)
    decreases |was|
  {
    if was == [] {
    } else {
      var v := LoadSv(s, was[0], heap);
      SvLoadStored(s, was[0], heap, limit);
      if v.ok {
        var vs := LoadSvs(v.rest, was[1..], heap);
        SvsLoadStored(v.rest, was[1..], heap, limit);
        assert forall k :: 0 < k < |was| ==> ([v.value] + vs.value)[k] == vs.value[k - 1];
      }
    }
  }

  /** Any file at all, read to the end or not, leaves every buffer well formed, and none longer
      than it was or than malloc and an int allow. */
  lemma LoadKeepsStored(s: seq<byte>, was: Db, heap: nat, limit: nat)
    requires was.Stored(limit) && Min(heap, INT_MAX) <= limit
    ensures LoadDb(s, was, heap).value.Stored(limit)
  {
    var hui := LoadBuf(s, was.hui, heap);
    if hui.ok {
      var alp := LoadAlp(hui.rest, was.alp, heap);
      AlpLoadStored(hui.rest, was.alp, heap, limit);
      if alp.ok {
        var pos := LoadRaw(alp.rest, was.pos);
        SvsLoadStored(LoadRaw(pos.rest, was.time).rest, was.sv, heap, limit);
      }
    }
  }

  /** Two loads that agree, on the result if they succeed. */
  predicate Same<T(==)>(r1: Load<T>, r2: Load<T>) {
    r1.ok == r2.ok && (r1.ok ==> r1 == r2)
  }

  lemma PartsIgnoreOld(s: seq<byte>, a: Buf, b: Buf, x: seq<byte>, y: seq<byte>, heap: nat)
    requires |x| == |y|
    ensures Same(LoadBuf(s, a, heap), LoadBuf(s, b, heap)) && Same(LoadRaw(s, x), LoadRaw(s, y))
  {
  }

  lemma AlpIgnoresOld(s: seq<byte>, a: Alp, b: Alp, heap: nat)
    ensures Same(LoadAlp(s, a, heap), LoadAlp(s, b, heap))
  {
    var f := LoadBuf(s, a.file, heap);
    PartsIgnoreOld(s, a.file, b.file, [], [], heap);
    if f.ok {
      var id := LoadU2(f.rest, a.fileId);
      PartsIgnoreOld(f.rest, NO_BUF, NO_BUF, LE(a.fileId, 2), LE(b.fileId, 2), heap);
      PartsIgnoreOld(id.rest, NO_BUF, NO_BUF, LE(a.timeRefMs, 8), LE(b.timeRefMs, 8), heap);
    }
  }

  lemma BufIgnoresOld(s: seq<byte>, a: Buf, b: Buf, heap: nat)
    ensures Same(LoadBuf(s, a, heap), LoadBuf(s, b, heap))
  {
  }

  lemma SvIgnoresOld(s: seq<byte>, a: Sv, b: Sv, heap: nat)
    ensures Same(LoadSv(s, a, heap), LoadSv(s, b, heap))
  {
    var eph := LoadBuf(s, a.eph, heap);
    BufIgnoresOld(s, a.eph, b.eph, heap);
    if eph.ok {
      BufIgnoresOld(eph.rest, a.alm, b.alm, heap);
      BufIgnoresOld(LoadBuf(eph.rest, a.alm, heap).rest, a.aop, b.aop, heap);
    }
  }

  lemma {:induction false} SvsIgnoreOld(s: seq<byte>, a: seq<Sv>, b: seq<Sv>, heap: nat)
    requires |a| == |b|
    ensures Same(LoadSvs(s, a, heap), LoadSvs(s, b, heap))
    decreases |a|
  {
    if a == [] {
    } else {
      SvIgnoresOld(s, a[0], b[0], heap);
      SvsIgnoreOld(LoadSv(s, a[0], heap).rest, a[1..], b[1..], heap);
    }
  }

  /** Whether a load succeeds, and what it then leaves, depends on the file only. */
  lemma LoadIgnoresOld(s: seq<byte>, a: Db, b: Db, heap: nat)
    requires |a.sv| == |b.sv|
    ensures Same(LoadDb(s, a, heap), LoadDb(s, b, heap))
  {
    var hui := LoadBuf(s, a.hui, heap);
    PartsIgnoreOld(s, a.hui, b.hui, [], [], heap);
    if hui.ok {
      var alp := LoadAlp(hui.rest, a.alp, heap);
      AlpIgnoresOld(hui.rest, a.alp, b.alp, heap);
      if alp.ok {
        var pos := LoadRaw(alp.rest, a.pos);
        PartsIgnoreOld(alp.rest, NO_BUF, NO_BUF, a.pos, b.pos, heap);
        PartsIgnoreOld(pos.rest, NO_BUF, NO_BUF, a.time, b.time, heap);
        SvsIgnoreOld(LoadRaw(pos.rest, a.time).rest, a.sv, b.sv, heap);
      }
    }
  }

  lemma LoadedIsSavable(s: seq<byte>, was: Db, empty: Db, heap: nat)
    requires LoadDb(s, was, heap).ok && empty.Savable() && |was.sv| == NUM_GPS_SVS
    ensures LoadDb(s, was, heap).value.Savable()
  {
    LoadIgnoresOld(s, was, empty, heap);
    LoadKeepsStored(s, empty, heap, INT_MAX);
  }

  // ------------------------------------------------------- the same load once more

  lemma PartsAgain(s: seq<byte>, was: Buf, field: seq<byte>, heap: nat)
    ensures LoadBuf(s, LoadBuf(s, was, heap).value, heap) == LoadBuf(s, was, heap)
    ensures LoadRaw(s, LoadRaw(s, field).value) == LoadRaw(s, field)
  {
  }

  lemma IntsAgain(s: seq<byte>, id: U2, t: U8)
    ensures LoadU2(s, LoadU2(s, id).value) == LoadU2(s, id)
    ensures LoadU8(s, LoadU8(s, t).value) == LoadU8(s, t)
  {
    PartsAgain(s, NO_BUF, LE(id, 2), 0);
    PartsAgain(s, NO_BUF, LE(t, 8), 0);
    LEofFromLE(LoadRaw(s, LE(id, 2)).value);
    LEofFromLE(LoadRaw(s, LE(t, 8)).value);
  }

  lemma AlpAgain(s: seq<byte>, was: Alp, heap: nat)
    ensures LoadAlp(s, LoadAlp(s, was, heap).value, heap) == LoadAlp(s, was, heap)
  {
    var f := LoadBuf(s, was.file, heap);
    PartsAgain(s, was.file, [], heap);
    IntsAgain(f.rest, was.fileId, was.timeRefMs);
    IntsAgain(LoadU2(f.rest, was.fileId).rest, was.fileId, was.timeRefMs);
  }

  lemma SvAgain(s: seq<byte>, was: Sv, heap: nat)
    ensures LoadSv(s, LoadSv(s, was, heap).value, heap) == LoadSv(s, was, heap)
  {
    var eph := LoadBuf(s, was.eph, heap);
    var alm := LoadBuf(eph.rest, was.alm, heap);
    PartsAgain(s, was.eph, [], heap);
    PartsAgain(eph.rest, was.alm, [], heap);
    PartsAgain(alm.rest, was.aop, [], heap);
  }

  lemma {:induction false} SvsAgain(s: seq<byte>, was: seq<Sv>, heap: nat)
    ensures LoadSvs(s, LoadSvs(s, was, heap).value, heap) == LoadSvs(s, was, heap)
    decreases |was|
  {
    if was == [] {
    } else {
      var v := LoadSv(s, was[0], heap);
      SvAgain(s, was[0], heap);
      SvsAgain(v.rest, was[1..], heap);
    }
  }

  /** Loading the same file again changes nothing more, whether it succeeds or not. */
  lemma LoadAgain(s: seq<byte>, was: Db, heap: nat)
    ensures LoadDb(s, LoadDb(s, was, heap).value, heap) == LoadDb(s, was, heap)
  {
    var hui := LoadBuf(s, was.hui, heap);
    PartsAgain(s, was.hui, [], heap);
    if hui.ok {
      var alp := LoadAlp(hui.rest, was.alp, heap);
      AlpAgain(hui.rest, was.alp, heap);
      if alp.ok {
        var pos := LoadRaw(alp.rest, was.pos);
        PartsAgain(alp.rest, NO_BUF, was.pos, heap);
        PartsAgain(pos.rest, NO_BUF, was.time, heap);
        SvsAgain(LoadRaw(pos.rest, was.time).rest, was.sv, heap);
      }
    }
  }

  // --------------------------------------------------- a file over its own database

  /** Loading v's own encoding over v: succeeds exactly when v is savable, and leaves v in any case. */
  predicate Own<T(==)>(r: Load<T>, v: T, savable: bool, more: seq<byte>) {
    r.value == v && r.ok == savable && (r.ok ==> r.rest == more)
  }

  lemma OwnAlp(a: Alp, more: seq<byte>, heap: nat)
    requires a.file.Stored(heap)
    ensures Own(LoadAlp(EncodeAlp(a) + more, a, heap), a, a.file.Stored(INT_MAX), more)
  {
    if a.file.Stored(INT_MAX) {
      AlpRoundTrip(a, more, a, heap);
    } else {
      var rest := LE(a.fileId, 2) + LE(a.timeRefMs, 8);
      Join(EncodeBuf(a.file), rest, more);
      BufSavedExactly(a.file, rest + more, a.file, heap);
    }
  }

  lemma OwnSv(v: Sv, more: seq<byte>, heap: nat)
    requires v.Stored(heap)
    ensures Own(LoadSv(EncodeSv(v) + more, v, heap), v, v.Stored(INT_MAX), more)
  {
    var alm, aop := EncodeBuf(v.alm), EncodeBuf(v.aop);
    Join(EncodeBuf(v.eph), alm + aop, more);
    Join(alm, aop, more);
    BufSavedExactly(v.eph, alm + (aop + more), v.eph, heap);
    BufSavedExactly(v.alm, aop + more, v.alm, heap);
    BufSavedExactly(v.aop, more, v.aop, heap);
  }

  predicate AllStored(svs: seq<Sv>, limit: nat) {
    forall k :: 0 <= k < |svs| ==> svs[k].Stored(limit)
  }

  lemma AllStoredSplit(svs: seq<Sv>, limit: nat)
    requires svs != []
    ensures AllStored(svs, limit) <==> svs[0].Stored(limit) && AllStored(svs[1..], limit)
  {
    assert svs == [svs[0]] + svs[1..];
  }

  lemma OwnMore(v: Sv, svs: seq<Sv>, tail: seq<byte>, more: seq<byte>, heap: nat, savable: bool)
    requires v.Stored(heap) && Own(LoadSvs(tail, svs, heap), svs, savable, more)
    ensures Own(LoadSvs(EncodeSv(v) + tail, [v] + svs, heap), [v] + svs, v.Stored(INT_MAX) && savable, more)
  {
    OwnSv(v, tail, heap);
    assert ([v] + svs)[1..] == svs;
  }

  lemma {:induction false} OwnSvs(svs: seq<Sv>, more: seq<byte>, heap: nat)
    requires AllStored(svs, heap)
    ensures Own(LoadSvs(EncodeSvs(svs) + more, svs, heap), svs, AllStored(svs, INT_MAX), more)
    decreases |svs|
  {
    if svs == [] {
      assert EncodeSvs(svs) + more == more;
    } else {
      AllStoredSplit(svs, heap);
      AllStoredSplit(svs, INT_MAX);
      Join(EncodeSv(svs[0]), EncodeSvs(svs[1..]), more);
      OwnSvs(svs[1..], more, heap);
      OwnMore(svs[0], svs[1..], EncodeSvs(svs[1..]) + more, more, heap, AllStored(svs[1..], INT_MAX));
      assert svs == [svs[0]] + svs[1..];
    }
  }

  lemma OwnDb(d: Db, heap: nat)
    requires d.Stored(heap)
    ensures Own(LoadDb(EncodeDb(d), d, heap), d, d.Savable(), [])
  {
    var svs := EncodeSvs(d.sv);
    var hui, alp := EncodeBuf(d.hui), EncodeAlp(d.alp);
    BufSavedExactly(d.hui, alp + (d.pos + (d.time + svs)), d.hui, heap);
    OwnAlp(d.alp, d.pos + (d.time + svs), heap);
    RawRoundTrip(d.pos, d.time + svs, d.pos);
    RawRoundTrip(d.time, svs, d.time);
    OwnSvs(d.sv, [], heap);
    assert svs + [] == svs;
  }

  /** A database is read back from its own file exactly when it is savable. */
  lemma SavedFileLoadsExactly(d: Db, was: Db, heap: nat)
    requires d.Stored(heap) && |was.sv| == NUM_GPS_SVS
    ensures LoadDb(EncodeDb(d), was, heap).ok <==> d.Savable()
    ensures d.Savable() ==> LoadDb(EncodeDb(d), was, heap) == Load(true, d, [])
  {
    OwnDb(d, heap);
    LoadIgnoresOld(EncodeDb(d), d, was, heap);
  }

  /** Every strict prefix of a saved file is recognised as incomplete. */
  lemma TruncatedFileRejected(d: Db, cut: nat, was: Db, heap: nat)
    requires d.Stored(heap) && |was.sv| == NUM_GPS_SVS
    requires cut < |EncodeDb(d)|
    ensures !LoadDb(EncodeDb(d)[..cut], was, heap).ok
  {
    var s := EncodeDb(d);
    assert s[..cut] + s[cut..] == s;
    SavedFileLoadsExactly(d, was, heap);
    DbExtends(s[..cut], s[cut..], was, heap);
  }
}
