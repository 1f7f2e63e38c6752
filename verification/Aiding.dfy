/** The aiding database under its dirty flag: every operation that changes it, saving and loading
    it, and what holds over all runs (ublox_gps_hal/ubxgpsstate.cpp). */
module Aiding {
  import opened Bytes
  import opened Prelude
  import opened AidingDb
  import Alp

  /** persistence is the PERSISTENCE setting; a malloc of more than heap bytes fails. */
  datatype Config = Config(persistence: bool, heap: nat)

  /** m_Db with its two flags. */
  datatype Mem = Mem(db: Db, changed: bool, cleared: bool)

  // -------------------------------------------------------------- the operations

  /** replaceBuf: false when the data is already there or cannot be allocated. */
  function Replace(b: Buf, data: seq<byte>, heap: nat): (bool, Buf) {
    if b.p == Some(data) && b.i == |data| then (false, b)
    else if |data| > heap then (false, b)
    else (true, Buf(Some(data), |data|))
  }

  datatype Slot = Hui | Alm(k: nat) | Eph(k: nat) | Aop(k: nat)

  predicate SlotOk(s: Slot) {
    s.Hui? || s.k < NUM_GPS_SVS
  }

  function BufAt(d: Db, s: Slot): Buf
    requires |d.sv| == NUM_GPS_SVS && SlotOk(s)
  {
    match s
    case Hui => d.hui
    case Alm(k) => d.sv[k].alm
    case Eph(k) => d.sv[k].eph
    case Aop(k) => d.sv[k].aop
  }

  function WithBuf(d: Db, s: Slot, b: Buf): Db
    requires |d.sv| == NUM_GPS_SVS && SlotOk(s)
  {
    match s
    case Hui => d.(hui := b)
    case Alm(k) => d.(sv := d.sv[k := d.sv[k].(alm := b)])
    case Eph(k) => d.(sv := d.sv[k := d.sv[k].(eph := b)])
    case Aop(k) => d.(sv := d.sv[k := d.sv[k].(aop := b)])
  }

  datatype Route = ToSlot(slot: Slot) | ToAlp | Nowhere

  /** The messages about one satellite.  Satellite 0 wraps around to a large index. */
  function SatelliteRoute(msg: seq<byte>): (r: Route)
    requires |msg| >= 9
    ensures r.ToSlot? ==> SlotOk(r.slot)
    ensures !r.ToAlp?
  {
    if !(1 <= msg[6] <= NUM_GPS_SVS) then Nowhere
    else if msg[3] == 0x30 && |msg| > 16 then ToSlot(Alm(msg[6] - 1))
    else if msg[3] == 0x31 && |msg| > 16 then ToSlot(Eph(msg[6] - 1))
    else if msg[3] == 0x33 && |msg| > 9 then ToSlot(Aop(msg[6] - 1))
    else Nowhere
  }

  /** Where onNewUbxMsg sends a message.  `injected` messages come from the AssistNow Online
      download, which passes the state -1. */
  function RouteOf(injected: bool, msg: seq<byte>): (r: Route)
    ensures r.ToSlot? ==> SlotOk(r.slot) && |msg| >= 9
  {
    if |msg| < 9 || msg[2] != Alp.CLS_AID then Nowhere
    else if msg[3] == 0x02 then ToSlot(Hui)
    else if msg[3] == 0x01 then Nowhere
    else if msg[3] == Alp.ID_ALP && !injected then ToAlp
    else SatelliteRoute(msg)
  }

  function AlpBytes(d: Db): seq<byte> {
    if d.alp.file.p.Some? then d.alp.file.p.value else []
  }

  /** A message is n bytes at the front of mem, which goes on behind it.  The ALP handler never
      looks at n: mem holds all it copies out. */
  predicate MsgOk(d: Db, injected: bool, mem: seq<byte>, n: U4) {
    && n <= |mem|
    && (RouteOf(injected, mem[..n]).ToAlp? ==> Alp.Complete(AlpBytes(d), d.alp.fileId, mem))
  }

  /** onNewUbxAlpMsg, as far as memory is concerned. */
  function OnAlpMsg(m: Mem, msg: seq<byte>): Mem
    requires Alp.Complete(AlpBytes(m.db), m.db.alp.fileId, msg)
  {
    var file := AlpBytes(m.db);
    if Alp.DecideOn(file, m.db.alp.fileId, msg).Update? then
      var after := Alp.FileAfter(file, m.db.alp.fileId, msg);
      m.(db := m.db.(alp := m.db.alp.(file := Buf(Some(after), m.db.alp.file.i))), changed := true)
    else m
  }

  /** replaceBuf on one buffer of the database, with the flag it sets. */
  function StoreIn(c: Config, m: Mem, s: Slot, msg: seq<byte>): Mem
    requires |m.db.sv| == NUM_GPS_SVS && SlotOk(s)
  {
    var (stored, b) := Replace(BufAt(m.db, s), msg, c.heap);
    m.(db := WithBuf(m.db, s, b), changed := m.changed || stored)
  }

  function OnMsg(c: Config, m: Mem, injected: bool, mem: seq<byte>, n: U4): Mem
    requires |m.db.sv| == NUM_GPS_SVS && MsgOk(m.db, injected, mem, n)
  {
    match RouteOf(injected, mem[..n])
    case Nowhere => m
    case ToAlp => OnAlpMsg(m, mem)
    case ToSlot(s) => StoreIn(c, m, s, mem[..n])
  }

  /** The two structures as raw memory; the padding keeps whatever it held. */
  function PosImageOf(p: PosImage, latDeg: U8, lonDeg: U8, accM: U4, timeRefMs: U8): PosImage {
    LE(latDeg, 8) + LE(lonDeg, 8) + LE(accM, 4) + p[20..24] + LE(timeRefMs, 8)
  }

  function TimeImageOf(t: TimeImage, timeUtcMs: U8, timeRefMs: U8, accMs: U4): TimeImage {
    LE(timeUtcMs, 8) + LE(timeRefMs, 8) + LE(accMs, 4) + t[20..24]
  }

  lemma FieldsReadBack(a: nat, b: nat, c: nat)
    ensures a < 0x1_0000_0000_0000_0000 ==> FromLE(LE(a, 8)) == a
    ensures b < 0x1_0000_0000_0000_0000 ==> FromLE(LE(b, 8)) == b
    ensures c < 0x1_0000_0000 ==> FromLE(LE(c, 4)) == c
  {
    Bounds();
    if a < 0x1_0000_0000_0000_0000 {
      FromLEofLE(a, 8);
    }
    if b < 0x1_0000_0000_0000_0000 {
      FromLEofLE(b, 8);
    }
    if c < 0x1_0000_0000 {
      FromLEofLE(c, 4);
    }
  }

  lemma Slices(a: seq<byte>, b: seq<byte>, c: seq<byte>, pad: seq<byte>, d: seq<byte>)
    requires |a| == |b| == 8 && |c| == |pad| == 4
    ensures var s := a + b + c + pad + d;
            s[..8] == a && s[8..16] == b && s[16..20] == c && s[20..24] == pad && s[24..] == d
  {
  }

  /** The fields are read back from the image and its padding is kept. */
  lemma TimeImageHolds(t: TimeImage, timeUtcMs: U8, timeRefMs: U8, accMs: U4)
    ensures var r := TimeImageOf(t, timeUtcMs, timeRefMs, accMs);
            && FromLE(r[..8]) == timeUtcMs && FromLE(r[8..16]) == timeRefMs
            && FromLE(r[16..20]) == accMs && r[20..] == t[20..]
  {
    FieldsReadBack(timeUtcMs, timeRefMs, accMs);
    var a, b, c := LE(timeUtcMs, 8), LE(timeRefMs, 8), LE(accMs, 4);
    Slices(a, b, c, t[20..24], []);
    assert a + b + c + t[20..24] + [] == a + b + c + t[20..24];
  }

  lemma PosImageHolds(p: PosImage, latDeg: U8, lonDeg: U8, accM: U4, timeRefMs: U8)
    ensures var r := PosImageOf(p, latDeg, lonDeg, accM, timeRefMs);
            && FromLE(r[..8]) == latDeg && FromLE(r[8..16]) == lonDeg
            && FromLE(r[16..20]) == accM && r[20..24] == p[20..24] && FromLE(r[24..]) == timeRefMs
  {
    FieldsReadBack(latDeg, lonDeg, accM);
    FieldsReadBack(timeRefMs, 0, 0);
    Slices(LE(latDeg, 8), LE(lonDeg, 8), LE(accM, 4), p[20..24], LE(timeRefMs, 8));
  }

  function OnPutPos(m: Mem, latDeg: U8, lonDeg: U8, accM: U4, now: U8): Mem {
    m.(db := m.db.(pos := PosImageOf(m.db.pos, latDeg, lonDeg, accM, now)), changed := true)
  }

  function OnPutTime(m: Mem, timeUtcMs: U8, timeRefMs: U8, accMs: U4): Mem {
    m.(db := m.db.(time := TimeImageOf(m.db.time, timeUtcMs, timeRefMs, accMs)), changed := true)
  }

  /** putAlpFile: a new file gets the next 16-bit id. */
  function OnPutAlp(c: Config, m: Mem, data: seq<byte>, now: U8): Mem {
    if !Alp.AcceptableFile(data) then m
    else
      var (stored, b) := Replace(m.db.alp.file, data, c.heap);
      if !stored then m
      else m.(db := m.db.(alp := AidingDb.Alp(b, (m.db.alp.fileId + 1) % 0x1_0000, now)), changed := true)
  }

  /** The GPS_DELETE bits that deleteAidData looks at. */
  datatype Flags = Flags(position: bool, time: bool, ephemeris: bool, sadata: bool, almanac: bool,
                         iono: bool, utc: bool, health: bool, svdir: bool, svsteer: bool)

  function Free(b: Buf): Buf {
    if b.p.Some? then NO_BUF else b
  }

  function Cleared(v: Sv, f: Flags): Sv {
    Sv(if f.ephemeris then Free(v.eph) else v.eph,
       if f.almanac then Free(v.alm) else v.alm,
       if f.sadata then Free(v.aop) else v.aop)
  }

  function ClearedAll(svs: seq<Sv>, f: Flags): (r: seq<Sv>)
    ensures |r| == |svs| && forall k :: 0 <= k < |svs| ==> r[k] == Cleared(svs[k], f)
  {
    if svs == [] then [] else [Cleared(svs[0], f)] + ClearedAll(svs[1..], f)
  }

  /** What memset(.., 0, n) leaves. */
  function Zeros(n: nat): (s: seq<byte>)
    ensures |s| == n && forall k :: 0 <= k < n ==> s[k] == 0
  {
    seq(n, i => 0)
  }

  function DeletedFrom(d: Db, f: Flags): Db {
    Db(if f.iono || f.utc || f.health then Free(d.hui) else d.hui,
       if f.svdir || f.svsteer then d.alp.(file := Free(d.alp.file)) else d.alp,
       if f.position then Zeros(POS_SIZE) else d.pos,
       if f.time then Zeros(TIME_SIZE) else d.time,
       ClearedAll(d.sv, f))
  }

  function OnDelete(m: Mem, f: Flags): Mem {
    m.(changed := true, db := DeletedFrom(m.db, f))
  }

  /** saveAiding: opens the file empty, removes it again when it cannot be written whole.  `room`
      is how many bytes fit. */
  function OnSave(c: Config, m: Mem, file: Option<seq<byte>>, openOk: bool, room: nat): (Mem, Option<seq<byte>>) {
    if !(m.changed && c.persistence) || !openOk then (m, file)
    else if |EncodeDb(m.db)| <= room then (m.(changed := false), Some(EncodeDb(m.db)))
    else (m, None)
  }

  predicate LoadTried(c: Config, m: Mem, file: Option<seq<byte>>, openOk: bool) {
    m.cleared && c.persistence && openOk && file.Some?
  }

  /** loadAiding: a failure half-way keeps what was read until then. */
  function OnLoad(c: Config, m: Mem, file: Option<seq<byte>>, openOk: bool): Mem {
    if !LoadTried(c, m, file, openOk) then m
    else
      var r := LoadDb(file.value, m.db, c.heap);
      m.(db := r.value, cleared := m.cleared && !r.ok)
  }

  // -------------------------------------------------------------- all the runs

  datatype Op =
    | Message(injected: bool, mem: seq<byte>, n: U4)
    | PutPos(latDeg: U8, lonDeg: U8, accM: U4, now: U8)
    | PutTime(timeUtcMs: U8, timeRefMs: U8, accMs: U4)
    | PutAlp(data: seq<byte>, now: U8)
    | Delete(flags: Flags)
    | Save(openOk: bool, room: nat)
    | LoadFile(openOk: bool)

  /** `synced` remembers that a save or a load has succeeded. */
  datatype State = State(mem: Mem, file: Option<seq<byte>>, synced: bool)

  function NoSvs(n: nat): (s: seq<Sv>)
    ensures |s| == n && forall k :: 0 <= k < n ==> s[k] == Sv(NO_BUF, NO_BUF, NO_BUF)
  {
    seq(n, i => Sv(NO_BUF, NO_BUF, NO_BUF))
  }

  function EmptyDb(): Db {
    Db(NO_BUF, AidingDb.Alp(NO_BUF, 0, 0), Zeros(POS_SIZE), Zeros(TIME_SIZE), NoSvs(NUM_GPS_SVS))
  }

  /** The constructor's state; the file is whatever an earlier process left, or none. */
  function Start(file: Option<seq<byte>>): State {
    State(Mem(EmptyDb(), false, true), file, false)
  }

  predicate Possible(s: State, op: Op) {
    match op
    case Message(injected, mem, n) => MsgOk(s.mem.db, injected, mem, n)
    case _ => true
  }

  function Reloaded(s: State, mem: Mem): State {
    s.(mem := mem, synced := s.synced || (s.mem.cleared && !mem.cleared))
  }

  function Apply(c: Config, s: State, op: Op): State
    requires |s.mem.db.sv| == NUM_GPS_SVS && Possible(s, op)
  {
    match op
    case Message(injected, mem, n) => s.(mem := OnMsg(c, s.mem, injected, mem, n))
    case PutPos(lat, lon, acc, now) => s.(mem := OnPutPos(s.mem, lat, lon, acc, now))
    case PutTime(utc, ref, acc) => s.(mem := OnPutTime(s.mem, utc, ref, acc))
    case PutAlp(data, now) => s.(mem := OnPutAlp(c, s.mem, data, now))
    case Delete(flags) => s.(mem := OnDelete(s.mem, flags))
    case Save(openOk, room) =>
      var (mem, file) := OnSave(c, s.mem, s.file, openOk, room);
      State(mem, file, s.synced || (s.mem.changed && !mem.changed))
    case LoadFile(openOk) => Reloaded(s, OnLoad(c, s.mem, s.file, openOk))
  }

  /** The file decodes to d.  Whatever else is in memory does not matter: see AnyMemoryWillDo. */
  predicate FileHolds(c: Config, file: Option<seq<byte>>, d: Db) {
    file.Some? && var r := LoadDb(file.value, d, c.heap); r.ok && r.value == d
  }

  /** Loading a file that holds d succeeds over any memory and gives d. */
  lemma AnyMemoryWillDo(c: Config, file: seq<byte>, d: Db, was: Db)
    requires FileHolds(c, Some(file), d) && |was.sv| == |d.sv|
    ensures LoadDb(file, was, c.heap).ok && LoadDb(file, was, c.heap).value == d
  {
    LoadIgnoresOld(file, d, was, c.heap);
  }

  lemma EmptyStored(limit: nat)
    ensures EmptyDb().Stored(limit)
  {
  }

  /** Every load accepted lengths that an int can express. */
  lemma HoldsSavable(c: Config, file: Option<seq<byte>>, d: Db)
    requires FileHolds(c, file, d) && |d.sv| == NUM_GPS_SVS
    ensures d.Savable()
  {
    EmptyStored(INT_MAX);
    LoadedIsSavable(file.value, d, EmptyDb(), c.heap);
  }

  /** Loading the file over d leaves d, and succeeds if d is savable at all. */
  ghost predicate FileKeeps(c: Config, file: Option<seq<byte>>, d: Db) {
    file.Some? && var r := LoadDb(file.value, d, c.heap); r.value == d && (r.ok <==> d.Savable())
  }

  lemma KeepsIsHolds(c: Config, file: Option<seq<byte>>, d: Db)
    requires |d.sv| == NUM_GPS_SVS
    ensures FileHolds(c, file, d) <==> FileKeeps(c, file, d) && d.Savable()
  {
    if FileHolds(c, file, d) {
      HoldsSavable(c, file, d);
    }
  }

  ghost predicate Inv(c: Config, s: State) {
    && s.mem.db.Stored(c.heap)
    && (s.synced && !s.mem.changed ==> FileKeeps(c, s.file, s.mem.db))
  }

  lemma ReplaceKeepsStored(b: Buf, data: seq<byte>, heap: nat)
    requires b.Stored(heap) && 0 < |data| <= UINT_MAX
    ensures Replace(b, data, heap).1.Stored(heap)
    ensures !Replace(b, data, heap).0 ==> Replace(b, data, heap).1 == b
  {
  }

  lemma WithBufStored(d: Db, s: Slot, b: Buf, heap: nat)
    requires d.Stored(heap) && SlotOk(s) && b.Stored(heap)
    ensures WithBuf(d, s, b).Stored(heap)
    ensures b == BufAt(d, s) ==> WithBuf(d, s, b) == d
  {
    if !s.Hui? {
      assert d.sv[s.k].Stored(heap);
      assert b == BufAt(d, s) ==> WithBuf(d, s, b).sv == d.sv;
    }
  }

  /** A message keeps the buffers well formed, and one that leaves the flag alone leaves the
      database alone. */
  lemma MsgKeepsStored(c: Config, m: Mem, injected: bool, mem: seq<byte>, n: U4)
    requires m.db.Stored(c.heap) && MsgOk(m.db, injected, mem, n)
    ensures OnMsg(c, m, injected, mem, n).db.Stored(c.heap)
    ensures !OnMsg(c, m, injected, mem, n).changed ==> OnMsg(c, m, injected, mem, n).db == m.db
  {
    match RouteOf(injected, mem[..n])
    case Nowhere =>
    case ToAlp => Alp.UpdateTouchesOnlyItsRange(AlpBytes(m.db), m.db.alp.fileId, mem);
    case ToSlot(slot) =>
      var b := BufAt(m.db, slot);
      assert b.Stored(c.heap) by {
        assert slot.Hui? || m.db.sv[slot.k].Stored(c.heap);
      }
      ReplaceKeepsStored(b, mem[..n], c.heap);
      WithBufStored(m.db, slot, Replace(b, mem[..n], c.heap).1, c.heap);
  }

  /** The file that a save of d writes holds exactly d, and that only if d is savable. */
  lemma SavedFileHolds(c: Config, d: Db, other: Db)
    requires d.Stored(c.heap) && |other.sv| == NUM_GPS_SVS
    ensures FileHolds(c, Some(EncodeDb(d)), other) <==> d == other && d.Savable()
    ensures FileKeeps(c, Some(EncodeDb(d)), d)
  {
    SavedFileLoadsExactly(d, other, c.heap);
    OwnDb(d, c.heap);
  }

  /** A save either leaves the flag set, or leaves a file that holds the database if that is
      savable. */
  lemma SaveWorks(c: Config, m: Mem, file: Option<seq<byte>>, openOk: bool, room: nat)
    requires m.db.Stored(c.heap)
    ensures var (after, left) := OnSave(c, m, file, openOk, room);
            && after.db == m.db
            && (m.changed && !after.changed ==>
                  FileKeeps(c, left, m.db) && (FileHolds(c, left, m.db) <==> m.db.Savable()))
            && (!m.changed ==> after == m && left == file)
  {
    SavedFileHolds(c, m.db, m.db);
  }

  /** A save is tried when something changed, persistence is on and the file opens; then there is a
      file exactly when the whole database found room, and the flag is clear exactly then. */
  lemma SavesExactly(c: Config, m: Mem, file: Option<seq<byte>>, openOk: bool, room: nat)
    ensures var (after, left) := OnSave(c, m, file, openOk, room);
            && after.db == m.db && after.cleared == m.cleared
            && (m.changed && c.persistence && openOk ==>
                  && left == (if |EncodeDb(m.db)| <= room then Some(EncodeDb(m.db)) else None)
                  && (after.changed <==> left.None?))
            && (!(m.changed && c.persistence && openOk) ==> after == m && left == file)
  {
  }

  lemma SaveKeepsInv(c: Config, s: State, openOk: bool, room: nat)
    requires Inv(c, s)
    ensures Inv(c, Apply(c, s, Save(openOk, room)))
  {
    SaveWorks(c, s.mem, s.file, openOk, room);
  }

  /** A load that succeeds leaves what the file holds; one that fails shows that it held nothing. */
  lemma LoadWorks(c: Config, m: Mem, file: Option<seq<byte>>, openOk: bool)
    requires m.db.Stored(c.heap)
    ensures var after := OnLoad(c, m, file, openOk);
            && after.db.Stored(c.heap) && after.changed == m.changed
            && (m.cleared && !after.cleared ==> FileHolds(c, file, after.db))
            && (FileKeeps(c, file, m.db) ==> after.db == m.db)
  {
    if LoadTried(c, m, file, openOk) {
      var r := LoadDb(file.value, m.db, c.heap);
      LoadKeepsStored(file.value, m.db, c.heap, c.heap);
      LoadIgnoresOld(file.value, m.db, r.value, c.heap);
    }
  }

  lemma ReloadKeepsInv(c: Config, s: State, mem: Mem)
    requires Inv(c, s) && mem.db.Stored(c.heap) && mem.changed == s.mem.changed
    requires s.mem.cleared && !mem.cleared ==> FileHolds(c, s.file, mem.db)
    requires FileKeeps(c, s.file, s.mem.db) ==> mem.db == s.mem.db
    ensures Inv(c, Reloaded(s, mem))
  {
    KeepsIsHolds(c, s.file, mem.db);
  }

  lemma LoadKeepsInv(c: Config, s: State, openOk: bool)
    requires Inv(c, s)
    ensures Inv(c, Reloaded(s, OnLoad(c, s.mem, s.file, openOk)))
  {
    LoadWorks(c, s.mem, s.file, openOk);
    ReloadKeepsInv(c, s, OnLoad(c, s.mem, s.file, openOk));
  }

  lemma DeleteKeepsStored(d: Db, f: Flags, heap: nat)
    requires d.Stored(heap)
    ensures DeletedFrom(d, f).Stored(heap)
  {
    forall k | 0 <= k < |d.sv|
      ensures ClearedAll(d.sv, f)[k].Stored(heap)
    {
      assert d.sv[k].Stored(heap);
    }
  }

  /** Each flag deletes its own data and leaves all other data alone; the ALP file keeps its number
      and its time stamp. */
  lemma DeletesExactly(d: Db, f: Flags, k: nat, heap: nat)
    requires d.Stored(heap) && k < 32
    ensures var r, was := DeletedFrom(d, f), d.sv[k];
            && r.pos == (if f.position then seq(32, i => 0) else d.pos)
            && r.time == (if f.time then seq(24, i => 0) else d.time)
            && r.hui == (if f.iono || f.utc || f.health then Buf(None, 0) else d.hui)
            && r.alp.file == (if f.svdir || f.svsteer then Buf(None, 0) else d.alp.file)
            && r.alp.fileId == d.alp.fileId && r.alp.timeRefMs == d.alp.timeRefMs
            && |r.sv| == 32
            && r.sv[k].eph == (if f.ephemeris then Buf(None, 0) else was.eph)
            && r.sv[k].alm == (if f.almanac then Buf(None, 0) else was.alm)
            && r.sv[k].aop == (if f.sadata then Buf(None, 0) else was.aop)
  {
    assert d.sv[k].Stored(heap);
  }

  lemma ApplyKeepsInv(c: Config, s: State, op: Op)
    requires Inv(c, s) && Possible(s, op)
    ensures Inv(c, Apply(c, s, op))
  {
    match op
    case Message(injected, mem, n) => MsgKeepsStored(c, s.mem, injected, mem, n);
    case PutPos(_, _, _, _) =>
    case PutTime(_, _, _) =>
    case PutAlp(data, _) =>
      if Alp.AcceptableFile(data) {
        Alp.AcceptableSize(data);
        ReplaceKeepsStored(s.mem.db.alp.file, data, c.heap);
      }
    case Delete(f) => DeleteKeepsStored(s.mem.db, f, c.heap);
    case Save(openOk, room) => SaveKeepsInv(c, s, openOk, room);
    case LoadFile(openOk) => LoadKeepsInv(c, s, openOk);
  }

  /** State i + 1 follows from state i by operation i. */
  ghost predicate Follows(c: Config, states: seq<State>, ops: seq<Op>, i: nat)
    requires |states| == |ops| + 1 && i < |ops|
  {
    && |states[i].mem.db.sv| == NUM_GPS_SVS && Possible(states[i], ops[i])
    && states[i + 1] == Apply(c, states[i], ops[i])
  }

  ghost predicate Linked(c: Config, states: seq<State>, ops: seq<Op>) {
    |states| == |ops| + 1 && forall i: nat :: i < |ops| ==> Follows(c, states, ops, i)
  }

  /** states is a run of the system from the constructor on. */
  ghost predicate IsRun(c: Config, file: Option<seq<byte>>, states: seq<State>, ops: seq<Op>) {
    Linked(c, states, ops) && states[0] == Start(file)
  }

  lemma {:induction false} RunKeepsInv(c: Config, states: seq<State>, ops: seq<Op>, n: nat)
    requires Linked(c, states, ops) && Inv(c, states[0]) && n <= |ops|
    ensures Inv(c, states[n])
  {
    if n == 0 {
    } else {
      RunKeepsInv(c, states, ops, n - 1);
      assert Follows(c, states, ops, n - 1);
      ApplyKeepsInv(c, states[n - 1], ops[n - 1]);
    }
  }

  /** Over every run: once a save or a load has succeeded, a clear dirty flag means that the file
      decodes to what is in memory, unless a block in memory is too long to be saved. */
  lemma CleanMeansSaved(c: Config, file: Option<seq<byte>>, states: seq<State>, ops: seq<Op>)
    requires IsRun(c, file, states, ops)
    ensures var s := states[|ops|];
            && s.mem.db.Stored(c.heap)
            && (s.synced && !s.mem.changed ==> (FileHolds(c, s.file, s.mem.db) <==> s.mem.db.Savable()))
  {
    RunKeepsInv(c, states, ops, |ops|);
    KeepsIsHolds(c, states[|ops|].file, states[|ops|].mem.db);
  }

  lemma LoadsOver(c: Config, m: Mem, file: Option<seq<byte>>, d: Db)
    requires LoadTried(c, m, file, true) && |m.db.sv| == NUM_GPS_SVS && FileHolds(c, file, d)
    requires |d.sv| == NUM_GPS_SVS
    ensures OnLoad(c, m, file, true) == Mem(d, m.changed, false)
  {
    AnyMemoryWillDo(c, file.value, d, m.db);
  }

  lemma LoadStep(c: Config, s: State)
    requires |s.mem.db.sv| == NUM_GPS_SVS
    ensures Apply(c, s, LoadFile(true)) == Reloaded(s, OnLoad(c, s.mem, s.file, true))
  {
  }

  lemma ReloadedOver(c: Config, s: State, d: Db)
    requires LoadTried(c, s.mem, s.file, true) && |s.mem.db.sv| == NUM_GPS_SVS
    requires FileHolds(c, s.file, d) && |d.sv| == NUM_GPS_SVS
    ensures Reloaded(s, OnLoad(c, s.mem, s.file, true)) == State(Mem(d, s.mem.changed, false), s.file, true)
  {
    LoadsOver(c, s.mem, s.file, d);
  }

  /** So a process that has not loaded yet, as after a restart, and finds the file left behind in
      a clean state gets the whole database back, exactly when that was savable. */
  lemma RestartRestores(c: Config, file: Option<seq<byte>>, states: seq<State>, ops: seq<Op>, again: State)
    requires IsRun(c, file, states, ops) && c.persistence
    requires states[|ops|].synced && !states[|ops|].mem.changed
    requires again.file == states[|ops|].file && again.mem.cleared && |again.mem.db.sv| == NUM_GPS_SVS
    ensures Apply(c, again, LoadFile(true)) ==
            State(Mem(states[|ops|].mem.db, again.mem.changed, false), again.file, true)
            <==> states[|ops|].mem.db.Savable()
  {
    var d := states[|ops|].mem.db;
    CleanMeansSaved(c, file, states, ops);
    LoadStep(c, again);
    if d.Savable() {
      ReloadedOver(c, again, d);
    } else {
      RunKeepsInv(c, states, ops, |ops|);
      LoadIgnoresOld(again.file.value, d, again.mem.db, c.heap);
    }
  }

  // ------------------------------------------------------- loading over unsaved changes

  /** Neither a load nor a save that opens the file. */
  predicate LeavesFile(op: Op) {
    (op.Save? || op.LoadFile?) ==> !op.openOk
  }

  lemma {:induction false} FileLeft(c: Config, states: seq<State>, ops: seq<Op>, n: nat)
    requires Linked(c, states, ops) && n <= |ops|
    requires forall i :: 0 <= i < |ops| ==> LeavesFile(ops[i])
    ensures states[n].file == states[0].file && states[n].mem.cleared == states[0].mem.cleared
  {
    if n == 0 {
    } else {
      FileLeft(c, states, ops, n - 1);
      assert Follows(c, states, ops, n - 1) && LeavesFile(ops[n - 1]);
    }
  }

  /** A load looks at no dirty flag: whatever was changed before the first one is lost when the
      file decodes, and the flag stays as it is. */
  lemma LoadDropsUnsaved(c: Config, states: seq<State>, ops: seq<Op>, d: Db)
    requires Linked(c, states, ops) && Inv(c, states[0])
    requires forall i :: 0 <= i < |ops| ==> LeavesFile(ops[i])
    requires c.persistence && states[0].mem.cleared
    requires |d.sv| == NUM_GPS_SVS && FileHolds(c, states[0].file, d)
    ensures var s := states[|ops|];
            && |s.mem.db.sv| == NUM_GPS_SVS
            && Apply(c, s, LoadFile(true)) == State(Mem(d, s.mem.changed, false), s.file, true)
  {
    RunKeepsInv(c, states, ops, |ops|);
    FileLeft(c, states, ops, |ops|);
    LoadStep(c, states[|ops|]);
    ReloadedOver(c, states[|ops|], d);
  }

  /** A concrete one: after a restart the time is put before the first load, and the load takes
      it back and leaves the flag set. */
  lemma TimePutTooEarly(c: Config, d: Db, timeUtcMs: U8, timeRefMs: U8, accMs: U4)
    requires c.persistence && d.Stored(c.heap) && d.Savable()
    ensures var s := Apply(c, Start(Some(EncodeDb(d))), PutTime(timeUtcMs, timeRefMs, accMs));
            Apply(c, s, LoadFile(true)) == State(Mem(d, true, false), Some(EncodeDb(d)), true)
  {
    var s := Apply(c, Start(Some(EncodeDb(d))), PutTime(timeUtcMs, timeRefMs, accMs));
    SavedFileHolds(c, d, d);
    LoadStep(c, s);
    ReloadedOver(c, s, d);
  }

  lemma LoadsAgain(c: Config, m: Mem, file: Option<seq<byte>>)
    ensures OnLoad(c, OnLoad(c, m, file, true), file, true) == OnLoad(c, m, file, true)
  {
    if LoadTried(c, m, file, true) {
      LoadAgain(file.value, m.db, c.heap);
    }
  }

  lemma LoadsOnce(c: Config, s: State, op: Op, loaded: bool, m: Mem)
    requires |s.mem.db.sv| == NUM_GPS_SVS && (op.LoadFile? || (op.Save? && !op.openOk))
    requires s.mem == if loaded then OnLoad(c, m, s.file, true) else m
    ensures var t := Apply(c, s, op);
            && t.file == s.file && |t.mem.db.sv| == NUM_GPS_SVS
            && t.mem == if loaded || op == LoadFile(true) then OnLoad(c, m, s.file, true) else m
  {
    LoadsAgain(c, m, s.file);
  }

  /** Loads, and saves that cannot open the file: all together they do what one load does. */
  lemma {:induction false} RunOfLoads(c: Config, states: seq<State>, ops: seq<Op>, n: nat)
    requires Linked(c, states, ops) && n <= |ops| && |states[0].mem.db.sv| == NUM_GPS_SVS
    requires forall i :: 0 <= i < |ops| ==> ops[i].LoadFile? || (ops[i].Save? && !ops[i].openOk)
    ensures var s := states[0];
            && states[n].file == s.file && |states[n].mem.db.sv| == NUM_GPS_SVS
            && states[n].mem == if LoadFile(true) in ops[..n] then OnLoad(c, s.mem, s.file, true) else s.mem
  {
    if n == 0 {
    } else {
      RunOfLoads(c, states, ops, n - 1);
      assert Follows(c, states, ops, n - 1);
      assert ops[..n] == ops[..n - 1] + [ops[n - 1]];
      LoadsOnce(c, states[n - 1], ops[n - 1], LoadFile(true) in ops[..n - 1], states[0].mem);
    }
  }

  /** What a load would make of the database in memory. */
  function Overwritten(c: Config, s: State): Db
    requires s.file.Some?
  {
    LoadDb(s.file.value, s.mem.db, c.heap).value
  }

  /** A decodable file leaves the database as it is only if it holds it already. */
  lemma OverwrittenBy(c: Config, s: State)
    requires Decodes(c, s.file) && |s.mem.db.sv| == NUM_GPS_SVS
    ensures Overwritten(c, s) == s.mem.db <==> FileHolds(c, s.file, s.mem.db)
  {
    LoadIgnoresOld(s.file.value, EmptyDb(), s.mem.db, c.heap);
  }

  lemma LoadOverwrites(c: Config, s: State)
    requires c.persistence && s.mem.changed
    ensures var m := OnLoad(c, s.mem, s.file, true);
            && m.changed
            && m.db == if s.mem.cleared && s.file.Some? then Overwritten(c, s) else s.mem.db
  {
  }

  lemma SaveWrites(c: Config, s: State, room: nat)
    requires c.persistence && s.mem.changed && |s.mem.db.sv| == NUM_GPS_SVS && |EncodeDb(s.mem.db)| <= room
    ensures Apply(c, s, Save(true, room)).file == Some(EncodeDb(s.mem.db))
  {
  }

  /** Unsaved changes reach the file with the next save exactly when they are savable and no load
      is tried before it, or the load would leave them as they are. */
  lemma UnsavedSurvivesExactly(c: Config, states: seq<State>, ops: seq<Op>, room: nat)
    requires Linked(c, states, ops) && c.persistence
    requires forall i :: 0 <= i < |ops| ==> ops[i].LoadFile? || (ops[i].Save? && !ops[i].openOk)
    requires states[0].mem.db.Stored(c.heap) && states[0].mem.changed
    requires |EncodeDb(states[|ops|].mem.db)| <= room
    ensures var s := states[0];
            && |states[|ops|].mem.db.sv| == NUM_GPS_SVS
            && (FileHolds(c, Apply(c, states[|ops|], Save(true, room)).file, s.mem.db) <==>
                s.mem.db.Savable() &&
                (s.mem.cleared && s.file.Some? && LoadFile(true) in ops ==> Overwritten(c, s) == s.mem.db))
  {
    var s := states[0];
    RunOfLoads(c, states, ops, |ops|);
    assert ops[..|ops|] == ops;
    LoadWorks(c, s.mem, s.file, true);
    LoadOverwrites(c, s);
    SaveWrites(c, states[|ops|], room);
    SavedFileHolds(c, states[|ops|].mem.db, s.mem.db);
  }

  // ------------------------------------------------ before the first save or load

  predicate Decodes(c: Config, file: Option<seq<byte>>) {
    file.Some? && LoadDb(file.value, EmptyDb(), c.heap).ok
  }

  lemma HoldsDecodes(c: Config, file: Option<seq<byte>>, d: Db)
    requires |d.sv| == NUM_GPS_SVS
    ensures FileHolds(c, file, d) ==> Decodes(c, file)
  {
    if file.Some? {
      LoadIgnoresOld(file.value, d, EmptyDb(), c.heap);
    }
  }

  /** Until then, clean memory is still empty, or holds parts of a file that does not decode; the
      file is the one that was there from the start. */
  ghost predicate Pristine(c: Config, file: Option<seq<byte>>, s: State) {
    && |s.mem.db.sv| == NUM_GPS_SVS
    && (s.synced ==> c.persistence)
    && (!s.synced ==> s.mem.cleared)
    && (!s.synced && !s.mem.changed ==> s.file == file && (s.mem.db == EmptyDb() || !Decodes(c, file)))
  }

  lemma LoadKeepsPristine(c: Config, file: Option<seq<byte>>, s: State, openOk: bool)
    requires Pristine(c, file, s)
    ensures Pristine(c, file, Reloaded(s, OnLoad(c, s.mem, s.file, openOk)))
  {
    if LoadTried(c, s.mem, s.file, openOk) {
      LoadIgnoresOld(s.file.value, s.mem.db, EmptyDb(), c.heap);
    }
  }

  lemma SaveKeepsPristine(c: Config, file: Option<seq<byte>>, s: State, openOk: bool, room: nat)
    requires Pristine(c, file, s)
    ensures Pristine(c, file, Apply(c, s, Save(openOk, room)))
  {
  }

  lemma ApplyKeepsPristine(c: Config, file: Option<seq<byte>>, s: State, op: Op)
    requires Inv(c, s) && Pristine(c, file, s) && Possible(s, op)
    ensures Pristine(c, file, Apply(c, s, op))
  {
    match op
    case Message(injected, mem, n) => MsgKeepsStored(c, s.mem, injected, mem, n);
    case Save(openOk, room) => SaveKeepsPristine(c, file, s, openOk, room);
    case LoadFile(openOk) => LoadKeepsPristine(c, file, s, openOk);
    case _ =>
  }

  lemma {:induction false} RunKeepsPristine(c: Config, file: Option<seq<byte>>, states: seq<State>, ops: seq<Op>,
                                            n: nat)
    requires IsRun(c, file, states, ops) && n <= |ops|
    ensures Pristine(c, file, states[n])
  {
    if n == 0 {
    } else {
      RunKeepsPristine(c, file, states, ops, n - 1);
      RunKeepsInv(c, states, ops, n - 1);
      assert Follows(c, states, ops, n - 1);
      ApplyKeepsPristine(c, file, states[n - 1], ops[n - 1]);
    }
  }

  lemma CleanHoldsExactly(c: Config, file: Option<seq<byte>>, s: State)
    requires Inv(c, s) && Pristine(c, file, s) && !s.mem.changed
    ensures FileHolds(c, s.file, s.mem.db) <==>
            if s.synced then s.mem.db.Savable() else FileHolds(c, file, EmptyDb())
  {
    KeepsIsHolds(c, s.file, s.mem.db);
    HoldsDecodes(c, file, s.mem.db);
    HoldsDecodes(c, file, EmptyDb());
  }

  /** In every state of every run, if the flag is clear, the file holds the database exactly when
      that is savable, or, as long as no save or load has succeeded, when the file found at the
      start holds the empty database. */
  lemma CleanMeansSavedInRun(c: Config, file: Option<seq<byte>>, states: seq<State>, ops: seq<Op>)
    requires IsRun(c, file, states, ops) && !states[|ops|].mem.changed
    ensures var s := states[|ops|];
            FileHolds(c, s.file, s.mem.db) <==>
            if s.synced then s.mem.db.Savable() else FileHolds(c, file, EmptyDb())
  {
    RunKeepsInv(c, states, ops, |ops|);
    RunKeepsPristine(c, file, states, ops, |ops|);
    CleanHoldsExactly(c, file, states[|ops|]);
  }

  /** A UBX-AID-HUI message of one byte more than an int can express. */
  function LongMessage(): (s: seq<byte>)
    ensures |s| == INT_MAX + 1 && RouteOf(false, s) == ToSlot(Hui)
  {
    seq(INT_MAX + 1, i => if i == 2 then Alp.CLS_AID else if i == 3 then 0x02 else 0)
  }

  lemma LongMessageStored(c: Config, m: Mem)
    requires c.heap > INT_MAX && m.db == EmptyDb()
    ensures MsgOk(m.db, false, LongMessage(), INT_MAX + 1)
    ensures var after := OnMsg(c, m, false, LongMessage(), INT_MAX + 1);
            after.changed && after.db.hui.i == INT_MAX + 1 && after.db.Stored(c.heap)
  {
    assert LongMessage()[..INT_MAX + 1] == LongMessage();
    MsgKeepsStored(c, m, false, LongMessage(), INT_MAX + 1);
  }

  /** It is stored when the heap allows it, and the save clears the flag over a file that does
      not decode. */
  lemma LongMessageIsLost(c: Config, file: Option<seq<byte>>) returns (states: seq<State>, ops: seq<Op>)
    requires c.persistence && c.heap > INT_MAX
    ensures IsRun(c, file, states, ops) && !states[|ops|].mem.changed
    ensures !FileHolds(c, states[|ops|].file, states[|ops|].mem.db)
  {
    var s0 := Start(file);
    LongMessageStored(c, s0.mem);
    var s1 := Apply(c, s0, Message(false, LongMessage(), INT_MAX + 1));
    var room := |EncodeDb(s1.mem.db)|;
    var s2 := Apply(c, s1, Save(true, room));
    states, ops := [s0, s1, s2], [Message(false, LongMessage(), INT_MAX + 1), Save(true, room)];
    assert Follows(c, states, ops, 0) && Follows(c, states, ops, 1);
    SavedFileHolds(c, s1.mem.db, s1.mem.db);
  }

  /** No block can be too long, because nothing is saved or malloc grants none. */
  predicate NothingTooLong(c: Config) {
    c.persistence ==> c.heap <= INT_MAX
  }

  lemma CleanFileHolds(c: Config, file: Option<seq<byte>>, states: seq<State>, ops: seq<Op>)
    requires FileHolds(c, file, EmptyDb()) && NothingTooLong(c)
    requires IsRun(c, file, states, ops) && !states[|ops|].mem.changed
    ensures FileHolds(c, states[|ops|].file, states[|ops|].mem.db)
  {
    RunKeepsInv(c, states, ops, |ops|);
    RunKeepsPristine(c, file, states, ops, |ops|);
    CleanMeansSavedInRun(c, file, states, ops);
  }

  /** So "a clear flag means that the file holds the database" is true of all runs exactly when the
      file found at the start holds the empty database and no block can be too long, which both
      can be checked before. */
  lemma CleanMeansSavedExactly(c: Config, file: Option<seq<byte>>)
    ensures (forall states: seq<State>, ops: seq<Op> :: IsRun(c, file, states, ops) && !states[|ops|].mem.changed ==>
               FileHolds(c, states[|ops|].file, states[|ops|].mem.db))
            <==> FileHolds(c, file, EmptyDb()) && NothingTooLong(c)
  {
    if !FileHolds(c, file, EmptyDb()) {
      var states, ops := [Start(file)], [];
      assert IsRun(c, file, states, ops) && states[|ops|] == Start(file);
    } else if !NothingTooLong(c) {
      var states, ops := LongMessageIsLost(c, file);
    } else {
      forall states: seq<State>, ops: seq<Op> | IsRun(c, file, states, ops) && !states[|ops|].mem.changed
        ensures FileHolds(c, states[|ops|].file, states[|ops|].mem.db)
      {
        CleanFileHolds(c, file, states, ops);
      }
    }
  }

  /** Otherwise it says nothing: a failed load of a foreign file leaves part of it in
      memory with the flag still clear. */
  lemma FailedLoadLeavesParts(c: Config, junk: seq<byte>)
    requires c.persistence && c.heap >= 1 && junk == [1, 0, 0, 0, 7]
    ensures var s := Apply(c, Start(Some(junk)), LoadFile(true));
            !s.mem.changed && !s.synced && s.mem.db.hui == Buf(Some([7]), 1)
  {
    assert junk[..4] == LE(1, 4) by {
      assert LE(1, 4) == [1] + LE(0, 3) && LE(0, 3) == [0] + LE(0, 2);
      assert LE(0, 2) == [0] + LE(0, 1) && LE(0, 1) == [0] + LE(0, 0);
    }
    Bounds();
    FromLEofLE(1, 4);
    assert junk[4..][..1] == [7];
  }

  // ------------------------------------------------------------------ one message

  lemma StoreGoesToSlot(c: Config, m: Mem, s: Slot, msg: seq<byte>, other: Slot)
    requires m.db.Stored(c.heap) && SlotOk(s) && SlotOk(other)
    ensures var after := StoreIn(c, m, s, msg);
            && (|msg| <= c.heap ==> BufAt(after.db, s) == Buf(Some(msg), |msg|))
            && (other != s ==> BufAt(after.db, other) == BufAt(m.db, other))
            && after.db.alp == m.db.alp && after.db.pos == m.db.pos && after.db.time == m.db.time
            && (after.changed <==> m.changed || after.db != m.db)
  {
    var (stored, b) := Replace(BufAt(m.db, s), msg, c.heap);
    if !s.Hui? {
      assert m.db.sv[s.k].Stored(c.heap);
    }
    assert BufAt(WithBuf(m.db, s, b), s) == b;
    WithBufStored(m.db, s, BufAt(m.db, s), c.heap);
  }

  /** Where a message goes, by its bytes. */
  lemma RouteByBytes(injected: bool, msg: seq<byte>)
    ensures var aid := |msg| >= 9 && msg[2] == 0x0B;
            var sat := aid && 1 <= msg[6] <= 32;
            var route := RouteOf(injected, msg);
            && (aid && msg[3] == 0x02 ==> route == ToSlot(Hui))
            && (sat && msg[3] == 0x30 && |msg| > 16 ==> route == ToSlot(Alm(msg[6] - 1)))
            && (sat && msg[3] == 0x31 && |msg| > 16 ==> route == ToSlot(Eph(msg[6] - 1)))
            && (sat && msg[3] == 0x33 && |msg| > 9 ==> route == ToSlot(Aop(msg[6] - 1)))
            && (route.ToAlp? <==> aid && msg[3] == 0x32 && !injected)
            && (route.ToSlot? ==>
                  || (aid && msg[3] == 0x02)
                  || (sat && (msg[3] == 0x30 || msg[3] == 0x31) && |msg| > 16)
                  || (sat && msg[3] == 0x33 && |msg| > 9))
  {
  }

  /** Storing replaces the one buffer when the heap has room for the message, and otherwise changes
      nothing. */
  lemma StoreReplaces(c: Config, m: Mem, s: Slot, msg: seq<byte>)
    requires m.db.Stored(c.heap) && SlotOk(s)
    ensures |msg| <= c.heap ==> StoreIn(c, m, s, msg).db == WithBuf(m.db, s, Buf(Some(msg), |msg|))
    ensures |msg| > c.heap ==> StoreIn(c, m, s, msg) == m
    ensures StoreIn(c, m, s, msg).cleared == m.cleared
  {
    if !s.Hui? {
      assert m.db.sv[s.k].Stored(c.heap);
    }
    WithBufStored(m.db, s, BufAt(m.db, s), c.heap);
  }

  /** A message of the ionosphere parameters replaces those, ... */
  lemma HuiStored(c: Config, m: Mem, injected: bool, mem: seq<byte>, n: U4)
    requires m.db.Stored(c.heap) && MsgOk(m.db, injected, mem, n)
    requires 9 <= n <= c.heap && mem[2] == 0x0B && mem[3] == 0x02
    ensures OnMsg(c, m, injected, mem, n).db == m.db.(hui := Buf(Some(mem[..n]), n))
  {
    RouteByBytes(injected, mem[..n]);
    StoreReplaces(c, m, Hui, mem[..n]);
  }

  /** ... one about satellite 1 to 32 its almanac, its ephemeris, or its AssistNow parameters,
      and no other field of any satellite. */
  lemma SatelliteStored(c: Config, m: Mem, injected: bool, mem: seq<byte>, n: U4)
    requires m.db.Stored(c.heap) && MsgOk(m.db, injected, mem, n)
    requires 9 <= n <= c.heap && mem[2] == 0x0B && 1 <= mem[6] <= 32
    ensures var after, d, k, block := OnMsg(c, m, injected, mem, n).db, m.db, mem[6] - 1, Buf(Some(mem[..n]), n);
            && (mem[3] == 0x30 && n > 16 ==> after == d.(sv := d.sv[k := d.sv[k].(alm := block)]))
            && (mem[3] == 0x31 && n > 16 ==> after == d.(sv := d.sv[k := d.sv[k].(eph := block)]))
            && (mem[3] == 0x33 && n > 9 ==> after == d.(sv := d.sv[k := d.sv[k].(aop := block)]))
  {
    var msg, k := mem[..n], mem[6] - 1;
    RouteByBytes(injected, msg);
    StoreReplaces(c, m, Alm(k), msg);
    StoreReplaces(c, m, Eph(k), msg);
    StoreReplaces(c, m, Aop(k), msg);
  }

  /** Any other message, unless it is one for the ALP server, changes nothing, nor does one that the
      heap has no room for. */
  lemma OtherMessageIgnored(c: Config, m: Mem, injected: bool, mem: seq<byte>, n: U4)
    requires m.db.Stored(c.heap) && MsgOk(m.db, injected, mem, n)
    requires n >= 9 && mem[2] == 0x0B && mem[3] == 0x32 ==> injected
    requires || n < 9 || mem[2] != 0x0B || n > c.heap
             || !(|| mem[3] == 0x02
                  || (1 <= mem[6] <= 32 && (mem[3] == 0x30 || mem[3] == 0x31) && n > 16)
                  || (1 <= mem[6] <= 32 && mem[3] == 0x33 && n > 9))
    ensures OnMsg(c, m, injected, mem, n) == m
  {
    RouteByBytes(injected, mem[..n]);
    var route := RouteOf(injected, mem[..n]);
    if route.ToSlot? {
      StoreReplaces(c, m, route.slot, mem[..n]);
    }
  }

  /** A message for the ALP server changes no more than bytes of the stored file, and sets the flag
      exactly when it is an update that applies: see Alp.UpdateTouchesOnlyItsRange. */
  lemma AlpMessageStored(c: Config, m: Mem, mem: seq<byte>, n: U4)
    requires m.db.Stored(c.heap) && MsgOk(m.db, false, mem, n)
    requires n >= 9 && mem[2] == 0x0B && mem[3] == 0x32
    ensures var after, file := OnMsg(c, m, false, mem, n), AlpBytes(m.db);
            && after.db == m.db.(alp := m.db.alp.(file := after.db.alp.file))
            && AlpBytes(after.db) == Alp.FileAfter(file, m.db.alp.fileId, mem)
            && (after.changed <==> m.changed || Alp.DecideOn(file, m.db.alp.fileId, mem).Update?)
            && after.cleared == m.cleared
  {
    RouteByBytes(false, mem[..n]);
  }

  /** A file is taken exactly when it is acceptable, new and finds room; it gets the next number and
      the time stamp. */
  lemma AlpFileTakenExactly(c: Config, m: Mem, data: seq<byte>, now: U8)
    ensures var after, d := OnPutAlp(c, m, data, now), m.db;
            if Alp.AcceptableFile(data) && |data| <= c.heap && d.alp.file != Buf(Some(data), |data|) then
              after == Mem(d.(alp := AidingDb.Alp(Buf(Some(data), |data|),
                                                  if d.alp.fileId == 0xFFFF then 0 else d.alp.fileId + 1, now)),
                           true, m.cleared)
            else after == m
  {
  }

  /** So an update that was meant for the file before does not touch it. */
  lemma LateUpdateIgnored(c: Config, m: Mem, data: seq<byte>, now: U8, msg: seq<byte>)
    requires OnPutAlp(c, m, data, now).db.alp.fileId != m.db.alp.fileId
    requires 14 <= |msg| && Alp.ReadU2(msg, 12) == m.db.alp.fileId
    ensures var d := OnPutAlp(c, m, data, now).db;
            && d.alp.file == Buf(Some(data), |data|)
            && (Alp.Complete(data, d.alp.fileId, msg) ==> Alp.FileAfter(data, d.alp.fileId, msg) == data)
  {
    AlpFileTakenExactly(c, m, data, now);
  }

  /** A routed message ends up in its own slot, sets the flag exactly when it changed something,
      and touches no other buffer. */
  lemma MessageGoesToItsSlot(c: Config, m: Mem, injected: bool, mem: seq<byte>, n: U4, other: Slot)
    requires m.db.Stored(c.heap) && MsgOk(m.db, injected, mem, n)
    requires RouteOf(injected, mem[..n]).ToSlot? && SlotOk(other)
    ensures var s, after := RouteOf(injected, mem[..n]).slot, OnMsg(c, m, injected, mem, n);
            && (n <= c.heap ==> BufAt(after.db, s) == Buf(Some(mem[..n]), n))
            && (other != s ==> BufAt(after.db, other) == BufAt(m.db, other))
            && after.db.alp == m.db.alp && after.db.pos == m.db.pos && after.db.time == m.db.time
            && (after.changed <==> m.changed || after.db != m.db)
  {
    StoreGoesToSlot(c, m, RouteOf(injected, mem[..n]).slot, mem[..n], other);
  }
}
