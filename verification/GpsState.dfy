/** CUbxGpsState: the object whose methods keep the aiding database, save it, load it and serve
    the ALP file.  Each method is proved against the operation of the same name in Aiding
    (ublox_gps_hal/ubxgpsstate.cpp). */
module GpsState {
  import opened Bytes
  import opened Prelude
  import opened AidingDb
  import opened Aiding
  import Alp
  import Ubx = UbxFrame

  /** A file opened for reading. */
  class FileReader {
    const data: seq<byte>
    var pos: nat

    ghost predicate Valid()
      reads this
    {
      pos <= |data|
    }

    ghost function Rest(): seq<byte>
      requires Valid()
      reads this
    {
      data[pos..]
    }

    constructor (data: seq<byte>)
      ensures Valid() && Rest() == data
    {
      this.data := data;
      pos := 0;
    }

    /** read(): as much as there is, at most n. */
    method Read(n: nat) returns (got: seq<byte>)
      requires Valid()
      modifies this
      ensures Valid()
      ensures got == if n <= |old(Rest())| then old(Rest())[..n] else old(Rest())
      ensures Rest() == old(Rest())[|got|..]
    {
      var to := if pos + n <= |data| then pos + n else |data|;
      got := data[pos..to];
      pos := to;
    }
  }

  /** A file opened for writing, with the room left for it. */
  class FileWriter {
    var data: seq<byte>
    var room: nat

    constructor (room: nat)
      ensures data == [] && this.room == room
    {
      data, this.room := [], room;
    }

    /** saveBuffer over raw memory: nothing is written for a length that is not positive. */
    method SaveRaw(bytes: seq<byte>) returns (ok: bool)
      modifies this
      ensures ok <==> |bytes| <= old(room)
      ensures ok ==> data == old(data) + bytes && room == old(room) - |bytes|
    {
      if |bytes| > 0 {
        var n := if |bytes| <= room then |bytes| else room;
        data, room := data + bytes[..n], room - n;
        return n == |bytes|;
      }
      assert data + bytes == data;
      ok := true;
    }

    method SaveBuf(b: Buf) returns (ok: bool)
      requires b.WellFormed()
      modifies this
      ensures ok <==> |EncodeBuf(b)| <= old(room)
      ensures ok ==> data == old(data) + EncodeBuf(b) && room == old(room) - |EncodeBuf(b)|
    {
      ok := SaveRaw(LE(b.i, 4));
      if ok {
        Join(old(data), LE(b.i, 4), SavedData(b));
        ok := SaveRaw(SavedData(b));
      }
    }

    method SaveAlp(a: AidingDb.Alp) returns (ok: bool)
      requires a.file.WellFormed()
      modifies this
      ensures ok <==> |EncodeAlp(a)| <= old(room)
      ensures ok ==> data == old(data) + EncodeAlp(a) && room == old(room) - |EncodeAlp(a)|
    {
      ok := SaveBuf(a.file);
      if ok {
        ok := SaveRaw(LE(a.fileId, 2));
        if ok {
          ok := SaveRaw(LE(a.timeRefMs, 8));
          Join(old(data), EncodeBuf(a.file), LE(a.fileId, 2) + LE(a.timeRefMs, 8));
          Join(old(data) + EncodeBuf(a.file), LE(a.fileId, 2), LE(a.timeRefMs, 8));
        }
      }
    }

    method SaveSv(v: Sv) returns (ok: bool)
      requires v.WellFormed()
      modifies this
      ensures ok <==> |EncodeSv(v)| <= old(room)
      ensures ok ==> data == old(data) + EncodeSv(v) && room == old(room) - |EncodeSv(v)|
    {
      ok := SaveBuf(v.eph);
      if ok {
        ok := SaveBuf(v.alm);
        if ok {
          ok := SaveBuf(v.aop);
          Join(old(data), EncodeBuf(v.eph), EncodeBuf(v.alm) + EncodeBuf(v.aop));
          Join(old(data) + EncodeBuf(v.eph), EncodeBuf(v.alm), EncodeBuf(v.aop));
        }
      }
    }

    method SaveSvs(svs: seq<Sv>) returns (ok: bool)
      requires forall k :: 0 <= k < |svs| ==> svs[k].WellFormed()
      modifies this
      ensures ok <==> |EncodeSvs(svs)| <= old(room)
      ensures ok ==> data == old(data) + EncodeSvs(svs)
    {
      assert old(data) + [] == old(data);
      for i := 0 to |svs|
        invariant |EncodeSvs(svs[..i])| <= old(room)
        invariant data == old(data) + EncodeSvs(svs[..i]) && room == old(room) - |EncodeSvs(svs[..i])|
      {
        EncodeSvsSplit(svs, i);
        ok := SaveSv(svs[i]);
        if !ok {
          return;
        }
        Join(old(data), EncodeSvs(svs[..i]), EncodeSv(svs[i]));
      }
      assert svs[..|svs|] == svs;
      ok := true;
    }

    /** saveDatabase. */
    method SaveDatabase(d: Db) returns (ok: bool)
      requires d.WellFormed()
      modifies this
      ensures ok <==> |EncodeDb(d)| <= old(room)
      ensures ok ==> data == old(data) + EncodeDb(d)
    {
      ghost var was := data;
      ok := SaveBuf(d.hui);
      if !ok {
        return;
      }
      ok := SaveAlp(d.alp);
      if !ok {
        return;
      }
      ok := SaveRaw(d.pos);
      if !ok {
        return;
      }
      ok := SaveRaw(d.time);
      if !ok {
        return;
      }
      ok := SaveSvs(d.sv);
      FiveParts(was, EncodeBuf(d.hui), EncodeAlp(d.alp), d.pos, d.time, EncodeSvs(d.sv));
    }
  }

  lemma FiveParts(was: seq<byte>, a: seq<byte>, b: seq<byte>, c: seq<byte>, d: seq<byte>, e: seq<byte>)
    ensures was + a + b + c + d + e == was + (a + (b + (c + (d + e))))
  {
    Join(was + a + b + c, d, e);
    Join(was + a + b, c, d + e);
    Join(was + a, b, c + (d + e));
    Join(was, a, b + (c + (d + e)));
  }

  /** The records up to i, then record i: the front of the encoding. */
  lemma EncodeSvsSplit(svs: seq<Sv>, i: nat)
    requires i < |svs|
    ensures EncodeSvs(svs[..i + 1]) == EncodeSvs(svs[..i]) + EncodeSv(svs[i])
    ensures |EncodeSvs(svs[..i + 1])| <= |EncodeSvs(svs)|
  {
    assert svs[..i + 1] == svs[..i] + [svs[i]];
    EncodeSvsAppend(svs[..i], [svs[i]]);
    assert EncodeSvs([svs[i]]) == EncodeSv(svs[i]) + EncodeSvs([svs[i]][1..]);
    assert svs == svs[..i + 1] + svs[i + 1..];
    EncodeSvsAppend(svs[..i + 1], svs[i + 1..]);
  }

  /** loadBuffer over raw memory: a short read overwrites the front of the field. */
  method LoadRawField(fd: FileReader, field: seq<byte>) returns (ok: bool, value: seq<byte>)
    requires fd.Valid()
    modifies fd
    ensures fd.Valid() && Load(ok, value, fd.Rest()) == LoadRaw(old(fd.Rest()), field)
  {
    var got := fd.Read(|field|);
    ok := |got| == |field|;
    value := got + field[|got|..];
    assert ok ==> value == got;
  }

  method LoadBufField(fd: FileReader, was: Buf, heap: nat) returns (ok: bool, value: Buf)
    requires fd.Valid()
    modifies fd
    ensures fd.Valid() && Load(ok, value, fd.Rest()) == LoadBuf(old(fd.Rest()), was, heap)
  {
    var head := fd.Read(4);
    if |head| != 4 {
      return false, was;
    }
    var length := FromLE(head);
    var p := None;
    if length == 0 {
    } else {
      if length > heap {
        return false, was;
      }
      var got := fd.Read(length);
      if length > INT_MAX || |got| != length {
        return false, was;
      }
      p := Some(got);
    }
    ok, value := true, Buf(p, length);
  }

  method LoadAlpField(fd: FileReader, was: AidingDb.Alp, heap: nat) returns (ok: bool, value: AidingDb.Alp)
    requires fd.Valid()
    modifies fd
    ensures fd.Valid() && Load(ok, value, fd.Rest()) == LoadAlp(old(fd.Rest()), was, heap)
  {
    value := was;
    var file;
    ok, file := LoadBufField(fd, was.file, heap);
    if !ok {
      return;
    }
    var id, t;
    ok, id := LoadRawField(fd, LE(was.fileId, 2));
    Bounds();
    FromLEBound(id);
    value := AidingDb.Alp(file, FromLE(id), was.timeRefMs);
    if !ok {
      return;
    }
    ok, t := LoadRawField(fd, LE(was.timeRefMs, 8));
    FromLEBound(t);
    value := value.(timeRefMs := FromLE(t));
  }

  method LoadSvField(fd: FileReader, was: Sv, heap: nat) returns (ok: bool, value: Sv)
    requires fd.Valid()
    modifies fd
    ensures fd.Valid() && Load(ok, value, fd.Rest()) == LoadSv(old(fd.Rest()), was, heap)
  {
    value := was;
    var eph, alm, aop;
    ok, eph := LoadBufField(fd, was.eph, heap);
    if !ok {
      return;
    }
    value := value.(eph := eph);
    ok, alm := LoadBufField(fd, was.alm, heap);
    if !ok {
      return;
    }
    value := value.(alm := alm);
    ok, aop := LoadBufField(fd, was.aop, heap);
    value := value.(aop := aop);
  }

  class CUbxGpsState {
    const config: Config
    var db: Db
    var dbAssistChanged: bool
    var dbAssistCleared: bool
    var file: Option<seq<byte>>  // the file at m_pAlpTempFile
    var ser: Ubx.SerialPort?
    var udp: Ubx.UdpServer?

    ghost predicate Valid()
      reads this
    {
      db.Stored(config.heap)
    }

    function Memory(): Mem
      reads this
    {
      Mem(db, dbAssistChanged, dbAssistCleared)
    }

    constructor (config: Config, file: Option<seq<byte>>)
      ensures Valid() && this.config == config && ser == null && udp == null
      ensures Memory() == Start(file).mem && this.file == file && !dbAssistChanged && dbAssistCleared
      ensures db.hui == db.alp.file == Buf(None, 0) && db.alp.fileId == db.alp.timeRefMs == 0
      ensures db.pos == seq(32, i => 0) && db.time == seq(24, i => 0)
      ensures |db.sv| == 32 && forall k :: 0 <= k < 32 ==> db.sv[k] == Sv(Buf(None, 0), Buf(None, 0), Buf(None, 0))
    {
      this.config, this.file := config, file;
      db := EmptyDb();
      dbAssistChanged, dbAssistCleared := false, true;
      ser, udp := null, null;
    }

    /** onNewUbxMsg, without the acknowledgement that Session models.  mem is the memory from pMsg
        on, of which the first iMsg bytes are the message. */
    method OnNewUbxMsg(injected: bool, mem: seq<byte>, iMsg: U4)
      requires Valid() && MsgOk(db, injected, mem, iMsg)
      modifies this, ser, udp
      ensures Valid() && file == old(file) && ser == old(ser) && udp == old(udp)
      ensures Memory() == OnMsg(config, old(Memory()), injected, mem, iMsg)
    {
      MsgKeepsStored(config, Memory(), injected, mem, iMsg);
      var msg := mem[..iMsg];
      if |msg| < 4 {
        return;
      }
      if msg[2] == 0x0B && |msg| >= 9 {
        if msg[3] == 0x02 {
          StoreAt(Hui, msg);
        } else if msg[3] == 0x01 {
        } else if msg[3] == 0x32 && !injected {
          var ok, _ := OnNewUbxAlpMsg(mem);
        } else {
          OnSatelliteMsg(msg);
        }
      }
    }

    /** The part of it about one satellite; the index is unsigned. */
    method OnSatelliteMsg(msg: seq<byte>)
      requires |db.sv| == NUM_GPS_SVS && |msg| >= 9
      modifies `db, `dbAssistChanged
      ensures Memory() == match SatelliteRoute(msg)
                          case ToSlot(s) => StoreIn(config, old(Memory()), s, msg)
                          case _ => old(Memory())
    {
      var svix := (msg[6] as int - 1) % 0x1_0000_0000;
      if msg[3] == 0x30 && |msg| > 16 && svix < NUM_GPS_SVS {
        StoreAt(Alm(svix), msg);
      } else if msg[3] == 0x31 && |msg| > 16 && svix < NUM_GPS_SVS {
        StoreAt(Eph(svix), msg);
      } else if msg[3] == 0x33 && |msg| > 9 && svix < NUM_GPS_SVS {
        StoreAt(Aop(svix), msg);
      }
    }

    /** replaceBuf on one buffer of the database, with the flag it sets. */
    method StoreAt(s: Slot, msg: seq<byte>)
      requires |db.sv| == NUM_GPS_SVS && SlotOk(s)
      modifies `db, `dbAssistChanged
      ensures Memory() == StoreIn(config, old(Memory()), s, msg)
    {
      var b := BufAt(db, s);
      assert WithBuf(db, s, b) == db by {
        assert s.Hui? || db.sv[s.k := db.sv[s.k]] == db.sv;
      }
      if b.p.Some? && b.i == |msg| && b.p.value == msg {
        return;
      }
      if |msg| <= config.heap {
        db := WithBuf(db, s, Buf(Some(msg), |msg|));
        dbAssistChanged := true;
      }
    }

    /** onNewUbxAlpMsg: an update goes into the file in place, a request is answered over the
        port with exactly the reply of Alp.ReplyTo.  `taken` is what the port took of it.  msg is
        the memory from pMsg on: the length of the message is not looked at. */
    method OnNewUbxAlpMsg(msg: seq<byte>) returns (ok: bool, ghost taken: seq<byte>)
      requires |db.sv| == NUM_GPS_SVS && db.alp.file.WellFormed()
      requires Alp.Complete(AlpBytes(db), db.alp.fileId, msg)
      modifies this, ser, udp
      ensures file == old(file) && ser == old(ser) && udp == old(udp)
      ensures Memory() == OnAlpMsg(old(Memory()), msg)
      ensures Sent(ok, taken, Alp.ReplyTo(old(AlpBytes(db)), old(db.alp.fileId), msg))
      ensures ser != null ==> ser.out == old(ser.out) + taken
      ensures udp != null ==> udp.sent == old(udp.sent) + if ok && taken != [] then [taken] else []
      ensures Alp.ReplyTo(old(AlpBytes(db)), old(db.alp.fileId), msg).None? ==>
                (ok <==> Alp.DecideOn(old(AlpBytes(db)), old(db.alp.fileId), msg).Update?)
    {
      var data, id := AlpBytes(db), db.alp.fileId;
      ok, taken := false, [];
      if data == [] {
        return;
      }
      Alp.DecisionInBounds(data, id, Alp.ReadRequest(msg));
      match Alp.Decide(data, id, Alp.ReadRequest(msg))
      case Ignore =>
      case SendHeader =>
        ok, taken := WriteUbxAlpHeader();
      case Update(o, n) =>
        var at := 6 + msg[6] as int;
        var after := data[..o] + msg[at..at + n] + data[o + n..];
        db := db.(alp := db.alp.(file := db.alp.file.(p := Some(after))));
        dbAssistChanged := true;
        ok := true;
      case Chunk(o, n) =>
        ok, taken := WriteChunk(msg[6..6 + msg[6]], o, n);
    }

    /** What the port has of a reply, and whether all of it. */
    static ghost predicate Sent(ok: bool, taken: seq<byte>, reply: Option<Ubx.Message>) {
      match reply
      case None => taken == []
      case Some(m) => Ubx.Prefix(taken, Ubx.Encode(m)) && (ok ==> taken == Ubx.Encode(m))
    }

    method WriteChunk(id: seq<byte>, o: nat, n: nat) returns (ok: bool, ghost taken: seq<byte>)
      requires Alp.CLI_SIZE <= |id| <= Alp.SRV_SIZE && o + n <= |AlpBytes(db)|
      modifies ser, udp
      ensures Sent(ok, taken, Some(Alp.ChunkMessage(id, AlpBytes(db), db.alp.fileId, o, n)))
      ensures ok ==> ser != null && taken != []
      ensures ser != null ==> ser.out == old(ser.out) + taken
      ensures udp != null ==> udp.sent == old(udp.sent) + if ok then [taken] else []
    {
      var data := AlpBytes(db);
      var head := Alp.Srv(id, db.alp.fileId, n)[..|id|];
      ok, taken := Ubx.WriteUbx(ser, udp, Alp.CLS_AID, Alp.ID_ALP, head, data[o..o + n]);
    }

    /** writeUbxAlpHeader. */
    method WriteUbxAlpHeader() returns (ok: bool, ghost taken: seq<byte>)
      modifies ser, udp
      ensures var data := AlpBytes(db);
              Sent(ok, taken,
                   if |data| < Alp.FILE_HEADER_SIZE then None else Some(Alp.HeaderMessage(data, db.alp.fileId)))
      ensures ok ==> |AlpBytes(db)| >= Alp.FILE_HEADER_SIZE && ser != null && taken != []
      ensures ser != null ==> ser.out == old(ser.out) + taken
      ensures udp != null ==> udp.sent == old(udp.sent) + if ok then [taken] else []
    {
      var data := AlpBytes(db);
      if |data| < Alp.FILE_HEADER_SIZE {
        return false, [];
      }
      var id := [Alp.SRV_SIZE, 1] + LE(0, 2) + LE(Alp.FILE_HEADER_SIZE / 2, 2) + seq(10, i => 0);
      ok, taken := Ubx.WriteUbx(ser, udp, Alp.CLS_AID, Alp.ID_ALP,
                                Alp.Srv(id, db.alp.fileId, Alp.FILE_HEADER_SIZE), data[..Alp.FILE_HEADER_SIZE]);
    }

    /** The loop of deleteAidData over the satellites. */
    method ClearSvs(f: Flags)
      requires |db.sv| == NUM_GPS_SVS
      modifies `db
      ensures db == old(db).(sv := ClearedAll(old(db.sv), f))
    {
      ghost var was := db;
      for svix := 0 to NUM_GPS_SVS
        invariant |db.sv| == NUM_GPS_SVS && db == was.(sv := db.sv)
        invariant forall k :: 0 <= k < NUM_GPS_SVS ==>
                    db.sv[k] == if k < svix then Cleared(was.sv[k], f) else was.sv[k]
      {
        var v := db.sv[svix];
        if f.ephemeris {
          v := v.(eph := Free(v.eph));
        }
        if f.sadata {
          v := v.(aop := Free(v.aop));
        }
        if f.almanac {
          v := v.(alm := Free(v.alm));
        }
        db := db.(sv := db.sv[svix := v]);
      }
      assert db.sv == ClearedAll(was.sv, f);
    }

    /** deleteAidData. */
    method DeleteAidData(f: Flags)
      requires Valid()
      modifies `db, `dbAssistChanged
      ensures Valid() && Memory() == OnDelete(old(Memory()), f)
    {
      ghost var was := db;
      DeleteKeepsStored(db, f, config.heap);
      if f.position {
        db := db.(pos := Zeros(POS_SIZE));
      }
      if f.time {
        db := db.(time := Zeros(TIME_SIZE));
      }
      ClearSvs(f);
      if f.iono || f.utc || f.health {
        db := db.(hui := Free(db.hui));
      }
      if f.svdir || f.svsteer {
        db := db.(alp := db.alp.(file := Free(db.alp.file)));
      }
      dbAssistChanged := true;
    }

    /** putTime: the three fields read back from the image, its padding and everything else are as
        they were. */
    method PutTime(timeUtcMs: U8, timeRefMs: U8, accMs: U4)
      requires Valid()
      modifies `db, `dbAssistChanged
      ensures Valid() && Memory() == OnPutTime(old(Memory()), timeUtcMs, timeRefMs, accMs)
      ensures dbAssistChanged && db == old(db).(time := db.time)
      ensures FromLE(db.time[..8]) == timeUtcMs && FromLE(db.time[8..16]) == timeRefMs
      ensures FromLE(db.time[16..20]) == accMs && db.time[20..] == old(db.time)[20..]
    {
      TimeImageHolds(db.time, timeUtcMs, timeRefMs, accMs);
      db := db.(time := TimeImageOf(db.time, timeUtcMs, timeRefMs, accMs));
      dbAssistChanged := true;
    }

    /** putPos: the same for the position, stamped with the time now. */
    method PutPos(latDeg: U8, lonDeg: U8, accM: U4, now: U8)
      requires Valid()
      modifies `db, `dbAssistChanged
      ensures Valid() && Memory() == OnPutPos(old(Memory()), latDeg, lonDeg, accM, now)
      ensures dbAssistChanged && db == old(db).(pos := db.pos)
      ensures FromLE(db.pos[..8]) == latDeg && FromLE(db.pos[8..16]) == lonDeg
      ensures FromLE(db.pos[16..20]) == accM && db.pos[20..24] == old(db.pos)[20..24]
      ensures FromLE(db.pos[24..]) == now
    {
      PosImageHolds(db.pos, latDeg, lonDeg, accM, now);
      db := db.(pos := PosImageOf(db.pos, latDeg, lonDeg, accM, now));
      dbAssistChanged := true;
    }

    /** putAlpFile. */
    method PutAlpFile(data: seq<byte>, now: U8) returns (ok: bool)
      requires Valid()
      modifies `db, `dbAssistChanged
      ensures Valid() && Memory() == OnPutAlp(config, old(Memory()), data, now)
      ensures ok <==> Alp.AcceptableFile(data) && Replace(old(db.alp.file), data, config.heap).0
    {
      ok := false;
      if Alp.AcceptableFile(data) {
        var (stored, b) := Replace(db.alp.file, data, config.heap);
        Alp.AcceptableSize(data);
        ReplaceKeepsStored(db.alp.file, data, config.heap);
        if stored {
          db := db.(alp := AidingDb.Alp(b, (db.alp.fileId + 1) % 0x1_0000, now));
          dbAssistChanged := true;
          ok := true;
        }
      }
    }

    /** loadDatabase: field by field into the database in use. */
    method LoadDatabase(fd: FileReader) returns (ok: bool)
      requires Valid() && fd.Valid()
      modifies `db, fd
      ensures fd.Valid() && Load(ok, db, fd.Rest()) == LoadDb(old(fd.Rest()), old(db), config.heap)
    {
      ghost var s, was := fd.Rest(), db;
      var hui, alp, pos, time;
      ok, hui := LoadBufField(fd, db.hui, config.heap);
      if !ok {
        return;
      }
      db := db.(hui := hui);
      ok, alp := LoadAlpField(fd, db.alp, config.heap);
      db := db.(alp := alp);
      if !ok {
        return;
      }
      ok, pos := LoadRawField(fd, db.pos);
      db := db.(pos := pos);
      if !ok {
        return;
      }
      ok, time := LoadRawField(fd, db.time);
      db := db.(time := time);
      if !ok {
        return;
      }
      ok := LoadAllSvs(fd);
    }

    /** The loop over the satellites. */
    method LoadAllSvs(fd: FileReader) returns (ok: bool)
      requires |db.sv| == NUM_GPS_SVS && fd.Valid()
      modifies `db, fd
      ensures fd.Valid() && db == old(db).(sv := db.sv)
      ensures Load(ok, db.sv, fd.Rest()) == LoadSvs(old(fd.Rest()), old(db.sv), config.heap)
    {
      ghost var was := db.sv;
      assert was[0..] == was;
      ghost var all := LoadSvs(fd.Rest(), was, config.heap);
      assert [] + all.value == all.value;
      for i := 0 to NUM_GPS_SVS
        invariant |db.sv| == NUM_GPS_SVS && fd.Valid() && db == old(db).(sv := db.sv)
        invariant db.sv[i..] == was[i..]
        invariant var r := LoadSvs(fd.Rest(), was[i..], config.heap);
                  LoadSvs(old(fd.Rest()), was, config.heap) == Load(r.ok, db.sv[..i] + r.value, r.rest)
      {
        assert db.sv[i] == db.sv[i..][0] == was[i..][0] == was[i];
        assert was[i..][1..] == was[i + 1..];
        ghost var front := db.sv[..i];
        var v;
        ok, v := LoadSvField(fd, db.sv[i], config.heap);
        db := db.(sv := db.sv[i := v]);
        assert db.sv[..i + 1] == front + [v] && db.sv[i + 1..] == was[i + 1..];
        if !ok {
          assert db.sv == front + ([v] + was[i + 1..]);
          return;
        }
        Join(front, [v], LoadSvs(fd.Rest(), was[i + 1..], config.heap).value);
      }
      assert db.sv[..NUM_GPS_SVS] + [] == db.sv;
      ok := true;
    }

    /** loadAiding. */
    method LoadAiding(openOk: bool) returns (rc: bool)
      requires Valid()
      modifies this
      ensures Valid() && file == old(file) && Memory() == OnLoad(config, old(Memory()), old(file), openOk)
      ensures rc <==> !(old(dbAssistCleared) && config.persistence) || (openOk && file.Some?)
    {
      if dbAssistCleared && config.persistence {
        if !openOk || file.None? {
          return false;
        }
        LoadKeepsStored(file.value, db, config.heap, config.heap);
        var fd := new FileReader(file.value);
        var ok := LoadDatabase(fd);
        if ok {
          dbAssistCleared := false;
        }
      }
      rc := true;
    }

    /** saveAiding. */
    method SaveAiding(openOk: bool, room: nat)
      requires Valid()
      modifies `file, `dbAssistChanged
      ensures Valid() && (Memory(), file) == OnSave(config, old(Memory()), old(file), openOk, room)
    {
      if dbAssistChanged && config.persistence {
        if !openOk {
          return;
        }
        var fd := new FileWriter(room);
        var ok := fd.SaveDatabase(db);
        if ok {
          file := Some(fd.data);
          assert [] + EncodeDb(db) == EncodeDb(db);
          dbAssistChanged := false;
        } else {
          file := None;
        }
      }
    }
  }
}
