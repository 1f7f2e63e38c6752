/** AssistNow Offline: the host keeps one ALP file, serves it to the receiver in chunks and takes
    updates of it back (onNewUbxAlpMsg and putAlpFile in ublox_gps_hal/ubxgpsstate.cpp; message
    layouts in ublox_gps_hal/ubx_messageDef.h). */
module Alp {
  import opened Bytes
  import opened Prelude
  import Ubx = UbxFrame

  const CLS_AID: byte := 0x0B
  const ID_ALP: byte := 0x32
  const MAGIC := 0x015062B5
  const FILE_HEADER_SIZE := 84   // sizeof(ALP_FILE_HEADER_t)
  const CLI_SIZE := 8            // sizeof(GPS_UBX_AID_ALPSRV_CLI_t)
  const SRV_SIZE := 16           // sizeof(GPS_UBX_AID_ALPSRV_SRV_t)

  /** The checks of putAlpFile: long enough, the magic word, and the size in units of 4 bytes. */
  predicate AcceptableFile(data: seq<byte>) {
    && FILE_HEADER_SIZE <= |data|
    && FromLE(data[..4]) == MAGIC
    && FromLE(data[68..70]) * 4 == |data|
  }

  lemma AcceptableSize(data: seq<byte>)
    requires AcceptableFile(data)
    ensures |data| < 0x4_0000
  {
    TwoBytes(data[68..70]);
  }

  lemma TwoBytes(s: seq<byte>)
    requires |s| == 2
    ensures FromLE(s) == s[0] + 256 * (s[1] as int) < 0x1_0000
  {
    assert FromLE(s) == s[0] + 256 * FromLE(s[1..]) && s[1..][1..] == [];
    assert FromLE(s[1..]) == s[1] + 256 * FromLE(s[1..][1..]);
  }

  lemma TwoByteField(v: U2)
    ensures FromLE(LE(v, 2)) == v
  {
    assert Pow256(2) == 256 * Pow256(1) && Pow256(1) == 256 * Pow256(0);
    FromLEofLE(v, 2);
  }

  /** A file is accepted exactly when it has a header of 84 bytes that begins with the magic bytes
      and gives the length of the file in words of 4 bytes at byte 68. */
  lemma AcceptableExactly(data: seq<byte>)
    ensures AcceptableFile(data) <==>
            && |data| >= 84
            && data[..4] == [0xB5, 0x62, 0x50, 0x01]
            && 4 * (data[68] + 256 * (data[69] as int)) == |data|
  {
    if |data| >= 84 {
      TwoBytes(data[68..70]);
      FourBytes(data[..4]);
    }
  }

  lemma FourBytes(s: seq<byte>)
    requires |s| == 4
    ensures FromLE(s) == s[0] + 256 * (s[1] + 256 * (s[2] + 256 * (s[3] as int)))
  {
    TwoBytes(s[2..]);
    assert FromLE(s) == s[0] + 256 * FromLE(s[1..]) && s[1..][1..] == s[2..];
    assert FromLE(s[1..]) == s[1] + 256 * FromLE(s[1..][1..]);
  }

  // ------------------------------------------------------------------- requests

  /** The part of a message that the handler reads: offsets and sizes in 16-bit words. */
  datatype Request = Request(idSize: byte, kind: byte, ofs: U2, size: U2, fileId: U2)

  const UPDATE_KIND: byte := 0xFF

  /** A little-endian number of two bytes. */
  function ReadU2(msg: seq<byte>, at: nat): (v: U2)
    requires at + 2 <= |msg|
    ensures v == msg[at] + 256 * (msg[at + 1] as int)
  {
    TwoBytes(msg[at..at + 2]);
    FromLE(msg[at..at + 2])
  }

  /** msg is the complete message, framing included. */
  function ReadRequest(msg: seq<byte>): Request
    requires 6 + CLI_SIZE <= |msg|
  {
    Request(msg[6], msg[7], ReadU2(msg, 8), ReadU2(msg, 10), ReadU2(msg, 12))
  }

  datatype Decision =
    | Ignore
    | SendHeader
    | Update(offset: nat, size: nat)
    | Chunk(offset: nat, size: nat)

  function Decide(file: seq<byte>, fileId: U2, req: Request): Decision {
    if file == [] || req.idSize < CLI_SIZE then Ignore
    else
      var size, offset := 2 * req.size, 2 * req.ofs;
      if size > 0 && offset < |file| then
        var clipped := if offset + size >= |file| then |file| - offset else size;
        if req.kind == UPDATE_KIND then
          if fileId == req.fileId then Update(offset, clipped) else SendHeader
        else Chunk(offset, clipped)
      else SendHeader
  }

  /** Chunks and updates stay inside the file. */
  lemma DecisionInBounds(file: seq<byte>, fileId: U2, req: Request)
    ensures match Decide(file, fileId, req)
            case Update(o, n) => 0 < n && o + n <= |file| && req.fileId == fileId
            case Chunk(o, n) => 0 < n && o + n <= |file|
            case _ => true
  {
  }

  /** What the handler does with a message.  Without a file it does not look at it. */
  function DecideOn(file: seq<byte>, fileId: U2, msg: seq<byte>): Decision
    requires file == [] || 6 + CLI_SIZE <= |msg|
  {
    if file == [] then Ignore else Decide(file, fileId, ReadRequest(msg))
  }

  /** The message carries everything the handler copies out of it.  The code does not check this. */
  predicate Complete(file: seq<byte>, fileId: U2, msg: seq<byte>) {
    || file == []
    || (&& 6 + CLI_SIZE <= |msg|
        && match DecideOn(file, fileId, msg)
           case Update(_, n) => 6 + msg[6] + n <= |msg|
           case Chunk(_, _) => msg[6] <= SRV_SIZE && 6 + msg[6] <= |msg|
           case _ => true)
  }

  /** The file after the message. */
  function FileAfter(file: seq<byte>, fileId: U2, msg: seq<byte>): seq<byte>
    requires Complete(file, fileId, msg)
  {
    match DecideOn(file, fileId, msg)
    case Update(o, n) => file[..o] + msg[6 + msg[6]..6 + msg[6] + n] + file[o + n..]
    case _ => file
  }

  /** An update writes its data at its clipped range, and nothing else ever changes: not the
      length, not a byte outside, and no byte at all for another file id. */
  lemma UpdateTouchesOnlyItsRange(file: seq<byte>, fileId: U2, msg: seq<byte>)
    requires Complete(file, fileId, msg)
    ensures |FileAfter(file, fileId, msg)| == |file|
    ensures file != [] ==>
              var after, from := FileAfter(file, fileId, msg), 2 * (ReadU2(msg, 8) as int);
              var to := from + 2 * (ReadU2(msg, 10) as int);
              var applies := msg[7] == 0xFF && ReadU2(msg, 12) == fileId && 8 <= msg[6];
              forall k :: 0 <= k < |file| ==>
                after[k] == if applies && from <= k < to then msg[6 + msg[6] + (k - from)] else file[k]
  {
    if file != [] {
      UpdateRange(file, fileId, ReadRequest(msg));
      var d := DecideOn(file, fileId, msg);
      if d.Update? {
        UpdatedBytes(file, fileId, msg, d.offset, d.size);
      }
    }
  }

  lemma UpdatedBytes(file: seq<byte>, fileId: U2, msg: seq<byte>, o: nat, n: nat)
    requires Complete(file, fileId, msg) && file != [] && DecideOn(file, fileId, msg) == Update(o, n)
    ensures o + n <= |file| && |FileAfter(file, fileId, msg)| == |file|
    ensures forall k :: 0 <= k < |file| ==>
              FileAfter(file, fileId, msg)[k] == if o <= k < o + n then msg[6 + msg[6] + (k - o)] else file[k]
  {
    DecisionInBounds(file, fileId, ReadRequest(msg));
    WrittenOver(file, o, msg[6 + msg[6]..6 + msg[6] + n]);
  }

  /** Which bytes of the file a request updates, if any. */
  lemma UpdateRange(file: seq<byte>, fileId: U2, req: Request)
    requires file != []
    ensures var from, to := 2 * (req.ofs as int), Min(2 * (req.ofs as int) + 2 * req.size, |file|);
            var applies := req.kind == UPDATE_KIND && req.fileId == fileId && CLI_SIZE <= req.idSize;
            match Decide(file, fileId, req)
            case Update(o, n) => applies && o == from && o + n == to
            case _ => !applies || to <= from
  {
  }

  lemma WrittenOver(file: seq<byte>, o: nat, data: seq<byte>)
    requires o + |data| <= |file|
    ensures var after := file[..o] + data + file[o + |data|..];
            && |after| == |file|
            && forall k :: 0 <= k < |file| ==> after[k] == if o <= k < o + |data| then data[k - o] else file[k]
  {
  }

  // -------------------------------------------------------------------- replies

  /** The srv structure: the client's identifier over zeros, then fileId and a 16-bit dataSize. */
  function Srv(id: seq<byte>, fileId: U2, size: nat): (s: seq<byte>)
    requires CLI_SIZE <= |id| <= SRV_SIZE
    ensures |s| == SRV_SIZE
  {
    var image := id + seq(SRV_SIZE - |id|, i => 0);
    image[..6] + LE(fileId, 2) + LE(size % 0x1_0000, 2) + image[10..]
  }

  function ChunkMessage(id: seq<byte>, file: seq<byte>, fileId: U2, offset: nat, size: nat): Ubx.Message
    requires CLI_SIZE <= |id| <= SRV_SIZE && offset + size <= |file|
  {
    Ubx.Message(CLS_AID, ID_ALP, Srv(id, fileId, size)[..|id|] + file[offset..offset + size])
  }

  function HeaderMessage(file: seq<byte>, fileId: U2): Ubx.Message
    requires FILE_HEADER_SIZE <= |file|
  {
    var id := [SRV_SIZE, 1] + LE(0, 2) + LE(FILE_HEADER_SIZE / 2, 2) + seq(10, i => 0);
    Ubx.Message(CLS_AID, ID_ALP, Srv(id, fileId, FILE_HEADER_SIZE) + file[..FILE_HEADER_SIZE])
  }

  /** The message the handler writes back, if any. */
  function ReplyTo(file: seq<byte>, fileId: U2, msg: seq<byte>): Option<Ubx.Message>
    requires Complete(file, fileId, msg)
  {
    match DecideOn(file, fileId, msg)
    case Ignore => None
    case Update(_, _) => None
    case SendHeader => if |file| < FILE_HEADER_SIZE then None else Some(HeaderMessage(file, fileId))
    case Chunk(o, n) => Some(ChunkMessage(msg[6..6 + msg[6]], file, fileId, o, n))
  }

  // --------------------------------------------------- the handler, byte by byte

  /** A message with an identifier below 8 bytes is not answered, nor is an update that applies; a
      request for nothing, or for something behind the end, and an update for another file are
      answered with the header, as far as the file has one; any other request gets a chunk. */
  lemma AnswersExactly(file: seq<byte>, fileId: U2, msg: seq<byte>)
    requires Complete(file, fileId, msg) && file != []
    ensures var asked := 0 < ReadU2(msg, 10) && 2 * (ReadU2(msg, 8) as int) < |file|;
            var update := msg[7] == 0xFF && ReadU2(msg, 12) == fileId;
            var reply := ReplyTo(file, fileId, msg);
            && (msg[6] < 8 || (asked && update) ==> reply.None?)
            && (msg[6] >= 8 && (!asked || (msg[7] == 0xFF && !update)) ==>
                  reply == if |file| < 84 then None else Some(HeaderMessage(file, fileId)))
            && (msg[6] >= 8 && asked && msg[7] != 0xFF ==>
                  var n := Min(2 * (ReadU2(msg, 10) as int), |file| - 2 * (ReadU2(msg, 8) as int));
                  && 2 * (ReadU2(msg, 8) as int) + n <= |file| && 8 <= msg[6] <= 16 && 6 + msg[6] <= |msg|
                  && reply == Some(ChunkMessage(msg[6..6 + msg[6]], file, fileId, 2 * (ReadU2(msg, 8) as int), n)))
  {
  }

  lemma U2Bytes(v: U2)
    ensures LE(v, 2) == [v % 256, v / 256]
  {
    assert LE(v, 2) == [v % 256] + LE(v / 256, 1);
    assert LE(v / 256, 1) == [v / 256 % 256] + LE(v / 256 / 256, 0);
  }

  lemma {:induction false} SrvOfSixteen(id: seq<byte>, fileId: U2, size: U2)
    requires |id| == 16
    ensures Srv(id, fileId, size) ==
            id[..6] + [fileId % 256, fileId / 256] + [size % 256, size / 256] + id[10..]
  {
    U2Bytes(fileId);
    U2Bytes(size);
    assert id + seq(SRV_SIZE - |id|, i => 0) == id;
  }

  lemma {:induction false} HeaderId()
    ensures [SRV_SIZE, 1] + LE(0, 2) + LE(FILE_HEADER_SIZE / 2, 2) + seq(10, i => 0) ==
            [16, 1, 0, 0, 42, 0] + seq(10, i => 0)
  {
    U2Bytes(0);
    U2Bytes(42);
  }

  /** The header reply: an identifier of 16 bytes for 42 words of 16 bits from the start of the file
      on, the number of the file and the 84 bytes that follow, and the header of the file. */
  lemma {:induction false} HeaderReplyBytes(file: seq<byte>, fileId: U2)
    requires 84 <= |file|
    ensures var m := HeaderMessage(file, fileId);
            && m.clsId == 0x0B && m.msgId == 0x32
            && m.payload == [16, 1, 0, 0, 42, 0] + [fileId % 256, fileId / 256] + [84, 0] + [0, 0, 0, 0, 0, 0]
                            + file[..84]
  {
    var id := [16, 1, 0, 0, 42, 0] + seq(10, i => 0);
    HeaderId();
    SrvOfSixteen(id, fileId, 84);
    assert id[..6] == [16, 1, 0, 0, 42, 0] && id[10..] == [0, 0, 0, 0, 0, 0];
  }

  /** The chunk reply: the identifier of the request with the number of the file and the count of
      data bytes written over, as far as it goes, and the data. */
  lemma ChunkReplyBytes(id: seq<byte>, file: seq<byte>, fileId: U2, o: nat, n: nat, k: nat)
    requires 8 <= |id| <= 16 && o + n <= |file| && k < |id|
    ensures var m := ChunkMessage(id, file, fileId, o, n);
            && m.clsId == 0x0B && m.msgId == 0x32
            && |m.payload| == |id| + n && m.payload[|id|..] == file[o..o + n]
            && m.payload[k] == match k
                               case 6 => fileId % 256
                               case 7 => fileId / 256
                               case 8 => n % 0x1_0000 % 256
                               case 9 => n % 0x1_0000 / 256
                               case _ => id[k]
  {
    U2Bytes(fileId);
    U2Bytes(n % 0x1_0000);
    var image := id + seq(SRV_SIZE - |id|, i => 0);
    var srv := Srv(id, fileId, n);
    assert srv == image[..6] + [fileId % 256, fileId / 256] + [n % 0x1_0000 % 256, n % 0x1_0000 / 256] + image[10..];
  }

  // ----------------------------------------------------------------- the client

  /** The request a receiver frames for `size` words at word `ofs`. */
  function RequestMessage(kind: byte, ofs: U2, size: U2, fileId: U2, cookie: seq<byte>): Ubx.Message
    requires |cookie| == 8
  {
    Ubx.Message(CLS_AID, ID_ALP, [SRV_SIZE, kind] + LE(ofs, 2) + LE(size, 2) + LE(fileId, 2) + cookie)
  }

  lemma ReadsWhatWasAsked(kind: byte, ofs: U2, size: U2, fileId: U2, cookie: seq<byte>)
    requires |cookie| == 8
    ensures var msg := Ubx.Encode(RequestMessage(kind, ofs, size, fileId, cookie));
            && 6 + SRV_SIZE <= |msg| && ReadRequest(msg) == Request(SRV_SIZE, kind, ofs, size, fileId)
  {
    var m := RequestMessage(kind, ofs, size, fileId, cookie);
    var msg := Ubx.Encode(m);
    assert msg[6..6 + SRV_SIZE] == m.payload;
    assert msg[6] == m.payload[0] && msg[7] == m.payload[1];
    assert msg[8..10] == m.payload[2..4] == LE(ofs, 2);
    assert msg[10..12] == m.payload[4..6] == LE(size, 2);
    assert msg[12..14] == m.payload[6..8] == LE(fileId, 2);
    TwoByteField(ofs);
    TwoByteField(size);
    TwoByteField(fileId);
  }

  /** What a client takes out of a reply: dataSize bytes behind the identifier. */
  function ClientData(payload: seq<byte>): Option<seq<byte>> {
    if |payload| < SRV_SIZE || payload[0] != SRV_SIZE then None
    else
      var n := ReadU2(payload, 8);
      if |payload| < SRV_SIZE + n then None else Some(payload[SRV_SIZE..SRV_SIZE + n])
  }

  /** One exchange over the wire: the request is framed, the handler answers, the client decodes
      the frame it gets back. */
  function Exchange(file: seq<byte>, fileId: U2, kind: byte, ofs: U2, size: U2, cookie: seq<byte>): Option<seq<byte>>
    requires |cookie| == 8 && kind != UPDATE_KIND
  {
    ReadsWhatWasAsked(kind, ofs, size, 0, cookie);
    var msg := Ubx.Encode(RequestMessage(kind, ofs, size, 0, cookie));
    match ReplyTo(file, fileId, msg)
    case None => None
    case Some(reply) =>
      match Ubx.Decode(Ubx.Encode(reply))
      case None => None
      case Some(m) => ClientData(m.payload)
  }

  lemma ChunkPayload(id: seq<byte>, file: seq<byte>, fileId: U2, o: nat, n: nat)
    requires |id| == SRV_SIZE && id[0] == SRV_SIZE && o + n <= |file|
    ensures var m := ChunkMessage(id, file, fileId, o, n);
            && |m.payload| == SRV_SIZE + n
            && (n < 0x1_0000 ==> ClientData(m.payload) == Some(file[o..o + n]))
            && ReadU2(m.payload, 6) == fileId
  {
    var p, s := ChunkMessage(id, file, fileId, o, n).payload, Srv(id, fileId, n);
    assert s[8..10] == LE(n % 0x1_0000, 2) && s[6..8] == LE(fileId, 2);
    assert p == s + file[o..o + n];
    assert p[8..10] == s[8..10] && p[6..8] == s[6..8];
    TwoByteField(n % 0x1_0000);
    TwoByteField(fileId);
    assert p[SRV_SIZE..SRV_SIZE + n] == file[o..o + n];
  }

  /** Where a chunk ends: at the end of the file at the latest. */
  function Until(file: seq<byte>, ofs: nat, size: nat): nat {
    if 2 * ofs + 2 * size < |file| then 2 * ofs + 2 * size else |file|
  }

  /** The request as framed, the part of it that the handler copies, and the chunk it cuts. */
  lemma AskedChunk(file: seq<byte>, fileId: U2, kind: byte, ofs: U2, size: U2, cookie: seq<byte>)
    returns (msg: seq<byte>, id: seq<byte>)
    requires |cookie| == 8 && kind != UPDATE_KIND && size > 0 && 2 * (ofs as int) < |file|
    ensures msg == Ubx.Encode(RequestMessage(kind, ofs, size, 0, cookie)) && 6 + SRV_SIZE <= |msg|
    ensures |id| == SRV_SIZE && id[0] == SRV_SIZE
    ensures Complete(file, fileId, msg)
    ensures ReplyTo(file, fileId, msg) ==
            Some(ChunkMessage(id, file, fileId, 2 * ofs, Until(file, ofs, size) - 2 * ofs))
  {
    ReadsWhatWasAsked(kind, ofs, size, 0, cookie);
    msg := Ubx.Encode(RequestMessage(kind, ofs, size, 0, cookie));
    id := msg[6..6 + msg[6]];
    assert ReadRequest(msg).idSize == SRV_SIZE;
  }

  /** The client's view of a reply: what it decodes, if anything. */
  lemma ReplyRead(m: Ubx.Message)
    ensures (match Ubx.Decode(Ubx.Encode(m)) case None => None case Some(d) => ClientData(d.payload)) ==
            if |m.payload| < 0x1_0000 then ClientData(m.payload) else None
  {
    Ubx.DecodeEncodeExactly(m);
  }

  lemma ChunkRead(id: seq<byte>, file: seq<byte>, fileId: U2, o: nat, n: nat)
    requires |id| == SRV_SIZE && id[0] == SRV_SIZE && o + n <= |file|
    ensures (match Ubx.Decode(Ubx.Encode(ChunkMessage(id, file, fileId, o, n)))
             case None => None
             case Some(d) => ClientData(d.payload)) ==
            if SRV_SIZE + n < 0x1_0000 then Some(file[o..o + n]) else None
  {
    ReplyRead(ChunkMessage(id, file, fileId, o, n));
    ChunkPayload(id, file, fileId, o, n);
  }

  /** A chunk request inside the file gets exactly the bytes asked for, clipped to the file, when
      the reply fits a UBX frame, and nothing usable when it does not. */
  lemma ExchangeExactly(file: seq<byte>, fileId: U2, kind: byte, ofs: U2, size: U2, cookie: seq<byte>)
    requires |cookie| == 8 && kind != UPDATE_KIND && size > 0 && 2 * (ofs as int) < |file|
    ensures var to := Until(file, ofs, size);
            Exchange(file, fileId, kind, ofs, size, cookie) ==
            if SRV_SIZE + (to - 2 * ofs) < 0x1_0000 then Some(file[2 * ofs..to]) else None
  {
    var o, n := 2 * (ofs as int), Until(file, ofs, size) - 2 * ofs;
    var msg, id := AskedChunk(file, fileId, kind, ofs, size, cookie);
    ChunkRead(id, file, fileId, o, n);
    assert file[o..o + n] == file[2 * ofs..Until(file, ofs, size)];
  }

  type Server = (U2, U2) -> Option<seq<byte>>

  /** The client asks a server for consecutive chunks of the planned sizes, from word `ofs` on,
      until it has reached the end of the file or the plan. */
  function Fetch(serve: Server, length: nat, ofs: nat, plan: seq<U2>): Option<seq<byte>>
    decreases |plan|
  {
    if 2 * ofs >= length || plan == [] then Some([])
    else if ofs >= 0x1_0000 then None
    else
      match serve(ofs, plan[0])
      case None => None
      case Some(data) => Behind(data, Fetch(serve, length, ofs + plan[0], plan[1..]))
  }

  function Behind(data: seq<byte>, rest: Option<seq<byte>>): Option<seq<byte>> {
    if rest.None? then None else Some(data + rest.value)
  }

  lemma BehindSlices(s: seq<byte>, i: nat, j: nat, k: nat, rest: Option<seq<byte>>)
    requires i <= j <= k <= |s|
    ensures Behind(s[i..j], Behind(s[j..k], rest)) == Behind(s[i..k], rest)
  {
    if rest.Some? {
      Join(s[i..j], s[j..k], rest.value);
      assert s[i..j] + s[j..k] == s[i..k];
    }
  }

  lemma NothingBefore(s: seq<byte>, i: nat, rest: Option<seq<byte>>)
    requires i <= |s|
    ensures Behind(s[i..i], rest) == rest
  {
    if rest.Some? {
      assert s[i..i] + rest.value == rest.value;
    }
  }

  function Total(plan: seq<U2>): nat {
    if plan == [] then 0 else plan[0] + Total(plan[1..])
  }

  lemma {:induction false} TotalAppend(a: seq<U2>, b: seq<U2>)
    ensures Total(a + b) == Total(a) + Total(b)
  {
    if a == [] {
      assert a + b == b;
    } else {
      assert (a + b)[1..] == a[1..] + b;
      TotalAppend(a[1..], b);
    }
  }

  /** A request that a frame can answer in full. */
  predicate FitsFrame(size: U2) {
    0 < size && SRV_SIZE + 2 * (size as int) < 0x1_0000
  }

  predicate ServesChunk(serve: Server, file: seq<byte>, ofs: U2, size: U2) {
    FitsFrame(size) && 2 * (ofs as int) < |file| ==>
      serve(ofs, size) == Some(file[2 * (ofs as int)..Until(file, ofs, size)])
  }

  /** The server sends every fitting chunk of the file, clipped to it. */
  predicate ServesFile(serve: Server, file: seq<byte>) {
    forall ofs: U2, size: U2 :: ServesChunk(serve, file, ofs, size)
  }

  lemma {:induction false} ChunksMakeTheFile(serve: Server, file: seq<byte>, ofs: nat, plan: seq<U2>)
    requires ServesFile(serve, file) && |file| <= WORDS_REACH && AllFit(plan)
    requires 2 * ofs <= |file| <= 2 * (ofs + Total(plan))
    ensures Fetch(serve, |file|, ofs, plan) == Some(file[2 * ofs..])
    decreases |plan|
  {
    if 2 * ofs == |file| {
    } else {
      var next, to := ofs + plan[0], Until(file, ofs, plan[0]);
      assert ServesChunk(serve, file, ofs, plan[0]);
      if 2 * next <= |file| {
        ChunksMakeTheFile(serve, file, next, plan[1..]);
      }
      assert file[2 * ofs..to] + file[to..] == file[2 * ofs..];
    }
  }

  predicate AllFit(plan: seq<U2>) {
    forall i :: 0 <= i < |plan| ==> FitsFrame(plan[i])
  }

  /** The first byte that no 16-bit word offset reaches. */
  const WORDS_REACH := 0x2_0000

  /** The words of the largest chunk that fits a frame. */
  const LONGEST: U2 := 32759

  /** The end of the largest chunk at the last word offset. */
  const CHUNKS_REACH := 2 * 0xFFFF + 2 * 32759

  function Singles(n: nat): (plan: seq<U2>)
    ensures |plan| == n && AllFit(plan) && Total(plan) == n
  {
    if n == 0 then [] else [1] + Singles(n - 1)
  }

  lemma FetchStep(serve: Server, file: seq<byte>, ofs: nat, size: U2, plan: seq<U2>)
    requires ServesFile(serve, file) && FitsFrame(size) && ofs < 0x1_0000
    requires 2 * (ofs + size) <= |file|
    ensures Fetch(serve, |file|, ofs, [size] + plan) ==
            Behind(file[2 * ofs..2 * (ofs + size)], Fetch(serve, |file|, ofs + size, plan))
  {
    assert ([size] + plan)[1..] == plan;
    assert ServesChunk(serve, file, ofs, size);
  }

  /** One chunk in front of chunks that are known to fetch the bytes up to word `at`. */
  lemma FetchOneMore(serve: Server, file: seq<byte>, ofs: nat, size: U2, plan: seq<U2>, at: nat,
                     rest: Option<seq<byte>>)
    requires ServesFile(serve, file) && FitsFrame(size) && ofs < 0x1_0000
    requires ofs + size <= at && 2 * at <= |file|
    requires Fetch(serve, |file|, ofs + size, plan) == Behind(file[2 * (ofs + size)..2 * at], rest)
    ensures Fetch(serve, |file|, ofs, [size] + plan) == Behind(file[2 * ofs..2 * at], rest)
  {
    FetchStep(serve, file, ofs, size, plan);
    BehindSlices(file, 2 * ofs, 2 * (ofs + size), 2 * at, rest);
  }

  /** A front of a plan that stays inside the file fetches its part; the rest is up to the rest. */
  lemma {:induction false} FetchFront(serve: Server, file: seq<byte>, ofs: nat, front: seq<U2>, more: seq<U2>)
    requires ServesFile(serve, file) && AllFit(front)
    requires ofs + Total(front) <= 0x1_0000 && 2 * (ofs + Total(front)) <= |file|
    ensures var at := ofs + Total(front);
            Fetch(serve, |file|, ofs, front + more) == Behind(file[2 * ofs..2 * at], Fetch(serve, |file|, at, more))
    decreases |front|
  {
    if front == [] {
      assert front + more == more;
      NothingBefore(file, 2 * ofs, Fetch(serve, |file|, ofs, more));
    } else {
      var size, tail, at := front[0], front[1..], ofs + Total(front);
      assert front == [size] + tail && at == ofs + size + Total(tail);
      Join([size], tail, more);
      FetchFront(serve, file, ofs + size, tail, more);
      FetchOneMore(serve, file, ofs, size, tail + more, at, Fetch(serve, |file|, at, more));
    }
  }

  lemma TotalOfThree(a: U2, b: U2, c: U2)
    ensures Total([a, b, c]) == a as int + b as int + c as int
  {
    TotalAppend([a], [b]);
    TotalAppend([a, b], [c]);
    assert [a] + [b] == [a, b] && [a, b] + [c] == [a, b, c];
    assert Total([a]) == a + Total([]) && Total([b]) == b + Total([]) && Total([c]) == c + Total([]);
  }

  lemma LastChunk(serve: Server, file: seq<byte>, ofs: U2, size: U2)
    requires ServesFile(serve, file) && FitsFrame(size)
    requires 2 * (ofs as int) < |file| <= 2 * (ofs as int + size)
    ensures Fetch(serve, |file|, ofs, [size]) == Some(file[2 * (ofs as int)..])
  {
    var data := file[2 * (ofs as int)..];
    assert Until(file, ofs, size) == |file| && file[2 * (ofs as int)..|file|] == data;
    assert ServesChunk(serve, file, ofs, size);
    assert Fetch(serve, |file|, ofs as int + size, [size][1..]) == Some([]);
    assert data + [] == data;
  }

  lemma SameFront(a: seq<byte>, b: seq<byte>, c: seq<byte>)
    ensures a + b == a + c ==> b == c
  {
    assert (a + b)[|a|..] == b && (a + c)[|a|..] == c;
  }

  lemma {:induction false} FetchStopsShort(serve: Server, file: seq<byte>, ofs: nat, plan: seq<U2>)
    requires ServesFile(serve, file) && AllFit(plan)
    requires |file| > CHUNKS_REACH && 2 * ofs <= CHUNKS_REACH
    ensures Fetch(serve, |file|, ofs, plan) != Some(file[2 * ofs..])
    decreases |plan|
  {
    if plan == [] {
      assert file[2 * ofs..] != [];
    } else if ofs < 0x1_0000 {
      assert plan == [plan[0]] + plan[1..];
      FetchStopsShort(serve, file, ofs + plan[0], plan[1..]);
      StillShort(serve, file, ofs, plan[0], plan[1..]);
    }
  }

  lemma StillShort(serve: Server, file: seq<byte>, ofs: nat, size: U2, plan: seq<U2>)
    requires ServesFile(serve, file) && FitsFrame(size) && ofs < 0x1_0000
    requires 2 * (ofs + size) <= |file|
    requires Fetch(serve, |file|, ofs + size, plan) != Some(file[2 * (ofs + size)..])
    ensures Fetch(serve, |file|, ofs, [size] + plan) != Some(file[2 * ofs..])
  {
    var rest := Fetch(serve, |file|, ofs + size, plan);
    FetchStep(serve, file, ofs, size, plan);
    TwoSlices(file, 2 * ofs, 2 * (ofs + size), |file|);
    if rest.Some? {
      SameFront(file[2 * ofs..2 * (ofs + size)], rest.value, file[2 * (ofs + size)..]);
    }
  }

  lemma TwoSlices(s: seq<byte>, i: nat, j: nat, k: nat)
    requires i <= j <= k <= |s|
    ensures s[i..j] + s[j..k] == s[i..k]
    ensures k == |s| ==> s[j..k] == s[j..] && s[i..k] == s[i..]
  {
  }

  predicate Fetches(serve: Server, file: seq<byte>, plan: seq<U2>) {
    Fetch(serve, |file|, 0, plan) == Some(file)
  }

  lemma ShortFileFetched(serve: Server, file: seq<byte>, plan: seq<U2>)
    requires ServesFile(serve, file) && AllFit(plan)
    requires |file| <= WORDS_REACH && |file| <= 2 * Total(plan)
    ensures Fetches(serve, file, plan)
  {
    ChunksMakeTheFile(serve, file, 0, plan);
    assert file[0..] == file;
  }

  /** Chunks up to the end of the reach of word offsets, then whatever follows: None. */
  lemma LongFileNotFetched(serve: Server, file: seq<byte>, more: seq<U2>)
    requires ServesFile(serve, file) && |file| > WORDS_REACH && more != []
    ensures !Fetches(serve, file, [LONGEST, LONGEST, 18] + more)
  {
    TotalOfThree(LONGEST, LONGEST, 18);
    FetchFront(serve, file, 0, [LONGEST, LONGEST, 18], more);
  }

  /** Every plan of fitting chunks that is long enough fetches the file, exactly when the file is
      not longer than 128 KiB. */
  lemma EveryPlanFetchesExactly(serve: Server, file: seq<byte>)
    requires ServesFile(serve, file)
    ensures (forall plan :: AllFit(plan) && |file| <= 2 * Total(plan) ==> Fetches(serve, file, plan))
            <==> |file| <= 0x2_0000
  {
    if |file| <= WORDS_REACH {
      forall plan | AllFit(plan) && |file| <= 2 * Total(plan) ensures Fetches(serve, file, plan) {
        ShortFileFetched(serve, file, plan);
      }
    } else {
      var front, more := [LONGEST, LONGEST, 18], Singles(|file|);
      LongFileNotFetched(serve, file, more);
      TotalAppend(front, more);
      assert AllFit(front + more);
    }
  }

  lemma MiddleFileFetched(serve: Server, file: seq<byte>)
    requires ServesFile(serve, file) && WORDS_REACH < |file| <= CHUNKS_REACH
    ensures Fetches(serve, file, [LONGEST, LONGEST, 17] + [LONGEST])
  {
    TotalOfThree(LONGEST, LONGEST, 17);
    FetchFront(serve, file, 0, [LONGEST, LONGEST, 17], [LONGEST]);
    LastChunk(serve, file, 0xFFFF, LONGEST);
    assert file[0..2 * 0xFFFF] + file[2 * 0xFFFF..] == file;
  }

  /** And some plan of fitting chunks fetches it, exactly when the largest chunk at the last word
      offset reaches its end. */
  lemma SomePlanFetchesExactly(serve: Server, file: seq<byte>)
    requires ServesFile(serve, file)
    ensures (exists plan :: AllFit(plan) && Fetches(serve, file, plan)) <==> |file| <= 196588
  {
    if |file| <= WORDS_REACH {
      ShortFileFetched(serve, file, Singles(|file|));
    } else if |file| <= CHUNKS_REACH {
      MiddleFileFetched(serve, file);
      assert AllFit([LONGEST, LONGEST, 17] + [LONGEST]);
    } else {
      forall plan | AllFit(plan) ensures !Fetches(serve, file, plan) {
        FetchStopsShort(serve, file, 0, plan);
        assert file[0..] == file;
      }
    }
  }

  function ServerOf(file: seq<byte>, fileId: U2, kind: byte, cookie: seq<byte>): Server
    requires |cookie| == 8 && kind != UPDATE_KIND
  {
    (ofs, size) => Exchange(file, fileId, kind, ofs, size, cookie)
  }

  lemma HandlerServesFile(file: seq<byte>, fileId: U2, kind: byte, cookie: seq<byte>)
    requires |cookie| == 8 && kind != UPDATE_KIND
    ensures ServesFile(ServerOf(file, fileId, kind, cookie), file)
  {
    var serve := ServerOf(file, fileId, kind, cookie);
    forall ofs: U2, size: U2 ensures ServesChunk(serve, file, ofs, size) {
      if FitsFrame(size) && 2 * (ofs as int) < |file| {
        ExchangeExactly(file, fileId, kind, ofs, size, cookie);
      }
    }
  }

  /** So with the handler on the other end of the wire, a client ends up with the file byte for
      byte however it splits it, if and only if the file has at most 128 KiB; and it can split it
      so at all if and only if the last word offset and the longest frame reach its end. */
  lemma FetchReconstructsExactly(file: seq<byte>, fileId: U2, kind: byte, cookie: seq<byte>)
    requires |cookie| == 8 && kind != UPDATE_KIND
    ensures var serve := ServerOf(file, fileId, kind, cookie);
            && ((forall plan :: AllFit(plan) && |file| <= 2 * Total(plan) ==> Fetches(serve, file, plan))
                <==> |file| <= 0x2_0000)
            && ((exists plan :: AllFit(plan) && Fetches(serve, file, plan)) <==> |file| <= 196588)
  {
    HandlerServesFile(file, fileId, kind, cookie);
    EveryPlanFetchesExactly(ServerOf(file, fileId, kind, cookie), file);
    SomePlanFetchesExactly(ServerOf(file, fileId, kind, cookie), file);
  }

  /** Whatever the size of a request, no reply covers byte 0x30000. */
  lemma FarEndOutOfReach(file: seq<byte>, fileId: U2, kind: byte, ofs: U2, size: U2, cookie: seq<byte>)
    requires |cookie| == 8 && kind != UPDATE_KIND && size > 0 && 2 * (ofs as int) < |file|
    requires Exchange(file, fileId, kind, ofs, size, cookie).Some?
    ensures 2 * ofs + |Exchange(file, fileId, kind, ofs, size, cookie).value| < 0x3_0000
  {
    ExchangeExactly(file, fileId, kind, ofs, size, cookie);
  }
}
