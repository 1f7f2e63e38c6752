/** UBX framing in the u-blox driver: the checksum computed over segments with 32-bit
    accumulators, the frame writer, and a pure parser that frames are checked against
    (ublox_gps_hal/ubxgpsstate.cpp). */
module UbxFrame {
  import Align
  import opened Bytes
  import opened Prelude

  // ------------------------------------------------------------------ checksum

  const U32 := 0x1_0000_0000

  /** Both checksum bytes after one more data byte. */
  function CrcStep(crc: (byte, byte), d: byte): (byte, byte) {
    var a: byte := (crc.0 + d) % 256;
    (a, (crc.1 + a) % 256)
  }

  function Crc(seed: (byte, byte), data: seq<byte>): (byte, byte) {
    if data == [] then seed else CrcStep(Crc(seed, data[..|data| - 1]), data[|data| - 1])
  }

  function Sum(data: seq<byte>): nat {
    if data == [] then 0 else Sum(data[..|data| - 1]) + data[|data| - 1]
  }

  /** The sum in which a byte counts once for itself and once for every byte behind it. */
  function WeightedSum(data: seq<byte>): nat {
    if data == [] then 0 else WeightedSum(data[..|data| - 1]) + Sum(data)
  }

  lemma ModIs(x: int, q: int, r: int)
    requires x == 256 * q + r && 0 <= r < 256
    ensures x % 256 == r
  {
  }

  /** Reducing early changes nothing. */
  lemma ModAdd(x: int, d: int)
    ensures (x % 256 + d) % 256 == (x + d) % 256
  {
    var y := x % 256 + d;
    ModIs(x + d, x / 256 + y / 256, y % 256);
  }

  lemma LowByteOfWrap(x: int)
    ensures x % U32 % 256 == x % 256
  {
    var y := x % U32;
    assert x == U32 * (x / U32) + y;
    ModIs(x, 0x100_0000 * (x / U32) + y / 256, y % 256);
  }

  /** One byte through the wrapping accumulators, seen through their low bytes. */
  lemma WrappedStep(a: int, b: int, d: byte, a2: int, b2: int)
    requires a2 == (a + d) % U32 && b2 == (b + a2) % U32
    ensures (a2 % 256, b2 % 256) == CrcStep((a % 256, b % 256), d)
  {
    LowByteOfWrap(a + d);
    ModAdd(a, d);
    LowByteOfWrap(b + a2);
    ModAdd(b, a2);
    ModAdd(a2, b % 256);
  }

  /** crcUbx: the accumulators are 32 bits wide and wrap; only their low bytes are kept. */
  method CrcUbx(crc: array<byte>, data: seq<byte>)
    requires crc.Length == 2
    modifies crc
    ensures (crc[0], crc[1]) == Crc(old((crc[0], crc[1])), data)
  {
    ghost var seed := (crc[0], crc[1]);
    var crcA: int, crcB: int := crc[0], crc[1];
    for i := 0 to |data|
      invariant 0 <= crcA < U32 && 0 <= crcB < U32
      invariant (crcA % 256, crcB % 256) == Crc(seed, data[..i])
    {
      ghost var a, b := crcA, crcB;
      crcA := (crcA + data[i]) % U32;
      crcB := (crcB + crcA) % U32;
      assert data[..i + 1][..i] == data[..i];
      WrappedStep(a, b, data[i], crcA, crcB);
    }
    assert data[..|data|] == data;
    crc[0] := crcA % 256;
    crc[1] := crcB % 256;
  }

  lemma CrcStepSums(a: int, b: int, d: byte)
    ensures CrcStep((a % 256, b % 256), d) == ((a + d) % 256, (b + (a + d)) % 256)
  {
    ModAdd(a, d);
    ModAdd(b, (a + d) % 256);
    ModAdd(a + d, b);
  }

  /** Whatever the accumulators did in between, the result is the plain sum and the weighted sum
      modulo 256. */
  lemma {:induction false} CrcIsSums(data: seq<byte>)
    ensures Crc((0, 0), data) == (Sum(data) % 256, WeightedSum(data) % 256)
  {
    if data == [] {
    } else {
      var init, d := data[..|data| - 1], data[|data| - 1];
      CrcIsSums(init);
      CrcStepSums(Sum(init), WeightedSum(init), d);
    }
  }

  /** Running segment by segment is running over the concatenation. */
  lemma {:induction false} CrcSegments(seed: (byte, byte), a: seq<byte>, b: seq<byte>)
    ensures Crc(Crc(seed, a), b) == Crc(seed, a + b)
  {
    if b == [] {
      assert a + b == a;
    } else {
      assert (a + b)[..|a + b| - 1] == a + b[..|b| - 1];
      CrcSegments(seed, a, b[..|b| - 1]);
    }
  }

  lemma SameByteModulo(s: int, x: byte, y: byte)
    requires (s + x) % 256 == (s + y) % 256
    ensures x == y
  {
  }

  function Diff(x: byte, y: byte): int {
    x as int - y as int
  }

  /** k times x, by addition. */
  function Times(k: nat, x: int): int {
    if k == 0 then 0 else Times(k - 1, x) + x
  }

  lemma {:induction false} TimesIsProduct(k: nat, x: int)
    ensures Times(k, x) == k * x
  {
    if k == 0 {
    } else {
      TimesIsProduct(k - 1, x);
    }
  }

  lemma {:induction false} TimesApart(far: nat, near: nat, gap: nat, x: int, y: int)
    requires far == near + gap && y == -x
    ensures Times(far, y) + Times(near, x) == -Times(gap, x)
  {
    if near > 0 {
      TimesApart(far - 1, near - 1, gap, x, y);
    } else {
      TimesIsProduct(gap, x);
      TimesIsProduct(gap, y);
    }
  }

  lemma {:induction false} SumUpdate(data: seq<byte>, i: nat, x: byte)
    requires i < |data|
    ensures Sum(data[i := x]) == Sum(data) + Diff(x, data[i])
    ensures WeightedSum(data[i := x]) == WeightedSum(data) + Times(|data| - i, Diff(x, data[i]))
  {
    var n := |data| - 1;
    var e := data[i := x];
    if i == n {
      assert e[..n] == data[..n];
      assert Times(1, Diff(x, data[i])) == Times(0, Diff(x, data[i])) + Diff(x, data[i]);
    } else {
      assert e[..n] == data[..n][i := x];
      SumUpdate(data[..n], i, x);
    }
  }

  /** One changed byte always changes the first checksum byte. */
  lemma OneByteChangeDetected(data: seq<byte>, i: nat, x: byte)
    requires i < |data| && x != data[i]
    ensures Crc((0, 0), data[i := x]).0 != Crc((0, 0), data).0
  {
    CrcIsSums(data);
    CrcIsSums(data[i := x]);
    SumUpdate(data, i, x);
    var s := Sum(data) - data[i];
    if (s + x) % 256 == (s + data[i]) % 256 {
      SameByteModulo(s, x, data[i]);
    }
  }

  function Swapped(data: seq<byte>, i: nat, j: nat): seq<byte>
    requires i < |data| && j < |data|
  {
    data[i := data[j]][j := data[i]]
  }

  lemma SwapSums(data: seq<byte>, i: nat, j: nat)
    requires i < j < |data|
    ensures Sum(Swapped(data, i, j)) == Sum(data)
    ensures WeightedSum(Swapped(data, i, j)) == WeightedSum(data) - Times(j - i, Diff(data[i], data[j]))
  {
    var n, x, y, once := |data|, data[i], data[j], data[i := data[j]];
    SumUpdate(data, i, y);
    SumUpdate(once, j, x);
    SwapTimes(n, i, j, x, y);
    assert WeightedSum(once[j := x]) == WeightedSum(once) + Times(n - j, Diff(x, y));
  }

  lemma SwapTimes(n: nat, i: nat, j: nat, x: byte, y: byte)
    requires i < j < n
    ensures Times(n - i, Diff(y, x)) + Times(n - j, Diff(x, y)) == -Times(j - i, Diff(x, y))
  {
    TimesApart(n - i, n - j, j - i, Diff(x, y), Diff(y, x));
  }

  /** Two strings with the same sum and weighted sums d apart. */
  lemma CrcOfEqualSums(data: seq<byte>, e: seq<byte>, d: int)
    requires Sum(e) == Sum(data) && WeightedSum(e) == WeightedSum(data) - d
    ensures Crc((0, 0), e).0 == Crc((0, 0), data).0
    ensures Crc((0, 0), e).1 == Crc((0, 0), data).1 <==> d % 256 == 0
  {
    CrcIsSums(data);
    CrcIsSums(e);
    SameModulo(WeightedSum(data), d);
  }

  lemma SwapDetectedTimes(data: seq<byte>, i: nat, j: nat)
    requires i < j < |data|
    ensures Crc((0, 0), Swapped(data, i, j)).0 == Crc((0, 0), data).0
    ensures Crc((0, 0), Swapped(data, i, j)).1 == Crc((0, 0), data).1
            <==> Times(j - i, Diff(data[i], data[j])) % 256 == 0
  {
    SwapSums(data, i, j);
    CrcOfEqualSums(data, Swapped(data, i, j), Times(j - i, Diff(data[i], data[j])));
  }

  lemma SwapDetectedBy(data: seq<byte>, i: nat, j: nat, k: int)
    requires i < j < |data| && k == Times(j - i, Diff(data[i], data[j]))
    ensures Crc((0, 0), Swapped(data, i, j)) == Crc((0, 0), data) <==> k % 256 == 0
  {
    SwapDetectedTimes(data, i, j);
  }

  /** A swap of two bytes goes unnoticed exactly when distance times difference is a multiple of
      256. */
  lemma SwapDetectedExactly(data: seq<byte>, i: nat, j: nat)
    requires i < j < |data|
    ensures Crc((0, 0), Swapped(data, i, j)) == Crc((0, 0), data)
            <==> (j - i) * Diff(data[i], data[j]) % 256 == 0
  {
    TimesIsProduct(j - i, Diff(data[i], data[j]));
    SwapDetectedBy(data, i, j, (j - i) * Diff(data[i], data[j]));
  }

  lemma SameModulo(b: int, k: int)
    ensures (b - k) % 256 == b % 256 <==> k % 256 == 0
  {
    if k % 256 == 0 {
      ModIs(b - k, b / 256 - k / 256, b % 256);
    }
    if (b - k) % 256 == b % 256 {
      ModIs(k, b / 256 - (b - k) / 256, 0);
    }
  }

  /** So unequal neighbours cannot be swapped unnoticed. */
  lemma AdjacentSwapDetected(data: seq<byte>, i: nat)
    requires i + 1 < |data| && data[i] != data[i + 1]
    ensures Crc((0, 0), Swapped(data, i, i + 1)) != Crc((0, 0), data)
  {
    SwapDetectedTimes(data, i, i + 1);
    var x := Diff(data[i], data[i + 1]);
    assert Times(1, x) == Times(0, x) + x;
    SmallMultipleIsZero(x);
  }

  lemma SmallMultipleIsZero(x: int)
    requires -256 < x < 256
    ensures x % 256 == 0 <==> x == 0
  {
  }

  // -------------------------------------------------------------------- frames

  const SYNC1: byte := 0xB5
  const SYNC2: byte := 0x62

  datatype Message = Message(clsId: byte, msgId: byte, payload: seq<byte>)

  /** The six header bytes; the length field keeps the low 16 bits. */
  function Header(clsId: byte, msgId: byte, length: nat): (h: seq<byte>)
    ensures |h| == 6
  {
    [SYNC1, SYNC2, clsId, msgId, length % 256, length / 256 % 256]
  }

  function Trailer(covered: seq<byte>): seq<byte> {
    var crc := Crc((0, 0), covered);
    [crc.0, crc.1]
  }

  function Encode(m: Message): (s: seq<byte>)
    ensures |s| == |m.payload| + 8
  {
    var body := Header(m.clsId, m.msgId, |m.payload|) + m.payload;
    body + Trailer(body[2..])
  }

  /** A datagram is accepted when it is one whole frame with a matching checksum. */
  function Decode(s: seq<byte>): Option<Message> {
    if |s| < 8 || s[0] != SYNC1 || s[1] != SYNC2 then None
    else if s[4] + (s[5] as int) * 256 != |s| - 8 then None
    else if s[|s| - 2..] != Trailer(s[2..|s| - 2]) then None
    else Some(Message(s[2], s[3], s[6..|s| - 2]))
  }

  /** A frame spelled out: sync bytes, class, id, little-endian length, payload, and behind them
      the sum and then the weighted sum of everything but the sync bytes. */
  predicate IsFrame(s: seq<byte>, clsId: byte, msgId: byte, payload: seq<byte>) {
    && |s| == |payload| + 8
    && s[0] == 0xB5 && s[1] == 0x62 && s[2] == clsId && s[3] == msgId
    && s[4] as int + 256 * s[5] as int == |payload| % 0x1_0000
    && s[6..|s| - 2] == payload
    && s[|s| - 2] == Sum(s[2..|s| - 2]) % 256
    && s[|s| - 1] == WeightedSum(s[2..|s| - 2]) % 256
  }

  lemma TrailerIsSums(covered: seq<byte>)
    ensures Trailer(covered) == [Sum(covered) % 256, WeightedSum(covered) % 256]
  {
    CrcIsSums(covered);
  }

  /** The encoder produces the frame of its message. */
  lemma EncodeIsFrame(m: Message)
    ensures IsFrame(Encode(m), m.clsId, m.msgId, m.payload)
  {
    var n, s := |m.payload|, Encode(m);
    var body := Header(m.clsId, m.msgId, n) + m.payload;
    assert s[2..|s| - 2] == body[2..];
    TrailerIsSums(body[2..]);
    assert s[6..|s| - 2] == m.payload;
    LowBytes(n);
  }

  lemma LowBytes(n: nat)
    ensures n % 256 + 256 * (n / 256 % 256) == n % 0x1_0000
  {
    var high, middle, low := n / 256 / 256, n / 256 % 256, n % 256;
    assert n == 256 * (n / 256) + low && n / 256 == 256 * high + middle;
    Align.DivMul(high, 0x1_0000, 256 * middle + low);
  }

  /** And a string of bytes is accepted exactly when it is the frame of a message whose length fits
      the field, which is then what it decodes to. */
  lemma DecodesExactly(s: seq<byte>, m: Message)
    ensures Decode(s) == Some(m) <==> IsFrame(s, m.clsId, m.msgId, m.payload) && |m.payload| < 0x1_0000
  {
    if |s| >= 8 {
      TrailerIsSums(s[2..|s| - 2]);
      assert s[|s| - 2..] == [s[|s| - 2], s[|s| - 1]];
      assert |s[6..|s| - 2]| == |s| - 8;
    }
  }

  lemma {:induction false} StartSums(c: seq<byte>)
    requires c == [0x06, 0x04, 4, 0, 0, 0, 9, 0]
    ensures Sum(c) == 0x17 && WeightedSum(c) == 0x76
  {
    SumsGrow(c, 0, 0, 0);
    SumsGrow(c, 1, 6, 6);
    SumsGrow(c, 2, 10, 16);
    SumsGrow(c, 3, 14, 30);
    SumsGrow(c, 4, 14, 44);
    SumsGrow(c, 5, 14, 58);
    SumsGrow(c, 6, 14, 72);
    SumsGrow(c, 7, 23, 95);
    assert c[..8] == c;
  }

  /** The command that starts the receiver. */
  lemma {:induction false} StartFrame()
    ensures IsFrame([0xB5, 0x62, 0x06, 0x04, 4, 0, 0, 0, 9, 0, 0x17, 0x76], 0x06, 0x04, [0, 0, 9, 0])
  {
    var s: seq<byte> := [0xB5, 0x62, 0x06, 0x04, 4, 0, 0, 0, 9, 0, 0x17, 0x76];
    assert s[2..10] == [0x06, 0x04, 4, 0, 0, 0, 9, 0];
    StartSums(s[2..10]);
    assert s[6..10] == [0, 0, 9, 0];
  }

  lemma SumsGrow(c: seq<byte>, i: nat, sum: nat, weighted: nat)
    requires i < |c| && Sum(c[..i]) == sum && WeightedSum(c[..i]) == weighted
    ensures Sum(c[..i + 1]) == sum + c[i] && WeightedSum(c[..i + 1]) == weighted + sum + c[i]
  {
    assert c[..i + 1] == c[..i] + [c[i]];
    SumsNext(c[..i], c[i]);
  }

  lemma SumsNext(data: seq<byte>, d: byte)
    ensures Sum(data + [d]) == Sum(data) + d
    ensures WeightedSum(data + [d]) == WeightedSum(data) + Sum(data + [d])
  {
    assert (data + [d])[..|data|] == data;
  }

  /** The parser gets the message back exactly when its length fits the 16-bit field. */
  lemma DecodeEncodeExactly(m: Message)
    ensures Decode(Encode(m)) == (if |m.payload| < 0x1_0000 then Some(m) else None)
  {
    var n, s := |m.payload|, Encode(m);
    var body := Header(m.clsId, m.msgId, n) + m.payload;
    assert s[..|s| - 2] == body && s[2..|s| - 2] == body[2..];
    assert s[|s| - 2..] == Trailer(body[2..]);
    assert s[6..|s| - 2] == m.payload;
    assert s[4] == n % 256 && s[5] == n / 256 % 256;
    if n >= 0x1_0000 {
      assert n / 256 >= 256;
      assert n == 256 * (n / 256) + n % 256;
    }
  }

  /** Only frames are accepted, so no two messages share a frame. */
  lemma {:induction false} DecodedIsEncoded(s: seq<byte>)
    requires Decode(s).Some?
    ensures |Decode(s).value.payload| < 0x1_0000 && Encode(Decode(s).value) == s
  {
    var m := Decode(s).value;
    var n := |m.payload|;
    assert n == s[4] + s[5] as int * 256;
    assert n % 256 == s[4] && n / 256 % 256 == s[5];
    var body := Header(m.clsId, m.msgId, n) + m.payload;
    assert body == s[..|s| - 2];
    assert body[2..] == s[2..|s| - 2];
    assert s == s[..|s| - 2] + s[|s| - 2..];
  }

  /** A frame with any one byte changed is rejected, wherever the byte is. */
  lemma CorruptFrameRejected(m: Message, i: nat, x: byte)
    requires |m.payload| < 0x1_0000 && i < |Encode(m)| && x != Encode(m)[i]
    ensures Decode(Encode(m)[i := x]).None?
  {
    var s := Encode(m);
    var t := s[i := x];
    var end := |s| - 2;
    DecodeEncodeExactly(m);
    if 2 <= i < end {
      assert t[2..end] == s[2..end][i - 2 := x];
      OneByteChangeDetected(s[2..end], i - 2, x);
      assert t[end..] == s[end..];
      assert Trailer(t[2..end])[0] != Trailer(s[2..end])[0];
    } else if end <= i {
      assert t[2..end] == s[2..end];
      assert t[end..][i - end] != s[end..][i - end];
    }
  }

  /** And so is a frame in which two unequal neighbours were swapped, wherever they are. */
  lemma SwappedFrameRejected(m: Message, i: nat)
    requires |m.payload| < 0x1_0000 && i + 1 < |Encode(m)|
    requires Encode(m)[i] != Encode(m)[i + 1]
    ensures Decode(Swapped(Encode(m), i, i + 1)).None?
  {
    var s := Encode(m);
    var t := Swapped(s, i, i + 1);
    var end := |s| - 2;
    var crc := Crc((0, 0), s[2..end]);
    DecodeEncodeExactly(m);
    assert s[end..] == [crc.0, crc.1];
    assert s[end] == crc.0 && s[end + 1] == crc.1;
    if 2 <= i && i + 1 < end {
      assert t[2..end] == Swapped(s[2..end], i - 2, i - 1);
      AdjacentSwapDetected(s[2..end], i - 2);
      assert t[end..] == s[end..];
    } else if i == end {
      assert t[2..end] == s[2..end];
      assert t[end..][0] != s[end..][0];
    } else if i + 1 == end {
      LastByteForChecksum(s[2..end], crc.0);
      assert t[2..end] == s[2..end][|s[2..end]| - 1 := crc.0];
      assert t[end..][1] == crc.1;
    }
  }

  lemma LastByteForChecksum(data: seq<byte>, x: byte)
    requires |data| > 0 && data[|data| - 1] != x
    ensures Crc((0, 0), data[|data| - 1 := x]).1 != Crc((0, 0), data).1
  {
    var n := |data| - 1;
    var e := data[n := x];
    CrcIsSums(data);
    CrcIsSums(e);
    SumUpdate(data, n, x);
    var s := WeightedSum(data) - data[n];
    if (s + x) % 256 == (s + data[n]) % 256 {
      SameByteModulo(s, x, data[n]);
    }
  }

  // -------------------------------------------------------------------- writer

  /** The serial port: `plan` says how many bytes each writeSerial takes, negative for an error;
      when it runs out, everything is taken. */
  class SerialPort {
    var out: seq<byte>
    var plan: seq<int>

    constructor (plan: seq<int>)
      ensures out == [] && this.plan == plan
    {
      out, this.plan := [], plan;
    }

    method WriteSerial(data: seq<byte>) returns (n: int)
      modifies this
      ensures n <= |data| && out == old(out) + data[..if n < 0 then 0 else n]
      ensures n == |data| <==> old(plan) == [] || old(plan)[0] >= |data|
      ensures plan == if old(plan) == [] then [] else old(plan)[1..]
    {
      n := if plan == [] || plan[0] >= |data| then |data| else if plan[0] < 0 then -1 else plan[0];
      out := out + data[..if n < 0 then 0 else n];
      plan := if plan == [] then [] else plan[1..];
    }
  }

  class UdpServer {
    var sent: seq<seq<byte>>

    constructor ()
      ensures sent == []
    {
      sent := [];
    }

    method SendPort(data: seq<byte>)
      modifies this
      ensures sent == old(sent) + [data]
    {
      sent := sent + [data];
    }
  }

  /** A piece, unless it is empty. */
  function Piece(piece: seq<byte>): seq<seq<byte>> {
    if piece == [] then [] else [piece]
  }

  /** The pieces writeUbx hands to the serial port; empty payload parts are skipped. */
  function PiecesOf(head: seq<byte>, data0: seq<byte>, data1: seq<byte>): seq<seq<byte>>
    requires |head| == 6
  {
    [head] + (Piece(data0) + (Piece(data1) + [Trailer(head[2..] + data0 + data1)]))
  }

  predicate FrameOfParts(frame: seq<byte>, head: seq<byte>, data0: seq<byte>, data1: seq<byte>) {
    var at1, at2 := 6 + |data0|, 6 + |data0| + |data1|;
    && |head| == 6 && |frame| == at2 + 2
    && frame[0..6] == head && frame[6..at1] == data0 && frame[at1..at2] == data1
    && frame[at2..at2 + 2] == Trailer(head[2..] + data0 + data1)
  }

  predicate AllTaken(pieces: seq<seq<byte>>, plan: seq<int>) {
    pieces == [] || plan == [] || (plan[0] >= |pieces[0]| && AllTaken(pieces[1..], plan[1..]))
  }

  /** Every write takes its piece, as long as the plan says what it takes. */
  lemma {:induction false} AllTakenExactly(pieces: seq<seq<byte>>, plan: seq<int>)
    ensures AllTaken(pieces, plan) <==> forall i :: 0 <= i < |pieces| && i < |plan| ==> |pieces[i]| <= plan[i]
    decreases |pieces|
  {
    if pieces == [] || plan == [] {
    } else {
      AllTakenExactly(pieces[1..], plan[1..]);
      assert pieces == [pieces[0]] + pieces[1..] && plan == [plan[0]] + plan[1..];
    }
  }

  function Flat(pieces: seq<seq<byte>>): seq<byte> {
    if pieces == [] then [] else pieces[0] + Flat(pieces[1..])
  }

  lemma {:induction false} FlatInFront(piece: seq<byte>, rest: seq<seq<byte>>)
    ensures Flat([piece] + rest) == piece + Flat(rest)
    ensures Flat(Piece(piece) + rest) == piece + Flat(rest)
  {
    assert ([piece] + rest)[1..] == rest && [] + rest == rest;
    assert [] + Flat(rest) == Flat(rest);
  }

  lemma {:induction false} FlatOfFour(head: seq<byte>, data0: seq<byte>, data1: seq<byte>, trailer: seq<byte>)
    ensures Flat([head] + (Piece(data0) + (Piece(data1) + [trailer]))) == head + (data0 + (data1 + trailer))
  {
    var last := [trailer];
    FlatInFront(head, Piece(data0) + (Piece(data1) + last));
    FlatInFront(data0, Piece(data1) + last);
    FlatInFront(data1, last);
    FlatInFront(trailer, []);
    assert last + [] == last && trailer + [] == trailer;
  }

  /** The pieces put together are the frame. */
  lemma {:induction false} PiecesMakeFrame(clsId: byte, msgId: byte, data0: seq<byte>, data1: seq<byte>)
    ensures Flat(PiecesOf(Header(clsId, msgId, |data0| + |data1|), data0, data1)) ==
            Encode(Message(clsId, msgId, data0 + data1))
  {
    var head := Header(clsId, msgId, |data0| + |data1|);
    var trailer := Trailer(head[2..] + data0 + data1);
    FlatOfFour(head, data0, data1, trailer);
    assert (head + (data0 + data1))[2..] == head[2..] + data0 + data1;
    Join(data0, data1, trailer);
    Join(head, data0 + data1, trailer);
  }

  /** And none of them is empty. */
  lemma NoPieceIsEmpty(head: seq<byte>, data0: seq<byte>, data1: seq<byte>)
    requires |head| == 6
    ensures var pieces := PiecesOf(head, data0, data1);
            && [] !in pieces
            && |pieces| == 2 + (if data0 == [] then 0 else 1) + (if data1 == [] then 0 else 1)
  {
  }

  predicate Prefix(a: seq<byte>, b: seq<byte>) {
    |a| <= |b| && a == b[..|a|]
  }

  /** Sends one piece, unless it is empty, and on success copies it behind the bytes before it.
      The ghost arguments are the pieces to come, what the port had before the frame, the part of
      the frame sent so far, and the whole frame. */
  method PutPiece(ser: SerialPort, udpBuf: array<byte>, piece: seq<byte>, ghost rest: seq<seq<byte>>,
                  ghost out0: seq<byte>, before: nat, ghost frame: seq<byte>)
    returns (ok: bool, ghost taken: seq<byte>)
    requires before + |piece| <= udpBuf.Length && before + |piece| <= |frame|
    requires piece == frame[before..before + |piece|]
    requires ser.out == out0 + frame[..before] && udpBuf[..before] == frame[..before]
    modifies ser, udpBuf
    ensures AllTaken(Piece(piece) + rest, old(ser.plan)) <==> ok && AllTaken(rest, ser.plan)
    ensures Prefix(taken, frame) && ser.out == out0 + taken
    ensures ok ==> taken == frame[..before + |piece|] == udpBuf[..before + |piece|]
  {
    ok, taken := true, frame[..before];
    if |piece| > 0 {
      assert ([piece] + rest)[1..] == rest;
      var n := ser.WriteSerial(piece);
      var got := if n < 0 then 0 else n;
      assert frame[..before] + piece[..got] == frame[..before + got];
      taken := frame[..before + got];
      ok := n == |piece|;
      if ok {
        forall i | 0 <= i < |piece| {
          udpBuf[before + i] := piece[i];
        }
        assert udpBuf[..before + |piece|] == frame[..before] + piece;
      }
    } else {
      assert [] + rest == rest;
    }
  }

  /** The first three writes of writeUbx, with the checksum kept up behind each. */
  method PutFront(ser: SerialPort, udpBuf: array<byte>, crc: array<byte>,
                  head: seq<byte>, data0: seq<byte>, data1: seq<byte>,
                  ghost last: seq<seq<byte>>, ghost out0: seq<byte>, ghost frame: seq<byte>)
    returns (ok: bool, ghost taken: seq<byte>)
    requires |head| == 6 && crc.Length == 2 && crc != udpBuf && (crc[0], crc[1]) == (0, 0)
    requires udpBuf.Length == |frame| && 6 + |data0| + |data1| <= |frame|
    requires frame[0..6] == head && frame[6..6 + |data0|] == data0
    requires frame[6 + |data0|..6 + |data0| + |data1|] == data1
    requires ser.out == out0
    modifies ser, udpBuf, crc
    ensures AllTaken([head] + (Piece(data0) + (Piece(data1) + last)), old(ser.plan)) <==> ok && AllTaken(last, ser.plan)
    ensures Prefix(taken, frame) && ser.out == out0 + taken
    ensures ok ==> taken == frame[..6 + |data0| + |data1|] == udpBuf[..6 + |data0| + |data1|]
    ensures ok ==> (crc[0], crc[1]) == Crc((0, 0), head[2..] + data0 + data1)
  {
    ghost var tail1 := Piece(data1) + last;
    ghost var tail2 := Piece(data0) + tail1;
    ok, taken := PutPiece(ser, udpBuf, head, tail2, out0, 0, frame);
    if !ok {
      return;
    }
    CrcUbx(crc, head[2..]);
    ok, taken := PutPiece(ser, udpBuf, data0, tail1, out0, 6, frame);
    if !ok {
      return;
    }
    CrcUbx(crc, data0);
    ok, taken := PutPiece(ser, udpBuf, data1, last, out0, 6 + |data0|, frame);
    if !ok {
      return;
    }
    CrcUbx(crc, data1);
    CrcThreeSegments(head[2..], data0, data1);
  }

  /** The four writes of writeUbx, for a frame whose parts are known. */
  method PutParts(ser: SerialPort, udpBuf: array<byte>, head: seq<byte>, data0: seq<byte>, data1: seq<byte>,
                  ghost frame: seq<byte>)
    returns (ok: bool, ghost taken: seq<byte>)
    requires FrameOfParts(frame, head, data0, data1) && udpBuf.Length == |frame|
    modifies ser, udpBuf
    ensures AllTaken(PiecesOf(head, data0, data1), old(ser.plan)) <==> ok
    ensures Prefix(taken, frame) && ser.out == old(ser.out) + taken
    ensures ok ==> taken == frame == udpBuf[..]
  {
    ghost var out0, last := ser.out, [Trailer(head[2..] + data0 + data1)];
    var crc := new byte[2](i => 0);
    assert (crc[0], crc[1]) == (0, 0);
    ok, taken := PutFront(ser, udpBuf, crc, head, data0, data1, last, out0, frame);
    if !ok {
      return;
    }
    var trailer := crc[..];
    assert trailer == [crc[0], crc[1]] == last[0];
    assert [trailer] + [] == last;
    ok, taken := PutPiece(ser, udpBuf, trailer, [], out0, 6 + |data0| + |data1|, frame);
    assert frame[..|frame|] == frame && udpBuf[..|frame|] == udpBuf[..];
  }

  /** writeUbx.  It succeeds exactly when the port takes every piece whole; then the port and the
      UDP copy have both received the frame.  Otherwise the port has the first part of it and UDP
      nothing. */
  method WriteUbx(ser: SerialPort?, udp: UdpServer?, clsId: byte, msgId: byte, data0: seq<byte>, data1: seq<byte>)
    returns (ok: bool, ghost taken: seq<byte>)
    modifies ser, udp
    ensures ok <==> ser != null &&
                    AllTaken(PiecesOf(Header(clsId, msgId, |data0| + |data1|), data0, data1), old(ser.plan))
    ensures ser != null ==> ser.out == old(ser.out) + taken
    ensures Prefix(taken, Encode(Message(clsId, msgId, data0 + data1)))
    ensures ok ==> taken == Encode(Message(clsId, msgId, data0 + data1))
    ensures ok ==> IsFrame(taken, clsId, msgId, data0 + data1)
    ensures udp != null ==> udp.sent == old(udp.sent) + if ok then [taken] else []
  {
    ok, taken := false, [];
    var udpBuf := new byte[|data0| + |data1| + 8];
    if ser == null {
      return;
    }
    var head := Header(clsId, msgId, |data0| + |data1|);
    EncodeIsFrame(Message(clsId, msgId, data0 + data1));
    FrameParts(clsId, msgId, data0, data1);
    ok, taken := PutParts(ser, udpBuf, head, data0, data1, Encode(Message(clsId, msgId, data0 + data1)));
    if ok && udp != null {
      udp.SendPort(udpBuf[..]);
    }
  }

  lemma CrcThreeSegments(a: seq<byte>, b: seq<byte>, c: seq<byte>)
    ensures Crc(Crc(Crc((0, 0), a), b), c) == Crc((0, 0), a + b + c)
  {
    CrcSegments((0, 0), a, b);
    CrcSegments((0, 0), a + b, c);
  }

  lemma FrameParts(clsId: byte, msgId: byte, data0: seq<byte>, data1: seq<byte>)
    ensures FrameOfParts(Encode(Message(clsId, msgId, data0 + data1)),
                         Header(clsId, msgId, |data0| + |data1|), data0, data1)
  {
    var head := Header(clsId, msgId, |data0| + |data1|);
    assert (head + (data0 + data1))[2..] == head[2..] + data0 + data1;
  }
}
