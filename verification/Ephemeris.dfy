/** Assistance from the network turned into receiver messages: the reference time and the ephemeris
    of each satellite (ublox_gps_hal/ubx_rilIf.cpp, ublox_gps_hal/agps_assistantec_data.h). The
    receiver reads the three subframes as the words of IS-GPS-200, sections 20.3.3.3 and 20.3.3.4,
    without parity. */
module Ephemeris {
  import opened Align
  import opened Bytes
  import opened Prelude

  const WEEK := 604800
  const HALF_WEEK := 302400

  // ---------------------------------------------------------------------- time

  datatype ReferenceTime = ReferenceTime(gpsWeek: U2, towMs: U4)

  /** The week and the time of week, in seconds. */
  datatype GpsTime = GpsTime(wn: int, tow: real) {
    function Seconds(): real {
      (wn * WEEK) as real + tow
    }
  }

  function TimeOf(t: ReferenceTime): GpsTime {
    var tow := t.towMs as real / 1000.0;
    if tow >= WEEK as real then GpsTime(1024 + t.gpsWeek + 1, tow - WEEK as real)
    else GpsTime(1024 + t.gpsWeek, tow)
  }

  /** Rolling over moves no time, and leaves a time within the week exactly when less than two weeks
      came in. */
  lemma RolloverKeepsTime(t: ReferenceTime)
    ensures TimeOf(t).Seconds() == (1024 * 604800 + t.gpsWeek * 604800) as real + t.towMs as real / 1000.0
    ensures 0.0 <= TimeOf(t).tow
    ensures TimeOf(t).tow < 604800.0 <==> t.towMs < 2 * 604800000
  {
  }

  /** The hand-over word made from t_oe, and the t_oe in seconds that is read back from it. */
  function How(tOe: U2): U4 {
    tOe * 2048 / 6
  }

  function Toe(tOe: U2): nat {
    How(tOe) / 128 * 6
  }

  /** t_oe counts 16 seconds; the HOW counts 6, so up to 6 seconds are lost. */
  lemma ToeFromHow(tOe: U2)
    ensures 16 * tOe as int - 6 < Toe(tOe) <= 16 * tOe
    ensures Toe(tOe) % 6 == 0
  {
  }

  /** A conversion to int: toward zero. */
  function Truncate(x: real): int {
    if x >= 0.0 then x.Floor else -((-x).Floor)
  }

  /** No further from 0 than x, and less than 1 from x. */
  lemma TruncatesTowardZero(x: real)
    ensures x >= 0.0 ==> 0 <= Truncate(x) && Truncate(x) as real <= x < (Truncate(x) + 1) as real
    ensures x <= 0.0 ==> Truncate(x) <= 0 && (Truncate(x) - 1) as real < x <= Truncate(x) as real
  {
  }

  function WeekOf(now: GpsTime, toe: nat): int {
    var tmp := Truncate(now.tow - toe as real);
    if tmp > HALF_WEEK then now.wn + 1 else if tmp < -HALF_WEEK then now.wn - 1 else now.wn
  }

  /** From now to the reference time of the ephemeris, in week w. */
  function Ahead(now: GpsTime, w: int, toe: nat): real {
    GpsTime(w, toe as real).Seconds() - now.Seconds()
  }

  lemma AheadIs(now: GpsTime, toe: nat)
    ensures var d := now.tow - toe as real;
            Ahead(now, WeekOf(now, toe), toe) ==
              if d >= (HALF_WEEK + 1) as real then WEEK as real - d
              else if d <= -(HALF_WEEK + 1) as real then -(WEEK as real) - d else -d
  {
  }

  /** The week chosen puts the ephemeris within half a week of now, and the second that truncation
      may cost, exactly when the times of week are not further apart than that plus a week. */
  lemma WeekIsNearExactly(now: GpsTime, toe: nat)
    ensures var ahead, d := Ahead(now, WeekOf(now, toe), toe), now.tow - toe as real;
            var near, far := 302401.0, 907201.0;
            -near < ahead < near <==> -far < d < far
  {
    AheadIs(now, toe);
  }

  /** All valid inputs are: an ephemeris within the week, a time that rolled over at most once. */
  lemma ValidTimesAreNear(t: ReferenceTime, tOe: U2)
    requires tOe < 37800 && t.towMs < 2 * 1000 * WEEK
    ensures var now := TimeOf(t);
            -((HALF_WEEK + 1) as real) < Ahead(now, WeekOf(now, Toe(tOe)), Toe(tOe)) < (HALF_WEEK + 1) as real
  {
    ToeFromHow(tOe);
    RolloverKeepsTime(t);
    WeekIsNearExactly(TimeOf(t), Toe(tOe));
  }

  /** No other week is nearer by more than that second at either end. */
  lemma NoWeekMuchNearer(now: GpsTime, toe: nat, w: int)
    requires -((HALF_WEEK + 1) as real) < Ahead(now, WeekOf(now, toe), toe) < (HALF_WEEK + 1) as real
    requires w != WeekOf(now, toe)
    ensures var ahead, other := Ahead(now, WeekOf(now, toe), toe), Ahead(now, w, toe);
            var far := (HALF_WEEK - 1) as real;
            other > far || other < -far
  {
    var v := WeekOf(now, toe);
    assert Ahead(now, w, toe) == Ahead(now, v, toe) + ((w - v) * WEEK) as real by {
      assert w * WEEK == v * WEEK + (w - v) * WEEK;
    }
  }

  /** Ten bits of the week are enough to know it, by the current week. */
  lemma TenBitsAreEnough(wn: int, w: int, v: int)
    requires -1 <= w - wn <= 1 && -511 <= v - wn <= 511
    ensures v % 1024 == w % 1024 <==> v == w
  {
  }

  // ----------------------------------------------------------------- bit fields

  datatype Field = Field(value: int, width: nat)

  /** The low n bits of x. */
  function LowBits(x: int, n: nat): nat
    decreases n
  {
    if n == 0 then 0 else x % 2 + 2 * LowBits(x / 2, n - 1)
  }

  /** x shifted left by n. */
  function Shifted(x: nat, n: nat): nat {
    if n == 0 then x else 2 * Shifted(x, n - 1)
  }

  /** A word of bit fields, the first one in its lowest bits; what does not fit is cut off. */
  function Pack(fs: seq<Field>): nat {
    if fs == [] then 0 else LowBits(fs[0].value, fs[0].width) + Shifted(Pack(fs[1..]), fs[0].width)
  }

  lemma {:induction false} LowBitsIsMod(x: int, n: nat)
    ensures LowBits(x, n) == x % Pow2(n)
    decreases n
  {
    if n == 0 {
    } else {
      LowBitsIsMod(x / 2, n - 1);
      HalfMod(x, Pow2(n - 1));
    }
  }

  lemma {:induction false} ShiftedIsProduct(x: nat, n: nat)
    ensures Shifted(x, n) == x * Pow2(n)
  {
    if n == 0 {
    } else {
      ShiftedIsProduct(x, n - 1);
      assert x * Pow2(n) == 2 * (x * Pow2(n - 1));
    }
  }

  /** Bits first to last of the 24 data bits of a word, numbered from 1 in the order sent. */
  function DataBits(word: nat, first: nat, last: nat): nat
    requires 1 <= first <= last <= 24
  {
    word / Pow2(24 - last) % Pow2(last + 1 - first)
  }

  /** How many bits are in front of field i. */
  function Offset(fs: seq<Field>, i: nat): nat
    requires i <= |fs|
  {
    if i == 0 then 0 else fs[0].width + Offset(fs[1..], i - 1)
  }

  lemma {:induction false} Pow2Sum(a: nat, b: nat)
    ensures Pow2(a + b) == Pow2(a) * Pow2(b)
  {
    if a == 0 {
    } else {
      Pow2Sum(a - 1, b);
      assert 2 * Pow2(a - 1) * Pow2(b) == 2 * (Pow2(a - 1) * Pow2(b));
    }
  }

  lemma DivDiv(x: nat, a: nat, b: nat)
    requires a > 0 && b > 0
    ensures a * b > 0 && x / (a * b) == x / a / b
  {
    var q := x / a / b;
    var r := x / a % b;
    MulSign(a, b);
    assert x == a * (x / a) + x % a && x / a == b * q + r;
    assert x == q * (a * b) + (a * r + x % a) by {
      assert a * (b * q + r) == a * (b * q) + a * r;
      assert a * (b * q) == q * (a * b);
    }
    assert a * r + x % a < a * b by {
      MulDistributes(a, r, 1);
      MulDistributes(a, r + 1, b - (r + 1));
      MulSign(a, b - (r + 1));
      assert b == r + 1 ==> a * (b - (r + 1)) == 0;
    }
    MulSign(a, r);
    DivMul(q, a * b, a * r + x % a);
  }

  /** Every field of a word is where the widths in front of it say, and keeps its low bits. */
  lemma {:induction false} PackedField(fs: seq<Field>, i: nat)
    requires i < |fs|
    ensures Pack(fs) / Pow2(Offset(fs, i)) % Pow2(fs[i].width) == fs[i].value % Pow2(fs[i].width)
  {
    PackedFront(fs);
    if i == 0 {
    } else {
      var at := Offset(fs[1..], i - 1);
      PackedField(fs[1..], i - 1);
      Pow2Sum(fs[0].width, at);
      DivDiv(Pack(fs), Pow2(fs[0].width), Pow2(at));
    }
  }

  /** The first field, and the word of the others. */
  lemma PackedFront(fs: seq<Field>)
    requires fs != []
    ensures var b := Pow2(fs[0].width);
            && Pack(fs) % b == fs[0].value % b && Pack(fs) / b == Pack(fs[1..])
            && Pack(fs) / Pow2(0) == Pack(fs)
  {
    PackIs(fs);
    DivMul(Pack(fs[1..]), Pow2(fs[0].width), fs[0].value % Pow2(fs[0].width));
  }

  lemma PackIs(fs: seq<Field>)
    requires fs != []
    ensures Pack(fs) == Pack(fs[1..]) * Pow2(fs[0].width) + fs[0].value % Pow2(fs[0].width)
  {
    LowBitsIsMod(fs[0].value, fs[0].width);
    ShiftedIsProduct(Pack(fs[1..]), fs[0].width);
  }

  lemma FieldBits(fs: seq<Field>, i: nat, first: nat, last: nat)
    requires i < |fs| && 1 <= first <= last <= 24
    requires Offset(fs, i) == 24 - last && fs[i].width == last + 1 - first
    ensures DataBits(Pack(fs), first, last) == fs[i].value % Pow2(last + 1 - first)
  {
    PackedField(fs, i);
  }

  // ----------------------------------------------------------------- subframes

  /** The fields of mn_agps_EphemerisParameter_t that are used. */
  datatype Parameters = Parameters(
    uraIndex: nat, satHealth: nat, iodc: nat, tGd: nat, af2: nat, tOc: nat, af1: nat, af0: nat,
    cRs: nat, deltaN: nat, m0: nat, cUc: nat, cUs: nat, e: nat, aSqrt: nat, tOe: nat, fitInterval: nat,
    cIc: nat, cIs: nat, omega0: nat, i0: nat, cRc: nat, iDot: nat, omega: nat, omegaDot: nat)
  {
    /** The C types of the fields. */
    predicate Typed() {
      && uraIndex < 256 && satHealth < 256 && tGd < 256 && af2 < 256 && fitInterval < 256
      && iodc < 65536 && tOc < 65536 && af1 < 65536 && cRs < 65536 && deltaN < 65536 && cUc < 65536
      && cUs < 65536 && tOe < 65536 && cIc < 65536 && cIs < 65536 && cRc < 65536 && iDot < 65536
      && af0 < 0x1_0000_0000 && m0 < 0x1_0000_0000 && e < 0x1_0000_0000 && aSqrt < 0x1_0000_0000
      && omega0 < 0x1_0000_0000 && i0 < 0x1_0000_0000 && omega < 0x1_0000_0000 && omegaDot < 0x1_0000_0000
    }

    /** The fields whose places in the subframes are narrower than their C types. */
    predicate Fits() {
      && iodc < 1024 && satHealth < 64 && uraIndex < 16 && af0 < 0x40_0000
      && fitInterval < 2 && omegaDot < 0x100_0000 && iDot < 0x4000
    }
  }

  /** 16 bits in front of 8: the layout of most words. */
  function Wide(low: nat, high: nat): seq<Field> {
    [Field(low, 8), Field(high, 16), Field(0, 8)]
  }

  function Tail(high: nat, low: nat): seq<Field> {
    [Field(high, 16), Field(low, 8), Field(0, 8)]
  }

  function Whole(x: nat): seq<Field> {
    [Field(x, 24), Field(0, 8)]
  }

  /** Words 3 to 10 as the code fills them. */
  function FirstSubframe(p: Parameters, wn: int): (s: seq<seq<Field>>)
    ensures |s| == 8
  {
    [ [Field(p.iodc / 256, 2), Field(p.satHealth, 6), Field(p.uraIndex, 4), Field(0, 2), Field(wn, 10), Field(0, 8)],
      Whole(0), Whole(0), Whole(0),
      Wide(p.tGd, 0),
      Tail(p.tOc, p.iodc),
      Tail(p.af1, p.af2),
      [Field(0, 2), Field(p.af0, 22), Field(0, 8)] ]
  }

  function SecondSubframe(p: Parameters): (s: seq<seq<Field>>)
    ensures |s| == 8
  {
    [ Tail(p.cRs, p.iodc),
      Wide(p.m0 / 0x100_0000, p.deltaN),
      Whole(p.m0),
      Wide(p.e / 0x100_0000, p.cUc),
      Whole(p.e),
      Wide(p.aSqrt / 0x100_0000, p.cUs),
      Whole(p.aSqrt),
      [Field(0, 2), Field(0, 5), Field(p.fitInterval, 1), Field(p.tOe, 16), Field(0, 8)] ]
  }

  function ThirdSubframe(p: Parameters): (s: seq<seq<Field>>)
    ensures |s| == 8
  {
    [ Wide(p.omega0 / 0x100_0000, p.cIc),
      Whole(p.omega0),
      Wide(p.i0 / 0x100_0000, p.cIs),
      Whole(p.i0),
      Wide(p.omega / 0x100_0000, p.cRc),
      Whole(p.omega),
      Whole(p.omegaDot),
      [Field(0, 2), Field(p.iDot, 14), Field(p.iodc, 8), Field(0, 8)] ]
  }

  /** The words of a subframe in memory. */
  function Words(s: seq<seq<Field>>): (w: seq<nat>)
    ensures |w| == |s|
  {
    if s == [] then [] else [Pack(s[0])] + Words(s[1..])
  }

  lemma {:induction false} WordAt(s: seq<seq<Field>>, i: nat)
    requires i < |s|
    ensures Words(s)[i] == Pack(s[i])
  {
    if i == 0 {
    } else {
      WordAt(s[1..], i - 1);
    }
  }

  lemma WideBits(s: seq<seq<Field>>, i: nat, low: nat, high: nat)
    requires i < |s| && s[i] == Wide(low, high)
    ensures DataBits(Words(s)[i], 17, 24) == low % 256 && DataBits(Words(s)[i], 1, 16) == high % 65536
  {
    WordAt(s, i);
    FieldBits(s[i], 0, 17, 24);
    FieldBits(s[i], 1, 1, 16);
    assert Pow2(8) == 256 && Pow2(16) == 65536;
  }

  lemma TailBits(s: seq<seq<Field>>, i: nat, high: nat, low: nat)
    requires i < |s| && s[i] == Tail(high, low)
    ensures DataBits(Words(s)[i], 9, 24) == high % 65536 && DataBits(Words(s)[i], 1, 8) == low % 256
  {
    WordAt(s, i);
    FieldBits(s[i], 0, 9, 24);
    FieldBits(s[i], 1, 1, 8);
    assert Pow2(8) == 256 && Pow2(16) == 65536;
  }

  lemma WholeBits(s: seq<seq<Field>>, i: nat, x: nat)
    requires i < |s| && s[i] == Whole(x)
    ensures DataBits(Words(s)[i], 1, 24) == x % 0x100_0000
  {
    WordAt(s, i);
    FieldBits(s[i], 0, 1, 24);
    assert Pow2(12) == 4096;
    Pow2Sum(12, 12);
  }

  lemma {:induction false} OffsetNext(fs: seq<Field>, i: nat)
    requires i < |fs|
    ensures Offset(fs, i + 1) == Offset(fs, i) + fs[i].width
  {
    if i == 0 {
    } else {
      OffsetNext(fs[1..], i - 1);
    }
  }

  lemma ClockWordBits(s: seq<seq<Field>>, iodcMsb: nat, health: nat, ura: nat, wn: int)
    requires s != []
    requires s[0] == [Field(iodcMsb, 2), Field(health, 6), Field(ura, 4), Field(0, 2), Field(wn, 10), Field(0, 8)]
    ensures var w := Words(s)[0];
            && DataBits(w, 23, 24) == iodcMsb % 4 && DataBits(w, 17, 22) == health % 64
            && DataBits(w, 13, 16) == ura % 16 && DataBits(w, 1, 10) == wn % 1024
  {
    WordAt(s, 0);
    OffsetNext(s[0], 0);
    OffsetNext(s[0], 1);
    OffsetNext(s[0], 2);
    OffsetNext(s[0], 3);
    FieldBits(s[0], 0, 23, 24);
    FieldBits(s[0], 1, 17, 22);
    FieldBits(s[0], 2, 13, 16);
    FieldBits(s[0], 4, 1, 10);
    assert Pow2(2) == 4 && Pow2(4) == 16 && Pow2(6) == 64 && Pow2(10) == 1024;
  }

  lemma DriftWordBits(s: seq<seq<Field>>, af0: nat)
    requires |s| == 8 && s[7] == [Field(0, 2), Field(af0, 22), Field(0, 8)]
    ensures DataBits(Words(s)[7], 1, 22) == af0 % 0x40_0000
  {
    WordAt(s, 7);
    FieldBits(s[7], 1, 1, 22);
    assert Pow2(11) == 2048;
    Pow2Sum(11, 11);
  }

  lemma FitWordBits(s: seq<seq<Field>>, fit: nat, tOe: nat)
    requires |s| == 8 && s[7] == [Field(0, 2), Field(0, 5), Field(fit, 1), Field(tOe, 16), Field(0, 8)]
    ensures DataBits(Words(s)[7], 17, 17) == fit % 2 && DataBits(Words(s)[7], 1, 16) == tOe % 65536
  {
    WordAt(s, 7);
    OffsetNext(s[7], 0);
    OffsetNext(s[7], 1);
    OffsetNext(s[7], 2);
    FieldBits(s[7], 2, 17, 17);
    FieldBits(s[7], 3, 1, 16);
    assert Pow2(1) == 2 && Pow2(16) == 65536;
  }

  lemma RateWordBits(s: seq<seq<Field>>, iDot: nat, iode: nat)
    requires |s| == 8 && s[7] == [Field(0, 2), Field(iDot, 14), Field(iode, 8), Field(0, 8)]
    ensures DataBits(Words(s)[7], 9, 22) == iDot % 0x4000 && DataBits(Words(s)[7], 1, 8) == iode % 256
  {
    WordAt(s, 7);
    OffsetNext(s[7], 0);
    OffsetNext(s[7], 1);
    FieldBits(s[7], 1, 9, 22);
    FieldBits(s[7], 2, 1, 8);
    assert Pow2(8) == 256 && Pow2(14) == 0x4000;
  }

  /** What a receiver reads: the field places of IS-GPS-200, figures 20-1. */
  datatype Clock = Clock(wn: nat, ura: nat, health: nat, iodc: nat, tGd: nat, tOc: nat, af2: nat, af1: nat, af0: nat)

  datatype Orbit = Orbit(
    iode: nat, cRs: nat, deltaN: nat, m0: nat, cUc: nat, e: nat, cUs: nat, aSqrt: nat, tOe: nat, fit: nat)

  datatype Plane = Plane(
    cIc: nat, omega0: nat, cIs: nat, i0: nat, cRc: nat, omega: nat, omegaDot: nat, iode: nat, iDot: nat)

  function ReadClock(w: seq<nat>): Clock
    requires |w| == 8
  {
    Clock(DataBits(w[0], 1, 10), DataBits(w[0], 13, 16), DataBits(w[0], 17, 22),
          DataBits(w[0], 23, 24) * 256 + DataBits(w[5], 1, 8),
          DataBits(w[4], 17, 24), DataBits(w[5], 9, 24),
          DataBits(w[6], 1, 8), DataBits(w[6], 9, 24), DataBits(w[7], 1, 22))
  }

  function ReadOrbit(w: seq<nat>): Orbit
    requires |w| == 8
  {
    Orbit(DataBits(w[0], 1, 8), DataBits(w[0], 9, 24), DataBits(w[1], 1, 16),
          DataBits(w[1], 17, 24) * 0x100_0000 + DataBits(w[2], 1, 24),
          DataBits(w[3], 1, 16), DataBits(w[3], 17, 24) * 0x100_0000 + DataBits(w[4], 1, 24),
          DataBits(w[5], 1, 16), DataBits(w[5], 17, 24) * 0x100_0000 + DataBits(w[6], 1, 24),
          DataBits(w[7], 1, 16), DataBits(w[7], 17, 17))
  }

  function ReadPlane(w: seq<nat>): Plane
    requires |w| == 8
  {
    Plane(DataBits(w[0], 1, 16), DataBits(w[0], 17, 24) * 0x100_0000 + DataBits(w[1], 1, 24),
          DataBits(w[2], 1, 16), DataBits(w[2], 17, 24) * 0x100_0000 + DataBits(w[3], 1, 24),
          DataBits(w[4], 1, 16), DataBits(w[4], 17, 24) * 0x100_0000 + DataBits(w[5], 1, 24),
          DataBits(w[6], 1, 24), DataBits(w[7], 1, 8), DataBits(w[7], 9, 22))
  }

  /** The two parts of a split field, put together. */
  function Joined(x: nat): nat {
    x / 0x100_0000 % 256 * 0x100_0000 + x % 0x100_0000
  }

  lemma JoinedIs(x: nat)
    requires x < 0x1_0000_0000
    ensures Joined(x) == x
  {
  }

  /** What is read, field by field, in terms of the parameters. */
  function ClockCut(p: Parameters, wn: int): Clock {
    Clock(wn % 1024, p.uraIndex % 16, p.satHealth % 64, p.iodc / 256 % 4 * 256 + p.iodc % 256,
          p.tGd % 256, p.tOc % 65536, p.af2 % 256, p.af1 % 65536, p.af0 % 0x40_0000)
  }

  function OrbitCut(p: Parameters): Orbit {
    Orbit(p.iodc % 256, p.cRs % 65536, p.deltaN % 65536, Joined(p.m0), p.cUc % 65536, Joined(p.e),
          p.cUs % 65536, Joined(p.aSqrt), p.tOe % 65536, p.fitInterval % 2)
  }

  function PlaneCut(p: Parameters): Plane {
    Plane(p.cIc % 65536, Joined(p.omega0), p.cIs % 65536, Joined(p.i0), p.cRc % 65536, Joined(p.omega),
          p.omegaDot % 0x100_0000, p.iodc % 256, p.iDot % 0x4000)
  }

  lemma ClockRead(p: Parameters, wn: int)
    ensures ReadClock(Words(FirstSubframe(p, wn))) == ClockCut(p, wn)
  {
    var s := FirstSubframe(p, wn);
    ClockWordBits(s, p.iodc / 256, p.satHealth, p.uraIndex, wn);
    WideBits(s, 4, p.tGd, 0);
    TailBits(s, 5, p.tOc, p.iodc);
    TailBits(s, 6, p.af1, p.af2);
    DriftWordBits(s, p.af0);
  }

  lemma OrbitRead(p: Parameters)
    ensures ReadOrbit(Words(SecondSubframe(p))) == OrbitCut(p)
  {
    var s := SecondSubframe(p);
    TailBits(s, 0, p.cRs, p.iodc);
    WideBits(s, 1, p.m0 / 0x100_0000, p.deltaN);
    WholeBits(s, 2, p.m0);
    WideBits(s, 3, p.e / 0x100_0000, p.cUc);
    WholeBits(s, 4, p.e);
    WideBits(s, 5, p.aSqrt / 0x100_0000, p.cUs);
    WholeBits(s, 6, p.aSqrt);
    FitWordBits(s, p.fitInterval, p.tOe);
  }

  lemma PlaneRead(p: Parameters)
    ensures ReadPlane(Words(ThirdSubframe(p))) == PlaneCut(p)
  {
    var s := ThirdSubframe(p);
    WideBits(s, 0, p.omega0 / 0x100_0000, p.cIc);
    WholeBits(s, 1, p.omega0);
    WideBits(s, 2, p.i0 / 0x100_0000, p.cIs);
    WholeBits(s, 3, p.i0);
    WideBits(s, 4, p.omega / 0x100_0000, p.cRc);
    WholeBits(s, 5, p.omega);
    WholeBits(s, 6, p.omegaDot);
    RateWordBits(s, p.iDot, p.iodc);
  }

  lemma IssuesAgree(p: Parameters, wn: int)
    ensures ClockCut(p, wn).iodc % 256 == OrbitCut(p).iode == PlaneCut(p).iode
  {
  }

  lemma AllJoined(p: Parameters)
    requires p.Typed()
    ensures Joined(p.m0) == p.m0 && Joined(p.e) == p.e && Joined(p.aSqrt) == p.aSqrt
    ensures Joined(p.omega0) == p.omega0 && Joined(p.i0) == p.i0 && Joined(p.omega) == p.omega
  {
    JoinedIs(p.m0);
    JoinedIs(p.e);
    JoinedIs(p.aSqrt);
    JoinedIs(p.omega0);
    JoinedIs(p.i0);
    JoinedIs(p.omega);
  }

  lemma CutIs(x: nat, m: nat)
    requires m > 0
    ensures x % m == x <==> x < m
  {
    if x < m {
      SmallMod(x, m);
    }
  }

  lemma SplitCutIs(x: nat)
    ensures x / 256 % 4 * 256 + x % 256 == x <==> x < 1024
  {
  }

  /** The parameters a receiver puts together from three subframes. */
  function Received(a: Clock, b: Orbit, c: Plane): Parameters {
    Parameters(a.ura, a.health, a.iodc, a.tGd, a.af2, a.tOc, a.af1, a.af0,
               b.cRs, b.deltaN, b.m0, b.cUc, b.cUs, b.e, b.aSqrt, b.tOe, b.fit,
               c.cIc, c.cIs, c.omega0, c.i0, c.cRc, c.iDot, c.omega, c.omegaDot)
  }

  /** Cutting changes nothing exactly when the narrow fields fit. */
  lemma CutExactly(p: Parameters, wn: int)
    requires p.Typed()
    ensures Received(ClockCut(p, wn), OrbitCut(p), PlaneCut(p)) == p <==> p.Fits()
  {
    AllJoined(p);
    SplitCutIs(p.iodc);
    CutIs(p.uraIndex, 16);
    CutIs(p.satHealth, 64);
    CutIs(p.af0, 0x40_0000);
    CutIs(p.fitInterval, 2);
    CutIs(p.omegaDot, 0x100_0000);
    CutIs(p.iDot, 0x4000);
  }

  /** A receiver gets back every parameter, exactly when each fits its place in the subframes; and
      whether or not they fit, the week to its ten bits, and the two IODE equal to the low byte of the
      IODC, which is what makes it take the three subframes as one set. */
  lemma SubframesExactly(p: Parameters, wn: int)
    requires p.Typed()
    ensures var a := ReadClock(Words(FirstSubframe(p, wn)));
            var b := ReadOrbit(Words(SecondSubframe(p)));
            var c := ReadPlane(Words(ThirdSubframe(p)));
            && (Received(a, b, c) == p <==> p.Fits())
            && a.wn == wn % 1024
            && a.iodc % 256 == b.iode == c.iode
  {
    ClockRead(p, wn);
    OrbitRead(p);
    PlaneRead(p);
    CutExactly(p, wn);
    IssuesAgree(p, wn);
  }

  // ------------------------------------------------------------------- messages

  /** eph_ubx without its padding. */
  datatype Eph = Eph(svId: nat, how: nat, sf1: seq<seq<Field>>, sf2: seq<seq<Field>>, sf3: seq<seq<Field>>)

  function Repack(satId: byte, p: Parameters, now: GpsTime): Eph
    requires p.Typed()
  {
    Eph(satId + 1, How(p.tOe), FirstSubframe(p, WeekOf(now, Toe(p.tOe))), SecondSubframe(p), ThirdSubframe(p))
  }

  /** What a message means to the receiver: whose it is, every parameter exactly when each fits its
      place, subframes that belong together, the week to its ten bits, and a hand-over word from
      which t_oe is read back to less than six seconds. */
  predicate Means(m: Eph, satId: byte, p: Parameters, wn: int) {
    && m.svId == satId as int + 1 && |m.sf1| == |m.sf2| == |m.sf3| == 8
    && var a, b, c := ReadClock(Words(m.sf1)), ReadOrbit(Words(m.sf2)), ReadPlane(Words(m.sf3));
    && (Received(a, b, c) == p <==> p.Fits())
    && a.iodc % 256 == b.iode == c.iode
    && a.wn == wn % 1024
    && 16 * p.tOe - 6 < m.how / 128 * 6 <= 16 * p.tOe
  }

  lemma RepackMeans(satId: byte, p: Parameters, now: GpsTime)
    requires p.Typed()
    ensures Means(Repack(satId, p, now), satId, p, WeekOf(now, Toe(p.tOe)))
  {
    var m, wn := Repack(satId, p, now), WeekOf(now, Toe(p.tOe));
    SubframesExactly(p, wn);
    ToeFromHow(p.tOe);
    assert m.how == How(p.tOe);
  }

  datatype Satellite = Satellite(satId: byte, status: U4, parameters: Parameters)

  lemma {:induction false} PackBound(fs: seq<Field>)
    ensures Pack(fs) < Pow2(Offset(fs, |fs|))
  {
    if fs == [] {
    } else {
      PackBound(fs[1..]);
      PackIs(fs);
      Pow2Sum(fs[0].width, Offset(fs[1..], |fs| - 1));
      var b, rest := Pow2(fs[0].width), Pow2(Offset(fs[1..], |fs| - 1));
      MulDistributes(b, Pack(fs[1..]), 1);
      MulDistributes(b, Pack(fs[1..]) + 1, rest - (Pack(fs[1..]) + 1));
      MulSign(b, rest - (Pack(fs[1..]) + 1));
      assert b * 0 == 0;
    }
  }

  /** 24 bits of fields and 8 of nothing. */
  predicate WordShaped(fs: seq<Field>) {
    |fs| > 0 && fs[|fs| - 1] == Field(0, 8) && Offset(fs, |fs| - 1) == 24
  }

  lemma ShapedWord(s: seq<seq<Field>>, i: nat)
    requires i < |s| && WordShaped(s[i])
    ensures Words(s)[i] < 0x100_0000
  {
    WordAt(s, i);
    TopByteIsZero(s[i], |s[i]| - 1);
  }

  lemma TopByteIsZero(fs: seq<Field>, last: nat)
    requires |fs| == last + 1 && fs[last] == Field(0, 8) && Offset(fs, last) == 24
    ensures Pack(fs) < 0x100_0000
  {
    PackBound(fs);
    OffsetNext(fs, last);
    PackedField(fs, last);
    Powers();
    TopByte(Pack(fs));
  }

  lemma Powers()
    ensures Pow2(8) == 256 && Pow2(24) == 0x100_0000 && Pow2(32) == 0x1_0000_0000
  {
    assert Pow2(8) == 256 && Pow2(12) == 4096;
    Pow2Sum(12, 12);
    Pow2Sum(24, 8);
  }

  lemma TopByte(x: nat)
    requires x < 0x1_0000_0000 && x / 0x100_0000 % 256 == 0
    ensures x < 0x100_0000
  {
  }

  /** The words with more than two fields. */
  lemma LongWordsAreShaped(p: Parameters, wn: int)
    ensures WordShaped(FirstSubframe(p, wn)[0]) && WordShaped(FirstSubframe(p, wn)[7])
    ensures WordShaped(SecondSubframe(p)[7]) && WordShaped(ThirdSubframe(p)[7])
  {
    OffsetsUpTo(FirstSubframe(p, wn)[0], 5);
    OffsetsUpTo(FirstSubframe(p, wn)[7], 2);
    OffsetsUpTo(SecondSubframe(p)[7], 4);
    OffsetsUpTo(ThirdSubframe(p)[7], 3);
  }

  lemma OffsetsUpTo(fs: seq<Field>, n: nat)
    requires n <= 5 && n < |fs|
    ensures Offset(fs, 0) == 0
    ensures n >= 1 ==> Offset(fs, 1) == fs[0].width
    ensures n >= 2 ==> Offset(fs, 2) == fs[0].width + fs[1].width
    ensures n >= 3 ==> Offset(fs, 3) == fs[0].width + fs[1].width + fs[2].width
    ensures n >= 4 ==> Offset(fs, 4) == fs[0].width + fs[1].width + fs[2].width + fs[3].width
    ensures n >= 5 ==> Offset(fs, 5) == fs[0].width + fs[1].width + fs[2].width + fs[3].width + fs[4].width
  {
    if n >= 1 {
      OffsetNext(fs, 0);
    }
    if n >= 2 {
      OffsetNext(fs, 1);
    }
    if n >= 3 {
      OffsetNext(fs, 2);
    }
    if n >= 4 {
      OffsetNext(fs, 3);
    }
    if n >= 5 {
      OffsetNext(fs, 4);
    }
  }

  lemma EveryWordIsShaped(p: Parameters, wn: int, i: nat)
    requires i < 8
    ensures WordShaped(FirstSubframe(p, wn)[i]) && WordShaped(SecondSubframe(p)[i]) && WordShaped(ThirdSubframe(p)[i])
  {
    LongWordsAreShaped(p, wn);
    ShortWordsAreShaped(FirstSubframe(p, wn)[i]);
    ShortWordsAreShaped(SecondSubframe(p)[i]);
    ShortWordsAreShaped(ThirdSubframe(p)[i]);
  }

  lemma ShortWordsAreShaped(fs: seq<Field>)
    ensures |fs| == 3 && fs[0].width + fs[1].width == 24 && fs[2] == Field(0, 8) ==> WordShaped(fs)
    ensures |fs| == 2 && fs[0].width == 24 && fs[1] == Field(0, 8) ==> WordShaped(fs)
  {
    if |fs| == 3 {
      OffsetsUpTo(fs, 2);
    } else if |fs| == 2 {
      OffsetsUpTo(fs, 1);
    }
  }

  /** What the fields leave of the words: nothing above their 24 bits, ... */
  lemma WordsHave24Bits(p: Parameters, wn: int, i: nat)
    requires i < 8
    ensures Words(FirstSubframe(p, wn))[i] < 0x100_0000
    ensures Words(SecondSubframe(p))[i] < 0x100_0000 && Words(ThirdSubframe(p))[i] < 0x100_0000
  {
    EveryWordIsShaped(p, wn, i);
    ShapedWord(FirstSubframe(p, wn), i);
    ShapedWord(SecondSubframe(p), i);
    ShapedWord(ThirdSubframe(p), i);
  }

  /** ... and nothing in the places that the code does not fill. */
  lemma UnusedBitsAreZero(p: Parameters, wn: int)
    ensures var a, b, c := Words(FirstSubframe(p, wn)), Words(SecondSubframe(p)), Words(ThirdSubframe(p));
            && DataBits(a[0], 11, 12) == 0 && DataBits(a[1], 1, 24) == 0 && DataBits(a[2], 1, 24) == 0
            && DataBits(a[3], 1, 24) == 0 && DataBits(a[4], 1, 16) == 0 && DataBits(a[7], 23, 24) == 0
            && DataBits(b[7], 18, 22) == 0 && DataBits(b[7], 23, 24) == 0 && DataBits(c[7], 23, 24) == 0
  {
    var a, b, c := FirstSubframe(p, wn), SecondSubframe(p), ThirdSubframe(p);
    ZeroBits(a, 0, 3, 11, 12);
    WholeBits(a, 1, 0);
    WholeBits(a, 2, 0);
    WholeBits(a, 3, 0);
    WideBits(a, 4, p.tGd, 0);
    ZeroBits(a, 7, 0, 23, 24);
    ZeroBits(b, 7, 1, 18, 22);
    ZeroBits(b, 7, 0, 23, 24);
    ZeroBits(c, 7, 0, 23, 24);
  }

  lemma ZeroBits(s: seq<seq<Field>>, i: nat, k: nat, first: nat, last: nat)
    requires i < |s| && k < |s[i]| && k <= 3 && 1 <= first <= last <= 24
    requires s[i][k] == Field(0, last + 1 - first)
    requires (if k == 0 then 0 else s[i][0].width)
             + (if k <= 1 then 0 else s[i][1].width) + (if k <= 2 then 0 else s[i][2].width) == 24 - last
    ensures DataBits(Words(s)[i], first, last) == 0
  {
    WordAt(s, i);
    OffsetsUpTo(s[i], k);
    FieldBits(s[i], k, first, last);
    SmallMod(0, Pow2(last + 1 - first));
  }

  /** New navigation models of satellites that exist. */
  predicate Taken(s: Satellite) {
    s.satId < 32 && (s.status == 0 || s.status == 2)
  }

  /** agps_assist_t: what is valid of it, and its parts. */
  datatype Assistance = Assistance(time: Option<ReferenceTime>, location: bool, model: Option<seq<Satellite>>) {
    predicate Typed() {
      model.Some? ==> forall i :: 0 <= i < |model.value| ==> model.value[i].parameters.Typed()
    }

    function Now(): GpsTime {
      if time.Some? then TimeOf(time.value) else GpsTime(0, 0.0)
    }
  }

  /** The time part of ini_ubx. */
  datatype Ini = Ini(wn: U2, itow: int, taccMs: nat, flags: nat)

  /** The ephemeris messages for the first n satellites of a list. */
  function Messages(ss: seq<Satellite>, now: GpsTime, n: nat): seq<Eph>
    requires n <= |ss| && forall i :: 0 <= i < n ==> ss[i].parameters.Typed()
  {
    if n == 0 then []
    else
      var last := ss[n - 1];
      Messages(ss, now, n - 1) + if Taken(last) then [Repack(last.satId, last.parameters, now)] else []
  }

  /** The message for one satellite. */
  method BuildEph(nm: Satellite, wn: int, tow: real) returns (eph: Eph)
    requires nm.parameters.Typed()
    ensures eph == Repack(nm.satId, nm.parameters, GpsTime(wn, tow))
    ensures Means(eph, nm.satId, nm.parameters, WeekOf(GpsTime(wn, tow), Toe(nm.parameters.tOe)))
  {
    RepackMeans(nm.satId, nm.parameters, GpsTime(wn, tow));
    var how := How(nm.parameters.tOe);
    var toe := how / 128 * 6;
    var tmp := Truncate(tow - toe as real);
    var wnOe := if tmp > HALF_WEEK then wn + 1 else if tmp < -HALF_WEEK then wn - 1 else wn;
    eph := Eph(nm.satId + 1, how, FirstSubframe(nm.parameters, wnOe), SecondSubframe(nm.parameters),
               ThirdSubframe(nm.parameters));
  }

  /** One pass of the loop over the satellites. */
  method SendEph(nm: Satellite, wn: int, tow: real) returns (sent: seq<Eph>)
    requires nm.parameters.Typed()
    ensures sent == if Taken(nm) then [Repack(nm.satId, nm.parameters, GpsTime(wn, tow))] else []
  {
    sent := [];
    if nm.satId < 32 && (nm.status == 0 || nm.status == 2) {
      var eph := BuildEph(nm, wn, tow);
      sent := [eph];
    }
  }

  /** The navigation model part of agpsAssistMessage. */
  method SendModel(ss: seq<Satellite>, wn: int, tow: real) returns (sent: seq<Eph>)
    requires forall i :: 0 <= i < |ss| ==> ss[i].parameters.Typed()
    ensures sent == Messages(ss, GpsTime(wn, tow), |ss|)
  {
    sent := [];
    for n := 0 to |ss|
      invariant sent == Messages(ss, GpsTime(wn, tow), n)
    {
      var more := SendEph(ss[n], wn, tow);
      sent := sent + more;
    }
  }

  /** agpsAssistMessage. */
  method AgpsAssistMessage(p: Assistance) returns (ini: Option<Ini>, sent: seq<Eph>)
    requires p.Typed()
    ensures ini.Some? <==> p.time.Some? || p.location
    ensures ini.Some? ==> ini.value.flags == (if p.time.Some? then 2 else 0) + if p.location then 1 else 0
    ensures p.time.Some? ==>
              && ini.value.wn == p.Now().wn % 65536
              && ini.value.itow == p.time.value.towMs - (if p.time.value.towMs >= 1000 * WEEK then 1000 * WEEK else 0)
              && ini.value.taccMs == 2000
    ensures sent == if p.model.Some? then Messages(p.model.value, p.Now(), |p.model.value|) else []
  {
    var tow := 0.0;
    var wn := 0;
    var wire := Ini(0, 0, 0, 0);
    if p.time.Some? {
      var t := p.time.value;
      wn := 1024 + t.gpsWeek;
      tow := t.towMs as real / 1000.0;
      if tow >= WEEK as real {
        tow := tow - WEEK as real;
        wn := wn + 1;
      }
      wire := wire.(wn := wn % 65536, itow := Truncate(tow * 1000.0), taccMs := 2 * 1000, flags := 2);
    }
    if p.location {
      wire := wire.(flags := wire.flags + 1);
    }
    ini := if wire.flags != 0 then Some(wire) else None;
    sent := [];
    if p.model.Some? {
      sent := SendModel(p.model.value, wn, tow);
    }
  }

  /** The satellites that get a message, in their order: message k is of the accepted one that k
      accepted ones precede. */
  lemma {:induction false} MessagesAreOfTaken(ss: seq<Satellite>, now: GpsTime, n: nat, k: nat) returns (i: nat)
    requires n <= |ss| && forall i :: 0 <= i < n ==> ss[i].parameters.Typed()
    requires k < |Messages(ss, now, n)|
    ensures i < n && ss[i].satId < 32 && ss[i].status in {0, 2}
    ensures Messages(ss, now, n)[k] == Repack(ss[i].satId, ss[i].parameters, now)
    ensures k == |Messages(ss, now, i)|
  {
    if k < |Messages(ss, now, n - 1)| {
      i := MessagesAreOfTaken(ss, now, n - 1, k);
    } else {
      i := n - 1;
    }
  }

  /** Every message that goes out for a reference time below two weeks means the parameters of an
      accepted satellite, and with a valid t_oe its ten bits are those of a week in which the
      ephemeris is within half a week of now, and a second. */
  lemma SentMessageMeans(p: Assistance, k: nat) returns (i: nat)
    requires p.Typed() && p.model.Some?
    requires k < |Messages(p.model.value, p.Now(), |p.model.value|)|
    ensures i < |p.model.value| && p.model.value[i].satId < 32 && p.model.value[i].status in {0, 2}
    ensures k == |Messages(p.model.value, p.Now(), i)|
    ensures var s, now := p.model.value[i], p.Now();
            var toe := Toe(s.parameters.tOe);
            var wn := WeekOf(now, toe);
            && Means(Messages(p.model.value, now, |p.model.value|)[k], s.satId, s.parameters, wn)
            && (p.time.Some? && p.time.value.towMs < 2 * 1000 * WEEK && s.parameters.tOe < 37800 ==>
                  -((HALF_WEEK + 1) as real) < Ahead(now, wn, toe) < (HALF_WEEK + 1) as real)
  {
    i := MessagesAreOfTaken(p.model.value, p.Now(), |p.model.value|, k);
    var s := p.model.value[i];
    RepackMeans(s.satId, s.parameters, p.Now());
    if p.time.Some? && p.time.value.towMs < 2 * 1000 * WEEK && s.parameters.tOe < 37800 {
      ValidTimesAreNear(p.time.value, s.parameters.tOe);
    }
  }

  /** And every accepted satellite has its message. */
  lemma {:induction false} TakenAreSent(ss: seq<Satellite>, now: GpsTime, n: nat, i: nat)
    requires n <= |ss| && forall j :: 0 <= j < n ==> ss[j].parameters.Typed()
    requires i < n && ss[i].satId < 32 && ss[i].status in {0, 2}
    ensures var k := |Messages(ss, now, i)|;
            && k < |Messages(ss, now, n)|
            && Messages(ss, now, n)[k] == Repack(ss[i].satId, ss[i].parameters, now)
  {
    if i == n - 1 {
    } else {
      TakenAreSent(ss, now, n - 1, i);
    }
  }
}
