/** The H4 transport of the Bluetooth HAL: frames on the wire, a pure parser of them, the
    incremental reassembler that is fed whatever read() returns, and the sender that copes with
    partial writes (bluetooth/hci_packetizer.cc, bluetooth/h4_protocol.cc,
    bluetooth/hci_protocol.cc). */
module Hci {
  import opened Bytes
  import opened Prelude

  const UNKNOWN: byte := 0
  const COMMAND: byte := 1
  const ACL_DATA: byte := 2
  const SCO_DATA: byte := 3
  const EVENT: byte := 4

  const PREAMBLE_SIZE_MAX := 4

  /** preamble_size_for_type. */
  function PreambleSize(t: byte): (n: nat)
    requires COMMAND <= t <= EVENT
    ensures 2 <= n <= PREAMBLE_SIZE_MAX
  {
    if t == ACL_DATA then 4 else if t == EVENT then 2 else 3
  }

  /** packet_length_offset_for_type. */
  function LengthOffset(t: byte): (n: nat)
    requires COMMAND <= t <= EVENT
    ensures n + (if t == ACL_DATA then 1 else 0) < PreambleSize(t)
  {
    if t == EVENT then 1 else 2
  }

  /** HciGetPacketLengthForType: two bytes for ACL data, one otherwise. */
  function PayloadLength(t: byte, preamble: seq<byte>): nat
    requires COMMAND <= t <= EVENT && PreambleSize(t) <= |preamble|
  {
    var offset := LengthOffset(t);
    if t != ACL_DATA then preamble[offset] else (preamble[offset + 1] as int) * 256 + preamble[offset]
  }

  datatype Frame = Frame(kind: byte, packet: seq<byte>)

  /** packet is a whole packet of type t with a payload. */
  predicate Whole(t: byte, packet: seq<byte>) {
    && COMMAND <= t <= EVENT
    && PreambleSize(t) < |packet|
    && |packet| == PreambleSize(t) + PayloadLength(t, packet)
  }

  /** The frames the host accepts: events, ACL data and SCO data with a non-empty payload. */
  predicate Deliverable(f: Frame) {
    f.kind != COMMAND && Whole(f.kind, f.packet)
  }

  function Encode(f: Frame): seq<byte> {
    [f.kind] + f.packet
  }

  function EncodeAll(fs: seq<Frame>): seq<byte> {
    if fs == [] then [] else Encode(fs[0]) + EncodeAll(fs[1..])
  }

  // ------------------------------------------------------------ the pure parser

  /** What the front of a byte stream is: a filler byte, an unfinished frame, something fatal, or
      a whole frame of so many bytes. */
  datatype Front = Filler | Unfinished | Fatal | Take(length: nat)

  function FrontOf(s: seq<byte>): (f: Front)
    requires |s| > 0
    ensures f.Take? ==> 1 < f.length <= |s|
  {
    if s[0] == UNKNOWN then Filler
    else if s[0] > EVENT then (if |s| > 1 then Fatal else Unfinished)
    else if |s| < 1 + PreambleSize(s[0]) then Unfinished
    else
      var head := 1 + PreambleSize(s[0]);
      var n := PayloadLength(s[0], s[1..]);
      if n == 0 then (if |s| > head then Fatal else Unfinished)
      else if |s| < head + n then Unfinished
      else if s[0] == COMMAND then Fatal
      else Take(head + n)
  }

  /** `rest` is the unfinished frame at the end; `dead` says that the receiver aborts. */
  datatype Parsed = Parsed(frames: seq<Frame>, rest: seq<byte>, dead: bool)

  function Parse(s: seq<byte>): Parsed {
    if s == [] then Parsed([], [], false)
    else match FrontOf(s)
         case Filler => Parse(s[1..])
         case Unfinished => Parsed([], s, false)
         case Fatal => Parsed([], s, true)
         case Take(n) =>
           var q := Parse(s[n..]);
           Parsed([Frame(s[0], s[1..n])] + q.frames, q.rest, q.dead)
  }

  lemma FrontOfTyped(t: byte, body: seq<byte>)
    requires COMMAND <= t <= EVENT
    ensures FrontOf([t] + body) ==
            if |body| < PreambleSize(t) then Unfinished
            else
              var n := PayloadLength(t, body);
              if n == 0 then (if |body| > PreambleSize(t) then Fatal else Unfinished)
              else if |body| < PreambleSize(t) + n then Unfinished
              else if t == COMMAND then Fatal
              else Take(1 + PreambleSize(t) + n)
  {
    assert ([t] + body)[1..] == body;
  }

  lemma LengthNeedsOnlyPreamble(t: byte, a: seq<byte>, b: seq<byte>)
    requires COMMAND <= t <= EVENT && PreambleSize(t) <= |a|
    ensures PayloadLength(t, a + b) == PayloadLength(t, a)
  {
  }

  lemma FrontExtends(a: seq<byte>, b: seq<byte>)
    requires |a| > 0
    ensures FrontOf(a).Unfinished? || FrontOf(a + b) == FrontOf(a)
  {
    assert (a + b)[1..] == a[1..] + b;
  }

  /** Parse unfolded once at the front. */
  lemma ParseFront(s: seq<byte>)
    requires |s| > 0
    ensures Parse(s) ==
            match FrontOf(s)
            case Filler => Parse(s[1..])
            case Unfinished => Parsed([], s, false)
            case Fatal => Parsed([], s, true)
            case Take(n) => var q := Parse(s[n..]); Parsed([Frame(s[0], s[1..n])] + q.frames, q.rest, q.dead)
  {
  }

  lemma ExtendsBehindFrame(a: seq<byte>, b: seq<byte>, n: nat)
    requires |a| > 0 && FrontOf(a) == Take(n) == FrontOf(a + b)
    ensures var f, p, q := Frame(a[0], a[1..n]), Parse(a[n..]), Parse(a[n..] + b);
            && Parse(a) == Parsed([f] + p.frames, p.rest, p.dead)
            && Parse(a + b) == Parsed([f] + q.frames, q.rest, q.dead)
  {
    ParseFront(a);
    ParseFront(a + b);
    assert (a + b)[n..] == a[n..] + b;
    assert (a + b)[1..n] == a[1..n];
  }

  lemma ResumesBehindFrame(a: seq<byte>, b: seq<byte>, n: nat, q: Parsed)
    requires |a| > 0 && FrontOf(a) == Take(n) == FrontOf(a + b)
    requires Parse(a[n..] + b) == Parsed(Parse(a[n..]).frames + q.frames, q.rest, q.dead)
    ensures Parse(a + b) == Parsed(Parse(a).frames + q.frames, q.rest, q.dead)
  {
    ExtendsBehindFrame(a, b, n);
    Join([Frame(a[0], a[1..n])], Parse(a[n..]).frames, q.frames);
  }

  /** Bytes that arrive later never change what was parsed: parsing resumes at the unfinished
      rest. */
  lemma {:induction false} ParseResumes(a: seq<byte>, b: seq<byte>, r: seq<byte>)
    requires !Parse(a).dead && r == Parse(a).rest + b
    ensures var q := Parse(r);
            Parse(a + b) == Parsed(Parse(a).frames + q.frames, q.rest, q.dead)
    decreases |a|
  {
    if a == [] {
      assert a + b == b == r;
    } else {
      FrontExtends(a, b);
      match FrontOf(a)
      case Filler =>
        assert (a + b)[1..] == a[1..] + b;
        ParseResumes(a[1..], b, r);
      case Unfinished =>
      case Fatal =>
      case Take(n) =>
        ParseFront(a);
        ParseResumes(a[n..], b, r);
        ResumesBehindFrame(a, b, n, Parse(r));
    }
  }

  /** A fatal point stays fatal. */
  lemma {:induction false} DeadStaysDead(a: seq<byte>, b: seq<byte>)
    requires Parse(a).dead
    ensures Parse(a + b).dead && Parse(a + b).frames == Parse(a).frames
    decreases |a|
  {
    FrontExtends(a, b);
    match FrontOf(a)
    case Filler =>
      assert (a + b)[1..] == a[1..] + b;
      DeadStaysDead(a[1..], b);
    case Unfinished =>
    case Fatal =>
    case Take(n) =>
      ExtendsBehindFrame(a, b, n);
      DeadStaysDead(a[n..], b);
  }

  /** The unfinished frame holds no frame of its own, so parsing can resume from it. */
  lemma {:induction false} RestIsUnfinished(s: seq<byte>)
    requires !Parse(s).dead
    ensures var r := Parse(s).rest; r == [] || FrontOf(r).Unfinished?
    decreases |s|
  {
    if s == [] {
    } else {
      match FrontOf(s)
      case Filler => RestIsUnfinished(s[1..]);
      case Unfinished =>
      case Fatal =>
      case Take(n) => RestIsUnfinished(s[n..]);
    }
  }

  /** q without the last byte of its rest. */
  function Shorter(q: Parsed): Parsed
    requires q.rest != []
  {
    q.(rest := q.rest[..|q.rest| - 1])
  }

  lemma ShorterBehindFrame(a: seq<byte>, b: seq<byte>, n: nat)
    requires |a| > 0 && FrontOf(a) == Take(n) == FrontOf(a + b)
    requires Parse(a[n..] + b).rest != [] && Parse(a[n..]) == Shorter(Parse(a[n..] + b))
    ensures Parse(a + b).rest != [] && Parse(a) == Shorter(Parse(a + b))
  {
    ExtendsBehindFrame(a, b, n);
  }

  /** Without its last byte, a stream that ends in an unfinished frame ends in that much less of
      it. */
  lemma {:induction false} WithoutLastByte(s: seq<byte>)
    requires !Parse(s).dead && |Parse(s).rest| >= 2
    ensures Parse(s[..|s| - 1]) == Shorter(Parse(s))
    decreases |s|
  {
    var a, b := s[..|s| - 1], s[|s| - 1..];
    assert s == a + b;
    ParseFront(s);
    match FrontOf(s)
    case Filler =>
      assert a[1..] == s[1..][..|s[1..]| - 1];
      WithoutLastByte(s[1..]);
    case Unfinished => FrontExtends(a, b);
    case Fatal =>
    case Take(n) =>
      RestIsSuffix(s[n..]);
      FrontEndsInside(a, b);
      assert s[n..] == a[n..] + b && a[n..] == s[n..][..|s[n..]| - 1];
      WithoutLastByte(s[n..]);
      ShorterBehindFrame(a, b, n);
  }

  lemma {:induction false} RestIsSuffix(s: seq<byte>)
    ensures |Parse(s).rest| <= |s|
    decreases |s|
  {
    if s == [] {
    } else {
      match FrontOf(s)
      case Filler => RestIsSuffix(s[1..]);
      case Unfinished =>
      case Fatal =>
      case Take(n) => RestIsSuffix(s[n..]);
    }
  }

  lemma FrontEndsInside(a: seq<byte>, b: seq<byte>)
    requires |a| > 0 && FrontOf(a + b).Take? && FrontOf(a + b).length <= |a|
    ensures FrontOf(a) == FrontOf(a + b)
  {
    assert (a + b)[1..] == a[1..] + b;
  }

  lemma FrontFrameWhole(s: seq<byte>)
    requires |s| > 0 && FrontOf(s).Take?
    ensures Deliverable(Frame(s[0], s[1..FrontOf(s).length]))
  {
  }

  lemma {:induction false} ParsedFramesDeliverable(s: seq<byte>)
    ensures forall f :: f in Parse(s).frames ==> Deliverable(f)
    decreases |s|
  {
    if s == [] {
    } else {
      match FrontOf(s)
      case Filler => ParsedFramesDeliverable(s[1..]);
      case Unfinished =>
      case Fatal =>
      case Take(n) =>
        FrontFrameWhole(s);
        ParsedFramesDeliverable(s[n..]);
    }
  }

  lemma FrontOfFrame(f: Frame, more: seq<byte>)
    requires Whole(f.kind, f.packet)
    ensures FrontOf(Encode(f) + more) == if f.kind == COMMAND then Fatal else Take(1 + |f.packet|)
  {
    assert Encode(f) + more == [f.kind] + (f.packet + more);
    FrontOfTyped(f.kind, f.packet + more);
    LengthNeedsOnlyPreamble(f.kind, f.packet, more);
  }

  lemma ParseOneFrame(f: Frame, more: seq<byte>)
    requires Whole(f.kind, f.packet)
    ensures var p := Parse(Encode(f) + more);
            if f.kind == COMMAND then p.dead && p.frames == []
            else var q := Parse(more); p == Parsed([f] + q.frames, q.rest, q.dead)
  {
    var s := Encode(f) + more;
    FrontOfFrame(f, more);
    assert s[1..1 + |f.packet|] == f.packet;
    assert s[1 + |f.packet|..] == more;
  }

  /** The parser undoes the encoder on every list of acceptable frames. */
  lemma {:induction false} ParseEncodeAll(fs: seq<Frame>)
    requires forall i :: 0 <= i < |fs| ==> Deliverable(fs[i])
    ensures Parse(EncodeAll(fs)) == Parsed(fs, [], false)
  {
    if fs == [] {
    } else {
      ParseEncodeAll(fs[1..]);
      ParseOneFrame(fs[0], EncodeAll(fs[1..]));
      assert fs == [fs[0]] + fs[1..];
    }
  }

  lemma {:induction false} EncodeAllAppend(fs: seq<Frame>, f: Frame)
    ensures EncodeAll(fs + [f]) == EncodeAll(fs) + Encode(f)
  {
    if fs == [] {
      assert fs + [f] == [f] && EncodeAll([f]) == Encode(f) + EncodeAll([f][1..]);
    } else {
      assert (fs + [f])[1..] == fs[1..] + [f];
      EncodeAllAppend(fs[1..], f);
    }
  }

  // ------------------------------------------------------- a frame that was cut short

  lemma ParseBehind(fs: seq<Frame>, s: seq<byte>)
    requires forall i :: 0 <= i < |fs| ==> Deliverable(fs[i])
    ensures var q := Parse(s);
            Parse(EncodeAll(fs) + s) == Parsed(fs + q.frames, q.rest, q.dead)
  {
    ParseEncodeAll(fs);
    ParseResumes(EncodeAll(fs), s, s);
  }

  lemma FrameBehind(fs: seq<Frame>, g: Frame)
    requires forall i :: 0 <= i < |fs| ==> Deliverable(fs[i])
    requires Deliverable(g)
    ensures Parse(EncodeAll(fs) + Encode(g)) == Parsed(fs + [g], [], false)
  {
    ParseBehind(fs, Encode(g));
    assert Encode(g) == Encode(g) + [];
    ParseOneFrame(g, []);
  }

  lemma CutIsUnfinished(f: Frame, cut: nat)
    requires Deliverable(f) && 0 < cut < |Encode(f)|
    ensures FrontOf(Encode(f)[..cut]).Unfinished?
  {
    var s := Encode(f);
    FrontOfFrame(f, []);
    assert s + [] == s && s[..cut] + s[cut..] == s;
    FrontExtends(s[..cut], s[cut..]);
  }

  /** A frame that was sent in part keeps the receiver waiting: the frames before it are there,
      and the part is the unfinished rest. */
  lemma CutFrameWaits(fs: seq<Frame>, f: Frame, cut: nat)
    requires forall i :: 0 <= i < |fs| ==> Deliverable(fs[i])
    requires Deliverable(f) && cut < |Encode(f)|
    ensures Parse(EncodeAll(fs) + Encode(f)[..cut]) == Parsed(fs, Encode(f)[..cut], false)
  {
    ParseBehind(fs, Encode(f)[..cut]);
    if cut > 0 {
      CutIsUnfinished(f, cut);
    }
  }

  lemma {:induction false} FramesFit(s: seq<byte>, g: Frame)
    requires g in Parse(s).frames
    ensures |Encode(g)| <= |s|
    decreases |s|
  {
    match FrontOf(s)
    case Filler => FramesFit(s[1..], g);
    case Unfinished =>
    case Fatal =>
    case Take(n) =>
      ParseFront(s);
      if g != Frame(s[0], s[1..n]) {
        FramesFit(s[n..], g);
      }
  }

  lemma StartsWithFrame(s: seq<byte>, g: Frame)
    requires Deliverable(g) && |Encode(g)| <= |s| && s[..|Encode(g)|] == Encode(g)
    ensures var q := Parse(s[|Encode(g)|..]); Parse(s) == Parsed([g] + q.frames, q.rest, q.dead)
  {
    assert s == Encode(g) + s[|Encode(g)|..];
    ParseOneFrame(g, s[|Encode(g)|..]);
  }

  lemma FrontEndsBehind(part: seq<byte>, more: seq<byte>)
    requires part == [] || FrontOf(part).Unfinished?
    requires |part + more| > 0 && FrontOf(part + more).Take?
    ensures |part| < FrontOf(part + more).length
  {
    if 0 < |part| && FrontOf(part + more).length <= |part| {
      FrontEndsInside(part, more);
    }
  }

  /** Where there is no room behind the front, a parsed frame is the front. */
  lemma OnlyFrontFits(s: seq<byte>, g: Frame)
    requires |s| > 0 && !FrontOf(s).Filler? && g in Parse(s).frames
    requires FrontOf(s).Take? ==> |s| - FrontOf(s).length < |Encode(g)|
    ensures FrontOf(s).Take? && s[..FrontOf(s).length] == Encode(g)
  {
    ParseFront(s);
    var n := FrontOf(s).length;
    if g in Parse(s[n..]).frames {
      FramesFit(s[n..], g);
    }
  }

  lemma DeliveredExactly(part: seq<byte>, g: Frame)
    requires Deliverable(g)
    requires part == [] || (part[0] != UNKNOWN && FrontOf(part).Unfinished?)
    ensures g in Parse(part + Encode(g)).frames <==> (part + Encode(g))[..|Encode(g)|] == Encode(g)
  {
    var s := part + Encode(g);
    if s[..|Encode(g)|] == Encode(g) {
      StartsWithFrame(s, g);
    }
    if g in Parse(s).frames {
      if FrontOf(s).Take? {
        FrontEndsBehind(part, Encode(g));
      }
      OnlyFrontFits(s, g);
    }
  }

  /** A frame sent behind one that was cut short is delivered exactly when the two together happen
      to start like it. */
  lemma DeliveredBehindCutExactly(fs: seq<Frame>, f: Frame, cut: nat, g: Frame)
    requires forall i :: 0 <= i < |fs| ==> Deliverable(fs[i])
    requires Deliverable(f) && cut < |Encode(f)| && Deliverable(g)
    ensures var s := Encode(f)[..cut] + Encode(g);
            && fs <= Parse(EncodeAll(fs) + s).frames
            && (g in Parse(EncodeAll(fs) + s).frames[|fs|..] <==> s[..|Encode(g)|] == Encode(g))
  {
    ParseBehind(fs, Encode(f)[..cut] + Encode(g));
    if cut > 0 {
      CutIsUnfinished(f, cut);
    }
    DeliveredExactly(Encode(f)[..cut], g);
  }

  lemma {:induction false} NothingParsedIsFiller(s: seq<byte>, k: nat)
    requires Parse(s) == Parsed([], [], false) && k < |s|
    ensures s[k] == UNKNOWN
    decreases |s|
  {
    ParseFront(s);
    if k == 0 || !FrontOf(s).Filler? {
    } else {
      NothingParsedIsFiller(s[1..], k - 1);
    }
  }

  /** In a sequence with a period, the byte at i comes back among the last ones. */
  lemma {:induction false} PeriodReachesEnd(s: seq<byte>, period: nat, i: nat) returns (k: nat)
    requires 0 < period && i < |s|
    requires forall j :: 0 <= j && j + period < |s| ==> s[j + period] == s[j]
    ensures i <= k < |s| <= k + period && s[k] == s[i]
    decreases |s| - i
  {
    if i + period < |s| {
      k := PeriodReachesEnd(s, period, i + period);
    } else {
      k := i;
    }
  }

  lemma CleanNeedsNoCut(part: seq<byte>, g: Frame)
    requires Deliverable(g) && part != [] && part[0] != UNKNOWN && FrontOf(part).Unfinished?
    ensures Parse(part + Encode(g)) != Parsed([g], [], false)
  {
    var e := Encode(g);
    var s := part + e;
    if Parse(s) == Parsed([g], [], false) {
      DeliveredExactly(part, g);
      StartsWithFrame(s, g);
      forall j | 0 <= j && j + |part| < |s| ensures s[j + |part|] == s[j] {
        assert s[j + |part|] == e[j] == s[..|e|][j];
      }
      var k := PeriodReachesEnd(s, |part|, 0);
      NothingParsedIsFiller(s[|e|..], k - |e|);
    }
  }

  lemma SameBehind(fs: seq<Frame>, q: Parsed, p: Parsed)
    ensures Parsed(fs + q.frames, q.rest, q.dead) == Parsed(fs + p.frames, p.rest, p.dead) <==> q == p
  {
    assert (fs + q.frames)[|fs|..] == q.frames && (fs + p.frames)[|fs|..] == p.frames;
  }

  /** And the receiver is in step again behind it, with nothing left over, exactly when nothing of
      the cut frame had been sent. */
  lemma InStepBehindCutExactly(fs: seq<Frame>, f: Frame, cut: nat, g: Frame)
    requires forall i :: 0 <= i < |fs| ==> Deliverable(fs[i])
    requires Deliverable(f) && cut < |Encode(f)| && Deliverable(g)
    ensures Parse(EncodeAll(fs) + (Encode(f)[..cut] + Encode(g))) == Parsed(fs + [g], [], false) <==> cut == 0
  {
    var part := Encode(f)[..cut];
    if cut == 0 {
      assert part + Encode(g) == Encode(g);
      FrameBehind(fs, g);
    } else {
      ParseBehind(fs, part + Encode(g));
      SameBehind(fs, Parse(part + Encode(g)), Parsed([g], [], false));
      CutIsUnfinished(f, cut);
      CleanNeedsNoCut(part, g);
    }
  }

  /** What a sender can put behind a type byte: the filler type has nothing behind it, the types of
      the standard a preamble and the payload it announces, any other type anything at all. */
  predicate Sendable(kind: byte, preamble: seq<byte>, payload: seq<byte>) {
    if kind == UNKNOWN then preamble == payload == []
    else COMMAND <= kind <= EVENT ==>
      |preamble| == PreambleSize(kind) && |payload| == PayloadLength(kind, preamble)
  }

  predicate Kills(kind: byte, payload: seq<byte>) {
    kind == COMMAND || kind > EVENT || (kind != UNKNOWN && payload == [])
  }

  /** What decides whether the receiver survives a frame of any kind and the byte after it. */
  lemma SurvivesExactly(kind: byte, preamble: seq<byte>, payload: seq<byte>, next: byte)
    requires Sendable(kind, preamble, payload)
    ensures var p := Parse([kind] + (preamble + payload) + [next]);
            && (p.dead <==> Kills(kind, payload))
            && p.frames == if p.dead || kind == UNKNOWN then [] else [Frame(kind, preamble + payload)]
  {
    var body := preamble + payload + [next];
    assert [kind] + (preamble + payload) + [next] == [kind] + body;
    if kind == UNKNOWN {
      assert ([kind] + body)[1..] == [next];
      ParseOneByte(next);
    } else if kind <= EVENT {
      SurvivesTyped(kind, preamble, payload, next);
    }
  }

  lemma SurvivesTyped(kind: byte, preamble: seq<byte>, payload: seq<byte>, next: byte)
    requires COMMAND <= kind <= EVENT && Sendable(kind, preamble, payload)
    ensures var p := Parse([kind] + (preamble + payload) + [next]);
            && (p.dead <==> Kills(kind, payload))
            && p.frames == if p.dead then [] else [Frame(kind, preamble + payload)]
  {
    var body := preamble + payload + [next];
    assert [kind] + (preamble + payload) + [next] == [kind] + body;
    LengthNeedsOnlyPreamble(kind, preamble, payload);
    if payload == [] {
      LengthNeedsOnlyPreamble(kind, preamble + payload, [next]);
      FrontOfTyped(kind, body);
    } else {
      ParseOneFrame(Frame(kind, preamble + payload), [next]);
      ParseOneByte(next);
    }
  }

  lemma ParseOneByte(b: byte)
    ensures Parse([b]) == Parsed([], if b == UNKNOWN then [] else [b], false)
  {
    if b == UNKNOWN {
      assert Parse([b]) == Parse([b][1..]);
    } else if b <= EVENT {
      assert [b] == [b] + [];
      FrontOfTyped(b, []);
    }
  }

  /** The same anywhere in a stream: good frames before it are delivered whatever follows. */
  lemma SurvivesExactlyInStream(fs: seq<Frame>, kind: byte, preamble: seq<byte>, payload: seq<byte>, next: byte)
    requires forall i :: 0 <= i < |fs| ==> Deliverable(fs[i])
    requires Sendable(kind, preamble, payload)
    ensures var p := Parse(EncodeAll(fs) + ([kind] + (preamble + payload) + [next]));
            && (p.dead <==> Kills(kind, payload))
            && p.frames == fs + if p.dead || kind == UNKNOWN then [] else [Frame(kind, preamble + payload)]
  {
    var tail := [kind] + (preamble + payload) + [next];
    ParseEncodeAll(fs);
    ParseResumes(EncodeAll(fs), tail, tail);
    SurvivesExactly(kind, preamble, payload, next);
  }

  // ------------------------------------------------------------- the reassembler

  datatype PacketizerState = HCI_PREAMBLE | HCI_PAYLOAD

  datatype Outcome = More | Ready | Aborted

  /** The bytes that still belong to the part of the packet being read, once `seen` have come. */
  function Wanted(t: byte, seen: seq<byte>): int
    requires COMMAND <= t <= EVENT
  {
    if |seen| < PreambleSize(t) then PreambleSize(t) - |seen|
    else PreambleSize(t) + PayloadLength(t, seen) - |seen|
  }

  /** data written over s from `at` on. */
  function Overwritten(s: seq<byte>, at: nat, data: seq<byte>): (r: seq<byte>)
    requires at + |data| <= |s|
    ensures |r| == |s| && r[..at + |data|] == s[..at] + data
  {
    s[..at] + data + s[at + |data|..]
  }

  lemma SameLength(t: byte, a: seq<byte>, b: seq<byte>)
    requires COMMAND <= t <= EVENT && PreambleSize(t) <= |a| && PreambleSize(t) <= |b|
    requires a[..PreambleSize(t)] == b[..PreambleSize(t)]
    ensures PayloadLength(t, a) == PayloadLength(t, b)
  {
    var p := PreambleSize(t);
    assert forall i :: 0 <= i < p ==> a[i] == a[..p][i] == b[..p][i] == b[i];
  }

  /** HciPacketizer. */
  class HciPacketizer {
    var state: PacketizerState
    const preamble: array<byte>
    var packet: seq<byte>
    var bytesRemaining: nat
    var bytesRead: nat

    /** The state in the middle of a packet of type t. */
    ghost predicate Valid(t: byte)
      requires COMMAND <= t <= EVENT
      reads this, preamble
    {
      && preamble.Length == PREAMBLE_SIZE_MAX
      && (state.HCI_PREAMBLE? ==> bytesRead < PreambleSize(t))
      && (state.HCI_PAYLOAD? ==>
            && |packet| == PreambleSize(t) + bytesRead + bytesRemaining
            && PayloadLength(t, packet) == bytesRead + bytesRemaining
            && (bytesRemaining == 0 ==> bytesRead == 0))
    }

    predicate Fresh()
      reads this
    {
      state.HCI_PREAMBLE? && bytesRead == 0 && preamble.Length == PREAMBLE_SIZE_MAX
    }

    /** The bytes of the current packet read so far. */
    ghost function Seen(t: byte): seq<byte>
      requires COMMAND <= t <= EVENT && Valid(t)
      reads this, preamble
    {
      if state.HCI_PREAMBLE? then preamble[..bytesRead] else packet[..PreambleSize(t) + bytesRead]
    }

    constructor ()
      ensures Fresh() && fresh(preamble)
    {
      state := HCI_PREAMBLE;
      preamble := new byte[PREAMBLE_SIZE_MAX];
      packet, bytesRemaining, bytesRead := [], 0, 0;
    }

    /** What one read achieves, from the bytes seen before it. */
    ghost predicate Progress(t: byte, seen: seq<byte>, chunk: seq<byte>, outcome: Outcome)
      requires COMMAND <= t <= EVENT
      reads this, preamble
    {
      && outcome != Aborted
      && (outcome.Ready? <==> Whole(t, seen + chunk))
      && (outcome.Ready? ==> Fresh() && packet == seen + chunk)
      && (outcome.More? ==> Valid(t) && Seen(t) == seen + chunk)
    }

    /** What read() does to the preamble. */
    method FillPreamble(data: seq<byte>)
      requires bytesRead + |data| <= preamble.Length
      modifies preamble
      ensures preamble[..bytesRead + |data|] == old(preamble[..bytesRead]) + data
    {
      forall i | 0 <= i < |data| {
        preamble[bytesRead + i] := data[i];
      }
      assert forall k :: 0 <= k < bytesRead ==> preamble[k] == old(preamble[k]);
    }

    /** OnDataReady, case HCI_PREAMBLE. */
    method ReadPreamble(t: byte, input: seq<byte>, limit: nat) returns (used: nat, outcome: Outcome)
      requires COMMAND <= t <= EVENT && Valid(t) && state.HCI_PREAMBLE?
      requires |input| > 0 && limit > 0
      modifies this, preamble
      ensures used == Min(limit, Min(Wanted(t, old(Seen(t))), |input|))
      ensures Progress(t, old(Seen(t)), input[..used], outcome)
    {
      ghost var seen := Seen(t);
      var size := PreambleSize(t);
      used := Min(limit, Min(size - bytesRead, |input|));
      FillPreamble(input[..used]);
      bytesRead := bytesRead + used;
      assert preamble[..bytesRead] == seen + input[..used];
      if bytesRead == size {
        var packetLength := PayloadLength(t, preamble[..]);
        packet := preamble[..size] + seq(packetLength, i => 0);
        assert packet[..size] == preamble[..size];
        SameLength(t, packet, preamble[..]);
        bytesRemaining := packetLength;
        state := HCI_PAYLOAD;
        bytesRead := 0;
      }
      outcome := More;
    }

    /** OnDataReady, case HCI_PAYLOAD. */
    method ReadPayload(t: byte, input: seq<byte>, limit: nat) returns (used: nat, outcome: Outcome)
      requires COMMAND <= t <= EVENT && Valid(t) && state.HCI_PAYLOAD?
      requires |input| > 0 && limit > 0 && bytesRemaining > 0
      modifies this
      ensures used == Min(limit, Min(old(bytesRemaining), |input|))
      ensures Progress(t, old(Seen(t)), input[..used], outcome)
    {
      ghost var was, at := packet, PreambleSize(t) + bytesRead;
      used := Min(limit, Min(bytesRemaining, |input|));
      packet := Overwritten(packet, PreambleSize(t) + bytesRead, input[..used]);
      ghost var now := packet[..at + used];
      assert packet[..PreambleSize(t)] == now[..PreambleSize(t)] == was[..PreambleSize(t)];
      SameLength(t, packet, was);
      SameLength(t, now, was);
      bytesRemaining := bytesRemaining - used;
      bytesRead := bytesRead + used;
      outcome := More;
      if bytesRemaining == 0 {
        assert now == packet;
        outcome := Ready;
        state := HCI_PREAMBLE;
        bytesRead := 0;
      }
    }

    /** OnDataReady when read() returns -1 behind the first byte of a preamble or payload: as a
        size_t that passes the check, and it counts the last byte off again. */
    method OnReadFailed(t: byte)
      requires COMMAND <= t <= EVENT && Valid(t) && bytesRead > 0
      modifies this
      ensures Valid(t) && Seen(t) == old(Seen(t))[..|old(Seen(t))| - 1]
    {
      bytesRead := bytesRead - 1;
      if state.HCI_PAYLOAD? {
        bytesRemaining := bytesRemaining + 1;
      }
    }

    /** OnDataReady.  `input` is what has arrived and `limit` the most that this read() returns.
        A read of 0 bytes returns 0, which the code takes as fatal. */
    method OnDataReady(t: byte, input: seq<byte>, limit: nat) returns (used: nat, outcome: Outcome)
      requires COMMAND <= t <= EVENT && Valid(t)
      requires |input| > 0 && limit > 0
      modifies this, preamble
      ensures var seen, want := old(Seen(t)), Wanted(t, old(Seen(t)));
              if want == 0 then used == 0 && outcome == Aborted
              else used == Min(limit, Min(want, |input|)) && Progress(t, seen, input[..used], outcome)
    {
      if state.HCI_PAYLOAD? {
        SameLength(t, Seen(t), packet);
        if bytesRemaining == 0 {
          return 0, Aborted;
        }
        used, outcome := ReadPayload(t, input, limit);
      } else {
        used, outcome := ReadPreamble(t, input, limit);
      }
    }
  }

  /** The byte in front of `cut` is gone, and one more follows. */
  function MovedUp(e: seq<byte>, cut: nat, next: byte): (s: seq<byte>)
    requires 0 < cut <= |e|
    ensures |s| == |e|
  {
    e[..cut - 1] + (e[cut..] + [next])
  }

  lemma MovedUpSame(e: seq<byte>, cut: nat, next: byte)
    requires 0 < cut <= |e|
    ensures MovedUp(e, cut, next) == e <==> e[cut - 1..] == e[cut..] + [next]
  {
    assert e == e[..cut - 1] + e[cut - 1..];
    assert MovedUp(e, cut, next)[cut - 1..] == e[cut..] + [next];
  }

  lemma MovedUpWhole(f: Frame, cut: nat, next: byte)
    requires Deliverable(f) && PreambleSize(f.kind) + 1 < cut <= |Encode(f)|
    ensures var s := MovedUp(Encode(f), cut, next);
            var g := Frame(f.kind, s[1..]);
            Deliverable(g) && s == Encode(g)
  {
    var s := MovedUp(Encode(f), cut, next);
    assert forall k :: 0 <= k < PreambleSize(f.kind) ==> s[1..][k] == Encode(f)[1 + k] == f.packet[k];
    SameLength(f.kind, s[1..], f.packet);
  }

  /** A read that fails while part of f has come makes the receiver forget the last byte of it.
      The rest of f then moves up by one, and the next byte of the stream completes the packet. */
  lemma FailedReadStealsByte(fs: seq<Frame>, f: Frame, cut: nat, next: byte)
    requires forall i :: 0 <= i < |fs| ==> Deliverable(fs[i])
    requires Deliverable(f) && PreambleSize(f.kind) + 1 < cut < |Encode(f)|
    ensures var s := Encode(f)[..cut - 1] + (Encode(f)[cut..] + [next]);
            && Parse(EncodeAll(fs) + s) == Parsed(fs + [Frame(f.kind, s[1..])], [], false)
            && (Frame(f.kind, s[1..]) == f <==> Encode(f)[cut - 1..] == Encode(f)[cut..] + [next])
  {
    var s := MovedUp(Encode(f), cut, next);
    var g := Frame(f.kind, s[1..]);
    MovedUpWhole(f, cut, next);
    MovedUpSame(Encode(f), cut, next);
    FrameBehind(fs, g);
    assert Encode(f)[1..] == f.packet;
  }

  datatype Callback = EventCb | AclCb | ScoCb

  /** The callback that a frame of this kind belongs to. */
  function CallbackFor(kind: byte): Callback {
    if kind == EVENT then EventCb else if kind == ACL_DATA then AclCb else ScoCb
  }

  function Delivery(f: Frame): (Callback, seq<byte>) {
    (CallbackFor(f.kind), f.packet)
  }

  function Deliveries(fs: seq<Frame>): seq<(Callback, seq<byte>)> {
    seq(|fs|, i requires 0 <= i < |fs| => Delivery(fs[i]))
  }

  lemma DeliveriesAppend(fs: seq<Frame>, gs: seq<Frame>)
    ensures Deliveries(fs + gs) == Deliveries(fs) + Deliveries(gs)
  {
  }

  // ------------------------------------------------------- the packets by their bytes

  /** What a controller sends: an event by its code, data by the two bytes of its connection
      handle. */
  datatype Packet =
    | EventPacket(code: byte, data: seq<byte>)
    | AclPacket(handle0: byte, handle1: byte, data: seq<byte>)
    | ScoPacket(handle0: byte, handle1: byte, data: seq<byte>)
  {
    /** The length field has one byte, for ACL data two. */
    predicate Sized() { 0 < |data| < if AclPacket? then 0x1_0000 else 0x100 }
  }

  /** The packet without its type byte; the length of ACL data is little-endian. */
  function Contents(p: Packet): seq<byte>
    requires p.Sized()
  {
    match p
    case EventPacket(code, data) => [code, |data|] + data
    case AclPacket(h0, h1, data) => [h0, h1, |data| % 256, |data| / 256] + data
    case ScoPacket(h0, h1, data) => [h0, h1, |data|] + data
  }

  function TypeByte(p: Packet): byte {
    match p
    case AclPacket(_, _, _) => 2
    case ScoPacket(_, _, _) => 3
    case EventPacket(_, _) => 4
  }

  function CallOf(p: Packet): (Callback, seq<byte>)
    requires p.Sized()
  {
    match p
    case EventPacket(_, _) => (EventCb, Contents(p))
    case AclPacket(_, _, _) => (AclCb, Contents(p))
    case ScoPacket(_, _, _) => (ScoCb, Contents(p))
  }

  function FrameOf(p: Packet): Frame
    requires p.Sized()
  {
    Frame(TypeByte(p), Contents(p))
  }

  lemma PacketIsDeliverable(p: Packet)
    requires p.Sized()
    ensures Deliverable(FrameOf(p)) && Delivery(FrameOf(p)) == CallOf(p)
  {
    assert |p.data| == |p.data| / 256 * 256 + |p.data| % 256;
  }

  function WireOf(ps: seq<Packet>): seq<byte>
    requires forall p :: p in ps ==> p.Sized()
  {
    if ps == [] then [] else [TypeByte(ps[0])] + Contents(ps[0]) + WireOf(ps[1..])
  }

  /** Any sequence of packets, byte by byte, makes the calls that belong to them, in order and with
      the contents that were sent. */
  lemma {:induction false} PacketsDelivered(ps: seq<Packet>)
    requires forall p :: p in ps ==> p.Sized()
    ensures var q := Parse(WireOf(ps));
            && !q.dead && q.rest == []
            && |q.frames| == |ps|
            && forall i :: 0 <= i < |ps| ==> Deliveries(q.frames)[i] == CallOf(ps[i])
  {
    if ps == [] {
    } else {
      PacketsDelivered(ps[1..]);
      PacketIsDeliverable(ps[0]);
      ParseOneFrame(FrameOf(ps[0]), WireOf(ps[1..]));
      assert ps[0] in ps;
    }
  }

  lemma {:induction false} OnePacketDelivered(p: Packet, s: seq<byte>)
    requires p.Sized() && s == [TypeByte(p)] + Contents(p)
    ensures Deliveries(Parse(s).frames) == [CallOf(p)]
  {
    PacketIsDeliverable(p);
    ParseOneFrame(FrameOf(p), []);
    assert Encode(FrameOf(p)) + [] == s;
    assert Parse(s).frames == [FrameOf(p)];
  }

  /** One packet of each kind, spelled out: an event, ... */
  lemma {:induction false} EventDelivered(code: byte, data: seq<byte>)
    requires 0 < |data| < 256
    ensures Deliveries(Parse([4, code, |data|] + data).frames) == [(EventCb, [code, |data|] + data)]
  {
    Join([4], [code, |data|], data);
    OnePacketDelivered(EventPacket(code, data), [4, code, |data|] + data);
  }

  /** ... voice, ... */
  lemma {:induction false} ScoDelivered(a: byte, b: byte, data: seq<byte>)
    requires 0 < |data| < 256
    ensures Deliveries(Parse([3, a, b, |data|] + data).frames) == [(ScoCb, [a, b, |data|] + data)]
  {
    Join([3], [a, b, |data|], data);
    OnePacketDelivered(ScoPacket(a, b, data), [3, a, b, |data|] + data);
  }

  /** ... and data. */
  lemma {:induction false} AclDelivered(a: byte, b: byte, data: seq<byte>)
    requires 0 < |data| < 0x1_0000
    ensures Deliveries(Parse([2, a, b, |data| % 256, |data| / 256] + data).frames) ==
            [(AclCb, [a, b, |data| % 256, |data| / 256] + data)]
  {
    Join([2], [a, b, |data| % 256, |data| / 256], data);
    OnePacketDelivered(AclPacket(a, b, data), [2, a, b, |data| % 256, |data| / 256] + data);
  }

  lemma NoPayloadIsFatal(t: byte, preamble: seq<byte>, next: byte, more: seq<byte>)
    requires COMMAND <= t <= EVENT && |preamble| == PreambleSize(t) && PayloadLength(t, preamble) == 0
    ensures !Parse([t] + preamble).dead && Parse([t] + (preamble + ([next] + more))).dead
  {
    FrontOfTyped(t, preamble);
    FrontOfTyped(t, preamble + ([next] + more));
    LengthNeedsOnlyPreamble(t, preamble, [next] + more);
  }

  /** Where the receiver gives up: at the first byte behind a packet that announced no payload, ... */
  lemma EmptyPacketsAreFatal(a: byte, b: byte, next: byte, more: seq<byte>)
    ensures !Parse([4] + [a, 0]).dead && Parse([4] + ([a, 0] + ([next] + more))).dead
    ensures !Parse([3] + [a, b, 0]).dead && Parse([3] + ([a, b, 0] + ([next] + more))).dead
    ensures !Parse([2] + [a, b, 0, 0]).dead && Parse([2] + ([a, b, 0, 0] + ([next] + more))).dead
  {
    NoPayloadIsFatal(4, [a, 0], next, more);
    NoPayloadIsFatal(3, [a, b, 0], next, more);
    NoPayloadIsFatal(2, [a, b, 0, 0], next, more);
  }

  /** ... at a whole command, ... */
  lemma CommandIsFatal(a: byte, b: byte, data: seq<byte>, more: seq<byte>)
    requires 0 < |data| < 256
    ensures Parse([1, a, b, |data|] + data + more).dead
  {
    var f := Frame(1, [a, b, |data|] + data);
    ParseOneFrame(f, more);
    assert Encode(f) + more == [1, a, b, |data|] + data + more;
  }

  /** ... and at the first byte behind a type above 4.  Bytes of type 0 are skipped. */
  lemma BadTypeAndFiller(t: byte, next: byte, more: seq<byte>)
    ensures t > 4 ==> !Parse([t]).dead && Parse([t, next] + more).dead
    ensures Parse([0] + more) == Parse(more)
  {
    assert ([0] + more)[1..] == more;
  }

  /** H4Protocol, receiving side.  `calls` records the callbacks made, in order. */
  class H4Protocol {
    var hciPacketType: byte
    const hciPacketizer: HciPacketizer
    var calls: seq<(Callback, seq<byte>)>
    var aborted: bool
    ghost var consumed: seq<byte>  // every byte read so far

    ghost predicate Valid()
      reads this, hciPacketizer, hciPacketizer.preamble
    {
      && !aborted
      && !Parse(consumed).dead
      && calls == Deliveries(Parse(consumed).frames)
      && if COMMAND <= hciPacketType <= EVENT then
           && hciPacketizer.Valid(hciPacketType)
           && Parse(consumed).rest == [hciPacketType] + hciPacketizer.Seen(hciPacketType)
         else
           && hciPacketizer.Fresh()
           && Parse(consumed).rest == if hciPacketType == UNKNOWN then [] else [hciPacketType]
    }

    constructor ()
      ensures Valid() && consumed == [] && calls == []
      ensures fresh(hciPacketizer) && fresh(hciPacketizer.preamble)
    {
      hciPacketType := UNKNOWN;
      hciPacketizer := new HciPacketizer();
      calls, aborted, consumed := [], false, [];
    }

    /** OnPacketReady: dispatch by type; a type without a callback is fatal. */
    method OnPacketReady()
      modifies this
      ensures consumed == old(consumed)
      ensures aborted == (old(aborted) || old(hciPacketType) !in {EVENT, ACL_DATA, SCO_DATA})
      ensures calls == if old(hciPacketType) in {EVENT, ACL_DATA, SCO_DATA}
                       then old(calls) + [(CallbackFor(old(hciPacketType)), old(hciPacketizer.packet))]
                       else old(calls)
      ensures hciPacketType == UNKNOWN
    {
      if hciPacketType == EVENT {
        calls := calls + [(EventCb, hciPacketizer.packet)];
      } else if hciPacketType == ACL_DATA {
        calls := calls + [(AclCb, hciPacketizer.packet)];
      } else if hciPacketType == SCO_DATA {
        calls := calls + [(ScoCb, hciPacketizer.packet)];
      } else {
        aborted := true;
      }
      hciPacketType := UNKNOWN;
    }

    /** OnDataReady: a type byte when none is known, otherwise packet bytes.  It keeps the calls
        equal to what the parser finds in the bytes read, or aborts where the parser does. */
    method OnDataReady(input: seq<byte>, limit: nat) returns (used: nat)
      requires Valid() && |input| > 0 && limit > 0
      modifies this, hciPacketizer, hciPacketizer.preamble
      ensures !aborted ==>
                Valid() && 1 <= used <= |input| && used <= limit && consumed == old(consumed) + input[..used]
      ensures aborted ==> var p := Parse(old(consumed) + input); p.dead && calls == Deliveries(p.frames)
    {
      ghost var before := consumed;
      if hciPacketType == UNKNOWN {
        used := 1;
        assert input[..1] == [input[0]];
        TypeByteArrives(before, input[0]);
        hciPacketType := input[0];
        consumed := before + input[..1];
        FreshPacketizer(input[0]);
      } else if hciPacketType > EVENT {
        used := 0;
        BadTypeIsFatal(before, input);
        aborted := true;
      } else {
        used := OnPacketBytes(input, limit);
      }
    }

    /** OnDataReady when read() returns -1: fatal where a type byte is wanted, and otherwise the
        last byte is forgotten, as if it had never come. */
    method OnReadFailed()
      requires Valid() && (COMMAND <= hciPacketType <= EVENT ==> hciPacketizer.bytesRead > 0)
      modifies this, hciPacketizer
      ensures aborted <==> !(COMMAND <= old(hciPacketType) <= EVENT)
      ensures calls == old(calls)
      ensures !aborted ==> Valid() && |old(consumed)| > 0 && consumed == old(consumed)[..|old(consumed)| - 1]
    {
      if COMMAND <= hciPacketType <= EVENT {
        ghost var before, seen := consumed, hciPacketizer.Seen(hciPacketType);
        hciPacketizer.OnReadFailed(hciPacketType);
        WithoutLastByte(before);
        RestIsSuffix(before);
        assert ([hciPacketType] + seen)[..|seen|] == [hciPacketType] + seen[..|seen| - 1];
        consumed := before[..|before| - 1];
      } else {
        aborted := true;
      }
    }

    /** The part of OnDataReady that passes the bytes on to the packetizer. */
    method OnPacketBytes(input: seq<byte>, limit: nat) returns (used: nat)
      requires Valid() && COMMAND <= hciPacketType <= EVENT && |input| > 0 && limit > 0
      modifies this, hciPacketizer, hciPacketizer.preamble
      ensures !aborted ==>
                Valid() && 1 <= used <= |input| && used <= limit && consumed == old(consumed) + input[..used]
      ensures aborted ==> var p := Parse(old(consumed) + input); p.dead && calls == Deliveries(p.frames)
    {
      var t := hciPacketType;
      ghost var before, seen := consumed, hciPacketizer.Seen(t);
      var outcome;
      used, outcome := hciPacketizer.OnDataReady(t, input, limit);
      PacketBytesArrive(before, t, seen, input, used, outcome);
      if outcome.Aborted? {
        aborted := true;
      } else {
        consumed := before + input[..used];
        if outcome.Ready? {
          DeliveriesAppend(Parse(before).frames, [Frame(t, seen + input[..used])]);
          OnPacketReady();
        }
      }
    }

    lemma FreshPacketizer(t: byte)
      requires hciPacketizer.Fresh()
      ensures COMMAND <= t <= EVENT ==> hciPacketizer.Valid(t) && hciPacketizer.Seen(t) == []
    {
    }
  }

  lemma TypeByteArrives(before: seq<byte>, b: byte)
    requires !Parse(before).dead && Parse(before).rest == []
    ensures Parse(before + [b]) == Parsed(Parse(before).frames, if b == UNKNOWN then [] else [b], false)
  {
    ParseOneByte(b);
    ParseResumes(before, [b], [b]);
  }

  lemma BadTypeIsFatal(before: seq<byte>, input: seq<byte>)
    requires var p := Parse(before); !p.dead && |p.rest| == 1 && p.rest[0] > EVENT
    requires |input| > 0
    ensures Parse(before + input).dead && Parse(before + input).frames == Parse(before).frames
  {
    ParseResumes(before, input, Parse(before).rest + input);
  }

  /** What each outcome of a packetizer read means for the parser. */
  lemma PacketBytesArrive(before: seq<byte>, t: byte, seen: seq<byte>, input: seq<byte>, used: nat, outcome: Outcome)
    requires COMMAND <= t <= EVENT && |input| > 0 && used <= |input|
    requires !Parse(before).dead && Parse(before).rest == [t] + seen
    requires if Wanted(t, seen) == 0 then outcome == Aborted
             else used <= Wanted(t, seen) && outcome == if Whole(t, seen + input[..used]) then Ready else More
    ensures var p, q, all := Parse(before), Parse(before + input[..used]), Parse(before + input);
            match outcome
            case Aborted => all.dead && all.frames == p.frames
            case More => q == Parsed(p.frames, [t] + (seen + input[..used]), false)
            case Ready =>
              if t == COMMAND then all.dead && all.frames == p.frames
              else q == Parsed(p.frames + [Frame(t, seen + input[..used])], [], false)
  {
    RestIsUnfinished(before);
    match outcome
    case Aborted => AbortArrives(before, t, seen, input);
    case More => MoreArrives(before, t, seen, input[..used]);
    case Ready =>
      if t == COMMAND {
        CommandArrives(before, t, seen, input[..used], input[used..]);
        assert input == input[..used] + input[used..];
      } else {
        FrameArrives(before, t, seen, input[..used]);
      }
  }

  lemma AbortArrives(before: seq<byte>, t: byte, seen: seq<byte>, input: seq<byte>)
    requires COMMAND <= t <= EVENT && |input| > 0 && Wanted(t, seen) == 0
    requires !Parse(before).dead && Parse(before).rest == [t] + seen && FrontOf([t] + seen).Unfinished?
    ensures Parse(before + input).dead && Parse(before + input).frames == Parse(before).frames
  {
    Join([t], seen, input);
    ZeroPayloadIsFatal(t, seen, input);
    ParseResumes(before, input, [t] + (seen + input));
  }

  lemma MoreArrives(before: seq<byte>, t: byte, seen: seq<byte>, chunk: seq<byte>)
    requires COMMAND <= t <= EVENT && |chunk| <= Wanted(t, seen) && !Whole(t, seen + chunk)
    requires !Parse(before).dead && Parse(before).rest == [t] + seen
    ensures Parse(before + chunk) == Parsed(Parse(before).frames, [t] + (seen + chunk), false)
  {
    Join([t], seen, chunk);
    StillUnfinished(t, seen, chunk);
    ParseResumes(before, chunk, [t] + (seen + chunk));
  }

  lemma FrameArrives(before: seq<byte>, t: byte, seen: seq<byte>, chunk: seq<byte>)
    requires t != COMMAND && Whole(t, seen + chunk)
    requires !Parse(before).dead && Parse(before).rest == [t] + seen
    ensures Parse(before + chunk) == Parsed(Parse(before).frames + [Frame(t, seen + chunk)], [], false)
  {
    var f := Frame(t, seen + chunk);
    Join([t], seen, chunk);
    assert Encode(f) + [] == Encode(f);
    ParseOneFrame(f, []);
    ParseResumes(before, chunk, Encode(f));
  }

  lemma CommandArrives(before: seq<byte>, t: byte, seen: seq<byte>, chunk: seq<byte>, more: seq<byte>)
    requires t == COMMAND && Whole(t, seen + chunk)
    requires !Parse(before).dead && Parse(before).rest == [t] + seen
    ensures Parse(before + (chunk + more)).dead && Parse(before + (chunk + more)).frames == Parse(before).frames
  {
    var f := Frame(t, seen + chunk);
    ParseOneFrame(f, more);
    Join([t], seen, chunk + more);
    Join(seen, chunk, more);
    Join([t], seen + chunk, more);
    ParseResumes(before, chunk + more, Encode(f) + more);
  }

  lemma ZeroPayloadIsFatal(t: byte, seen: seq<byte>, input: seq<byte>)
    requires COMMAND <= t <= EVENT && |input| > 0 && Wanted(t, seen) == 0
    requires FrontOf([t] + seen).Unfinished?
    ensures Parse([t] + (seen + input)) == Parsed([], [t] + (seen + input), true)
  {
    FrontOfTyped(t, seen);
    FrontOfTyped(t, seen + input);
    LengthNeedsOnlyPreamble(t, seen, input);
  }

  lemma StillUnfinished(t: byte, seen: seq<byte>, chunk: seq<byte>)
    requires COMMAND <= t <= EVENT && |chunk| <= Wanted(t, seen)
    requires !Whole(t, seen + chunk)
    ensures Parse([t] + (seen + chunk)) == Parsed([], [t] + (seen + chunk), false)
  {
    FrontOfTyped(t, seen + chunk);
    if PreambleSize(t) <= |seen| {
      LengthNeedsOnlyPreamble(t, seen, chunk);
    }
  }

  lemma PrefixGrows(front: seq<byte>, data: seq<byte>, at: nat, n: nat)
    requires at + n <= |data|
    ensures front + data[..at] + data[at..][..n] == front + data[..at + n]
    ensures front + data[..at] + data[at..] == front + data
  {
    TakeMore(data, at, n);
    Join(front, data[..at], data[at..][..n]);
    assert data[..at] + data[at..] == data;
    Join(front, data[..at], data[at..]);
  }

  /** Reads until all input is consumed or the receiver aborts, with any read sizes.  The calls
      made are those of the parser, so they do not depend on how the stream was chopped up. */
  method Pump(h4: H4Protocol, input: seq<byte>, limits: nat -> nat)
    requires h4.Valid() && forall i :: limits(i) > 0
    modifies h4, h4.hciPacketizer, h4.hciPacketizer.preamble
    ensures h4.aborted == Parse(old(h4.consumed) + input).dead
    ensures h4.calls == Deliveries(Parse(old(h4.consumed) + input).frames)
    ensures !h4.aborted ==> h4.Valid() && h4.consumed == old(h4.consumed) + input
  {
    var pos, calls := 0, 0;
    assert input[0..] == input;
    while pos < |input|
      invariant pos <= |input| && h4.Valid()
      invariant h4.consumed == old(h4.consumed) + input[..pos]
    {
      PrefixGrows(old(h4.consumed), input, pos, 0);
      var used := h4.OnDataReady(input[pos..], limits(calls));
      if h4.aborted {
        return;
      }
      PrefixGrows(old(h4.consumed), input, pos, used);
      pos, calls := pos + used, calls + 1;
    }
    assert input[..pos] == input;
  }

  // ------------------------------------------------------------------ the sender

  /** What one write() does: takes n bytes (at most what is offered), asks to be called again,
      or fails.  Taking 0 bytes also makes the sender give up. */
  datatype WriteOutcome = Wrote(n: nat) | Again | Failed

  predicate ErrorFree(plan: seq<WriteOutcome>) {
    forall o :: o in plan ==> o.Again? || (o.Wrote? && o.n > 0)
  }

  /** How many of `length` bytes get out under the plan, and what is left of the plan.  When the
      plan runs out, everything is taken. */
  function Transmit(length: nat, plan: seq<WriteOutcome>): (r: (nat, seq<WriteOutcome>))
    ensures r.0 <= length
    decreases |plan|
  {
    if length == 0 || plan == [] then (length, plan)
    else match plan[0]
         case Again => Transmit(length, plan[1..])
         case Failed => (0, plan[1..])
         case Wrote(n) =>
           if n == 0 then (0, plan[1..])
           else var (sent, left) := Transmit(length - Min(n, length), plan[1..]); (Min(n, length) + sent, left)
  }

  /** What the outcomes take up to the first that makes the sender give up, if there is one. */
  datatype Capacity = Endless | UpTo(n: nat)

  function CapacityOf(plan: seq<WriteOutcome>): Capacity {
    if plan == [] then Endless
    else
      var rest := CapacityOf(plan[1..]);
      match plan[0]
      case Again => rest
      case Failed => UpTo(0)
      case Wrote(n) => if n == 0 then UpTo(0) else if rest.Endless? then Endless else UpTo(n + rest.n)
  }

  /** That is exactly what gets out: everything if nothing fails in time. */
  lemma {:induction false} TransmitsExactly(length: nat, plan: seq<WriteOutcome>)
    ensures var cap := CapacityOf(plan);
            Transmit(length, plan).0 == if cap.Endless? then length else Min(length, cap.n)
    decreases |plan|
  {
    if length == 0 || plan == [] {
    } else {
      var rest := if plan[0].Wrote? then length - Min(plan[0].n, length) else length;
      TransmitsExactly(rest, plan[1..]);
      TransmitsExactly(length, plan[1..]);
    }
  }

  lemma {:induction false} ErrorFreeTransmitsAll(length: nat, plan: seq<WriteOutcome>)
    requires ErrorFree(plan)
    ensures Transmit(length, plan).0 == length && ErrorFree(Transmit(length, plan).1)
    decreases |plan|
  {
    if length == 0 || plan == [] {
    } else {
      var rest := if plan[0].Again? then length else length - Min(plan[0].n, length);
      assert plan[0] in plan && ErrorFree(plan[1..]);
      ErrorFreeTransmitsAll(rest, plan[1..]);
    }
  }

  /** Transmit unfolded once. */
  lemma TransmitNext(length: nat, plan: seq<WriteOutcome>)
    requires length > 0
    ensures Transmit(length, plan) ==
            if plan == [] then (length, plan)
            else match plan[0]
                 case Again => Transmit(length, plan[1..])
                 case Failed => (0, plan[1..])
                 case Wrote(n) =>
                   if n == 0 then (0, plan[1..])
                   else var (sent, left) := Transmit(length - Min(n, length), plan[1..]); (Min(n, length) + sent, left)
  {
  }

  /** How many bytes of a frame with that much packet get out: the type byte is sent first, and
      nothing more when that fails. */
  function OnWire(length: nat, plan: seq<WriteOutcome>): (n: nat)
    ensures n <= 1 + length
  {
    var (first, left) := Transmit(1, plan);
    if first == 1 then 1 + Transmit(length, left).0 else 0
  }

  class Uart {
    var wire: seq<byte>
    var plan: seq<WriteOutcome>

    constructor (plan: seq<WriteOutcome>)
      ensures wire == [] && this.plan == plan
    {
      wire, this.plan := [], plan;
    }

    /** One write() call: None is an error, with `again` telling EAGAIN. */
    method Write(data: seq<byte>) returns (o: WriteOutcome)
      requires |data| > 0
      modifies this
      ensures old(plan) == [] ==> o == Wrote(|data|) && plan == []
      ensures old(plan) != [] ==>
                && plan == old(plan)[1..]
                && o == match old(plan)[0] case Wrote(n) => Wrote(Min(n, |data|)) case other => other
      ensures wire == if o.Wrote? then old(wire) + data[..Min(o.n, |data|)] else old(wire)
    {
      if plan == [] {
        o := Wrote(|data|);
      } else {
        match plan[0]
        case Wrote(n) => o := Wrote(Min(n, |data|));
        case Again => o := Again;
        case Failed => o := Failed;
      }
      plan := if plan == [] then [] else plan[1..];
      if o.Wrote? {
        wire := wire + data[..Min(o.n, |data|)];
      }
    }

    /** WriteSafely. */
    method WriteSafely(data: seq<byte>) returns (transmitted: nat)
      modifies this
      ensures (transmitted, plan) == Transmit(|data|, old(plan))
      ensures transmitted <= |data| && wire == old(wire) + data[..transmitted]
    {
      transmitted := 0;
      var length: nat := |data|;
      while length > 0
        invariant transmitted <= |data| && length == |data| - transmitted
        invariant wire == old(wire) + data[..transmitted]
        invariant Transmit(|data|, old(plan)) ==
                  (transmitted + Transmit(length, plan).0, Transmit(length, plan).1)
        decreases length + |plan|
      {
        TransmitNext(length, plan);
        var ret := Write(data[transmitted..]);
        match ret
        case Again =>
        case Failed =>
          return;
        case Wrote(n) =>
          if n == 0 {
            return;
          }
          PrefixGrows(old(wire), data, transmitted, n);
          transmitted := transmitted + n;
          length := length - n;
      }
    }

    /** H4Protocol::Send: the type byte, then the packet. */
    method Send(kind: byte, data: seq<byte>) returns (rv: nat)
      modifies this
      ensures var (first, left) := Transmit(1, old(plan));
              if first == 1 then
                && (rv, plan) == Transmit(|data|, left)
                && rv <= |data| && wire == old(wire) + [kind] + data[..rv]
              else rv == first && plan == left && wire == old(wire) + [kind][..first]
      ensures wire == old(wire) + Encode(Frame(kind, data))[..OnWire(|data|, old(plan))]
      ensures ErrorFree(old(plan)) ==>
                rv == |data| && wire == old(wire) + Encode(Frame(kind, data)) && ErrorFree(plan)
    {
      ghost var plan0 := plan;
      rv := WriteSafely([kind]);
      if ErrorFree(plan0) {
        ErrorFreeTransmitsAll(1, plan0);
        ErrorFreeTransmitsAll(|data|, plan);
      }
      if rv == 1 {
        assert [kind][..1] == [kind];
        rv := WriteSafely(data);
        assert data[..|data|] == data;
        assert old(wire) + [kind] + data == old(wire) + ([kind] + data);
      }
    }
  }

  /** Everything sent over an error-free UART comes out of the receiver unchanged: same
      packets, same order, each at the callback of its type, for every schedule of partial
      writes and every size of read. */
  method Loopback(frames: seq<Frame>, plan: seq<WriteOutcome>, limits: nat -> nat) returns (h4: H4Protocol)
    requires forall i :: 0 <= i < |frames| ==> Deliverable(frames[i])
    requires ErrorFree(plan) && forall i :: limits(i) > 0
    ensures !h4.aborted && h4.calls == Deliveries(frames)
  {
    var uart := new Uart(plan);
    for i := 0 to |frames|
      invariant ErrorFree(uart.plan) && uart.wire == EncodeAll(frames[..i])
    {
      EncodeAllAppend(frames[..i], frames[i]);
      assert frames[..i + 1] == frames[..i] + [frames[i]];
      var rv := uart.Send(frames[i].kind, frames[i].packet);
    }
    assert frames[..|frames|] == frames;
    h4 := new H4Protocol();
    ParseEncodeAll(frames);
    assert [] + uart.wire == EncodeAll(frames);
    Pump(h4, uart.wire, limits);
  }
}
