/** The NMEA line assembler and tokenizer (gps/gps.c). */
module Nmea {
  import opened Bytes
  import opened Prelude

  const NEWLINE: byte := 10
  const RETURN: byte := 13
  const DOLLAR: byte := 36
  const STAR: byte := 42
  const COMMA: byte := 44

  /** NMEA_MAX_SIZE; the buffer has one byte more, for the NUL. */
  const MAX_LINE := 255

  const MAX_TOKENS := 32

  /** The first index of c in s, or |s|. */
  function First(s: seq<byte>, c: byte): (k: nat)
    ensures k <= |s| && c !in s[..k] && (k < |s| ==> s[k] == c)
  {
    if s == [] || s[0] == c then 0
    else
      var k := First(s[1..], c);
      assert s[..k + 1] == [s[0]] + s[1..][..k];
      k + 1
  }

  lemma {:induction false} FirstIs(a: seq<byte>, c: byte, b: seq<byte>)
    requires c !in a && (b == [] || b[0] == c)
    ensures First(a + b, c) == |a|
  {
    if a == [] {
      assert a + b == b;
    } else {
      FirstIs(a[1..], c, b);
      assert (a + b)[1..] == a[1..] + b;
    }
  }

  // ---------------------------------------------------------- lines of a stream

  /** What is left of a stream: the lines parsed, the line not finished yet, and whether bytes are
      being dropped up to a newline. */
  datatype Scanned = Scanned(lines: seq<seq<byte>>, partial: seq<byte>, overflow: bool) {
    function Behind(line: seq<byte>): Scanned {
      Scanned([line] + lines, partial, overflow)
    }
  }

  /** The lines of a whole stream. A line that ends within 255 bytes is one; otherwise the 256th
      byte, whatever it is, and everything through the next newline are gone with it. */
  function Scan(s: seq<byte>): Scanned
    decreases |s|
  {
    var k := First(s, NEWLINE);
    if k < |s| && k < MAX_LINE then Scan(s[k + 1..]).Behind(s[..k + 1])
    else if |s| <= MAX_LINE then Scanned([], s, false)
    else Skip(s[MAX_LINE + 1..])
  }

  /** The lines behind the next newline. */
  function Skip(s: seq<byte>): Scanned
    decreases |s|
  {
    var m := First(s, NEWLINE);
    if m < |s| then Scan(s[m + 1..]) else Scanned([], [], true)
  }

  predicate Line(x: seq<byte>) {
    |x| > 0 && x[|x| - 1] == 10 && 10 !in x[..|x| - 1]
  }

  lemma FirstOfLine(x: seq<byte>, s: seq<byte>)
    requires Line(x)
    ensures First(x + s, NEWLINE) == |x| - 1
  {
    var a, b := x[..|x| - 1], [x[|x| - 1]] + s;
    assert x + s == a + b;
    FirstIs(a, NEWLINE, b);
  }

  lemma LineFound(s: seq<byte>, k: nat)
    requires k < |s| && k == First(s, NEWLINE)
    ensures Line(s[..k + 1])
  {
    assert s[..k + 1][..k] == s[..k];
  }

  predicate Fit(z: Scanned) {
    && (forall i :: 0 <= i < |z.lines| ==> Line(z.lines[i]) && |z.lines[i]| <= MAX_LINE)
    && NEWLINE !in z.partial && |z.partial| <= MAX_LINE
    && (z.overflow ==> z.partial == [])
  }

  lemma FitBehind(z: Scanned, line: seq<byte>)
    requires Fit(z) && Line(line) && |line| <= MAX_LINE
    ensures Fit(z.Behind(line))
  {
  }

  /** What is parsed are lines, short enough for the NUL to fit behind them. */
  lemma {:induction false} ParsedLinesFit(s: seq<byte>)
    ensures Fit(Scan(s))
    decreases |s|
  {
    var k := First(s, NEWLINE);
    if k < |s| && k < MAX_LINE {
      ParsedLinesFit(s[k + 1..]);
      LineFound(s, k);
      FitBehind(Scan(s[k + 1..]), s[..k + 1]);
    } else if |s| <= MAX_LINE {
      assert s[..k] == s;
    } else {
      var rest := s[MAX_LINE + 1..];
      var m := First(rest, NEWLINE);
      if m < |rest| {
        ParsedLinesFit(rest[m + 1..]);
      }
    }
  }

  /** How one more byte changes the outcome. */
  function Next(z: Scanned, c: byte): Scanned {
    if z.overflow then Scanned(z.lines, [], c != NEWLINE)
    else if |z.partial| >= MAX_LINE then Scanned(z.lines, [], true)
    else if c == NEWLINE then Scanned(z.lines + [z.partial + [c]], [], false)
    else Scanned(z.lines, z.partial + [c], false)
  }

  lemma NextBehind(z: Scanned, line: seq<byte>, c: byte)
    ensures Next(z.Behind(line), c) == Next(z, c).Behind(line)
  {
    assert [line] + z.lines + [z.partial + [c]] == [line] + (z.lines + [z.partial + [c]]);
  }

  lemma FirstMore(s: seq<byte>, c: byte, d: byte)
    ensures First(s + [d], c) == if First(s, c) < |s| || d == c then First(s, c) else |s| + 1
  {
    var k := First(s, c);
    if k < |s| {
      assert s + [d] == s[..k] + (s[k..] + [d]);
      FirstIs(s[..k], c, s[k..] + [d]);
    } else {
      assert s[..k] == s;
      if d == c {
        FirstIs(s, c, [d]);
      } else {
        FirstIs(s + [d], c, []);
        assert s + [d] + [] == s + [d];
      }
    }
  }

  lemma {:induction false} SkipNext(s: seq<byte>, c: byte)
    ensures Skip(s + [c]) == Next(Skip(s), c)
    decreases |s|, 0
  {
    var m := First(s, NEWLINE);
    FirstMore(s, NEWLINE, c);
    if m < |s| {
      assert (s + [c])[m + 1..] == s[m + 1..] + [c];
      ScanNext(s[m + 1..], c);
    } else if c == NEWLINE {
      assert (s + [c])[m + 1..] == [];
    }
  }

  /** Taking the stream byte by byte is scanning it as a whole. */
  lemma {:induction false} ScanNext(s: seq<byte>, c: byte)
    ensures Scan(s + [c]) == Next(Scan(s), c)
    decreases |s|, 1
  {
    var k := First(s, NEWLINE);
    FirstMore(s, NEWLINE, c);
    if k < |s| && k < MAX_LINE {
      var line, rest := s[..k + 1], s[k + 1..];
      assert s == line + rest;
      Join(line, rest, [c]);
      LineFound(s, k);
      ScanNext(rest, c);
      ScanLine(line, rest);
      ScanLine(line, rest + [c]);
      NextLater(line, Scan(rest), Scan(rest + [c]), c, Scan(s), Scan(s + [c]));
    } else if |s| < MAX_LINE {
      NextInLine(s, c);
    } else if |s| == MAX_LINE {
      assert (s + [c])[MAX_LINE + 1..] == [];
    } else {
      assert (s + [c])[MAX_LINE + 1..] == s[MAX_LINE + 1..] + [c];
      SkipNext(s[MAX_LINE + 1..], c);
    }
  }

  /** The outcome with a line in front of everything, before and after one more byte. */
  lemma NextLater(line: seq<byte>, z: Scanned, next: Scanned, c: byte, all: Scanned, allNext: Scanned)
    requires next == Next(z, c) && all == z.Behind(line) && allNext == next.Behind(line)
    ensures allNext == Next(all, c)
  {
    NextBehind(z, line, c);
  }

  lemma ScanLine(line: seq<byte>, rest: seq<byte>)
    requires Line(line) && |line| <= MAX_LINE
    ensures Scan(line + rest) == Scan(rest).Behind(line)
  {
    var s := line + rest;
    FirstOfLine(line, rest);
    assert s[..|line|] == line && s[|line|..] == rest;
  }

  lemma NextInLine(s: seq<byte>, c: byte)
    requires |s| < MAX_LINE && First(s, NEWLINE) == |s|
    ensures Scan(s + [c]) == Next(Scan(s), c)
  {
    assert s[..|s|] == s;
    if c == NEWLINE {
      var line := s + [c];
      assert line[..|s|] == s;
      ScanLine(line, []);
      assert line + [] == line && Scan([]) == Scanned([], [], false);
    } else {
      FirstMore(s, NEWLINE, c);
    }
  }

  // --------------------------------------------- which lines of a stream arrive

  function Concat(xs: seq<seq<byte>>): seq<byte> {
    if xs == [] then [] else xs[0] + Concat(xs[1..])
  }

  /** One line in front: parsed, or dropped alone, or, at 256 bytes, dropped together with its
      newline, so that skipping goes on. */
  lemma LineInFront(x: seq<byte>, s: seq<byte>)
    requires Line(x)
    ensures Scan(x + s) == if |x| <= MAX_LINE then Scan(s).Behind(x)
                           else if |x| == MAX_LINE + 1 then Skip(s) else Scan(s)
    ensures Skip(x + s) == Scan(s)
  {
    var t := x + s;
    FirstOfLine(x, s);
    assert t[..|x|] == x && t[|x|..] == s;
    if |x| == MAX_LINE + 1 {
      assert t[MAX_LINE + 1..] == s;
    } else if |x| > MAX_LINE + 1 {
      var tail := x[MAX_LINE + 1..];
      assert t[MAX_LINE + 1..] == tail + s;
      assert tail[..|tail| - 1] == x[..|x| - 1][MAX_LINE + 1..];
      FirstOfLine(tail, s);
      assert (tail + s)[|tail|..] == s;
    }
  }

  /** The lines parsed, in terms of the lines sent. */
  function Delivered(xs: seq<seq<byte>>): seq<seq<byte>> {
    if xs == [] then []
    else if |xs[0]| <= 255 then [xs[0]] + Delivered(xs[1..])
    else if |xs[0]| == 256 then if |xs| == 1 then [] else Delivered(xs[2..])
    else Delivered(xs[1..])
  }

  /** For lines of any lengths: the ones of up to 255 bytes arrive, except one right behind a line
      of 256 whose newline was not itself skipped over. */
  lemma {:induction false} LinesOfStream(xs: seq<seq<byte>>)
    requires forall i :: 0 <= i < |xs| ==> Line(xs[i])
    ensures Scan(Concat(xs)).lines == Delivered(xs)
    decreases |xs|
  {
    if xs == [] {
    } else {
      LineInFront(xs[0], Concat(xs[1..]));
      if |xs[0]| == MAX_LINE + 1 {
        if |xs| > 1 {
          assert xs[1..][1..] == xs[2..];
          LineInFront(xs[1], Concat(xs[2..]));
          LinesOfStream(xs[2..]);
        }
      } else {
        LinesOfStream(xs[1..]);
      }
    }
  }

  function Short(xs: seq<seq<byte>>): seq<seq<byte>> {
    if xs == [] then [] else (if |xs[0]| <= 255 then [xs[0]] else []) + Short(xs[1..])
  }

  /** Over-long lines cost nothing but themselves as long as none has exactly 256 bytes. */
  lemma {:induction false} ShortLinesArrive(xs: seq<seq<byte>>)
    requires forall i :: 0 <= i < |xs| ==> Line(xs[i]) && |xs[i]| != 256
    ensures Scan(Concat(xs)).lines == Short(xs)
  {
    LinesOfStream(xs);
    DeliveredShort(xs);
  }

  lemma {:induction false} DeliveredShort(xs: seq<seq<byte>>)
    requires forall i :: 0 <= i < |xs| ==> |xs[i]| != 256
    ensures Delivered(xs) == Short(xs)
  {
    if xs == [] {
    } else {
      DeliveredShort(xs[1..]);
    }
  }

  lemma OneLineMore(x: seq<byte>, s: seq<byte>, lines: seq<seq<byte>>)
    requires Line(x) && |x| <= MAX_LINE && Scan(s) == Scanned(lines, [], false)
    ensures Scan(x + s) == Scanned([x] + lines, [], false)
  {
    LineInFront(x, s);
  }

  /** Splitting gives back the lines that were put together, with nothing left over. */
  lemma {:induction false} SplitConcat(xs: seq<seq<byte>>)
    requires forall i :: 0 <= i < |xs| ==> Line(xs[i]) && |xs[i]| <= MAX_LINE
    ensures Scan(Concat(xs)) == Scanned(xs, [], false)
  {
    if xs == [] {
    } else {
      SplitConcat(xs[1..]);
      OneLineMore(xs[0], Concat(xs[1..]), xs[1..]);
      assert [xs[0]] + xs[1..] == xs;
    }
  }

  /** A good line survives the line in front of it exactly when that is not 256 bytes long: then
      its newline is the dropped byte. */
  lemma GoodLineSurvivesExactly(x: seq<byte>, y: seq<byte>)
    requires Line(x) && Line(y) && |y| <= 255
    ensures Scan(x + y).lines == (if |x| <= 255 then [x] else []) + (if |x| != 256 then [y] else [])
    ensures y in Scan(x + y).lines <==> |x| != 256
  {
    LineInFront(x, y);
    LineInFront(y, []);
    assert y + [] == y;
    assert Scan([]) == Scanned([], [], false);
  }

  // ------------------------------------------------------------------- reader

  /** The buffer part of NmeaReader; parsed logs what nmea_reader_parse is called with. */
  class NmeaReader {
    const buf: array<byte>
    var pos: nat
    var overflow: bool
    var parsed: seq<seq<byte>>
    ghost var fed: seq<byte>

    ghost predicate Valid()
      reads this, buf
    {
      && buf.Length == MAX_LINE + 1 && pos <= MAX_LINE
      && Scan(fed) == Scanned(parsed, buf[..pos], overflow)
    }

    constructor ()
      ensures Valid() && fresh(buf) && fed == []
    {
      buf := new byte[MAX_LINE + 1](_ => 0);
      pos := 0;
      overflow := false;
      parsed := [];
      fed := [];
    }

    /** nmea_reader_addc: the lines parsed so far are the lines of everything fed so far, and each is
        NUL-terminated in the buffer when it is parsed. */
    method AddC(c: byte)
      requires Valid()
      modifies this, buf
      ensures Valid() && fed == old(fed) + [c]
      ensures parsed != old(parsed) ==>
                && old(pos) < MAX_LINE
                && parsed == old(parsed) + [buf[..old(pos) + 1]]
                && buf[old(pos) + 1] == 0
    {
      ScanNext(fed, c);
      ParsedLinesFit(fed);
      fed := fed + [c];
      if overflow {
        overflow := c != NEWLINE;
        return;
      }
      if pos >= buf.Length - 1 {
        overflow := true;
        pos := 0;
        return;
      }
      Put(c);
    }

    /** The part of it that stores a byte, and parses the line that it ends. */
    method Put(c: byte)
      requires buf.Length == MAX_LINE + 1 && pos < MAX_LINE
      modifies `pos, `parsed, buf
      ensures c != NEWLINE ==>
                pos == old(pos) + 1 && parsed == old(parsed) && buf[..pos] == old(buf[..pos]) + [c]
      ensures c == NEWLINE ==>
                && pos == 0 && buf[..old(pos) + 1] == old(buf[..pos]) + [c] && buf[old(pos) + 1] == 0
                && parsed == old(parsed) + [buf[..old(pos) + 1]]
    {
      buf[pos] := c;
      pos := pos + 1;
      if c == NEWLINE {
        buf[pos] := 0;
        parsed := parsed + [buf[..pos]];
        pos := 0;
      }
    }

    /** The loop over the bytes of one read: how the stream is cut into reads does not matter. */
    method AddAll(bytes: seq<byte>)
      requires Valid()
      modifies this, buf
      ensures Valid() && fed == old(fed) + bytes
      ensures parsed == Scan(old(fed) + bytes).lines
    {
      for i := 0 to |bytes|
        invariant Valid() && fed == old(fed) + bytes[..i]
      {
        AddC(bytes[i]);
        assert bytes[..i + 1] == bytes[..i] + [bytes[i]];
        Join(old(fed), bytes[..i], [bytes[i]]);
      }
      assert bytes[..|bytes|] == bytes;
    }
  }

  // ----------------------------------------------------------------- tokenizer

  /** The fields of a body: its comma-separated pieces, none for what is behind a last comma. */
  function Fields(body: seq<byte>): seq<seq<byte>>
    decreases |body|
  {
    if body == [] then []
    else
      var k := First(body, COMMA);
      [body[..k]] + Fields(if k < |body| then body[k + 1..] else [])
  }

  function JoinFields(ts: seq<seq<byte>>): seq<byte> {
    if ts == [] then [] else if |ts| == 1 then ts[0] else ts[0] + ([44] + JoinFields(ts[1..]))
  }

  predicate CommaFree(ts: seq<seq<byte>>) {
    forall i :: 0 <= i < |ts| ==> 44 !in ts[i]
  }

  /** One field and the rest of a body. */
  lemma FieldInFront(t: seq<byte>, body: seq<byte>)
    requires COMMA !in t
    ensures Fields(t + ([COMMA] + body)) == [t] + Fields(body)
    ensures Fields(t) == if t == [] then [] else [t]
  {
    var s := t + ([COMMA] + body);
    FirstIs(t, COMMA, [COMMA] + body);
    assert s[..|t|] == t && s[|t| + 1..] == body;
    FirstIs(t, COMMA, []);
    assert t + [] == t && t[..|t|] == t;
  }

  /** A body without one comma at its end. */
  function WithoutLastComma(body: seq<byte>): seq<byte> {
    if body != [] && body[|body| - 1] == COMMA then body[..|body| - 1] else body
  }

  lemma JoinInFront(t: seq<byte>, ts: seq<seq<byte>>)
    ensures JoinFields([t] + ts) == if ts == [] then t else t + ([COMMA] + JoinFields(ts))
  {
    assert ([t] + ts)[1..] == ts;
  }

  lemma LastCommaBehind(t: seq<byte>, rest: seq<byte>)
    ensures WithoutLastComma(t + ([COMMA] + rest)) == if rest == [] then t else t + ([COMMA] + WithoutLastComma(rest))
  {
    var body := t + ([COMMA] + rest);
    assert body[|body| - 1] == if rest == [] then COMMA else rest[|rest| - 1];
    if rest == [] {
      assert body[..|body| - 1] == t;
    } else {
      assert body[..|body| - 1] == t + ([COMMA] + rest[..|rest| - 1]);
    }
  }

  lemma SplitAt(s: seq<byte>, k: nat, c: byte)
    requires k <= |s| && (k < |s| ==> s[k] == c)
    ensures if k < |s| then s == s[..k] + ([c] + s[k + 1..]) else s == s[..k]
  {
    if k < |s| {
      assert s[k..] == [c] + s[k + 1..];
      assert s == s[..k] + s[k..];
    }
  }

  lemma FieldSlices(s: seq<byte>, p: nat, q: nat, end: nat, next: nat)
    requires p <= q <= end <= |s| && next == if q < end then q + 1 else q
    ensures s[p..end][..q - p] == s[p..q]
    ensures q < end ==> s[p..end][q - p + 1..] == s[next..end]
    ensures q == end ==> s[next..end] == []
  {
    Slices(s, p, q, end);
    if q < end {
      Slices(s, p, next, end);
    }
  }

  lemma FieldsOf(body: seq<byte>, k: nat, t: seq<byte>, rest: seq<byte>)
    requires body != [] && k == First(body, COMMA) && t == body[..k]
    requires rest == if k < |body| then body[k + 1..] else []
    ensures Fields(body) == [t] + Fields(rest) && COMMA !in t
  {
  }

  /** The first field of what is left of a body, and where the next one starts. */
  lemma FieldAt(s: seq<byte>, p: nat, q: nat, end: nat, next: nat)
    requires p < end <= |s| && q == p + First(s[p..end], COMMA)
    requires next == if q < end then q + 1 else q
    ensures Fields(s[p..end]) == [s[p..q]] + Fields(s[next..end])
    ensures COMMA !in s[p..q]
    ensures if q < end then s[p..end] == s[p..q] + ([COMMA] + s[next..end]) else q == end
  {
    FieldSlices(s, p, q, end, next);
    FieldsOf(s[p..end], q - p, s[p..q], s[next..end]);
    SplitAt(s[p..end], q - p, COMMA);
  }

  lemma Slices(s: seq<byte>, p: nat, q: nat, end: nat)
    requires p <= q <= end <= |s|
    ensures s[p..end][..q - p] == s[p..q] && s[p..end][q - p..] == s[q..end]
  {
  }

  /** Joining the fields gives back the body, but for one comma at its end; no field has a comma. */
  lemma {:induction false} JoinOfFields(body: seq<byte>)
    ensures JoinFields(Fields(body)) == WithoutLastComma(body)
    ensures CommaFree(Fields(body))
    ensures body == [] <==> Fields(body) == []
    decreases |body|
  {
    if body == [] {
    } else {
      var t, comma, rest := FirstField(body);
      JoinOfFields(rest);
      JoinOfOne(body, t, comma, rest, Fields(rest));
    }
  }

  /** The first field, and the rest if a comma is behind it. */
  lemma FirstField(body: seq<byte>) returns (t: seq<byte>, comma: bool, rest: seq<byte>)
    requires body != []
    ensures Fields(body) == [t] + Fields(rest) && COMMA !in t && |rest| < |body|
    ensures if comma then body == t + ([COMMA] + rest) else body == t && rest == []
  {
    var q := First(body, COMMA);
    var next := if q < |body| then q + 1 else q;
    t, comma, rest := body[0..q], q < |body|, body[next..|body|];
    assert body[0..|body|] == body;
    FieldAt(body, 0, q, |body|, next);
  }

  lemma JoinOfOne(body: seq<byte>, t: seq<byte>, comma: bool, rest: seq<byte>, fs: seq<seq<byte>>)
    requires body != [] && COMMA !in t && (fs == [] <==> rest == [])
    requires JoinFields(fs) == WithoutLastComma(rest)
    requires if comma then body == t + ([COMMA] + rest) else body == t && rest == []
    ensures JoinFields([t] + fs) == WithoutLastComma(body)
  {
    JoinInFront(t, fs);
    LastCommaBehind(t, rest);
  }

  function WithoutEmptyLast(ts: seq<seq<byte>>): seq<seq<byte>> {
    if ts != [] && ts[|ts| - 1] == [] then ts[..|ts| - 1] else ts
  }

  lemma EmptyLastBehind(ts: seq<seq<byte>>)
    requires |ts| > 1
    ensures WithoutEmptyLast(ts) == [ts[0]] + WithoutEmptyLast(ts[1..])
  {
    assert ts == [ts[0]] + ts[1..];
    assert ts[..|ts| - 1] == [ts[0]] + ts[1..][..|ts| - 2];
  }

  lemma {:induction false} FieldsOfJoin(ts: seq<seq<byte>>)
    requires CommaFree(ts) && ts != []
    ensures Fields(JoinFields(ts)) == WithoutEmptyLast(ts)
  {
    var t, rest := ts[0], ts[1..];
    FieldInFront(t, JoinFields(rest));
    if rest == [] {
      assert ts == [t];
    } else {
      FieldsOfJoin(rest);
      EmptyLastBehind(ts);
    }
  }

  /** The fields of joined fields are those fields, exactly when the last one is not empty; an
      empty last one is lost. */
  lemma FieldsOfJoinExactly(ts: seq<seq<byte>>)
    requires CommaFree(ts) && ts != []
    ensures Fields(JoinFields(ts)) == WithoutEmptyLast(ts)
    ensures Fields(JoinFields(ts)) == ts <==> ts[|ts| - 1] != []
  {
    FieldsOfJoin(ts);
  }

  /** Where the body of a line starts and ends: without '$', line end and checksum. */
  function BodyStart(s: seq<byte>): (p: nat)
    ensures p <= |s|
  {
    if |s| > 0 && s[0] == DOLLAR then 1 else 0
  }

  function LineEnd(s: seq<byte>): (e: nat)
    ensures BodyStart(s) <= e <= |s|
  {
    var p := BodyStart(s);
    if |s| > p && s[|s| - 1] == NEWLINE then
      if |s| - 1 > p && s[|s| - 2] == RETURN then |s| - 2 else |s| - 1
    else |s|
  }

  function BodyEnd(s: seq<byte>): (e: nat)
    ensures BodyStart(s) <= e <= |s|
  {
    var e := LineEnd(s);
    if e >= BodyStart(s) + 3 && s[e - 3] == STAR then e - 3 else e
  }

  function Body(s: seq<byte>): seq<byte> {
    s[BodyStart(s)..BodyEnd(s)]
  }

  /** A sentence as NMEA 0183 writes it. */
  function Sentence(body: seq<byte>, high: byte, low: byte): seq<byte> {
    [36] + body + [42, high, low, 13, 10]
  }

  /** How a line ends. */
  datatype Ending = Open | Lf | CrLf
  {
    function Bytes(): seq<byte> {
      match this
      case Open => []
      case Lf => [10]
      case CrLf => [13, 10]
    }
  }

  datatype Checksum = Unchecked | Checked(high: byte, low: byte)
  {
    function Bytes(): seq<byte> {
      if Unchecked? then [] else [42, high, low]
    }
  }

  /** A line with or without '$', with any content, and with either of the line ends. */
  function Text(dollar: bool, content: seq<byte>, ending: Ending): seq<byte> {
    (if dollar then [36] else []) + content + ending.Bytes()
  }

  lemma TextAt(dollar: bool, content: seq<byte>, ending: Ending)
    ensures var s, at := Text(dollar, content, ending), if dollar then 1 else 0;
            && |s| == at + |content| + |ending.Bytes()|
            && s[at..at + |content|] == content && s[at + |content|..] == ending.Bytes()
            && (dollar ==> s[0] == 36)
  {
  }

  predicate ReturnInFront(content: seq<byte>, ending: Ending) {
    ending.Lf? && content != [] && content[|content| - 1] == 13
  }

  function WithoutChecksum(content: seq<byte>): seq<byte> {
    if |content| >= 3 && content[|content| - 3] == 42 then content[..|content| - 3] else content
  }

  /** Where the content ends: at the line end, or one byte before it if a bare newline has a return
      in front of it. */
  lemma {:induction false} LineEndOf(s: seq<byte>, at: nat, content: seq<byte>, ending: Ending)
    requires at <= 1 && |s| == at + |content| + |ending.Bytes()| && (at == 1 ==> s[0] == 36)
    requires s[at..at + |content|] == content && s[at + |content|..] == ending.Bytes()
    requires NEWLINE !in content && (at == 1 || content == [] || content[0] != 36)
    ensures BodyStart(s) == at
    ensures LineEnd(s) == at + |content| - if ReturnInFront(content, ending) then 1 else 0
  {
    if content == [] {
      EmptyLine(s, at, ending);
    } else {
      var last := |content| - 1;
      assert s[at + last] == s[at..at + |content|][last] == content[last] && content[last] in content;
      assert s[at] == s[at..at + |content|][0] == content[0];
      LineEndIs(s, at, at + |content|, ending);
    }
  }

  lemma EmptyLine(s: seq<byte>, at: nat, ending: Ending)
    requires at <= 1 && |s| == at + |ending.Bytes()| && (at == 1 ==> s[0] == 36)
    requires s[at..] == ending.Bytes()
    ensures BodyStart(s) == at == LineEnd(s)
  {
  }

  lemma LineEndIs(s: seq<byte>, at: nat, e: nat, ending: Ending)
    requires at <= 1 && at < e && e + |ending.Bytes()| == |s| && s[e - 1] != NEWLINE
    requires if at == 1 then s[0] == 36 else s[0] != 36
    requires s[e..] == ending.Bytes()
    ensures BodyStart(s) == at
    ensures LineEnd(s) == e - if ending.Lf? && s[e - 1] == 13 then 1 else 0
  {
    if ending.Lf? {
      assert s[e] == s[e..][0];
    } else if ending.CrLf? {
      assert s[e] == s[e..][0] && s[e + 1] == s[e..][1];
    }
  }

  /** What is left of a line with the given ends of '$' and of the line end. */
  lemma BodyBetween(s: seq<byte>, at: nat, e: nat, content: seq<byte>)
    requires at == BodyStart(s) && e == LineEnd(s) && s[at..e] == content
    ensures Body(s) == WithoutChecksum(content)
  {
    if |content| >= 3 {
      assert s[e - 3] == content[|content| - 3];
      assert s[at..e - 3] == content[..|content| - 3];
    }
  }

  lemma {:induction false} ContentOfText(dollar: bool, content: seq<byte>, ending: Ending)
    requires NEWLINE !in content && (dollar || content == [] || content[0] != 36)
    ensures var left := if ReturnInFront(content, ending) then content[..|content| - 1] else content;
            Body(Text(dollar, content, ending)) == WithoutChecksum(left)
  {
    TextAt(dollar, content, ending);
    ContentOf(Text(dollar, content, ending), if dollar then 1 else 0, content, ending);
  }

  lemma {:induction false} ContentOf(s: seq<byte>, at: nat, content: seq<byte>, ending: Ending)
    requires at <= 1 && |s| == at + |content| + |ending.Bytes()| && (at == 1 ==> s[0] == 36)
    requires s[at..at + |content|] == content && s[at + |content|..] == ending.Bytes()
    requires NEWLINE !in content && (at == 1 || content == [] || content[0] != 36)
    ensures Body(s) ==
            WithoutChecksum(if ReturnInFront(content, ending) then content[..|content| - 1] else content)
  {
    LineEndOf(s, at, content, ending);
    if ReturnInFront(content, ending) {
      assert s[at..at + (|content| - 1)] == content[..|content| - 1];
      BodyBetween(s, at, at + (|content| - 1), content[..|content| - 1]);
    } else {
      BodyBetween(s, at, at + |content|, content);
    }
  }

  lemma WithChecksum(body: seq<byte>, check: Checksum)
    requires check.Checked?
    ensures var content := body + check.Bytes();
            |content| >= 3 && content[|content| - 3] == 42 && content[..|content| - 3] == body
  {
  }

  /** What is taken for the body of a line that does not begin with a second '$' is its body,
      exactly when nothing that looks like a checksum is at the end of an unchecked one, and no
      return is in front of a bare newline. */
  lemma BodyExactly(dollar: bool, body: seq<byte>, check: Checksum, ending: Ending)
    requires NEWLINE !in body + check.Bytes() && (dollar || body == [] || body[0] != 36)
    ensures Body(Text(dollar, body + check.Bytes(), ending)) == body <==>
            && (check.Unchecked? && |body| >= 3 ==> body[|body| - 3] != 42)
            && !ReturnInFront(body + check.Bytes(), ending)
  {
    ContentOfText(dollar, body + check.Bytes(), ending);
    if check.Checked? {
      WithChecksum(body, check);
    } else {
      assert body + check.Bytes() == body;
    }
  }

  /** And from a line without '$' in front a '$' is cut off. */
  lemma DollarIsOptional(content: seq<byte>, ending: Ending)
    ensures Body(Text(false, [36] + content, ending)) == Body(Text(true, content, ending))
  {
    assert Text(false, [36] + content, ending) == Text(true, content, ending);
  }

  lemma BodyOfSentence(body: seq<byte>, high: byte, low: byte)
    ensures Body(Sentence(body, high, low)) == body
  {
    var s := Sentence(body, high, low);
    assert s[|s| - 1] == NEWLINE && s[|s| - 2] == RETURN && s[|s| - 5] == STAR;
  }

  /** NmeaTokenizer: up to 32 pairs of indices into the line. */
  class NmeaTokenizer {
    const tokens: array<(nat, nat)>
    var count: nat

    ghost predicate Over(text: seq<byte>)
      reads this, tokens
    {
      && tokens.Length == MAX_TOKENS && count <= MAX_TOKENS
      && forall i :: 0 <= i < count ==> tokens[i].0 <= tokens[i].1 <= |text|
    }

    constructor ()
      ensures fresh(tokens) && Over([])
    {
      tokens := new (nat, nat)[MAX_TOKENS](_ => (0, 0));
      count := 0;
    }

    /** The tokens are the first 32 of the given fields. */
    ghost predicate Hold(text: seq<byte>, fs: seq<seq<byte>>)
      reads this, tokens
    {
      && Over(text)
      && count == (if |fs| < MAX_TOKENS then |fs| else MAX_TOKENS)
      && forall i :: 0 <= i < count ==> text[tokens[i].0..tokens[i].1] == fs[i]
    }

    /** Fields behind the 32nd are not kept. */
    method Keep(text: seq<byte>, p: nat, q: nat, ghost fs: seq<seq<byte>>)
      requires Hold(text, fs) && p <= q <= |text|
      modifies `count, tokens
      ensures Hold(text, fs + [text[p..q]])
    {
      if count < MAX_TOKENS {
        tokens[count] := (p, q);
        count := count + 1;
      }
    }

    /** The tokens found are the first 32 fields of the body. */
    method Init(text: seq<byte>) returns (found: nat)
      requires tokens.Length == MAX_TOKENS
      modifies `count, tokens
      ensures Hold(text, Fields(Body(text))) && found == count
    {
      var p := BodyStart(text);
      var end := BodyEnd(text);
      ghost var all, front := Fields(Body(text)), [];
      count := 0;
      while p < end
        invariant p <= end <= |text|
        invariant Hold(text, front)
        invariant all == front + Fields(text[p..end])
      {
        var q := p + First(text[p..end], COMMA);
        var next := if q < end then q + 1 else q;
        FieldAt(text, p, q, end, next);
        Join(front, [text[p..q]], Fields(text[next..end]));
        Keep(text, p, q, front);
        front := front + [text[p..q]];
        p := next;
      }
      assert front + [] == front;
      found := count;
    }

    /** Among the first 32 fields each index gives its own; any other index gives the empty token. */
    method Get(text: seq<byte>, index: int, ghost fs: seq<seq<byte>>) returns (tok: seq<byte>)
      requires Hold(text, fs)
      ensures tok == if 0 <= index < |fs| && index < MAX_TOKENS then fs[index] else []
    {
      if index < 0 || index >= count || index >= MAX_TOKENS {
        tok := [];
      } else {
        tok := text[tokens[index].0..tokens[index].1];
      }
    }
  }

  // ------------------------------------------------------------------ both ends

  /** A sentence with its fields. */
  datatype Message = Message(fields: seq<seq<byte>>, high: byte, low: byte) {
    function Text(): seq<byte> {
      Sentence(JoinFields(fields), high, low)
    }

    predicate Sendable() {
      && fields != [] && CommaFree(fields)
      && NEWLINE !in JoinFields(fields) && high != NEWLINE && low != NEWLINE
      && |Text()| <= MAX_LINE
    }
  }

  function Texts(ms: seq<Message>): (xs: seq<seq<byte>>)
    ensures |xs| == |ms| && forall i :: 0 <= i < |ms| ==> xs[i] == ms[i].Text()
  {
    if ms == [] then [] else [ms[0].Text()] + Texts(ms[1..])
  }

  lemma TextIsLine(m: Message)
    requires m.Sendable()
    ensures Line(m.Text())
  {
    var s, j := m.Text(), JoinFields(m.fields);
    assert s[..|s| - 1] == [DOLLAR] + j + [STAR, m.high, m.low, RETURN];
  }

  /** From the fields of any number of sentences through the wire and back: every line parsed has
      the fields that were sent, but for an empty last one. */
  lemma SentencesRoundTrip(ms: seq<Message>, i: nat)
    requires i < |ms| && forall k :: 0 <= k < |ms| ==> ms[k].Sendable()
    ensures var lines := Scan(Concat(Texts(ms))).lines;
            && |lines| == |ms|
            && Fields(Body(lines[i])) == WithoutEmptyLast(ms[i].fields)
  {
    forall k | 0 <= k < |ms| ensures Line(Texts(ms)[k]) {
      TextIsLine(ms[k]);
    }
    SplitConcat(Texts(ms));
    BodyOfSentence(JoinFields(ms[i].fields), ms[i].high, ms[i].low);
    FieldsOfJoinExactly(ms[i].fields);
  }

  /** The same through the reader, whatever pieces the stream arrives in, and the tokenizer with its
      32 tokens: any field of any sentence is read back. */
  method ReadBack(ms: seq<Message>, pieces: seq<seq<byte>>, i: nat, j: int) returns (tok: seq<byte>)
    requires i < |ms| && forall k :: 0 <= k < |ms| ==> ms[k].Sendable()
    requires Concat(pieces) == Concat(Texts(ms))
    ensures tok == if 0 <= j < |WithoutEmptyLast(ms[i].fields)| && j < 32 then ms[i].fields[j] else []
  {
    var lines := ReadLines(pieces);
    SentencesRoundTrip(ms, i);
    var tokenizer := new NmeaTokenizer();
    var found := tokenizer.Init(lines[i]);
    tok := tokenizer.Get(lines[i], j, Fields(Body(lines[i])));
  }

  method ReadLines(pieces: seq<seq<byte>>) returns (lines: seq<seq<byte>>)
    ensures lines == Scan(Concat(pieces)).lines
  {
    var reader := new NmeaReader();
    for n := 0 to |pieces|
      invariant reader.Valid() && fresh(reader) && fresh(reader.buf)
      invariant reader.fed == Concat(pieces[..n])
    {
      ConcatNext(pieces, n);
      reader.AddAll(pieces[n]);
    }
    assert pieces[..|pieces|] == pieces;
    lines := reader.parsed;
  }

  lemma {:induction false} ConcatNext(xs: seq<seq<byte>>, n: nat)
    requires n < |xs|
    ensures Concat(xs[..n + 1]) == Concat(xs[..n]) + xs[n]
  {
    if n == 0 {
      var one: seq<seq<byte>> := [xs[0]];
      assert xs[..1] == one && one[1..] == [];
      assert Concat(one) == xs[0] + Concat(one[1..]);
      assert xs[0] + [] == xs[0] && [] + xs[0] == xs[0];
    } else {
      ConcatNext(xs[1..], n - 1);
      assert xs[..n + 1][1..] == xs[1..][..n] && xs[..n][1..] == xs[1..][..n - 1];
      Join(xs[0], Concat(xs[1..][..n - 1]), xs[n]);
    }
  }
}
