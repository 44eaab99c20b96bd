/** The status lines of an OCSP responder as texts: which lines the automaton of Ocsp.dfy
    reads, what it remembers of them, and that it refuses a response as soon as no such
    line can begin it. */
module OcspStatus {
  import opened Common
  import opened Ocsp

  const DOT: Byte := 46
  const ZERO: Byte := 48
  const PROTOCOL: seq<Byte> := [72, 84, 84, 80, 47]

  /** HTTP/, the two parts of the version, the status with its spaces, what is said about
      it, and the line break. */
  datatype Line = Line(major: seq<Byte>, minor: seq<Byte>, field: seq<Byte>, text: seq<Byte>, eol: seq<Byte>)

  predicate AllDigits(s: seq<Byte>) { forall i :: 0 <= i < |s| ==> IsDigit(s[i]) }

  predicate MajorText(s: seq<Byte>) { s != [] && AllDigits(s) && s[0] != ZERO }

  predicate MinorText(s: seq<Byte>) { s != [] && AllDigits(s) }

  /** Spaces and digits, in any order. */
  predicate FieldText(s: seq<Byte>) { forall i :: 0 <= i < |s| ==> s[i] == SP || IsDigit(s[i]) }

  function Digits(s: seq<Byte>): seq<nat>
  {
    if s == [] then []
    else
      var ch := s[|s| - 1];
      Digits(s[..|s| - 1]) + if IsDigit(ch) then [ch - ZERO] else []
  }

  /** Three digits, the last of them at the end. */
  predicate FieldDone(s: seq<Byte>) { FieldText(s) && |Digits(s)| == 3 && IsDigit(s[|s| - 1]) }

  /** Nothing, or a space or a dot and any text. */
  predicate Reason(s: seq<Byte>) { Text(s) && (s != [] ==> s[0] == SP || s[0] == DOT) }

  predicate Proper(l: Line)
  {
    MajorText(l.major) && MinorText(l.minor) && FieldDone(l.field) && Reason(l.text) && LineBreak(l.eol)
  }

  function Version(l: Line): seq<Byte> { PROTOCOL + l.major + [DOT] + l.minor + [SP] }

  function Spelling(l: Line): seq<Byte> { Version(l) + l.field + l.text + l.eol }

  /** The number that three digits spell. */
  function Code(d: seq<nat>): nat { if |d| == 3 then 100 * d[0] + 10 * d[1] + d[2] else 0 }

  /** What is remembered of a line. */
  function Read(l: Line): Ctx
  {
    INIT.(stage := Headers, code := Code(Digits(l.field)), count := 3, pos := |Spelling(l)|)
  }

  // ---------------------------------------------------------------- reading byte by byte

  function StatusFold(c: Ctx, s: seq<Byte>): Option<Ctx>
    decreases |s|
  {
    if s == [] || c.stage != StatusLine then Some(c)
    else
      match StatusStep(c, s[0])
      case None => None
      case Some(d) => StatusFold(d, s[1..])
  }

  lemma {:induction false} FoldJoin(c: Ctx, a: seq<Byte>, b: seq<Byte>)
    ensures StatusFold(c, a + b) == match StatusFold(c, a) case None => None case Some(d) => StatusFold(d, b)
    decreases |a|
  {
    hide StatusStep;
    if a == [] {
      assert a + b == b;
    } else if c.stage == StatusLine && StatusStep(c, a[0]).Some? {
      assert (a + b)[1..] == a[1..] + b;
      FoldJoin(StatusStep(c, a[0]).value, a[1..], b);
    }
  }

  lemma FoldOne(c: Ctx, ch: Byte)
    ensures StatusFold(c, [ch]) == if c.stage == StatusLine then StatusStep(c, ch) else Some(c)
  {
    hide StatusStep;
    if c.stage == StatusLine && StatusStep(c, ch).Some? {
      assert [ch][1..] == [];
    }
  }

  /** The reading of a response begins with that of its status line. */
  lemma {:induction false} RunFold(c: Ctx, data: seq<Byte>)
    requires c.pos <= |data| && c.stage == StatusLine
    ensures match StatusFold(c, data[c.pos..])
            case None => Run(c, data) == None
            case Some(d) => d.pos <= |data| && Run(c, data) == Run(d, data)
    decreases |data| - c.pos
  {
    hide StatusStep;
    if c.pos < |data| {
      var s := data[c.pos..];
      assert s[0] == data[c.pos] && s[1..] == data[c.pos + 1..];
      if StatusStep(c, s[0]).Some? {
        var d := StatusStep(c, s[0]).value;
        StepAt(c, data);
        if d.stage == StatusLine { RunFold(d, data); } else { FoldStops(d, s[1..]); }
      }
    }
  }

  lemma StepAt(c: Ctx, data: seq<Byte>)
    requires c.pos < |data| && c.stage == StatusLine && StatusStep(c, data[c.pos]).Some?
    ensures StatusStep(c, data[c.pos]).value.pos == c.pos + 1
  {
  }

  lemma FoldStops(c: Ctx, s: seq<Byte>)
    requires c.stage != StatusLine
    ensures StatusFold(c, s) == Some(c)
  {
  }

  // ---------------------------------------------------------------- what has been read

  function Number(d: seq<nat>): nat { if d == [] then 0 else 10 * Number(d[..|d| - 1]) + d[|d| - 1] }

  lemma NumberThree(d: seq<nat>)
    requires |d| == 3
    ensures Number(d) == Code(d)
  {
    var e := d[..2];
    var f := e[..1];
    assert f[..0] == [] && e[1] == d[1] && f[0] == d[0];
    assert Number(f) == 10 * Number(f[..0]) + d[0];
    assert Number(e) == 10 * Number(f) + d[1];
  }

  lemma DigitsPush(s: seq<Byte>, ch: Byte)
    ensures Digits(s + [ch]) == Digits(s) + if IsDigit(ch) then [ch - ZERO] else []
    ensures !IsDigit(ch) ==> Digits(s + [ch]) == Digits(s)
    ensures FieldText(s) && (ch == SP || IsDigit(ch)) ==> FieldText(s + [ch])
    ensures IsDigit(ch) ==> Number(Digits(s + [ch])) == 10 * Number(Digits(s)) + (ch - ZERO)
  {
    assert (s + [ch])[..|s|] == s;
    if IsDigit(ch) {
      var d := Digits(s) + [ch - ZERO];
      assert d[..|d| - 1] == Digits(s);
    }
  }

  /** The text of a line up to a state of the automaton. */
  function TextAt(sw: Sw, l: Line): seq<Byte>
  {
    match sw
    case H => PROTOCOL[..1]
    case HT => PROTOCOL[..2]
    case HTT => PROTOCOL[..3]
    case HTTP => PROTOCOL[..4]
    case FirstMajor => PROTOCOL
    case Major => PROTOCOL + l.major
    case FirstMinor => PROTOCOL + l.major + [DOT]
    case Minor => PROTOCOL + l.major + [DOT] + l.minor
    case Status => Version(l) + l.field
    case SpaceAfterStatus => Version(l) + l.field
    case StatusText => Version(l) + l.field + l.text
    case AlmostDone => Version(l) + l.field + l.text + [CR]
    case _ => []
  }

  predicate FitsAt(sw: Sw, l: Line)
  {
    match sw
    case Start => l.field == []
    case H => l.field == []
    case HT => l.field == []
    case HTT => l.field == []
    case HTTP => l.field == []
    case FirstMajor => l.field == []
    case Major => l.field == [] && MajorText(l.major)
    case FirstMinor => l.field == [] && MajorText(l.major)
    case Minor => l.field == [] && MajorText(l.major) && MinorText(l.minor)
    case Status => MajorText(l.major) && MinorText(l.minor) && FieldText(l.field) && |Digits(l.field)| < 3
    case SpaceAfterStatus => MajorText(l.major) && MinorText(l.minor) && FieldDone(l.field)
    case StatusText =>
      MajorText(l.major) && MinorText(l.minor) && FieldDone(l.field) && Reason(l.text) && l.text != []
    case AlmostDone => MajorText(l.major) && MinorText(l.minor) && FieldDone(l.field) && Reason(l.text)
    case _ => false
  }

  /** c has read s, which begins l. */
  predicate Partial(c: Ctx, s: seq<Byte>, l: Line)
  {
    && c == INIT.(sw := c.sw, code := Number(Digits(l.field)), count := |Digits(l.field)|, pos := |s|)
    && s == TextAt(c.sw, l) && FitsAt(c.sw, l)
  }

  /** c has read a whole line, which is in front of s. */
  predicate Whole(c: Ctx, s: seq<Byte>, l: Line) { Proper(l) && Spelling(l) <= s && c == Read(l) }

  predicate Reads(c: Ctx, s: seq<Byte>, l: Line)
  {
    if c.stage == StatusLine then Partial(c, s, l) else Whole(c, s, l)
  }

  lemma ReadsProtocol(c: Ctx, s: seq<Byte>, l: Line, ch: Byte)
    requires Partial(c, s, l) && StatusStep(c, ch).Some? && c.sw in {Start, H, HT, HTT, HTTP}
    ensures Partial(StatusStep(c, ch).value, s + [ch], l)
  {
    var n := |s|;
    assert PROTOCOL[..n + 1] == PROTOCOL[..n] + [PROTOCOL[n]];
    assert PROTOCOL[..5] == PROTOCOL && PROTOCOL[..0] == [];
  }

  lemma ReadsVersion(c: Ctx, s: seq<Byte>, l: Line, ch: Byte) returns (m: Line)
    requires Partial(c, s, l) && StatusStep(c, ch).Some? && c.sw in {FirstMajor, Major, FirstMinor, Minor}
    ensures Partial(StatusStep(c, ch).value, s + [ch], m)
  {
    m := l;
    if c.sw == FirstMajor {
      m := l.(major := [ch]);
    } else if c.sw == Major && ch != DOT {
      m := l.(major := l.major + [ch]);
      assert s + [ch] == PROTOCOL + (l.major + [ch]);
    } else if c.sw == FirstMinor {
      m := l.(minor := [ch]);
    } else if c.sw == Minor && ch != SP {
      m := l.(minor := l.minor + [ch]);
      assert s + [ch] == PROTOCOL + l.major + [DOT] + (l.minor + [ch]);
    } else if c.sw == Minor {
      assert Version(l) + [] == Version(l);
    }
  }

  lemma ReadsField(c: Ctx, s: seq<Byte>, l: Line, ch: Byte) returns (m: Line)
    requires Partial(c, s, l) && StatusStep(c, ch).Some? && c.sw == Status
    ensures Partial(StatusStep(c, ch).value, s + [ch], m)
  {
    hide Version, MajorText, MinorText, Digits, Number;
    DigitsPush(l.field, ch);
    m := l.(field := l.field + [ch]);
    SameVersion(l, m);
    assert s + [ch] == Version(m) + m.field && m.field[|m.field| - 1] == ch;
  }

  lemma SameVersion(l: Line, m: Line)
    requires l.major == m.major && l.minor == m.minor
    ensures Version(l) == Version(m)
  {
  }

  lemma ReadsReason(c: Ctx, s: seq<Byte>, l: Line, ch: Byte) returns (m: Line)
    requires Partial(c, s, l) && StatusStep(c, ch).Some? && c.sw in {SpaceAfterStatus, StatusText, AlmostDone}
    ensures Reads(StatusStep(c, ch).value, s + [ch], m)
  {
    hide MajorText, MinorText, FieldDone, Digits, Version;
    DoneThree(l.field);
    NumberThree(Digits(l.field));
    var text := if c.sw == SpaceAfterStatus then [] else l.text;
    m := l.(text := text);
    SameVersion(l, m);
    assert Version(l) + l.field + [] == Version(l) + l.field;
    assert s == Version(l) + l.field + text + if c.sw == AlmostDone then [CR] else [];
    if c.sw == AlmostDone {
      m := m.(eol := [CR, LF]);
      SameVersion(l, m);
      assert s + [LF] == Spelling(m);
    } else if ch == LF {
      m := m.(eol := [LF]);
      SameVersion(l, m);
      assert s + [LF] == Spelling(m);
    } else if ch != CR {
      m := m.(text := text + [ch]);
      SameVersion(l, m);
      assert s + [ch] == Version(m) + m.field + m.text;
    }
  }

  lemma DoneThree(s: seq<Byte>)
    requires FieldDone(s)
    ensures |Digits(s)| == 3
  {
  }

  lemma StepReads(c: Ctx, s: seq<Byte>, l: Line, ch: Byte) returns (m: Line)
    requires Partial(c, s, l) && StatusStep(c, ch).Some?
    ensures Reads(StatusStep(c, ch).value, s + [ch], m)
  {
    m := l;
    if c.sw in {Start, H, HT, HTT, HTTP} {
      ReadsProtocol(c, s, l, ch);
    } else if c.sw in {FirstMajor, Major, FirstMinor, Minor} {
      m := ReadsVersion(c, s, l, ch);
    } else if c.sw == Status {
      m := ReadsField(c, s, l, ch);
    } else {
      m := ReadsReason(c, s, l, ch);
    }
  }

  /** Whatever has been read without being refused begins a line, or begins with one. */
  lemma {:induction false} FoldReads(s: seq<Byte>) returns (l: Line)
    ensures StatusFold(INIT, s).Some? ==> Reads(StatusFold(INIT, s).value, s, l)
    decreases |s|
  {
    hide StatusStep, Partial, Whole;
    if s == [] {
      l := Line([], [], [], [], []);
      FoldNothing(l);
    } else {
      var n := |s| - 1;
      var front, ch := s[..n], s[n];
      assert s == front + [ch];
      l := FoldReads(front);
      FoldJoin(INIT, front, [ch]);
      if StatusFold(INIT, front).Some? {
        var c := StatusFold(INIT, front).value;
        FoldOne(c, ch);
        if c.stage != StatusLine {
          WholeMore(c, front, s, l);
        } else if StatusStep(c, ch).Some? {
          l := StepReads(c, front, l, ch);
        }
      }
    }
  }

  lemma FoldNothing(l: Line)
    requires l == Line([], [], [], [], [])
    ensures StatusFold(INIT, []) == Some(INIT) && Partial(INIT, [], l)
  {
  }

  lemma WholeMore(c: Ctx, front: seq<Byte>, s: seq<Byte>, l: Line)
    requires Whole(c, front, l) && front <= s
    ensures Whole(c, s, l)
  {
  }

  // ---------------------------------------------------------------- every line is read

  lemma {:induction false} FoldDigits(c: Ctx, s: seq<Byte>)
    requires c.stage == StatusLine && c.sw in {Major, Minor} && AllDigits(s)
    ensures StatusFold(c, s) == Some(c.(pos := c.pos + |s|))
    decreases |s|
  {
    if s != [] { FoldDigits(c.(pos := c.pos + 1), s[1..]); }
  }

  lemma {:induction false} FoldText(c: Ctx, s: seq<Byte>)
    requires c.stage == StatusLine && c.sw == StatusText && Text(s)
    ensures StatusFold(c, s) == Some(c.(pos := c.pos + |s|))
    decreases |s|
  {
    if s != [] { FoldText(c.(pos := c.pos + 1), s[1..]); }
  }

  lemma {:induction false} FoldField(c: Ctx, s: seq<Byte>)
    requires c.stage == StatusLine && c.sw == Status && c.code == c.count == 0 && FieldText(s)
    requires |Digits(s)| < 3 || FieldDone(s)
    ensures StatusFold(c, s) == Some(c.(code := Number(Digits(s)), count := |Digits(s)|, pos := c.pos + |s|,
                                        sw := if |Digits(s)| < 3 then Status else SpaceAfterStatus))
    decreases |s|
  {
    hide StatusFold, Number;
    if s == [] {
      FoldEmpty(c);
    } else {
      var n := |s| - 1;
      assert s == s[..n] + [s[n]];
      DigitsPush(s[..n], s[n]);
      FoldField(c, s[..n]);
      FoldJoin(c, s[..n], [s[n]]);
      FoldOne(StatusFold(c, s[..n]).value, s[n]);
    }
  }

  lemma FoldEmpty(c: Ctx)
    ensures StatusFold(c, []) == Some(c) && Number([]) == 0
  {
  }

  lemma FoldProtocol()
    ensures StatusFold(INIT, PROTOCOL) == Some(INIT.(sw := FirstMajor, pos := 5))
  {
    hide StatusFold;
    var p := PROTOCOL;
    assert p == [p[0]] + ([p[1]] + ([p[2]] + ([p[3]] + [p[4]])));
    FoldJoin(INIT, [p[0]], [p[1]] + ([p[2]] + ([p[3]] + [p[4]])));
    FoldOne(INIT, p[0]);
    var a := INIT.(sw := H, pos := 1);
    FoldJoin(a, [p[1]], [p[2]] + ([p[3]] + [p[4]]));
    FoldOne(a, p[1]);
    var b := INIT.(sw := HT, pos := 2);
    FoldJoin(b, [p[2]], [p[3]] + [p[4]]);
    FoldOne(b, p[2]);
    var d := INIT.(sw := HTT, pos := 3);
    FoldJoin(d, [p[3]], [p[4]]);
    FoldOne(d, p[3]);
    FoldOne(INIT.(sw := HTTP, pos := 4), p[4]);
  }

  /** A first digit and the others. */
  lemma FoldNumber(c: Ctx, s: seq<Byte>)
    requires c.stage == StatusLine && if c.sw == FirstMajor then MajorText(s) else c.sw == FirstMinor && MinorText(s)
    ensures StatusFold(c, s) == Some(c.(sw := if c.sw == FirstMajor then Major else Minor, pos := c.pos + |s|))
  {
    assert IsDigit(s[0]);
    FoldDigits(c.(sw := if c.sw == FirstMajor then Major else Minor, pos := c.pos + 1), s[1..]);
  }

  lemma FoldVersion(l: Line)
    requires MajorText(l.major) && MinorText(l.minor)
    ensures StatusFold(INIT, Version(l)) == Some(INIT.(sw := Status, pos := |Version(l)|))
  {
    hide StatusFold, MajorText, MinorText;
    FoldProtocol();
    var a, b := PROTOCOL + l.major, PROTOCOL + l.major + [DOT];
    var c := INIT.(sw := FirstMajor, pos := 5);
    FoldJoin(INIT, PROTOCOL, l.major);
    FoldNumber(c, l.major);
    FoldJoin(INIT, a, [DOT]);
    FoldOne(c.(sw := Major, pos := |a|), DOT);
    FoldJoin(INIT, b, l.minor);
    FoldNumber(c.(sw := FirstMinor, pos := |b|), l.minor);
    FoldJoin(INIT, b + l.minor, [SP]);
    FoldOne(c.(sw := Minor, pos := |b + l.minor|), SP);
  }

  lemma FoldReason(c: Ctx, s: seq<Byte>)
    requires c.stage == StatusLine && c.sw == SpaceAfterStatus && Reason(s)
    ensures StatusFold(c, s) == Some(c.(sw := if s == [] then SpaceAfterStatus else StatusText, pos := c.pos + |s|))
  {
    if s != [] { FoldText(c.(sw := StatusText, pos := c.pos + 1), s[1..]); }
  }

  lemma FoldBreak(c: Ctx, e: seq<Byte>)
    requires c.stage == StatusLine && c.sw in {SpaceAfterStatus, StatusText} && LineBreak(e)
    ensures StatusFold(c, e) == Some(c.(stage := Headers, sw := Start, pos := c.pos + |e|))
  {
    hide StatusFold;
    if e == [LF] {
      FoldOne(c, LF);
    } else {
      assert e == [CR] + [LF];
      FoldJoin(c, [CR], [LF]);
      FoldOne(c, CR);
      FoldOne(c.(sw := AlmostDone, pos := c.pos + 1), LF);
    }
  }

  lemma FoldLine(l: Line)
    requires Proper(l)
    ensures StatusFold(INIT, Spelling(l)) == Some(Read(l))
  {
    hide StatusFold, Version, Reason, LineBreak, FieldText, Digits, Number, MajorText, MinorText;
    FoldVersion(l);
    var v := Version(l);
    var c := INIT.(sw := Status, pos := |v|);
    FoldJoin(INIT, v, l.field);
    FoldField(c, l.field);
    NumberThree(Digits(l.field));
    var d := c.(sw := SpaceAfterStatus, code := Read(l).code, count := 3, pos := |v + l.field|);
    FoldJoin(INIT, v + l.field, l.text);
    FoldReason(d, l.text);
    FoldJoin(INIT, v + l.field + l.text, l.eol);
    FoldBreak(d.(sw := if l.text == [] then SpaceAfterStatus else StatusText, pos := |v + l.field + l.text|), l.eol);
  }

  /** A response that begins with a status line is read past it, with its code. */
  lemma ReadsStatusLine(l: Line, rest: seq<Byte>)
    requires Proper(l)
    ensures Run(INIT, Spelling(l) + rest) == Run(Read(l), Spelling(l) + rest)
  {
    hide StatusFold, Proper, Spelling, Run;
    var data := Spelling(l) + rest;
    FoldLine(l);
    FoldJoin(INIT, Spelling(l), rest);
    FoldStops(Read(l), rest);
    assert data[0..] == data;
    RunFold(INIT, data);
  }

  // ---------------------------------------------------------------- and nothing else is

  function Zeros(n: nat): seq<Byte> { if n == 0 then [] else Zeros(n - 1) + [ZERO] }

  lemma {:induction false} ZerosDone(s: seq<Byte>, n: nat)
    requires FieldText(s) && |Digits(s)| + n == 3 && n > 0
    ensures FieldDone(s + Zeros(n))
  {
    ZerosDigits(s, n);
  }

  lemma {:induction false} ZerosDigits(s: seq<Byte>, n: nat)
    requires FieldText(s)
    ensures FieldText(s + Zeros(n)) && |Digits(s + Zeros(n))| == |Digits(s)| + n
    ensures n > 0 ==> IsDigit((s + Zeros(n))[|s + Zeros(n)| - 1])
  {
    hide Digits;
    if n == 0 {
      assert s + [] == s;
    } else {
      ZerosDigits(s, n - 1);
      assert s + Zeros(n) == (s + Zeros(n - 1)) + [ZERO];
      DigitsPush(s + Zeros(n - 1), ZERO);
    }
  }

  /** One way to end a line that has been read as far as sw says. */
  function Completed(sw: Sw, l: Line): Line
  {
    var early := sw in {Start, H, HT, HTT, HTTP, FirstMajor};
    Line(if early then [ZERO + 1] else l.major,
         if early || sw in {Major, FirstMinor} then [ZERO] else l.minor,
         if sw in {Start, H, HT, HTT, HTTP, FirstMajor, Major, FirstMinor, Minor} then Zeros(3)
         else if sw == Status then l.field + Zeros(if |Digits(l.field)| < 3 then 3 - |Digits(l.field)| else 0)
         else l.field,
         if sw in {StatusText, AlmostDone} then l.text else [],
         if sw == AlmostDone then [CR, LF] else [LF])
  }

  lemma CompletedProper(sw: Sw, l: Line)
    requires FitsAt(sw, l)
    ensures Proper(Completed(sw, l))
  {
    hide Digits, Zeros, FieldDone, MajorText, MinorText, FieldText, Reason;
    Fillers();
    ZerosDone([], 3);
    assert [] + Zeros(3) == Zeros(3);
    if sw == Status { ZerosDone(l.field, 3 - |Digits(l.field)|); }
  }

  lemma Fillers()
    ensures FieldText([]) && Digits([]) == [] && MajorText([ZERO + 1]) && MinorText([ZERO]) && Reason([])
  {
  }

  lemma CompletedBegins(sw: Sw, l: Line)
    requires FitsAt(sw, l)
    ensures TextAt(sw, l) <= Spelling(Completed(sw, l))
  {
    hide Digits, Zeros, FieldDone, MajorText, MinorText, Reason;
    var m := Completed(sw, l);
    var t := m.field + (m.text + m.eol);
    assert Spelling(m) == Version(m) + t;
    assert Version(m) == PROTOCOL + (m.major + ([DOT] + (m.minor + [SP])));
    assert PROTOCOL <= Spelling(m) && PROTOCOL + m.major <= Spelling(m);
    assert PROTOCOL + m.major + [DOT] <= Spelling(m) && PROTOCOL + m.major + [DOT] + m.minor <= Spelling(m);
    if sw == Status {
      SameVersion(l, m);
      assert Version(l) + l.field <= Version(l) + m.field;
    } else if sw in {SpaceAfterStatus, StatusText, AlmostDone} {
      SameVersion(l, m);
      assert Spelling(m) == Version(l) + l.field + m.text + m.eol;
      assert sw == AlmostDone ==> Spelling(m) == TextAt(sw, l) + [LF];
    }
  }

  /** A line begins the response, or the response a line. */
  ghost predicate Promising(data: seq<Byte>)
  {
    exists l :: Proper(l) && (Spelling(l) <= data || data <= Spelling(l))
  }

  /** A response is refused within its status line exactly when no line begins it and it
      begins no line. */
  lemma StatusRefusedIff(data: seq<Byte>)
    ensures StatusFold(INIT, data).None? <==> !Promising(data)
    ensures !Promising(data) ==> Run(INIT, data).None?
  {
    hide StatusFold, Proper, Spelling, TextAt, FitsAt, Completed;
    assert data[0..] == data;
    RunFold(INIT, data);
    var l := FoldReads(data);
    if StatusFold(INIT, data).Some? {
      var c := StatusFold(INIT, data).value;
      if c.stage == StatusLine {
        CompletedProper(c.sw, l);
        CompletedBegins(c.sw, l);
        l := Completed(c.sw, l);
      }
      assert Proper(l) && (Spelling(l) <= data || data <= Spelling(l));
    }
    if Promising(data) {
      var m :| Proper(m) && (Spelling(m) <= data || data <= Spelling(m));
      FoldLine(m);
      if Spelling(m) <= data {
        assert data == Spelling(m) + data[|Spelling(m)|..];
        FoldJoin(INIT, Spelling(m), data[|Spelling(m)|..]);
        FoldStops(Read(m), data[|Spelling(m)|..]);
      } else {
        assert Spelling(m) == data + Spelling(m)[|data|..];
        FoldJoin(INIT, data, Spelling(m)[|data|..]);
      }
    }
  }
}
