/** The HTTP response of an OCSP responder in ngx_event_openssl_stapling.c: two byte
    automata that can be interrupted between any two bytes and resumed, and the
    dispatch from the status line to the headers to the body. */
module Ocsp {
  import opened Common

  const CR := 13
  const LF := 10
  const SP := 32

  datatype Stage = StatusLine | Headers | Body

  /** The values of ctx->state; the two automata share the first. */
  datatype Sw =
    | Start
    | H | HT | HTT | HTTP | FirstMajor | Major | FirstMinor | Minor | Status | SpaceAfterStatus | StatusText
    | Name | SpaceBeforeValue | Value | SpaceAfterValue | HeaderAlmostDone
    | AlmostDone

  datatype Rc = Ok | Done | Again | Error

  /** What ngx_ssl_ocsp_ctx_t remembers between two calls; pos is response->pos. */
  datatype Ctx = Ctx(stage: Stage, sw: Sw, code: nat, count: nat, nameStart: nat, nameEnd: nat, start: nat, end: nat,
                     pos: nat)

  const INIT := Ctx(StatusLine, Start, 0, 0, 0, 0, 0, 0, 0)

  // ---------------------------------------------------------------- bytes

  function Ascii(c: char): Byte
    requires c as int < 256
  {
    c as int
  }

  predicate IsDigit(ch: Byte) { Ascii('0') <= ch <= Ascii('9') }

  /** ch | 0x20 */
  function Lower(ch: Byte): Byte { if ch / 32 % 2 == 0 then ch + 32 else ch }

  predicate IsLetter(ch: Byte) { Ascii('a') <= Lower(ch) <= Ascii('z') }

  predicate IsName(ch: Byte) { IsLetter(ch) || IsDigit(ch) || ch == Ascii('-') }

  /** ngx_strncasecmp folds only the letters A to Z. */
  function Fold(ch: Byte): Byte { if Ascii('A') <= ch <= Ascii('Z') then ch + 32 else ch }

  predicate SameText(s: seq<Byte>, t: string)
    requires forall i :: 0 <= i < |t| ==> t[i] as int < 256
  {
    |s| == |t| && forall i :: 0 <= i < |t| ==> Fold(s[i]) == Fold(Ascii(t[i]))
  }

  // ---------------------------------------------------------------- the automata

  /** One byte of the status line; None is an invalid response. */
  function StatusStep(c: Ctx, ch: Byte): Option<Ctx>
  {
    var d := c.(pos := c.pos + 1);
    match c.sw
    case Start => if ch == Ascii('H') then Some(d.(sw := H)) else None
    case H => if ch == Ascii('T') then Some(d.(sw := HT)) else None
    case HT => if ch == Ascii('T') then Some(d.(sw := HTT)) else None
    case HTT => if ch == Ascii('P') then Some(d.(sw := HTTP)) else None
    case HTTP => if ch == Ascii('/') then Some(d.(sw := FirstMajor)) else None
    case FirstMajor => if Ascii('1') <= ch <= Ascii('9') then Some(d.(sw := Major)) else None
    case Major => if ch == Ascii('.') then Some(d.(sw := FirstMinor)) else if IsDigit(ch) then Some(d) else None
    case FirstMinor => if IsDigit(ch) then Some(d.(sw := Minor)) else None
    case Minor => if ch == SP then Some(d.(sw := Status)) else if IsDigit(ch) then Some(d) else None
    case Status =>
      if ch == SP then Some(d)
      else if !IsDigit(ch) then None
      else Some(d.(code := c.code * 10 + ch - Ascii('0'), count := c.count + 1,
                   sw := if c.count + 1 == 3 then SpaceAfterStatus else Status))
    case SpaceAfterStatus =>
      if ch == SP || ch == Ascii('.') then Some(d.(sw := StatusText))
      else if ch == CR then Some(d.(sw := AlmostDone))
      else if ch == LF then Some(d.(sw := Start, stage := Headers))
      else None
    case StatusText =>
      if ch == CR then Some(d.(sw := AlmostDone))
      else if ch == LF then Some(d.(sw := Start, stage := Headers))
      else Some(d)
    case AlmostDone => if ch == LF then Some(d.(sw := Start, stage := Headers)) else None
    case _ => Some(d)
  }

  /** What a byte of the headers does. */
  datatype Effect = Bad | More(ctx: Ctx) | LineEnd(ctx: Ctx) | HeadEnd(ctx: Ctx)

  function HeaderStep(c: Ctx, ch: Byte): Effect
  {
    var p := c.pos;
    var d := c.(pos := p + 1);
    match c.sw
    case Start =>
      if ch == CR then More(d.(end := p, sw := HeaderAlmostDone))
      else if ch == LF then HeadEnd(d.(end := p, sw := Start))
      else if IsLetter(ch) || IsDigit(ch) then More(d.(nameStart := p, sw := Name))
      else Bad
    case Name =>
      if IsLetter(ch) then More(d)
      else if ch == Ascii(':') then More(d.(nameEnd := p, sw := SpaceBeforeValue))
      else if ch == Ascii('-') || IsDigit(ch) then More(d)
      else if ch == CR then More(d.(nameEnd := p, start := p, end := p, sw := AlmostDone))
      else if ch == LF then LineEnd(d.(nameEnd := p, start := p, end := p, sw := Start))
      else Bad
    case SpaceBeforeValue =>
      if ch == SP then More(d)
      else if ch == CR then More(d.(start := p, end := p, sw := AlmostDone))
      else if ch == LF then LineEnd(d.(start := p, end := p, sw := Start))
      else More(d.(start := p, sw := Value))
    case Value =>
      if ch == SP then More(d.(end := p, sw := SpaceAfterValue))
      else if ch == CR then More(d.(end := p, sw := AlmostDone))
      else if ch == LF then LineEnd(d.(end := p, sw := Start))
      else More(d)
    case SpaceAfterValue =>
      if ch == SP then More(d)
      else if ch == CR then More(d.(sw := AlmostDone))
      else if ch == LF then LineEnd(d.(sw := Start))
      else More(d.(sw := Value))
    case AlmostDone => if ch == LF then LineEnd(d.(sw := Start)) else Bad
    case HeaderAlmostDone => if ch == LF then HeadEnd(d.(sw := Start)) else Bad
    case _ => More(d)
  }

  /** A part of the received bytes; pointers of a sound context are always in order. */
  function Slice(data: seq<Byte>, from: nat, to: nat): seq<Byte>
  {
    if from <= to <= |data| then data[from..to] else []
  }

  /** The header just read has another content type than an OCSP response. */
  predicate WrongType(c: Ctx, data: seq<Byte>)
  {
    && SameText(Slice(data, c.nameStart, c.nameEnd), "Content-Type")
    && !SameText(Slice(data, c.start, c.end), "application/ocsp-response")
  }

  function Step(c: Ctx, data: seq<Byte>): Option<Ctx>
    requires c.pos < |data|
    ensures Step(c, data).Some? ==> Step(c, data).value.pos == c.pos + (if c.stage == Body then 0 else 1)
  {
    match c.stage
    case StatusLine => StatusStep(c, data[c.pos])
    case Headers =>
      (match HeaderStep(c, data[c.pos])
       case Bad => None
       case More(d) => Some(d)
       case LineEnd(d) => if WrongType(d, data) then None else Some(d)
       case HeadEnd(d) => Some(d.(stage := Body)))
    case Body => Some(c)
  }

  /** All the bytes there are, up to the body. */
  function Run(c: Ctx, data: seq<Byte>): Option<Ctx>
    requires c.pos <= |data|
    ensures Run(c, data).Some? ==> c.pos <= Run(c, data).value.pos <= |data|
    decreases |data| - c.pos
  {
    if c.pos == |data| || c.stage == Body then Some(c)
    else
      match Step(c, data)
      case None => None
      case Some(d) => Run(d, data)
  }

  // ---------------------------------------------------------------- what a context knows

  predicate Spaces(s: seq<Byte>) { forall i :: 0 <= i < |s| ==> s[i] == SP }

  /** No space at either end. */
  predicate Trimmed(s: seq<Byte>) { s == [] || (s[0] != SP && s[|s| - 1] != SP) }

  predicate NameText(s: seq<Byte>) { s != [] && forall i :: 0 <= i < |s| ==> IsName(s[i]) }

  /** The pointers as far as the state of the automaton makes them meaningful. */
  predicate Sound(c: Ctx, data: seq<Byte>)
  {
    && c.pos <= |data|
    && c.code < 1000 && c.count <= 3
    && (c.stage == StatusLine ==>
          && c.sw !in {Name, SpaceBeforeValue, Value, SpaceAfterValue, HeaderAlmostDone}
          && (c.sw in {Start, H, HT, HTT, HTTP, FirstMajor, Major, FirstMinor, Minor} ==> c.count == 0 && c.code == 0)
          && (c.sw == Status ==>
                && c.count < 3 && (c.count == 0 ==> c.code == 0)
                && (c.count == 1 ==> c.code < 10) && (c.count == 2 ==> c.code < 100)))
    && (c.stage == Headers ==>
          && c.sw in {Start, Name, SpaceBeforeValue, Value, SpaceAfterValue, HeaderAlmostDone, AlmostDone}
          && (c.sw == Name ==> c.nameStart < c.pos && NameText(data[c.nameStart..c.pos]))
          && (c.sw in {SpaceBeforeValue, Value, SpaceAfterValue, AlmostDone} ==>
                c.nameStart < c.nameEnd <= c.pos && NameText(data[c.nameStart..c.nameEnd]))
          && (c.sw == Value ==> c.nameEnd <= c.start < c.pos && data[c.start] != SP && data[c.pos - 1] != SP)
          && (c.sw == SpaceAfterValue ==>
                c.nameEnd <= c.start < c.end < c.pos && Trimmed(data[c.start..c.end]) && Spaces(data[c.end..c.pos]))
          && (c.sw == AlmostDone ==> c.nameEnd <= c.start <= c.end <= c.pos && Trimmed(data[c.start..c.end])))
  }

  /** A completed header line: its name and value. */
  predicate GoodLine(c: Ctx, data: seq<Byte>)
  {
    && c.nameStart < c.nameEnd <= c.start <= c.end <= c.pos <= |data|
    && NameText(data[c.nameStart..c.nameEnd]) && Trimmed(data[c.start..c.end])
  }

  lemma StatusSound(c: Ctx, data: seq<Byte>)
    requires Sound(c, data) && c.pos < |data| && c.stage == StatusLine && StatusStep(c, data[c.pos]).Some?
    ensures Sound(StatusStep(c, data[c.pos]).value, data)
  {
  }

  ghost predicate GoodEffect(e: Effect, data: seq<Byte>)
  {
    match e
    case Bad => true
    case More(d) => Sound(d, data)
    case LineEnd(d) => Sound(d, data) && GoodLine(d, data)
    case HeadEnd(d) => Sound(d.(stage := Body), data)
  }

  lemma NameSound(c: Ctx, data: seq<Byte>)
    requires Sound(c, data) && c.pos < |data| && c.stage == Headers && c.sw in {Start, Name, HeaderAlmostDone}
    ensures GoodEffect(HeaderStep(c, data[c.pos]), data)
  {
    hide IsLetter, IsDigit, Trimmed, Spaces;
    if c.sw == Name { NameGrows(data, c.nameStart, c.pos); }
    assert data[c.pos..c.pos + 1] == [data[c.pos]];
    assert data[c.pos..c.pos] == [] && Trimmed([]) by { EmptyTrimmed(); }
  }

  lemma EmptyTrimmed()
    ensures Trimmed([])
  {
  }

  lemma BeforeValueSound(c: Ctx, data: seq<Byte>)
    requires Sound(c, data) && c.pos < |data| && c.stage == Headers && c.sw == SpaceBeforeValue
    ensures GoodEffect(HeaderStep(c, data[c.pos]), data)
  {
    hide NameText, Spaces;
    assert data[c.pos..c.pos] == [];
  }

  lemma ValueSound(c: Ctx, data: seq<Byte>)
    requires Sound(c, data) && c.pos < |data| && c.stage == Headers && c.sw == Value
    ensures GoodEffect(HeaderStep(c, data[c.pos]), data)
  {
    hide NameText;
    var v := data[c.start..c.pos];
    assert v[0] == data[c.start] && v[|v| - 1] == data[c.pos - 1] && Trimmed(v);
    assert data[c.pos..c.pos + 1] == [data[c.pos]];
  }

  lemma AfterValueSound(c: Ctx, data: seq<Byte>)
    requires Sound(c, data) && c.pos < |data| && c.stage == Headers && c.sw in {SpaceAfterValue, AlmostDone}
    ensures GoodEffect(HeaderStep(c, data[c.pos]), data)
  {
    hide NameText;
    var p := c.pos;
    assert c.sw == SpaceAfterValue ==> data[c.end..p + 1] == data[c.end..p] + [data[p]];
    assert c.sw == SpaceAfterValue ==> data[c.start] == data[c.start..c.end][0];
  }

  /** A byte of the headers keeps the pointers in order; a completed line has a name of
      letters, digits and dashes and a value without space at either end. */
  lemma HeaderSound(c: Ctx, data: seq<Byte>)
    requires Sound(c, data) && c.pos < |data| && c.stage == Headers
    ensures GoodEffect(HeaderStep(c, data[c.pos]), data)
  {
    hide GoodEffect, HeaderStep;
    if c.sw == SpaceBeforeValue {
      BeforeValueSound(c, data);
    } else if c.sw == Value {
      ValueSound(c, data);
    } else if c.sw == SpaceAfterValue || c.sw == AlmostDone {
      AfterValueSound(c, data);
    } else {
      NameSound(c, data);
    }
  }

  lemma NameGrows(data: seq<Byte>, s: nat, p: nat)
    requires s < p < |data| && NameText(data[s..p])
    ensures IsName(data[p]) ==> NameText(data[s..p + 1])
  {
    assert data[s..p + 1] == data[s..p] + [data[p]];
  }

  lemma StepSound(c: Ctx, data: seq<Byte>)
    requires Sound(c, data) && c.pos < |data| && Step(c, data).Some?
    ensures Sound(Step(c, data).value, data)
  {
    hide StatusStep, HeaderStep, Sound, WrongType;
    match c.stage
    case StatusLine => StatusSound(c, data);
    case Headers => HeaderSound(c, data);
    case Body =>
  }

  // ---------------------------------------------------------------- interruption

  /** A step sees nothing behind the byte it takes. */
  lemma StepPrefix(c: Ctx, data: seq<Byte>, m: nat)
    requires c.pos < m <= |data| && Sound(c, data)
    ensures Step(c, data[..m]) == Step(c, data)
  {
    hide StatusStep, HeaderStep, Sound, SameText, GoodLine;
    assert data[..m][c.pos] == data[c.pos];
    if c.stage == Headers {
      HeaderSound(c, data);
      match HeaderStep(c, data[c.pos])
      case LineEnd(d) =>
        LineInside(c, d, data, m);
      case _ =>
    }
  }

  lemma LineInside(c: Ctx, d: Ctx, data: seq<Byte>, m: nat)
    requires c.pos < m <= |data| && c.stage == Headers && HeaderStep(c, data[c.pos]) == LineEnd(d) && GoodLine(d, data)
    ensures Slice(data[..m], d.nameStart, d.nameEnd) == Slice(data, d.nameStart, d.nameEnd)
    ensures Slice(data[..m], d.start, d.end) == Slice(data, d.start, d.end)
  {
    assert d.pos == c.pos + 1;
  }

  /** Stopping after the first m bytes and going on later is the same as not stopping. */
  lemma {:induction false} RunSplit(c: Ctx, data: seq<Byte>, m: nat)
    requires c.pos <= m <= |data| && Sound(c, data)
    ensures match Run(c, data[..m])
            case None => Run(c, data) == None
            case Some(d) => Sound(d, data) && d.pos <= |data| && Run(d, data) == Run(c, data)
    decreases m - c.pos
  {
    hide Step, Sound;
    if c.pos < m && c.stage != Body {
      StepPrefix(c, data, m);
      if Step(c, data).Some? {
        StepSound(c, data);
        RunSplit(Step(c, data).value, data, m);
      }
    }
  }

  function Concat(chunks: seq<seq<Byte>>): seq<Byte>
  {
    if chunks == [] then [] else Concat(chunks[..|chunks| - 1]) + chunks[|chunks| - 1]
  }

  /** The context after feeding the chunks one by one. */
  function Feed(chunks: seq<seq<Byte>>): (c: Option<Ctx>)
    ensures c.Some? ==> c.value.pos <= |Concat(chunks)|
  {
    if chunks == [] then Some(INIT)
    else
      match Feed(chunks[..|chunks| - 1])
      case None => None
      case Some(c) => Run(c, Concat(chunks))
  }

  /** Any split of a response into reads gives the outcome of reading it at once. */
  lemma {:induction false} FeedAny(chunks: seq<seq<Byte>>)
    ensures Feed(chunks) == Run(INIT, Concat(chunks))
    ensures Feed(chunks).Some? ==> Sound(Feed(chunks).value, Concat(chunks))
  {
    hide Step, Sound;
    InitSound(Concat(chunks));
    if chunks != [] {
      var front := chunks[..|chunks| - 1];
      FeedAny(front);
      var data := Concat(chunks);
      assert data[..|Concat(front)|] == Concat(front);
      RunSplit(INIT, data, |Concat(front)|);
    }
    RunSound(INIT, Concat(chunks));
  }

  lemma InitSound(data: seq<Byte>)
    ensures Sound(INIT, data)
  {
  }

  lemma {:induction false} RunSound(c: Ctx, data: seq<Byte>)
    requires c.pos <= |data| && Sound(c, data)
    ensures Run(c, data).Some? ==> Sound(Run(c, data).value, data)
    decreases |data| - c.pos
  {
    hide Step, Sound;
    if c.pos < |data| && c.stage != Body && Step(c, data).Some? {
      StepSound(c, data);
      RunSound(Step(c, data).value, data);
    }
  }

  // ---------------------------------------------------------------- lines as texts

  predicate At(data: seq<Byte>, b: nat, s: seq<Byte>) { b + |s| <= |data| && data[b..b + |s|] == s }

  lemma AtParts(data: seq<Byte>, b: nat, s: seq<Byte>, u: seq<Byte>)
    requires At(data, b, s + u)
    ensures At(data, b, s) && At(data, b + |s|, u)
  {
    var w := data[b..b + |s + u|];
    assert data[b..b + |s|] == w[..|s|] == s && data[b + |s|..b + |s| + |u|] == w[|s|..] == u;
  }

  lemma {:induction false} NamePhase(c: Ctx, data: seq<Byte>, s: seq<Byte>)
    requires c.stage == Headers && c.sw == Name && At(data, c.pos, s) && forall i :: 0 <= i < |s| ==> IsName(s[i])
    ensures Run(c, data) == Run(c.(pos := c.pos + |s|), data)
    decreases |s|
  {
    hide Run;
    if s != [] {
      AtParts(data, c.pos, [s[0]], s[1..]);
      assert [s[0]] + s[1..] == s && data[c.pos] == data[c.pos..c.pos + 1][0] == s[0];
      RunStep(c, data);
      NamePhase(c.(pos := c.pos + 1), data, s[1..]);
    }
  }

  lemma {:induction false} SpacePhase(c: Ctx, data: seq<Byte>, s: seq<Byte>)
    requires c.stage == Headers && (c.sw == SpaceBeforeValue || c.sw == SpaceAfterValue) && At(data, c.pos, s)
    requires Spaces(s)
    ensures Run(c, data) == Run(c.(pos := c.pos + |s|), data)
    decreases |s|
  {
    hide Run;
    if s != [] {
      AtParts(data, c.pos, [s[0]], s[1..]);
      assert [s[0]] + s[1..] == s && data[c.pos] == data[c.pos..c.pos + 1][0] == s[0];
      RunStep(c, data);
      SpacePhase(c.(pos := c.pos + 1), data, s[1..]);
    }
  }

  predicate Text(s: seq<Byte>) { forall i :: 0 <= i < |s| ==> s[i] != CR && s[i] != LF }

  /** Inside a value spaces come and go; only the last byte decides. */
  lemma {:induction false} ValuePhase(c: Ctx, data: seq<Byte>, s: seq<Byte>) returns (end: nat)
    requires c.stage == Headers && (c.sw == Value || c.sw == SpaceAfterValue) && At(data, c.pos, s) && Text(s)
    requires s != [] && s[|s| - 1] != SP
    ensures Run(c, data) == Run(c.(pos := c.pos + |s|, sw := Value, end := end), data)
    decreases |s|
  {
    hide Run;
    AtParts(data, c.pos, [s[0]], s[1..]);
    assert [s[0]] + s[1..] == s && data[c.pos] == data[c.pos..c.pos + 1][0] == s[0];
    RunStep(c, data);
    var d := Step(c, data).value;
    end := d.end;
    if |s| > 1 {
      end := ValuePhase(d, data, s[1..]);
    }
  }

  /** The end of a line: an optional carriage return and a line feed. */
  predicate LineBreak(e: seq<Byte>) { e == [LF] || e == [CR, LF] }

  /** A line of a name, a colon, spaces, a value and spaces is read as just that. */
  lemma ReadsLine(c: Ctx, data: seq<Byte>, name: seq<Byte>, before: seq<Byte>, value: seq<Byte>, after: seq<Byte>,
                  e: seq<Byte>)
    requires c.stage == Headers && c.sw == Start && NameText(name) && name[0] != Ascii('-')
    requires Spaces(before) && Text(value) && Trimmed(value) && Spaces(after) && (value == [] ==> after == [])
    requires LineBreak(e)
    requires At(data, c.pos, name + ([Ascii(':')] + (before + (value + (after + e)))))
    ensures var b := c.pos + |name| + 1 + |before|;
            var d := c.(nameStart := c.pos, nameEnd := c.pos + |name|, start := b, end := b + |value|,
                        pos := b + |value| + |after| + |e|);
            Run(c, data) == if WrongType(d, data) then None else Run(d, data)
  {
    hide Run, WrongType, At, NameText, Spaces, Text, Trimmed, Step;
    var x := value + (after + e);
    var n := c.pos + |name|;
    AtParts(data, c.pos, name, [Ascii(':')] + (before + x));
    AtParts(data, n, [Ascii(':')], before + x);
    AtParts(data, n + 1, before, x);
    var b := n + 1 + |before|;
    AtParts(data, b, value, after + e);
    AtParts(data, b + |value|, after, e);
    var c1 := NameWhole(c, data, name);
    AtByte(data, n, [Ascii(':')]);
    NameEnds(c1, data);
    var c2 := c1.(nameEnd := n, sw := SpaceBeforeValue, pos := n + 1);
    SpacePhase(c2, data, before);
    var c3 := c2.(pos := b);
    AtByte(data, b + |value| + |after|, e);
    if value == [] {
      LineEnds(c3, data, e, b);
      assert after == [] && |value| == 0;
    } else {
      ValueWhole(c3, data, value, after, e);
    }
  }

  lemma NameEnds(c: Ctx, data: seq<Byte>)
    requires c.stage == Headers && c.sw == Name && c.pos < |data| && data[c.pos] == Ascii(':')
    ensures Run(c, data) == Run(c.(nameEnd := c.pos, sw := SpaceBeforeValue, pos := c.pos + 1), data)
  {
    hide Run;
    RunStep(c, data);
  }

  lemma AtByte(data: seq<Byte>, b: nat, s: seq<Byte>)
    requires At(data, b, s) && s != []
    ensures b + |s| <= |data| && data[b] == s[0] && (|s| == 2 ==> data[b + 1] == s[1])
  {
    assert data[b] == data[b..b + |s|][0];
    assert |s| == 2 ==> data[b + 1] == data[b..b + |s|][1];
  }

  lemma NameWhole(c: Ctx, data: seq<Byte>, name: seq<Byte>) returns (d: Ctx)
    requires c.stage == Headers && c.sw == Start && NameText(name) && name[0] != Ascii('-') && At(data, c.pos, name)
    ensures d == c.(nameStart := c.pos, sw := Name, pos := c.pos + |name|) && Run(c, data) == Run(d, data)
  {
    hide Run;
    AtByte(data, c.pos, name);
    assert [name[0]] + name[1..] == name;
    AtParts(data, c.pos, [name[0]], name[1..]);
    RunStep(c, data);
    NamePhase(c.(nameStart := c.pos, sw := Name, pos := c.pos + 1), data, name[1..]);
    d := c.(nameStart := c.pos, sw := Name, pos := c.pos + |name|);
  }

  /** The line break, right after a value, after the spaces behind it or instead of it. */
  lemma LineEnds(c: Ctx, data: seq<Byte>, e: seq<Byte>, p: nat)
    requires c.stage == Headers && c.sw in {SpaceBeforeValue, Value, SpaceAfterValue} && c.pos == p && At(data, p, e)
    requires LineBreak(e)
    ensures var d := c.(sw := Start, start := if c.sw == SpaceBeforeValue then p else c.start,
                        end := if c.sw == SpaceAfterValue then c.end else p, pos := p + |e|);
            Run(c, data) == if WrongType(d, data) then None else Run(d, data)
  {
    hide Run, WrongType;
    AtByte(data, p, e);
    RunStep(c, data);
    if e != [LF] {
      RunStep(Step(c, data).value, data);
    }
  }

  lemma ValueWhole(c: Ctx, data: seq<Byte>, value: seq<Byte>, after: seq<Byte>, e: seq<Byte>)
    requires c.stage == Headers && c.sw == SpaceBeforeValue && value != [] && Text(value) && Trimmed(value)
    requires Spaces(after) && LineBreak(e)
    requires At(data, c.pos, value) && At(data, c.pos + |value|, after) && At(data, c.pos + |value| + |after|, e)
    ensures var d := c.(sw := Start, start := c.pos, end := c.pos + |value|, pos := c.pos + |value| + |after| + |e|);
            Run(c, data) == if WrongType(d, data) then None else Run(d, data)
  {
    hide Run, WrongType, At, Text, Trimmed, Spaces, LineBreak;
    var f := c.pos + |value|;
    var g := ValueRead(c, data, value);
    if after == [] {
      LineEnds(g, data, e, f);
    } else {
      SpacesRead(g, data, after);
      LineEnds(g.(end := f, sw := SpaceAfterValue, pos := f + |after|), data, e, f + |after|);
    }
  }

  lemma ValueRead(c: Ctx, data: seq<Byte>, value: seq<Byte>) returns (g: Ctx)
    requires c.stage == Headers && c.sw == SpaceBeforeValue && value != [] && Text(value) && Trimmed(value)
    requires At(data, c.pos, value)
    ensures g == c.(start := c.pos, sw := Value, pos := c.pos + |value|, end := g.end) && Run(c, data) == Run(g, data)
  {
    hide Run, WrongType;
    AtByte(data, c.pos, value);
    assert [value[0]] + value[1..] == value;
    AtParts(data, c.pos, [value[0]], value[1..]);
    RunStep(c, data);
    var d := c.(start := c.pos, sw := Value, pos := c.pos + 1);
    var end := c.end;
    if |value| > 1 {
      end := ValuePhase(d, data, value[1..]);
    }
    g := d.(pos := c.pos + |value|, end := end);
  }

  lemma SpacesRead(g: Ctx, data: seq<Byte>, after: seq<Byte>)
    requires g.stage == Headers && g.sw == Value && after != [] && Spaces(after) && At(data, g.pos, after)
    ensures Run(g, data) == Run(g.(end := g.pos, sw := SpaceAfterValue, pos := g.pos + |after|), data)
  {
    hide Run, WrongType;
    AtByte(data, g.pos, after);
    assert [after[0]] + after[1..] == after;
    AtParts(data, g.pos, [after[0]], after[1..]);
    RunStep(g, data);
    SpacePhase(g.(end := g.pos, sw := SpaceAfterValue, pos := g.pos + 1), data, after[1..]);
  }

  // ---------------------------------------------------------------- the code

  class Responder {
    /** response: its memory, pos and last. */
    const buf: array<Byte>
    var last: nat
    var pos: nat

    /** process, state, code, count, done and the header pointers. */
    var stage: Stage
    var sw: Sw
    var code: nat
    var count: nat
    var done: bool
    var nameStart: nat
    var nameEnd: nat
    var start: nat
    var end: nat

    ghost function Data(): seq<Byte>
      reads this, buf
    {
      if last <= buf.Length then buf[..last] else []
    }

    ghost function C(): Ctx
      reads this
    {
      Ctx(stage, sw, code, count, nameStart, nameEnd, start, end, pos)
    }

    /** Everything remembered is what reading all the bytes at once would leave. */
    ghost predicate Valid()
      reads this, buf
    {
      last <= buf.Length && pos <= last && Run(INIT, Data()) == Some(C())
    }

    constructor (size: nat)
      ensures Valid() && buf.Length == size && Data() == [] && !done && fresh(buf)
    {
      buf := new Byte[size](i => 0);
      last, pos, stage, sw, code, count, done := 0, 0, StatusLine, Start, 0, 0, false;
      nameStart, nameEnd, start, end := 0, 0, 0, 0;
    }

    /** The switch of ngx_ssl_ocsp_parse_status_line for the byte at p; Ok is its way
        out of the loop. */
    method StatusByte(p: nat, ch: Byte, state: Sw) returns (rc: Rc, next: Sw)
      requires stage == StatusLine
      modifies `code, `count
      ensures rc != Done
      ensures rc == Error <==> StatusStep(old(C()).(sw := state, pos := p), ch) == None
      ensures rc == Again ==> StatusStep(old(C()).(sw := state, pos := p), ch) == Some(C().(sw := next, pos := p + 1))
      ensures rc == Ok ==>
                StatusStep(old(C()).(sw := state, pos := p), ch)
                == Some(C().(sw := Start, stage := Headers, pos := p + 1))
    {
      next := state;
      match state {
        case Start =>
          if ch != Ascii('H') { return Error, state; }
          next := H;
        case H =>
          if ch != Ascii('T') { return Error, state; }
          next := HT;
        case HT =>
          if ch != Ascii('T') { return Error, state; }
          next := HTT;
        case HTT =>
          if ch != Ascii('P') { return Error, state; }
          next := HTTP;
        case HTTP =>
          if ch != Ascii('/') { return Error, state; }
          next := FirstMajor;
        case FirstMajor =>
          if ch < Ascii('1') || ch > Ascii('9') { return Error, state; }
          next := Major;
        case Major =>
          if ch == Ascii('.') {
            next := FirstMinor;
          } else if !IsDigit(ch) {
            return Error, state;
          }
        case FirstMinor =>
          if !IsDigit(ch) { return Error, state; }
          next := Minor;
        case Minor =>
          if ch == SP {
            next := Status;
          } else if !IsDigit(ch) {
            return Error, state;
          }
        case Status =>
          if ch != SP {
            if !IsDigit(ch) { return Error, state; }
            code := code * 10 + ch - Ascii('0');
            count := count + 1;
            if count == 3 {
              next := SpaceAfterStatus;
            }
          }
        case SpaceAfterStatus =>
          if ch == SP || ch == Ascii('.') {
            next := StatusText;
          } else if ch == CR {
            next := AlmostDone;
          } else if ch == LF {
            return Ok, Start;
          } else {
            return Error, state;
          }
        case StatusText =>
          if ch == CR {
            next := AlmostDone;
          } else if ch == LF {
            return Ok, Start;
          }
        case AlmostDone =>
          if ch != LF { return Error, state; }
          return Ok, Start;
        case _ =>
      }
      return Again, next;
    }

    /** ngx_ssl_ocsp_parse_status_line */
    method ParseStatusLine() returns (rc: Rc)
      requires last <= buf.Length && pos <= last && stage == StatusLine && Sound(C(), Data())
      modifies `pos, `sw, `code, `count
      ensures rc != Done && pos <= last
      ensures rc == Error ==> Run(old(C()), Data()) == None
      ensures rc == Again ==> pos == last && Run(old(C()), Data()) == Some(C())
      ensures rc == Ok ==>
                Run(old(C()), Data()) == Run(C().(stage := Headers), Data()) && Sound(C().(stage := Headers), Data())
    {
      hide Sound, StatusStep, HeaderStep, WrongType, Run;
      var p := pos;
      var state := sw;
      ghost var data := Data();
      while p < last
        invariant pos <= p <= last && stage == StatusLine
        invariant Run(old(C()), data) == Run(C().(sw := state, pos := p), data)
        invariant Sound(C().(sw := state, pos := p), data)
      {
        ghost var c := C().(sw := state, pos := p);
        RunStep(c, data);
        if Step(c, data).Some? { StepSound(c, data); }
        assert data[p] == buf[p];
        var rc1, next := StatusByte(p, buf[p], state);
        if rc1 == Error {
          return Error;
        }
        if rc1 == Ok {
          pos, sw := p + 1, Start;
          return Ok;
        }
        state := next;
        p := p + 1;
      }
      pos, sw := p, state;
      NoMore(C(), data);
      return Again;
    }

    /** The switch of ngx_ssl_ocsp_parse_header_line; Ok and Done are its ways out of
        the loop. */
    method HeaderByte(p: nat, ch: Byte, state: Sw) returns (rc: Rc, next: Sw)
      modifies `nameStart, `nameEnd, `start, `end
      ensures rc == Error <==> HeaderStep(old(C()).(sw := state, pos := p), ch) == Bad
      ensures rc == Again ==> HeaderStep(old(C()).(sw := state, pos := p), ch) == More(C().(sw := next, pos := p + 1))
      ensures rc == Ok ==> HeaderStep(old(C()).(sw := state, pos := p), ch) == LineEnd(C().(sw := Start, pos := p + 1))
      ensures rc == Done ==>
                HeaderStep(old(C()).(sw := state, pos := p), ch) == HeadEnd(C().(sw := Start, pos := p + 1))
    {
      next := state;
      match state {
        case Start =>
          if ch == CR {
            end, next := p, HeaderAlmostDone;
          } else if ch == LF {
            end := p;
            return Done, Start;
          } else {
            next, nameStart := Name, p;
            if !IsLetter(ch) && !IsDigit(ch) { return Error, state; }
          }
        case Name =>
          if IsLetter(ch) {
          } else if ch == Ascii(':') {
            nameEnd, next := p, SpaceBeforeValue;
          } else if ch == Ascii('-') || IsDigit(ch) {
          } else if ch == CR {
            nameEnd, start, end, next := p, p, p, AlmostDone;
          } else if ch == LF {
            nameEnd, start, end := p, p, p;
            return Ok, Start;
          } else {
            return Error, state;
          }
        case SpaceBeforeValue =>
          if ch == SP {
          } else if ch == CR {
            start, end, next := p, p, AlmostDone;
          } else if ch == LF {
            start, end := p, p;
            return Ok, Start;
          } else {
            start, next := p, Value;
          }
        case Value =>
          if ch == SP {
            end, next := p, SpaceAfterValue;
          } else if ch == CR {
            end, next := p, AlmostDone;
          } else if ch == LF {
            end := p;
            return Ok, Start;
          }
        case SpaceAfterValue =>
          if ch == SP {
          } else if ch == CR {
            next := AlmostDone;
          } else if ch == LF {
            return Ok, Start;
          } else {
            next := Value;
          }
        case AlmostDone =>
          if ch != LF { return Error, state; }
          return Ok, Start;
        case HeaderAlmostDone =>
          if ch != LF { return Error, state; }
          return Done, Start;
        case _ =>
      }
      return Again, next;
    }

    /** ngx_ssl_ocsp_parse_header_line */
    method ParseHeaderLine() returns (rc: Rc)
      requires last <= buf.Length && pos <= last && stage == Headers && Sound(C(), Data())
      modifies `pos, `sw, `nameStart, `nameEnd, `start, `end
      ensures pos <= last && (rc == Ok || rc == Done ==> pos > old(pos))
      ensures rc == Error ==> Run(old(C()), Data()) == None
      ensures rc == Again ==> pos == last && Run(old(C()), Data()) == Some(C())
      ensures rc == Ok ==> Run(old(C()), Data()) == if WrongType(C(), Data()) then None else Run(C(), Data())
      ensures rc == Ok ==> Sound(C(), Data()) && GoodLine(C(), Data())
      ensures rc == Done ==> Run(old(C()), Data()) == Some(C().(stage := Body))
    {
      hide WrongType, Sound, GoodLine, HeaderStep, StatusStep, Run;
      var p := pos;
      var state := sw;
      ghost var data := Data();
      while p < last
        invariant pos == old(pos) <= p <= last && stage == Headers
        invariant Run(old(C()), data) == Run(C().(sw := state, pos := p), data)
        invariant Sound(C().(sw := state, pos := p), data)
      {
        ghost var c := C().(sw := state, pos := p);
        RunStep(c, data);
        HeaderSound(c, data);
        assert data[p] == buf[p];
        var rc1, next := HeaderByte(p, buf[p], state);
        if rc1 == Error {
          return Error;
        }
        if rc1 != Again {
          pos, sw := p + 1, Start;
          BodyRun(C().(stage := Body), data);
          return rc1;
        }
        state := next;
        p := p + 1;
      }
      pos, sw := p, state;
      NoMore(C(), data);
      return Again;
    }

    /** ngx_strncasecmp of a part of the buffer with a text of the same length. */
    method SameAs(from: nat, to: nat, text: string) returns (same: bool)
      requires from <= to <= last <= buf.Length && forall i :: 0 <= i < |text| ==> text[i] as int < 256
      ensures same == SameText(Slice(Data(), from, to), text)
    {
      if to - from != |text| {
        return false;
      }
      for i := 0 to |text|
        invariant forall j :: 0 <= j < i ==> Fold(buf[from + j]) == Fold(Ascii(text[j]))
      {
        if Fold(buf[from + i]) != Fold(Ascii(text[i])) {
          assert Slice(Data(), from, to)[i] == buf[from + i];
          return false;
        }
      }
      return true;
    }

    /** ngx_ssl_ocsp_process_headers */
    method ProcessHeaders() returns (rc: Rc)
      requires last <= buf.Length && pos <= last && stage == Headers && Sound(C(), Data())
      modifies `pos, `sw, `stage, `nameStart, `nameEnd, `start, `end
      ensures pos <= last && rc != Ok && (rc == Error <==> Run(old(C()), Data()) == None)
      ensures rc != Error ==> Run(old(C()), Data()) == Some(C())
      ensures rc == Done <==> rc != Error && stage == Body && done
    {
      hide Sound, WrongType, Step, SameText;
      ghost var c0, data := C(), Data();
      while true
        invariant pos <= last && stage == Headers && Sound(C(), data) && Run(c0, data) == Run(C(), data)
        decreases last - pos
      {
        rc := ParseHeaderLine();
        if rc == Ok {
          GoodOrder(C(), data);
          var name := SameAs(nameStart, nameEnd, "Content-Type");
          if name {
            var value := SameAs(start, end, "application/ocsp-response");
            if !value {
              TypeTest(C(), data);
              return Error;
            }
          }
          TypeTest(C(), data);
          continue;
        }
        if rc == Done {
          break;
        }
        return rc;
      }
      stage := Body;
      rc := ProcessBody();
    }

    lemma GoodOrder(c: Ctx, data: seq<Byte>)
      requires GoodLine(c, data)
      ensures c.nameStart <= c.nameEnd <= c.start <= c.end <= |data|
    {
    }

    lemma TypeTest(c: Ctx, data: seq<Byte>)
      ensures WrongType(c, data) <==> SameText(Slice(data, c.nameStart, c.nameEnd), "Content-Type")
                                      && !SameText(Slice(data, c.start, c.end), "application/ocsp-response")
    {
    }

    /** ngx_ssl_ocsp_process_body; the call of the handler is left to the caller. */
    method ProcessBody() returns (rc: Rc)
      ensures rc == if done then Done else Again
    {
      if done {
        return Done;
      }
      return Again;
    }

    /** ngx_ssl_ocsp_process_status_line */
    method ProcessStatusLine() returns (rc: Rc)
      requires last <= buf.Length && pos <= last && stage == StatusLine && Sound(C(), Data())
      modifies `pos, `sw, `code, `count, `stage, `nameStart, `nameEnd, `start, `end
      ensures pos <= last && rc != Ok && (rc == Error <==> Run(old(C()), Data()) == None)
      ensures rc != Error ==> Run(old(C()), Data()) == Some(C())
      ensures rc == Done <==> rc != Error && stage == Body && done
    {
      hide Sound, Step;
      rc := ParseStatusLine();
      if rc == Ok {
        stage := Headers;
        rc := ProcessHeaders();
      }
    }

    /** ctx->process */
    method Process() returns (rc: Rc)
      requires last <= buf.Length && pos <= last && Sound(C(), Data())
      modifies `pos, `sw, `code, `count, `stage, `nameStart, `nameEnd, `start, `end
      ensures pos <= last && rc != Ok && (rc == Error <==> Run(old(C()), Data()) == None)
      ensures rc != Error ==> Run(old(C()), Data()) == Some(C())
      ensures rc == Done <==> rc != Error && stage == Body && done
    {
      hide Sound, Step;
      match stage {
        case StatusLine => rc := ProcessStatusLine();
        case Headers => rc := ProcessHeaders();
        case Body => rc := ProcessBody();
      }
    }

    /** One read of ngx_ssl_ocsp_read_handler: however the bytes have come in, the
        context is the one that reading them all at once leaves, and an invalid response
        is noticed with the first byte that makes it so. */
    method Receive(bytes: seq<Byte>) returns (rc: Rc)
      requires Valid() && !done && bytes != [] && last + |bytes| <= buf.Length
      modifies this, buf
      ensures Data() == old(Data()) + bytes && !done
      ensures rc == Error <==> Run(INIT, Data()) == None
      ensures rc != Error ==> Valid() && rc == Again && Sound(C(), Data())
    {
      hide Sound, Step, Run;
      ghost var d, m := Data(), last;
      forall i | 0 <= i < |bytes| {
        buf[last + i] := bytes[i];
      }
      last := last + |bytes|;
      assert Data() == d + bytes;
      assert Data()[..m] == d;
      InitSound(Data());
      RunSplit(INIT, Data(), m);
      rc := Process();
      if rc != Error { RunSound(INIT, Data()); }
    }

    /** The end of the connection: the response is complete if its body was reached. */
    method Close() returns (rc: Rc)
      requires Valid() && !done
      modifies this
      ensures done && Data() == old(Data()) && C() == old(C())
      ensures rc == Done <==> stage == Body
    {
      hide Sound, Step, Run;
      done := true;
      InitSound(Data());
      RunSound(INIT, Data());
      ghost var c := C();
      RunAgain(INIT, Data());
      rc := Process();
    }
  }

  lemma RunStep(c: Ctx, data: seq<Byte>)
    requires c.pos < |data| && c.stage != Body
    ensures Run(c, data) == match Step(c, data) case None => None case Some(d) => Run(d, data)
  {
  }

  lemma BodyRun(c: Ctx, data: seq<Byte>)
    requires c.pos <= |data| && c.stage == Body
    ensures Run(c, data) == Some(c)
  {
  }

  lemma NoMore(c: Ctx, data: seq<Byte>)
    requires c.pos == |data|
    ensures Run(c, data) == Some(c)
  {
  }

  lemma {:induction false} RunAgain(c: Ctx, data: seq<Byte>)
    requires c.pos <= |data|
    ensures Run(c, data).Some? ==> Run(Run(c, data).value, data) == Run(c, data)
    decreases |data| - c.pos
  {
    hide Step;
    if c.pos < |data| && c.stage != Body && Step(c, data).Some? {
      RunAgain(Step(c, data).value, data);
    }
  }
}
