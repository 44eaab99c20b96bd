/** The head of an OCSP responder's answer as a text: its status line, header lines and
    the empty line, and that the body is reached exactly behind such a text. */
module OcspHead {
  import opened Common
  import opened Ocsp
  import opened OcspStatus

  const COLON: Byte := 58
  const DASH: Byte := 45

  /** A header line; one without a colon has nothing behind its name. */
  datatype Header = Header(name: seq<Byte>, colon: bool, before: seq<Byte>, value: seq<Byte>, after: seq<Byte>,
                           eol: seq<Byte>)

  predicate FirstName(s: seq<Byte>) { NameText(s) && s[0] != DASH }

  predicate ProperHeader(h: Header)
  {
    && FirstName(h.name) && LineBreak(h.eol)
    && Spaces(h.before) && Text(h.value) && Trimmed(h.value) && Spaces(h.after) && (h.value == [] ==> h.after == [])
    && (!h.colon ==> h.before == h.value == [])
  }

  /** A content type has to be that of an OCSP response. */
  predicate RightType(h: Header)
  {
    SameText(h.name, "Content-Type") ==> SameText(h.value, "application/ocsp-response")
  }

  function Colon(h: Header): seq<Byte> { if h.colon then [COLON] else [] }

  function HeaderText(h: Header): seq<Byte> { h.name + Colon(h) + h.before + h.value + h.after + h.eol }

  /** What is remembered of a header line that begins at c.pos. */
  function Ended(c: Ctx, h: Header): Ctx
  {
    var n := c.pos + |h.name|;
    var b := n + |Colon(h)| + |h.before|;
    c.(sw := Start, nameStart := c.pos, nameEnd := n, start := b, end := b + |h.value|, pos := c.pos + |HeaderText(h)|)
  }

  // ---------------------------------------------------------------- reading byte by byte

  /** The bytes up to the end of one line. */
  function LineFold(c: Ctx, s: seq<Byte>): Effect
    decreases |s|
  {
    if s == [] then More(c)
    else
      match HeaderStep(c, s[0])
      case More(d) => LineFold(d, s[1..])
      case e => e
  }

  lemma {:induction false} LineJoin(c: Ctx, a: seq<Byte>, b: seq<Byte>)
    ensures LineFold(c, a + b) == match LineFold(c, a) case More(d) => LineFold(d, b) case e => e
    decreases |a|
  {
    hide HeaderStep;
    if a == [] {
      assert a + b == b;
    } else {
      assert (a + b)[1..] == a[1..] + b;
      if HeaderStep(c, a[0]).More? { LineJoin(HeaderStep(c, a[0]).ctx, a[1..], b); }
    }
  }

  lemma LineOne(c: Ctx, ch: Byte)
    ensures LineFold(c, [ch]) == HeaderStep(c, ch)
  {
    hide HeaderStep;
    if HeaderStep(c, ch).More? { assert [ch][1..] == []; }
  }

  /** The reading of the headers begins with that of one line. */
  lemma {:induction false} RunLine(c: Ctx, data: seq<Byte>)
    requires c.pos <= |data| && c.stage == Headers
    ensures match LineFold(c, data[c.pos..])
            case Bad => Run(c, data) == None
            case More(d) => Run(c, data) == Some(d) && d.stage == Headers
            case LineEnd(d) =>
              d.pos <= |data| && d.stage == Headers
              && Run(c, data) == if WrongType(d, data) then None else Run(d, data)
            case HeadEnd(d) => Run(c, data) == Some(d.(stage := Body)) && d.pos <= |data|
    decreases |data| - c.pos
  {
    hide HeaderStep, WrongType;
    if c.pos < |data| {
      var s := data[c.pos..];
      assert s[0] == data[c.pos] && s[1..] == data[c.pos + 1..];
      HeaderStepAt(c, s[0]);
      match HeaderStep(c, s[0])
      case More(d) => RunLine(d, data);
      case HeadEnd(d) => BodyRun(d.(stage := Body), data);
      case _ =>
    }
  }

  lemma HeaderStepAt(c: Ctx, ch: Byte)
    ensures !HeaderStep(c, ch).Bad? ==> HeaderStep(c, ch).ctx.pos == c.pos + 1
    ensures !HeaderStep(c, ch).Bad? ==> HeaderStep(c, ch).ctx.stage == c.stage
  {
  }

  // ---------------------------------------------------------------- what has been read

  /** Nothing but the state and the pointers has changed. */
  predicate Moved(c0: Ctx, c: Ctx)
  {
    c == c0.(sw := c.sw, nameStart := c.nameStart, nameEnd := c.nameEnd, start := c.start, end := c.end, pos := c.pos)
  }

  /** The pointers as far as the state needs them; the rest of the context is that of c0. */
  predicate Points(c0: Ctx, c: Ctx, s: seq<Byte>, h: Header)
  {
    var e := Ended(c0, h);
    && Moved(c0, c) && c.pos == c0.pos + |s|
    && (c.sw in {Name, SpaceBeforeValue, Value, SpaceAfterValue, AlmostDone} ==> c.nameStart == e.nameStart)
    && (c.sw in {SpaceBeforeValue, Value, SpaceAfterValue, AlmostDone} ==> c.nameEnd == e.nameEnd)
    && (c.sw in {Value, SpaceAfterValue, AlmostDone} ==> c.start == e.start)
    && (c.sw in {SpaceAfterValue, AlmostDone} ==> c.end == e.end)
  }

  function Bare(h: Header): seq<Byte> { h.name + Colon(h) + h.before + h.value + h.after }

  /** s is the beginning of h that leads to a state. */
  predicate Begun(sw: Sw, s: seq<Byte>, h: Header)
  {
    match sw
    case Start => s == []
    case Name => s == h.name && FirstName(h.name)
    case SpaceBeforeValue => s == Bare(h) && h.colon && h.value == [] && ProperHeader(h.(eol := [LF]))
    case Value => s == Bare(h) && h.colon && h.value != [] && h.after == [] && ProperHeader(h.(eol := [LF]))
    case SpaceAfterValue => s == Bare(h) && h.colon && h.after != [] && ProperHeader(h.(eol := [LF]))
    case AlmostDone => s == Bare(h) + [CR] && ProperHeader(h.(eol := [LF]))
    case HeaderAlmostDone => s == [CR]
    case _ => false
  }

  ghost predicate ReadsHeader(c0: Ctx, e: Effect, s: seq<Byte>, h: Header)
  {
    match e
    case Bad => true
    case More(c) => Points(c0, c, s, h) && Begun(c.sw, s, h)
    case LineEnd(d) => ProperHeader(h) && HeaderText(h) <= s && d == Ended(c0, h)
    case HeadEnd(d) =>
      ([LF] <= s || [CR, LF] <= s) && Moved(c0, d) && d.sw == Start && d.pos == c0.pos + if s[0] == LF then 1 else 2
  }

  lemma NotDash(ch: Byte)
    ensures IsLetter(ch) || IsDigit(ch) ==> ch != DASH && ch != COLON && ch != CR && ch != LF
  {
  }

  lemma EmptyTexts()
    ensures Spaces([]) && Text([]) && Trimmed([])
  {
  }

  /** One byte at the start of a line, or of the line break of an empty one. */
  lemma StartReads(c0: Ctx, c: Ctx, s: seq<Byte>, h: Header, ch: Byte) returns (g: Header)
    requires Points(c0, c, s, h) && Begun(c.sw, s, h) && (c.sw == Start || c.sw == HeaderAlmostDone)
    ensures ReadsHeader(c0, HeaderStep(c, ch), s + [ch], g)
  {
    hide IsLetter, IsDigit;
    g := Header([ch], false, [], [], [], [LF]);
    NotDash(ch);
    if c.sw == HeaderAlmostDone { assert s + [LF] == [CR, LF]; }
  }

  /** One byte in a name. */
  lemma NameReads(c0: Ctx, c: Ctx, s: seq<Byte>, h: Header, ch: Byte) returns (g: Header)
    requires Points(c0, c, s, h) && Begun(c.sw, s, h) && c.sw == Name
    ensures ReadsHeader(c0, HeaderStep(c, ch), s + [ch], g)
  {
    hide IsLetter, IsDigit;
    g := Header(h.name, false, [], [], [], [LF]);
    EmptyTexts();
    NotDash(ch);
    if IsName(ch) {
      g := g.(name := h.name + [ch]);
      assert g.name[0] == h.name[0];
    } else if ch == COLON {
      g := g.(colon := true);
      assert s + [COLON] == Bare(g);
    } else {
      assert s == Bare(g) && s + [LF] == HeaderText(g);
    }
  }

  /** One byte between the colon and the value. */
  lemma BeforeReads(c0: Ctx, c: Ctx, s: seq<Byte>, h: Header, ch: Byte) returns (g: Header)
    requires Points(c0, c, s, h) && Begun(c.sw, s, h) && c.sw == SpaceBeforeValue
    ensures ReadsHeader(c0, HeaderStep(c, ch), s + [ch], g)
  {
    hide FirstName;
    g := h.(eol := [LF]);
    if ch == SP {
      g := g.(before := h.before + [SP]);
      assert s + [SP] == Bare(g);
    } else if ch == CR || ch == LF {
      assert s == Bare(g) && s + [LF] == HeaderText(g);
    } else {
      g := g.(value := [ch]);
      assert s + [ch] == Bare(g);
    }
  }

  /** One byte behind the first of a value. */
  lemma ValueReads(c0: Ctx, c: Ctx, s: seq<Byte>, h: Header, ch: Byte) returns (g: Header)
    requires Points(c0, c, s, h) && Begun(c.sw, s, h) && c.sw == Value
    ensures ReadsHeader(c0, HeaderStep(c, ch), s + [ch], g)
  {
    hide FirstName;
    g := h.(eol := [LF]);
    if ch == SP {
      g := g.(after := [SP]);
      assert s + [SP] == Bare(g);
    } else if ch == CR || ch == LF {
      assert s == Bare(g) && s + [LF] == HeaderText(g);
    } else {
      g := g.(value := h.value + [ch]);
      assert s + [ch] == Bare(g);
    }
  }

  /** One byte behind spaces that may or may not belong to a value. */
  lemma AfterReads(c0: Ctx, c: Ctx, s: seq<Byte>, h: Header, ch: Byte) returns (g: Header)
    requires Points(c0, c, s, h) && Begun(c.sw, s, h) && c.sw == SpaceAfterValue
    ensures ReadsHeader(c0, HeaderStep(c, ch), s + [ch], g)
  {
    hide FirstName;
    g := h.(eol := [LF]);
    if ch == SP {
      g := g.(after := h.after + [SP]);
      assert s + [SP] == Bare(g);
    } else if ch == CR || ch == LF {
      assert s == Bare(g) && s + [LF] == HeaderText(g);
    } else {
      g := g.(value := h.value + h.after + [ch], after := []);
      assert s + [ch] == Bare(g);
    }
  }

  lemma BreakReads(c0: Ctx, c: Ctx, s: seq<Byte>, h: Header, ch: Byte) returns (g: Header)
    requires Points(c0, c, s, h) && Begun(c.sw, s, h) && c.sw == AlmostDone
    ensures ReadsHeader(c0, HeaderStep(c, ch), s + [ch], g)
  {
    hide FirstName, Spaces, Trimmed, Text;
    g := h.(eol := [CR, LF]);
    if ch == LF { assert s + [LF] == HeaderText(g); }
  }

  lemma ByteReads(c0: Ctx, c: Ctx, s: seq<Byte>, h: Header, ch: Byte) returns (g: Header)
    requires Points(c0, c, s, h) && Begun(c.sw, s, h)
    ensures ReadsHeader(c0, HeaderStep(c, ch), s + [ch], g)
  {
    hide Points, ReadsHeader, HeaderStep;
    match c.sw
    case Name => g := NameReads(c0, c, s, h, ch);
    case SpaceBeforeValue => g := BeforeReads(c0, c, s, h, ch);
    case Value => g := ValueReads(c0, c, s, h, ch);
    case SpaceAfterValue => g := AfterReads(c0, c, s, h, ch);
    case AlmostDone => g := BreakReads(c0, c, s, h, ch);
    case _ => g := StartReads(c0, c, s, h, ch);
  }

  /** Whatever has been read of a line without being refused begins one, or is one and
      more. */
  lemma {:induction false} LineReads(c0: Ctx, s: seq<Byte>) returns (h: Header)
    requires c0.sw == Start
    ensures ReadsHeader(c0, LineFold(c0, s), s, h)
    decreases |s|
  {
    hide HeaderStep, Points, Begun, ReadsHeader;
    if s == [] {
      h := Header([], false, [], [], [], []);
      NothingRead(c0, h);
    } else {
      var n := |s| - 1;
      var front, ch := s[..n], s[n];
      assert s == front + [ch];
      h := LineReads(c0, front);
      LineJoin(c0, front, [ch]);
      match LineFold(c0, front)
      case More(c) =>
        LineOne(c, ch);
        MoreReads(c0, c, front, h);
        h := ByteReads(c0, c, front, h, ch);
      case e =>
        ReadsOn(c0, e, front, s, h);
    }
  }

  lemma NothingRead(c0: Ctx, h: Header)
    requires c0.sw == Start
    ensures ReadsHeader(c0, LineFold(c0, []), [], h)
  {
  }

  lemma MoreReads(c0: Ctx, c: Ctx, s: seq<Byte>, h: Header)
    requires ReadsHeader(c0, More(c), s, h)
    ensures Points(c0, c, s, h) && Begun(c.sw, s, h)
  {
  }

  lemma ReadsOn(c0: Ctx, e: Effect, front: seq<Byte>, s: seq<Byte>, h: Header)
    requires ReadsHeader(c0, e, front, h) && !e.More? && front <= s
    ensures ReadsHeader(c0, e, s, h)
  {
  }

  // ---------------------------------------------------------------- the whole head

  function Texts(hs: seq<Header>): seq<Byte> { if hs == [] then [] else HeaderText(hs[0]) + Texts(hs[1..]) }

  predicate Right(hs: seq<Header>) { forall i :: 0 <= i < |hs| ==> ProperHeader(hs[i]) && RightType(hs[i]) }

  /** A status line, header lines of which none has a wrong type, and an empty line. */
  function HeadText(l: Line, hs: seq<Header>, e: seq<Byte>): seq<Byte> { Spelling(l) + (Texts(hs) + e) }

  predicate ProperHead(l: Line, hs: seq<Header>, e: seq<Byte>) { Proper(l) && Right(hs) && LineBreak(e) }

  /** The type that is tested is that of the line. */
  lemma TypeOf(c: Ctx, data: seq<Byte>, h: Header)
    requires At(data, c.pos, HeaderText(h)) && ProperHeader(h)
    ensures WrongType(Ended(c, h), data) <==> !RightType(h)
  {
    hide SameText, ProperHeader, At, Slice, HeaderText;
    PartsAt(c, data, h);
    SliceAt(data, c.pos, h.name);
    SliceAt(data, Ended(c, h).start, h.value);
  }

  lemma PartsAt(c: Ctx, data: seq<Byte>, h: Header)
    requires At(data, c.pos, HeaderText(h))
    ensures At(data, c.pos, h.name) && At(data, Ended(c, h).start, h.value)
  {
    hide At;
    var rest := h.after + h.eol;
    var n := c.pos + |h.name|;
    assert HeaderText(h) == h.name + (Colon(h) + (h.before + (h.value + rest)));
    AtParts(data, c.pos, h.name, Colon(h) + (h.before + (h.value + rest)));
    AtParts(data, n, Colon(h), h.before + (h.value + rest));
    AtParts(data, n + |Colon(h)|, h.before, h.value + rest);
    AtParts(data, n + |Colon(h)| + |h.before|, h.value, rest);
  }

  lemma SliceAt(data: seq<Byte>, b: nat, s: seq<Byte>)
    requires At(data, b, s)
    ensures Slice(data, b, b + |s|) == s
  {
  }

  lemma BlankRead(c: Ctx, data: seq<Byte>, e: seq<Byte>)
    requires c.stage == Headers && c.sw == Start && c.pos <= |data| && LineBreak(e) && At(data, c.pos, e)
    ensures Run(c, data).Some? && Run(c, data).value.stage == Body && Run(c, data).value.pos == c.pos + |e|
    ensures Run(c, data).value.code == c.code
  {
    hide Run;
    AtByte(data, c.pos, e);
    RunStep(c, data);
    var d := Step(c, data).value;
    if e == [LF] {
      BodyRun(d, data);
    } else {
      RunStep(d, data);
      BodyRun(Step(d, data).value, data);
    }
  }

  /** A header line without a colon. */
  lemma BareRead(c: Ctx, data: seq<Byte>, h: Header)
    requires c.stage == Headers && c.sw == Start && ProperHeader(h) && !h.colon && At(data, c.pos, HeaderText(h))
    ensures var d := Ended(c, h); Run(c, data) == if WrongType(d, data) then None else Run(d, data)
  {
    hide Run, WrongType, At, NameText, Spaces, Text, Trimmed, Step;
    assert HeaderText(h) == h.name + h.eol;
    AtParts(data, c.pos, h.name, h.eol);
    var c1 := NameWhole(c, data, h.name);
    NameBreaks(c1, data, h.eol);
  }

  lemma NameBreaks(c: Ctx, data: seq<Byte>, e: seq<Byte>)
    requires c.stage == Headers && c.sw == Name && At(data, c.pos, e) && LineBreak(e)
    ensures var p := c.pos;
            var d := c.(sw := Start, nameEnd := p, start := p, end := p, pos := p + |e|);
            Run(c, data) == if WrongType(d, data) then None else Run(d, data)
  {
    hide Run, WrongType;
    AtByte(data, c.pos, e);
    RunStep(c, data);
    if e != [LF] { RunStep(Step(c, data).value, data); }
  }

  lemma HeaderRead(c: Ctx, data: seq<Byte>, h: Header)
    requires c.stage == Headers && c.sw == Start && ProperHeader(h) && At(data, c.pos, HeaderText(h))
    ensures Run(c, data) == if RightType(h) then Run(Ended(c, h), data) else None
  {
    hide Run, WrongType, At, NameText, Spaces, Text, Trimmed, RightType;
    TypeOf(c, data, h);
    if h.colon {
      assert HeaderText(h) == h.name + ([COLON] + (h.before + (h.value + (h.after + h.eol))));
      ReadsLine(c, data, h.name, h.before, h.value, h.after, h.eol);
    } else {
      BareRead(c, data, h);
    }
  }

  lemma {:induction false} HeadersRead(c: Ctx, data: seq<Byte>, hs: seq<Header>, e: seq<Byte>)
    requires c.stage == Headers && c.sw == Start && Right(hs) && LineBreak(e) && At(data, c.pos, Texts(hs) + e)
    ensures Run(c, data).Some? && Run(c, data).value.stage == Body && Run(c, data).value.code == c.code
    ensures Run(c, data).value.pos == c.pos + |Texts(hs) + e|
    decreases |hs|
  {
    hide Run, At, LineBreak, ProperHeader, RightType;
    if hs == [] {
      assert Texts(hs) + e == e;
      AtInside(data, c.pos, e);
      BlankRead(c, data, e);
    } else {
      var t := Texts(hs[1..]) + e;
      assert Texts(hs) + e == HeaderText(hs[0]) + t;
      AtParts(data, c.pos, HeaderText(hs[0]), t);
      HeaderRead(c, data, hs[0]);
      HeadersRead(Ended(c, hs[0]), data, hs[1..], e);
    }
  }

  lemma AtInside(data: seq<Byte>, b: nat, s: seq<Byte>)
    requires At(data, b, s)
    ensures b <= |data|
  {
  }

  /** What leads from the start of a line to the body is header lines and an empty one. */
  lemma {:induction false} BodyHeaders(c: Ctx, data: seq<Byte>) returns (hs: seq<Header>, e: seq<Byte>)
    requires c.stage == Headers && c.sw == Start && c.pos <= |data|
    requires Run(c, data).Some? && Run(c, data).value.stage == Body
    ensures Right(hs) && LineBreak(e) && At(data, c.pos, Texts(hs) + e)
    decreases |data| - c.pos
  {
    hide Run, WrongType, LineFold, ProperHeader, RightType, HeaderText;
    var s := data[c.pos..];
    RunLine(c, data);
    var h := LineReads(c, s);
    match LineFold(c, s)
    case LineEnd(d) =>
      LineAt(c, data, h);
      TypeOf(c, data, h);
      HeaderLong(h);
      var more;
      more, e := BodyHeaders(d, data);
      hs := [h] + more;
      assert hs[1..] == more && Texts(hs) + e == HeaderText(h) + (Texts(more) + e);
      AtJoin(data, c.pos, HeaderText(h), Texts(more) + e);
    case HeadEnd(d) =>
      hs, e := [], if [LF] <= s then [LF] else [CR, LF];
      assert Texts(hs) + e == e;
      FrontAt(data, c.pos, e);
    case _ =>
  }

  lemma LineAt(c: Ctx, data: seq<Byte>, h: Header)
    requires c.pos <= |data| && HeaderText(h) <= data[c.pos..]
    ensures At(data, c.pos, HeaderText(h))
  {
    FrontAt(data, c.pos, HeaderText(h));
  }

  lemma FrontAt(data: seq<Byte>, b: nat, s: seq<Byte>)
    requires b <= |data| && s <= data[b..]
    ensures At(data, b, s)
  {
    assert data[b..b + |s|] == data[b..][..|s|];
  }

  lemma HeaderLong(h: Header)
    requires ProperHeader(h)
    ensures |HeaderText(h)| > 0
  {
  }

  lemma AtJoin(data: seq<Byte>, b: nat, s: seq<Byte>, u: seq<Byte>)
    requires At(data, b, s) && At(data, b + |s|, u)
    ensures At(data, b, s + u)
  {
    assert data[b..b + |s + u|] == data[b..b + |s|] + data[b + |s|..b + |s| + |u|];
  }

  /** The body is reached exactly behind a head, and the code is that of its status line. */
  lemma BodyIff(data: seq<Byte>)
    ensures var r := Run(INIT, data);
            r.Some? && r.value.stage == Body
            <==> exists l, hs, e :: ProperHead(l, hs, e) && HeadText(l, hs, e) <= data
    ensures forall l, hs, e :: ProperHead(l, hs, e) && HeadText(l, hs, e) <= data ==>
              var c := Run(INIT, data).value;
              c.pos == |HeadText(l, hs, e)| && c.code == Read(l).code
  {
    hide Run, Proper, Right, LineBreak, Spelling, Texts, StatusFold, At;
    forall l, hs, e | ProperHead(l, hs, e) && HeadText(l, hs, e) <= data
      ensures Run(INIT, data).Some? && Run(INIT, data).value.stage == Body
      ensures Run(INIT, data).value.pos == |HeadText(l, hs, e)| && Run(INIT, data).value.code == Read(l).code
    {
      HeadRead(l, hs, e, data);
    }
    if Run(INIT, data).Some? && Run(INIT, data).value.stage == Body {
      var l, hs, e := BodyHead(data);
    }
  }

  lemma HeadRead(l: Line, hs: seq<Header>, e: seq<Byte>, data: seq<Byte>)
    requires ProperHead(l, hs, e) && HeadText(l, hs, e) <= data
    ensures var r := Run(INIT, data);
            r.Some? && r.value.stage == Body && r.value.pos == |HeadText(l, hs, e)| && r.value.code == Read(l).code
  {
    hide Run, Proper, Right, LineBreak, Spelling, Texts, StatusFold, At;
    FoldLine(l);
    var t := Texts(hs) + e;
    var rest := data[|Spelling(l)|..];
    assert data == Spelling(l) + rest && t <= rest;
    ReadsStatusLine(l, rest);
    FrontAt(data, |Spelling(l)|, t);
    HeadersRead(Read(l), data, hs, e);
  }

  lemma BodyHead(data: seq<Byte>) returns (l: Line, hs: seq<Header>, e: seq<Byte>)
    requires Run(INIT, data).Some? && Run(INIT, data).value.stage == Body
    ensures ProperHead(l, hs, e) && HeadText(l, hs, e) <= data
  {
    hide Run, Proper, Right, LineBreak, Spelling, Texts, StatusFold;
    assert data[0..] == data;
    RunFold(INIT, data);
    l := FoldReads(data);
    var c := StatusFold(INIT, data).value;
    if c.stage == StatusLine {
      PartialEnd(c, data, l);
    } else {
      hs, e := BodyHeaders(c, data);
      assert data[c.pos..c.pos + |Texts(hs) + e|] == Texts(hs) + e;
      assert HeadText(l, hs, e) == data[..c.pos] + data[c.pos..c.pos + |Texts(hs) + e|];
    }
  }

  lemma PartialEnd(c: Ctx, data: seq<Byte>, l: Line)
    requires Partial(c, data, l)
    ensures c.pos == |data| && Run(c, data) == Some(c) && c.stage == StatusLine
  {
  }

  // ---------------------------------------------------------------- and nothing else is

  /** s begins a header line or an empty one, or one of them begins s. */
  ghost predicate PromisingLine(s: seq<Byte>)
  {
    || s <= [LF] || s <= [CR, LF] || [LF] <= s || [CR, LF] <= s
    || exists h :: ProperHeader(h) && (HeaderText(h) <= s || s <= HeaderText(h))
  }

  /** Header lines are refused exactly where no line can begin, the test of the type aside. */
  lemma LineRefusedIff(c: Ctx, s: seq<Byte>)
    requires c.stage == Headers && c.sw == Start
    ensures LineFold(c, s).Bad? <==> !PromisingLine(s)
  {
    hide LineFold, ProperHeader, HeaderText, Begun, Points, Bare;
    var h := LineReads(c, s);
    match LineFold(c, s)
    case More(d) => BegunPromises(d.sw, s, h);
    case LineEnd(_) =>
    case HeadEnd(_) =>
    case Bad => BadBreaksPromise(c, s);
  }

  lemma BegunPromises(sw: Sw, s: seq<Byte>, h: Header)
    requires Begun(sw, s, h)
    ensures PromisingLine(s)
  {
    EmptyTexts();
    if sw == Name {
      var g := Header(h.name, false, [], [], [], [LF]);
      assert HeaderText(g) == h.name + [LF];
      assert ProperHeader(g) && s <= HeaderText(g);
    } else if sw == AlmostDone {
      var g := h.(eol := [CR, LF]);
      assert HeaderText(g) == s + [LF];
      assert ProperHeader(g) && s <= HeaderText(g);
    } else if sw in {SpaceBeforeValue, Value, SpaceAfterValue} {
      var g := h.(eol := [LF]);
      assert HeaderText(g) == s + [LF];
      assert ProperHeader(g) && s <= HeaderText(g);
    }
  }

  /** A line that is read without being refused can be cut and continued at will. */
  lemma BadBreaksPromise(c: Ctx, s: seq<Byte>)
    requires c.stage == Headers && c.sw == Start && LineFold(c, s).Bad?
    ensures !PromisingLine(s)
  {
    hide LineFold, ProperHeader, HeaderText;
    if PromisingLine(s) {
      if s <= [LF] || [LF] <= s {
        BlankFold(c, [LF]);
        Comparable(c, s, [LF]);
      } else if s <= [CR, LF] || [CR, LF] <= s {
        BlankFold(c, [CR, LF]);
        Comparable(c, s, [CR, LF]);
      } else {
        var h :| ProperHeader(h) && (HeaderText(h) <= s || s <= HeaderText(h));
        HeaderFold(c, h);
        Comparable(c, s, HeaderText(h));
      }
    }
  }

  /** Two texts of which one begins the other cannot be refused and read to an end. */
  lemma Comparable(c: Ctx, s: seq<Byte>, t: seq<Byte>)
    requires s <= t || t <= s
    requires LineFold(c, t).LineEnd? || LineFold(c, t).HeadEnd?
    ensures !LineFold(c, s).Bad?
  {
    hide LineFold;
    if s <= t {
      assert t == s + t[|s|..];
      LineJoin(c, s, t[|s|..]);
    } else {
      assert s == t + s[|t|..];
      LineJoin(c, t, s[|t|..]);
    }
  }

  /** A stretch of a line that leaves the automaton within a name or a value. */
  lemma {:induction false} StretchFold(c: Ctx, s: seq<Byte>)
    requires if c.sw == Name then forall i :: 0 <= i < |s| ==> IsName(s[i])
             else if c.sw == SpaceBeforeValue then Spaces(s)
             else (c.sw == Value || c.sw == SpaceAfterValue) && Text(s)
    ensures LineFold(c, s).More? && LineFold(c, s).ctx.stage == c.stage
    ensures var d := LineFold(c, s).ctx;
            d.sw == c.sw || (d.sw in {Value, SpaceAfterValue} && c.sw in {Value, SpaceAfterValue})
    decreases |s|
  {
    if s != [] {
      NotDash(s[0]);
      StretchFold(HeaderStep(c, s[0]).ctx, s[1..]);
    }
  }

  lemma BreakFold(c: Ctx, e: seq<Byte>)
    requires c.sw in {Name, SpaceBeforeValue, Value, SpaceAfterValue} && LineBreak(e)
    ensures LineFold(c, e).LineEnd?
  {
    hide LineFold;
    if e == [LF] {
      LineOne(c, LF);
    } else {
      assert e == [CR] + [LF];
      LineJoin(c, [CR], [LF]);
      LineOne(c, CR);
      LineOne(HeaderStep(c, CR).ctx, LF);
    }
  }

  lemma ValueFold(c: Ctx, s: seq<Byte>)
    requires c.sw == SpaceBeforeValue && Text(s) && (s != [] ==> s[0] != SP)
    ensures LineFold(c, s).More? && LineFold(c, s).ctx.sw in {SpaceBeforeValue, Value, SpaceAfterValue}
  {
    if s != [] { StretchFold(HeaderStep(c, s[0]).ctx, s[1..]); }
  }

  lemma NameFold(c: Ctx, s: seq<Byte>)
    requires c.sw == Start && FirstName(s)
    ensures LineFold(c, s).More? && LineFold(c, s).ctx.sw == Name
  {
    NotDash(s[0]);
    StretchFold(HeaderStep(c, s[0]).ctx, s[1..]);
  }

  lemma ColonFold(c: Ctx)
    requires c.sw == Name
    ensures LineFold(c, [COLON]).More? && LineFold(c, [COLON]).ctx.sw == SpaceBeforeValue
  {
    NotDash(COLON);
    LineOne(c, COLON);
  }

  lemma HeaderFold(c: Ctx, h: Header)
    requires c.sw == Start && ProperHeader(h)
    ensures LineFold(c, HeaderText(h)).LineEnd?
  {
    hide LineFold, FirstName, LineBreak;
    NameFold(c, h.name);
    var d := LineFold(c, h.name).ctx;
    if h.colon {
      var v := h.value + h.after;
      assert HeaderText(h) == h.name + ([COLON] + (h.before + (v + h.eol)));
      LineJoin(c, h.name, [COLON] + (h.before + (v + h.eol)));
      ColonFold(d);
      LineJoin(d, [COLON], h.before + (v + h.eol));
      d := LineFold(d, [COLON]).ctx;
      StretchFold(d, h.before);
      LineJoin(d, h.before, v + h.eol);
      d := LineFold(d, h.before).ctx;
      ValueFold(d, v);
      LineJoin(d, v, h.eol);
      BreakFold(LineFold(d, v).ctx, h.eol);
    } else {
      assert HeaderText(h) == h.name + h.eol;
      LineJoin(c, h.name, h.eol);
      BreakFold(d, h.eol);
    }
  }

  lemma BlankFold(c: Ctx, e: seq<Byte>)
    requires c.stage == Headers && c.sw == Start && LineBreak(e)
    ensures LineFold(c, e).HeadEnd?
  {
    hide LineFold;
    if e == [LF] {
      LineOne(c, LF);
    } else {
      assert e == [CR] + [LF];
      LineJoin(c, [CR], [LF]);
      LineOne(c, CR);
      LineOne(HeaderStep(c, CR).ctx, LF);
    }
  }
}
