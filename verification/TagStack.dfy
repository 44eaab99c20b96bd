/** autoCompleteUnclosedTag in StrFilter.php, in its NEST mode, over a list of tokens.
    How the regular expressions split and classify the text is not part of this model:
    an opening tag comes with its name, with whether that names a void element, and with
    how many prefixes of void elements occur in it beside that of its own name. */
module TagStack {
  import opened Common

  datatype Token =
    | Open(name: string, void: bool, others: nat)
    | Close(name: string)
    | Text(text: string)
    | Other(text: string)

  /** A piece of the result; an opening tag of a void element needs no closing tag. */
  datatype Piece =
    | Opened(name: string, void: bool, others: nat)
    | Closed(name: string)
    | Plain(text: string)

  /** The options: tags that do not nest, the limit on text, and the change of case. */
  datatype Options = Options(tagArray: set<string>, length: Option<int>, lower: string -> string)

  /** The variables of the loop; stop says that the text was cut. */
  datatype State = State(result: seq<Piece>, stack: seq<string>, isClosed: bool, len: nat, stop: bool)

  function Top(s: seq<string>): string
    requires s != []
  {
    s[|s| - 1]
  }

  function Pop(s: seq<string>): seq<string> { if s == [] then [] else s[..|s| - 1] }

  function PopTimes(s: seq<string>, n: nat): seq<string> { if n == 0 then s else PopTimes(Pop(s), n - 1) }

  /** mb_substr($s, 0, $n), whose negative length counts from the end. */
  function Cut(s: string, n: int): string
  {
    var m := if n >= 0 then n else |s| + n;
    s[..if m < 0 then 0 else if m > |s| then |s| else m]
  }

  // ---------------------------------------------------------------- nesting

  /** The open tags after a list of pieces, or None when a closing tag does not match. */
  function Balance(stack: seq<string>, out: seq<Piece>): Option<seq<string>>
    decreases |out|
  {
    if out == [] then Some(stack)
    else
      match Balance(stack, out[..|out| - 1])
      case None => None
      case Some(s) =>
        match out[|out| - 1]
        case Plain(_) => Some(s)
        case Opened(name, void, _) => Some(if void then s else s + [name])
        case Closed(name) => if s != [] && Top(s) == name then Some(Pop(s)) else None
  }

  predicate Nested(out: seq<Piece>) { Balance([], out) == Some([]) }

  lemma BalancePush(stack: seq<string>, out: seq<Piece>, p: Piece)
    requires Balance(stack, out).Some?
    ensures var s := Balance(stack, out).value;
            Balance(stack, out + [p]) ==
              match p
              case Plain(_) => Some(s)
              case Opened(name, void, _) => Some(if void then s else s + [name])
              case Closed(name) => if s != [] && Top(s) == name then Some(Pop(s)) else None
  {
    assert (out + [p])[..|out|] == out;
  }

  // ---------------------------------------------------------------- one token

  /** The tag on top is of those that do not nest, and something like it is open. */
  predicate ClosesFirst(st: State, o: Options) { !st.isClosed && st.stack != [] && Top(st.stack) in o.tagArray }

  /** What is open when an opening tag is pushed. */
  function Below(st: State, o: Options): seq<string> { if ClosesFirst(st, o) then Pop(st.stack) else st.stack }

  /** How often the loop over the prefixes pops: a void element always pops itself. */
  function Pops(t: Token): nat
    requires t.Open?
  {
    t.others + if t.void then 1 else 0
  }

  function Step(st: State, t: Token, o: Options): State
  {
    match t
    case Other(text) => st.(result := st.result + [Plain(text)])
    case Open(name, void, others) =>
      var r := if ClosesFirst(st, o) then st.result + [Closed(Top(st.stack))] else st.result;
      State(r + [Opened(o.lower(name), void, others)], PopTimes(Below(st, o) + [o.lower(name)], Pops(t)),
            st.isClosed && o.lower(name) !in o.tagArray, st.len, st.stop)
    case Close(name) =>
      if st.stack != [] && Top(st.stack) == o.lower(name)
      then st.(result := st.result + [Closed(o.lower(name))], stack := Pop(st.stack), isClosed := true)
      else st
    case Text(text) =>
      if o.length.None? || st.len + |text| < o.length.value
      then st.(result := st.result + [Plain(text)], len := st.len + |text|)
      else st.(result := st.result + [Plain(Cut(text, o.length.value - st.len + 1))], stop := true)
  }

  function Fold(st: State, tokens: seq<Token>, o: Options): State
    decreases |tokens|
  {
    if tokens == [] || st.stop then st else Fold(Step(st, tokens[0], o), tokens[1..], o)
  }

  /** The closing tags of all that is open. */
  function CloseAll(out: seq<Piece>, stack: seq<string>): seq<Piece>
    decreases |stack|
  {
    if stack == [] then out else CloseAll(out + [Closed(Top(stack))], Pop(stack))
  }

  const START := State([], [], true, 0, false)

  /** The loop pops as often as it should: no prefix but the own one occurs in the tag, or
      there is nothing to pop below a void element. */
  predicate Fair(st: State, t: Token, o: Options) { t.Open? ==> t.others == 0 || (t.void && Below(st, o) == []) }

  /** Every opening tag that is read is fair. */
  predicate AllFair(st: State, tokens: seq<Token>, o: Options)
    decreases |tokens|
  {
    tokens == [] || st.stop || (Fair(st, tokens[0], o) && AllFair(Step(st, tokens[0], o), tokens[1..], o))
  }

  /** autoCompleteUnclosedTag */
  method AutoComplete(tokens: seq<Token>, o: Options) returns (result: seq<Piece>)
    ensures var st := Fold(START, tokens, o); result == CloseAll(st.result, st.stack)
    ensures Nested(result) <==> AllFair(START, tokens, o)
  {
    result := [];
    var tagStack: seq<string> := [];
    var isClosed, len: nat, i := true, 0, 0;
    while i < |tokens|
      invariant i <= |tokens|
      invariant Fold(State(result, tagStack, isClosed, len, false), tokens[i..], o) == Fold(START, tokens, o)
    {
      var tag := tokens[i];
      ghost var st := State(result, tagStack, isClosed, len, false);
      assert tokens[i..][0] == tag && tokens[i..][1..] == tokens[i + 1..];
      match tag {
        case Other(text) =>
          result := result + [Plain(text)];
        case Open(name, void, others) =>
          if !isClosed {
            if tagStack != [] && Top(tagStack) in o.tagArray {
              result := result + [Closed(Top(tagStack))];
              tagStack := Pop(tagStack);
            }
          }
          var matchLower := o.lower(name);
          result := result + [Opened(matchLower, void, others)];
          tagStack := tagStack + [matchLower];
          tagStack := PopVoids(tagStack, others + if void then 1 else 0);
          if matchLower in o.tagArray {
            isClosed := false;
          }
        case Close(name) =>
          var matchLower := o.lower(name);
          if tagStack != [] && Top(tagStack) == matchLower {
            isClosed := true;
            result := result + [Closed(matchLower)];
            tagStack := Pop(tagStack);
          }
        case Text(text) =>
          if o.length.None? || len + |text| < o.length.value {
            result := result + [Plain(text)];
            len := len + |text|;
          } else {
            result := result + [Plain(Cut(text, o.length.value - len + 1))];
            assert Step(st, tag, o) == State(result, tagStack, isClosed, len, true);
            break;
          }
      }
      assert Step(st, tag, o) == State(result, tagStack, isClosed, len, false);
      i := i + 1;
    }
    ghost var end := Fold(START, tokens, o);
    assert result == end.result && tagStack == end.stack;
    result := CloseTags(result, tagStack);
    NestedIff(tokens, o);
  }

  /** The last loop. */
  method CloseTags(open: seq<Piece>, stack: seq<string>) returns (result: seq<Piece>)
    ensures result == CloseAll(open, stack)
  {
    result := open;
    var tagStack := stack;
    while tagStack != []
      invariant CloseAll(result, tagStack) == CloseAll(open, stack)
      decreases |tagStack|
    {
      result := result + [Closed(Top(tagStack))];
      tagStack := Pop(tagStack);
    }
  }

  /** The loop over the prefixes of void elements. */
  method PopVoids(stack: seq<string>, voids: nat) returns (s: seq<string>)
    ensures s == PopTimes(stack, voids)
  {
    s := stack;
    for n := 0 to voids
      invariant PopTimes(s, voids - n) == PopTimes(stack, voids)
    {
      s := Pop(s);
    }
  }

  // ---------------------------------------------------------------- what it guarantees

  /** The stack stays what the result so far leaves open, as long as the tags are fair. */
  lemma StepBalanced(st: State, t: Token, o: Options)
    requires Balance([], st.result) == Some(st.stack) && Fair(st, t, o)
    ensures Balance([], Step(st, t, o).result) == Some(Step(st, t, o).stack)
  {
    hide Balance, PopTimes;
    match t
    case Other(text) => BalancePush([], st.result, Plain(text));
    case Open(name, void, others) =>
      var r := if ClosesFirst(st, o) then st.result + [Closed(Top(st.stack))] else st.result;
      if ClosesFirst(st, o) { BalancePush([], st.result, Closed(Top(st.stack))); }
      BalancePush([], r, Opened(o.lower(name), void, others));
      FairPops(Below(st, o), o.lower(name), void, others);
    case Close(name) => BalancePush([], st.result, Closed(o.lower(name)));
    case Text(text) =>
      BalancePush([], st.result, Plain(text));
      BalancePush([], st.result, Step(st, t, o).result[|st.result|]);
  }

  lemma FairPops(s: seq<string>, name: string, void: bool, others: nat)
    requires others == 0 || (void && s == [])
    ensures PopTimes(s + [name], others + if void then 1 else 0) == if void then s else s + [name]
  {
    PopTimesLength(s + [name], others + if void then 1 else 0);
    assert Pop(s + [name]) == s;
    if void && others == 0 { assert PopTimes(s + [name], 1) == PopTimes(s, 0); }
  }

  lemma {:induction false} PopTimesLength(s: seq<string>, n: nat)
    ensures |PopTimes(s, n)| == if n < |s| then |s| - n else 0
  {
    if n > 0 { PopTimesLength(Pop(s), n - 1); }
  }

  lemma {:induction false} FoldBalanced(st: State, tokens: seq<Token>, o: Options)
    requires Balance([], st.result) == Some(st.stack) && AllFair(st, tokens, o)
    ensures Balance([], Fold(st, tokens, o).result) == Some(Fold(st, tokens, o).stack)
    decreases |tokens|
  {
    hide Balance, Step, Fair;
    if tokens != [] && !st.stop {
      StepBalanced(st, tokens[0], o);
      FoldBalanced(Step(st, tokens[0], o), tokens[1..], o);
    }
  }

  lemma {:induction false} CloseAllNested(out: seq<Piece>, stack: seq<string>)
    requires Balance([], out) == Some(stack)
    ensures Nested(CloseAll(out, stack))
    decreases |stack|
  {
    if stack != [] {
      BalancePush([], out, Closed(Top(stack)));
      CloseAllNested(out + [Closed(Top(stack))], Pop(stack));
    }
  }

  // ---------------------------------------------------------------- and when it does not

  /** Opening tags that need a closing tag, less the closing tags. */
  function Unclosed(out: seq<Piece>): int
    decreases |out|
  {
    if out == [] then 0 else Unclosed(out[..|out| - 1]) + Weight(out[|out| - 1])
  }

  function Weight(p: Piece): int { if p.Closed? then -1 else if p.Opened? && !p.void then 1 else 0 }

  lemma UnclosedPush(out: seq<Piece>, p: Piece)
    ensures Unclosed(out + [p]) == Unclosed(out) + Weight(p)
  {
    assert (out + [p])[..|out|] == out;
  }

  lemma {:induction false} BalanceCounts(out: seq<Piece>)
    requires Balance([], out).Some?
    ensures Unclosed(out) == |Balance([], out).value|
    decreases |out|
  {
    if out != [] { BalanceCounts(out[..|out| - 1]); }
  }

  lemma {:induction false} CloseAllUnclosed(out: seq<Piece>, stack: seq<string>)
    ensures Unclosed(CloseAll(out, stack)) == Unclosed(out) - |stack|
    decreases |stack|
  {
    hide Unclosed;
    if stack != [] {
      UnclosedPush(out, Closed(Top(stack)));
      CloseAllUnclosed(out + [Closed(Top(stack))], Pop(stack));
    }
  }

  /** The tags the result leaves open and the stack has lost. */
  function Lost(st: State): int { Unclosed(st.result) - |st.stack| }

  /** No step finds a lost tag again, and an unfair tag loses one. */
  lemma StepLost(st: State, t: Token, o: Options)
    ensures Lost(Step(st, t, o)) >= Lost(st) + if Fair(st, t, o) then 0 else 1
  {
    hide PopTimes, Unclosed;
    match t
    case Other(text) => UnclosedPush(st.result, Plain(text));
    case Open(name, void, others) =>
      var r := if ClosesFirst(st, o) then st.result + [Closed(Top(st.stack))] else st.result;
      if ClosesFirst(st, o) { UnclosedPush(st.result, Closed(Top(st.stack))); }
      UnclosedPush(r, Opened(o.lower(name), void, others));
      PopTimesLength(Below(st, o) + [o.lower(name)], Pops(t));
    case Close(name) => UnclosedPush(st.result, Closed(o.lower(name)));
    case Text(text) =>
      UnclosedPush(st.result, Plain(text));
      UnclosedPush(st.result, Step(st, t, o).result[|st.result|]);
  }

  lemma {:induction false} FoldLost(st: State, tokens: seq<Token>, o: Options)
    ensures Lost(Fold(st, tokens, o)) >= Lost(st) + if AllFair(st, tokens, o) then 0 else 1
    decreases |tokens|
  {
    hide Lost, Step, Fair;
    if tokens != [] && !st.stop {
      StepLost(st, tokens[0], o);
      FoldLost(Step(st, tokens[0], o), tokens[1..], o);
    }
  }

  /** The completed text is nested exactly when every opening tag that was read was fair. */
  lemma NestedIff(tokens: seq<Token>, o: Options)
    ensures var st := Fold(START, tokens, o);
            Nested(CloseAll(st.result, st.stack)) <==> AllFair(START, tokens, o)
  {
    hide Fold, AllFair, CloseAll;
    var st := Fold(START, tokens, o);
    if AllFair(START, tokens, o) {
      FoldBalanced(START, tokens, o);
      CloseAllNested(st.result, st.stack);
    } else {
      FoldLost(START, tokens, o);
      CloseAllUnclosed(st.result, st.stack);
      if Nested(CloseAll(st.result, st.stack)) { BalanceCounts(CloseAll(st.result, st.stack)); }
    }
  }

  /** An attribute that holds the prefix of a void element is enough to lose a tag. */
  lemma LostTag(o: Options, name: string, void: bool)
    ensures var st := Fold(START, [Open("div", false, 0), Open(name, void, 1)], o);
            Nested(CloseAll(st.result, st.stack)) <==> (void && o.lower("div") in o.tagArray)
  {
    hide CloseAll, Balance;
    var tokens := [Open("div", false, 0), Open(name, void, 1)];
    NestedIff(tokens, o);
    assert tokens[1..] == [Open(name, void, 1)] && tokens[1..][1..] == [];
    FairPops([], o.lower("div"), false, 0);
    var a := Step(START, tokens[0], o);
    assert a.stack == [o.lower("div")];
    assert AllFair(a, tokens[1..], o) == Fair(a, tokens[1], o);
  }

  // ---------------------------------------------------------------- text and comments

  /** What is neither an opening nor a closing tag, in order. */
  function Words(tokens: seq<Token>): seq<string>
  {
    if tokens == [] then []
    else
      var t := tokens[|tokens| - 1];
      Words(tokens[..|tokens| - 1]) + if t.Text? || t.Other? then [t.text] else []
  }

  function Plains(out: seq<Piece>): seq<string>
  {
    if out == [] then []
    else
      var p := out[|out| - 1];
      Plains(out[..|out| - 1]) + if p.Plain? then [p.text] else []
  }

  /** The length of the text alone, which the limit is about. */
  function TextLength(tokens: seq<Token>): nat
  {
    if tokens == [] then 0
    else
      var t := tokens[|tokens| - 1];
      TextLength(tokens[..|tokens| - 1]) + if t.Text? then |t.text| else 0
  }

  lemma WordsPush(tokens: seq<Token>, t: Token)
    ensures Words(tokens + [t]) == Words(tokens) + if t.Text? || t.Other? then [t.text] else []
    ensures TextLength(tokens + [t]) == TextLength(tokens) + if t.Text? then |t.text| else 0
  {
    assert (tokens + [t])[..|tokens|] == tokens;
  }

  lemma PlainsPush(out: seq<Piece>, p: Piece)
    ensures Plains(out + [p]) == Plains(out) + if p.Plain? then [p.text] else []
  {
    assert (out + [p])[..|out|] == out;
  }

  /** The text with which the limit is reached is cut one character behind it; with a limit
      below what has been read, that counts from the end. */
  function Kept(text: string, before: nat, limit: int): (s: string)
    ensures s <= text
    ensures before + |text| <= limit + 1 ==> s == text
    ensures before <= limit + 1 < before + |text| ==> before + |s| == limit + 1
    ensures limit + 1 < before ==> |s| == if |text| + limit + 1 < before then 0 else |text| + limit + 1 - before
  {
    Cut(text, limit - before + 1)
  }

  /** The first n tokens have been read in full, and if n is not all of them, the next is
      the text with which the limit is reached. */
  ghost predicate UpTo(st: State, tokens: seq<Token>, o: Options, n: nat)
    requires n <= |tokens|
  {
    && st.len == TextLength(tokens[..n])
    && (o.length.Some? ==> st.len == 0 || st.len < o.length.value)
    && if n == |tokens| then !st.stop && Plains(st.result) == Words(tokens)
       else
         && st.stop && o.length.Some? && tokens[n].Text?
         && TextLength(tokens[..n]) + |tokens[n].text| >= o.length.value
         && Plains(st.result) == Words(tokens[..n]) + [Kept(tokens[n].text, st.len, o.length.value)]
  }

  lemma StepUpTo(st: State, tokens: seq<Token>, t: Token, o: Options)
    requires UpTo(st, tokens, o, |tokens|)
    ensures UpTo(Step(st, t, o), tokens + [t], o, if Step(st, t, o).stop then |tokens| else |tokens| + 1)
  {
    hide Plains, Words, TextLength, PopTimes, Cut;
    var all := tokens + [t];
    assert all[..|tokens|] == tokens && all[..|all|] == all && tokens[..|tokens|] == tokens;
    WordsPush(tokens, t);
    match t
    case Other(text) => PlainsPush(st.result, Plain(text));
    case Open(name, void, others) =>
      var r := if ClosesFirst(st, o) then st.result + [Closed(Top(st.stack))] else st.result;
      if ClosesFirst(st, o) { PlainsPush(st.result, Closed(Top(st.stack))); }
      PlainsPush(r, Opened(o.lower(name), void, others));
    case Close(name) => PlainsPush(st.result, Closed(o.lower(name)));
    case Text(text) => PlainsPush(st.result, Step(st, t, o).result[|st.result|]);
  }

  /** Text and comments come through unchanged and in order up to the text with which the
      limit is reached, which is cut; nothing behind it does. */
  lemma {:induction false} TextKept(tokens: seq<Token>, o: Options) returns (n: nat)
    ensures n <= |tokens| && UpTo(Fold(START, tokens, o), tokens, o, n)
    decreases |tokens|
  {
    hide Step, UpTo;
    if tokens == [] {
      n := 0;
      NothingYet(o);
    } else {
      var front, t := tokens[..|tokens| - 1], tokens[|tokens| - 1];
      assert tokens == front + [t];
      n := TextKept(front, o);
      FoldPush(START, front, t, o);
      var st := Fold(START, front, o);
      UpToStops(st, front, o, n);
      if n == |front| {
        StepUpTo(st, front, t, o);
        if !Step(st, t, o).stop { n := n + 1; }
      } else {
        UpToMore(st, front, t, o, n);
      }
    }
  }

  lemma NothingYet(o: Options)
    ensures UpTo(Fold(START, [], o), [], o, 0)
  {
  }

  lemma UpToStops(st: State, tokens: seq<Token>, o: Options, n: nat)
    requires n <= |tokens| && UpTo(st, tokens, o, n)
    ensures st.stop <==> n < |tokens|
  {
  }

  lemma UpToMore(st: State, tokens: seq<Token>, t: Token, o: Options, n: nat)
    requires n < |tokens| && UpTo(st, tokens, o, n)
    ensures UpTo(st, tokens + [t], o, n)
  {
    assert (tokens + [t])[..n] == tokens[..n] && (tokens + [t])[n] == tokens[n];
  }

  /** The closing tags at the end add no text. */
  lemma {:induction false} CloseAllPlains(out: seq<Piece>, stack: seq<string>)
    ensures Plains(CloseAll(out, stack)) == Plains(out)
    decreases |stack|
  {
    hide Plains;
    if stack != [] {
      PlainsPush(out, Closed(Top(stack)));
      CloseAllPlains(out + [Closed(Top(stack))], Pop(stack));
    }
  }

  // ---------------------------------------------------------------- nothing to do

  /** A piece as a token, and the other way round. */
  function TokenOf(p: Piece): Token
  {
    match p
    case Opened(name, void, others) => Open(name, void, others)
    case Closed(name) => Close(name)
    case Plain(text) => Text(text)
  }

  function TokensOf(out: seq<Piece>): (t: seq<Token>)
    ensures |t| == |out| && forall i :: 0 <= i < |out| ==> t[i] == TokenOf(out[i])
  {
    seq(|out|, i requires 0 <= i < |out| => TokenOf(out[i]))
  }

  /** Nested tags in the wanted case, nothing kept from nesting and no limit: the text
      comes out as it went in. */
  lemma {:induction false} NestedUnchanged(out: seq<Piece>, o: Options)
    requires Balance([], out).Some? && o.tagArray == {} && o.length == None && AllFair(START, TokensOf(out), o)
    requires forall p :: p in out && !p.Plain? ==> o.lower(p.name) == p.name
    ensures var st := Fold(START, TokensOf(out), o);
            st.result == out && st.stack == Balance([], out).value && st.isClosed && !st.stop
    decreases |out|
  {
    hide Fold, Step, AllFair, Fair;
    if out == [] {
      FoldNone(START, o);
    } else {
      var n := |out| - 1;
      var front, p := out[..n], out[n];
      assert TokensOf(out) == TokensOf(front) + [TokenOf(p)];
      FairPush(START, TokensOf(front), TokenOf(p), o);
      NestedUnchanged(front, o);
      FoldPush(START, TokensOf(front), TokenOf(p), o);
      assert out == front + [p] && p in out;
      StepNested(Fold(START, TokensOf(front), o), p, o);
    }
  }

  lemma StepNested(st: State, p: Piece, o: Options)
    requires Balance([], st.result) == Some(st.stack) && Balance([], st.result + [p]).Some?
    requires st.isClosed && !st.stop && Fair(st, TokenOf(p), o)
    requires o.tagArray == {} && o.length == None && (!p.Plain? ==> o.lower(p.name) == p.name)
    ensures var d := Step(st, TokenOf(p), o);
            d.result == st.result + [p] && Some(d.stack) == Balance([], st.result + [p]) && d.isClosed && !d.stop
  {
    hide Balance, PopTimes;
    BalancePush([], st.result, p);
    if p.Opened? { FairPops(st.stack, p.name, p.void, p.others); }
  }

  lemma FoldNone(st: State, o: Options)
    ensures Fold(st, [], o) == st
  {
  }

  lemma {:induction false} FoldPush(st: State, tokens: seq<Token>, t: Token, o: Options)
    ensures Fold(st, tokens + [t], o) == var d := Fold(st, tokens, o); if d.stop then d else Step(d, t, o)
    decreases |tokens|
  {
    var all := tokens + [t];
    if tokens == [] {
      assert all[1..] == [];
    } else if !st.stop {
      assert all[0] == tokens[0] && all[1..] == tokens[1..] + [t];
      FoldPush(Step(st, tokens[0], o), tokens[1..], t, o);
    }
  }

  lemma {:induction false} FairPush(st: State, tokens: seq<Token>, t: Token, o: Options)
    requires AllFair(st, tokens + [t], o)
    ensures AllFair(st, tokens, o) && (Fold(st, tokens, o).stop || Fair(Fold(st, tokens, o), t, o))
    decreases |tokens|
  {
    hide Step, Fair;
    var all := tokens + [t];
    if tokens != [] && !st.stop {
      assert all[0] == tokens[0] && all[1..] == tokens[1..] + [t];
      FairPush(Step(st, tokens[0], o), tokens[1..], t, o);
    }
  }

  /** Reading a result again leads to where it was made. */
  predicate Replays(st: State, o: Options)
  {
    var d := Fold(START, TokensOf(st.result), o);
    d.result == st.result && d.stack == st.stack && d.isClosed && !d.stop
  }

  /** A piece that the loop would add to a result it reads again. */
  lemma ReplaysPush(st: State, p: Piece, next: State, o: Options)
    requires Replays(st, o) && o.tagArray == {} && o.length == None
    requires !p.Plain? ==> o.lower(p.name) == p.name
    requires p.Closed? ==> st.stack != [] && Top(st.stack) == p.name
    requires next.result == st.result + [p]
    requires next.stack == match p
               case Opened(name, void, others) => PopTimes(st.stack + [name], Pops(TokenOf(p)))
               case Closed(name) => Pop(st.stack)
               case Plain(_) => st.stack
    ensures Replays(next, o)
  {
    hide Fold, PopTimes;
    assert TokensOf(next.result) == TokensOf(st.result) + [TokenOf(p)];
    FoldPush(START, TokensOf(st.result), TokenOf(p), o);
  }

  /** Changing the case twice changes nothing more. */
  predicate LowersOnce(tokens: seq<Token>, lower: string -> string)
  {
    forall t :: t in tokens && !t.Text? && !t.Other? ==> lower(lower(t.name)) == lower(t.name)
  }

  predicate Lowered(stack: seq<string>, lower: string -> string) { forall s :: s in stack ==> lower(s) == s }

  lemma StepReplays(st: State, t: Token, o: Options)
    requires Replays(st, o) && o.tagArray == {} && o.length == None
    requires LowersOnce([t], o.lower) && Lowered(st.stack, o.lower)
    ensures var d := Step(st, t, o); Replays(d, o) && Lowered(d.stack, o.lower)
  {
    hide Replays, PopTimes;
    assert t in [t];
    var d := Step(st, t, o);
    match t
    case Other(text) => ReplaysPush(st, Plain(text), d, o);
    case Open(name, void, others) =>
      ReplaysPush(st, Opened(o.lower(name), void, others), d, o);
      PopTimesFrom(st.stack + [o.lower(name)], Pops(t));
    case Close(name) => if d != st { ReplaysPush(st, Closed(o.lower(name)), d, o); }
    case Text(text) => ReplaysPush(st, Plain(text), d, o);
  }

  lemma {:induction false} PopTimesFrom(s: seq<string>, n: nat)
    ensures forall x :: x in PopTimes(s, n) ==> x in s
  {
    if n > 0 { PopTimesFrom(Pop(s), n - 1); }
  }

  lemma {:induction false} FoldReplays(st: State, tokens: seq<Token>, o: Options)
    requires Replays(st, o) && o.tagArray == {} && o.length == None
    requires LowersOnce(tokens, o.lower) && Lowered(st.stack, o.lower)
    ensures var d := Fold(st, tokens, o); Replays(d, o) && Lowered(d.stack, o.lower)
    decreases |tokens|
  {
    hide Step, Replays, Lowered;
    if tokens != [] && !st.stop {
      StepReplays(st, tokens[0], o);
      FoldReplays(Step(st, tokens[0], o), tokens[1..], o);
    }
  }

  lemma {:induction false} CloseAllReplays(st: State, o: Options)
    requires Replays(st, o) && o.tagArray == {} && o.length == None && Lowered(st.stack, o.lower)
    ensures Replays(st.(result := CloseAll(st.result, st.stack), stack := []), o)
    decreases |st.stack|
  {
    hide Replays;
    if st.stack != [] {
      var p := Closed(Top(st.stack));
      var next := st.(result := st.result + [p], stack := Pop(st.stack));
      ReplaysPush(st, p, next, o);
      CloseAllReplays(next, o);
    }
  }

  /** So completing a completed text again changes nothing, nested or not. */
  lemma Idempotent(tokens: seq<Token>, o: Options)
    requires o.tagArray == {} && o.length == None && LowersOnce(tokens, o.lower)
    ensures var st := Fold(START, tokens, o);
            var result := CloseAll(st.result, st.stack);
            var again := Fold(START, TokensOf(result), o);
            CloseAll(again.result, again.stack) == result
  {
    var st := Fold(START, tokens, o);
    FoldReplays(START, tokens, o);
    CloseAllReplays(st, o);
  }
}
