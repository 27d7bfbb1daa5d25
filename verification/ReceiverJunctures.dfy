/**
 Which blanks a client may leave out between two arguments.

 `ReceiverRoundTrip` shows that a joined list comes back.  Here: no other list does.  Where an item does not join
 what stands before it, the bytes of the two run into one argument, and no continuation repairs that.
 */
module ReceiverJunctures {
  import opened Common
  import opened Machine
  import opened Receiver
  import opened ReceiverRoundTrip

  // ----- The first request or error -----------------------------------------------------------

  /** The first event that is no prompt. */
  function FirstEnd<C>(events: seq<Event<C>>): Option<Event<C>> {
    if events == [] then None
    else if events[0].NeedsLiteral? then FirstEnd(events[1..])
    else Some(events[0])
  }

  lemma {:induction false} EndJoins<C>(a: seq<Event<C>>, b: seq<Event<C>>)
    ensures FirstEnd(a + b) == if FirstEnd(a).Some? then FirstEnd(a) else FirstEnd(b)
  {
    if a == [] {
      assert a + b == b;
    } else {
      assert (a + b)[1..] == a[1..] + b;
      EndJoins(a[1..], b);
    }
  }

  lemma {:induction false} PromptsEnd<C>(items: seq<Item>, last: Event<C>)
    requires !last.NeedsLiteral?
    ensures FirstEnd(Prompts<C>(items) + [last]) == Some(last)
  {
    if items == [] {
      assert Prompts<C>(items) + [last] == [last];
    } else {
      PromptsEnd(items[1..], last);
      EndJoins(ItemPrompt(items[0]), Prompts(items[1..]) + [last]);
      Associates(ItemPrompt<C>(items[0]), Prompts(items[1..]), [last]);
    }
  }

  /** The run reports a request, and `token` is its token number `k`. */
  predicate Answers<C>(events: seq<Event<C>>, k: nat, token: Token) {
    match FirstEnd(events)
    case Some(Done(request)) => k < |request.tokens| && request.tokens[k] == token
    case _ => false
  }

  // ----- A receiver that can no longer answer -------------------------------------------------

  predicate BreakByte(ch: byte, brackets: bool) { Blank(ch) || Punctuates(ch, brackets) }

  predicate Unbroken(s: seq<byte>, brackets: bool) {
    forall i :: 0 <= i < |s| ==> !BreakByte(s[i], brackets)
  }

  /** Inside or right behind the text of an argument. */
  ghost predicate InText<C>(cfg: Config<C>, r: Core<C>) {
    && r.state.InArgument?
    && !Blank(r.state.lastCh)
    && (r.buf != [] ==> r.state.lastCh == r.buf[|r.buf| - 1])
    && Unbroken(r.buf, cfg.tokenizeBrackets(r.request.command))
  }

  /** The buffered text is not `token` and cannot become it. */
  ghost predicate Swollen<C>(cfg: Config<C>, r: Core<C>, token: Token) {
    && InText(cfg, r)
    && r.buf != [] && r.buf != [TILDE]
    && (token.Argument? ==>
          || !Unbroken(token.bytes, cfg.tokenizeBrackets(r.request.command))
          || (|token.bytes| <= |r.buf| && token.bytes != r.buf))
  }

  /** Token number `k` is not, and will not be, `token`. */
  ghost predicate Spoilt<C>(cfg: Config<C>, r: Core<C>, k: nat, token: Token) {
    var tokens := r.request.tokens;
    || (k < |tokens| && tokens[k] != token)
    || (k == |tokens| && Swollen(cfg, r, token))
  }

  lemma TextStep<C>(cfg: Config<C>, r: Core<C>, ch: byte)
    requires InText(cfg, r) && !BreakByte(ch, cfg.tokenizeBrackets(r.request.command))
    requires ch == BRACE_OPEN ==> r.buf != [TILDE]
    ensures Step(cfg, r, ch) == Buffer(cfg, r, ch, ARG_MAX_LEN, ArgumentTooLong, InArgument(ch))
    ensures InText(cfg, r.(buf := r.buf + [ch], state := InArgument(ch)))
  {}

  lemma BreakStep<C>(cfg: Config<C>, r: Core<C>, ch: byte)
    requires InText(cfg, r) && r.buf != [] && BreakByte(ch, cfg.tokenizeBrackets(r.request.command))
    ensures var o := Step(cfg, r, ch);
            match o.event
            case None => |o.core.request.tokens| > |r.request.tokens|
                         && o.core.request.tokens[..|r.request.tokens| + 1] == r.request.tokens + [Argument(r.buf)]
            case Some(Done(request)) => request.tokens == r.request.tokens + [Argument(r.buf)]
            case Some(e) => e.Failure?
  {}

  /** Tokens are only ever added. */
  lemma TokensStay<C>(cfg: Config<C>, r: Core<C>, ch: byte)
    ensures var o := Step(cfg, r, ch);
            match o.event
            case Some(Done(request)) => r.request.tokens <= request.tokens
            case Some(Failure(_, _)) => true
            case _ => r.request.tokens <= o.core.request.tokens
  {
    match r.state
    case InArgument(lastCh) =>
      assert Step(cfg, r, ch) == StepArgument(cfg, r, lastCh, ch);
      hide Step;
    case _ => hide StepArgument;
  }

  lemma SpoiltStays<C>(cfg: Config<C>, r: Core<C>, ch: byte, k: nat, token: Token)
    requires Spoilt(cfg, r, k, token)
    ensures var o := Step(cfg, r, ch);
            match o.event
            case Some(Done(request)) => !(k < |request.tokens| && request.tokens[k] == token)
            case Some(Failure(_, _)) => true
            case _ => Spoilt(cfg, o.core, k, token)
  {
    hide Step, BreakByte;
    TokensStay(cfg, r, ch);
    if k == |r.request.tokens| {
      if BreakByte(ch, cfg.tokenizeBrackets(r.request.command)) {
        BreakStep(cfg, r, ch);
      } else {
        TextStep(cfg, r, ch);
      }
    }
  }

  lemma {:induction false} SpoiltRun<C>(cfg: Config<C>, r: Core<C>, bytes: seq<byte>, k: nat, token: Token)
    requires Spoilt(cfg, r, k, token)
    ensures !Answers(Feed(cfg, r, bytes).events, k, token)
    decreases |bytes|
  {
    hide Step, Spoilt;
    if bytes != [] {
      var o := Step(cfg, r, bytes[0]);
      SpoiltStays(cfg, r, bytes[0], k, token);
      if o.event == None || o.event.value.NeedsLiteral? {
        SpoiltRun(cfg, o.core, bytes[1..], k, token);
      }
      EndJoins(EventSeq(o.event), Feed(cfg, o.core, bytes[1..]).events);
    }
  }

  /** What was read so far is spoilt: nothing behind it helps. */
  lemma SpoiltBehind<C>(cfg: Config<C>, r: Core<C>, a: seq<byte>, r': Core<C>, e: seq<Event<C>>, b: seq<byte>, k: nat, token: Token)
    requires Feed(cfg, r, a) == Trace(r', e) && FirstEnd(e) == None && Spoilt(cfg, r', k, token)
    ensures !Answers(Feed(cfg, r, a + b).events, k, token)
  {
    hide Step, Run, Spoilt;
    SpoiltRun(cfg, r', b, k, token);
    RunSplits(Stepper(cfg), r, a, b);
    EndJoins(e, Feed(cfg, r', b).events);
  }

  /** Text without a break outgrows the argument that should have been read. */
  lemma {:induction false} Outgrows<C>(cfg: Config<C>, r: Core<C>, text: seq<byte>, rest: seq<byte>, s: seq<byte>)
    requires InText(cfg, r) && Unbroken(text, cfg.tokenizeBrackets(r.request.command))
    requires text != [] && (text[0] == BRACE_OPEN ==> r.buf != [TILDE])
    requires |r.buf| + |text| >= 2 && |s| < |r.buf| + |text|
    requires r.buf == [] ==> text[0] != TILDE
    ensures !Answers(Feed(cfg, r, text + rest).events, |r.request.tokens|, Argument(s))
    decreases |text|
  {
    hide Step, BreakByte;
    var r' := r.(buf := r.buf + [text[0]], state := InArgument(text[0]));
    TextStep(cfg, r, text[0]);
    assert (text + rest)[1..] == text[1..] + rest;
    if |r.buf| < ARG_MAX_LEN {
      assert Feed(cfg, r, text + rest).events == Feed(cfg, r', text[1..] + rest).events;
      if |text| == 1 {
        SpoiltRun(cfg, r', text[1..] + rest, |r.request.tokens|, Argument(s));
      } else {
        Outgrows(cfg, r', text[1..], rest, s);
      }
    }
  }

  // ----- Items that do not join ---------------------------------------------------------------

  /** A value right behind an atom runs into it. */
  lemma AtomRunsOn<C>(cfg: Config<C>, r: Core<C>, item: Item, rest: seq<byte>)
    requires At(cfg, r, InAtom) && IsValue(item) && LegalItem(item, cfg.tokenizeBrackets(r.request.command))
    requires r.buf == [TILDE] ==> !item.form.Counted? || item.form.binary
    ensures !Answers(Feed(cfg, r, PrintItem(item) + rest).events, |r.request.tokens|, Argument(r.buf))
  {
    hide Step, Run;
    var text := PrintItem(item);
    assert text + rest == [text[0]] + (text[1..] + rest);
    Outgrows(cfg, r, [text[0]], text[1..] + rest, r.buf);
  }

  lemma {:induction false} EscapeUnbroken(s: seq<byte>, brackets: bool)
    requires Unbroken(s, brackets)
    ensures Unbroken(Escape(s), brackets) && |Escape(s)| >= |s|
  {
    if s != [] {
      EscapeUnbroken(s[..|s| - 1], brackets);
    }
  }

  /** A quoted string that follows no separator is read as an atom, quotes included. */
  lemma QuoteIsText<C>(cfg: Config<C>, r: Core<C>, item: Item, rest: seq<byte>)
    requires At(cfg, r, Loud) && IsValue(item) && item.form.Quoted?
    ensures !Answers(Feed(cfg, r, PrintItem(item) + rest).events, |r.request.tokens|, item.token)
  {
    hide Step, Run, Escape;
    var s, brackets := ValueOf(item), cfg.tokenizeBrackets(r.request.command);
    var text := [QUOTE] + Escape(s) + [QUOTE];
    if item.token.Nil? || !Unbroken(s, brackets) {
      var r' := r.(buf := [QUOTE], state := InArgument(QUOTE));
      TextStep(cfg, r, QUOTE);
      assert r.buf + [QUOTE] == [QUOTE];
      RunOne(Stepper(cfg), r, QUOTE);
      SpoiltBehind(cfg, r, [QUOTE], r', [], Escape(s) + [QUOTE] + rest, |r.request.tokens|, item.token);
      assert text + rest == [QUOTE] + (Escape(s) + [QUOTE] + rest);
    } else {
      EscapeUnbroken(s, brackets);
      Outgrows(cfg, r, text, rest, s);
    }
  }

  lemma {:induction false} TextRun<C>(cfg: Config<C>, r: Core<C>, text: seq<byte>)
    requires InText(cfg, r) && r.buf == []
    requires 0 < |text| <= ARG_MAX_LEN && text[0] == BRACE_OPEN
    requires Unbroken(text, cfg.tokenizeBrackets(r.request.command))
    ensures var r' := r.(buf := text, state := InArgument(text[|text| - 1]));
            Feed(cfg, r, text) == Trace(r', []) && InText(cfg, r')
  {
    hide Step, Run, BreakByte;
    var init, last := text[..|text| - 1], text[|text| - 1];
    assert text == init + [last];
    if init == [] {
      RunNone(Stepper(cfg), r);
      TextStep(cfg, r, last);
      FeedExtends(cfg, r, init, last);
    } else {
      TextRun(cfg, r, init);
      TextStep(cfg, r.(buf := init, state := InArgument(init[|init| - 1])), last);
      FeedExtends(cfg, r, init, last);
    }
  }

  function HeaderText(size: nat, nonSync: bool): seq<byte> {
    [BRACE_OPEN] + Decimal(size) + (if nonSync then [PLUS] else []) + [BRACE_CLOSE]
  }

  lemma HeaderIsText(size: nat, nonSync: bool, brackets: bool)
    requires size <= U32_MAX
    ensures Unbroken(HeaderText(size, nonSync), brackets) && 2 < |HeaderText(size, nonSync)| <= ARG_MAX_LEN
  {
    SizeReads(size);
  }

  /** The header of a literal that follows no separator, up to the line end: read as an atom. */
  lemma HeaderRunsOn<C>(cfg: Config<C>, r: Core<C>, item: Item)
    requires At(cfg, r, Loud) && IsValue(item) && item.form.Counted? && |ValueOf(item)| <= U32_MAX
    ensures var text := HeaderText(|ValueOf(item)|, item.form.nonSync);
            var r' := r.(buf := text, state := InArgument(BRACE_CLOSE));
            Feed(cfg, r, text) == Trace(r', []) && InText(cfg, r')
  {
    hide Step, Run, AtomByte;
    HeaderIsText(|ValueOf(item)|, item.form.nonSync, cfg.tokenizeBrackets(r.request.command));
    TextRun(cfg, r, HeaderText(|ValueOf(item)|, item.form.nonSync));
  }

  /** It is the wrong argument unless the literal spells its own header. */
  lemma HeaderIsWrong<C>(cfg: Config<C>, r: Core<C>, item: Item, rest: seq<byte>)
    requires At(cfg, r, Loud) && IsValue(item) && item.form.Counted? && |ValueOf(item)| <= U32_MAX
    requires item.token != Argument(HeaderText(|ValueOf(item)|, item.form.nonSync))
    ensures var text := HeaderText(|ValueOf(item)|, item.form.nonSync);
            !Answers(Feed(cfg, r, text + ([CR] + rest)).events, |r.request.tokens|, item.token)
  {
    hide Step, Run, At, InText, HeaderText;
    var text := HeaderText(|ValueOf(item)|, item.form.nonSync);
    var r' := r.(buf := text, state := InArgument(BRACE_CLOSE));
    HeaderRunsOn(cfg, r, item);
    assert text != [] by { HeaderIsText(|ValueOf(item)|, item.form.nonSync, true); }
    LineEndSpoils(cfg, r', rest, item.token);
    RunSplits(Stepper(cfg), r, text, [CR] + rest);
    assert Feed(cfg, r, text + ([CR] + rest)).events == Feed(cfg, r', [CR] + rest).events;
  }

  lemma LineEndSpoils<C>(cfg: Config<C>, r: Core<C>, rest: seq<byte>, token: Token)
    requires r.state.InArgument? && r.buf != [] && token != Argument(r.buf)
    ensures !Answers(Feed(cfg, r, [CR] + rest).events, |r.request.tokens|, token)
  {
    assert ([CR] + rest)[1..] == rest;
    if Flushed(r).size <= cfg.maxRequestSize {
      SeparatorStep(cfg, r, CR);
      SpoiltBehind(cfg, r, [CR], Flushed(r).(state := InArgument(CR)), [], rest, |r.request.tokens|, token);
    }
  }

  /** Only a request or an error brings a receiver back to where requests start. */
  lemma {:induction false} NeverRests<C>(cfg: Config<C>, r: Core<C>, bytes: seq<byte>)
    requires cfg.startState == Start && r.state != Start
    ensures Feed(cfg, r, bytes) != Trace(Fresh(cfg), [])
    decreases |bytes|
  {
    hide Step;
    if bytes != [] {
      var o := Step(cfg, r, bytes[0]);
      StaysAway(cfg, r, bytes[0]);
      if o.event == None {
        NeverRests(cfg, o.core, bytes[1..]);
      }
    }
  }

  lemma StaysAway<C>(cfg: Config<C>, r: Core<C>, ch: byte)
    requires r.state != Start
    ensures Step(cfg, r, ch).event == None ==> Step(cfg, r, ch).core.state != Start
  {}

  /** A literal that spells its own header: the request ends with the header, and the data start another one. */
  lemma HeaderEndsEarly<C>(cfg: Config<C>, r: Core<C>, item: Item, rest: seq<byte>, items: seq<Item>, request: Request<C>)
    requires (cfg.startState == Start || cfg.startState.Command?)
    requires At(cfg, r, Loud) && IsValue(item) && item.form.Counted? && |ValueOf(item)| <= U32_MAX
    requires item.token == Argument(HeaderText(|ValueOf(item)|, item.form.nonSync))
    ensures var text := HeaderText(|ValueOf(item)|, item.form.nonSync);
            Feed(cfg, r, text + ([CR, LF] + (text + rest))) != Trace(Fresh(cfg), Prompts(items) + [Done(request)])
  {
    hide Step, Run, At, InText;
    var text := HeaderText(|ValueOf(item)|, item.form.nonSync);
    var r' := r.(buf := text, state := InArgument(BRACE_CLOSE));
    HeaderRunsOn(cfg, r, item);
    RunSplits(Stepper(cfg), r, text, [CR, LF] + (text + rest));
    EndsEarly(cfg, r', text + rest, items, request);
  }

  lemma EndsEarly<C>(cfg: Config<C>, r: Core<C>, rest: seq<byte>, items: seq<Item>, request: Request<C>)
    requires (cfg.startState == Start || cfg.startState.Command?) && r.state.InArgument? && r.buf != []
    requires rest != [] && rest[0] == BRACE_OPEN
    ensures Feed(cfg, r, [CR, LF] + rest) != Trace(Fresh(cfg), Prompts(items) + [Done(request)])
  {
    var expected := Prompts<C>(items) + [Done(request)];
    PromptsEnd(items, Done(request));
    if Flushed(r).size <= cfg.maxRequestSize {
      LineEnds(cfg, r);
      RunSplits(Stepper(cfg), r, [CR, LF], rest);
      RestNeverRests(cfg, rest);
      if items != [] && Prompts<C>(items) != [] {
        PromptFirst<C>(items);
      }
    } else {
      var o := Step(cfg, r, CR);
      assert o.event.Some? && o.event.value.Failure?;
      assert ([CR, LF] + rest)[0] == CR;
      EndJoins(EventSeq(o.event), Feed(cfg, o.core, ([CR, LF] + rest)[1..]).events);
    }
  }

  lemma RestNeverRests<C>(cfg: Config<C>, rest: seq<byte>)
    requires (cfg.startState == Start || cfg.startState.Command?) && rest != [] && rest[0] == BRACE_OPEN
    ensures Feed(cfg, Fresh(cfg), rest) != Trace(Fresh(cfg), [])
  {
    if cfg.startState == Start {
      NeverRests(cfg, Step(cfg, Fresh(cfg), BRACE_OPEN).core, rest[1..]);
    }
  }

  lemma {:induction false} PromptFirst<C>(items: seq<Item>)
    requires Prompts<C>(items) != []
    ensures Prompts<C>(items)[0].NeedsLiteral?
  {
    if ItemPrompt<C>(items[0]) == [] {
      PromptFirst<C>(items[1..]);
    }
  }

  // ----- A lone tilde -------------------------------------------------------------------------

  function Tildes(n: nat): seq<Token> {
    seq(n, _ => Argument([TILDE]))
  }

  /** The run reports a request with exactly these tokens. */
  predicate Reports<C>(events: seq<Event<C>>, tokens: seq<Token>) {
    match FirstEnd(events)
    case Some(Done(request)) => request.tokens == tokens
    case _ => false
  }

  /**
   A plain literal right behind the atom `~` is read as a binary one and the atom is lost.  From then on the
   receiver lags behind: what it reports is short of `lost` tildes, and items that are tildes do not make up for it.
   */
  lemma {:induction false} LagRun<C>(cfg: Config<C>, r: Core<C>, items: seq<Item>, place: Place, lost: nat)
    requires At(cfg, r, place) && (place == Quiet || r.buf == [TILDE])
    requires LegalItems(cfg, r.request.command, items) && Flushed(r).size + TotalCharge(items) <= cfg.maxRequestSize
    requires lost > 0
    ensures !Reports(Feed(cfg, r, PrintItems(items)).events, Flushed(r).request.tokens + Tildes(lost) + Tokens(items))
    decreases |items|, 1
  {
    hide Step, Run;
    var was := Flushed(r).request.tokens;
    if items == [] {
      LineEnds(cfg, r);
      assert |was + Tildes(lost) + Tokens(items)| > |was|;
    } else {
      hide LegalItem, Charge, At, AfterItem, PrintItem, Flushed;
      var item, rest, here := items[0], items[1..], Here(items[0], place);
      var r1 := Spaced(r, item);
      GapRun(cfg, r, item, place);
      SpacedPlace(cfg, r, item, place);
      var text := PrintItem(item) + PrintItems(rest);
      assert PrintItems(items) == Gap(item) + text;
      RunSplits(Stepper(cfg), r, Gap(item), text);
      assert Feed(cfg, r, PrintItems(items)).events == Feed(cfg, r1, text).events;
      if Joins(item, here) {
        JoinedLag(cfg, r1, item, rest, here, lost);
      } else {
        TildeRun(cfg, r1, item, rest, lost);
      }
      assert Tokens(items) == [item.token] + Tokens(rest);
    }
  }

  lemma SpacedPlace<C>(cfg: Config<C>, r: Core<C>, item: Item, place: Place)
    requires At(cfg, r, place) && (place == Quiet || r.buf == [TILDE])
    ensures Here(item, place) == Quiet || Spaced(r, item).buf == [TILDE]
    ensures Spaced(r, item).request.command == r.request.command
    ensures Flushed(Spaced(r, item)).request == Flushed(r).request && Flushed(Spaced(r, item)).size == Flushed(r).size
  {}

  lemma {:induction false} JoinedLag<C>(cfg: Config<C>, r: Core<C>, item: Item, rest: seq<Item>, here: Place, lost: nat)
    requires At(cfg, r, here) && (here == Quiet || r.buf == [TILDE]) && Joins(item, here)
    requires LegalItem(item, cfg.tokenizeBrackets(r.request.command)) && LegalItems(cfg, r.request.command, rest)
    requires Flushed(r).size + Charge(item) + TotalCharge(rest) <= cfg.maxRequestSize
    requires lost > 0
    ensures var expected := Flushed(r).request.tokens + Tildes(lost) + ([item.token] + Tokens(rest));
            !Reports(Feed(cfg, r, PrintItem(item) + PrintItems(rest)).events, expected)
    decreases |rest|, 2
  {
    hide Step, Run, LegalItem, Charge, PrintItem, PrintItems, AtomByte;
    var was, r' := Flushed(r).request.tokens, AfterItem(r, item);
    ItemRun(cfg, r, item, here);
    PromptsNothing<C>(item);
    if item.token == Argument([TILDE]) {
      LagRun(cfg, r', rest, After(item, here), lost);
      TildesMove(was, lost, Tokens(rest));
      RunSplits(Stepper(cfg), r, PrintItem(item), PrintItems(rest));
      EndJoins(ItemPrompt(item), Feed(cfg, r', PrintItems(rest)).events);
    } else {
      OtherToken(cfg, r, item, here);
      SpoiltBehind(cfg, r, PrintItem(item), r', ItemPrompt(item), PrintItems(rest), |was|, Argument([TILDE]));
    }
  }

  lemma PromptsNothing<C>(item: Item)
    ensures FirstEnd(ItemPrompt<C>(item)) == None
  {}

  lemma TildesMove(was: seq<Token>, lost: nat, rest: seq<Token>)
    ensures was + [Argument([TILDE])] + Tildes(lost) + rest == was + Tildes(lost) + ([Argument([TILDE])] + rest)
    ensures was + [Argument([TILDE])] + Tildes(lost) == was + Tildes(lost + 1)
  {}

  /** Any other item leaves something else where a tilde is due. */
  lemma OtherToken<C>(cfg: Config<C>, r: Core<C>, item: Item, here: Place)
    requires At(cfg, r, here) && (here == Quiet || r.buf == [TILDE]) && Joins(item, here)
    requires LegalItem(item, cfg.tokenizeBrackets(r.request.command)) && item.token != Argument([TILDE])
    ensures Spoilt(cfg, AfterItem(r, item), |Flushed(r).request.tokens|, Argument([TILDE]))
  {}

  /** A value right behind the atom `~`. */
  lemma {:induction false} TildeRun<C>(cfg: Config<C>, r: Core<C>, item: Item, rest: seq<Item>, lost: nat)
    requires At(cfg, r, InAtom) && r.buf == [TILDE] && IsValue(item)
    requires LegalItem(item, cfg.tokenizeBrackets(r.request.command)) && LegalItems(cfg, r.request.command, rest)
    requires Flushed(r).size + Charge(item) + TotalCharge(rest) <= cfg.maxRequestSize
    ensures var expected := Flushed(r).request.tokens + Tildes(lost) + ([item.token] + Tokens(rest));
            !Reports(Feed(cfg, r, PrintItem(item) + PrintItems(rest)).events, expected)
    decreases |rest|, 2
  {
    hide Step, Run, LegalItem, Charge, PrintItem, PrintItems, AtomByte;
    var was := r.request.tokens;
    var expected := Flushed(r).request.tokens + Tildes(lost) + ([item.token] + Tokens(rest));
    assert expected[|was|] == Argument([TILDE]);
    if item.form.Counted? && !item.form.binary {
      var r' := AfterItem(r.(buf := []), item);
      TildeSwallowed(cfg, r, item);
      PromptsNothing<C>(item);
      if item.token == Argument([TILDE]) {
        LagRun(cfg, r', rest, Quiet, lost + 1);
        TildesMove(was, lost, [item.token] + Tokens(rest));
        TildesMove(was + [item.token], lost, Tokens(rest));
        RunSplits(Stepper(cfg), r, PrintItem(item), PrintItems(rest));
        EndJoins(ItemPrompt(item), Feed(cfg, r', PrintItems(rest)).events);
      } else {
        SpoiltBehind(cfg, r, PrintItem(item), r', ItemPrompt(item), PrintItems(rest), |was|, Argument([TILDE]));
      }
    } else {
      AtomRunsOn(cfg, r, item, PrintItems(rest));
    }
  }

  lemma TildeSwallowed<C>(cfg: Config<C>, r: Core<C>, item: Item)
    requires At(cfg, r, InAtom) && r.buf == [TILDE] && IsValue(item) && item.form.Counted? && !item.form.binary
    requires LegalItem(item, cfg.tokenizeBrackets(r.request.command)) && r.size + Charge(item) <= cfg.maxRequestSize
    ensures Feed(cfg, r, PrintItem(item)) == Trace(AfterItem(r.(buf := []), item), ItemPrompt(item))
  {
    hide Run, LiteralHeader, Charge;
    var open := r.(buf := [], state := Literal(false));
    var body := LiteralHeader(|ValueOf(item)|, item.form.nonSync) + ValueOf(item);
    assert Step(cfg, r, BRACE_OPEN) == Go(open);
    RunOne(Stepper(cfg), r, BRACE_OPEN);
    LiteralRun(cfg, r.(buf := []), item);
    RunJoins(Stepper(cfg), r, [BRACE_OPEN], open, [], body, AfterItem(r.(buf := []), item), ItemPrompt(item));
    assert PrintItem(item) == [BRACE_OPEN] + body;
  }

  // ----- Exactly the joined lists come back ---------------------------------------------------

  lemma AnswerMissing<C>(events: seq<Event<C>>, items: seq<Item>, request: Request<C>, k: nat)
    requires k < |request.tokens| && !Answers(events, k, request.tokens[k])
    ensures events != Prompts(items) + [Done(request)]
  {
    PromptsEnd(items, Done(request));
  }

  /** An item that does not join what stands before it. */
  lemma {:induction false} Misjoined<C>(cfg: Config<C>, r: Core<C>, items: seq<Item>, here: Place, request: Request<C>)
    requires (cfg.startState == Start || cfg.startState.Command?) && At(cfg, r, here)
    requires items != [] && !Joins(items[0], here) && LegalItems(cfg, r.request.command, items)
    requires Flushed(r).size + TotalCharge(items) <= cfg.maxRequestSize
    requires request.tokens == Flushed(r).request.tokens + Tokens(items)
    ensures Feed(cfg, r, PrintItem(items[0]) + PrintItems(items[1..])) != Trace(Fresh(cfg), Prompts(items) + [Done(request)])
  {
    hide Step, Run, LegalItem, Charge, PrintItem, PrintItems, AtomByte;
    var item, rest := items[0], items[1..];
    var events := Feed(cfg, r, PrintItem(item) + PrintItems(rest)).events;
    var k := |r.request.tokens|;
    if here == Loud {
      assert request.tokens[k] == item.token;
      if item.form.Quoted? {
        QuoteIsText(cfg, r, item, PrintItems(rest));
        AnswerMissing(events, items, request, k);
      } else {
        LoudLiteral(cfg, r, items, request);
      }
    } else if r.buf == [TILDE] {
      TildeRun(cfg, r, item, rest, 0);
      assert Tildes(0) == [] && Tokens(items) == [item.token] + Tokens(rest);
      PromptsEnd(items, Done(request));
    } else {
      assert request.tokens[k] == Argument(r.buf);
      AtomRunsOn(cfg, r, item, PrintItems(rest));
      AnswerMissing(events, items, request, k);
    }
  }

  /** A plain literal that follows no separator. */
  lemma LoudLiteral<C>(cfg: Config<C>, r: Core<C>, items: seq<Item>, request: Request<C>)
    requires (cfg.startState == Start || cfg.startState.Command?) && At(cfg, r, Loud)
    requires items != [] && IsValue(items[0]) && items[0].form.Counted? && !items[0].form.binary
    requires LegalItem(items[0], cfg.tokenizeBrackets(r.request.command))
    requires |r.request.tokens| < |request.tokens| && request.tokens[|r.request.tokens|] == items[0].token
    ensures Feed(cfg, r, PrintItem(items[0]) + PrintItems(items[1..])) != Trace(Fresh(cfg), Prompts(items) + [Done(request)])
  {
    hide Step, Run, At, Prompts, HeaderText, AtomByte, PrintItem, PrintItems;
    var item, rest := items[0], PrintItems(items[1..]);
    var text := HeaderText(|ValueOf(item)|, item.form.nonSync);
    assert |ValueOf(item)| <= U32_MAX;
    hide LegalItem;
    LiteralText(item, rest);
    if item.token == Argument(text) {
      HeaderEndsEarly(cfg, r, item, rest, items, request);
    } else {
      HeaderIsWrong(cfg, r, item, [LF] + (ValueOf(item) + rest));
      AnswerMissing(Feed(cfg, r, PrintItem(item) + rest).events, items, request, |r.request.tokens|);
    }
  }

  lemma LiteralText(item: Item, rest: seq<byte>)
    requires IsValue(item) && item.form.Counted? && !item.form.binary
    ensures var text := HeaderText(|ValueOf(item)|, item.form.nonSync);
            && PrintItem(item) + rest == text + ([CR, LF] + (ValueOf(item) + rest))
            && PrintItem(item) + rest == text + ([CR] + ([LF] + (ValueOf(item) + rest)))
  {
    hide Decimal;
    var text := HeaderText(|ValueOf(item)|, item.form.nonSync);
    assert PrintItem(item) == text + [CR, LF] + ValueOf(item);
    Associates(text, [CR, LF], ValueOf(item) + rest);
    Associates(text + [CR, LF], ValueOf(item), rest);
    assert [CR, LF] + (ValueOf(item) + rest) == [CR] + ([LF] + (ValueOf(item) + rest));
  }

  /** A list that is not joined does not come back. */
  lemma {:induction false} NotJoinedFails<C>(cfg: Config<C>, r: Core<C>, items: seq<Item>, place: Place, request: Request<C>)
    requires (cfg.startState == Start || cfg.startState.Command?) && At(cfg, r, place)
    requires !Joined(items, place) && LegalItems(cfg, r.request.command, items)
    requires Flushed(r).size + TotalCharge(items) <= cfg.maxRequestSize
    requires request.tokens == Flushed(r).request.tokens + Tokens(items)
    ensures Feed(cfg, r, PrintItems(items)) != Trace(Fresh(cfg), Prompts(items) + [Done(request)])
    decreases |items|
  {
    hide Step, Run, PrintItem, LegalItem, Charge, At, AfterItem, Joins, AtomByte;
    var item, rest, here := items[0], items[1..], Here(items[0], place);
    var r1 := Spaced(r, item);
    GapRun(cfg, r, item, place);
    RunSplits(Stepper(cfg), r, Gap(item), PrintItem(item) + PrintItems(rest));
    Associates(Gap(item), PrintItem(item), PrintItems(rest));
    assert Feed(cfg, r, PrintItems(items)) == Feed(cfg, r1, PrintItem(item) + PrintItems(rest));
    if Joins(item, here) {
      var r2 := AfterItem(r1, item);
      ItemRun(cfg, r1, item, here);
      Associates(Flushed(r).request.tokens, [item.token], Tokens(rest));
      NotJoinedFails(cfg, r2, rest, After(item, here), request);
      RunSplits(Stepper(cfg), r1, PrintItem(item), PrintItems(rest));
      Associates(ItemPrompt<C>(item), Prompts(rest), [Done(request)]);
      PrefixCancels(ItemPrompt(item), Feed(cfg, r2, PrintItems(rest)).events, Prompts(rest) + [Done(request)]);
    } else {
      Misjoined(cfg, r1, items, here, request);
    }
  }

  lemma PrefixCancels<T>(a: seq<T>, b: seq<T>, c: seq<T>)
    ensures a + b == a + c ==> b == c
  {
    if a + b == a + c {
      assert (a + b)[|a|..] == b && (a + c)[|a|..] == c;
    }
  }

  /**
   The round trip, exactly: a request within the limits comes back token for token, with its prompts and nothing
   else, if and only if every item joins what stands before it.
   */
  lemma RoundTripExactly<C>(cfg: Config<C>, sent: Sent<C>)
    requires cfg.startState == Start && LegalRequest(cfg, sent)
    ensures Feed(cfg, Fresh(cfg), Print(sent)) == Trace(Fresh(cfg), Expected(sent)) <==> Joined(sent.items, Quiet)
  {
    hide Step, Run, LegalItem, Charge, TotalCharge, Upper, LegalName, LegalTag, PrintItems;
    if Joined(sent.items, Quiet) {
      RoundTrip(cfg, sent);
    } else {
      var head := sent.tag + [SP] + UidText(sent.uid) + sent.name + [SP];
      var ready := Core([], Request(sent.tag, sent.command, []), InArgument(SP), 0);
      HeadRun(cfg, sent, SP);
      RunSplits(Stepper(cfg), Fresh(cfg), head, PrintItems(sent.items));
      assert Print(sent) == head + PrintItems(sent.items);
      assert [] + Tokens(sent.items) == Tokens(sent.items);
      NotJoinedFails(cfg, ready, sent.items, Quiet, Request(sent.tag, sent.command, Tokens(sent.items)));
    }
  }

  /** The same for a receiver that starts at the command name. */
  lemma UntaggedExactly<C>(cfg: Config<C>, sent: Sent<C>)
    requires cfg.startState == Command(sent.uid) && sent.tag == []
    requires LegalName(sent.name) && Upper(sent.name) != UID
    requires cfg.parseCommand(Upper(sent.name), sent.uid) == Some(sent.command)
    requires LegalItems(cfg, sent.command, sent.items) && TotalCharge(sent.items) <= cfg.maxRequestSize
    ensures var text := sent.name + [NameEnd(sent.items)] + PrintTail(sent.items);
            Feed(cfg, Fresh(cfg), text) == Trace(Fresh(cfg), Expected(sent)) <==> Joined(sent.items, Quiet)
  {
    hide Step, Run, LegalItem, Charge, TotalCharge, Upper, LegalName, PrintItems;
    if Joined(sent.items, Quiet) {
      UntaggedRoundTrip(cfg, sent);
    } else {
      var ready := Core([], Request([], sent.command, []), InArgument(SP), 0);
      NameEnds(cfg, Fresh(cfg), sent.name, sent.uid, sent.command, SP);
      RunSplits(Stepper(cfg), Fresh(cfg), sent.name + [SP], PrintItems(sent.items));
      assert [] + Tokens(sent.items) == Tokens(sent.items);
      NotJoinedFails(cfg, ready, sent.items, Quiet, Request([], sent.command, Tokens(sent.items)));
    }
  }
}
