/** What holds of the receiver at every byte boundary of every run. */
module ReceiverInvariant {
  import opened Common
  import opened Machine
  import opened Receiver

  /** The argument bytes a token list keeps in memory. */
  function TokenBytes(tokens: seq<Token>): nat {
    if tokens == [] then 0
    else
      var last := tokens[|tokens| - 1];
      TokenBytes(tokens[..|tokens| - 1]) + if last.Argument? then |last.bytes| else 0
  }

  /** Token bytes fit `budget`, and an empty argument is never stored as one: it is `Nil`. */
  predicate Bounded(tokens: seq<Token>, budget: nat) {
    && TokenBytes(tokens) <= budget
    && forall i :: 0 <= i < |tokens| && tokens[i].Argument? ==> tokens[i].bytes != []
  }

  /** The buffer limit of each state; a literal in flight has its whole declared size in the budget. */
  predicate BufferLimit<C>(cfg: Config<C>, r: Core<C>) {
    match r.state
    case Start => r.buf == []
    case Tag => |r.buf| <= 128
    case Command(_) => |r.buf| <= 15
    case InArgument(_) => |r.buf| <= ARG_MAX_LEN
    case ArgumentQuoted(_) => |r.buf| <= ARG_MAX_LEN
    case Literal(_) => |r.buf| <= 15 && forall i :: 0 <= i < |r.buf| ==> IsDigit(r.buf[i])
    case LiteralSeek(size, _) => r.buf == [] && size <= U32_MAX && r.size + size <= cfg.maxRequestSize
    case LiteralData(remaining) =>
      remaining > 0 && |r.buf| + remaining <= U32_MAX && r.size + |r.buf| + remaining <= cfg.maxRequestSize
  }

  predicate Inv<C>(cfg: Config<C>, r: Core<C>) {
    && BufferLimit(cfg, r)
    && r.size <= cfg.maxRequestSize
    && Bounded(r.request.tokens, r.size)
  }

  /** Start states a receiver can be given: any but a literal that was never announced or cannot fit. */
  predicate ValidStart<C>(cfg: Config<C>) {
    match cfg.startState
    case LiteralSeek(size, _) => size <= U32_MAX && size <= cfg.maxRequestSize
    case LiteralData(remaining) => 0 < remaining <= U32_MAX && remaining <= cfg.maxRequestSize
    case _ => true
  }

  lemma FreshIsValid<C>(cfg: Config<C>)
    ensures Inv(cfg, Fresh(cfg)) <==> ValidStart(cfg)
  {}

  lemma TokenAdded(tokens: seq<Token>, token: Token, budget: nat)
    requires Bounded(tokens, budget)
    requires token.Argument? ==> token.bytes != []
    ensures Bounded(tokens + [token], budget + if token.Argument? then |token.bytes| else 0)
  {
    assert (tokens + [token])[..|tokens|] == tokens;
  }

  predicate EventBounded<C>(cfg: Config<C>, event: Event<C>) {
    match event
    case Done(request) => Bounded(request.tokens, cfg.maxRequestSize)
    case NeedsLiteral(size) => size <= U32_MAX && size <= cfg.maxRequestSize
    case Failure(_, _) => true
  }

  predicate Kept<C>(cfg: Config<C>, o: StepResult<C>) {
    Inv(cfg, o.core) && (o.event.Some? ==> EventBounded(cfg, o.event.value))
  }

  /** The budget part of the invariant. */
  predicate InBudget<C>(cfg: Config<C>, r: Core<C>) {
    r.size <= cfg.maxRequestSize && Bounded(r.request.tokens, r.size)
  }

  lemma BoundedGrows(tokens: seq<Token>, budget: nat, more: nat)
    requires Bounded(tokens, budget) && budget <= more
    ensures Bounded(tokens, more)
  {}

  lemma PushArgumentKeeps<C>(cfg: Config<C>, r: Core<C>, inQuote: bool)
    requires InBudget(cfg, r)
    ensures var p := PushArgument(cfg, r, inQuote);
            p.Some? ==> p.value.buf == [] && p.value.state == r.state && InBudget(cfg, p.value)
  {
    if r.buf != [] {
      TokenAdded(r.request.tokens, Argument(r.buf), r.size);
    } else {
      TokenAdded(r.request.tokens, Nil, r.size);
    }
  }

  lemma PushTokenKeeps<C>(cfg: Config<C>, r: Core<C>, token: Token)
    requires InBudget(cfg, r) && !token.Argument?
    ensures var p := PushToken(cfg, r, token);
            p.Some? ==> p.value.buf == r.buf && p.value.state == r.state && InBudget(cfg, p.value)
  {
    TokenAdded(r.request.tokens, token, r.size);
    BoundedGrows(r.request.tokens + [token], r.size, r.size + 1);
  }

  lemma CloseKeeps<C>(cfg: Config<C>, r: Core<C>, inQuote: bool, state: State)
    requires InBudget(cfg, r) && ValidStart(cfg)
    requires state.InArgument? || state.ArgumentQuoted? || state.Literal?
    ensures Kept(cfg, CloseArgument(cfg, r, inQuote, state))
  {
    PushArgumentKeeps(cfg, r, inQuote);
    FreshIsValid(cfg);
  }

  lemma PunctuationKeeps<C>(cfg: Config<C>, r: Core<C>, token: Token)
    requires InBudget(cfg, r) && ValidStart(cfg) && r.state.InArgument? && !token.Argument?
    ensures Kept(cfg, Punctuation(cfg, r, token))
  {
    PushArgumentKeeps(cfg, r, false);
    FreshIsValid(cfg);
    var p := PushArgument(cfg, r, false);
    if p.Some? {
      PushTokenKeeps(cfg, p.value, token);
    }
  }

  lemma BufferKeeps<C>(cfg: Config<C>, r: Core<C>, ch: byte, error: ErrorKind, state: State)
    requires InBudget(cfg, r) && ValidStart(cfg) && (state.InArgument? || state.ArgumentQuoted?)
    ensures Kept(cfg, Buffer(cfg, r, ch, ARG_MAX_LEN, error, state))
  {
    FreshIsValid(cfg);
  }

  lemma LineEndKeeps<C>(cfg: Config<C>, r: Core<C>)
    requires Inv(cfg, r) && ValidStart(cfg) && r.state.InArgument?
    ensures var p := PushArgument(cfg, r, false);
            Inv(cfg, Fresh(cfg)) && (p.Some? ==> Bounded(p.value.request.tokens, cfg.maxRequestSize))
  {
    FreshIsValid(cfg);
    PushArgumentKeeps(cfg, r, false);
    var p := PushArgument(cfg, r, false);
    if p.Some? {
      BoundedGrows(p.value.request.tokens, p.value.size, cfg.maxRequestSize);
    }
  }

  lemma ArgumentStepKeepsInv<C>(cfg: Config<C>, r: Core<C>, lastCh: byte, ch: byte)
    requires Inv(cfg, r) && ValidStart(cfg) && r.state == InArgument(lastCh)
    ensures Kept(cfg, StepArgument(cfg, r, lastCh, ch))
  {
    hide Bounded, TokenBytes;
    var punctuation := PunctuationToken(ch, cfg.tokenizeBrackets(r.request.command));
    if ch == QUOTE && IsWhitespace(lastCh) {
      CloseKeeps(cfg, r, false, ArgumentQuoted(false));
    } else if ch == BRACE_OPEN && (IsWhitespace(lastCh) || (lastCh == TILDE && |r.buf| == 1)) {
      CloseKeeps(cfg, r, false, Literal(false));
    } else if punctuation.Some? {
      PunctuationKeeps(cfg, r, punctuation.value);
    } else if ch == LF {
      LineEndKeeps(cfg, r);
    } else if IsWhitespace(ch) {
      CloseKeeps(cfg, r, false, InArgument(ch));
    } else {
      BufferKeeps(cfg, r, ch, ArgumentTooLong, InArgument(ch));
    }
  }

  lemma CommandStepKeepsInv<C>(cfg: Config<C>, r: Core<C>, isUid: bool, ch: byte)
    requires Inv(cfg, r) && ValidStart(cfg) && r.state == Command(isUid)
    ensures Kept(cfg, StepCommand(cfg, r, isUid, ch))
  {
    FreshIsValid(cfg);
    BoundedGrows(r.request.tokens, r.size, cfg.maxRequestSize);
  }

  lemma QuotedStepKeepsInv<C>(cfg: Config<C>, r: Core<C>, escaped: bool, ch: byte)
    requires Inv(cfg, r) && ValidStart(cfg) && r.state == ArgumentQuoted(escaped)
    ensures Kept(cfg, StepQuoted(cfg, r, escaped, ch))
  {
    if ch == QUOTE && !escaped {
      CloseKeeps(cfg, r, true, InArgument(SP));
    } else if ch == LF {
      FreshIsValid(cfg);
    } else if ch == BACKSLASH && !escaped {
      assert Kept(cfg, Go(r.(state := ArgumentQuoted(true))));
    } else {
      BufferKeeps(cfg, r, ch, QuotedTooLong, ArgumentQuoted(false));
      BufferKeeps(cfg, r.(buf := r.buf + [BACKSLASH]), ch, QuotedTooLong, ArgumentQuoted(false));
    }
  }

  lemma LiteralStepKeepsInv<C>(cfg: Config<C>, r: Core<C>, nonSync: bool, ch: byte)
    requires Inv(cfg, r) && ValidStart(cfg) && r.state == Literal(nonSync)
    ensures Kept(cfg, StepLiteral(cfg, r, nonSync, ch))
  {
    FreshIsValid(cfg);
  }

  lemma SeekStepKeepsInv<C>(cfg: Config<C>, r: Core<C>, size: nat, nonSync: bool, ch: byte)
    requires Inv(cfg, r) && ValidStart(cfg) && r.state == LiteralSeek(size, nonSync)
    ensures Kept(cfg, StepSeek(cfg, r, size, nonSync, ch))
  {
    FreshIsValid(cfg);
    PushTokenKeeps(cfg, r, Nil);
  }

  lemma DataStepKeepsInv<C>(cfg: Config<C>, r: Core<C>, remaining: nat, ch: byte)
    requires Inv(cfg, r) && ValidStart(cfg) && r.state == LiteralData(remaining)
    ensures Kept(cfg, StepData(cfg, r, remaining, ch))
  {
    CloseKeeps(cfg, r.(buf := r.buf + [ch]), false, InArgument(SP));
  }

  lemma StepKeepsInv<C>(cfg: Config<C>, r: Core<C>, ch: byte)
    requires Inv(cfg, r) && ValidStart(cfg)
    ensures Kept(cfg, Step(cfg, r, ch))
  {
    match r.state
    case Start =>
    case Tag => FreshIsValid(cfg);
    case Command(isUid) => CommandStepKeepsInv(cfg, r, isUid, ch);
    case InArgument(lastCh) => ArgumentStepKeepsInv(cfg, r, lastCh, ch);
    case ArgumentQuoted(escaped) => QuotedStepKeepsInv(cfg, r, escaped, ch);
    case Literal(nonSync) => LiteralStepKeepsInv(cfg, r, nonSync, ch);
    case LiteralSeek(size, nonSync) => SeekStepKeepsInv(cfg, r, size, nonSync, ch);
    case LiteralData(remaining) => DataStepKeepsInv(cfg, r, remaining, ch);
  }

  /** The whole-run invariant: every reachable receiver keeps its limits and every event respects the budget. */
  lemma {:induction false} RunKeepsInv<C>(cfg: Config<C>, r: Core<C>, bytes: seq<byte>)
    requires Inv(cfg, r) && ValidStart(cfg)
    ensures Inv(cfg, Feed(cfg, r, bytes).core)
    ensures forall e :: e in Feed(cfg, r, bytes).events ==> EventBounded(cfg, e)
    decreases |bytes|
  {
    if bytes == [] {
    } else {
      StepKeepsInv(cfg, r, bytes[0]);
      RunKeepsInv(cfg, Step(cfg, r, bytes[0]).core, bytes[1..]);
    }
  }

  /** A completed or failed request leaves nothing behind. */
  lemma ReportLeavesFresh<C>(cfg: Config<C>, r: Core<C>, ch: byte)
    ensures var o := Step(cfg, r, ch);
            o.event.Some? && !o.event.value.NeedsLiteral? ==> o.core == Fresh(cfg)
  {}

  /** With a limit clear of the word size, the size sums of `parse` stay below 2^64. */
  lemma SizesFitWord<C>(cfg: Config<C>, r: Core<C>, bytes: seq<byte>)
    requires ValidStart(cfg) && cfg.maxRequestSize + U32_MAX < 0x1_0000_0000_0000_0000
    ensures var s := Feed(cfg, Fresh(cfg), bytes).core;
            && s.size + |s.buf| + 1 < 0x1_0000_0000_0000_0000
            && (s.state.Literal? && ParseU32(s.buf).Some? ==> s.size + ParseU32(s.buf).value < 0x1_0000_0000_0000_0000)
  {
    FreshIsValid(cfg);
    RunKeepsInv(cfg, Fresh(cfg), bytes);
  }

  /** One octet of literal data inside the budget. */
  lemma DataByte<C>(cfg: Config<C>, r: Core<C>, ch: byte)
    requires r.state.LiteralData? && r.state.remaining > 0 && r.size + |r.buf| + 1 <= cfg.maxRequestSize
    ensures r.state.remaining > 1 ==>
              Step(cfg, r, ch) == Outcome(r.(buf := r.buf + [ch], state := LiteralData(r.state.remaining - 1)), None)
    ensures r.state.remaining == 1 ==>
              var data := r.buf + [ch];
              Step(cfg, r, ch)
              == Outcome(WithToken(r, Argument(data)).(buf := [], size := r.size + |data|, state := InArgument(SP)), None)
  {}

  /**
   A literal accepted by the size check cannot fail on size later: after its line end, `k` data bytes
   leave exactly those bytes buffered and the rest outstanding, and the last one stores the whole literal.
   */
  lemma {:induction false} AcceptedLiteral<C>(cfg: Config<C>, r: Core<C>, data: seq<byte>, k: nat)
    requires r.state == LiteralData(|data|) && r.buf == [] && 0 < |data| && r.size + |data| <= cfg.maxRequestSize
    requires k <= |data|
    ensures var t := Feed(cfg, r, data[..k]);
            && t.events == []
            && t.core == if k < |data| then r.(buf := data[..k], state := LiteralData(|data| - k))
                         else WithToken(r, Argument(data)).(size := r.size + |data|, state := InArgument(SP))
  {
    hide Step;
    if k == 0 {
    } else {
      DataByte(cfg, r.(buf := data[..k - 1], state := LiteralData(|data| - (k - 1))), data[k - 1]);
      AcceptedLiteral(cfg, r, data, k - 1);
      assert data[0..k - 1] == data[..k - 1] && data[0..k] == data[..k];
      RunExtends(Stepper(cfg), r, data, 0, k - 1);
      assert data[..k - 1] + [data[k - 1]] == data[..k];
      assert data[..|data|] == data;
    }
  }
}
