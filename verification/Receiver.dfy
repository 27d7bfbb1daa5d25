/**
 The resumable IMAP / ManageSieve request receiver (crates/imap-proto/src/receiver.rs).

 `Step` says what one input byte does to the receiver; the class `RequestReceiver` is the in-place
 implementation and is proved to follow `Step` byte for byte.  Everything else is proved about `Feed`,
 the run of `Step` over a whole stream.
 */
module Receiver {
  import opened Common
  import opened Machine

  // ----- Data model ---------------------------------------------------------------------------

  datatype Token =
    | Argument(bytes: seq<byte>)
    | ParenthesisOpen
    | ParenthesisClose
    | BracketOpen
    | BracketClose
    | Lt
    | Gt
    | Dot
    | Nil

  datatype Request<C> = Request(tag: seq<byte>, command: C, tokens: seq<Token>)

  datatype State =
    | Start
    | Tag
    | Command(isUid: bool)
    | InArgument(lastCh: byte)
    | ArgumentQuoted(escaped: bool)
    | Literal(nonSync: bool)
    | LiteralSeek(size: nat, nonSync: bool)
    | LiteralData(remaining: nat)

  datatype ErrorKind =
    | RequestTooLarge
    | TagNotUtf8
    | MissingCommand
    | TagTooLong
    | CommandTooLong
    | UnrecognizedCommand
    | InvalidCommandCharacter
    | ArgumentTooLong
    | QuotedTooLong
    | UnterminatedQuoted
    | LiteralSizeInvalid
    | LiteralTooLarge
    | EmptyLiteral
    | InvalidNonSync
    | LiteralTooManyDigits
    | InvalidLiteral
    | InvalidLiteralCharacter
    | ExpectedCrlfAfterLiteral

  /** What a call of `parse` can report besides "needs more data". */
  datatype Event<C> =
    | Done(request: Request<C>)
    | NeedsLiteral(size: nat)
    | Failure(tag: Option<seq<byte>>, error: ErrorKind)

  /** The parts fixed for the life of a receiver; the command table and UTF-8 validity stay abstract. */
  datatype Config<!C> = Config(
    parseCommand: (seq<byte>, bool) -> Option<C>,
    tokenizeBrackets: C -> bool,
    defaultCommand: C,
    isUtf8: seq<byte> -> bool,
    maxRequestSize: nat,
    startState: State)

  /** The fields that change while bytes arrive. */
  datatype Core<C> = Core(buf: seq<byte>, request: Request<C>, state: State, size: nat)

  type StepResult<C> = Outcome<Core<C>, Event<C>>

  const TAB: byte := 0x09
  const LF: byte := 0x0A
  const FF: byte := 0x0C
  const CR: byte := 0x0D
  const SP: byte := 0x20
  const QUOTE: byte := 0x22
  const PAREN_OPEN: byte := 0x28
  const PAREN_CLOSE: byte := 0x29
  const PLUS: byte := 0x2B
  const DOT: byte := 0x2E
  const LESS: byte := 0x3C
  const GREATER: byte := 0x3E
  const BRACKET_OPEN: byte := 0x5B
  const BACKSLASH: byte := 0x5C
  const BRACKET_CLOSE: byte := 0x5D
  const BRACE_OPEN: byte := 0x7B
  const BRACE_CLOSE: byte := 0x7D
  const TILDE: byte := 0x7E

  const ARG_MAX_LEN: nat := 8000
  const U32_MAX: nat := 0xFFFF_FFFF

  predicate IsWhitespace(ch: byte) {
    ch == SP || ch == TAB || ch == LF || ch == FF || ch == CR
  }

  predicate IsDigit(ch: byte) { 0x30 <= ch <= 0x39 }

  predicate IsLower(ch: byte) { 0x61 <= ch <= 0x7A }

  predicate IsUpper(ch: byte) { 0x41 <= ch <= 0x5A }

  predicate IsAlphanumeric(ch: byte) { IsDigit(ch) || IsLower(ch) || IsUpper(ch) }

  function ToUpper(ch: byte): byte {
    if IsLower(ch) then ch - 32 else ch
  }

  /** "UID"; the buffer already holds upper-case letters in the `Command` state. */
  const UID: seq<byte> := [0x55, 0x49, 0x44]

  /** The number a run of ASCII digits denotes. */
  function DecimalValue(s: seq<byte>): int {
    if s == [] then 0 else DecimalValue(s[..|s| - 1]) * 10 + s[|s| - 1] as int - 0x30
  }

  /** `str::parse::<u32>` on the content of the literal buffer. */
  function ParseU32(s: seq<byte>): Option<nat> {
    if s != [] && (forall i :: 0 <= i < |s| ==> IsDigit(s[i])) && 0 <= DecimalValue(s) <= U32_MAX
    then Some(DecimalValue(s))
    else None
  }

  // ----- One byte -----------------------------------------------------------------------------

  /** A receiver that has seen nothing since it was created or since its last request or error. */
  function Fresh<C>(cfg: Config<C>): Core<C> {
    Core([], Request([], cfg.defaultCommand, []), cfg.startState, 0)
  }

  function Reset<C>(cfg: Config<C>, r: Core<C>, error: ErrorKind): StepResult<C> {
    Outcome(Fresh(cfg), Some(Failure(if r.request.tag != [] then Some(r.request.tag) else None, error)))
  }

  function Go<C>(r: Core<C>): StepResult<C> {
    Outcome(r, None)
  }

  function WithToken<C>(r: Core<C>, token: Token): Core<C> {
    r.(request := r.request.(tokens := r.request.tokens + [token]))
  }

  /** Moves the buffered bytes into the token list; None when that breaks the size budget. */
  function PushArgument<C>(cfg: Config<C>, r: Core<C>, inQuote: bool): Option<Core<C>> {
    if r.buf != [] then
      if r.size + |r.buf| > cfg.maxRequestSize then None
      else Some(WithToken(r, Argument(r.buf)).(buf := [], size := r.size + |r.buf|))
    else if inQuote then Some(WithToken(r, Nil))
    else Some(r)
  }

  function PushToken<C>(cfg: Config<C>, r: Core<C>, token: Token): Option<Core<C>> {
    if r.size + 1 > cfg.maxRequestSize then None
    else Some(WithToken(r, token).(size := r.size + 1))
  }

  /** Closes the pending argument and moves on to `state`. */
  function CloseArgument<C>(cfg: Config<C>, r: Core<C>, inQuote: bool, state: State): StepResult<C> {
    match PushArgument(cfg, r, inQuote)
    case None => Reset(cfg, r, RequestTooLarge)
    case Some(r') => Go(r'.(state := state))
  }

  /** Closes the pending argument and adds a punctuation token; the state does not move. */
  function Punctuation<C>(cfg: Config<C>, r: Core<C>, token: Token): StepResult<C> {
    match PushArgument(cfg, r, false)
    case None => Reset(cfg, r, RequestTooLarge)
    case Some(r') =>
      match PushToken(cfg, r', token)
      case None => Reset(cfg, r, RequestTooLarge)
      case Some(r'') => Go(r'')
  }

  /** Appends one byte to the buffer and moves on, unless the buffer is full. */
  function Buffer<C>(cfg: Config<C>, r: Core<C>, ch: byte, limit: nat, error: ErrorKind, state: State): StepResult<C> {
    if |r.buf| < limit then Go(r.(buf := r.buf + [ch], state := state)) else Reset(cfg, r, error)
  }

  function StepTag<C>(cfg: Config<C>, r: Core<C>, ch: byte): StepResult<C> {
    if ch == SP then
      if r.buf == [] then Go(r)
      else if cfg.isUtf8(r.buf) then Go(r.(buf := [], request := r.request.(tag := r.buf), state := Command(false)))
      else Reset(cfg, r, TagNotUtf8)
    else if ch == TAB || ch == CR then Go(r)
    else if ch == LF then Reset(cfg, r, MissingCommand)
    else Buffer(cfg, r, ch, 128, TagTooLong, Tag)
  }

  function StepCommand<C>(cfg: Config<C>, r: Core<C>, isUid: bool, ch: byte): StepResult<C> {
    if IsAlphanumeric(ch) then Buffer(cfg, r, ToUpper(ch), 15, CommandTooLong, r.state)
    else if IsWhitespace(ch) then
      if r.buf == [] then Go(r)
      else if r.buf == UID then Go(r.(buf := [], state := Command(true)))
      else
        match cfg.parseCommand(r.buf, isUid)
        case None => Reset(cfg, r, UnrecognizedCommand)
        case Some(command) =>
          var request := r.request.(command := command);
          if ch != LF then Go(r.(buf := [], request := request, state := InArgument(SP)))
          else Outcome(Fresh(cfg), Some(Done(request)))
    else Reset(cfg, r, InvalidCommandCharacter)
  }

  /** The token a punctuation byte stands for inside an argument list. */
  function PunctuationToken(ch: byte, brackets: bool): Option<Token> {
    if ch == PAREN_OPEN then Some(ParenthesisOpen)
    else if ch == PAREN_CLOSE then Some(ParenthesisClose)
    else if !brackets then None
    else if ch == BRACKET_OPEN then Some(BracketOpen)
    else if ch == BRACKET_CLOSE then Some(BracketClose)
    else if ch == LESS then Some(Lt)
    else if ch == GREATER then Some(Gt)
    else if ch == DOT then Some(Dot)
    else None
  }

  function StepArgument<C>(cfg: Config<C>, r: Core<C>, lastCh: byte, ch: byte): StepResult<C> {
    var punctuation := PunctuationToken(ch, cfg.tokenizeBrackets(r.request.command));
    if ch == QUOTE && IsWhitespace(lastCh) then CloseArgument(cfg, r, false, ArgumentQuoted(false))
    else if ch == BRACE_OPEN && (IsWhitespace(lastCh) || (lastCh == TILDE && |r.buf| == 1)) then
      if lastCh != TILDE then CloseArgument(cfg, r, false, Literal(false))
      else Go(r.(buf := [], state := Literal(false)))
    else if punctuation.Some? then Punctuation(cfg, r, punctuation.value)
    else if ch == LF then
      match PushArgument(cfg, r, false)
      case None => Reset(cfg, r, RequestTooLarge)
      case Some(r') => Outcome(Fresh(cfg), Some(Done(r'.request)))
    else if IsWhitespace(ch) then CloseArgument(cfg, r, false, InArgument(ch))
    else Buffer(cfg, r, ch, ARG_MAX_LEN, ArgumentTooLong, InArgument(ch))
  }

  function StepQuoted<C>(cfg: Config<C>, r: Core<C>, escaped: bool, ch: byte): StepResult<C> {
    if ch == QUOTE then
      if !escaped then CloseArgument(cfg, r, true, InArgument(SP))
      else Buffer(cfg, r, ch, ARG_MAX_LEN, QuotedTooLong, ArgumentQuoted(false))
    else if ch == BACKSLASH then
      if escaped then Buffer(cfg, r, ch, ARG_MAX_LEN, QuotedTooLong, ArgumentQuoted(false))
      else Go(r.(state := ArgumentQuoted(true)))
    else if ch == LF then Reset(cfg, r, UnterminatedQuoted)
    else
      var r' := if escaped then r.(buf := r.buf + [BACKSLASH]) else r;
      Buffer(cfg, r', ch, ARG_MAX_LEN, QuotedTooLong, ArgumentQuoted(false))
  }

  function StepLiteral<C>(cfg: Config<C>, r: Core<C>, nonSync: bool, ch: byte): StepResult<C> {
    if ch == BRACE_CLOSE then
      if r.buf == [] then Reset(cfg, r, EmptyLiteral)
      else
        match ParseU32(r.buf)
        case None => Reset(cfg, r, LiteralSizeInvalid)
        case Some(size) =>
          if r.size + size > cfg.maxRequestSize then Reset(cfg, r, LiteralTooLarge)
          else Go(r.(buf := [], state := LiteralSeek(size, nonSync)))
    else if ch == PLUS then
      if r.buf != [] then Go(r.(state := Literal(true))) else Reset(cfg, r, InvalidNonSync)
    else if IsDigit(ch) then
      if !nonSync then Buffer(cfg, r, ch, 15, LiteralTooManyDigits, r.state)
      else Reset(cfg, r, InvalidLiteral)
    else Reset(cfg, r, InvalidLiteralCharacter)
  }

  function StepSeek<C>(cfg: Config<C>, r: Core<C>, size: nat, nonSync: bool, ch: byte): StepResult<C> {
    if ch == LF then
      var prompt := if nonSync then None else Some(NeedsLiteral(size));
      if size > 0 then Outcome(r.(state := LiteralData(size)), prompt)
      else
        match PushToken(cfg, r, Nil)
        case None => Reset(cfg, r, RequestTooLarge)
        case Some(r') => Outcome(r'.(state := InArgument(SP)), prompt)
    else if IsWhitespace(ch) then Go(r)
    else Reset(cfg, r, ExpectedCrlfAfterLiteral)
  }

  function StepData<C>(cfg: Config<C>, r: Core<C>, remaining: nat, ch: byte): StepResult<C> {
    var r' := r.(buf := r.buf + [ch]);
    if remaining > 1 then Go(r'.(state := LiteralData(remaining - 1)))
    else CloseArgument(cfg, r', false, InArgument(SP))
  }

  /** What one byte does: the new receiver and the event reported to the caller, if any. */
  function Step<C>(cfg: Config<C>, r: Core<C>, ch: byte): StepResult<C> {
    match r.state
    case Start => if IsWhitespace(ch) then Go(r) else Go(r.(buf := r.buf + [ch], state := Tag))
    case Tag => StepTag(cfg, r, ch)
    case Command(isUid) => StepCommand(cfg, r, isUid, ch)
    case InArgument(lastCh) => StepArgument(cfg, r, lastCh, ch)
    case ArgumentQuoted(escaped) => StepQuoted(cfg, r, escaped, ch)
    case Literal(nonSync) => StepLiteral(cfg, r, nonSync, ch)
    case LiteralSeek(size, nonSync) => StepSeek(cfg, r, size, nonSync, ch)
    case LiteralData(remaining) => StepData(cfg, r, remaining, ch)
  }

  // ----- Runs ---------------------------------------------------------------------------------

  function Stepper<C>(cfg: Config<C>): (Core<C>, byte) -> StepResult<C> {
    (r: Core<C>, ch: byte) => Step(cfg, r, ch)
  }

  /** The receiver after a whole byte stream, with every event it reported on the way. */
  function Feed<C>(cfg: Config<C>, r: Core<C>, bytes: seq<byte>): Trace<Core<C>, Event<C>> {
    Run(Stepper(cfg), r, bytes)
  }

  /** Chunk independence: how the stream is cut into network frames cannot be observed. */
  lemma ChunkIndependence<C>(cfg: Config<C>, r: Core<C>, frames: seq<seq<byte>>)
    ensures RunFrames(Stepper(cfg), r, frames) == Feed(cfg, r, Concat(frames))
  {
    FramesIrrelevant(Stepper(cfg), r, frames);
  }

  // ----- The in-place receiver ----------------------------------------------------------------

  class RequestReceiver<C> {
    const cfg: Config<C>
    var buf: seq<byte>
    var request: Request<C>
    var state: State
    var currentRequestSize: nat

    /** The abstract value of the receiver. */
    ghost function View(): Core<C>
      reads this
    {
      Core(buf, request, state, currentRequestSize)
    }

    constructor (cfg: Config<C>)
      ensures this.cfg == cfg && View() == Fresh(cfg)
    {
      this.cfg := cfg;
      buf, request, state, currentRequestSize := [], Request([], cfg.defaultCommand, []), cfg.startState, 0;
    }

    method ErrorReset(error: ErrorKind) returns (event: Option<Event<C>>)
      modifies this
      ensures Outcome(View(), event) == Reset(cfg, old(View()), error)
    {
      event := Some(Failure(if request.tag != [] then Some(request.tag) else None, error));
      request := Request([], cfg.defaultCommand, []);
      buf := [];
      state := cfg.startState;
      currentRequestSize := 0;
    }

    /** Reports the failure, if any; on failure the receiver has been reset. */
    method PushArgumentToken(inQuote: bool) returns (event: Option<Event<C>>)
      modifies this
      ensures match PushArgument(cfg, old(View()), inQuote)
              case None => Outcome(View(), event) == Reset(cfg, old(View()), RequestTooLarge)
              case Some(r) => View() == r && event == None
    {
      event := None;
      if buf != [] {
        currentRequestSize := currentRequestSize + |buf|;
        if currentRequestSize > cfg.maxRequestSize {
          event := ErrorReset(RequestTooLarge);
          return;
        }
        request := request.(tokens := request.tokens + [Argument(buf)]);
        buf := [];
      } else if inQuote {
        request := request.(tokens := request.tokens + [Nil]);
      }
    }

    method PushPlainToken(token: Token) returns (event: Option<Event<C>>)
      modifies this
      ensures match PushToken(cfg, old(View()), token)
              case None => Outcome(View(), event) == Reset(cfg, old(View()), RequestTooLarge)
              case Some(r) => View() == r && event == None
    {
      event := None;
      currentRequestSize := currentRequestSize + 1;
      if currentRequestSize > cfg.maxRequestSize {
        event := ErrorReset(RequestTooLarge);
        return;
      }
      request := request.(tokens := request.tokens + [token]);
    }

    /** Appends to the buffer, or resets with `error` when the buffer already holds `limit` bytes. */
    method PushChecked(ch: byte, limit: nat, error: ErrorKind) returns (event: Option<Event<C>>)
      modifies this
      ensures Outcome(View(), event) == Buffer(cfg, old(View()), ch, limit, error, old(state))
    {
      event := None;
      if |buf| < limit {
        buf := buf + [ch];
      } else {
        event := ErrorReset(error);
      }
    }

    method ConsumeTag(ch: byte) returns (event: Option<Event<C>>)
      requires state == Tag
      modifies this
      ensures Outcome(View(), event) == StepTag(cfg, old(View()), ch)
    {
      event := None;
      if ch == SP {
        if buf != [] {
          if cfg.isUtf8(buf) {
            request := request.(tag := buf);
            buf := [];
            state := Command(false);
          } else {
            event := ErrorReset(TagNotUtf8);
          }
        }
      } else if ch == TAB || ch == CR {
      } else if ch == LF {
        event := ErrorReset(MissingCommand);
      } else {
        event := PushChecked(ch, 128, TagTooLong);
      }
    }

    method ConsumeCommand(isUid: bool, ch: byte) returns (event: Option<Event<C>>)
      requires state == Command(isUid)
      modifies this
      ensures Outcome(View(), event) == StepCommand(cfg, old(View()), isUid, ch)
    {
      event := None;
      if IsAlphanumeric(ch) {
        event := PushChecked(ToUpper(ch), 15, CommandTooLong);
      } else if IsWhitespace(ch) {
        if buf != [] {
          if buf != UID {
            var command := cfg.parseCommand(buf, isUid);
            if command.None? {
              event := ErrorReset(UnrecognizedCommand);
              return;
            }
            request := request.(command := command.value);
            buf := [];
            if ch != LF {
              state := InArgument(SP);
            } else {
              state := cfg.startState;
              currentRequestSize := 0;
              event := Some(Done(request));
              request := Request([], cfg.defaultCommand, []);
            }
          } else {
            buf := [];
            state := Command(true);
          }
        }
      } else {
        event := ErrorReset(InvalidCommandCharacter);
      }
    }

    method ConsumeArgument(lastCh: byte, ch: byte) returns (event: Option<Event<C>>)
      requires state == InArgument(lastCh)
      modifies this
      ensures Outcome(View(), event) == StepArgument(cfg, old(View()), lastCh, ch)
    {
      event := None;
      var punctuation := PunctuationToken(ch, cfg.tokenizeBrackets(request.command));
      if ch == QUOTE && IsWhitespace(lastCh) {
        event := PushArgumentToken(false);
        if event.None? {
          state := ArgumentQuoted(false);
        }
      } else if ch == BRACE_OPEN && (IsWhitespace(lastCh) || (lastCh == TILDE && |buf| == 1)) {
        if lastCh != TILDE {
          event := PushArgumentToken(false);
          if event.Some? {
            return;
          }
        } else {
          buf := [];
        }
        state := Literal(false);
      } else if punctuation.Some? {
        event := PushArgumentToken(false);
        if event.None? {
          event := PushPlainToken(punctuation.value);
        }
      } else if ch == LF {
        event := PushArgumentToken(false);
        if event.None? {
          state := cfg.startState;
          currentRequestSize := 0;
          event := Some(Done(request));
          request := Request([], cfg.defaultCommand, []);
        }
      } else if IsWhitespace(ch) {
        event := PushArgumentToken(false);
        if event.None? {
          state := InArgument(ch);
        }
      } else {
        event := PushChecked(ch, ARG_MAX_LEN, ArgumentTooLong);
        if event.None? {
          state := InArgument(ch);
        }
      }
    }

    method ConsumeQuoted(escaped: bool, ch: byte) returns (event: Option<Event<C>>)
      requires state == ArgumentQuoted(escaped)
      modifies this
      ensures Outcome(View(), event) == StepQuoted(cfg, old(View()), escaped, ch)
    {
      event := None;
      if ch == QUOTE {
        if !escaped {
          event := PushArgumentToken(true);
          if event.None? {
            state := InArgument(SP);
          }
        } else {
          event := PushChecked(ch, ARG_MAX_LEN, QuotedTooLong);
          if event.None? {
            state := ArgumentQuoted(false);
          }
        }
      } else if ch == BACKSLASH {
        if escaped {
          event := PushChecked(ch, ARG_MAX_LEN, QuotedTooLong);
          if event.Some? {
            return;
          }
        }
        state := ArgumentQuoted(!escaped);
      } else if ch == LF {
        event := ErrorReset(UnterminatedQuoted);
      } else {
        if escaped {
          buf := buf + [BACKSLASH];
        }
        event := PushChecked(ch, ARG_MAX_LEN, QuotedTooLong);
        if event.None? {
          state := ArgumentQuoted(false);
        }
      }
    }

    method ConsumeLiteral(nonSync: bool, ch: byte) returns (event: Option<Event<C>>)
      requires state == Literal(nonSync)
      modifies this
      ensures Outcome(View(), event) == StepLiteral(cfg, old(View()), nonSync, ch)
    {
      event := None;
      if ch == BRACE_CLOSE {
        if buf != [] {
          var size := ParseU32(buf);
          if size.None? {
            event := ErrorReset(LiteralSizeInvalid);
          } else if currentRequestSize + size.value > cfg.maxRequestSize {
            event := ErrorReset(LiteralTooLarge);
          } else {
            state := LiteralSeek(size.value, nonSync);
            buf := [];
          }
        } else {
          event := ErrorReset(EmptyLiteral);
        }
      } else if ch == PLUS {
        if buf != [] {
          state := Literal(true);
        } else {
          event := ErrorReset(InvalidNonSync);
        }
      } else if IsDigit(ch) {
        if !nonSync {
          event := PushChecked(ch, 15, LiteralTooManyDigits);
        } else {
          event := ErrorReset(InvalidLiteral);
        }
      } else {
        event := ErrorReset(InvalidLiteralCharacter);
      }
    }

    method ConsumeSeek(size: nat, nonSync: bool, ch: byte) returns (event: Option<Event<C>>)
      requires state == LiteralSeek(size, nonSync)
      modifies this
      ensures Outcome(View(), event) == StepSeek(cfg, old(View()), size, nonSync, ch)
    {
      event := None;
      if ch == LF {
        if size > 0 {
          state := LiteralData(size);
        } else {
          state := InArgument(SP);
          event := PushPlainToken(Nil);
          if event.Some? {
            return;
          }
        }
        if !nonSync {
          event := Some(NeedsLiteral(size));
        }
      } else if !IsWhitespace(ch) {
        event := ErrorReset(ExpectedCrlfAfterLiteral);
      }
    }

    method ConsumeData(remaining: nat, ch: byte) returns (event: Option<Event<C>>)
      requires state == LiteralData(remaining)
      modifies this
      ensures Outcome(View(), event) == StepData(cfg, old(View()), remaining, ch)
    {
      event := None;
      buf := buf + [ch];
      if remaining > 1 {
        state := LiteralData(remaining - 1);
      } else {
        event := PushArgumentToken(false);
        if event.None? {
          state := InArgument(SP);
        }
      }
    }

    /** The loop body of `parse`: one byte, dispatched on the state. */
    method Consume(ch: byte) returns (event: Option<Event<C>>)
      modifies this
      ensures Outcome(View(), event) == Step(cfg, old(View()), ch)
    {
      match state
      case Start =>
        event := None;
        if !IsWhitespace(ch) {
          buf := buf + [ch];
          state := Tag;
        }
      case Tag => event := ConsumeTag(ch);
      case Command(isUid) => event := ConsumeCommand(isUid, ch);
      case InArgument(lastCh) => event := ConsumeArgument(lastCh, ch);
      case ArgumentQuoted(escaped) => event := ConsumeQuoted(escaped, ch);
      case Literal(nonSync) => event := ConsumeLiteral(nonSync, ch);
      case LiteralSeek(size, nonSync) => event := ConsumeSeek(size, nonSync, ch);
      case LiteralData(remaining) => event := ConsumeData(remaining, ch);
    }

    /**
     Consumes `bytes` from `from` on until something is to be reported; None means "needs more data".
     The consumed bytes produced exactly the reported event.
     */
    method Parse(bytes: seq<byte>, from: nat) returns (event: Option<Event<C>>, next: nat)
      requires from <= |bytes|
      modifies this
      ensures from <= next <= |bytes|
      ensures Feed(cfg, old(View()), bytes[from..next]) == Trace(View(), EventSeq(event))
      ensures event.None? ==> next == |bytes|
      ensures event.Some? ==> from < next
    {
      event, next := None, from;
      while next < |bytes|
        invariant from <= next <= |bytes|
        invariant Feed(cfg, old(View()), bytes[from..next]) == Trace(View(), [])
        invariant event.None?
      {
        RunExtends(Stepper(cfg), old(View()), bytes, from, next);
        event := Consume(bytes[next]);
        next := next + 1;
        if event.Some? {
          return;
        }
      }
    }

    /** A session's receive loop: re-enters `Parse` until it needs more data. */
    method Drain(frame: seq<byte>) returns (events: seq<Event<C>>)
      modifies this
      ensures Trace(View(), events) == Feed(cfg, old(View()), frame)
    {
      events := [];
      var pos := 0;
      while true
        invariant pos <= |frame|
        invariant Feed(cfg, old(View()), frame[..pos]) == Trace(View(), events)
        decreases |frame| - pos
      {
        var event, next := Parse(frame, pos);
        assert frame[..next] == frame[..pos] + frame[pos..next];
        RunSplits(Stepper(cfg), old(View()), frame[..pos], frame[pos..next]);
        if event.None? {
          assert frame[..next] == frame;
          return;
        }
        events := events + [event.value];
        pos := next;
      }
    }

    /** Any way of cutting the stream into frames gives the events and the state of the whole stream. */
    method DrainAll(frames: seq<seq<byte>>) returns (events: seq<Event<C>>)
      modifies this
      ensures Trace(View(), events) == Feed(cfg, old(View()), Concat(frames))
    {
      events := [];
      ghost var start := View();
      for i := 0 to |frames|
        invariant RunFrames(Stepper(cfg), start, frames)
                  == Then(Trace(View(), events), RunFrames(Stepper(cfg), View(), frames[i..]))
      {
        var more := Drain(frames[i]);
        assert frames[i..][1..] == frames[i + 1..];
        events := events + more;
      }
      ChunkIndependence(cfg, start, frames);
    }
  }
}
