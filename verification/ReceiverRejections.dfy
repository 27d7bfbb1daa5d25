/**
 What the receiver refuses, and what it lets pass.

 Every error of the receiver is stated on the bytes a client sends: which bytes lead to it, under which tag it is
 reported, and that the receiver is left fresh.
 */
module ReceiverRejections {
  import opened Common
  import opened Machine
  import opened Receiver
  import opened ReceiverInvariant
  import opened ReceiverRoundTrip
  import opened ReceiverJunctures

  /** Reading `bytes` ends with the error and nothing else, and leaves the receiver fresh. */
  ghost predicate Rejects<C>(cfg: Config<C>, r: Core<C>, bytes: seq<byte>, error: ErrorKind) {
    Feed(cfg, r, bytes) == Trace(Fresh(cfg), [Failure(TagOf(r), error)])
  }

  function TagOf<C>(r: Core<C>): Option<seq<byte>> {
    if r.request.tag == [] then None else Some(r.request.tag)
  }

  /** What is read without an event moves the rejection behind it. */
  lemma RejectsBehind<C>(cfg: Config<C>, r: Core<C>, a: seq<byte>, r': Core<C>, b: seq<byte>, error: ErrorKind)
    requires Feed(cfg, r, a) == Trace(r', []) && TagOf(r') == TagOf(r) && Rejects(cfg, r', b, error)
    ensures Rejects(cfg, r, a + b, error)
  {
    hide Step, Run;
    RunJoins(Stepper(cfg), r, a, r', [], b, Fresh(cfg), [Failure(TagOf(r), error)]);
  }

  lemma RejectsByte<C>(cfg: Config<C>, r: Core<C>, ch: byte, error: ErrorKind)
    requires Step(cfg, r, ch) == Reset(cfg, r, error)
    ensures Rejects(cfg, r, [ch], error)
  {
    RunOne(Stepper(cfg), r, ch);
  }

  // ----- Tags ---------------------------------------------------------------------------------

  predicate TagText(tag: seq<byte>) {
    0 < |tag| <= 128 && !Blank(tag[0]) && forall i :: 0 <= i < |tag| ==> TagByte(tag[i])
  }

  /** A line that ends behind its tag, a tag that is too long, and one that is not UTF-8. */
  lemma TagRejected<C>(cfg: Config<C>, tag: seq<byte>)
    requires cfg.startState == Start && TagText(tag)
    ensures Rejects(cfg, Fresh(cfg), tag + [Ascii('\n')], MissingCommand)
    ensures |tag| == 128 ==> forall ch | TagByte(ch) :: Rejects(cfg, Fresh(cfg), tag + [ch], TagTooLong)
    ensures !cfg.isUtf8(tag) ==> Rejects(cfg, Fresh(cfg), tag + [Ascii(' ')], TagNotUtf8)
  {
    hide Run, Step;
    var r := Fresh(cfg).(buf := tag, state := Tag);
    TagRun(cfg, tag);
    TagSteps(cfg, r);
    RejectsByte(cfg, r, LF, MissingCommand);
    RejectsBehind(cfg, Fresh(cfg), tag, r, [LF], MissingCommand);
    if |tag| == 128 {
      forall ch | TagByte(ch)
        ensures Rejects(cfg, Fresh(cfg), tag + [ch], TagTooLong)
      {
        RejectsByte(cfg, r, ch, TagTooLong);
        RejectsBehind(cfg, Fresh(cfg), tag, r, [ch], TagTooLong);
      }
    }
    if !cfg.isUtf8(tag) {
      RejectsByte(cfg, r, SP, TagNotUtf8);
      RejectsBehind(cfg, Fresh(cfg), tag, r, [SP], TagNotUtf8);
    }
  }

  lemma TagSteps<C>(cfg: Config<C>, r: Core<C>)
    requires r.state == Tag && r.buf != []
    ensures Step(cfg, r, LF) == Reset(cfg, r, MissingCommand)
    ensures |r.buf| == 128 ==> forall ch | TagByte(ch) :: Step(cfg, r, ch) == Reset(cfg, r, TagTooLong)
    ensures !cfg.isUtf8(r.buf) ==> Step(cfg, r, SP) == Reset(cfg, r, TagNotUtf8)
  {}

  // ----- Command names ------------------------------------------------------------------------

  predicate NameText(name: seq<byte>) {
    |name| <= 15 && forall i :: 0 <= i < |name| ==> NameByte(name[i])
  }

  /** A name that is not in the command table, too long, or broken off by a byte no name may hold. */
  lemma NameRejected<C>(cfg: Config<C>, r: Core<C>, uid: bool, name: seq<byte>)
    requires r.state == Command(uid) && r.buf == [] && NameText(name)
    ensures name != [] && Upper(name) != UID && cfg.parseCommand(Upper(name), uid).None? ==>
              forall sep | Blank(sep) :: Rejects(cfg, r, name + [sep], UnrecognizedCommand)
    ensures |name| == 15 ==> forall ch | NameByte(ch) :: Rejects(cfg, r, name + [ch], CommandTooLong)
    ensures forall ch | !NameByte(ch) && !Blank(ch) :: Rejects(cfg, r, name + [ch], InvalidCommandCharacter)
  {
    hide Run, Step, Rejects;
    var r' := r.(buf := Upper(name));
    NameRun(cfg, r, name);
    NameSteps(cfg, r');
    if name != [] && Upper(name) != UID && cfg.parseCommand(Upper(name), uid).None? {
      forall sep | Blank(sep)
        ensures Rejects(cfg, r, name + [sep], UnrecognizedCommand)
      {
        RejectsByte(cfg, r', sep, UnrecognizedCommand);
        RejectsBehind(cfg, r, name, r', [sep], UnrecognizedCommand);
      }
    }
    if |name| == 15 {
      forall ch | NameByte(ch)
        ensures Rejects(cfg, r, name + [ch], CommandTooLong)
      {
        RejectsByte(cfg, r', ch, CommandTooLong);
        RejectsBehind(cfg, r, name, r', [ch], CommandTooLong);
      }
    }
    forall ch | !NameByte(ch) && !Blank(ch)
      ensures Rejects(cfg, r, name + [ch], InvalidCommandCharacter)
    {
      RejectsByte(cfg, r', ch, InvalidCommandCharacter);
      RejectsBehind(cfg, r, name, r', [ch], InvalidCommandCharacter);
    }
  }

  lemma NameSteps<C>(cfg: Config<C>, r: Core<C>)
    requires r.state.Command?
    ensures r.buf != [] && r.buf != UID && cfg.parseCommand(r.buf, r.state.isUid).None? ==>
              forall sep | Blank(sep) :: Step(cfg, r, sep) == Reset(cfg, r, UnrecognizedCommand)
    ensures |r.buf| == 15 ==> forall ch | NameByte(ch) :: Step(cfg, r, ch) == Reset(cfg, r, CommandTooLong)
    ensures forall ch | !NameByte(ch) && !Blank(ch) :: Step(cfg, r, ch) == Reset(cfg, r, InvalidCommandCharacter)
  {}

  /** An unknown command is an error under its own tag; it is never taken for another command. */
  lemma UnknownCommand<C>(cfg: Config<C>, tag: seq<byte>, uid: bool, name: seq<byte>, sep: byte)
    requires cfg.startState == Start && LegalTag(cfg, tag) && LegalName(name) && Upper(name) != UID && Blank(sep)
    requires cfg.parseCommand(Upper(name), uid).None?
    ensures Feed(cfg, Fresh(cfg), tag + [Ascii(' ')] + UidText(uid) + (name + [sep]))
         == Trace(Fresh(cfg), [Failure(Some(tag), UnrecognizedCommand)])
  {
    hide Step, Run;
    var r := Core([], Request(tag, cfg.defaultCommand, []), Command(uid), 0);
    PrefixRun(cfg, tag, uid);
    NameRejected(cfg, r, uid, name);
    RunJoins(Stepper(cfg), Fresh(cfg), tag + [SP] + UidText(uid), r, [], name + [sep], Fresh(cfg),
             [Failure(Some(tag), UnrecognizedCommand)]);
  }

  /** So is a name that is too long or holds another byte. */
  lemma BadName<C>(cfg: Config<C>, tag: seq<byte>, uid: bool, name: seq<byte>, ch: byte)
    requires cfg.startState == Start && LegalTag(cfg, tag) && NameText(name)
    requires if NameByte(ch) then |name| == 15 else !Blank(ch)
    ensures Feed(cfg, Fresh(cfg), tag + [Ascii(' ')] + UidText(uid) + (name + [ch]))
         == Trace(Fresh(cfg), [Failure(Some(tag), if NameByte(ch) then CommandTooLong else InvalidCommandCharacter)])
  {
    hide Step, Run;
    var r := Core([], Request(tag, cfg.defaultCommand, []), Command(uid), 0);
    PrefixRun(cfg, tag, uid);
    NameRejected(cfg, r, uid, name);
    RunJoins(Stepper(cfg), Fresh(cfg), tag + [SP] + UidText(uid), r, [], name + [ch], Fresh(cfg),
             [Failure(Some(tag), if NameByte(ch) then CommandTooLong else InvalidCommandCharacter)]);
  }

  /** `command` is what the table holds for some name. */
  ghost predicate InTable<C(!new)>(cfg: Config<C>, command: C) {
    exists name: seq<byte>, uid :: cfg.parseCommand(name, uid) == Some(command)
  }

  /** Past the command name the command is one of the table. */
  ghost predicate CommandKnown<C(!new)>(cfg: Config<C>, r: Core<C>) {
    r.state.Start? || r.state.Tag? || r.state.Command? || InTable(cfg, r.request.command)
  }

  lemma KnownStays<C(!new)>(cfg: Config<C>, r: Core<C>, ch: byte)
    requires cfg.startState.Start? || cfg.startState.Command?
    requires CommandKnown(cfg, r)
    ensures var o := Step(cfg, r, ch);
            && CommandKnown(cfg, o.core)
            && match o.event
               case Some(Done(request)) => InTable(cfg, request.command)
               case _ => true
  {
    match r.state
    case Command(uid) =>
      if cfg.parseCommand(r.buf, uid).Some? {
        assert InTable(cfg, cfg.parseCommand(r.buf, uid).value);
      }
    case _ =>
      hide InTable;
  }

  lemma {:induction false} KnownRun<C(!new)>(cfg: Config<C>, r: Core<C>, bytes: seq<byte>)
    requires cfg.startState.Start? || cfg.startState.Command?
    requires CommandKnown(cfg, r)
    ensures forall e :: e in Feed(cfg, r, bytes).events && e.Done? ==> InTable(cfg, e.request.command)
    decreases |bytes|
  {
    hide Step, CommandKnown, InTable;
    if bytes != [] {
      KnownStays(cfg, r, bytes[0]);
      KnownRun(cfg, Step(cfg, r, bytes[0]).core, bytes[1..]);
    }
  }

  /** Every request that is reported carries a command of the table. */
  lemma OnlyKnownCommands<C(!new)>(cfg: Config<C>, bytes: seq<byte>)
    requires cfg.startState.Start? || cfg.startState.Command?
    ensures forall e :: e in Feed(cfg, Fresh(cfg), bytes).events && e.Done? ==>
              exists name, uid :: cfg.parseCommand(name, uid) == Some(e.request.command)
  {
    hide Step;
    KnownRun(cfg, Fresh(cfg), bytes);
  }

  // ----- Arguments ----------------------------------------------------------------------------

  /** What no argument list may hold; each ends with the byte that is refused. */
  datatype Fault =
    | OpenQuote(text: seq<byte>)
    | LongQuote(text: seq<byte>, ch: byte)
    | LongAtom(text: seq<byte>, ch: byte)
    | InLiteral(binary: bool, fault: LiteralFault)

  /** What may be wrong behind the opening brace of a literal. */
  datatype LiteralFault =
    | TooLarge(size: nat, nonSync: bool)
    | TooHuge(digits: seq<byte>, nonSync: bool)
    | NoSize
    | PlusFirst
    | LongSize(digits: seq<byte>, ch: byte)
    | DigitBehindPlus(digits: seq<byte>, ch: byte)
    | BadByte(digits: seq<byte>, nonSync: bool, ch: byte)
    | NoLineEnd(size: nat, nonSync: bool, ch: byte)

  function PlusText(nonSync: bool): seq<byte> {
    if nonSync then [Ascii('+')] else []
  }

  function LiteralFaultText(fault: LiteralFault): seq<byte> {
    match fault
    case TooLarge(size, nonSync) => Decimal(size) + PlusText(nonSync) + [Ascii('}')]
    case TooHuge(digits, nonSync) => digits + PlusText(nonSync) + [Ascii('}')]
    case NoSize => [Ascii('}')]
    case PlusFirst => [Ascii('+')]
    case LongSize(digits, ch) => digits + [ch]
    case DigitBehindPlus(digits, ch) => digits + PlusText(true) + [ch]
    case BadByte(digits, nonSync, ch) => digits + PlusText(nonSync) + [ch]
    case NoLineEnd(size, nonSync, ch) => Decimal(size) + PlusText(nonSync) + [Ascii('}')] + [ch]
  }

  function LiteralFaultError(fault: LiteralFault): ErrorKind {
    match fault
    case TooLarge(_, _) => LiteralTooLarge
    case TooHuge(_, _) => LiteralSizeInvalid
    case NoSize => EmptyLiteral
    case PlusFirst => InvalidNonSync
    case LongSize(_, _) => LiteralTooManyDigits
    case DigitBehindPlus(_, _) => InvalidLiteral
    case BadByte(_, _, _) => InvalidLiteralCharacter
    case NoLineEnd(_, _, _) => ExpectedCrlfAfterLiteral
  }

  predicate Digit(ch: byte) { Ascii('0') <= ch <= Ascii('9') }

  predicate Digits(s: seq<byte>) {
    |s| <= 15 && forall i :: 0 <= i < |s| ==> Digit(s[i])
  }

  /** `room`: what is left of the size budget. */
  predicate IsLiteralFault(fault: LiteralFault, room: nat) {
    match fault
    case TooLarge(size, _) => room < size < 0x1_0000_0000
    case TooHuge(digits, _) => Digits(digits) && digits != [] && DecimalValue(digits) >= 0x1_0000_0000
    case NoSize => true
    case PlusFirst => true
    case LongSize(digits, ch) => Digits(digits) && |digits| == 15 && Digit(ch)
    case DigitBehindPlus(digits, ch) => Digits(digits) && digits != [] && Digit(ch)
    case BadByte(digits, nonSync, ch) =>
      Digits(digits) && (nonSync ==> digits != []) && !Digit(ch) && ch != Ascii('+') && ch != Ascii('}')
    case NoLineEnd(size, _, ch) => size <= room && size < 0x1_0000_0000 && !Blank(ch)
  }

  function FaultText(fault: Fault): seq<byte> {
    match fault
    case OpenQuote(text) => [Ascii('"')] + Escape(text) + [Ascii('\n')]
    case LongQuote(text, ch) => [Ascii('"')] + Escape(text) + EscapeByte(ch)
    case LongAtom(text, ch) => text + [ch]
    case InLiteral(binary, f) => LiteralOpening(binary) + LiteralFaultText(f)
  }

  function FaultError(fault: Fault): ErrorKind {
    match fault
    case OpenQuote(_) => UnterminatedQuoted
    case LongQuote(_, _) => QuotedTooLong
    case LongAtom(_, _) => ArgumentTooLong
    case InLiteral(_, f) => LiteralFaultError(f)
  }

  predicate IsFault(fault: Fault, room: nat, brackets: bool) {
    match fault
    case OpenQuote(text) => |text| <= 8000 && Ascii('\n') !in text
    case LongQuote(text, ch) => |text| == 8000 && Ascii('\n') !in text && ch != Ascii('\n')
    case LongAtom(text, ch) =>
      |text| == 8000 && AtomByte(ch, brackets) && forall i :: 0 <= i < |text| ==> AtomByte(text[i], brackets)
    case InLiteral(_, f) => IsLiteralFault(f, room)
  }

  /** Size and optional `+`. */
  lemma SizeRun<C>(cfg: Config<C>, r: Core<C>, digits: seq<byte>, nonSync: bool)
    requires r.state == Literal(false) && r.buf == [] && Digits(digits) && (nonSync ==> digits != [])
    ensures Feed(cfg, r, digits + PlusText(nonSync)) == Trace(r.(buf := digits, state := Literal(nonSync)), [])
  {
    hide Step, Run;
    var sized := r.(buf := digits);
    DigitsRun(cfg, r, digits);
    if nonSync {
      PlusRun(cfg, sized, nonSync);
    } else {
      RunNone(Stepper(cfg), sized);
    }
    RunJoins(Stepper(cfg), r, digits, sized, [], PlusText(nonSync), sized.(state := Literal(nonSync)), []);
  }

  /** What the closing brace does. */
  lemma BraceStep<C>(cfg: Config<C>, r: Core<C>)
    requires r.state.Literal?
    ensures r.buf == [] ==> Step(cfg, r, BRACE_CLOSE) == Reset(cfg, r, EmptyLiteral)
    ensures r.buf != [] && ParseU32(r.buf).None? ==> Step(cfg, r, BRACE_CLOSE) == Reset(cfg, r, LiteralSizeInvalid)
    ensures ParseU32(r.buf).Some? ==>
              var size := ParseU32(r.buf).value;
              Step(cfg, r, BRACE_CLOSE)
              == if r.size + size > cfg.maxRequestSize then Reset(cfg, r, LiteralTooLarge)
                 else Go(r.(buf := [], state := LiteralSeek(size, r.state.nonSync)))
  {}

  lemma LiteralByteSteps<C>(cfg: Config<C>, r: Core<C>, ch: byte)
    requires r.state.Literal?
    ensures ch == PLUS && r.buf == [] ==> Step(cfg, r, ch) == Reset(cfg, r, InvalidNonSync)
    ensures Digit(ch) && !r.state.nonSync && |r.buf| == 15 ==> Step(cfg, r, ch) == Reset(cfg, r, LiteralTooManyDigits)
    ensures Digit(ch) && r.state.nonSync ==> Step(cfg, r, ch) == Reset(cfg, r, InvalidLiteral)
    ensures !Digit(ch) && ch != PLUS && ch != BRACE_CLOSE ==> Step(cfg, r, ch) == Reset(cfg, r, InvalidLiteralCharacter)
  {}

  lemma SizeIsDigits(size: nat)
    requires size < 0x1_0000_0000
    ensures Digits(Decimal(size)) && Decimal(size) != [] && ParseU32(Decimal(size)) == Some(size)
  {
    SizeReads(size);
  }

  lemma HugeSize(digits: seq<byte>)
    requires DecimalValue(digits) >= 0x1_0000_0000
    ensures ParseU32(digits) == None
  {}

  lemma BraceRejects<C>(cfg: Config<C>, r: Core<C>, digits: seq<byte>, nonSync: bool, error: ErrorKind)
    requires r.state == Literal(false) && r.buf == [] && Digits(digits) && (nonSync ==> digits != [])
    requires var sized := r.(buf := digits, state := Literal(nonSync));
             Step(cfg, sized, BRACE_CLOSE) == Reset(cfg, sized, error)
    ensures Rejects(cfg, r, digits + PlusText(nonSync) + [Ascii('}')], error)
  {
    hide Step, Run;
    var sized := r.(buf := digits, state := Literal(nonSync));
    SizeRun(cfg, r, digits, nonSync);
    RejectsByte(cfg, sized, BRACE_CLOSE, error);
    RejectsBehind(cfg, r, digits + PlusText(nonSync), sized, [BRACE_CLOSE], error);
  }

  lemma ByteRejects<C>(cfg: Config<C>, r: Core<C>, digits: seq<byte>, nonSync: bool, ch: byte, error: ErrorKind)
    requires r.state == Literal(false) && r.buf == [] && Digits(digits) && (nonSync ==> digits != [])
    requires var sized := r.(buf := digits, state := Literal(nonSync));
             Step(cfg, sized, ch) == Reset(cfg, sized, error)
    ensures Rejects(cfg, r, digits + PlusText(nonSync) + [ch], error)
  {
    hide Step, Run;
    var sized := r.(buf := digits, state := Literal(nonSync));
    SizeRun(cfg, r, digits, nonSync);
    RejectsByte(cfg, sized, ch, error);
    RejectsBehind(cfg, r, digits + PlusText(nonSync), sized, [ch], error);
  }

  lemma LiteralRejected<C>(cfg: Config<C>, r: Core<C>, fault: LiteralFault)
    requires r.state == Literal(false) && r.buf == [] && r.size <= cfg.maxRequestSize
    requires IsLiteralFault(fault, cfg.maxRequestSize - r.size)
    ensures Rejects(cfg, r, LiteralFaultText(fault), LiteralFaultError(fault))
  {
    hide Step, Run, Rejects, ParseU32, Decimal;
    match fault
    case TooLarge(size, nonSync) =>
      SizeIsDigits(size);
      BraceStep(cfg, r.(buf := Decimal(size), state := Literal(nonSync)));
      BraceRejects(cfg, r, Decimal(size), nonSync, LiteralTooLarge);
    case TooHuge(digits, nonSync) =>
      HugeSize(digits);
      BraceStep(cfg, r.(buf := digits, state := Literal(nonSync)));
      BraceRejects(cfg, r, digits, nonSync, LiteralSizeInvalid);
    case NoSize =>
      BraceStep(cfg, r);
      RejectsByte(cfg, r, BRACE_CLOSE, EmptyLiteral);
    case PlusFirst =>
      LiteralByteSteps(cfg, r, PLUS);
      RejectsByte(cfg, r, PLUS, InvalidNonSync);
    case LongSize(digits, ch) =>
      LiteralByteSteps(cfg, r.(buf := digits), ch);
      ByteRejects(cfg, r, digits, false, ch, LiteralTooManyDigits);
      assert digits + PlusText(false) == digits;
    case DigitBehindPlus(digits, ch) =>
      LiteralByteSteps(cfg, r.(buf := digits, state := Literal(true)), ch);
      ByteRejects(cfg, r, digits, true, ch, InvalidLiteral);
    case BadByte(digits, nonSync, ch) =>
      LiteralByteSteps(cfg, r.(buf := digits, state := Literal(nonSync)), ch);
      ByteRejects(cfg, r, digits, nonSync, ch, InvalidLiteralCharacter);
    case NoLineEnd(size, nonSync, ch) => LineEndMissing(cfg, r, size, nonSync, ch);
  }

  lemma LineEndMissing<C>(cfg: Config<C>, r: Core<C>, size: nat, nonSync: bool, ch: byte)
    requires r.state == Literal(false) && r.buf == []
    requires size < 0x1_0000_0000 && r.size + size <= cfg.maxRequestSize && !Blank(ch)
    ensures Rejects(cfg, r, Decimal(size) + PlusText(nonSync) + [Ascii('}')] + [ch], ExpectedCrlfAfterLiteral)
  {
    hide Run, Rejects, ParseU32, Decimal;
    var digits := Decimal(size);
    var sized := r.(buf := digits, state := Literal(nonSync));
    var seek := r.(state := LiteralSeek(size, nonSync));
    SizeIsDigits(size);
    SizeRun(cfg, r, digits, nonSync);
    BraceStep(cfg, sized);
    FeedExtends(cfg, r, digits + PlusText(nonSync), BRACE_CLOSE);
    RejectsByte(cfg, seek, ch, ExpectedCrlfAfterLiteral);
    RejectsBehind(cfg, r, digits + PlusText(nonSync) + [BRACE_CLOSE], seek, [ch], ExpectedCrlfAfterLiteral);
  }

  lemma QuotedSteps<C>(cfg: Config<C>, r: Core<C>, ch: byte)
    requires r.state == ArgumentQuoted(false)
    ensures Step(cfg, r, LF) == Reset(cfg, r, UnterminatedQuoted)
    ensures |r.buf| == 8000 && ch != LF ==> Rejects(cfg, r, EscapeByte(ch), QuotedTooLong)
  {
    if |r.buf| == 8000 && ch != LF {
      if ch == QUOTE || ch == BACKSLASH {
        RunOne(Stepper(cfg), r, BACKSLASH);
        FeedExtends(cfg, r, [BACKSLASH], ch);
        assert EscapeByte(ch) == [BACKSLASH] + [ch];
      } else {
        RunOne(Stepper(cfg), r, ch);
      }
    }
  }

  /** Every fault is refused with its own error. */
  lemma FaultRejected<C>(cfg: Config<C>, r: Core<C>, fault: Fault)
    requires At(cfg, r, Quiet) && r.size <= cfg.maxRequestSize
    requires IsFault(fault, cfg.maxRequestSize - r.size, cfg.tokenizeBrackets(r.request.command))
    ensures Rejects(cfg, r, FaultText(fault), FaultError(fault))
  {
    hide Step, Run, Rejects, Escape, AtomByte;
    var quoted := r.(state := ArgumentQuoted(false));
    match fault
    case InLiteral(binary, f) =>
      OpeningStep(cfg, r, Quiet, binary);
      LiteralRejected(cfg, r.(state := Literal(false)), f);
      RejectsBehind(cfg, r, LiteralOpening(binary), r.(state := Literal(false)), LiteralFaultText(f), FaultError(fault));
    case LongAtom(text, ch) =>
      var full := r.(buf := text, state := InArgument(text[|text| - 1]));
      AtomRun(cfg, r, text);
      AtomFull(cfg, full, ch);
      RejectsByte(cfg, full, ch, ArgumentTooLong);
      RejectsBehind(cfg, r, text, full, [ch], ArgumentTooLong);
    case OpenQuote(text) =>
      QuoteRun(cfg, r, text);
      QuotedSteps(cfg, quoted.(buf := text), LF);
      RejectsByte(cfg, quoted.(buf := text), LF, UnterminatedQuoted);
      RejectsBehind(cfg, r, [QUOTE] + Escape(text), quoted.(buf := text), [LF], UnterminatedQuoted);
    case LongQuote(text, ch) =>
      QuoteRun(cfg, r, text);
      QuotedSteps(cfg, quoted.(buf := text), ch);
      RejectsBehind(cfg, r, [QUOTE] + Escape(text), quoted.(buf := text), EscapeByte(ch), QuotedTooLong);
  }

  lemma AtomFull<C>(cfg: Config<C>, r: Core<C>, ch: byte)
    requires r.state.InArgument? && |r.buf| == 8000 && AtomByte(ch, cfg.tokenizeBrackets(r.request.command))
    ensures Step(cfg, r, ch) == Reset(cfg, r, ArgumentTooLong)
  {}

  lemma QuoteRun<C>(cfg: Config<C>, r: Core<C>, text: seq<byte>)
    requires At(cfg, r, Quiet) && |text| <= 8000 && LF !in text
    ensures Feed(cfg, r, [QUOTE] + Escape(text)) == Trace(r.(buf := text, state := ArgumentQuoted(false)), [])
  {
    hide Step, Run, Escape, AtomByte;
    var quoted := r.(state := ArgumentQuoted(false));
    OpeningStep(cfg, r, Quiet, true);
    EscapeRun(cfg, quoted, text);
    RunJoins(Stepper(cfg), r, [QUOTE], quoted, [], Escape(text), quoted.(buf := text), []);
  }

  // ----- Faults behind arguments --------------------------------------------------------------

  function PrintBody(items: seq<Item>): seq<byte> {
    if items == [] then [] else Gap(items[0]) + PrintItem(items[0]) + PrintBody(items[1..])
  }

  function AfterItems<C>(r: Core<C>, items: seq<Item>): Core<C>
    decreases |items|
  {
    if items == [] then r else AfterItems(AfterItem(Spaced(r, items[0]), items[0]), items[1..])
  }

  function LastPlace(items: seq<Item>, place: Place): Place {
    if items == [] then place else LastPlace(items[1..], After(items[0], Here(items[0], place)))
  }

  /** Joined items are read, and what comes behind them is still to be read. */
  lemma {:induction false} BodyRun<C>(cfg: Config<C>, r: Core<C>, items: seq<Item>, place: Place)
    requires At(cfg, r, place) && Joined(items, place) && LegalItems(cfg, r.request.command, items)
    requires Flushed(r).size + TotalCharge(items) <= cfg.maxRequestSize
    ensures var r' := AfterItems(r, items);
            && Feed(cfg, r, PrintBody(items)) == Trace(r', Prompts(items))
            && At(cfg, r', LastPlace(items, place))
            && Flushed(r').size == Flushed(r).size + TotalCharge(items)
            && r'.request.tag == r.request.tag && r'.request.command == r.request.command
    decreases |items|
  {
    hide Step, Run;
    if items == [] {
      RunNone(Stepper(cfg), r);
    } else {
      hide PrintItem, Charge, LegalItem, ItemPrompt, At, AfterItem, Joins, Here, Gap, Prompts, Spaced, After;
      var item, rest, here := items[0], items[1..], Here(items[0], place);
      var r1 := Spaced(r, item);
      var r2 := AfterItem(r1, item);
      GapRun(cfg, r, item, place);
      ItemRun(cfg, r1, item, here);
      RequestKept(r, item);
      BodyRun(cfg, r2, rest, After(item, here));
      RunJoins(Stepper(cfg), r, Gap(item), r1, [], PrintItem(item), r2, ItemPrompt(item));
      RunJoins(Stepper(cfg), r, Gap(item) + PrintItem(item), r2, [] + ItemPrompt(item), PrintBody(rest),
               AfterItems(r2, rest), Prompts(rest));
      ItemsSplit<C>(items);
    }
  }

  lemma RequestKept<C>(r: Core<C>, item: Item)
    ensures var r' := AfterItem(Spaced(r, item), item);
            r'.request.tag == r.request.tag && r'.request.command == r.request.command
    ensures Spaced(r, item).request.command == r.request.command
  {}

  /** A fault behind the arguments of a request: their prompts, then the error under the tag of the request. */
  lemma FaultReported<C>(cfg: Config<C>, sent: Sent<C>, fault: Fault)
    requires cfg.startState == Start && LegalRequest(cfg, sent) && Joined(sent.items, Quiet)
    requires IsFault(fault, cfg.maxRequestSize - TotalCharge(sent.items), cfg.tokenizeBrackets(sent.command))
    ensures var head := sent.tag + [Ascii(' ')] + UidText(sent.uid) + sent.name + [Ascii(' ')];
            Feed(cfg, Fresh(cfg), head + PrintBody(sent.items) + [Ascii(' ')] + FaultText(fault))
            == Trace(Fresh(cfg), Prompts(sent.items) + [Failure(Some(sent.tag), FaultError(fault))])
  {
    hide Step, Run, IsFault, FaultText, FaultError, LegalItem, Upper, LegalName;
    var head := sent.tag + [Ascii(' ')] + UidText(sent.uid) + sent.name + [Ascii(' ')];
    var ready := Core([], Request(sent.tag, sent.command, []), InArgument(SP), 0);
    var r := AfterItems(ready, sent.items);
    var r' := Flushed(r).(state := InArgument(SP));
    HeadRun(cfg, sent, SP);
    BodyRun(cfg, ready, sent.items, Quiet);
    SeparatorStep(cfg, r, SP);
    FaultRejected(cfg, r', fault);
    RunJoins(Stepper(cfg), Fresh(cfg), head, ready, [], PrintBody(sent.items), r, Prompts(sent.items));
    var events := [] + Prompts<C>(sent.items);
    RunJoins(Stepper(cfg), Fresh(cfg), head + PrintBody(sent.items), r, events, [SP], r', []);
    assert events + [] == Prompts(sent.items);
    RunJoins(Stepper(cfg), Fresh(cfg), head + PrintBody(sent.items) + [SP], r', Prompts(sent.items), FaultText(fault),
             Fresh(cfg), [Failure(Some(sent.tag), FaultError(fault))]);
  }

  // ----- The size budget ----------------------------------------------------------------------

  /** The error of the first item that does not fit: a literal is refused by its announced size. */
  function BudgetError(limit: nat, size: nat, items: seq<Item>): ErrorKind
    requires size + TotalCharge(items) > limit
    decreases |items|
  {
    if size > limit then RequestTooLarge
    else if size + Charge(items[0]) > limit && items[0].form.Counted? && items[0].token.Argument? then LiteralTooLarge
    else BudgetError(limit, size + Charge(items[0]), items[1..])
  }

  ghost predicate FailsFirst<C>(cfg: Config<C>, r: Core<C>, bytes: seq<byte>, error: ErrorKind) {
    FirstEnd(Feed(cfg, r, bytes).events) == Some(Failure(TagOf(r), error))
  }

  lemma RejectionFirst<C>(cfg: Config<C>, r: Core<C>, a: seq<byte>, rest: seq<byte>, error: ErrorKind)
    requires Rejects(cfg, r, a, error)
    ensures FailsFirst(cfg, r, a + rest, error)
  {
    hide Step, Run;
    RunSplits(Stepper(cfg), r, a, rest);
    EndJoins([Failure(TagOf(r), error)], Feed(cfg, Fresh(cfg), rest).events);
  }

  lemma FailsLater<C>(cfg: Config<C>, r: Core<C>, a: seq<byte>, r': Core<C>, prompts: seq<Event<C>>, rest: seq<byte>, error: ErrorKind)
    requires Feed(cfg, r, a) == Trace(r', prompts) && FirstEnd(prompts) == None && TagOf(r') == TagOf(r)
    requires FailsFirst(cfg, r', rest, error)
    ensures FailsFirst(cfg, r, a + rest, error)
  {
    hide Step, Run;
    RunSplits(Stepper(cfg), r, a, rest);
    EndJoins(prompts, Feed(cfg, r', rest).events);
  }

  /** An atom that does not fit is refused by what comes behind it. */
  lemma PendingOver<C>(cfg: Config<C>, r: Core<C>, items: seq<Item>)
    requires At(cfg, r, InAtom) && Flushed(r).size > cfg.maxRequestSize
    requires Joined(items, InAtom) && LegalItems(cfg, r.request.command, items)
    ensures FailsFirst(cfg, r, PrintItems(items), RequestTooLarge)
  {
    var text := PrintItems(items);
    PendingStep(cfg, r, CR);
    PendingStep(cfg, r, SP);
    if items != [] && !items[0].blank {
      assert LegalItem(items[0], cfg.tokenizeBrackets(r.request.command));
      PendingStep(cfg, r, PunctuationByte(items[0].token));
    }
    hide Step, Run;
    RejectsByte(cfg, r, text[0], RequestTooLarge);
    RejectionFirst(cfg, r, [text[0]], text[1..], RequestTooLarge);
    assert text == [text[0]] + text[1..];
  }

  lemma PendingStep<C>(cfg: Config<C>, r: Core<C>, ch: byte)
    requires At(cfg, r, InAtom) && Flushed(r).size > cfg.maxRequestSize
    requires Blank(ch) || Punctuates(ch, cfg.tokenizeBrackets(r.request.command))
    ensures Step(cfg, r, ch) == Reset(cfg, r, RequestTooLarge)
  {}

  lemma QuoteOver<C>(cfg: Config<C>, r: Core<C>, s: seq<byte>)
    requires At(cfg, r, Quiet) && 0 < |s| <= 8000 && LF !in s && r.size + |s| > cfg.maxRequestSize
    ensures Rejects(cfg, r, [QUOTE] + Escape(s) + [QUOTE], RequestTooLarge)
  {
    hide Run, Escape, AtomByte;
    var full := r.(buf := s, state := ArgumentQuoted(false));
    assert Step(cfg, full, QUOTE) == Reset(cfg, full, RequestTooLarge);
    hide Step;
    QuoteRun(cfg, r, s);
    RejectsByte(cfg, full, QUOTE, RequestTooLarge);
    RejectsBehind(cfg, r, [QUOTE] + Escape(s), full, [QUOTE], RequestTooLarge);
  }

  lemma PunctuationOver<C>(cfg: Config<C>, r: Core<C>, item: Item)
    requires r.state.InArgument? && !IsValue(item) && LegalItem(item, cfg.tokenizeBrackets(r.request.command))
    requires Flushed(r).size + 1 > cfg.maxRequestSize
    ensures Rejects(cfg, r, PrintItem(item), RequestTooLarge)
  {
    var ch := PunctuationByte(item.token);
    assert Step(cfg, r, ch) == Reset(cfg, r, RequestTooLarge);
    hide Step;
    RejectsByte(cfg, r, ch, RequestTooLarge);
  }

  lemma LiteralOver<C>(cfg: Config<C>, r: Core<C>, item: Item, here: Place, rest: seq<byte>)
    requires At(cfg, r, here) && Joins(item, here) && LegalItem(item, cfg.tokenizeBrackets(r.request.command))
    requires IsValue(item) && item.form.Counted?
    requires r.size <= cfg.maxRequestSize < r.size + Charge(item)
    ensures FailsFirst(cfg, r, PrintItem(item) + rest, if item.token.Argument? then LiteralTooLarge else RequestTooLarge)
  {
    hide Step, Run, Decimal, Rejects, AtomByte;
    var s, nonSync, open := ValueOf(item), item.form.nonSync, LiteralOpening(item.form.binary);
    var r' := r.(state := Literal(false));
    OpeningStep(cfg, r, here, item.form.binary);
    if item.token.Argument? {
      var text := LiteralFaultText(TooLarge(|s|, nonSync));
      LiteralRejected(cfg, r', TooLarge(|s|, nonSync));
      RejectsBehind(cfg, r, open, r', text, LiteralTooLarge);
      RejectionFirst(cfg, r, open + text, [CR, LF] + s + rest, LiteralTooLarge);
      assert PrintItem(item) + rest == open + text + ([CR, LF] + s + rest);
    } else {
      EmptyOver(cfg, r', nonSync);
      RejectsBehind(cfg, r, open, r', LiteralHeader(0, nonSync), RequestTooLarge);
      RejectionFirst(cfg, r, open + LiteralHeader(0, nonSync), rest, RequestTooLarge);
      assert PrintItem(item) == open + LiteralHeader(0, nonSync);
    }
  }

  /** An empty literal costs one unit, which is refused at the end of its header. */
  lemma EmptyOver<C>(cfg: Config<C>, r: Core<C>, nonSync: bool)
    requires r.state == Literal(false) && r.buf == [] && r.size == cfg.maxRequestSize
    ensures Rejects(cfg, r, LiteralHeader(0, nonSync), RequestTooLarge)
  {
    hide Step, Run, LiteralHeader;
    HeaderRun(cfg, r, 0, nonSync);
  }

  /** The first item that does not fit fails the request. */
  lemma {:induction false} BudgetRun<C>(cfg: Config<C>, r: Core<C>, items: seq<Item>, place: Place)
    requires At(cfg, r, place) && Joined(items, place) && LegalItems(cfg, r.request.command, items)
    requires r.size <= cfg.maxRequestSize < Flushed(r).size + TotalCharge(items)
    ensures FailsFirst(cfg, r, PrintItems(items), BudgetError(cfg.maxRequestSize, Flushed(r).size, items))
    decreases |items|
  {
    hide Step, Run;
    if Flushed(r).size > cfg.maxRequestSize {
      PendingOver(cfg, r, items);
    } else {
      hide PrintItem, ItemPrompt, AfterItem, Joins, PrintItems, AtomByte, FailsFirst;
      var item, rest, here := items[0], items[1..], Here(items[0], place);
      var r1, error := Spaced(r, item), BudgetError(cfg.maxRequestSize, Flushed(r).size, items);
      GapRun(cfg, r, item, place);
      RequestKept(r, item);
      TagKept(r, item);
      BudgetItem(cfg, r1, items, here);
      FailsLater(cfg, r, Gap(item), r1, [], PrintItem(item) + PrintItems(rest), error);
      ItemsSplit<C>(items);
      Associates(Gap(item), PrintItem(item), PrintItems(rest));
    }
  }

  lemma TagKept<C>(r: Core<C>, item: Item)
    ensures Spaced(r, item).request.tag == r.request.tag && AfterItem(r, item).request.tag == r.request.tag
    ensures AfterItem(r, item).request.command == r.request.command
    ensures Flushed(r).size >= r.size && Flushed(Spaced(r, item)).size == Flushed(r).size
  {}

  /** The same behind the blank, if any. */
  lemma {:induction false} BudgetItem<C>(cfg: Config<C>, r: Core<C>, items: seq<Item>, here: Place)
    requires At(cfg, r, here) && items != [] && Joins(items[0], here) && Joined(items[1..], After(items[0], here))
    requires LegalItems(cfg, r.request.command, items)
    requires Flushed(r).size <= cfg.maxRequestSize < Flushed(r).size + TotalCharge(items)
    ensures FailsFirst(cfg, r, PrintItem(items[0]) + PrintItems(items[1..]),
                       BudgetError(cfg.maxRequestSize, Flushed(r).size, items))
    decreases |items|, 0
  {
    hide Step, Run, AtomByte, PrintItems, FailsFirst;
    var item, rest := items[0], items[1..];
    var error := BudgetError(cfg.maxRequestSize, Flushed(r).size, items);
    assert LegalItem(item, cfg.tokenizeBrackets(r.request.command));
    if Flushed(r).size + Charge(item) <= cfg.maxRequestSize {
      var r' := AfterItem(r, item);
      ItemRun(cfg, r, item, here);
      TagKept(r, item);
      TagKept(r', item);
      BudgetRun(cfg, r', rest, After(item, here));
      PromptsNothing<C>(item);
      FailsLater(cfg, r, PrintItem(item), r', ItemPrompt(item), PrintItems(rest), error);
    } else if !IsValue(item) {
      PunctuationOver(cfg, r, item);
      RejectionFirst(cfg, r, PrintItem(item), PrintItems(rest), RequestTooLarge);
    } else if item.form.Quoted? {
      QuoteOver(cfg, r, ValueOf(item));
      RejectionFirst(cfg, r, PrintItem(item), PrintItems(rest), RequestTooLarge);
    } else if item.form.Counted? {
      LiteralOver(cfg, r, item, here, PrintItems(rest));
    } else {
      AtomOver(cfg, r, items, here);
    }
  }

  lemma {:induction false} AtomOver<C>(cfg: Config<C>, r: Core<C>, items: seq<Item>, here: Place)
    requires At(cfg, r, here) && items != [] && Joins(items[0], here) && Joined(items[1..], After(items[0], here))
    requires LegalItems(cfg, r.request.command, items) && IsValue(items[0]) && items[0].form.Atom?
    requires r.size <= cfg.maxRequestSize < r.size + Charge(items[0])
    ensures FailsFirst(cfg, r, PrintItem(items[0]) + PrintItems(items[1..]), RequestTooLarge)
  {
    hide Step, Run, PrintItems, FailsFirst;
    var item, rest := items[0], items[1..];
    assert LegalItem(item, cfg.tokenizeBrackets(r.request.command));
    var r' := AfterItem(r, item);
    AtomRun(cfg, r, ValueOf(item));
    ItemSettles(cfg, r, item, here);
    TagKept(r, item);
    PendingOver(cfg, r', rest);
    FailsLater(cfg, r, PrintItem(item), r', [], PrintItems(rest), RequestTooLarge);
  }

  /**
   A request whose arguments exceed the size budget is never reported: the first thing behind its prompts is the
   error under its tag, too large a literal where its announced size is what does not fit.
   */
  lemma OverBudget<C>(cfg: Config<C>, sent: Sent<C>)
    requires cfg.startState == Start && Joined(sent.items, Quiet)
    requires LegalParts(cfg, sent)
    requires TotalCharge(sent.items) > cfg.maxRequestSize
    ensures FirstEnd(Feed(cfg, Fresh(cfg), Print(sent)).events)
         == Some(Failure(Some(sent.tag), BudgetError(cfg.maxRequestSize, 0, sent.items)))
  {
    hide Step, Run, PrintItems, LegalItem, Charge, TotalCharge, Upper, LegalName, LegalTag, BudgetError;
    var head := sent.tag + [Ascii(' ')] + UidText(sent.uid) + sent.name + [Ascii(' ')];
    var ready := Core([], Request(sent.tag, sent.command, []), InArgument(SP), 0);
    NothingCharged();
    HeadRun(cfg, sent, SP);
    BudgetRun(cfg, ready, sent.items, Quiet);
    RunSplits(Stepper(cfg), Fresh(cfg), head, PrintItems(sent.items));
    assert Print(sent) == head + PrintItems(sent.items);
    var events := Feed(cfg, ready, PrintItems(sent.items)).events;
    assert [] + events == events;
    TagNotEmpty(cfg, sent.tag);
  }

  lemma TagNotEmpty<C>(cfg: Config<C>, tag: seq<byte>)
    requires LegalTag(cfg, tag)
    ensures tag != []
  {}

  lemma NothingCharged()
    ensures TotalCharge([]) == 0
  {}

  // ----- What is let pass ---------------------------------------------------------------------

  predicate Blanks(s: seq<byte>) {
    forall i :: 0 <= i < |s| ==> Blank(s[i])
  }

  /** Bytes that leave the receiver as it is may be repeated. */
  lemma {:induction false} SkippedRun<C>(cfg: Config<C>, r: Core<C>, bytes: seq<byte>)
    requires forall i :: 0 <= i < |bytes| ==> Step(cfg, r, bytes[i]) == Go(r)
    ensures Feed(cfg, r, bytes) == Trace(r, [])
    decreases |bytes|
  {
    hide Step;
    if bytes != [] {
      SkippedRun(cfg, r, bytes[1..]);
    }
  }

  /** Blanks and line ends in front of a tag or of a command name count for nothing. */
  lemma LeadingBlanks<C>(cfg: Config<C>, r: Core<C>, blanks: seq<byte>)
    requires r.state.Start? || (r.state.Command? && r.buf == [])
    requires Blanks(blanks)
    ensures Feed(cfg, r, blanks) == Trace(r, [])
  {
    SkippedRun(cfg, r, blanks);
  }

  /** Inside a tag, tabs and carriage returns are dropped. */
  lemma TagSkips<C>(cfg: Config<C>, tag: seq<byte>, dropped: seq<byte>)
    requires cfg.startState == Start && TagText(tag)
    requires forall i :: 0 <= i < |dropped| ==> dropped[i] == Ascii('\t') || dropped[i] == Ascii('\r')
    ensures Feed(cfg, Fresh(cfg), tag + dropped) == Feed(cfg, Fresh(cfg), tag)
  {
    var r := Fresh(cfg).(buf := tag, state := Tag);
    TagRun(cfg, tag);
    SkippedRun(cfg, r, dropped);
    RunJoins(Stepper(cfg), Fresh(cfg), tag, r, [], dropped, r, []);
  }

  /** A line that ends right behind the command name is a request without arguments. */
  lemma NameLine<C>(cfg: Config<C>, sent: Sent<C>)
    requires cfg.startState == Start && LegalParts(cfg, sent)
    ensures Feed(cfg, Fresh(cfg), sent.tag + [Ascii(' ')] + UidText(sent.uid) + (sent.name + [Ascii('\n')]))
         == Trace(Fresh(cfg), [Done(Request(sent.tag, sent.command, []))])
  {
    hide Run, LegalTag, LegalItems;
    var begun := Core([], Request(sent.tag, cfg.defaultCommand, []), Command(sent.uid), 0);
    PrefixRun(cfg, sent.tag, sent.uid);
    NameRun(cfg, begun, sent.name);
    FeedExtends(cfg, begun, sent.name, LF);
    RunJoins(Stepper(cfg), Fresh(cfg), sent.tag + [SP] + UidText(sent.uid), begun, [], sent.name + [LF], Fresh(cfg),
             [Done(Request(sent.tag, sent.command, []))]);
  }

  /** Any blanks between arguments count as one. */
  lemma {:induction false} BlankRun<C>(cfg: Config<C>, r: Core<C>, blanks: seq<byte>)
    requires r.state.InArgument? && Flushed(r).size <= cfg.maxRequestSize
    requires blanks != [] && Blanks(blanks) && Ascii('\n') !in blanks
    ensures Feed(cfg, r, blanks) == Trace(Flushed(r).(state := InArgument(blanks[|blanks| - 1])), [])
    decreases |blanks|
  {
    hide Step, Run;
    var r' := Flushed(r).(state := InArgument(blanks[0]));
    SeparatorStep(cfg, r, blanks[0]);
    assert blanks == [blanks[0]] + blanks[1..];
    if |blanks| == 1 {
      assert blanks == [blanks[0]];
    } else {
      BlankRun(cfg, r', blanks[1..]);
      RunJoins(Stepper(cfg), r, [blanks[0]], r', [], blanks[1..], Feed(cfg, r', blanks[1..]).core, []);
    }
  }

  /** In a quoted string a backslash in front of any other byte is kept. */
  lemma BackslashKept<C>(cfg: Config<C>, r: Core<C>, ch: byte)
    requires r.state == ArgumentQuoted(false)
    requires ch != Ascii('"') && ch != Ascii('\\') && ch != Ascii('\n')
    ensures Feed(cfg, r, [Ascii('\\'), ch])
         == if |r.buf| + 1 < 8000 then Trace(r.(buf := r.buf + [Ascii('\\'), ch]), [])
            else Trace(Fresh(cfg), [Failure(TagOf(r), QuotedTooLong)])
  {
    RunOne(Stepper(cfg), r, BACKSLASH);
    FeedExtends(cfg, r, [BACKSLASH], ch);
    assert [BACKSLASH] + [ch] == [BACKSLASH, ch];
    assert r.buf + [BACKSLASH] + [ch] == r.buf + [BACKSLASH, ch];
  }

  /** Blanks between the closing brace of a literal and its line end are skipped. */
  lemma SeekSkips<C>(cfg: Config<C>, r: Core<C>, blanks: seq<byte>)
    requires r.state.LiteralSeek? && Blanks(blanks) && Ascii('\n') !in blanks
    ensures Feed(cfg, r, blanks) == Trace(r, [])
  {
    SkippedRun(cfg, r, blanks);
  }
}
