/**
 Printing a request and feeding the text back.

 `Print` writes a request the way a client may write it: every argument as an atom, an escaped quoted
 string, or a synchronising or non-synchronising literal, plain or binary (section 4.3 of RFC 9051, section 3 of RFC 7888),
 with or without a blank before it.  Not every text without blanks can be read back: `Joined` says which can.
 */
module ReceiverRoundTrip {
  import opened Common
  import opened DivMod
  import opened Machine
  import opened Receiver
  import opened ReceiverInvariant

  /** How an argument, or the empty string `Nil`, is written; a binary literal is the `~{` form. */
  datatype Form = Atom | Quoted | Counted(nonSync: bool, binary: bool)

  /** `blank`: a blank is written before the item. */
  datatype Item = Item(blank: bool, token: Token, form: Form)

  datatype Sent<C> = Sent(tag: seq<byte>, uid: bool, name: seq<byte>, command: C, items: seq<Item>)

  // ----- Printing -----------------------------------------------------------------------------

  function Ascii(c: char): byte
    requires c as int < 128
  {
    c as int
  }

  function Decimal(n: nat): seq<byte> {
    if n < 10 then [Ascii('0') + n] else Decimal(n / 10) + [Ascii('0') + n % 10]
  }

  function EscapeByte(ch: byte): seq<byte> {
    if ch == Ascii('"') || ch == Ascii('\\') then [Ascii('\\'), ch] else [ch]
  }

  function Escape(s: seq<byte>): seq<byte> {
    if s == [] then [] else Escape(s[..|s| - 1]) + EscapeByte(s[|s| - 1])
  }

  function LiteralOpening(binary: bool): seq<byte> {
    if binary then [Ascii('~'), Ascii('{')] else [Ascii('{')]
  }

  function LiteralHeader(size: nat, nonSync: bool): seq<byte> {
    Decimal(size) + (if nonSync then [Ascii('+')] else []) + [Ascii('}'), Ascii('\r'), Ascii('\n')]
  }

  function PunctuationByte(token: Token): byte
    requires !token.Argument? && token != Nil
  {
    match token
    case ParenthesisOpen => Ascii('(')
    case ParenthesisClose => Ascii(')')
    case BracketOpen => Ascii('[')
    case BracketClose => Ascii(']')
    case Lt => Ascii('<')
    case Gt => Ascii('>')
    case Dot => Ascii('.')
  }

  predicate IsValue(item: Item) { item.token.Argument? || item.token.Nil? }

  function ValueOf(item: Item): seq<byte> {
    if item.token.Argument? then item.token.bytes else []
  }

  function PrintItem(item: Item): seq<byte> {
    if IsValue(item) then
      var s := ValueOf(item);
      match item.form
      case Atom => s
      case Quoted => [Ascii('"')] + Escape(s) + [Ascii('"')]
      case Counted(nonSync, binary) => LiteralOpening(binary) + LiteralHeader(|s|, nonSync) + s
    else [PunctuationByte(item.token)]
  }

  function Gap(item: Item): seq<byte> {
    if item.blank then [Ascii(' ')] else []
  }

  /** The items one after the other, then CRLF. */
  function PrintItems(items: seq<Item>): seq<byte> {
    if items == [] then [Ascii('\r'), Ascii('\n')] else Gap(items[0]) + PrintItem(items[0]) + PrintItems(items[1..])
  }

  /** The separator behind the command name: CRLF starts right there if there are no items. */
  function NameEnd(items: seq<Item>): byte {
    if items == [] then Ascii('\r') else Ascii(' ')
  }

  /** What follows that separator. */
  function PrintTail(items: seq<Item>): seq<byte> {
    if items == [] then [Ascii('\n')] else PrintItems(items)
  }

  function Print<C>(sent: Sent<C>): seq<byte> {
    sent.tag + [Ascii(' ')] + UidText(sent.uid) + sent.name + [NameEnd(sent.items)] + PrintTail(sent.items)
  }

  function UidText(uid: bool): seq<byte> {
    if uid then [Ascii('U'), Ascii('I'), Ascii('D'), Ascii(' ')] else []
  }

  // ----- What may be printed ------------------------------------------------------------------

  predicate Blank(ch: byte) {
    ch == Ascii(' ') || ch == Ascii('\t') || ch == Ascii('\n') || ch == Ascii('\U{0C}') || ch == Ascii('\r')
  }

  /** The bytes that are tokens of their own; the last five only for some commands. */
  predicate Punctuates(ch: byte, brackets: bool) {
    || ch == Ascii('(') || ch == Ascii(')')
    || (brackets && (ch == Ascii('[') || ch == Ascii(']') || ch == Ascii('<') || ch == Ascii('>') || ch == Ascii('.')))
  }

  predicate TagByte(ch: byte) { !Blank(ch) || ch == Ascii('\U{0C}') }

  predicate AtomByte(ch: byte, brackets: bool) {
    !Blank(ch) && !Punctuates(ch, brackets) && ch != Ascii('"') && ch != Ascii('{')
  }

  predicate LegalItem(item: Item, brackets: bool) {
    match item.token
    case Argument(s) =>
      && s != []
      && (match item.form
          case Atom => |s| <= 8000 && forall i :: 0 <= i < |s| ==> AtomByte(s[i], brackets)
          case Quoted => |s| <= 8000 && Ascii('\n') !in s
          case _ => |s| < 0x1_0000_0000)
    case Nil => item.form != Atom
    case _ => brackets || item.token.ParenthesisOpen? || item.token.ParenthesisClose?
  }

  /** What an item costs of the size budget; an empty quoted string is free. */
  function Charge(item: Item): nat {
    match item.token
    case Argument(s) => |s|
    case Nil => if item.form.Quoted? then 0 else 1
    case _ => 1
  }

  function TotalCharge(items: seq<Item>): nat {
    if items == [] then 0 else Charge(items[0]) + TotalCharge(items[1..])
  }

  function Upper(s: seq<byte>): seq<byte> {
    if s == [] then [] else Upper(s[..|s| - 1]) + [UpperByte(s[|s| - 1])]
  }

  function UpperByte(ch: byte): byte {
    if Ascii('a') <= ch <= Ascii('z') then ch - Ascii('a') + Ascii('A') else ch
  }

  predicate NameByte(ch: byte) {
    Ascii('0') <= ch <= Ascii('9') || Ascii('A') <= ch <= Ascii('Z') || Ascii('a') <= ch <= Ascii('z')
  }

  predicate LegalName(name: seq<byte>) {
    0 < |name| <= 15 && forall i :: 0 <= i < |name| ==> NameByte(name[i])
  }

  predicate LegalTag<C>(cfg: Config<C>, tag: seq<byte>) {
    && 0 < |tag| <= 128
    && !Blank(tag[0])
    && (forall i :: 0 <= i < |tag| ==> TagByte(tag[i]))
    && cfg.isUtf8(tag)
  }

  predicate LegalItems<C>(cfg: Config<C>, command: C, items: seq<Item>) {
    forall i :: 0 <= i < |items| ==> LegalItem(items[i], cfg.tokenizeBrackets(command))
  }

  /** A request whose parts are legal, whatever they add up to. */
  ghost predicate LegalParts<C>(cfg: Config<C>, sent: Sent<C>) {
    && LegalTag(cfg, sent.tag)
    && LegalName(sent.name)
    && Upper(sent.name) != UID
    && cfg.parseCommand(Upper(sent.name), sent.uid) == Some(sent.command)
    && LegalItems(cfg, sent.command, sent.items)
  }

  ghost predicate LegalRequest<C>(cfg: Config<C>, sent: Sent<C>) {
    LegalParts(cfg, sent) && TotalCharge(sent.items) <= cfg.maxRequestSize
  }

  // ----- Where blanks may be left out ---------------------------------------------------------

  /**
   What the receiver remembers between two items: the last byte kept was a separator (`Quiet`), it was not
   but no argument is pending (`Loud`: only punctuation came after it), or an atom is pending.
   */
  datatype Place = Quiet | Loud | InAtom

  function Here(item: Item, place: Place): Place {
    if item.blank then Quiet else place
  }

  /** Punctuation may stand anywhere, an atom or a binary literal behind no atom, the rest only behind a separator. */
  predicate Joins(item: Item, here: Place) {
    || !IsValue(item)
    || here == Quiet
    || (here == Loud && (item.form.Atom? || (item.form.Counted? && item.form.binary)))
  }

  /** Punctuation does not count as a last byte, and closing a quoted string or a literal counts as a blank. */
  function After(item: Item, here: Place): Place {
    if !IsValue(item) then if here == Quiet then Quiet else Loud
    else if item.form.Atom? then InAtom
    else Quiet
  }

  predicate Joined(items: seq<Item>, place: Place) {
    items == [] ||
    var here := Here(items[0], place);
    Joins(items[0], here) && Joined(items[1..], After(items[0], here))
  }

  // ----- What must come back ------------------------------------------------------------------

  function Tokens(items: seq<Item>): seq<Token> {
    if items == [] then [] else [items[0].token] + Tokens(items[1..])
  }

  /** One continuation prompt per synchronising literal. */
  function ItemPrompt<C>(item: Item): seq<Event<C>> {
    if !item.form.Counted? || item.form.nonSync then []
    else if item.token.Argument? then [NeedsLiteral(|item.token.bytes|)]
    else if item.token.Nil? then [NeedsLiteral(0)]
    else []
  }

  function Prompts<C>(items: seq<Item>): seq<Event<C>> {
    if items == [] then [] else ItemPrompt(items[0]) + Prompts(items[1..])
  }

  function Expected<C>(sent: Sent<C>): seq<Event<C>> {
    Prompts(sent.items) + [Done(Request(sent.tag, sent.command, Tokens(sent.items)))]
  }

  // ----- Numbers ------------------------------------------------------------------------------

  lemma {:induction false} DecimalReads(n: nat, k: nat)
    requires n < Pow(10, k) && k > 0
    ensures 0 < |Decimal(n)| <= k && DecimalValue(Decimal(n)) == n
    ensures forall i :: 0 <= i < |Decimal(n)| ==> IsDigit(Decimal(n)[i])
  {
    if n < 10 {
    } else {
      DecimalReads(n / 10, k - 1);
      assert Decimal(n)[..|Decimal(n)| - 1] == Decimal(n / 10);
    }
  }

  lemma SizeReads(size: nat)
    requires size <= U32_MAX
    ensures ParseU32(Decimal(size)) == Some(size) && |Decimal(size)| <= 10
  {
    assert Pow(10, 10) == 10_000_000_000 by {
      assert Pow(10, 2) == 100;
      assert Pow(10, 4) == 10_000;
      assert Pow(10, 6) == 1_000_000;
      assert Pow(10, 8) == 100_000_000;
    }
    DecimalReads(size, 10);
  }

  // ----- Runs inside one state ----------------------------------------------------------------

  lemma FeedExtends<C>(cfg: Config<C>, r: Core<C>, bytes: seq<byte>, ch: byte)
    ensures var t := Feed(cfg, r, bytes);
            var o := Step(cfg, t.core, ch);
            Feed(cfg, r, bytes + [ch]) == Trace(o.core, t.events + EventSeq(o.event))
  {
    RunSplits(Stepper(cfg), r, bytes, [ch]);
    RunOne(Stepper(cfg), Feed(cfg, r, bytes).core, ch);
  }

  lemma {:induction false} TagRun<C>(cfg: Config<C>, tag: seq<byte>)
    requires cfg.startState == Start
    requires 0 < |tag| <= 128 && !Blank(tag[0]) && forall i :: 0 <= i < |tag| ==> TagByte(tag[i])
    ensures Feed(cfg, Fresh(cfg), tag) == Trace(Fresh(cfg).(buf := tag, state := Tag), [])
  {
    var init, last := tag[..|tag| - 1], tag[|tag| - 1];
    assert tag == init + [last];
    if init != [] {
      TagRun(cfg, init);
    } else {
      assert Feed(cfg, Fresh(cfg), init) == Trace(Fresh(cfg), []);
    }
    FeedExtends(cfg, Fresh(cfg), init, last);
  }

  lemma {:induction false} NameRun<C>(cfg: Config<C>, r: Core<C>, name: seq<byte>)
    requires r.state.Command? && r.buf == []
    requires |name| <= 15 && forall i :: 0 <= i < |name| ==> NameByte(name[i])
    ensures Feed(cfg, r, name) == Trace(r.(buf := Upper(name)), []) && |Upper(name)| == |name|
  {
    hide Step, Run;
    if name == [] {
      RunNone(Stepper(cfg), r);
    } else {
      var init, last := name[..|name| - 1], name[|name| - 1];
      assert name == init + [last];
      NameRun(cfg, r, init);
      FeedExtends(cfg, r, init, last);
      NameStep(cfg, r.(buf := Upper(init)), last);
    }
  }

  lemma NameStep<C>(cfg: Config<C>, r: Core<C>, ch: byte)
    requires r.state.Command? && |r.buf| < 15 && NameByte(ch)
    ensures Step(cfg, r, ch) == Go(r.(buf := r.buf + [UpperByte(ch)]))
  {}

  lemma {:induction false} AtomRun<C>(cfg: Config<C>, r: Core<C>, s: seq<byte>)
    requires r.state.InArgument? && r.buf == []
    requires 0 < |s| <= ARG_MAX_LEN
    requires forall i :: 0 <= i < |s| ==> AtomByte(s[i], cfg.tokenizeBrackets(r.request.command))
    ensures Feed(cfg, r, s) == Trace(r.(buf := s, state := InArgument(s[|s| - 1])), [])
  {
    var init, last := s[..|s| - 1], s[|s| - 1];
    assert s == init + [last];
    if init != [] {
      AtomRun(cfg, r, init);
    } else {
      assert Feed(cfg, r, init) == Trace(r, []);
    }
    FeedExtends(cfg, r, init, last);
  }

  /** One byte of a quoted string, escaped where needed, is buffered as itself. */
  lemma EscapeByteRun<C>(cfg: Config<C>, r: Core<C>, ch: byte)
    requires r.state == ArgumentQuoted(false) && |r.buf| < ARG_MAX_LEN && ch != LF
    ensures Feed(cfg, r, EscapeByte(ch)) == Trace(r.(buf := r.buf + [ch]), [])
  {
    if ch == QUOTE || ch == BACKSLASH {
      RunOne(Stepper(cfg), r, BACKSLASH);
      FeedExtends(cfg, r, [BACKSLASH], ch);
      assert EscapeByte(ch) == [BACKSLASH] + [ch];
    } else {
      RunOne(Stepper(cfg), r, ch);
    }
  }

  lemma {:induction false} EscapeRun<C>(cfg: Config<C>, r: Core<C>, s: seq<byte>)
    requires r.state == ArgumentQuoted(false) && r.buf == []
    requires |s| <= ARG_MAX_LEN && LF !in s
    ensures Feed(cfg, r, Escape(s)) == Trace(r.(buf := s), [])
  {
    hide Step, Run;
    if s == [] {
      RunNone(Stepper(cfg), r);
    } else {
      var init, last := s[..|s| - 1], s[|s| - 1];
      assert s == init + [last];
      EscapeRun(cfg, r, init);
      EscapeByteRun(cfg, r.(buf := init), last);
      RunJoins(Stepper(cfg), r, Escape(init), r.(buf := init), [], EscapeByte(last), r.(buf := s), []);
    }
  }

  lemma {:induction false} DigitsRun<C>(cfg: Config<C>, r: Core<C>, s: seq<byte>)
    requires r.state == Literal(false) && r.buf == []
    requires |s| <= 15 && forall i :: 0 <= i < |s| ==> IsDigit(s[i])
    ensures Feed(cfg, r, s) == Trace(r.(buf := s), [])
  {
    if s == [] {
    } else {
      var init, last := s[..|s| - 1], s[|s| - 1];
      assert s == init + [last];
      DigitsRun(cfg, r, init);
      FeedExtends(cfg, r, init, last);
    }
  }

  // ----- One item -----------------------------------------------------------------------------

  /** The receiver stands between two items; a pending atom is still buffered. */
  ghost predicate At<C>(cfg: Config<C>, r: Core<C>, place: Place) {
    && r.state.InArgument?
    && (Blank(r.state.lastCh) <==> place == Quiet)
    && (place == InAtom <==> r.buf != [])
    && (place == InAtom ==> r.state.lastCh == r.buf[|r.buf| - 1])
    && forall i :: 0 <= i < |r.buf| ==> AtomByte(r.buf[i], cfg.tokenizeBrackets(r.request.command))
  }

  /** The receiver with its pending atom, if any, stored. */
  function Flushed<C>(r: Core<C>): Core<C> {
    if r.buf == [] then r else WithToken(r, Argument(r.buf)).(buf := [], size := r.size + |r.buf|)
  }

  function Spaced<C>(r: Core<C>, item: Item): Core<C> {
    if item.blank then Flushed(r).(state := InArgument(SP)) else r
  }

  /** The receiver after an item that joins what came before. */
  function AfterItem<C>(r: Core<C>, item: Item): Core<C> {
    if !IsValue(item) then WithToken(Flushed(r), item.token).(size := Flushed(r).size + 1)
    else if item.form.Atom? && ValueOf(item) != [] then
      r.(buf := ValueOf(item), state := InArgument(ValueOf(item)[|ValueOf(item)| - 1]))
    else WithToken(r, item.token).(size := r.size + Charge(item), state := InArgument(SP))
  }

  /** The literal size, its optional `+` and the line end, up to the first data byte. */
  lemma HeaderRun<C>(cfg: Config<C>, r: Core<C>, size: nat, nonSync: bool)
    requires r.state == Literal(false) && r.buf == []
    requires size <= U32_MAX && r.size + size <= cfg.maxRequestSize
    ensures var o := StepSeek(cfg, r.(state := LiteralSeek(size, nonSync)), size, nonSync, LF);
            Feed(cfg, r, LiteralHeader(size, nonSync)) == Trace(o.core, EventSeq(o.event))
  {
    hide Step, Run, Decimal;
    var digits := Decimal(size);
    var head := r.(buf := digits, state := Literal(nonSync));
    var o := StepSeek(cfg, r.(state := LiteralSeek(size, nonSync)), size, nonSync, LF);
    SizeReads(size);
    DigitsRun(cfg, r, digits);
    PlusRun(cfg, r.(buf := digits), nonSync);
    var plus := if nonSync then [PLUS] else [];
    RunJoins(Stepper(cfg), r, digits, r.(buf := digits), [], plus, head, []);
    HeaderEnds(cfg, r, digits, size, nonSync);
    RunJoins(Stepper(cfg), r, digits + plus, head, [], [BRACE_CLOSE, CR, LF], o.core, EventSeq(o.event));
  }

  lemma PlusRun<C>(cfg: Config<C>, r: Core<C>, nonSync: bool)
    requires r.state == Literal(false) && r.buf != []
    ensures Feed(cfg, r, if nonSync then [PLUS] else []) == Trace(r.(state := Literal(nonSync)), [])
  {
    RunOne(Stepper(cfg), r, PLUS);
  }

  lemma HeaderEnds<C>(cfg: Config<C>, r: Core<C>, digits: seq<byte>, size: nat, nonSync: bool)
    requires r.buf == [] && r.size + size <= cfg.maxRequestSize && ParseU32(digits) == Some(size)
    ensures var o := StepSeek(cfg, r.(state := LiteralSeek(size, nonSync)), size, nonSync, LF);
            Feed(cfg, r.(buf := digits, state := Literal(nonSync)), [BRACE_CLOSE, CR, LF])
            == Trace(o.core, EventSeq(o.event))
  {
    var head, seek := r.(buf := digits, state := Literal(nonSync)), r.(state := LiteralSeek(size, nonSync));
    RunOne(Stepper(cfg), head, BRACE_CLOSE);
    FeedExtends(cfg, head, [BRACE_CLOSE], CR);
    assert Feed(cfg, head, [BRACE_CLOSE] + [CR]) == Trace(seek, []);
    FeedExtends(cfg, head, [BRACE_CLOSE] + [CR], LF);
    assert [BRACE_CLOSE] + [CR] + [LF] == [BRACE_CLOSE, CR, LF];
  }

  /** The opening byte of a quoted string, and of a literal. */
  lemma OpeningStep<C>(cfg: Config<C>, r: Core<C>, here: Place, binary: bool)
    requires At(cfg, r, here) && here != InAtom && (here == Quiet || binary)
    ensures Feed(cfg, r, LiteralOpening(binary)) == Trace(r.(state := Literal(false)), [])
    ensures here == Quiet ==> Feed(cfg, r, [QUOTE]) == Trace(r.(state := ArgumentQuoted(false)), [])
  {
    RunOne(Stepper(cfg), r, BRACE_OPEN);
    RunOne(Stepper(cfg), r, QUOTE);
    RunOne(Stepper(cfg), r, TILDE);
    FeedExtends(cfg, r, [TILDE], BRACE_OPEN);
    assert [TILDE] + [BRACE_OPEN] == LiteralOpening(true);
  }

  /** The line end after a literal header: data follow, or the empty literal is complete. */
  lemma SeekEnds<C>(cfg: Config<C>, r: Core<C>, size: nat, nonSync: bool)
    requires r.size + (if size > 0 then size else 1) <= cfg.maxRequestSize
    ensures var o := StepSeek(cfg, r.(state := LiteralSeek(size, nonSync)), size, nonSync, LF);
            && EventSeq(o.event) == (if nonSync then [] else [NeedsLiteral(size)])
            && o.core == if size > 0 then r.(state := LiteralData(size))
                         else WithToken(r, Nil).(size := r.size + 1, state := InArgument(SP))
  {}

  /** Header and data of a literal, from behind its opening. */
  lemma LiteralRun<C>(cfg: Config<C>, r: Core<C>, item: Item)
    requires r.buf == [] && LegalItem(item, cfg.tokenizeBrackets(r.request.command))
    requires r.size + Charge(item) <= cfg.maxRequestSize
    requires IsValue(item) && item.form.Counted?
    ensures Feed(cfg, r.(state := Literal(false)), LiteralHeader(|ValueOf(item)|, item.form.nonSync) + ValueOf(item))
         == Trace(AfterItem(r, item), ItemPrompt(item))
  {
    hide Step, Run;
    var s, nonSync := ValueOf(item), item.form.nonSync;
    HeaderRun(cfg, r.(state := Literal(false)), |s|, nonSync);
    SeekEnds(cfg, r, |s|, nonSync);
    RunSplits(Stepper(cfg), r.(state := Literal(false)), LiteralHeader(|s|, nonSync), s);
    if s == [] {
      RunNone(Stepper(cfg), AfterItem(r, item));
    } else {
      AcceptedLiteral(cfg, r.(state := LiteralData(|s|)), s, |s|);
      assert s[..|s|] == s;
    }
  }

  lemma QuotedRun<C>(cfg: Config<C>, r: Core<C>, item: Item)
    requires At(cfg, r, Quiet) && LegalItem(item, cfg.tokenizeBrackets(r.request.command))
    requires r.size + Charge(item) <= cfg.maxRequestSize
    requires IsValue(item) && item.form.Quoted?
    ensures Feed(cfg, r, PrintItem(item)) == Trace(AfterItem(r, item), [])
  {
    hide Step, Run, Escape, AtomByte;
    var s := ValueOf(item);
    var open, full := r.(state := ArgumentQuoted(false)), r.(buf := s, state := ArgumentQuoted(false));
    OpeningStep(cfg, r, Quiet, true);
    EscapeRun(cfg, open, s);
    RunJoins(Stepper(cfg), r, [QUOTE], open, [], Escape(s), full, []);
    QuoteEnds(cfg, r, s);
    RunJoins(Stepper(cfg), r, [QUOTE] + Escape(s), full, [], [QUOTE], AfterItem(r, item), []);
  }

  lemma QuoteEnds<C>(cfg: Config<C>, r: Core<C>, s: seq<byte>)
    requires r.buf == [] && r.size + |s| <= cfg.maxRequestSize
    ensures var token := if s == [] then Nil else Argument(s);
            Feed(cfg, r.(buf := s, state := ArgumentQuoted(false)), [QUOTE])
            == Trace(WithToken(r, token).(size := r.size + |s|, state := InArgument(SP)), [])
  {
    RunOne(Stepper(cfg), r.(buf := s, state := ArgumentQuoted(false)), QUOTE);
  }

  lemma PunctuationRun<C>(cfg: Config<C>, r: Core<C>, item: Item)
    requires r.state.InArgument? && LegalItem(item, cfg.tokenizeBrackets(r.request.command))
    requires Flushed(r).size + Charge(item) <= cfg.maxRequestSize && !IsValue(item)
    ensures Feed(cfg, r, PrintItem(item)) == Trace(AfterItem(r, item), [])
  {
    RunOne(Stepper(cfg), r, PunctuationByte(item.token));
  }

  /** A separator stores the pending atom. */
  lemma SeparatorStep<C>(cfg: Config<C>, r: Core<C>, next: byte)
    requires r.state.InArgument? && Flushed(r).size <= cfg.maxRequestSize && Blank(next) && next != LF
    ensures Feed(cfg, r, [next]) == Trace(Flushed(r).(state := InArgument(next)), [])
  {
    RunOne(Stepper(cfg), r, next);
  }

  lemma GapRun<C>(cfg: Config<C>, r: Core<C>, item: Item, place: Place)
    requires At(cfg, r, place) && Flushed(r).size <= cfg.maxRequestSize
    ensures Feed(cfg, r, Gap(item)) == Trace(Spaced(r, item), []) && At(cfg, Spaced(r, item), Here(item, place))
    ensures Flushed(Spaced(r, item)).(state := r.state) == Flushed(r)
  {
    SeparatorStep(cfg, r, SP);
    RunNone(Stepper(cfg), r);
  }

  /** Opening, header and data of a literal. */
  lemma CountedRun<C>(cfg: Config<C>, r: Core<C>, item: Item, here: Place)
    requires At(cfg, r, here) && Joins(item, here) && LegalItem(item, cfg.tokenizeBrackets(r.request.command))
    requires r.size + Charge(item) <= cfg.maxRequestSize
    requires IsValue(item) && item.form.Counted?
    ensures Feed(cfg, r, PrintItem(item)) == Trace(AfterItem(r, item), ItemPrompt(item))
  {
    hide Step, Run, LiteralHeader, LegalItem, Charge, AfterItem, LiteralOpening, AtomByte;
    var open, body := LiteralOpening(item.form.binary), LiteralHeader(|ValueOf(item)|, item.form.nonSync) + ValueOf(item);
    OpeningStep(cfg, r, here, item.form.binary);
    LiteralRun(cfg, r, item);
    RunJoins(Stepper(cfg), r, open, r.(state := Literal(false)), [], body, AfterItem(r, item), ItemPrompt(item));
    Associates(open, LiteralHeader(|ValueOf(item)|, item.form.nonSync), ValueOf(item));
    assert [] + ItemPrompt(item) == ItemPrompt<C>(item);
  }

  lemma ItemSettles<C>(cfg: Config<C>, r: Core<C>, item: Item, here: Place)
    requires At(cfg, r, here) && Joins(item, here) && LegalItem(item, cfg.tokenizeBrackets(r.request.command))
    ensures At(cfg, AfterItem(r, item), After(item, here)) && r.state.InArgument?
    ensures IsValue(item) ==> r.buf == []
    ensures var was, now := Flushed(r), Flushed(AfterItem(r, item));
            && now.request == WithToken(was, item.token).request
            && now.size == was.size + Charge(item)
  {}

  /** One item in a place where it joins. */
  lemma ItemRun<C>(cfg: Config<C>, r: Core<C>, item: Item, here: Place)
    requires At(cfg, r, here) && Joins(item, here) && LegalItem(item, cfg.tokenizeBrackets(r.request.command))
    requires Flushed(r).size + Charge(item) <= cfg.maxRequestSize
    ensures Feed(cfg, r, PrintItem(item)) == Trace(AfterItem(r, item), ItemPrompt(item))
    ensures At(cfg, AfterItem(r, item), After(item, here))
    ensures var was, now := Flushed(r), Flushed(AfterItem(r, item));
            && now.request == WithToken(was, item.token).request
            && now.size == was.size + Charge(item)
  {
    hide Step, Run, Escape, Decimal, LiteralHeader, At;
    ItemSettles(cfg, r, item, here);
    if !IsValue(item) {
      PunctuationRun(cfg, r, item);
    } else {
      match item.form
      case Atom => AtomRun(cfg, r, ValueOf(item));
      case Quoted => QuotedRun(cfg, r, item);
      case Counted(_, _) => CountedRun(cfg, r, item, here);
    }
  }

  // ----- Whole requests -----------------------------------------------------------------------

  lemma LineEnds<C>(cfg: Config<C>, r: Core<C>)
    requires r.state.InArgument? && Flushed(r).size <= cfg.maxRequestSize
    ensures Feed(cfg, r, [LF]) == Trace(Fresh(cfg), [Done(Flushed(r).request)])
    ensures Feed(cfg, r, [CR, LF]) == Trace(Fresh(cfg), [Done(Flushed(r).request)])
  {
    RunOne(Stepper(cfg), r, LF);
    SeparatorStep(cfg, r, CR);
    FeedExtends(cfg, r, [CR], LF);
  }

  /** The printed items, joined where blanks are left out, yield their tokens, their prompts and the request. */
  lemma {:induction false} ItemsRun<C>(cfg: Config<C>, r: Core<C>, items: seq<Item>, place: Place)
    requires At(cfg, r, place) && Joined(items, place) && LegalItems(cfg, r.request.command, items)
    requires Flushed(r).size + TotalCharge(items) <= cfg.maxRequestSize
    ensures var was := Flushed(r).request;
            var request := was.(tokens := was.tokens + Tokens(items));
            Feed(cfg, r, PrintItems(items)) == Trace(Fresh(cfg), Prompts(items) + [Done(request)])
    decreases |items|
  {
    hide Step, Run;
    var was := Flushed(r).request;
    if items == [] {
      LineEnds(cfg, r);
      assert was.tokens + [] == was.tokens;
    } else {
      hide PrintItem, PrintItems, Charge, LegalItem, ItemPrompt, At, AfterItem, Joins, Here, Gap, Tokens, Prompts;
      var item, rest, here := items[0], items[1..], Here(items[0], place);
      var r1 := Spaced(r, item);
      var r2 := AfterItem(r1, item);
      var now := Flushed(r2).request;
      var done := Prompts(rest) + [Done(now.(tokens := now.tokens + Tokens(rest)))];
      GapRun(cfg, r, item, place);
      ItemRun(cfg, r1, item, here);
      ItemsRun(cfg, r2, rest, After(item, here));
      RunJoins(Stepper(cfg), r, Gap(item), r1, [], PrintItem(item), r2, ItemPrompt(item));
      RunJoins(Stepper(cfg), r, Gap(item) + PrintItem(item), r2, [] + ItemPrompt(item), PrintItems(rest), Fresh(cfg), done);
      ItemsSplit<C>(items);
      Associates(was.tokens, [item.token], Tokens(rest));
      Associates(ItemPrompt(item), Prompts(rest), [done[|done| - 1]]);
    }
  }

  lemma ItemsSplit<C>(items: seq<Item>)
    requires items != []
    ensures PrintItems(items) == Gap(items[0]) + PrintItem(items[0]) + PrintItems(items[1..])
    ensures Tokens(items) == [items[0].token] + Tokens(items[1..])
    ensures Prompts<C>(items) == [] + ItemPrompt<C>(items[0]) + Prompts<C>(items[1..])
  {
    hide PrintItem, Gap, ItemPrompt;
    assert [] + ItemPrompt<C>(items[0]) == ItemPrompt<C>(items[0]);
  }

  /** The separator after the tag, after `UID` and after the command name. */
  lemma TagEnds<C>(cfg: Config<C>, tag: seq<byte>)
    requires cfg.startState == Start && LegalTag(cfg, tag)
    ensures Feed(cfg, Fresh(cfg), tag + [SP])
         == Trace(Core([], Request(tag, cfg.defaultCommand, []), Command(false), 0), [])
  {
    TagRun(cfg, tag);
    FeedExtends(cfg, Fresh(cfg), tag, SP);
  }

  lemma UpperUid()
    ensures Upper(UID) == UID
  {
    assert Upper([0x55]) == [0x55];
    assert [0x55, 0x49][..1] == [0x55] && UID[..2] == [0x55, 0x49];
    assert Upper([0x55, 0x49]) == [0x55, 0x49];
  }

  lemma UidEnds<C>(cfg: Config<C>, r: Core<C>)
    requires r.state.Command? && r.buf == []
    ensures Feed(cfg, r, UID + [SP]) == Trace(r.(state := Command(true)), [])
  {
    UpperUid();
    NameRun(cfg, r, UID);
    FeedExtends(cfg, r, UID, SP);
  }

  lemma NameEnds<C>(cfg: Config<C>, r: Core<C>, name: seq<byte>, uid: bool, command: C, next: byte)
    requires r.state == Command(uid) && r.buf == [] && LegalName(name) && Upper(name) != UID
    requires cfg.parseCommand(Upper(name), uid) == Some(command) && Blank(next) && next != LF
    ensures Feed(cfg, r, name + [next])
         == Trace(r.(request := r.request.(command := command), state := InArgument(SP)), [])
  {
    NameRun(cfg, r, name);
    FeedExtends(cfg, r, name, next);
  }

  /** Tag and optional `UID`. */
  lemma PrefixRun<C>(cfg: Config<C>, tag: seq<byte>, uid: bool)
    requires cfg.startState == Start && LegalTag(cfg, tag)
    ensures Feed(cfg, Fresh(cfg), tag + [SP] + UidText(uid))
         == Trace(Core([], Request(tag, cfg.defaultCommand, []), Command(uid), 0), [])
  {
    hide Step, Run, LegalTag;
    var tagged := Core([], Request(tag, cfg.defaultCommand, []), Command(false), 0);
    assert UID + [SP] == UidText(true);
    TagEnds(cfg, tag);
    UidEnds(cfg, tagged);
    RunNone(Stepper(cfg), tagged);
    RunJoins(Stepper(cfg), Fresh(cfg), tag + [SP], tagged, [], UidText(uid), tagged.(state := Command(uid)), []);
  }

  /** Tag, optional `UID` and command name, up to the separator that follows the name. */
  lemma HeadRun<C>(cfg: Config<C>, sent: Sent<C>, next: byte)
    requires cfg.startState == Start && LegalParts(cfg, sent) && Blank(next) && next != LF
    ensures Feed(cfg, Fresh(cfg), sent.tag + [SP] + UidText(sent.uid) + sent.name + [next])
         == Trace(Core([], Request(sent.tag, sent.command, []), InArgument(SP), 0), [])
  {
    hide Step, Run;
    var ready := Core([], Request(sent.tag, cfg.defaultCommand, []), Command(sent.uid), 0);
    var named := Core([], Request(sent.tag, sent.command, []), InArgument(SP), 0);
    var head := sent.tag + [SP] + UidText(sent.uid);
    PrefixRun(cfg, sent.tag, sent.uid);
    NameEnds(cfg, ready, sent.name, sent.uid, sent.command, next);
    RunJoins(Stepper(cfg), Fresh(cfg), head, ready, [], sent.name + [next], named, []);
    assert head + (sent.name + [next]) == head + sent.name + [next];
  }

  /**
   The round trip: the request comes back token for token after one prompt per synchronising literal,
   and the receiver is left fresh.
   */
  lemma RoundTrip<C>(cfg: Config<C>, sent: Sent<C>)
    requires cfg.startState == Start && LegalRequest(cfg, sent) && Joined(sent.items, Quiet)
    ensures Feed(cfg, Fresh(cfg), Print(sent)) == Trace(Fresh(cfg), Expected(sent))
  {
    hide Step, Run, PrintTail, LegalItem, Charge, TotalCharge, Upper, LegalName, LegalTag;
    var next, rest := NameEnd(sent.items), PrintTail(sent.items);
    var head := sent.tag + [SP] + UidText(sent.uid) + sent.name;
    var ready := Core([], Request(sent.tag, sent.command, []), InArgument(SP), 0);
    HeadRun(cfg, sent, next);
    TailRun(cfg, ready, sent.items);
    assert [] + Tokens(sent.items) == Tokens(sent.items);
    RunJoins(Stepper(cfg), Fresh(cfg), head + [next], ready, [], rest, Fresh(cfg), Expected(sent));
  }

  lemma TailRun<C>(cfg: Config<C>, r: Core<C>, items: seq<Item>)
    requires At(cfg, r, Quiet) && Joined(items, Quiet) && LegalItems(cfg, r.request.command, items)
    requires r.size + TotalCharge(items) <= cfg.maxRequestSize
    ensures var request := r.request.(tokens := r.request.tokens + Tokens(items));
            Feed(cfg, r, PrintTail(items)) == Trace(Fresh(cfg), Prompts(items) + [Done(request)])
  {
    hide Step, Run, Joined, PrintItems;
    if items == [] {
      LineEnds(cfg, r);
      assert r.request.tokens + [] == r.request.tokens;
    } else {
      ItemsRun(cfg, r, items, Quiet);
    }
  }

  /**
   The same for a receiver that starts at the command name, as the ManageSieve one does: such a request
   carries no tag.
   */
  lemma UntaggedRoundTrip<C>(cfg: Config<C>, sent: Sent<C>)
    requires cfg.startState == Command(sent.uid) && sent.tag == []
    requires LegalName(sent.name) && Upper(sent.name) != UID
    requires cfg.parseCommand(Upper(sent.name), sent.uid) == Some(sent.command)
    requires LegalItems(cfg, sent.command, sent.items) && TotalCharge(sent.items) <= cfg.maxRequestSize
    requires Joined(sent.items, Quiet)
    ensures Feed(cfg, Fresh(cfg), sent.name + [NameEnd(sent.items)] + PrintTail(sent.items)) == Trace(Fresh(cfg), Expected(sent))
  {
    hide Step, Run, PrintTail, LegalItem, Charge, TotalCharge, Upper, LegalName;
    var next, rest := NameEnd(sent.items), PrintTail(sent.items);
    var ready := Core([], Request([], sent.command, []), InArgument(SP), 0);
    NameEnds(cfg, Fresh(cfg), sent.name, sent.uid, sent.command, next);
    TailRun(cfg, ready, sent.items);
    assert [] + Tokens(sent.items) == Tokens(sent.items);
    RunJoins(Stepper(cfg), Fresh(cfg), sent.name + [next], ready, [], rest, Fresh(cfg), Expected(sent));
  }

  function PrintAll<C>(requests: seq<Sent<C>>): seq<byte> {
    if requests == [] then [] else Print(requests[0]) + PrintAll(requests[1..])
  }

  function ExpectedAll<C>(requests: seq<Sent<C>>): seq<Event<C>> {
    if requests == [] then [] else Expected(requests[0]) + ExpectedAll(requests[1..])
  }

  /** Pipelined requests, cut into frames anywhere, come back one after the other. */
  lemma {:induction false} PipelineRoundTrip<C>(cfg: Config<C>, requests: seq<Sent<C>>, frames: seq<seq<byte>>)
    requires cfg.startState == Start && forall i :: 0 <= i < |requests| ==> LegalRequest(cfg, requests[i])
    requires forall i :: 0 <= i < |requests| ==> Joined(requests[i].items, Quiet)
    requires Concat(frames) == PrintAll(requests)
    ensures RunFrames(Stepper(cfg), Fresh(cfg), frames) == Trace(Fresh(cfg), ExpectedAll(requests))
    decreases |requests|
  {
    ChunkIndependence(cfg, Fresh(cfg), frames);
    if requests == [] {
    } else {
      RoundTrip(cfg, requests[0]);
      var rest := PrintAll(requests[1..]);
      assert Concat([rest]) == rest;
      PipelineRoundTrip(cfg, requests[1..], [rest]);
      ChunkIndependence(cfg, Fresh(cfg), [rest]);
      RunSplits(Stepper(cfg), Fresh(cfg), Print(requests[0]), rest);
    }
  }
}
