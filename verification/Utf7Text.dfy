/**
 The text of an encoded mailbox name, character by character (section 5.1.3 of RFC 3501).

 `Utf7` proves that decoding undoes encoding.  Here: what is written, and what is read, is modified base64 over one
 stream of bits, with the alphabet and the printable range spelled out.
 */
module Utf7Text {
  import opened Common
  import opened DivMod
  import opened Utf7

  // ----- The alphabet -------------------------------------------------------------------------

  const UPPER := "ABCDEFGHIJKLMNOPQRSTUVWXYZ"
  const LOWER := "abcdefghijklmnopqrstuvwxyz"
  const DIGITS := "0123456789"
  const SYMBOLS := UPPER + LOWER + DIGITS + "+,"

  lemma UpperAt(k: nat)
    requires k < 26
    ensures |UPPER| == 26 && UPPER[k] == (k + 'A' as int) as char
  {}

  lemma LowerAt(k: nat)
    requires k < 26
    ensures |LOWER| == 26 && LOWER[k] == (k + 'a' as int) as char
  {}

  lemma DigitAt(k: nat)
    requires k < 10
    ensures |DIGITS| == 10 && DIGITS[k] == (k + '0' as int) as char
  {}

  /** The symbol of rank `k` is character `k` of the alphabet. */
  lemma SymbolAt(k: nat)
    requires k < 64
    ensures |SYMBOLS| == 64 && SYMBOLS[k] == Symbol(k)
  {
    UpperAt(0);
    LowerAt(0);
    DigitAt(0);
    if k < 26 {
      UpperAt(k);
    } else if k < 52 {
      LowerAt(k - 26);
    } else if k < 62 {
      DigitAt(k - 52);
    }
  }

  /** A character has a rank exactly if it is in the alphabet, and the rank is its place there. */
  lemma RankExactly(c: char)
    ensures Rank(c).Some? <==> c in SYMBOLS
    ensures Rank(c).Some? ==> Rank(c).value < |SYMBOLS| && SYMBOLS[Rank(c).value] == c
  {
    if Rank(c).Some? {
      SymbolAt(Rank(c).value);
    }
    if c in SYMBOLS {
      var k :| 0 <= k < |SYMBOLS| && SYMBOLS[k] == c;
      SymbolAt(0);
      SymbolAt(k);
      SymbolRank(k);
    }
  }

  // ----- Bits ---------------------------------------------------------------------------------

  type bit = b: int | 0 <= b < 2

  /** The lowest `n` bits of `v`, the most significant first. */
  function BitsOf(v: nat, n: nat): (bits: seq<bit>)
    ensures |bits| == n
  {
    if n == 0 then [] else BitsOf(v / 2, n - 1) + [v % 2]
  }

  /** The number a stretch of bits stands for. */
  function NumberOf(bits: seq<bit>): nat {
    if bits == [] then 0 else NumberOf(bits[..|bits| - 1]) * 2 + bits[|bits| - 1]
  }

  lemma {:induction false} NumberOfBits(v: nat, n: nat)
    requires v < Pow(2, n)
    ensures NumberOf(BitsOf(v, n)) == v
  {
    if n > 0 {
      NumberOfBits(v / 2, n - 1);
      assert BitsOf(v, n)[..n - 1] == BitsOf(v / 2, n - 1);
    }
  }

  lemma {:induction false} NumberFits(bits: seq<bit>)
    ensures NumberOf(bits) < Pow(2, |bits|)
  {
    if bits != [] {
      NumberFits(bits[..|bits| - 1]);
    }
  }

  lemma {:induction false} BitsJoin(a: nat, m: nat, b: nat, n: nat)
    requires b < Pow(2, n)
    ensures BitsOf(a, m) + BitsOf(b, n) == BitsOf(a * Pow(2, n) + b, m + n)
  {
    if n == 0 {
      assert BitsOf(a, m) + [] == BitsOf(a, m);
    } else {
      var half := a * Pow(2, n - 1);
      BitsJoin(a, m, b / 2, n - 1);
      assert a * Pow(2, n) == half * 2;
      assert (half * 2 + b) / 2 == half + b / 2 && (half * 2 + b) % 2 == b % 2;
      Associates(BitsOf(a, m), BitsOf(b / 2, n - 1), [b % 2]);
    }
  }

  lemma {:induction false} BitsFit(bits: seq<bit>)
    ensures BitsOf(NumberOf(bits), |bits|) == bits
  {
    if bits != [] {
      BitsFit(bits[..|bits| - 1]);
      assert bits == bits[..|bits| - 1] + [bits[|bits| - 1]];
    }
  }

  function Zeros(n: nat): seq<bit> { seq(n, _ => 0) }

  /** The bits of all the units, one after the other. */
  function UnitBits(units: seq<unit>): seq<bit> {
    if units == [] then [] else BitsOf(units[0], 16) + UnitBits(units[1..])
  }

  /** Six bits a symbol; the last one is filled up with zeros. */
  function Base64(bits: seq<bit>): string {
    if bits == [] then ""
    else if |bits| < 6 then [SymbolOf(bits + Zeros(6 - |bits|))]
    else [SymbolOf(bits[..6])] + Base64(bits[6..])
  }

  function SymbolOf(bits: seq<bit>): (c: char)
    requires |bits| == 6
    ensures c in SYMBOLS
  {
    SymbolAt(0);
    NumberFits(bits);
    Powers();
    SYMBOLS[NumberOf(bits)]
  }

  lemma FrontSymbol(rank: nat, bits: seq<bit>)
    requires rank < 64
    ensures Base64(BitsOf(rank, 6) + bits) == [Symbol(rank)] + Base64(bits)
  {
    var all := BitsOf(rank, 6) + bits;
    Powers();
    assert all[..6] == BitsOf(rank, 6) && all[6..] == bits;
    NumberOfBits(rank, 6);
    SymbolAt(rank);
  }

  // ----- Encoding -----------------------------------------------------------------------------

  predicate Printable(u: unit) { 0x20 <= u <= 0x7E }

  /** Printable characters stand for themselves, an ampersand for `&-`. */
  function Doubled(units: seq<unit>): string
    requires forall i :: 0 <= i < |units| ==> Printable(units[i])
  {
    if units == [] then ""
    else
      assert Printable(units[0]);
      (if units[0] == '&' as int then "&-" else [units[0] as char]) + Doubled(units[1..])
  }

  /** How many units at the front are not printable. */
  function RunLength(units: seq<unit>): (n: nat)
    ensures n <= |units| && (n < |units| ==> Printable(units[n]))
    ensures forall i :: 0 <= i < n ==> !Printable(units[i])
  {
    if units == [] || Printable(units[0]) then 0 else 1 + RunLength(units[1..])
  }

  /** Modified base64: between `&` and `-` stand the bits of a whole run of units that are not printable. */
  function Modified(units: seq<unit>): string
    decreases |units|
  {
    if units == [] then ""
    else if Printable(units[0]) then (if units[0] == '&' as int then "&-" else [units[0] as char]) + Modified(units[1..])
    else "&" + Base64(UnitBits(units[..RunLength(units)])) + "-" + Modified(units[RunLength(units)..])
  }

  lemma ShortUnfolds(bits: seq<bit>)
    requires 0 < |bits| < 6
    ensures Base64(bits) == [SymbolOf(bits + Zeros(6 - |bits|))]
  {}

  lemma SymbolOfBits(rank: nat)
    requires rank < 64
    ensures SymbolOf(BitsOf(rank, 6)) == Symbol(rank)
  {
    Powers();
    NumberOfBits(rank, 6);
    SymbolAt(rank);
  }

  /** Fewer than six bits. */
  lemma ShortSymbol(v: nat, n: nat)
    requires 0 < n < 6 && v < Pow(2, n) && v * Pow(2, 6 - n) < 64
    ensures Base64(BitsOf(v, n)) == [Symbol(v * Pow(2, 6 - n))]
  {
    hide BitsOf, Symbol, SymbolOf, Zeros, Base64, Pow;
    ZeroBits(6 - n);
    BitsJoin(v, n, 0, 6 - n);
    ShortUnfolds(BitsOf(v, n));
    SymbolOfBits(v * Pow(2, 6 - n));
  }

  /** The two and the four bits a unit may leave, filled up. */
  lemma LastSymbol(p: Pending)
    requires Leftover(p)
    ensures Base64(BitsOf(p.value, p.count)) + "-" == Unshift(p)
  {
    Powers();
    hide Base64, BitsOf, Symbol, Pow;
    if p.count == 0 {
      assert Base64(BitsOf(0, 0)) == "" by { NothingWritten(); }
    } else {
      ShortSymbol(p.value, p.count);
    }
  }

  lemma NothingWritten()
    ensures Base64(BitsOf(0, 0)) == ""
  {}

  lemma {:induction false} ZeroBits(n: nat)
    ensures BitsOf(0, n) == Zeros(n)
  {
    if n > 0 {
      ZeroBits(n - 1);
    }
  }

  /** A number of 6, 12 or 18 bits and more in groups of six. */
  lemma TwoSymbols(a: nat, b: nat, rest: seq<bit>)
    requires a < 64 && b < 64
    ensures Base64(BitsOf(a, 6) + BitsOf(b, 6) + rest) == [Symbol(a), Symbol(b)] + Base64(rest)
  {
    hide Base64, BitsOf, Symbol;
    Associates(BitsOf(a, 6), BitsOf(b, 6), rest);
    FrontSymbol(a, BitsOf(b, 6) + rest);
    FrontSymbol(b, rest);
    Associates([Symbol(a)], [Symbol(b)], Base64(rest));
  }

  lemma ThreeSymbols(a: nat, b: nat, c: nat, rest: seq<bit>)
    requires a < 64 && b < 64 && c < 64
    ensures Base64(BitsOf(a, 6) + BitsOf(b, 6) + BitsOf(c, 6) + rest) == [Symbol(a), Symbol(b), Symbol(c)] + Base64(rest)
  {
    hide Base64, BitsOf, Symbol;
    Associates(BitsOf(a, 6) + BitsOf(b, 6), BitsOf(c, 6), rest);
    TwoSymbols(a, b, BitsOf(c, 6) + rest);
    FrontSymbol(c, rest);
    Associates([Symbol(a), Symbol(b)], [Symbol(c)], Base64(rest));
  }

  /** The bits of a unit behind none, two and four bits left over: whole symbols, and what is left over then. */
  lemma UnitAsBits0(u: unit)
    ensures BitsOf(u, 16) == BitsOf(u / 1024, 6) + BitsOf(u / 16 % 64, 6) + BitsOf(u % 16, 4)
  {
    Powers();
    hide Pow, BitsOf;
    BitsJoin(u / 1024, 6, u / 16 % 64, 6);
    BitsJoin(u / 16, 12, u % 16, 4);
    assert u / 1024 * 64 + u / 16 % 64 == u / 16;
  }

  lemma UnitAsBits2(v: nat, u: unit)
    requires v < 4
    ensures BitsOf(v, 2) + BitsOf(u, 16) == BitsOf(v * 16 + u / 4096, 6) + BitsOf(u / 64 % 64, 6) + BitsOf(u % 64, 6)
  {
    Powers();
    hide Pow, BitsOf;
    BitsJoin(v, 2, u, 16);
    BitsJoin(v * 16 + u / 4096, 6, u / 64 % 64, 6);
    BitsJoin(v * 1024 + u / 64, 12, u % 64, 6);
    assert (v * 16 + u / 4096) * 64 + u / 64 % 64 == v * 1024 + u / 64;
  }

  lemma UnitAsBits4(v: nat, u: unit)
    requires v < 16
    ensures BitsOf(v, 4) + BitsOf(u, 16)
         == BitsOf(v * 4 + u / 16384, 6) + BitsOf(u / 256 % 64, 6) + BitsOf(u / 4 % 64, 6) + BitsOf(u % 4, 2)
  {
    Powers();
    hide Pow, BitsOf;
    BitsJoin(v, 4, u, 16);
    BitsJoin(v * 4 + u / 16384, 6, u / 256 % 64, 6);
    assert (v * 4 + u / 16384) * 64 + u / 256 % 64 == v * 256 + u / 256;
    BitsJoin(v * 256 + u / 256, 12, u / 4 % 64, 6);
    assert (v * 256 + u / 256) * 64 + u / 4 % 64 == v * 16384 + u / 4;
    BitsJoin(v * 16384 + u / 4, 18, u % 4, 2);
  }

  /** One more unit of a run. */
  lemma UnitStep(p: Pending, u: unit, rest: seq<bit>)
    requires Leftover(p)
    ensures var p' := UnitLeftover(p, u);
            Base64(BitsOf(p.value, p.count) + (BitsOf(u, 16) + rest))
            == UnitSymbols(p, u) + Base64(BitsOf(p'.value, p'.count) + rest)
  {
    hide Base64, BitsOf, Symbol;
    var p' := UnitLeftover(p, u);
    var left := BitsOf(p'.value, p'.count) + rest;
    Associates(BitsOf(p.value, p.count), BitsOf(u, 16), rest);
    if p.count == 0 {
      UnitAsBits0(u);
      var two := BitsOf(u / 1024, 6) + BitsOf(u / 16 % 64, 6);
      Associates(two, BitsOf(p'.value, p'.count), rest);
      TwoSymbols(u / 1024, u / 16 % 64, left);
      assert BitsOf(p.value, p.count) == [];
      assert BitsOf(p.value, p.count) + BitsOf(u, 16) == BitsOf(u, 16);
    } else if p.count == 2 {
      UnitAsBits2(p.value, u);
      ThreeSymbols(p.value * 16 + u / 4096, u / 64 % 64, u % 64, left);
      assert BitsOf(p'.value, p'.count) == [];
      assert left == rest;
    } else {
      UnitAsBits4(p.value, u);
      var three := BitsOf(p.value * 4 + u / 16384, 6) + BitsOf(u / 256 % 64, 6) + BitsOf(u / 4 % 64, 6);
      Associates(three, BitsOf(p'.value, p'.count), rest);
      ThreeSymbols(p.value * 4 + u / 16384, u / 256 % 64, u / 4 % 64, left);
    }
  }

  /** A run of units from the middle on, up to where it ends. */
  lemma {:induction false} RunText(p: Pending, run: seq<unit>, rest: seq<unit>)
    requires Leftover(p)
    requires forall i :: 0 <= i < |run| ==> !Printable(run[i])
    requires rest != [] ==> Printable(rest[0])
    ensures EncodeFrom(run + rest, Some(p))
         == Base64(BitsOf(p.value, p.count) + UnitBits(run)) + "-" + EncodeFrom(rest, None)
    decreases |run|
  {
    hide Base64, BitsOf, UnitSymbols, Unshift, Symbol, DirectText;
    var bits := BitsOf(p.value, p.count);
    if run == [] {
      assert run + rest == rest;
      assert bits + UnitBits(run) == bits;
      LastSymbol(p);
      if rest == [] {
        assert Unshift(p) + "" == Unshift(p);
      } else {
        var more := DirectText(rest[0]) + EncodeFrom(rest[1..], None);
        assert "" + more == more;
      }
    } else {
      var u, p' := run[0], UnitLeftover(p, run[0]);
      assert !Printable(u);
      assert (run + rest)[1..] == run[1..] + rest;
      RunText(p', run[1..], rest);
      UnitStep(p, u, UnitBits(run[1..]));
      var text := Base64(BitsOf(p'.value, p'.count) + UnitBits(run[1..]));
      Associates(UnitSymbols(p, u), text, "-");
      Associates(UnitSymbols(p, u), text + "-", EncodeFrom(rest, None));
      var all := UnitSymbols(p, u) + EncodeFrom(run[1..] + rest, Some(p'));
      assert "" + all == all;
    }
  }

  /** The encoder writes modified base64. */
  lemma {:induction false} EncodesModified(units: seq<unit>)
    ensures EncodeFrom(units, None) == Modified(units)
    decreases |units|
  {
    hide Base64, UnitBits, UnitSymbols, Unshift;
    if units == [] {
    } else if Printable(units[0]) {
      EncodesModified(units[1..]);
      assert "" + (DirectText(units[0]) + Modified(units[1..])) == DirectText(units[0]) + Modified(units[1..]);
    } else {
      var n := RunLength(units);
      var run, rest := units[..n], units[n..];
      assert run + rest == units;
      EncodesModified(rest);
      RunText(Pending(0, 0), run, rest);
      RunBegins(units);
      NoBits(UnitBits(run));
      Associates("&", Base64(UnitBits(run)), "-");
      Associates("&", Base64(UnitBits(run)) + "-", Modified(rest));
    }
  }

  lemma RunBegins(units: seq<unit>)
    requires units != [] && !Printable(units[0])
    ensures EncodeFrom(units, None) == "&" + EncodeFrom(units, Some(Pending(0, 0)))
  {
    var rest := UnitSymbols(Pending(0, 0), units[0]) + EncodeFrom(units[1..], Some(UnitLeftover(Pending(0, 0), units[0])));
    assert "" + rest == rest;
  }

  lemma NoBits(bits: seq<bit>)
    ensures BitsOf(0, 0) + bits == bits
  {}

  /** A name of printable characters is written as it is, but for its ampersands. */
  lemma {:induction false} PrintableStays(units: seq<unit>)
    requires forall i :: 0 <= i < |units| ==> Printable(units[i])
    ensures Modified(units) == Doubled(units)
  {
    if units != [] {
      assert Printable(units[0]);
      PrintableStays(units[1..]);
    }
  }

  function DoubledText(text: string): string {
    if text == "" then "" else (if text[0] == '&' then "&-" else [text[0]]) + DoubledText(text[1..])
  }

  /** A text of the characters from space to tilde without an ampersand encodes to itself; `&` is doubled by a dash. */
  lemma {:induction false} PrintableTextStays(text: string)
    requires forall c :: c in text ==> ' ' <= c <= '~'
    ensures EncodeFrom(EncodeUtf16(text), None) == DoubledText(text)
    ensures '&' !in text ==> DoubledText(text) == text
  {
    EncodesModified(EncodeUtf16(text));
    if text != "" {
      var c, rest := text[0], EncodeUtf16(text[1..]);
      assert c in text && EncodeUtf16(text) == [c as int] + rest;
      assert forall d :: d in text[1..] ==> d in text;
      PrintableTextStays(text[1..]);
      EncodesModified(rest);
      assert ([c as int] + rest)[1..] == rest;
      assert text == [c] + text[1..];
    }
  }

  /** Between `&` and `-` only symbols of the alphabet stand, as many as the bits need. */
  lemma {:induction false} OnlySymbols(bits: seq<bit>)
    ensures |Base64(bits)| == (|bits| + 5) / 6
    ensures forall c :: c in Base64(bits) ==> c in SYMBOLS
    decreases |bits|
  {
    hide NumberOf;
    if |bits| >= 6 {
      assert SymbolOf(bits[..6]) in SYMBOLS;
      OnlySymbols(bits[6..]);
    } else if bits != [] {
      assert SymbolOf(bits + Zeros(6 - |bits|)) in SYMBOLS;
    }
  }

  // ----- Decoding -----------------------------------------------------------------------------

  predicate InAlphabet(symbols: string) {
    forall c :: c in symbols ==> c in SYMBOLS
  }

  /** The first of some symbols. */
  lemma SymbolFirst(symbols: string)
    requires InAlphabet(symbols) && symbols != ""
    ensures Rank(symbols[0]).Some? && symbols[0] != '-' && InAlphabet(symbols[1..])
  {
    assert symbols[0] in symbols;
    forall c | c in symbols[1..]
      ensures c in SYMBOLS
    {
      assert c in symbols;
    }
    RankExactly(symbols[0]);
  }

  /** The bits of the ranks of the symbols, one after the other. */
  function SymbolBits(symbols: string): seq<bit>
    requires InAlphabet(symbols)
  {
    if symbols == "" then []
    else
      SymbolFirst(symbols);
      BitsOf(Rank(symbols[0]).value, 6) + SymbolBits(symbols[1..])
  }

  /** Sixteen bits a unit; a last stretch that is shorter is dropped. */
  function Units(bits: seq<bit>): seq<unit>
    decreases |bits|
  {
    if |bits| < 16 then []
    else
      UnitFits(bits[..16]);
      [NumberOf(bits[..16])] + Units(bits[16..])
  }

  lemma UnitFits(bits: seq<bit>)
    requires |bits| == 16
    ensures NumberOf(bits) < 0x1_0000
  {
    NumberFits(bits);
    Powers();
  }

  lemma FrontUnit(u: unit, rest: seq<bit>)
    ensures Units(BitsOf(u, 16) + rest) == [u] + Units(rest)
  {
    var all := BitsOf(u, 16) + rest;
    Powers();
    NumberOfBits(u, 16);
    assert all[..16] == BitsOf(u, 16) && all[16..] == rest;
  }

  /** One more symbol in front of bits that are still to be grouped. */
  lemma TakeAsBits(q: Pending, rank: nat, rest: seq<bit>)
    requires Partial(q) && rank < 64
    ensures var t := TakeSymbol(q, rank);
            Units(BitsOf(q.value, q.count) + (BitsOf(rank, 6) + rest)) == t.0 + Units(BitsOf(t.1.value, t.1.count) + rest)
  {
    var w, t := q.value * 64 + rank, TakeSymbol(q, rank);
    Powers();
    hide BitsOf, Units;
    Associates(BitsOf(q.value, q.count), BitsOf(rank, 6), rest);
    BitsJoin(q.value, q.count, rank, 6);
    if q.count < 10 {
      assert [] + Units(BitsOf(w, q.count + 6) + rest) == Units(BitsOf(w, q.count + 6) + rest);
    } else {
      SymbolBounds(q, rank);
      UnitInFront(w, q.count - 10, rest);
    }
  }

  lemma UnitInFront(w: nat, n: nat, rest: seq<bit>)
    requires w / Pow(2, n) < 0x1_0000
    ensures w % Pow(2, n) >= 0
    ensures Units(BitsOf(w, 16 + n) + rest) == [w / Pow(2, n)] + Units(BitsOf(w % Pow(2, n), n) + rest)
  {
    hide BitsOf, Units;
    var d := Pow(2, n);
    Quotient(w, d);
    BitsJoin(w / d, 16, w % d, n);
    Associates(BitsOf(w / d, 16), BitsOf(w % d, n), rest);
    FrontUnit(w / d, BitsOf(w % d, n) + rest);
  }

  /** Inside a run the symbols are grouped into units up to the dash or the end of the text. */
  lemma {:induction false} RunReads(q: Pending, symbols: string, tail: string)
    requires Partial(q) && InAlphabet(symbols)
    requires tail == "" || tail[0] == '-'
    ensures DecodeFrom(symbols + tail, Some(q))
         == Prepend(Units(BitsOf(q.value, q.count) + SymbolBits(symbols)), AfterDash(tail))
    decreases |symbols|
  {
    hide TakeSymbol, Units, BitsOf, InAlphabet, Rank, Prepend, Partial;
    if symbols == "" {
      assert symbols + tail == tail;
      assert BitsOf(q.value, q.count) + [] == BitsOf(q.value, q.count);
      FewBits(q);
      PrependMore([], [], AfterDash(tail));
    } else {
      var c, more := symbols[0], symbols[1..];
      SymbolFirst(symbols);
      var rank := Rank(c).value;
      assert rank < 64 by { RankExactly(c); SymbolAt(0); }
      var t := TakeSymbol(q, rank);
      assert (symbols + tail)[1..] == more + tail && (symbols + tail)[0] == c;
      RunReads(t.1, more, tail);
      TakeAsBits(q, rank, SymbolBits(more));
      PrependMore(t.0, Units(BitsOf(t.1.value, t.1.count) + SymbolBits(more)), AfterDash(tail));
    }
  }

  /** What is read behind a run. */
  function AfterDash(tail: string): Option<seq<unit>> {
    if tail == "" then Some([]) else DecodeFrom(tail[1..], None)
  }

  lemma FewBits(q: Pending)
    requires Partial(q)
    ensures Units(BitsOf(q.value, q.count)) == []
  {}

  /** A run of symbols is decoded to the units its bits make up; the run ends with a dash or with the text. */
  lemma DecodesRun(symbols: string, tail: string)
    requires symbols != "" && InAlphabet(symbols)
    requires tail == "" || tail[0] == '-'
    ensures DecodeFrom("&" + (symbols + tail), None) == Prepend(Units(SymbolBits(symbols)), AfterDash(tail))
  {
    hide Units, SymbolBits, InAlphabet;
    var text := symbols + tail;
    NothingPartial();
    RunReads(Pending(0, 0), symbols, tail);
    NoBits(SymbolBits(symbols));
    SymbolFirst(symbols);
    assert ("&" + text)[1..] == text && ("&" + text)[1] == symbols[0];
  }

  /** A run that holds anything else is refused, as in `Q & A`. */
  lemma {:induction false} RunRefused(q: Pending, symbols: string, bad: char, tail: string)
    requires Partial(q) && InAlphabet(symbols)
    requires bad !in SYMBOLS && bad != '-'
    ensures DecodeFrom(symbols + ([bad] + tail), Some(q)) == None
    decreases |symbols|
  {
    hide TakeSymbol, InAlphabet, Rank, Partial;
    var text := symbols + ([bad] + tail);
    if symbols == "" {
      assert text == [bad] + tail;
      RankExactly(bad);
    } else {
      var c, more := symbols[0], symbols[1..];
      SymbolFirst(symbols);
      assert Rank(c).value < 64 by { RankExactly(c); SymbolAt(0); }
      assert text[1..] == more + ([bad] + tail) && text[0] == c;
      RunRefused(TakeSymbol(q, Rank(c).value).1, more, bad, tail);
    }
  }

  lemma TextRefused(symbols: string, bad: char, tail: string)
    requires InAlphabet(symbols)
    requires bad !in SYMBOLS && bad != '-'
    ensures DecodeFrom("&" + (symbols + ([bad] + tail)), None) == None
  {
    hide InAlphabet;
    var text := symbols + ([bad] + tail);
    NothingPartial();
    RunRefused(Pending(0, 0), symbols, bad, tail);
    assert ("&" + text)[1..] == text;
    if symbols != "" {
      SymbolFirst(symbols);
    }
    assert text[0] != '-';
  }

  /** Outside runs: `&-` is an ampersand, a last `&` is one too, any other character is its own unit, cut to 16 bits. */
  lemma DecodesPlain(tail: string)
    ensures DecodeFrom("", None) == Some([])
    ensures DecodeFrom("&", None) == Some(['&' as int])
    ensures DecodeFrom("&-" + tail, None) == Prepend(['&' as int], DecodeFrom(tail, None))
    ensures forall c: char | c != '&' :: DecodeFrom([c] + tail, None) == Prepend([c as int % 0x1_0000], DecodeFrom(tail, None))
  {
    assert ("&-" + tail)[2..] == tail;
    forall c: char | c != '&'
      ensures DecodeFrom([c] + tail, None) == Prepend([c as int % 0x1_0000], DecodeFrom(tail, None))
    {
      assert ([c] + tail)[1..] == tail;
    }
  }

  /** The two halves of a character above U+FFFF. */
  lemma Surrogates(c: char)
    ensures c as int < 0x1_0000 ==> EncodeUtf16([c]) == [c as int]
    ensures c as int >= 0x1_0000 ==>
              var units := EncodeUtf16([c]);
              && |units| == 2 && 0xD800 <= units[0] < 0xDC00 && 0xDC00 <= units[1] < 0xE000
              && (units[0] as int - 0xD800) * 0x400 + (units[1] as int - 0xDC00) == c as int - 0x1_0000
  {
    assert EncodeUtf16([c][1..]) == [];
  }
}
