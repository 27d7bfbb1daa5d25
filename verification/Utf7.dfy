/**
 Modified UTF-7 mailbox names (crates/imap-proto/src/utf7.rs, section 5.1.3 of RFC 3501).

 The loops keep unsigned 32-bit accumulators from which shifts silently drop the high bits, and they
 never clear the encoder's.  The specification functions carry only the pending bits that still count.
 */
module Utf7 {
  import opened Common
  import opened DivMod

  /** A UTF-16 code unit. */
  type unit = u: int | 0 <= u < 0x1_0000

  const TWO_TO_32: nat := 0x1_0000_0000

  // ----- Tables -------------------------------------------------------------------------------

  function Symbol(rank: int): (c: char)
    requires 0 <= rank < 64
    ensures 0x20 <= c as int < 0x7F && c != '-' && c != '&'
  {
    if rank < 26 then (rank + 'A' as int) as char
    else if rank < 52 then (rank - 26 + 'a' as int) as char
    else if rank < 62 then (rank - 52 + '0' as int) as char
    else if rank == 62 then '+'
    else ','
  }

  function Rank(c: char): (r: Option<nat>)
    ensures r.Some? ==> r.value < 64 && Symbol(r.value) == c
  {
    if 'A' <= c <= 'Z' then Some(c as int - 'A' as int)
    else if 'a' <= c <= 'z' then Some(c as int - 'a' as int + 26)
    else if '0' <= c <= '9' then Some(c as int - '0' as int + 52)
    else if c == '+' then Some(62)
    else if c == ',' then Some(63)
    else None
  }

  lemma SymbolRank(rank: int)
    requires 0 <= rank < 64
    ensures Rank(Symbol(rank)) == Some(rank)
  {}

  // ----- UTF-16 -------------------------------------------------------------------------------

  function CharUnits(c: char): seq<unit> {
    var n := c as int;
    if n < 0x1_0000 then [n] else [0xD800 + (n - 0x1_0000) / 0x400, 0xDC00 + (n - 0x1_0000) % 0x400]
  }

  /** `str::encode_utf16`. */
  function EncodeUtf16(text: string): seq<unit> {
    if text == "" then [] else CharUnits(text[0]) + EncodeUtf16(text[1..])
  }

  /** `String::from_utf16`. */
  function FromUtf16(units: seq<unit>): Option<string> {
    if units == [] then Some("")
    else
      var u: int := units[0];
      if u < 0xD800 || u >= 0xE000 then
        match FromUtf16(units[1..])
        case None => None
        case Some(rest) => Some([u as char] + rest)
      else if u < 0xDC00 && |units| > 1 && 0xDC00 <= units[1] < 0xE000 then
        match FromUtf16(units[2..])
        case None => None
        case Some(rest) => Some([(0x1_0000 + (u - 0xD800) * 0x400 + (units[1] - 0xDC00)) as char] + rest)
      else None
  }

  lemma {:induction false} Utf16RoundTrip(text: string)
    ensures FromUtf16(EncodeUtf16(text)) == Some(text)
  {
    if text == "" {
    } else {
      var rest := EncodeUtf16(text[1..]);
      Utf16RoundTrip(text[1..]);
      var units := CharUnits(text[0]);
      assert (units + rest)[|units|..] == rest;
      assert text == [text[0]] + text[1..];
    }
  }

  // ----- Encoding -----------------------------------------------------------------------------

  /** Encoder bits that no symbol has carried yet: `count` of them, with value `value`. */
  datatype Pending = Pending(count: nat, value: nat)

  predicate Leftover(p: Pending) {
    || (p.count == 0 && p.value == 0)
    || (p.count == 2 && p.value < 4)
    || (p.count == 4 && p.value < 16)
  }

  predicate IsDirect(u: unit) { 0x20 <= u < 0x7F }

  function DirectText(u: unit): string
    requires IsDirect(u)
  {
    if u == 0x26 then "&-" else [u as char]
  }

  /** The symbols one more code unit completes. */
  function UnitSymbols(p: Pending, u: unit): string
    requires Leftover(p)
  {
    if p.count == 0 then [Symbol(u / 1024), Symbol(u / 16 % 64)]
    else if p.count == 2 then [Symbol(p.value * 16 + u / 4096), Symbol(u / 64 % 64), Symbol(u % 64)]
    else [Symbol(p.value * 4 + u / 16384), Symbol(u / 256 % 64), Symbol(u / 4 % 64)]
  }

  /** The bits one more code unit leaves over. */
  function UnitLeftover(p: Pending, u: unit): (p': Pending)
    requires Leftover(p)
    ensures Leftover(p')
  {
    if p.count == 0 then Pending(4, u % 16)
    else if p.count == 2 then Pending(0, 0)
    else Pending(2, u % 4)
  }

  /** The end of a shifted run: leftover bits, padded with zeros, and the closing dash. */
  function Unshift(p: Pending): string
    requires Leftover(p)
  {
    if p.count == 0 then "-"
    else if p.count == 2 then [Symbol(p.value * 16), '-']
    else [Symbol(p.value * 4), '-']
  }

  /** The text for the remaining units; `run` holds the leftover bits inside a shifted run. */
  function EncodeFrom(units: seq<unit>, run: Option<Pending>): string
    requires run.Some? ==> Leftover(run.value)
  {
    if units == [] then
      if run.Some? then Unshift(run.value) else ""
    else if IsDirect(units[0]) then
      (if run.Some? then Unshift(run.value) else "") + (DirectText(units[0]) + EncodeFrom(units[1..], None))
    else
      var p := if run.Some? then run.value else Pending(0, 0);
      (if run.Some? then "" else "&")
      + (UnitSymbols(p, units[0]) + EncodeFrom(units[1..], Some(UnitLeftover(p, units[0]))))
  }

  /** Symbols taken from the top of the low `bits` bits of the accumulator. */
  function TopSymbols(bits: nat, u: nat): string {
    if bits < 6 then "" else [Symbol(u / Pow(2, bits - 6) % 64)] + TopSymbols(bits - 6, u)
  }

  /** The accumulator agrees with the pending bits; whatever else it still holds does not matter. */
  predicate Accumulates(bits: nat, u: nat, p: Pending) {
    p.count == bits && u < TWO_TO_32 && Leftover(p) && u % Pow(2, bits) == p.value
  }

  lemma Powers()
    ensures Pow(2, 0) == 1 && Pow(2, 2) == 4 && Pow(2, 4) == 16 && Pow(2, 6) == 64 && Pow(2, 8) == 256
    ensures Pow(2, 10) == 1024 && Pow(2, 12) == 4096 && Pow(2, 14) == 16384 && Pow(2, 16) == 65536
  {
    assert Pow(2, 3) == 8 && Pow(2, 5) == 32 && Pow(2, 7) == 128;
    assert Pow(2, 9) == 512 && Pow(2, 11) == 2048 && Pow(2, 13) == 8192 && Pow(2, 15) == 32768;
  }

  /** Shifting 16 bits into a wrapping accumulator keeps the pending bits below a modulus that divides 2^32. */
  lemma WrapKeeps(u: nat, ch: unit, u': nat)
    requires u < TWO_TO_32 && u' == u * 65536 % TWO_TO_32 + ch
    ensures u' < TWO_TO_32
    ensures u' % 65536 == ch
    ensures u' % 262144 == u % 4 * 65536 + ch
    ensures u' % 1048576 == u % 16 * 65536 + ch
  {
    var low := u % 65536;
    DivUnique(u * 65536, TWO_TO_32, u / 65536, low * 65536);
    DivUnique(u', 65536, low, ch);
    DivUnique(u', 262144, low / 4, low % 4 * 65536 + ch);
    DivUnique(u', 1048576, low / 16, low % 16 * 65536 + ch);
    ModOfMod(u, 4, 16384);
    ModOfMod(u, 16, 4096);
  }

  lemma Symbols0(u: nat, ch: unit)
    requires u % 65536 == ch
    ensures u / 1024 % 64 == ch / 1024 && u / 16 % 64 == ch / 16 % 64 && u % 16 == ch % 16
  {
    TopOfMod(u, 1024, 64);
    DigitOfMod(u, 16, 64, 64);
    ModOfMod(u, 16, 4096);
  }

  lemma Symbols2(u: nat, value: nat, ch: unit)
    requires value < 4 && u % 65536 == ch && u % 262144 == value * 65536 + ch
    ensures u / 4096 % 64 == value * 16 + ch / 4096 && u / 64 % 64 == ch / 64 % 64 && u % 64 == ch % 64
  {
    TopOfMod(u, 4096, 64);
    DivUnique(value * 65536 + ch, 4096, value * 16 + ch / 4096, ch % 4096);
    DigitOfMod(u, 64, 64, 16);
    ModOfMod(u, 64, 1024);
  }

  lemma Symbols4(u: nat, value: nat, ch: unit)
    requires value < 16 && u % 65536 == ch && u % 1048576 == value * 65536 + ch
    ensures u / 16384 % 64 == value * 4 + ch / 16384 && u / 256 % 64 == ch / 256 % 64
    ensures u / 4 % 64 == ch / 4 % 64 && u % 4 == ch % 4
  {
    TopOfMod(u, 16384, 64);
    DivUnique(value * 65536 + ch, 16384, value * 4 + ch / 16384, ch % 16384);
    DigitOfMod(u, 256, 64, 4);
    DigitOfMod(u, 4, 64, 256);
    ModOfMod(u, 4, 16384);
  }

  lemma TopSymbolsOf(u: nat)
    ensures TopSymbols(16, u) == [Symbol(u / 1024 % 64), Symbol(u / 16 % 64)]
    ensures TopSymbols(18, u) == [Symbol(u / 4096 % 64), Symbol(u / 64 % 64), Symbol(u % 64)]
    ensures TopSymbols(20, u) == [Symbol(u / 16384 % 64), Symbol(u / 256 % 64), Symbol(u / 4 % 64)]
  {
    Powers();
    assert TopSymbols(10, u) == [Symbol(u / 16 % 64)] + TopSymbols(4, u);
    assert TopSymbols(12, u) == [Symbol(u / 64 % 64)] + TopSymbols(6, u);
    assert TopSymbols(6, u) == [Symbol(u % 64)] + TopSymbols(0, u);
    assert TopSymbols(14, u) == [Symbol(u / 256 % 64)] + TopSymbols(8, u);
    assert TopSymbols(8, u) == [Symbol(u / 4 % 64)] + TopSymbols(2, u);
  }

  /** Shifting a code unit in: wrapping loses only bits above the pending ones. */
  lemma ShiftedIn(bits: nat, u: nat, p: Pending, ch: unit)
    requires Accumulates(bits, u, p)
    ensures var u' := u * 65536 % TWO_TO_32 + ch;
            && u' < TWO_TO_32
            && TopSymbols(bits + 16, u') == UnitSymbols(p, ch)
            && Accumulates(UnitLeftover(p, ch).count, u', UnitLeftover(p, ch))
  {
    var u' := u * 65536 % TWO_TO_32 + ch;
    Powers();
    hide Pow, TopSymbols;
    WrapKeeps(u, ch, u');
    TopSymbolsOf(u');
    if bits == 0 {
      Symbols0(u', ch);
    } else if bits == 2 {
      Symbols2(u', p.value, ch);
    } else {
      Symbols4(u', p.value, ch);
    }
  }

  /** The padded last symbol of a run. */
  lemma Padded(bits: nat, u: nat, p: Pending)
    requires Accumulates(bits, u, p)
    ensures bits > 0 ==> [Symbol(u * Pow(2, 6 - bits) % TWO_TO_32 % 64), '-'] == Unshift(p)
    ensures bits == 0 ==> "-" == Unshift(p)
  {
    Powers();
    hide Pow;
    if bits == 4 {
      ModOfMod(u * 4, 64, 67108864);
      DivUnique(u * 4, 64, u / 16, u % 16 * 4);
    } else if bits == 2 {
      ModOfMod(u * 16, 64, 67108864);
      DivUnique(u * 16, 64, u / 4, u % 4 * 16);
    }
  }

  /** Ends a shifted run. */
  method CloseRun(result: string, bits: nat, u: nat, ghost p: Pending) returns (closed: string)
    requires Accumulates(bits, u, p)
    ensures closed == result + Unshift(p)
  {
    Padded(bits, u, p);
    closed := result;
    if bits > 0 {
      closed := closed + [Symbol(u * Pow(2, 6 - bits) % TWO_TO_32 % 64)];
    }
    closed := closed + "-";
  }

  /** Shifts one unit into the accumulator and writes the symbols it completes. */
  method PushUnit(result: string, bits: nat, u: nat, ch: unit, ghost p: Pending)
    returns (written: string, bits': nat, u': nat)
    requires Accumulates(bits, u, p)
    ensures written == result + UnitSymbols(p, ch)
    ensures Accumulates(bits', u', UnitLeftover(p, ch)) && u' < TWO_TO_32
  {
    ShiftedIn(bits, u, p, ch);
    u' := u * 65536 % TWO_TO_32 + ch;
    written, bits' := WriteTop(result, bits + 16, u');
  }

  /** Writes symbols from the top of the accumulator while six bits are left. */
  method WriteTop(result: string, bits: nat, u: nat) returns (written: string, bits': nat)
    ensures written == result + TopSymbols(bits, u)
    ensures bits' == bits % 6
  {
    hide Pow;
    bits' := bits;
    written := result;
    while bits' >= 6
      invariant bits' % 6 == bits % 6
      invariant written + TopSymbols(bits', u) == result + TopSymbols(bits, u)
    {
      Associates(written, [Symbol(u / Pow(2, bits' - 6) % 64)], TopSymbols(bits' - 6, u));
      written := written + [Symbol(u / Pow(2, bits' - 6) % 64)];
      bits' := bits' - 6;
    }
    assert written + "" == written;
  }

  method Encode(text: string) returns (result: string)
    ensures result == EncodeFrom(EncodeUtf16(text), None)
  {
    hide Accumulates, Unshift, UnitSymbols, Pow;
    result := "";
    var shifted, bits: nat, u: nat := false, 0, 0;
    var units := EncodeUtf16(text);
    ghost var p := Pending(0, 0);
    assert units[0..] == units;
    Settled(0);
    for i := 0 to |units|
      invariant Leftover(p) && (!shifted ==> bits == 0 && p == Pending(0, 0))
      invariant Accumulates(bits, u, p) && u < TWO_TO_32
      invariant result + EncodeFrom(units[i..], if shifted then Some(p) else None) == EncodeFrom(units, None)
    {
      var ch := units[i];
      assert units[i..][1..] == units[i + 1..];
      RestJoins(result, units[i..], if shifted then Some(p) else None);
      if 0x20 <= ch < 0x7F {
        if shifted {
          result := CloseRun(result, bits, u, p);
          shifted, bits, p := false, 0, Pending(0, 0);
          Settled(u);
        } else {
          assert result + "" == result;
        }
        if ch == 0x26 {
          result := result + "&-";
        } else {
          result := result + [ch as char];
        }
      } else {
        if !shifted {
          result := result + "&";
          shifted := true;
        } else {
          assert result + "" == result;
        }
        result, bits, u := PushUnit(result, bits, u, ch, p);
        p := UnitLeftover(p, ch);
      }
    }
    if shifted {
      result := CloseRun(result, bits, u, p);
    } else {
      assert result + "" == result;
    }
  }

  /** Between runs no bit of the accumulator counts. */
  lemma Settled(u: nat)
    ensures u < TWO_TO_32 ==> Accumulates(0, u, Pending(0, 0))
  {}

  /** Regroups the text of one unit with what was written before it. */
  lemma RestJoins(before: string, units: seq<unit>, run: Option<Pending>)
    requires units != [] && (run.Some? ==> Leftover(run.value))
    ensures before + EncodeFrom(units, run)
         == var p := if run.Some? then run.value else Pending(0, 0);
            if IsDirect(units[0])
            then before + (if run.Some? then Unshift(run.value) else "") + DirectText(units[0]) + EncodeFrom(units[1..], None)
            else before + (if run.Some? then "" else "&") + UnitSymbols(p, units[0])
                 + EncodeFrom(units[1..], Some(UnitLeftover(p, units[0])))
  {
    var p := if run.Some? then run.value else Pending(0, 0);
    if IsDirect(units[0]) {
      var a := if run.Some? then Unshift(run.value) else "";
      Associates(a, DirectText(units[0]), EncodeFrom(units[1..], None));
      Associates(before, a, DirectText(units[0]) + EncodeFrom(units[1..], None));
      Associates(before + a, DirectText(units[0]), EncodeFrom(units[1..], None));
    } else {
      var a := if run.Some? then "" else "&";
      var rest := EncodeFrom(units[1..], Some(UnitLeftover(p, units[0])));
      Associates(before, a, UnitSymbols(p, units[0]) + rest);
      Associates(before + a, UnitSymbols(p, units[0]), rest);
    }
  }

  // ----- Decoding -----------------------------------------------------------------------------

  /** Decoder bits that have not filled a code unit: fewer than 16, an even number of them. */
  predicate Partial(q: Pending) {
    q.count % 2 == 0 && q.count < 16 && q.value < Pow(2, q.count)
  }

  lemma SymbolBounds(q: Pending, rank: nat)
    requires Partial(q) && rank < 64
    ensures q.count < 10 ==> q.value * 64 + rank < Pow(2, q.count + 6)
    ensures q.count >= 10 ==> (q.value * 64 + rank) / Pow(2, q.count - 10) < 0x1_0000
  {
    Powers();
    hide Pow;
    assert q.count in {0, 2, 4, 6, 8, 10, 12, 14};
  }

  /** One more symbol: the unit it completes, if any, and the bits left. */
  function TakeSymbol(q: Pending, rank: nat): (r: (seq<unit>, Pending))
    requires Partial(q) && rank < 64
    ensures Partial(r.1)
  {
    SymbolBounds(q, rank);
    var w := q.value * 64 + rank;
    if q.count < 10 then ([], Pending(q.count + 6, w))
    else ([w / Pow(2, q.count - 10)], Pending(q.count - 10, w % Pow(2, q.count - 10)))
  }

  function Prepend(units: seq<unit>, rest: Option<seq<unit>>): Option<seq<unit>> {
    match rest
    case None => None
    case Some(more) => Some(units + more)
  }

  function ToUnit(c: char): unit { c as int % 0x1_0000 }

  /** The units of the remaining text; `run` holds the partial unit inside a shifted run. */
  function DecodeFrom(text: string, run: Option<Pending>): Option<seq<unit>>
    requires run.Some? ==> Partial(run.value)
    decreases |text|
  {
    if text == "" then Some([])
    else if run.Some? then
      if text[0] == '-' then DecodeFrom(text[1..], None)
      else
        match Rank(text[0])
        case None => None
        case Some(rank) =>
          var (units, q) := TakeSymbol(run.value, rank);
          Prepend(units, DecodeFrom(text[1..], Some(q)))
    else if text[0] == '&' then
      if |text| == 1 then Some([0x26])
      else if text[1] == '-' then Prepend([0x26], DecodeFrom(text[2..], None))
      else DecodeFrom(text[1..], Some(Pending(0, 0)))
    else Prepend([ToUnit(text[0])], DecodeFrom(text[1..], None))
  }

  predicate DecoderAccumulates(bits: nat, v: nat, q: Pending) {
    q.count == bits && v < TWO_TO_32 && Partial(q) && v % Pow(2, bits) == q.value
  }

  lemma SymbolAbove(low: nat, rank: nat, k: nat)
    requires rank < 64 && k > 0
    ensures (low * 64 + rank) % (64 * k) == low % k * 64 + rank
  {
    assert low == low / k * k + low % k;
    assert low / k * (64 * k) == 64 * (low / k * k);
    assert low % k * 64 + rank < 64 * k;
    DivUnique(low * 64 + rank, 64 * k, low / k, low % k * 64 + rank);
  }

  /** Shifting a symbol in: again only bits above the pending ones are lost. */
  lemma SymbolWrap(v: nat, rank: nat, v': nat, bits: nat)
    requires v < TWO_TO_32 && rank < 64 && v' == v * 64 % TWO_TO_32 + rank
    requires bits % 2 == 0 && bits < 16
    ensures v' < TWO_TO_32
    ensures v' % (64 * Pow(2, bits)) == v % Pow(2, bits) * 64 + rank
  {
    var low := v % 67108864;
    DivUnique(v * 64, TWO_TO_32, v / 67108864, low * 64);
    Powers();
    hide Pow;
    SymbolAbove(low, rank, Pow(2, bits));
    assert low % Pow(2, bits) == v % Pow(2, bits) by {
      if bits == 0 {
        ModOfMod(v, 1, 67108864);
      } else if bits == 2 {
        ModOfMod(v, 4, 16777216);
      } else if bits == 4 {
        ModOfMod(v, 16, 4194304);
      } else if bits == 6 {
        ModOfMod(v, 64, 1048576);
      } else if bits == 8 {
        ModOfMod(v, 256, 262144);
      } else if bits == 10 {
        ModOfMod(v, 1024, 65536);
      } else if bits == 12 {
        ModOfMod(v, 4096, 16384);
      } else {
        ModOfMod(v, 16384, 4096);
      }
    }
  }

  lemma SymbolShiftedIn(bits: nat, v: nat, q: Pending, rank: nat)
    requires DecoderAccumulates(bits, v, q) && rank < 64
    ensures var v' := v * 64 % TWO_TO_32 + rank;
            var (units, q') := TakeSymbol(q, rank);
            && v' < TWO_TO_32
            && (bits + 6 >= 16 ==> units == [v' / Pow(2, bits + 6 - 16) % 0x1_0000] && DecoderAccumulates(bits + 6 - 16, v', q'))
            && (bits + 6 < 16 ==> units == [] && DecoderAccumulates(bits + 6, v', q'))
  {
    var v' := v * 64 % TWO_TO_32 + rank;
    SymbolWrap(v, rank, v', bits);
    Powers();
    hide Pow;
    assert bits == 0 || bits == 2 || bits == 4 || bits == 6 || bits == 8 || bits == 10 || bits == 12 || bits == 14;
    if bits < 10 {
      assert Pow(2, bits + 6) == 64 * Pow(2, bits);
    } else {
      assert Pow(2, bits - 10) * 65536 == 64 * Pow(2, bits);
      UnitAbove(v', Pow(2, bits - 10));
    }
  }

  /** The unit above `d` and the bits below it, read from the low part of the accumulator. */
  lemma UnitAbove(v: nat, d: nat)
    requires d > 0
    ensures v % (d * 65536) / d == v / d % 65536 && v % (d * 65536) % d == v % d
  {
    TopOfMod(v, d, 65536);
    ModOfMod(v, d, 65536);
  }

  /** Shifts one symbol into the accumulator and appends the unit it completes. */
  method PushSymbol(units: seq<unit>, bits: nat, v: nat, rank: nat, ghost q: Pending)
    returns (units': seq<unit>, bits': nat, v': nat)
    requires DecoderAccumulates(bits, v, q) && rank < 64
    ensures units' == units + TakeSymbol(q, rank).0
    ensures DecoderAccumulates(bits', v', TakeSymbol(q, rank).1)
  {
    SymbolShiftedIn(bits, v, q, rank);
    hide Pow, TakeSymbol, DecoderAccumulates;
    v' := v * 64 % TWO_TO_32 + rank;
    bits' := bits + 6;
    units' := units;
    if bits' >= 16 {
      units' := units + [v' / Pow(2, bits' - 16) % 0x1_0000];
      bits' := bits' - 16;
    } else {
      assert units == units + [];
    }
  }

  lemma PrependMore(units: seq<unit>, more: seq<unit>, rest: Option<seq<unit>>)
    ensures Prepend(units, Prepend(more, rest)) == Prepend(units + more, rest)
    ensures Prepend([], rest) == rest
  {
    if rest.Some? {
      Associates(units, more, rest.value);
      assert [] + rest.value == rest.value;
    }
  }

  method Decode(text: string) returns (decoded: Option<string>)
    ensures decoded == match DecodeFrom(text, None) case None => None case Some(units) => FromUtf16(units)
  {
    hide DecoderAccumulates, TakeSymbol, Prepend, Partial;
    var units: seq<unit> := [];
    var bits: nat, v: nat, shifted := 0, 0, false;
    var pos := 0;
    ghost var q := Pending(0, 0);
    assert text[0..] == text;
    PrependMore([], [], DecodeFrom(text, None));
    NothingPartial();
    while pos < |text|
      invariant pos <= |text|
      invariant DecoderAccumulates(bits, v, q) && Partial(q)
      invariant !shifted ==> bits == 0 && v == 0 && q == Pending(0, 0)
      invariant DecodeFrom(text, None) == Prepend(units, DecodeFrom(text[pos..], if shifted then Some(q) else None))
    {
      var ch := text[pos];
      assert text[pos..][1..] == text[pos + 1..];
      if shifted {
        if ch == '-' {
          shifted, bits, v, q := false, 0, 0, Pending(0, 0);
        } else if ch as int > 127 {
          NoUnits(units);
          return None;
        } else {
          var rank := Rank(ch);
          if rank.None? {
            NoUnits(units);
            return None;
          }
          PrependMore(units, TakeSymbol(q, rank.value).0, DecodeFrom(text[pos + 1..], Some(TakeSymbol(q, rank.value).1)));
          units, bits, v := PushSymbol(units, bits, v, rank.value, q);
          q := TakeSymbol(q, rank.value).1;
        }
        pos := pos + 1;
      } else if ch == '&' {
        pos := pos + 1;
        if pos < |text| {
          if text[pos] == '-' {
            assert text[pos - 1..][2..] == text[pos + 1..];
            PrependMore(units, [0x26], DecodeFrom(text[pos + 1..], None));
            units := units + [0x26];
            pos := pos + 1;
          } else {
            shifted := true;
          }
        } else {
          OneUnit(units, 0x26);
          units := units + [0x26];
        }
      } else {
        PrependMore(units, [ToUnit(ch)], DecodeFrom(text[pos + 1..], None));
        units := units + [ToUnit(ch)];
        pos := pos + 1;
      }
    }
    AllUnits(units);
    decoded := FromUtf16(units);
  }

  lemma NothingPartial()
    ensures Partial(Pending(0, 0)) && DecoderAccumulates(0, 0, Pending(0, 0))
  {}

  lemma NoUnits(units: seq<unit>)
    ensures Prepend(units, None) == None
  {}

  lemma AllUnits(units: seq<unit>)
    ensures Prepend(units, Some([])) == Some(units)
  {
    assert units + [] == units;
  }

  lemma OneUnit(units: seq<unit>, u: unit)
    ensures Prepend(units, Some([u])) == Prepend(units + [u], Some([]))
  {
    AllUnits(units + [u]);
  }

  // ----- Round trip ---------------------------------------------------------------------------

  /**
   The decoder inside a run that the encoder has carried up to the leftover bits `p`: it lags by at most
   one unit `last`, of which it holds all but those bits.
   */
  function Lag(p: Pending, last: unit): (r: (seq<unit>, Pending))
    requires Leftover(p)
    ensures Partial(r.1)
  {
    Powers();
    if p.count == 0 then ([], Pending(0, 0))
    else if p.count == 2 then ([last], Pending(14, last / 4))
    else ([last], Pending(12, last / 16))
  }

  predicate LeftoverOf(p: Pending, last: unit) {
    || (p.count == 0 && p.value == 0)
    || (p.count == 2 && p.value == last % 4)
    || (p.count == 4 && p.value == last % 16)
  }

  lemma DecodeSymbol(rank: nat, tail: string, q: Pending)
    requires rank < 64 && Partial(q)
    ensures var t := TakeSymbol(q, rank);
            DecodeFrom([Symbol(rank)] + tail, Some(q)) == Prepend(t.0, DecodeFrom(tail, Some(t.1)))
  {
    SymbolRank(rank);
    assert ([Symbol(rank)] + tail)[1..] == tail;
  }

  /** Three symbols in a row. */
  lemma DecodeSymbols(a: nat, b: nat, c: nat, tail: string, q: Pending)
    requires a < 64 && b < 64 && c < 64 && Partial(q)
    ensures var t := TakeSymbol(q, a);
            var t' := TakeSymbol(t.1, b);
            var t'' := TakeSymbol(t'.1, c);
            DecodeFrom([Symbol(a), Symbol(b), Symbol(c)] + tail, Some(q))
              == Prepend(t.0 + t'.0 + t''.0, DecodeFrom(tail, Some(t''.1)))
  {
    hide TakeSymbol;
    var t := TakeSymbol(q, a);
    var t' := TakeSymbol(t.1, b);
    var t'' := TakeSymbol(t'.1, c);
    assert [Symbol(a), Symbol(b), Symbol(c)] + tail == [Symbol(a)] + ([Symbol(b)] + ([Symbol(c)] + tail));
    DecodeSymbol(a, [Symbol(b)] + ([Symbol(c)] + tail), q);
    DecodeSymbol(b, [Symbol(c)] + tail, t.1);
    DecodeSymbol(c, tail, t'.1);
    PrependMore(t'.0, t''.0, DecodeFrom(tail, Some(t''.1)));
    PrependMore(t.0, t'.0 + t''.0, DecodeFrom(tail, Some(t''.1)));
    Associates(t.0, t'.0, t''.0);
  }

  /** The symbols of one more unit deliver the lagging unit, and the new one as far as it is complete. */
  lemma DecodeUnit(p: Pending, last: unit, u: unit, tail: string)
    requires Leftover(p) && LeftoverOf(p, last)
    ensures var p' := UnitLeftover(p, u);
            && LeftoverOf(p', u)
            && DecodeFrom(UnitSymbols(p, u) + tail, Some(Lag(p, last).1))
               == Prepend(Lag(p, last).0 + (if p'.count == 0 then [u] else []), DecodeFrom(tail, Some(Lag(p', u).1)))
  {
    hide TakeSymbol, DecodeFrom;
    PrependMore([], [], DecodeFrom(tail, Some(Lag(UnitLeftover(p, u), u).1)));
    if p.count == 0 {
      DecodeUnit0(u, tail);
    } else {
      var q := Lag(p, last).1;
      UnitDigits(u);
      if p.count == 2 {
        DecodeSymbols(last % 4 * 16 + u / 4096, u / 64 % 64, u % 64, tail, q);
        DecodeUnit2(last, u / 4096, u / 64 % 64, u % 64);
      } else {
        DecodeSymbols(last % 16 * 4 + u / 16384, u / 256 % 64, u / 4 % 64, tail, q);
        DecodeUnit4(last, u / 16384, u / 256 % 64, u / 4 % 64);
      }
    }
  }

  lemma DecodeUnit0(u: unit, tail: string)
    ensures Partial(Pending(0, 0)) && Partial(Pending(12, u / 16))
    ensures DecodeFrom(UnitSymbols(Pending(0, 0), u) + tail, Some(Pending(0, 0))) == DecodeFrom(tail, Some(Pending(12, u / 16)))
  {
    Powers();
    var a, b := u / 1024, u / 16 % 64;
    assert a * 64 + b == u / 16;
    assert TakeSymbol(Pending(0, 0), a) == ([], Pending(6, a)) && TakeSymbol(Pending(6, a), b) == ([], Pending(12, u / 16));
    hide TakeSymbol;
    DecodeSymbol(a, [Symbol(b)] + tail, Pending(0, 0));
    DecodeSymbol(b, tail, Pending(6, a));
    assert UnitSymbols(Pending(0, 0), u) + tail == [Symbol(a)] + ([Symbol(b)] + tail);
    PrependMore([], [], DecodeFrom([Symbol(b)] + tail, Some(Pending(6, a))));
    PrependMore([], [], DecodeFrom(tail, Some(Pending(12, u / 16))));
  }

  /** A symbol that completes no unit. */
  lemma TakeFew(count: nat, value: nat, rank: nat)
    requires count in {0, 2, 4, 6, 8} && value < Pow(2, count) && rank < 64
    ensures Partial(Pending(count, value)) && Partial(Pending(count + 6, value * 64 + rank))
    ensures TakeSymbol(Pending(count, value), rank) == ([], Pending(count + 6, value * 64 + rank))
  {
    Powers();
  }

  /** A symbol that completes the unit `w`. */
  lemma TakeWhole(count: nat, value: nat, rank: nat, d: nat, w: unit, rest: nat)
    requires count in {10, 12, 14} && value < Pow(2, count) && rank < 64 && d == Pow(2, count - 10)
    requires value * 64 + rank == w * d + rest && rest < d
    ensures Partial(Pending(count, value)) && Partial(Pending(count - 10, rest))
    ensures TakeSymbol(Pending(count, value), rank) == ([w], Pending(count - 10, rest))
  {
    hide Pow;
    DivUnique(value * 64 + rank, d, w, rest);
  }

  /** Splitting a unit into the digits its symbols carry. */
  lemma UnitDigits(u: unit)
    ensures u / 4096 * 64 + u / 64 % 64 == u / 64 && u / 64 * 64 + u % 64 == u
    ensures u / 16384 * 64 + u / 256 % 64 == u / 256 && u / 256 * 64 + u / 4 % 64 == u / 4
    ensures u / 4096 < 16 && u / 64 < 1024 && u / 16384 < 4 && u / 256 < 256
  {}

  /** The digits of a unit behind two, and behind four, pending bits. */
  lemma DecodeUnit2(last: unit, a: nat, b: nat, c: nat)
    requires a < 16 && b < 64 && c < 64
    ensures Partial(Pending(14, last / 4))
    ensures var t := TakeSymbol(Pending(14, last / 4), last % 4 * 16 + a);
            var t' := TakeSymbol(t.1, b);
            var t'' := TakeSymbol(t'.1, c);
            t.0 + t'.0 + t''.0 == [last] + [(a * 64 + b) * 64 + c] && t''.1 == Pending(0, 0)
  {
    hide TakeSymbol, Partial, Pow;
    Powers();
    assert last / 4 * 4 + last % 4 == last;
    TakeWhole(14, last / 4, last % 4 * 16 + a, 16, last, a);
    TakeFew(4, a, b);
    TakeWhole(10, a * 64 + b, c, 1, (a * 64 + b) * 64 + c, 0);
  }

  lemma DecodeUnit4(last: unit, a: nat, b: nat, c: nat)
    requires a < 4 && b < 64 && c < 64
    ensures Partial(Pending(12, last / 16))
    ensures var t := TakeSymbol(Pending(12, last / 16), last % 16 * 4 + a);
            var t' := TakeSymbol(t.1, b);
            var t'' := TakeSymbol(t'.1, c);
            t.0 + t'.0 + t''.0 == [last] + [] && t''.1 == Pending(14, (a * 64 + b) * 64 + c)
  {
    hide TakeSymbol, Partial, Pow;
    Powers();
    assert last / 16 * 16 + last % 16 == last;
    TakeWhole(12, last / 16, last % 16 * 4 + a, 4, last, a);
    TakeFew(2, a, b);
    TakeFew(8, a * 64 + b, c);
  }

  /** Closing a run delivers the lagging unit; the padding is dropped. */
  lemma DecodeUnshift(p: Pending, last: unit, tail: string)
    requires Leftover(p) && LeftoverOf(p, last)
    ensures DecodeFrom(Unshift(p) + tail, Some(Lag(p, last).1)) == Prepend(Lag(p, last).0, DecodeFrom(tail, None))
  {
    Powers();
    var q := Lag(p, last).1;
    assert ("-" + tail)[1..] == tail;
    if p.count == 0 {
      PrependMore([], [], DecodeFrom(tail, None));
    } else {
      var rank := if p.count == 2 then p.value * 16 else p.value * 4;
      assert Unshift(p) + tail == [Symbol(rank)] + ("-" + tail);
      DecodeSymbol(rank, "-" + tail, q);
      DivUnique(q.value * 64 + rank, if p.count == 2 then 16 else 4, last, 0);
    }
  }

  lemma RunEnds(run: Option<Pending>, last: unit)
    requires run.Some? ==> Leftover(run.value) && LeftoverOf(run.value, last)
    ensures DecodeFrom(EncodeFrom([], run), if run.Some? then Some(Lag(run.value, last).1) else None)
         == Some((if run.Some? then Lag(run.value, last).0 else []) + [])
  {
    hide UnitSymbols, UnitLeftover, Unshift, Lag;
    NothingEncoded(run);
    assert DecodeFrom("", None) == Some([]);
    if run.None? {
      var none: seq<unit> := [];
      assert none + none == none;
    } else {
      hide DecodeFrom, EncodeFrom;
      DecodeUnshift(run.value, last, "");
      assert EncodeFrom([], run) == Unshift(run.value) + "";
      AllUnits(Lag(run.value, last).0);
    }
  }

  lemma NothingEncoded(run: Option<Pending>)
    requires run.Some? ==> Leftover(run.value)
    ensures EncodeFrom([], run) == if run.Some? then Unshift(run.value) else ""
  {}

  /** Decoding what is encoded from here on returns the lagging unit and all the units to come. */
  lemma {:induction false} RunRoundTrip(units: seq<unit>, run: Option<Pending>, last: unit)
    requires run.Some? ==> Leftover(run.value) && LeftoverOf(run.value, last)
    ensures DecodeFrom(EncodeFrom(units, run), if run.Some? then Some(Lag(run.value, last).1) else None)
         == Some((if run.Some? then Lag(run.value, last).0 else []) + units)
    decreases |units|, 0
  {
    hide UnitSymbols, UnitLeftover, Unshift, Lag;
    if units == [] {
      RunEnds(run, last);
    } else {
      var u, rest := units[0], units[1..];
      assert units == [u] + rest;
      if IsDirect(u) {
        RunRoundTrip(rest, None, 0);
        assert [] + rest == rest;
        DirectDecodes(u, EncodeFrom(rest, None));
        var tail := DirectText(u) + EncodeFrom(rest, None);
        assert DecodeFrom(tail, None) == Some(units);
        if run.Some? {
          DecodeUnshift(run.value, last, tail);
        } else {
          assert "" + tail == tail && [] + units == units;
        }
      } else {
        var p := if run.Some? then run.value else Pending(0, 0);
        RunUnit(p, if run.Some? then last else 0, u, rest);
        var tail := UnitSymbols(p, u) + EncodeFrom(rest, Some(UnitLeftover(p, u)));
        if run.Some? {
          assert "" + tail == tail;
        } else {
          FirstSymbol(u, EncodeFrom(rest, Some(UnitLeftover(p, u))));
          assert EncodeFrom(units, run) == "&" + tail;
          NoLag();
        }
      }
    }
  }

  lemma NoLag()
    ensures Lag(Pending(0, 0), 0) == ([], Pending(0, 0))
  {}

  lemma {:induction false} RunUnit(p: Pending, last: unit, u: unit, rest: seq<unit>)
    requires Leftover(p) && LeftoverOf(p, last)
    ensures DecodeFrom(UnitSymbols(p, u) + EncodeFrom(rest, Some(UnitLeftover(p, u))), Some(Lag(p, last).1))
         == Some(Lag(p, last).0 + ([u] + rest))
    decreases |rest|, 1
  {
    var p' := UnitLeftover(p, u);
    DecodeUnit(p, last, u, EncodeFrom(rest, Some(p')));
    RunRoundTrip(rest, Some(p'), u);
    var done := if p'.count == 0 then [u] else [];
    assert done + Lag(p', u).0 == [u];
    Associates(Lag(p, last).0, done, Lag(p', u).0 + rest);
    Associates(done, Lag(p', u).0, rest);
  }

  lemma DirectDecodes(u: unit, tail: string)
    requires IsDirect(u)
    ensures DecodeFrom(DirectText(u) + tail, None) == Prepend([u], DecodeFrom(tail, None))
  {
    assert (DirectText(u) + tail)[|DirectText(u)|..] == tail;
  }

  /** A run never starts with a dash, which would turn its `&` into a literal one. */
  lemma FirstSymbol(u: unit, tail: string)
    ensures var text := UnitSymbols(Pending(0, 0), u) + tail;
            text[0] != '-' && DecodeFrom("&" + text, None) == DecodeFrom(text, Some(Pending(0, 0)))
  {
    var text := UnitSymbols(Pending(0, 0), u) + tail;
    assert ("&" + text)[1..] == text && ("&" + text)[1] == text[0] && ("&" + text)[0] == '&';
  }

  /** Decoding an encoded mailbox name returns the name. */
  lemma {:induction false} NameRoundTrip(text: string)
    ensures DecodeFrom(EncodeFrom(EncodeUtf16(text), None), None) == Some(EncodeUtf16(text))
    ensures FromUtf16(EncodeUtf16(text)) == Some(text)
  {
    RunRoundTrip(EncodeUtf16(text), None, 0);
    assert [] + EncodeUtf16(text) == EncodeUtf16(text);
    Utf16RoundTrip(text);
  }

  /** An encoded name is printable ASCII. */
  lemma {:induction false} EncodedIsPrintable(units: seq<unit>, run: Option<Pending>)
    requires run.Some? ==> Leftover(run.value)
    ensures forall c :: c in EncodeFrom(units, run) ==> 0x20 <= c as int < 0x7F
    decreases |units|
  {
    if units == [] {
    } else {
      var p := if run.Some? then run.value else Pending(0, 0);
      EncodedIsPrintable(units[1..], None);
      EncodedIsPrintable(units[1..], Some(UnitLeftover(p, units[0])));
    }
  }
}
