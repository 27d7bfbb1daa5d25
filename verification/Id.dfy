/**
 Base-32 object ids (crates/types/src/id.rs, alphabet of crates/utils/src/codec/base32_custom.rs).

 The printer shifts a 64-bit word out to the left behind a stop bit.  It is proved to print the unique
 base-32 numeral of the id, and the parser to read every numeral modulo 2^64.
 */
module Id {
  import opened Common
  import opened DivMod

  const TWO_TO_59: nat := 0x800_0000_0000_0000
  const TWO_TO_60: nat := 0x1000_0000_0000_0000

  /** The word the printer stops at: only the stop bit is left. */
  const STOP_BIT: nat := TWO_TO_60

  type digit = d: int | 0 <= d < 32

  // ----- Alphabet -----------------------------------------------------------------------------

  function Alphabet(d: digit): byte {
    if d < 26 then 0x61 + d
    else [0x37, 0x39, 0x32, 0x30, 0x31, 0x33][d - 26]
  }

  /** The inverse table; besides the alphabet it accepts the upper-case letters K to Z. */
  function Inverse(ch: byte): Option<digit> {
    if 0x61 <= ch <= 0x7A then Some(ch - 0x61)
    else if 0x4B <= ch <= 0x5A then Some(ch - 0x41)
    else if ch == 0x37 then Some(26)
    else if ch == 0x39 then Some(27)
    else if ch == 0x32 then Some(28)
    else if ch == 0x30 then Some(29)
    else if ch == 0x31 then Some(30)
    else if ch == 0x33 then Some(31)
    else None
  }

  const ALPHABET := "abcdefghijklmnopqrstuvwxyz792013"

  /** Digit `d` is written as character `d` of the alphabet. */
  lemma AlphabetAt(d: digit)
    ensures |ALPHABET| == 32 && Alphabet(d) as char == ALPHABET[d]
  {
    assert ALPHABET == "abcdefghijklmnopqrstuvwxyz" + "792013";
    if d < 26 {
      assert "abcdefghijklmnopqrstuvwxyz"[d] == (d + 'a' as int) as char;
    }
  }

  /** The octets that are read: the alphabet, and the letters K to Z in upper case. */
  predicate Readable(ch: byte) {
    'a' <= ch as char <= 'z' || 'K' <= ch as char <= 'Z' || ch as char in {'7', '9', '2', '0', '1', '3'}
  }

  lemma ReadExactly(ch: byte)
    ensures Inverse(ch).Some? <==> Readable(ch)
    ensures Inverse(ch).Some? && !('K' <= ch as char <= 'Z') ==> ALPHABET[Inverse(ch).value] == ch as char
    ensures 'K' <= ch as char <= 'Z' ==> Inverse(ch) == Inverse(ch + 'a' as int - 'A' as int)
  {
    if Inverse(ch).Some? {
      AlphabetAt(Inverse(ch).value);
    }
    AlphabetAt(0);
  }

  function Printed(digits: seq<digit>): seq<byte> {
    if digits == [] then [] else Printed(digits[..|digits| - 1]) + [Alphabet(digits[|digits| - 1])]
  }

  // ----- Numerals -----------------------------------------------------------------------------

  /** The number a digit sequence denotes, most significant digit first. */
  function Value(digits: seq<digit>): nat {
    if digits == [] then 0 else Value(digits[..|digits| - 1]) * 32 + digits[|digits| - 1]
  }

  /** No leading zero, except for the numeral of zero itself. */
  predicate Canonical(digits: seq<digit>) {
    digits != [] && (digits[0] == 0 ==> |digits| == 1)
  }

  lemma {:induction false} ValueBounds(digits: seq<digit>)
    ensures Value(digits) < Pow(32, |digits|)
    ensures Canonical(digits) && digits[0] != 0 ==> Value(digits) >= Pow(32, |digits| - 1)
  {
    if digits == [] {
    } else {
      ValueBounds(digits[..|digits| - 1]);
    }
  }

  lemma {:induction false} Pow32Grows(a: nat, b: nat)
    ensures a <= b ==> Pow(32, a) <= Pow(32, b)
    decreases b
  {
    if b <= a {
    } else {
      Pow32Grows(a, b - 1);
    }
  }

  /** The canonical base-32 numeral of a number. */
  function Numeral(n: nat): (digits: seq<digit>)
    ensures Canonical(digits) && Value(digits) == n
  {
    if n < 32 then
      assert [n][..0] == [];
      [n]
    else
      var front := Numeral(n / 32);
      assert (front + [n % 32])[..|front|] == front;
      assert front == [0] ==> Value(front) == 0 by {
        assert front[..0] == [];
      }
      front + [n % 32]
  }

  /** A number has one canonical numeral. */
  lemma {:induction false} CanonicalIsUnique(a: seq<digit>, b: seq<digit>)
    requires Canonical(a) && Canonical(b) && Value(a) == Value(b)
    ensures a == b
    decreases |a|
  {
    SameLength(a, b);
    var a', b' := a[..|a| - 1], b[..|b| - 1];
    assert a == a' + [a[|a| - 1]] && b == b' + [b[|b| - 1]];
    if |a| <= 1 {
    } else {
      CanonicalIsUnique(a', b');
    }
  }

  lemma SameLength(a: seq<digit>, b: seq<digit>)
    requires Canonical(a) && Canonical(b) && Value(a) == Value(b)
    ensures |a| == |b|
  {
    ValueBounds(a);
    ValueBounds(b);
    Pow32Grows(|a|, |b| - 1);
    Pow32Grows(|b|, |a| - 1);
  }

  // ----- Parsing ------------------------------------------------------------------------------

  /** The digits of a text, if every byte has one. */
  function TextDigits(s: seq<byte>): Option<seq<digit>> {
    if s == [] then Some([])
    else
      match TextDigits(s[..|s| - 1])
      case None => None
      case Some(digits) =>
        match Inverse(s[|s| - 1])
        case None => None
        case Some(d) => Some(digits + [d])
  }

  /** A text is read exactly if each of its octets is. */
  lemma {:induction false} TextReadExactly(s: seq<byte>)
    ensures TextDigits(s).Some? <==> forall ch :: ch in s ==> Readable(ch)
    ensures TextDigits(s).Some? ==> |TextDigits(s).value| == |s|
  {
    if s != [] {
      var init, last := s[..|s| - 1], s[|s| - 1];
      assert forall ch :: ch in s <==> ch in init || ch == last by { assert s == init + [last]; }
      TextReadExactly(init);
      ReadExactly(last);
    }
  }

  /** Reads a text of any length; what does not fit 64 bits is shifted out. */
  method FromStr(s: seq<byte>) returns (id: Option<nat>)
    ensures id == match TextDigits(s) case None => None case Some(digits) => Some(Value(digits) % TWO_TO_64)
  {
    var n: nat := 0;
    ghost var digits: seq<digit> := [];
    for i := 0 to |s|
      invariant TextDigits(s[..i]) == Some(digits) && n == Value(digits) % TWO_TO_64
    {
      assert s[..i + 1][..i] == s[..i];
      var d := Inverse(s[i]);
      if d.None? {
        UnreadableStays(s, i + 1);
        return None;
      }
      ShiftWraps(Value(digits), d.value);
      assert (digits + [d.value])[..|digits|] == digits;
      n := n * 32 % TWO_TO_64 + d.value;
      digits := digits + [d.value];
    }
    assert s[..|s|] == s;
    id := Some(n);
  }

  lemma {:induction false} UnreadableStays(s: seq<byte>, i: nat)
    requires i <= |s| && TextDigits(s[..i]) == None
    ensures TextDigits(s) == None
    decreases |s|
  {
    if i == |s| {
      assert s[..i] == s;
    } else {
      assert s[..|s| - 1][..i] == s[..i];
      UnreadableStays(s[..|s| - 1], i);
    }
  }

  lemma ShiftWraps(value: nat, d: digit)
    ensures value % TWO_TO_64 * 32 % TWO_TO_64 + d == (value * 32 + d) % TWO_TO_64
  {
    var power: nat := 0x800_0000_0000_0000;
    var low := value % power;
    assert value == value / power * power + low;
    DivUnique(value * 32 + d, TWO_TO_64, value / power, low * 32 + d);
    ModOfMod(value, power, 32);
    var word := value % TWO_TO_64;
    DivUnique(word * 32, TWO_TO_64, word / power, low * 32);
  }

  lemma AlphabetReads(d: digit)
    ensures Inverse(Alphabet(d)) == Some(d)
  {
    var tail := [0x37, 0x39, 0x32, 0x30, 0x31, 0x33];
    assert tail[0] == 0x37 && tail[1] == 0x39 && tail[2] == 0x32 && tail[3] == 0x30 && tail[4] == 0x31 && tail[5] == 0x33;
  }

  lemma MoreText(s: seq<byte>, ch: byte)
    requires TextDigits(s).Some? && Inverse(ch).Some?
    ensures TextDigits(s + [ch]) == Some(TextDigits(s).value + [Inverse(ch).value])
  {
    hide Inverse;
    assert (s + [ch])[..|s|] == s;
  }

  lemma PrintedMore(digits: seq<digit>, d: digit)
    ensures Printed(digits + [d]) == Printed(digits) + [Alphabet(d)]
  {
    hide Alphabet;
    assert (digits + [d])[..|digits|] == digits;
  }

  lemma {:induction false} PrintedReads(digits: seq<digit>)
    ensures TextDigits(Printed(digits)) == Some(digits)
  {
    if digits == [] {
    } else {
      hide Inverse, Alphabet, Printed, TextDigits;
      var init, last := digits[..|digits| - 1], digits[|digits| - 1];
      PrintedReads(init);
      AlphabetReads(last);
      MoreText(Printed(init), Alphabet(last));
      PrintedMore(init, last);
      assert digits == init + [last];
    }
  }

  // ----- Printing -----------------------------------------------------------------------------

  function BitLength(m: nat): nat { if m == 0 then 0 else 1 + BitLength(m / 2) }

  lemma {:induction false} BitLengthBounds(m: nat)
    requires m > 0
    ensures BitLength(m) > 0 && Pow(2, BitLength(m) - 1) <= m < Pow(2, BitLength(m))
  {
    if m == 1 {
    } else {
      BitLengthBounds(m / 2);
    }
  }

  lemma {:induction false} Pow2Grows(a: nat, b: nat)
    ensures a <= b ==> Pow(2, a) <= Pow(2, b)
    decreases b
  {
    if b <= a {
    } else {
      Pow2Grows(a, b - 1);
    }
  }

  lemma {:induction false} Pow2OfFives(r: nat)
    ensures Pow(2, 5 * r + 4) == 16 * Pow(32, r)
  {
    if r == 0 {
      assert Pow(2, 2) == 4;
    } else {
      Pow2OfFives(r - 1);
      var k := 5 * (r - 1) + 4;
      assert Pow(2, k + 2) == 4 * Pow(2, k);
      assert Pow(2, k + 4) == 16 * Pow(2, k);
    }
  }

  /** `u64::leading_zeros`. */
  function LeadingZeros(m: nat): int { 64 - BitLength(m) }

  lemma TaggedLength(p: nat)
    requires 0 < p < TWO_TO_60
    ensures 5 <= BitLength(p * 16 + 1) <= 64
  {
    var length := BitLength(p * 16 + 1);
    BitLengthBounds(p * 16 + 1);
    Pow32s();
    Pow2OfFives(12);
    Pow2OfFives(0);
    NothingLeft(0);
    hide Pow, BitLength;
    Pow2Grows(64, length - 1);
    Pow2Grows(length, 4);
  }

  /** Skipping leading zeros by whole digits leaves a number whose top digit is not zero. */
  lemma WholeDigitsSkipped(p: nat)
    requires 0 < p < TWO_TO_60
    ensures var j := LeadingZeros(p * 16 + 1) / 5;
            0 <= j <= 11 && Pow(32, 11 - j) <= p < Pow(32, 12 - j)
  {
    hide Pow, BitLength;
    var length := BitLength(p * 16 + 1);
    TaggedLength(p);
    BitLengthBounds(p * 16 + 1);
    var j := (64 - length) / 5;
    Pow2Grows(length, 5 * (12 - j) + 4);
    Pow2OfFives(12 - j);
    Pow2Grows(5 * (11 - j) + 4, length - 1);
    Pow2OfFives(11 - j);
  }

  lemma NothingLeft(p: nat)
    ensures Pow(32, 0) == 1 && (p < Pow(32, 0) ==> p == 0)
  {}

  lemma Pow32s()
    ensures Pow(32, 12) == TWO_TO_60 && 16 * Pow(32, 11) == TWO_TO_59 && Pow(32, 13) * 16 == 32 * TWO_TO_64
  {
    assert Pow(32, 3) == 32768 && Pow(32, 5) == 33554432 && Pow(32, 7) == 34359738368;
    assert Pow(32, 9) == 35184372088832 && Pow(32, 11) == 36028797018963968;
  }

  lemma {:induction false} Pow32Adds(a: nat, b: nat)
    ensures Pow(32, a) * Pow(32, b) == Pow(32, a + b)
  {
    if a == 0 {
    } else {
      Pow32Adds(a - 1, b);
      MulAssociates(32, Pow(32, a - 1), Pow(32, b));
    }
  }

  /**
   The word with `r` digits still to print: the digits of `p`, the stop bit, and zeros.
   */
  function Word(p: nat, r: nat): nat
    requires r <= 12
  {
    (p * 16 + 1) * Pow(32, 12 - r)
  }

  lemma Pow32IsEven(r: nat)
    ensures r > 0 ==> Pow(32, r) % 2 == 0
  {
    if r > 0 {
      var half := 16 * Pow(32, r - 1);
      assert Pow(32, r) == 2 * half;
    }
  }

  /** Only without digits left does the word equal the stop bit. */
  lemma StopsAtTheEnd(p: nat, r: nat)
    requires r <= 12 && p < Pow(32, r)
    ensures Word(p, r) == STOP_BIT <==> r == 0
  {
    Pow32s();
    Pow32Adds(r, 12 - r);
    Pow32IsEven(r);
    MulInjective(p * 16 + 1, Pow(32, r), Pow(32, 12 - r));
  }

  lemma WordSplits(d: nat, top: nat, q: nat, k: nat)
    ensures ((d * top + q) * 16 + 1) * k == d * (16 * (top * k)) + (q * 16 + 1) * k
  {
    var a, b := d * top * 16, q * 16 + 1;
    assert (d * top + q) * 16 + 1 == a + b;
    assert (a + b) * k == a * k + b * k;
    assert d * top * 16 * k == d * 16 * top * k;
    assert d * 16 * top * k == d * 16 * (top * k);
    assert d * 16 * (top * k) == d * (16 * (top * k));
  }

  lemma LowFits(q: nat, top: nat, k: nat)
    requires q < top && k > 0
    ensures (q * 16 + 1) * k < 16 * (top * k)
  {
    MulMonotone(top * 16, q * 16 + 2, k);
    Distributes(q * 16 + 2, q * 16 + 1, k);
    assert top * 16 * k == 16 * (top * k);
  }

  /** One round of the loop: the top five bits are the top digit, and the rest is the word of the rest. */
  lemma WordStep(p: nat, r: nat)
    requires 0 < r <= 12 && p < Pow(32, r)
    ensures var top := Pow(32, r - 1);
            && Word(p, r) / TWO_TO_59 == p / top
            && Word(p, r) * 32 % TWO_TO_64 == Word(p % top, r - 1)
  {
    var top, k := Pow(32, r - 1), Pow(32, 12 - r);
    Pow32s();
    Pow32Adds(r - 1, 12 - r);
    assert Pow(32, 12 - (r - 1)) == 32 * k;
    hide Pow;
    Quotient(p, top);
    ShiftOut(p, p / top, top, p % top, k);
  }

  lemma ShiftOut(p: nat, d: nat, top: nat, q: nat, k: nat)
    requires q < top && k > 0 && 16 * (top * k) == TWO_TO_59 && p == d * top + q
    ensures (p * 16 + 1) * k / TWO_TO_59 == d
    ensures (p * 16 + 1) * k * 32 % TWO_TO_64 == (q * 16 + 1) * (32 * k)
  {
    WordSplits(d, top, q, k);
    LowFits(q, top, k);
    var low := (q * 16 + 1) * k;
    assert (q * 16 + 1) * (32 * k) == low * 32;
    var word := (p * 16 + 1) * k;
    DivUnique(word, TWO_TO_59, d, low);
    DivUnique(word * 32, TWO_TO_64, d, low * 32);
  }

  /** Prints the canonical numeral of the id. */
  method AsString(id: nat) returns (text: seq<byte>)
    requires id < TWO_TO_64
    ensures text == Printed(Numeral(id))
  {
    if id == 0 {
      assert [0][..0] == [];
      assert Printed([0]) == [0x61];
      return [0x61];
    }
    var n: nat;
    ghost var digits: seq<digit>, p: nat, r: nat;
    text, n, digits, p, r := FirstWord(id);
    hide Pow, Alphabet, Printed, Value, Numeral;
    while n != STOP_BIT
      invariant r <= 12 && p < Pow(32, r) && n == Word(p, r)
      invariant text == Printed(digits)
      invariant Value(digits) * Pow(32, r) + p == id
      invariant if digits == [] then r > 0 && p >= Pow(32, r - 1) else digits[0] != 0
      decreases r
    {
      StopsAtTheEnd(p, r);
      WordStep(p, r);
      NextDigit(digits, p, r);
      var d := n / TWO_TO_59;
      text := text + [Alphabet(d)];
      n := n * 32 % TWO_TO_64;
      digits := digits + [d];
      p, r := p % Pow(32, r - 1), r - 1;
    }
    StopsAtTheEnd(p, r);
    NothingLeft(p);
    CanonicalIsUnique(digits, Numeral(id));
  }

  lemma SkippedWord(p: nat)
    requires 0 < p < TWO_TO_60
    ensures var j := LeadingZeros(p * 16 + 1) / 5;
            && 0 <= j <= 11 && Pow(32, 11 - j) <= p < Pow(32, 12 - j)
            && (p * 16 + 1) * Pow(32, j) % TWO_TO_64 == Word(p, 12 - j)
  {
    hide Pow, LeadingZeros;
    WholeDigitsSkipped(p);
    FitsWord(p, 12 - LeadingZeros(p * 16 + 1) / 5);
  }

  /** The initial shift: leading zeros are skipped by whole digits, or the top four bits are printed. */
  method FirstWord(id: nat) returns (text: seq<byte>, n: nat, ghost digits: seq<digit>, ghost p: nat, ghost r: nat)
    requires 0 < id < TWO_TO_64
    ensures r <= 12 && p < Pow(32, r) && n == Word(p, r)
    ensures text == Printed(digits)
    ensures Value(digits) * Pow(32, r) + p == id
    ensures if digits == [] then r > 0 && p >= Pow(32, r - 1) else digits[0] != 0
  {
    var top := id / TWO_TO_60;
    p := id % TWO_TO_60;
    TaggedWord(id);
    n := id * 16 % TWO_TO_64 + 1;
    Pow32s();
    if top == 0 {
      hide Pow, Word, LeadingZeros;
      text, digits := [], [];
      SkippedWord(p);
      var skipped := LeadingZeros(n) / 5;
      r := 12 - skipped;
      n := n * Pow(32, skipped) % TWO_TO_64;
    } else {
      hide Pow, Alphabet;
      text, digits, r := [Alphabet(top)], [top], 12;
      assert digits[..0] == [];
      NothingLeft(0);
    }
  }

  /** Shifting out the top four bits and setting the stop bit. */
  lemma TaggedWord(id: nat)
    requires id < TWO_TO_64
    ensures id * 16 % TWO_TO_64 + 1 == id % TWO_TO_60 * 16 + 1
    ensures id / TWO_TO_60 < 16 && id == id / TWO_TO_60 * TWO_TO_60 + id % TWO_TO_60
  {
    DivUnique(id * 16, TWO_TO_64, id / TWO_TO_60, id % TWO_TO_60 * 16);
  }

  /** Moving the top digit of the rest behind the digits already read keeps the number. */
  lemma NextDigit(digits: seq<digit>, p: nat, r: nat)
    requires r > 0 && p < Pow(32, r)
    ensures var d, rest := p / Pow(32, r - 1), p % Pow(32, r - 1);
            && d < 32 && rest < Pow(32, r - 1)
            && (p >= Pow(32, r - 1) ==> d > 0)
            && Value(digits + [d]) * Pow(32, r - 1) + rest == Value(digits) * Pow(32, r) + p
            && Printed(digits + [d]) == Printed(digits) + [Alphabet(d)]
  {
    var power := Pow(32, r - 1);
    assert Pow(32, r) == 32 * power;
    hide Pow;
    QuotientBelow(p, power, 32);
    Quotient(p, power);
    var d, rest := p / power, p % power;
    assert (digits + [d])[..|digits|] == digits;
    ShiftsDigit(Value(digits), d, power);
    if d == 0 {
      assert p == rest;
    }
  }

  lemma ShiftsDigit(value: nat, d: nat, power: nat)
    ensures (value * 32 + d) * power == value * (32 * power) + d * power
  {
    MulAssociates(value, 32, power);
  }

  lemma FitsWord(p: nat, r: nat)
    requires r <= 12 && p < Pow(32, r)
    ensures Word(p, r) < TWO_TO_64
  {
    Pow32s();
    Pow32Adds(r, 12 - r);
    LowFits(p, Pow(32, r), Pow(32, 12 - r));
  }

  /**
   Printing and parsing are inverse: the printed numeral parses to its id, and a canonical numeral that parses to
   the id without shifting digits out is the one printed.
   */
  lemma PrintParseInverse(id: nat, other: seq<digit>)
    requires id < TWO_TO_64 && Canonical(other) && Value(other) < TWO_TO_64
    ensures TextDigits(Printed(Numeral(id))) == Some(Numeral(id)) && Value(Numeral(id)) % TWO_TO_64 == id
    ensures Value(other) % TWO_TO_64 == id <==> Printed(other) == Printed(Numeral(id))
  {
    hide Value, Printed, TextDigits, Alphabet, Canonical, Numeral;
    PrintedReads(Numeral(id));
    PrintedReads(other);
    if Value(other) == id {
      CanonicalIsUnique(Numeral(id), other);
    }
  }

  /** Different ids are printed differently. */
  lemma PrintingIsInjective(id: nat, other: nat)
    requires Printed(Numeral(id)) == Printed(Numeral(other))
    ensures id == other
  {
    hide Value, Printed, TextDigits, Alphabet, Canonical, Numeral;
    PrintedReads(Numeral(id));
    PrintedReads(Numeral(other));
  }
}
