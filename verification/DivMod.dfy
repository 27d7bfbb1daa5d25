/** Powers of two and the division facts the codecs need. */
module DivMod {

  /** The size of a machine word of 64 bits. */
  const TWO_TO_64: nat := 0x1_0000_0000_0000_0000

  function Pow(base: nat, e: nat): (p: nat)
    ensures base > 0 ==> p > 0
  {
    if e == 0 then 1 else base * Pow(base, e - 1)
  }

  lemma AtLeastOnce(k: int, d: int)
    requires k >= 1 && d >= 0
    ensures k * d >= d
  {
    assert k * d == (k - 1) * d + d;
  }

  lemma Distributes(a: int, b: int, d: int)
    ensures (a - b) * d == a * d - b * d
  {}

  lemma MulAssociates(a: int, b: int, c: int)
    ensures a * b * c == a * (b * c)
  {}

  lemma MulMonotone(a: int, b: int, d: int)
    requires d >= 0
    ensures a >= b ==> a * d >= b * d
  {
    Distributes(a, b, d);
    if a > b {
      AtLeastOnce(a - b, d);
    }
  }

  lemma DivUnique(x: int, d: int, q: int, r: int)
    requires 0 <= r < d && x == q * d + r
    ensures x / d == q && x % d == r
  {
    var q' := x / d;
    var r' := x - q' * d;
    assert 0 <= r' < d by {
      assert r' == x % d;
    }
    Distributes(q, q', d);
    Distributes(q', q, d);
    if q > q' {
      AtLeastOnce(q - q', d);
    } else if q < q' {
      AtLeastOnce(q' - q, d);
    }
  }

  lemma Quotient(p: nat, d: nat)
    requires d > 0
    ensures p == p / d * d + p % d && p / d >= 0 && 0 <= p % d < d
  {
    MulMonotone(-1, p / d, d);
  }

  /** Reducing modulo a multiple first changes nothing. */
  lemma ModOfMod(x: int, d: int, k: int)
    requires d > 0 && k > 0 && d * k > 0
    ensures x % (d * k) % d == x % d
  {
    var t, rest := x / (d * k), x % (d * k);
    assert x == t * (d * k) + rest;
    assert t * (d * k) == t * k * d;
    DivUnique(x, d, t * k + rest / d, rest % d) by {
      assert (t * k + rest / d) * d == t * k * d + rest / d * d;
    }
  }

  /** The digit of base `m` above a factor `d`, read after reducing modulo a multiple of both. */
  lemma DigitOfMod(x: int, d: int, m: int, k: int)
    requires d > 0 && m > 0 && k > 0 && m * k > 0 && d * (m * k) > 0
    ensures x % (d * (m * k)) / d % m == x / d % m
  {
    var all := d * (m * k);
    var t, rest := x / all, x % all;
    var y := rest / d;
    assert x == t * all + rest;
    assert t * all == t * (m * k) * d;
    assert (t * (m * k) + y) * d == t * (m * k) * d + y * d;
    DivUnique(x, d, t * (m * k) + y, rest % d);
    assert t * (m * k) == t * k * m;
    assert (t * k + y / m) * m == t * k * m + y / m * m;
    DivUnique(t * (m * k) + y, m, t * k + y / m, y % m);
  }

  /** The same without an upper digit: the quotient of the remainder. */
  lemma TopOfMod(x: int, d: int, m: int)
    requires d > 0 && m > 0 && d * m > 0
    ensures x % (d * m) / d == x / d % m
  {
    var t, rest := x / (d * m), x % (d * m);
    var y := rest / d;
    assert x == t * (d * m) + rest;
    assert t * (d * m) == t * m * d;
    assert (t * m + y) * d == t * m * d + y * d;
    DivUnique(x, d, t * m + y, rest % d);
    Distributes(y, m, d);
    if y > m {
      AtLeastOnce(y - m, d);
    }
    DivUnique(t * m + y, m, t, y);
  }

  lemma QuotientBelow(x: int, d: int, m: int)
    requires d > 0 && 0 <= x < m * d
    ensures 0 <= x / d < m
  {
    MulMonotone(x / d, m, d);
    MulMonotone(-1, x / d, d);
  }

  lemma MulInjective(a: int, b: int, d: int)
    requires d > 0
    ensures a * d == b * d ==> a == b
  {
    Distributes(a, b, d);
    Distributes(b, a, d);
    if a > b {
      AtLeastOnce(a - b, d);
    } else if a < b {
      AtLeastOnce(b - a, d);
    }
  }
}
