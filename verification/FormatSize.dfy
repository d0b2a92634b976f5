/**
 The choice of a binary unit for a size in bytes. The source divides 64-bit integers; the
 model is on unbounded ones and proves that no value leaves 64 bits.
 */
module FormatSize {

  const UNIT := 1024
  const MAX_INT64 := 0x7FFF_FFFF_FFFF_FFFF
  const PREFIXES := "KMGTPE"

  /** The binary units, from the kibibyte to the exbibyte. */
  const UNITS: set<(int, char)> := {
    (0x400, 'K'), (0x10_0000, 'M'), (0x4000_0000, 'G'), (0x100_0000_0000, 'T'), (0x4_0000_0000_0000, 'P'),
    (0x1000_0000_0000_0000, 'E')}

  /** The three forms of a size: a dash, whole bytes, and a quotient with a unit prefix. */
  datatype Size = Dash | Bytes(n: int) | Scaled(size: int, divisor: int, prefix: char)

  function Pow(n: nat): nat {
    if n == 0 then 1 else UNIT * Pow(n - 1)
  }

  lemma {:induction false} PowGrows(m: nat, n: nat)
    requires m <= n
    ensures 1 <= Pow(m) <= Pow(n)
  {
    if m < n { PowGrows(m, n - 1); } else if m > 0 { PowGrows(m - 1, n - 1); }
  }

  /** Dividing once more is dividing by the product. */
  lemma DivideAgain(b: nat, d: nat)
    requires d > 0
    ensures b / d / UNIT == b / (d * UNIT)
  {
    var q, r := b / d, b % d;
    var s, u := q / UNIT, q % UNIT;
    assert b == d * (s * UNIT + u) + r;
    assert d * (s * UNIT + u) == d * UNIT * s + d * u by { Distribute(d, s, u); }
    assert d * u <= d * (UNIT - 1) by { Monotone(d, u, UNIT - 1); }
    QuotientIs(b, d * UNIT, s, d * u + r);
  }

  lemma Distribute(d: nat, s: nat, u: nat)
    ensures d * (s * UNIT + u) == d * UNIT * s + d * u
  {
  }

  lemma Monotone(d: nat, a: nat, b: nat)
    requires a <= b
    ensures d * a <= d * b
  {
  }

  lemma QuotientIs(b: nat, d: nat, q: nat, r: nat)
    requires b == d * q + r && r < d
    ensures b / d == q
  {
    var k := b / d;
    assert b == d * k + b % d;
    if k < q { Monotone(d, k + 1, q); } else if k > q { Monotone(d, q + 1, k); }
  }

  /** The powers that the divisor can be stay below the largest 64-bit integer. */
  lemma PowersFit()
    ensures Pow(6) == 0x1000_0000_0000_0000 && Pow(6) <= MAX_INT64 < Pow(6) * 8
  {
    assert Pow(1) == 1024 && Pow(2) == 1024 * Pow(1) && Pow(3) == 1024 * Pow(2);
    assert Pow(4) == 1024 * Pow(3) && Pow(5) == 1024 * Pow(4) && Pow(6) == 1024 * Pow(5);
  }

  lemma UnitOf(exp: nat)
    requires exp < 6
    ensures (Pow(exp + 1), PREFIXES[exp]) in UNITS
  {
    assert Pow(1) == 1024 && Pow(2) == 1024 * Pow(1) && Pow(3) == 1024 * Pow(2);
    assert Pow(4) == 1024 * Pow(3) && Pow(5) == 1024 * Pow(4) && Pow(6) == 1024 * Pow(5);
  }

  /**
   A size of at least one unit is scaled by the largest power of the unit that fits into it,
   whose prefix is in the table and which fits into 64 bits.
   */
  method FormatSize(b: int) returns (r: Size)
    requires -MAX_INT64 - 1 <= b <= MAX_INT64
    ensures r.Dash? <==> b == 0
    ensures r.Bytes? <==> b != 0 && b < UNIT
    ensures r.Bytes? ==> r.n == b
    ensures r.Scaled? ==> r.size == b && exists exp: nat ::
              exp < |PREFIXES| && r.prefix == PREFIXES[exp] && r.divisor == Pow(exp + 1)
    ensures r.Scaled? ==> (r.divisor, r.prefix) in UNITS
    ensures r.Scaled? ==> r.divisor <= b < UNIT * r.divisor && r.divisor <= 0x1000_0000_0000_0000
  {
    if b == 0 {
      return Dash;
    }
    if b < UNIT {
      return Bytes(b);
    }
    var div, exp: nat := UNIT, 0;
    var n := b / UNIT;
    PowersFit();
    while n >= UNIT
      invariant 0 < div == Pow(exp + 1) && div <= b && n == b / div && exp <= 5
      decreases n
    {
      DivideAgain(b, div);
      QuotientBounds(b, div * UNIT);
      n := n / UNIT;
      if exp == 5 {
        QuotientBounds(b, div);
        assert false;
      }
      div := div * UNIT;
      exp := exp + 1;
    }
    PowGrows(exp + 1, 6);
    QuotientBounds(b, div);
    Monotone(div, n + 1, UNIT);
    UnitOf(exp);
    return Scaled(b, div, PREFIXES[exp]);
  }

  lemma QuotientBounds(b: nat, d: nat)
    requires d > 0
    ensures d * (b / d) <= b < d * (b / d + 1)
    ensures b / d >= 1 ==> d <= b
  {
  }
}
