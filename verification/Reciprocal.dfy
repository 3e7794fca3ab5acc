/**
 The reciprocal of a normalized word by three Newton steps from an 11-bit table value, and the
 reciprocal of a normalized two-word number from the reciprocal of its high word.
 */
module Reciprocal {
  import opened Arith
  import opened Words
  import opened DivisionPrimitives

  const E24: nat := 0x100_0000
  const E31: nat := 0x8000_0000
  const E38: nat := 0x40_0000_0000
  const E39: nat := 0x80_0000_0000
  const E40: nat := 0x100_0000_0000
  const E47: nat := 0x8000_0000_0000
  const E53: nat := 0x20_0000_0000_0000
  const E55: nat := 0x80_0000_0000_0000
  const E60: nat := 0x1000_0000_0000_0000
  const E65: nat := 2 * BASE
  const E97: nat := 2 * HALFBASE * BASE

  /** `reciprocal_table_item`: the table holds this quotient for every 9-bit leading part. */
  function TableItem(d9: nat): nat
    requires 256 <= d9 < 512
  {
    0x7fd00 / d9
  }

  /** The table value is accurate to about 11 bits against the leading 40 bits of the divisor. */
  lemma {:induction false} TableError(d9: nat, v0: nat, d40: nat)
    requires 256 <= d9 < 512 && v0 == TableItem(d9)
    requires E31 * d9 < d40 <= E31 * (d9 + 1)
    ensures 0 < v0 <= 2045
    ensures -(5 * E39) < 1024 * E40 - v0 * d40 < 5 * E39
  {
    assert v0 * d9 <= 0x7fd00 < v0 * d9 + d9;
    if v0 >= 2046 { MulLe(2046, v0, d9); }
    MulLe(E31 * d9, d40, v0);
    MulLe(d40, E31 * (d9 + 1), v0);
    assert (E31 * d9) * v0 == E31 * (v0 * d9);
    assert (E31 * (d9 + 1)) * v0 == E31 * (v0 * d9) + E31 * v0;
  }

  lemma {:induction false} FirstStepIdentity(v0: int, d40: int, y: int, v1: int)
    requires v1 == 2048 * v0 - y - 1
    ensures E40 * (E60 - v1 * d40)
         == (1024 * E40 - v0 * d40) * (1024 * E40 - v0 * d40) + (E40 * (y + 1) - (v0 * v0) * d40) * d40
  {
    var x := v0 * d40;
    assert (1024 * E40 - x) * (1024 * E40 - x) == 1024 * E40 * 1024 * E40 - 2 * 1024 * E40 * x + x * x;
    assert v1 * d40 == 2048 * x - (y + 1) * d40;
    assert x * x == ((v0 * v0) * d40) * d40;
    assert (E40 * (y + 1) - (v0 * v0) * d40) * d40 == E40 * ((y + 1) * d40) - ((v0 * v0) * d40) * d40;
  }

  lemma {:induction false} SquareBound(e: int, m: int)
    requires -m <= e <= m
    ensures 0 <= e * e <= m * m
  {
    if e >= 0 { MulLe(e, m, e); MulLe(e, m, m); } else { MulLe(-e, m, -e); MulLe(-e, m, m); }
    assert (-e) * (-e) == e * e;
  }

  /** First Newton step. The new error is the square of the old one plus one rounding. */
  lemma {:induction false} FirstStep(v0: int, d40: int, y: int, v1: int)
    requires 0 < d40 <= E40
    requires -(5 * E39) < 1024 * E40 - v0 * d40 < 5 * E39
    requires E40 * y <= (v0 * v0) * d40 < E40 * (y + 1)
    requires v1 == 2048 * v0 - y - 1
    ensures 0 < E60 - v1 * d40 < 29 * E38
  {
    var e0, e1 := 1024 * E40 - v0 * d40, E60 - v1 * d40;
    var g := E40 * (y + 1) - (v0 * v0) * d40;
    FirstStepIdentity(v0, d40, y, v1);
    MulLe(1, g, d40);
    MulLe(g, E40, d40);
    SquareBound(e0, 5 * E39 - 1);
  }

  lemma {:induction false} SecondStepIdentity(v1: int, d40: int, e1: int, z: int, v2: int, d: int, t: int)
    requires e1 == E60 - v1 * d40 && v2 == 0x2000 * v1 + z && d == E24 * d40 - t
    ensures E47 * (E97 - v2 * d) == E24 * (e1 * e1) + E24 * ((v1 * e1 - E47 * z) * d40) + E47 * (v2 * t)
  {
    assert v2 * d == E24 * (v2 * d40) - v2 * t by { assert v2 * (E24 * d40) == E24 * (v2 * d40); }
    assert v2 * d40 == 0x2000 * (v1 * d40) + z * d40;
    assert (v1 * e1 - E47 * z) * d40 == (v1 * e1) * d40 - E47 * (z * d40);
    assert (v1 * e1) * d40 == (v1 * d40) * e1;
    assert (v1 * d40) * e1 == (E60 - e1) * e1 == E60 * e1 - e1 * e1;
  }

  /** Second Newton step, now against the whole divisor d = 2^24 * d40 - t. */
  lemma {:induction false} SecondStep(v1: int, d40: int, e1: int, z: int, v2: int, d: int, t: int)
    requires 0 < v1 && 0 < d40 && e1 == E60 - v1 * d40 && 0 < e1 < 29 * E38
    requires E47 * z <= v1 * e1 < E47 * (z + 1) && v2 == 0x2000 * v1 + z
    requires d == E24 * d40 - t && 0 < t <= E24 && HALF <= d < BASE
    ensures 0 < v2 < 4 * HALFBASE
    ensures 0 < E97 - v2 * d < d + 874 * E53
  {
    var e2 := E97 - v2 * d;
    var rho := v1 * e1 - E47 * z;
    MulNonneg(v1, e1);
    assert z >= 0;
    SecondStepIdentity(v1, d40, e1, z, v2, d, t);
    SquareBound(e1, 29 * E38 - 1);
    MulLe(1, e1, e1);
    MulNonneg(rho, d40);
    MulNonneg(v2, t);
    assert e2 > 0;
    if v2 >= 4 * HALFBASE { MulLe(4 * HALFBASE, v2, d); }
    MulLe(rho, E47 - 1, d40);
    MulLe(t, E24, v2);
  }

  lemma {:induction false} ThirdStepIdentity(v2: int, d: int, e2: int, e: int, g: int, w: int, v3: int)
    requires e2 == E97 - v2 * d && e2 == 2 * e + g && v3 == E31 * v2 + w
    ensures 2 * E65 * (BASE2 - v3 * d) == e2 * e2 + g * (v2 * d) + 2 * ((v2 * e - E65 * w) * d)
  {
    assert v3 * d == E31 * (v2 * d) + w * d;
    assert (v2 * e - E65 * w) * d == (v2 * d) * e - E65 * (w * d);
    assert e2 * e2 == E97 * e2 - (v2 * d) * e2 by { assert (E97 - v2 * d) * e2 == E97 * e2 - (v2 * d) * e2; }
    assert (v2 * d) * e2 == 2 * ((v2 * d) * e) + (v2 * d) * g;
  }

  lemma {:induction false} ThirdErrorBound(d: int, e2: int)
    requires HALF <= d < BASE && 0 < e2 < d + 874 * E53
    ensures e2 * e2 + E97 < 2 * E65 * d
  {
    var c := 874 * E53;
    SquareBound(e2, d + c);
    assert (d + c) * (d + c) == d * d + 2 * c * d + c * c;
    MulLe(d, BASE, d);
  }

  /** Third Newton step: the result is within two divisors of 2^128. */
  lemma {:induction false} ThirdStep(v2: int, d: int, e2: int, e: int, w: int, v3: int)
    requires HALF <= d < BASE && 0 < v2 < 4 * HALFBASE
    requires e2 == E97 - v2 * d && 0 < e2 < d + 874 * E53 && e == e2 / 2
    requires E65 * w <= v2 * e < E65 * (w + 1) && v3 == E31 * v2 + w
    ensures 0 < BASE2 - v3 * d < 2 * d
  {
    var g := e2 % 2;
    var rho := v2 * e - E65 * w;
    ThirdStepIdentity(v2, d, e2, e, g, w, v3);
    MulLe(1, e2, e2);
    MulNonneg(v2, d);
    MulNonneg(rho, d);
    MulLe(rho, E65 - 1, d);
    MulLe(g, 1, v2 * d);
    MulNonneg(g, v2 * d);
    ThirdErrorBound(d, e2);
  }

  lemma {:induction false} LeadingParts(d: word)
    requires HALF <= d
    ensures var d9, d40 := d / E55, d / E24 + 1;
            && 256 <= d9 < 512 && E31 * d9 < d40 <= E31 * (d9 + 1)
            && E39 < d40 <= E40 && 0 < E24 * d40 - d <= E24
  {}

  /** A right shift, known only by the bounds the error analysis uses. */
  method FloorQuotient(n: word, d: nat) returns (q: word)
    requires 0 < d
    ensures d * q <= n < d * (q + 1)
  {
    q := n / d;
    assert n == (n / d) * d + n % d;
    if q > n { MulLe(1, d, q); }
  }

  /** The 32-bit subtraction of the first step. */
  method FirstDifference(v0: nat, y: nat) returns (v1: word)
    requires 0 < 2048 * v0 - y - 1 < 0x20_0000 && v0 <= 2045
    ensures v1 == 2048 * v0 - y - 1
  {
    v1 := (2048 * v0 - y % HALFBASE - 1) % HALFBASE;
  }

  lemma {:induction false} FirstValueBound(v1: int, d40: int)
    requires E39 < d40 <= E40 && 0 < E60 - v1 * d40 < 29 * E38
    ensures 0 < v1 < 0x20_0000
  {
    if v1 <= 0 { MulLe(v1, 0, d40); }
    if v1 >= 0x20_0000 { MulLe(0x20_0000, v1, d40); }
  }

  /** The table value and the first Newton step; the 32-bit intermediates do not wrap. */
  method FirstReciprocal(d: word) returns (v1: word, d40: word)
    requires HALF <= d
    ensures d40 == d / E24 + 1
    ensures 0 < E60 - v1 * d40 < 29 * E38 && 0 < v1 < 0x20_0000
  {
    LeadingParts(d);
    var d9 := d / E55;
    var v0 := TableItem(d9);
    d40 := d / E24 + 1;
    TableError(d9, v0, d40);
    MulLe(v0, 2045, v0);
    MulLe(v0 * v0, 2045 * 2045, d40);
    MulNonneg(v0 * v0, d40);
    var square := v0 * v0 % HALFBASE;
    assert square == v0 * v0;
    var y := FloorQuotient(square * d40, E40);
    FirstStep(v0, d40, y, 2048 * v0 - y - 1);
    FirstValueBound(2048 * v0 - y - 1, d40);
    v1 := FirstDifference(v0, y);
  }

  method SecondReciprocal(d: word, d40: word, v1: word) returns (v2: word)
    requires HALF <= d && d40 == d / E24 + 1
    requires 0 < E60 - v1 * d40 < 29 * E38 && 0 < v1 < 0x20_0000
    ensures 0 < v2 < 4 * HALFBASE && 0 < E97 - v2 * d < d + 874 * E53
  {
    ghost var e1 := E60 - v1 * d40;
    LeadingParts(d);
    MulNonneg(v1, d40);
    MulLe(e1, 29 * E38, v1);
    MulNonneg(v1, e1);
    var a := Wrap(v1 * d40);
    NoWrap(v1 * d40);
    var b := Wrap(E60 - a);
    NoWrap(e1);
    var c := Wrap(v1 * b);
    NoWrap(v1 * e1);
    var z := FloorQuotient(c, E47);
    SecondStep(v1, d40, e1, z, 0x2000 * v1 + z, d, E24 * d40 - d);
    NoWrap(0x2000 * v1);
    v2 := Wrap(Wrap(0x2000 * v1) + z);
    NoWrap(0x2000 * v1 + z);
  }

  /** The masked half of v2 minus v2 times the rounded-up half of d is half the error, modulo 2^64. */
  lemma {:induction false} HalfError(v2: nat, d: nat)
    ensures (E97 - v2 * d) / 2 == E97 / 2 - (v2 * (d / 2 + d % 2) - (if d % 2 == 1 then v2 / 2 else 0))
  {
    var a := v2 * (d / 2);
    assert v2 * d == 2 * a + v2 * (d % 2);
    assert v2 * (d / 2 + d % 2) == a + v2 * (d % 2);
    if d % 2 == 1 { assert v2 * (d % 2) == v2; } else { assert v2 * (d % 2) == 0; }
  }

  method HalvedError(d: word, v2: word, ghost e2: nat) returns (e: word)
    requires e2 == E97 - v2 * d && e2 < 2 * BASE
    ensures e == e2 / 2
  {
    var d0 := d % 2;
    var d63 := d / 2 + d0;
    var half := if d0 == 1 then v2 / 2 else 0;
    e := Wrap(half - Wrap(v2 * d63));
    HalfError(v2, d);
    WrapIs(half - Wrap(v2 * d63), (v2 * d63) / BASE - HALFBASE, e2 / 2);
  }

  /** The third approximation lies between 2^64 and 2^65, so dropping its top bit loses nothing. */
  lemma {:induction false} ThirdValueRange(v3: int, d: int)
    requires HALF <= d < BASE && 0 < BASE2 - v3 * d < 2 * d
    ensures BASE <= v3 < 2 * BASE
  {
    if v3 < BASE { MulLe(v3, BASE - 1, d); }
    if v3 >= 2 * BASE { MulLe(2 * BASE, v3, d); }
  }

  method ThirdReciprocal(d: word, v2: word) returns (v3: word)
    requires HALF <= d && 0 < v2 < 4 * HALFBASE && 0 < E97 - v2 * d < d + 874 * E53
    ensures 0 < BASE2 - (BASE + v3) * d < 2 * d
  {
    var e := HalvedError(d, v2, E97 - v2 * d);
    var p := Umul(v2, e);
    var w := p.hi / 2;
    ThirdStep(v2, d, E97 - v2 * d, e, w, E31 * v2 + w);
    ThirdValueRange(E31 * v2 + w, d);
    v3 := Wrap(w + Wrap(v2 * E31));
    WrapIs(w + Wrap(v2 * E31), 1 - (v2 * E31) / BASE, E31 * v2 + w - BASE);
  }

  /** The last step adds one exactly when a whole divisor still fits. */
  lemma {:induction false} FinalStep(d: word, v3: word, t: int, lo: word)
    requires HALF <= d && 0 < BASE2 - (BASE + v3) * d < 2 * d
    requires (v3 + 1) * d == lo + BASE * t
    ensures IsReciprocal2by1(d, Wrap(v3 - t - d))
  {
    var e3 := BASE2 - (BASE + v3) * d;
    assert BASE * (t + d - BASE) == d - e3 - lo by {
      assert (v3 + 1) * d == (BASE + v3) * d + d - BASE * d;
    }
    var v: int := if e3 <= d then v3 else v3 + 1;
    assert v3 - t - d == v - BASE;
    assert 1 <= BASE2 - (BASE + v) * d <= d by { assert (BASE + v3 + 1) * d == (BASE + v3) * d + d; }
    Reciprocal2by1IsWord(d, v);
    WrapIs(v3 - t - d, -1, v);
  }

  /** `reciprocal_2by1` computes its documented value for every normalized word. */
  method Reciprocal2by1(d: word) returns (v: word)
    requires HALF <= d
    ensures IsReciprocal2by1(d, v)
  {
    var v1, d40 := FirstReciprocal(d);
    var v2 := SecondReciprocal(d, d40, v1);
    var v3 := ThirdReciprocal(d, v2);
    var p := Umul(v3, d);
    var s := Add128(p, U128(d, 0));
    assert s.Nat() == (v3 + 1) * d by {
      assert (v3 + 1) * d == v3 * d + d;
      MulLe(v3, BASE - 1, d);
      Wrap2Is(p.Nat() + d, 0, p.Nat() + d);
    }
    FinalStep(d, v3, s.hi, s.lo);
    v := Wrap(v3 - s.hi - d);
  }

  // ---------------------------------------------------------------------------------------------
  // Two-word divisors
  // ---------------------------------------------------------------------------------------------

  /** Counts how often d1 has to be given back before d0 fits; p is the wrapped distance left. */
  method FirstAdjust(v: word, p: word, d1: word, d0: word, ghost k: int) returns (v': word, p': word, ghost n: int)
    requires HALF <= d1 && 1 <= k <= d1 && p == BASE - k
    ensures v' == Wrap(v - n) && 0 <= n <= 2
    ensures k - d0 + (if n == 2 then 2 * d1 else if n == 1 then d1 else 0) == BASE - p' <= d1
    ensures n >= 1 ==> k - d0 <= 0
    ensures n == 2 ==> k - d0 + d1 <= 0
  {
    v', p', n := v, Wrap(p + d0), 0;
    assert p' == if p + d0 < BASE then p + d0 else p + d0 - BASE;
    if p' < d0 {
      v', n := Wrap(v' - 1), n + 1;
      if p' >= d1 {
        v', n := Wrap(v' - 1), n + 1;
        p' := Wrap(p' - d1);
        assert p' == p + d0 - BASE - d1;
      }
      p' := Wrap(p' - d1);
    }
  }

  lemma {:induction false} Decrement2by1(d1: word, d0: word, v: word)
    requires IsReciprocal2by1(d1, v)
    ensures 1 <= v && (BASE + v - 1) * d1 == (BASE + v) * d1 - d1
    ensures (BASE + v - 2) * d1 == (BASE + v) * d1 - 2 * d1
    ensures (BASE + v - 1) * d1 + d0 >= BASE2 ==> 2 <= v
  {
    assert (BASE + v + 1) * d1 == (BASE + v) * d1 + d1;
    if v < 1 { MulLe(BASE + v + 1, BASE + 1, d1); }
    if v < 2 { MulLe(BASE + v - 1, BASE, d1); }
  }

  /** After the first correction p is the wrapped distance left to the high word. */
  method FirstCorrection3by2(d: U128, v: word) returns (v': word, p: word)
    requires IsReciprocal2by1(d.hi, v)
    ensures BASE2 - (BASE + v') * d.hi - d.lo == BASE - p <= d.hi
  {
    ghost var k := BASE2 - (BASE + v) * d.hi;
    p := Wrap(d.hi * v);
    WrapIs(d.hi * v, BASE - d.hi - 1, BASE - k);
    ghost var n;
    v', p, n := FirstAdjust(v, p, d.hi, d.lo, k);
    Decrement2by1(d.hi, d.lo, v);
    NoWrap(v - n);
  }

  /** How far the corrected value is from the last multiple below 2^192. */
  lemma {:induction false} SecondGap3by2(d: U128, v: word, p: word, t: U128)
    requires BASE2 - (BASE + v) * d.hi - d.lo == BASE - p
    requires t.Nat() == v * d.lo
    ensures BASE3 - (BASE + v) * d.Nat() == BASE * (BASE - p - t.hi) - t.lo
  {
    assert (BASE + v) * d.Nat() == BASE * ((BASE + v) * d.hi) + BASE * d.lo + v * d.lo by {
      assert (BASE + v) * (BASE * d.hi) == BASE * ((BASE + v) * d.hi);
      assert (BASE + v) * d.lo == BASE * d.lo + v * d.lo;
    }
  }

  lemma {:induction false} Decrement3by2(d: nat, v: word)
    requires BASE2 / 2 <= d < BASE2
    ensures BASE3 - (BASE + v) * d <= 0 ==> 1 <= v
    ensures BASE3 - (BASE + v) * d + d <= 0 ==> 2 <= v
    ensures (BASE + v - 1) * d == (BASE + v) * d - d && (BASE + v - 2) * d == (BASE + v) * d - 2 * d
  {
    if v < 1 { MulLe(BASE + v, BASE, d); }
    if v < 2 { MulLe(BASE + v - 1, BASE, d); }
  }

  method SecondAdjust(d: U128, v: word, p: word, t: U128) returns (v': word, ghost n: int)
    requires HALF <= d.hi && BASE - p <= d.hi && t.hi <= BASE - 2
    ensures v' == Wrap(v - n) && 0 <= n <= 2
    ensures var gap := BASE * (BASE - p - t.hi) - t.lo;
            && 1 <= gap + (if n == 2 then 2 * d.Nat() else if n == 1 then d.Nat() else 0) <= d.Nat()
            && (n >= 1 ==> gap <= 0) && (n == 2 ==> gap + d.Nat() <= 0)
  {
    v', n := v, 0;
    var p' := Wrap(p + t.hi);
    if p' < t.hi {
      v', n := Wrap(v' - 1), n + 1;
      if p' >= d.hi {
        if p' > d.hi || t.lo >= d.lo {
          v', n := Wrap(v' - 1), n + 1;
        }
      }
    }
  }

  lemma {:induction false} ProductHigh(x: word, y: word, t: U128)
    requires t.Nat() == x * y
    ensures t.hi <= BASE - 2
  {
    MulLe(x, BASE - 1, y);
  }

  method SecondCorrection3by2(d: U128, v: word, p: word, t: U128) returns (v': word)
    requires HALF <= d.hi && t.Nat() == v * d.lo
    requires BASE2 - (BASE + v) * d.hi - d.lo == BASE - p <= d.hi
    ensures IsReciprocal3by2(d.Nat(), v')
  {
    SecondGap3by2(d, v, p, t);
    Decrement3by2(d.Nat(), v);
    ProductHigh(v, d.lo, t);
    ghost var n;
    v', n := SecondAdjust(d, v, p, t);
    NoWrap(v - n);
  }

  /** `reciprocal_3by2` derives the exact two-word reciprocal from the one-word one. */
  method Reciprocal3by2(d: U128) returns (v: word)
    requires HALF <= d.hi
    ensures IsReciprocal3by2(d.Nat(), v)
  {
    v := Reciprocal2by1(d.hi);
    var p;
    v, p := FirstCorrection3by2(d, v);
    var t := Umul(v, d.lo);
    v := SecondCorrection3by2(d, v, p, t);
  }
}
