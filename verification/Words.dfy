/** Elementary facts about products, kept tiny so that callers can name the one they need. */
module Arith {

  lemma {:induction false} MulLe(a: int, b: int, c: int)
    requires a <= b && 0 <= c
    ensures a * c <= b * c
  {}

  lemma {:induction false} MulLt(a: int, b: int, c: int)
    requires a < b && 0 < c
    ensures a * c < b * c
  {}

  lemma {:induction false} MulNonneg(a: int, b: int)
    requires 0 <= a && 0 <= b
    ensures 0 <= a * b
  {}

  /** Quotient and remainder are determined by their defining equation. */
  lemma {:induction false} DivModUnique(n: int, d: int, q: int, r: int)
    requires n == q * d + r && 0 <= r < d
    ensures n / d == q && n % d == r
  {
    var e := n / d - q;
    assert n == (n / d) * d + n % d;
    assert e * d == r - n % d by { assert e * d == (n / d) * d - q * d; }
    if e >= 1 { MulLe(1, e, d); }
    if e <= -1 { MulLe(e, -1, d); }
  }

  /** Two numbers that differ by a multiple of d leave the same remainder. */
  lemma {:induction false} ModShift(a: int, m: int, d: int)
    requires 0 < d
    ensures (a + m * d) % d == a % d
  {
    assert a + m * d == (a / d + m) * d + a % d by { assert (a / d + m) * d == (a / d) * d + m * d; }
    DivModUnique(a + m * d, d, a / d + m, a % d);
  }

  lemma {:induction false} DivTwice(x: nat, a: nat, b: nat)
    requires 0 < a && 0 < b
    ensures 0 < a * b && x / (a * b) == x / a / b
  {
    var q := x / a;
    assert x == q * a + x % a;
    assert q == (q / b) * b + q % b;
    MulNonneg(a, b);
    MulLe(q % b, b - 1, a);
    MulNonneg(q % b, a);
    assert x == (q / b) * (a * b) + ((q % b) * a + x % a) by {
      assert ((q / b) * b + q % b) * a == (q / b) * (a * b) + (q % b) * a;
    }
    MulLe(1, b, a);
    DivModUnique(x, a * b, q / b, (q % b) * a + x % a);
  }

  function Pow2(n: nat): (p: nat)
    ensures p > 0
  {
    if n == 0 then 1 else 2 * Pow2(n - 1)
  }

  lemma {:induction false} Pow2Add(a: nat, b: nat)
    ensures Pow2(a + b) == Pow2(a) * Pow2(b)
  {
    if a > 0 {
      Pow2Add(a - 1, b);
      assert Pow2(a) * Pow2(b) == 2 * (Pow2(a - 1) * Pow2(b));
    }
  }

  lemma {:induction false} Pow2Mono(a: nat, b: nat)
    requires a <= b
    ensures Pow2(a) <= Pow2(b)
  {
    if a < b { Pow2Mono(a, b - 1); }
  }

  lemma {:induction false} Pow2At64()
    ensures Pow2(8) == 0x100 && Pow2(16) == 0x1_0000 && Pow2(32) == 0x1_0000_0000
    ensures Pow2(63) == 0x8000_0000_0000_0000 && Pow2(64) == 0x1_0000_0000_0000_0000
  {
    assert Pow2(8) == 256;
    Pow2Add(8, 8);
    Pow2Add(16, 16);
    Pow2Add(32, 32);
  }
}

/**
 64-bit machine words and the carry-propagating operations on them.
 A word is a natural number below 2^64; every wrap-around of the source is written out as a remainder.
 */
module Words {
  import opened Arith

  const BASE: nat := 0x1_0000_0000_0000_0000
  const BASE2: nat := 0x1_0000_0000_0000_0000_0000_0000_0000_0000
  const HALF: nat := 0x8000_0000_0000_0000

  type word = x: nat | x < BASE

  function Wrap(x: int): word { x % BASE }

  /** The value of a wrapped expression is known as soon as it is known up to a multiple of 2^64. */
  lemma {:induction false} WrapIs(x: int, m: int, r: int)
    requires x == r + BASE * m && 0 <= r < BASE
    ensures Wrap(x) == r
  {}

  lemma {:induction false} NoWrap(x: nat)
    requires x < BASE
    ensures Wrap(x) == x
  {}

  lemma {:induction false} Wrap2Is(x: int, m: int, r: int)
    requires x == r + BASE2 * m && 0 <= r < BASE2
    ensures x % BASE2 == r
  {}

  function Bit(b: bool): (r: word)
    ensures r <= 1
  {
    if b then 1 else 0
  }

  datatype WithCarry<T> = WithCarry(value: T, carry: bool)

  /** Word addition: the two carries are detected from the wrapped sums alone. */
  function AddWithCarry(x: word, y: word, carry: bool): (r: WithCarry<word>)
    ensures r.value + BASE * Bit(r.carry) == x + y + Bit(carry)
  {
    var s := Wrap(x + y);
    var carry1 := s < x;
    var t := Wrap(s + Bit(carry));
    var carry2 := t < s;
    WithCarry(t, carry1 || carry2)
  }

  function SubWithCarry(x: word, y: word, carry: bool): (r: WithCarry<word>)
    ensures r.value - BASE * Bit(r.carry) == x - y - Bit(carry)
  {
    var d := Wrap(x - y);
    var carry1 := x < y;
    var e := Wrap(d - Bit(carry));
    var carry2 := d < Bit(carry);
    WithCarry(e, carry1 || carry2)
  }

  /** The 128-bit unsigned integer: two words, least significant first. */
  datatype U128 = U128(lo: word, hi: word) {
    ghost function Nat(): nat { lo + BASE * hi }
  }

  lemma {:induction false} NatBound(x: U128)
    ensures x.Nat() < BASE2
  {}

  method Add128(x: U128, y: U128) returns (r: U128)
    ensures r.Nat() == (x.Nat() + y.Nat()) % BASE2
  {
    var l := AddWithCarry(x.lo, y.lo, false);
    var h := AddWithCarry(x.hi, y.hi, l.carry);
    r := U128(l.value, h.value);
    NatBound(r);
    Wrap2Is(x.Nat() + y.Nat(), Bit(h.carry), r.Nat());
  }

  method Sub128(x: U128, y: U128) returns (r: U128)
    ensures r.Nat() == (x.Nat() - y.Nat()) % BASE2
  {
    var l := SubWithCarry(x.lo, y.lo, false);
    var h := SubWithCarry(x.hi, y.hi, l.carry);
    r := U128(l.value, h.value);
    NatBound(r);
    Wrap2Is(x.Nat() - y.Nat(), if h.carry then -1 else 0, r.Nat());
  }

  predicate Less128(x: U128, y: U128)
    ensures Less128(x, y) <==> x.Nat() < y.Nat()
  {
    x.hi < y.hi || (x.hi == y.hi && x.lo < y.lo)
  }

  const HALFBASE: nat := 0x1_0000_0000

  lemma {:induction false} HalvesProduct(xl: nat, xh: nat, yl: nat, yh: nat)
    ensures (xl + HALFBASE * xh) * (yl + HALFBASE * yh)
         == xl * yl + HALFBASE * (xh * yl) + HALFBASE * (xl * yh) + BASE * (xh * yh)
  {
    assert (xl + HALFBASE * xh) * (yl + HALFBASE * yh)
        == xl * yl + xl * (HALFBASE * yh) + (HALFBASE * xh) * yl + (HALFBASE * xh) * (HALFBASE * yh);
  }

  lemma {:induction false} HalfProductBound(a: nat, b: nat)
    requires a < HALFBASE && b < HALFBASE
    ensures 0 <= a * b <= (HALFBASE - 1) * (HALFBASE - 1)
  {
    MulLe(a, HALFBASE - 1, b);
    MulLe(b, HALFBASE - 1, HALFBASE - 1);
  }

  /** Bitwise or on natural numbers. */
  function Or(x: nat, y: nat): nat
  {
    if x == 0 then y
    else if y == 0 then x
    else (if x % 2 == 1 || y % 2 == 1 then 1 else 0) + 2 * Or(x / 2, y / 2)
  }

  /** Or of two numbers with disjoint bit ranges is their sum. */
  lemma {:induction false} OrDisjoint(hi: nat, lo: nat, s: nat)
    requires lo < Pow2(s)
    ensures Or(hi * Pow2(s), lo) == hi * Pow2(s) + lo
  {
    var x := hi * Pow2(s);
    if s > 0 && x > 0 && lo > 0 {
      assert x == 2 * (hi * Pow2(s - 1));
      OrDisjoint(hi, lo / 2, s - 1);
    }
  }

  /** Shifting the low half up leaves it above whatever fits in the low half. */
  lemma {:induction false} JoinHalves(u: word, t: nat)
    requires t < HALFBASE
    ensures Or(Wrap(u * HALFBASE), t) == (u % HALFBASE) * HALFBASE + t
  {
    Pow2At64();
    WrapIs(u * HALFBASE, u / HALFBASE, (u % HALFBASE) * HALFBASE);
    OrDisjoint(u % HALFBASE, t, 32);
  }

  lemma {:induction false} CombinedValue(
    t0h: nat, t0l: nat, t1: nat, u1h: nat, u1l: nat, t2: nat, u2h: nat, u2l: nat, t3: nat)
    requires t1 + t0h == HALFBASE * u1h + u1l && t2 + u1l == HALFBASE * u2h + u2l
    ensures u2l * HALFBASE + t0l + BASE * (t3 + u2h + u1h)
         == HALFBASE * t0h + t0l + HALFBASE * t1 + HALFBASE * t2 + BASE * t3
  {}

  /** None of the three additions of the portable multiplication overflows a word. */
  lemma {:induction false} CombinedHigh(t0: nat, t1: nat, t2: nat, t3: nat)
    requires t0 <= (HALFBASE - 1) * (HALFBASE - 1) && t1 <= (HALFBASE - 1) * (HALFBASE - 1)
    requires t2 <= (HALFBASE - 1) * (HALFBASE - 1) && t3 <= (HALFBASE - 1) * (HALFBASE - 1)
    ensures var u1 := t1 + t0 / HALFBASE;
            var u2 := t2 + u1 % HALFBASE;
            u1 < BASE && u2 < BASE && t3 + u2 / HALFBASE + u1 / HALFBASE < BASE
  {}

  /** The portable multiplication after its four partial products. */
  method CombineHalves(t0: word, t1: word, t2: word, t3: word) returns (p: U128)
    requires t0 <= (HALFBASE - 1) * (HALFBASE - 1) && t1 <= (HALFBASE - 1) * (HALFBASE - 1)
    requires t2 <= (HALFBASE - 1) * (HALFBASE - 1) && t3 <= (HALFBASE - 1) * (HALFBASE - 1)
    ensures p.Nat() == t0 + HALFBASE * t1 + HALFBASE * t2 + BASE * t3
  {
    CombinedHigh(t0, t1, t2, t3);
    ghost var w1, w2 := t1 + t0 / HALFBASE, t2 + (t1 + t0 / HALFBASE) % HALFBASE;
    var u1 := Wrap(t1 + t0 / HALFBASE);
    NoWrap(w1);
    var u2 := Wrap(t2 + u1 % HALFBASE);
    NoWrap(w2);
    var lo := Or(Wrap(u2 * HALFBASE), t0 % HALFBASE);
    JoinHalves(u2, t0 % HALFBASE);
    var hi := Wrap(t3 + u2 / HALFBASE + u1 / HALFBASE);
    NoWrap(t3 + w2 / HALFBASE + w1 / HALFBASE);
    CombinedValue(t0 / HALFBASE, t0 % HALFBASE, t1, u1 / HALFBASE, u1 % HALFBASE, t2, u2 / HALFBASE, u2 % HALFBASE, t3);
    p := U128(lo, hi);
  }

  /** Full 64 x 64 -> 128 multiplication from four 32-bit products. */
  method Umul(x: word, y: word) returns (p: U128)
    ensures p.Nat() == x * y
  {
    var xl, xh, yl, yh := x % HALFBASE, x / HALFBASE, y % HALFBASE, y / HALFBASE;
    HalfProductBound(xl, yl);
    HalfProductBound(xh, yl);
    HalfProductBound(xl, yh);
    HalfProductBound(xh, yh);
    HalvesProduct(xl, xh, yl, yh);
    p := CombineHalves(xl * yl, xh * yl, xl * yh, xh * yh);
  }
}
