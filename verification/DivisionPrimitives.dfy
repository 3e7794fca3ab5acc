/**
 Division of a two-word number by a normalized word, and of a three-word number by a normalized
 two-word number, both by multiplication with a precomputed reciprocal.
 */
module DivisionPrimitives {
  import opened Arith
  import opened Words

  const BASE3: nat := BASE * BASE2

  /** v is the reciprocal of the normalized word d: (2^64 + v) * d is the last multiple of d below 2^128. */
  ghost predicate IsReciprocal2by1(d: word, v: int) {
    HALF <= d && 1 <= BASE2 - (BASE + v) * d <= d
  }

  /** The same for a normalized two-word divisor and 2^192. */
  ghost predicate IsReciprocal3by2(d: nat, v: int) {
    BASE2 / 2 <= d < BASE2 && 1 <= BASE3 - (BASE + v) * d <= d
  }

  /** A floor of (n - 1) / d, said without division: what remains is between 1 and d. */
  lemma {:induction false} FloorGap(n: nat, d: nat, f: int)
    requires 0 < d
    ensures f == (n - 1) / d <==> 1 <= n - f * d <= d
  {
    var g := (n - 1) / d;
    assert n - 1 == g * d + (n - 1) % d;
    if 1 <= n - f * d <= d {
      DivModUnique(n - 1, d, f, n - 1 - f * d);
    }
  }

  /** The reciprocals are exactly the documented floors. */
  lemma {:induction false} Reciprocal2by1Value(d: word, v: int)
    requires HALF <= d
    ensures IsReciprocal2by1(d, v) <==> v == (BASE2 - 1) / d - BASE
  {
    FloorGap(BASE2, d, BASE + v);
  }

  lemma {:induction false} Reciprocal3by2Value(d: nat, v: int)
    requires BASE2 / 2 <= d < BASE2
    ensures IsReciprocal3by2(d, v) <==> v == (BASE3 - 1) / d - BASE
  {
    FloorGap(BASE3, d, BASE + v);
  }

  // ---------------------------------------------------------------------------------------------
  // Two words by one
  // ---------------------------------------------------------------------------------------------

  /** With the candidate quotient q1 + 1, how far off the remainder can be (scaled by 2^64). */
  lemma {:induction false} CandidateIdentity2by1(u1: int, u0: int, d: int, f: int, q1: int, q0: int)
    requires q1 * BASE + q0 == f * u1 + u0
    ensures BASE * (u1 * BASE + u0 - (q1 + 1) * d)
         == u1 * (BASE2 - f * d) + u0 * (BASE - d) + q0 * d - BASE * d
  {
    assert (q1 * BASE) * d == (f * u1 + u0 - q0) * d;
    assert (f * u1 + u0 - q0) * d == u1 * (f * d) + u0 * d - q0 * d;
    assert u1 * (BASE2 - f * d) == u1 * BASE2 - u1 * (f * d);
  }

  lemma {:induction false} CandidateTerms2by1(u1: int, u0: int, d: int, k: int)
    requires 0 <= u1 < d < BASE && 0 <= u0 < BASE && 0 <= k <= d
    ensures 0 <= u1 * k <= d * d - d
    ensures 0 <= u0 * (BASE - d) <= (BASE - 1) * (BASE - d)
  {
    MulLe(k, d, u1);
    MulLe(u1, d - 1, d);
    MulNonneg(u1, k);
    MulNonneg(u0, BASE - d);
    MulLe(u0, BASE - 1, BASE - d);
  }

  lemma {:induction false} LowerBound2by1(r: int, d: int, q0: int)
    requires 0 <= d < BASE && 0 <= q0 < BASE
    requires BASE * r >= q0 * d - BASE * d
    ensures 0 <= r + d && q0 < r + BASE
  {
    MulLt(d, BASE, BASE - q0);
    MulNonneg(q0, d);
  }

  lemma {:induction false} UpperBound2by1(r: int, d: int, q0: int)
    requires 0 <= d <= BASE
    requires BASE * r < (BASE - d) * (BASE - d) + q0 * d
    ensures r < BASE - d || r < q0
  {
    if r >= BASE - d && r >= q0 {
      MulLe(q0, r, d);
      MulLe(BASE - d, r, BASE - d);
    }
  }

  /** The remainder of the candidate lies in a window of width 2^64 fixed by d and q0. */
  lemma {:induction false} CandidateWindow2by1(u1: word, u0: word, d: word, v: int, q1: int, q0: word)
    requires IsReciprocal2by1(d, v) && u1 < d
    requires q1 * BASE + q0 == (BASE + v) * u1 + u0
    ensures var r := u1 * BASE + u0 - (q1 + 1) * d;
            0 <= r + d && q0 < r + BASE && (r < BASE - d || r < q0)
  {
    var r := u1 * BASE + u0 - (q1 + 1) * d;
    CandidateIdentity2by1(u1, u0, d, BASE + v, q1, q0);
    CandidateTerms2by1(u1, u0, d, BASE2 - (BASE + v) * d);
    LowerBound2by1(r, d, q0);
    assert (BASE - d) * (BASE - d) == BASE2 - BASE * d - BASE * d + d * d;
    UpperBound2by1(r, d, q0);
  }

  /** The product-plus-numerator never overflows two words. */
  lemma {:induction false} CandidateFits2by1(u1: word, u0: word, d: word, v: int)
    requires IsReciprocal2by1(d, v) && u1 < d && 0 <= v
    ensures 0 <= (BASE + v) * u1 + u0 < BASE2
  {
    var f := BASE + v;
    MulLe(u1, d - 1, f);
    assert f * u1 <= f * (d - 1) == f * d - f;
    MulNonneg(f, u1);
  }

  /** A wrapped subtraction of a wrapped product agrees with the exact one up to a multiple of 2^64. */
  lemma {:induction false} WrappedRemainder(a: int, q: int, d: word, m: int, r: int)
    requires a - q * d == r + BASE * m && 0 <= r < BASE
    ensures Wrap(a - Wrap(Wrap(q) * d)) == r
  {
    var x := Wrap(q);
    assert q == x + BASE * (q / BASE);
    assert q * d == x * d + BASE * ((q / BASE) * d);
    assert x * d == Wrap(x * d) + BASE * ((x * d) / BASE);
    WrapIs(a - Wrap(x * d), m + (q / BASE) * d + (x * d) / BASE, r);
  }

  /** The reciprocal of a normalized word is itself a word. */
  lemma {:induction false} Reciprocal2by1IsWord(d: word, v: int)
    requires IsReciprocal2by1(d, v)
    ensures 0 <= v < BASE
  {
    if v < 0 { MulLe(BASE + v, BASE - 1, d); }
    if v >= BASE { MulLe(2 * BASE, BASE + v, d); }
  }

  /** v * u1 + u, the two-word candidate whose high word is within two of the quotient. */
  method Candidate2by1(u: U128, d: word, v: word) returns (q: U128)
    requires IsReciprocal2by1(d, v) && u.hi < d
    ensures q.hi * BASE + q.lo == (BASE + v) * u.hi + u.lo
  {
    var p := Umul(v, u.hi);
    q := Add128(p, u);
    CandidateFits2by1(u.hi, u.lo, d, v);
    assert p.Nat() + u.Nat() == (BASE + v) * u.hi + u.lo by { assert (BASE + v) * u.hi == BASE * u.hi + v * u.hi; }
  }

  /** The two corrections, told apart by where the exact candidate remainder r lies. */
  method Correct2by1(q1: word, q0: word, candidate: word, d: word, ghost r: int) returns (quot: word, rem: word)
    requires HALF <= d && 0 <= r + d && q0 < r + BASE && (r < BASE - d || r < q0)
    requires candidate == if r < 0 then r + BASE else r
    ensures quot == Wrap(q1 + (if r < 0 then 0 else if r < d then 1 else 2))
    ensures rem == if r < 0 then r + d else if r < d then r else r - d
  {
    quot, rem := Wrap(q1 + 1), candidate;
    if rem > q0 {
      quot := Wrap(quot - 1);
      rem := Wrap(rem + d);
    }
    if rem >= d {
      quot := Wrap(quot + 1);
      rem := Wrap(rem - d);
    }
  }

  lemma {:induction false} CorrectedQuotient2by1(u: U128, d: word, q1: word, r: int, quot: word, rem: word)
    requires HALF <= d && u.hi < d && r == u.Nat() - (q1 + 1) * d && 0 <= r + d && r < BASE
    requires quot == Wrap(q1 + (if r < 0 then 0 else if r < d then 1 else 2))
    requires rem == if r < 0 then r + d else if r < d then r else r - d
    ensures u.Nat() == quot * d + rem && rem < d
  {
    var e: int := if r < 0 then 0 else if r < d then 1 else 2;
    assert u.Nat() == (q1 + e) * d + rem by { assert (q1 + e) * d == (q1 + 1) * d + (e - 1) * d; }
    if q1 + e >= BASE { MulLe(BASE, q1 + e, d); }
    NoWrap(q1 + e);
  }

  /** `udivrem_2by1`: exact quotient and remainder, at most two corrections. */
  method Udivrem2by1(u: U128, d: word, v: word) returns (quot: word, rem: word)
    requires IsReciprocal2by1(d, v) && u.hi < d
    ensures u.Nat() == quot * d + rem && rem < d
  {
    var q := Candidate2by1(u, d, v);
    ghost var r := u.hi * BASE + u.lo - (q.hi + 1) * d;
    CandidateWindow2by1(u.hi, u.lo, d, v, q.hi, q.lo);
    var candidate := Wrap(u.lo - Wrap(Wrap(q.hi + 1) * d));
    WrappedRemainder(u.lo, q.hi + 1, d, 0 - u.hi - (if r < 0 then 1 else 0), if r < 0 then r + BASE else r);
    quot, rem := Correct2by1(q.hi, q.lo, candidate, d, r);
    CorrectedQuotient2by1(u, d, q.hi, r, quot, rem);
  }

  // ---------------------------------------------------------------------------------------------
  // Three words by two
  // ---------------------------------------------------------------------------------------------

  lemma {:induction false} CandidateIdentity3by2(u2: int, u1: int, u0: int, d: int, f: int, q1: int, q0: int)
    requires q1 * BASE + q0 == f * u2 + u1
    ensures BASE * (u2 * BASE2 + u1 * BASE + u0 - (q1 + 1) * d)
         == u2 * (BASE3 - f * d) + u1 * (BASE2 - d) + u0 * BASE + q0 * d - BASE * d
  {
    assert (q1 * BASE) * d == (f * u2 + u1 - q0) * d;
    assert (f * u2 + u1 - q0) * d == u2 * (f * d) + u1 * d - q0 * d;
    assert u2 * (BASE3 - f * d) == u2 * BASE3 - u2 * (f * d);
  }

  lemma {:induction false} NearTopPolynomial(d: int, x: int, y: int)
    requires d == BASE2 - x && x == BASE - 1 - y && 0 <= y
    ensures BASE * ((d - 1) * x + (BASE - 1) * BASE - BASE * d) < x * x
  {
    assert (d - 1) * x == BASE2 * x - x * x - x;
    assert x * x == (BASE - 1) * (BASE - 1) - 2 * (BASE - 1) * y + y * y;
    MulNonneg(y, y);
  }

  /** The spread of the candidate when the divisor is within 2^64 of 2^128. */
  lemma {:induction false} SpreadNearTop(u2: int, u1: int, u0: int, d: int, k: int, x: int)
    requires 0 <= u2 && 0 <= u1 && 0 <= u0 < BASE && u2 * BASE + u1 < d
    requires d == BASE2 - x && 0 < x < BASE && k <= BASE * x
    ensures BASE * (u2 * k + u1 * x + u0 * BASE - BASE * d) < x * x
  {
    MulLe(k, BASE * x, u2);
    assert u2 * (BASE * x) + u1 * x == (u2 * BASE + u1) * x;
    MulLe(u2 * BASE + u1, d - 1, x);
    NearTopPolynomial(d, x, BASE - 1 - x);
  }

  lemma {:induction false} HighWordShare(u2: int, u1: int, d: int)
    requires u2 * BASE + u1 < d && 0 < d
    ensures BASE * (d * u2) <= d * d - d - u1 * d
  {
    MulLe(u2 * BASE, d - 1 - u1, d);
    assert (u2 * BASE) * d == BASE * (d * u2);
    assert (d - 1 - u1) * d == d * d - d - u1 * d;
  }

  lemma {:induction false} LowWordShare(u1: int, d: int, x: int)
    requires u1 < BASE && d <= BASE * x
    ensures BASE * (u1 * x) - u1 * d <= (BASE - 1) * (BASE * x - d)
  {
    MulLe(u1, BASE - 1, BASE * x - d);
    assert u1 * (BASE * x - d) == BASE * (u1 * x) - u1 * d;
  }

  lemma {:induction false} SquareOfGap(d: int, x: int)
    requires d == BASE2 - x
    ensures d * d == BASE2 * BASE2 - 2 * BASE2 * x + x * x
  {}

  /** The spread of the candidate for every other normalized divisor. */
  lemma {:induction false} SpreadElsewhere(u2: int, u1: int, u0: int, d: int, k: int, x: int)
    requires 0 <= u2 && 0 <= u1 < BASE && 0 <= u0 < BASE && u2 * BASE + u1 < d
    requires d == BASE2 - x && BASE <= x && 0 < d && k <= d
    ensures BASE * (u2 * k + u1 * x + u0 * BASE - BASE * d) < x * x
  {
    MulLe(k, d, u2);
    HighWordShare(u2, u1, d);
    LowWordShare(u1, d, x);
    SquareOfGap(d, x);
  }

  lemma {:induction false} LowerBound3by2(r: int, d: int, q0: int)
    requires 0 <= d < BASE2 && 0 <= q0 < BASE
    requires BASE * r >= q0 * d - BASE * d
    ensures 0 <= r + d && q0 * BASE < r + BASE2
  {
    MulLt(d, BASE2, BASE - q0);
    MulNonneg(q0, d);
  }

  lemma {:induction false} UpperBound3by2(r: int, d: int, q0: int, x: int)
    requires 0 <= d && 0 <= x && d + x == BASE2
    requires BASE2 * r < x * x + BASE * (q0 * d)
    ensures r < x || r < q0 * BASE
  {
    assert (q0 * BASE) * d == BASE * (q0 * d);
    assert d * r + x * r == BASE2 * r by { assert (d + x) * r == d * r + x * r; }
    if r >= x && r >= q0 * BASE {
      MulLe(q0 * BASE, r, d);
      MulLe(x, r, x);
    }
  }

  lemma {:induction false} ReciprocalGap3by2(d: nat, v: int)
    requires IsReciprocal3by2(d, v) && 0 <= v
    ensures var k := BASE3 - (BASE + v) * d;
            1 <= k <= d && k <= BASE * (BASE2 - d)
  {
    assert (BASE + v) * d == BASE * d + v * d;
    MulNonneg(v, d);
  }

  /** The remainder of the candidate lies in a window of width 2^128 fixed by d and q0. */
  lemma {:induction false} CandidateWindow3by2(u2: word, u1: word, u0: word, d: nat, v: word, q1: int, q0: word)
    requires IsReciprocal3by2(d, v) && u2 * BASE + u1 < d
    requires q1 * BASE + q0 == (BASE + v) * u2 + u1
    ensures var r := u2 * BASE2 + u1 * BASE + u0 - (q1 + 1) * d;
            0 <= r + d && q0 * BASE < r + BASE2 && (r < BASE2 - d || r < q0 * BASE)
  {
    var r := u2 * BASE2 + u1 * BASE + u0 - (q1 + 1) * d;
    var k := BASE3 - (BASE + v) * d;
    var x := BASE2 - d;
    ReciprocalGap3by2(d, v);
    CandidateIdentity3by2(u2, u1, u0, d, BASE + v, q1, q0);
    assert BASE * r == u2 * k + u1 * x + u0 * BASE + q0 * d - BASE * d;
    MulNonneg(u2, k);
    MulNonneg(u1, x);
    LowerBound3by2(r, d, q0);
    if x < BASE { SpreadNearTop(u2, u1, u0, d, k, x); } else { SpreadElsewhere(u2, u1, u0, d, k, x); }
    UpperBound3by2(r, d, q0, x);
  }

  lemma {:induction false} CandidateFits3by2(u2: word, u1: word, d: nat, v: word)
    requires IsReciprocal3by2(d, v) && u2 * BASE + u1 < d
    ensures (BASE + v) * u2 + u1 < BASE2
  {
    var f := BASE + v;
    assert f * d <= BASE3;
    assert (f * u2) * d == u2 * (f * d);
    MulLe(f * d, BASE3, u2);
    MulLe(u2 * BASE, d - 1 - u1, BASE2);
    if f * u2 + u1 >= BASE2 {
      MulLe(BASE2, f * u2 + u1, d);
      assert (f * u2 + u1) * d == (f * u2) * d + u1 * d;
      MulLe(d, BASE2, u1);
    }
  }

  method Candidate3by2(u2: word, u1: word, ghost d: nat, v: word) returns (q: U128)
    requires IsReciprocal3by2(d, v) && u2 * BASE + u1 < d
    ensures q.hi * BASE + q.lo == (BASE + v) * u2 + u1
  {
    var p := Umul(v, u2);
    q := Add128(p, U128(u1, u2));
    CandidateFits3by2(u2, u1, d, v);
    assert p.Nat() + U128(u1, u2).Nat() == (BASE + v) * u2 + u1 by { assert (BASE + v) * u2 == BASE * u2 + v * u2; }
  }

  /** The two-word remainder of the candidate, computed without the top word. */
  lemma {:induction false} WrappedRemainder3by2(
    u1: word, u0: word, d: U128, q1: word, r1: word, t: nat, s: nat, m: int, r: int)
    requires r1 == Wrap(u1 - Wrap(q1 * d.hi)) && t == d.lo * q1
    requires s == (u0 + BASE * r1 - t) % BASE2
    requires u1 * BASE + u0 - (q1 + 1) * d.Nat() == r + BASE2 * m && 0 <= r < BASE2
    ensures (s - d.Nat()) % BASE2 == r
  {
    var a := (q1 * d.hi) / BASE;
    var b := (u1 - Wrap(q1 * d.hi)) / BASE;
    var c := (u0 + BASE * r1 - t) / BASE2;
    assert q1 * d.hi == Wrap(q1 * d.hi) + BASE * a;
    assert r1 == u1 - q1 * d.hi + BASE * (a - b);
    assert (q1 + 1) * d.Nat() == q1 * d.lo + BASE * (q1 * d.hi) + d.Nat();
    Wrap2Is(s - d.Nat(), m + a - b - c, r);
  }

  /** Comparing the high word is comparing against that many whole words. */
  lemma {:induction false} HighWordCompare(x: U128, q0: word)
    ensures x.hi >= q0 <==> x.Nat() >= q0 * BASE
  {}

  method StepDown3by2(q1: word, q0: word, candidate: U128, d: U128, ghost r: int) returns (quot: word, rem: U128)
    requires 0 <= r + d.Nat() && q0 * BASE < r + BASE2 && (r < BASE2 - d.Nat() || r < q0 * BASE)
    requires candidate.Nat() == if r < 0 then r + BASE2 else r
    ensures var down := r < 0 || r >= q0 * BASE;
            && quot == Wrap(q1 + (if down then 0 else 1)) && rem.Nat() == r + (if down then d.Nat() else 0)
  {
    quot, rem := Wrap(q1 + 1), candidate;
    HighWordCompare(candidate, q0);
    if rem.hi >= q0 {
      quot := Wrap(quot - 1);
      rem := Add128(rem, d);
      Wrap2Is(candidate.Nat() + d.Nat(), Bit(r < 0), r + d.Nat());
    }
  }

  method Correct3by2(q1: word, q0: word, candidate: U128, d: U128, ghost r: int) returns (quot: word, rem: U128)
    requires BASE2 / 2 <= d.Nat() && 0 <= r + d.Nat() && q0 * BASE < r + BASE2
    requires r < BASE2 - d.Nat() || r < q0 * BASE
    requires candidate.Nat() == if r < 0 then r + BASE2 else r
    ensures quot == Wrap(q1 + (if r < 0 then 0 else if r < d.Nat() then 1 else 2))
    ensures rem.Nat() == if r < 0 then r + d.Nat() else if r < d.Nat() then r else r - d.Nat()
  {
    quot, rem := StepDown3by2(q1, q0, candidate, d, r);
    if !Less128(rem, d) {
      quot := Wrap(quot + 1);
      ghost var before := rem.Nat();
      rem := Sub128(rem, d);
      Wrap2Is(before - d.Nat(), 0, before - d.Nat());
    }
  }

  lemma {:induction false} CorrectedQuotient3by2(
    u2: word, u1: word, u0: word, d: nat, q1: word, r: int, quot: word, rem: nat)
    requires BASE2 / 2 <= d && u2 * BASE + u1 < d
    requires r == u2 * BASE2 + u1 * BASE + u0 - (q1 + 1) * d && 0 <= r + d && r < BASE2
    requires quot == Wrap(q1 + (if r < 0 then 0 else if r < d then 1 else 2))
    requires rem == if r < 0 then r + d else if r < d then r else r - d
    ensures u2 * BASE2 + u1 * BASE + u0 == quot * d + rem && rem < d
  {
    var e: int := if r < 0 then 0 else if r < d then 1 else 2;
    assert (q1 + e) * d == (q1 + 1) * d + (e - 1) * d;
    if q1 + e >= BASE { MulLe(BASE, q1 + e, d); }
    NoWrap(q1 + e);
  }

  /** `udivrem_3by2`: exact quotient digit and two-word remainder, at most two corrections. */
  method Udivrem3by2(u2: word, u1: word, u0: word, d: U128, v: word) returns (quot: word, rem: U128)
    requires IsReciprocal3by2(d.Nat(), v) && u2 * BASE + u1 < d.Nat()
    ensures u2 * BASE2 + u1 * BASE + u0 == quot * d.Nat() + rem.Nat() && rem.Nat() < d.Nat()
  {
    var q := Candidate3by2(u2, u1, d.Nat(), v);
    ghost var r := u2 * BASE2 + u1 * BASE + u0 - (q.hi + 1) * d.Nat();
    CandidateWindow3by2(u2, u1, u0, d.Nat(), v, q.hi, q.lo);
    var r1 := Wrap(u1 - Wrap(q.hi * d.hi));
    var t := Umul(d.lo, q.hi);
    var s := Sub128(U128(u0, r1), t);
    var candidate := Sub128(s, d);
    WrappedRemainder3by2(u1, u0, d, q.hi, r1, t.Nat(), s.Nat(), 0 - u2 - (if r < 0 then 1 else 0),
                         if r < 0 then r + BASE2 else r);
    quot, rem := Correct3by2(q.hi, q.lo, candidate, d, r);
    CorrectedQuotient3by2(u2, u1, u0, d.Nat(), q.hi, r, quot, rem.Nat());
  }
}
