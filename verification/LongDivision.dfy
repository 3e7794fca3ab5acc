/** In-place long division of normalized numbers: by one word, by two words, and by Knuth's algorithm. */
module LongDivision {
  import opened Arith
  import opened Words
  import opened Limbs
  import opened Multiplication
  import opened DivisionPrimitives
  import opened Reciprocal
  import opened Shifts

  lemma {:induction false} DigitSum(top: int, quot: int, quot': int, d: int, rem: int, w: int, q: int, r: int)
    requires top == quot * d + rem && BASE * rem + w == q * d + r && quot' == q + BASE * quot
    ensures w + BASE * top == quot' * d + r
  {
    assert (q + BASE * quot) * d == q * d + BASE * (quot * d);
  }

  /** One more quotient digit: the next word joins the running remainder and is divided again. */
  lemma {:induction false} DigitStep(was: seq<word>, quot: seq<word>, d: nat, rem: int, w: word, q: word, r: int)
    requires Val(was) == Val(quot) * d + rem && BASE * rem + w == q * d + r
    ensures Val([w] + was) == Val([q] + quot) * d + r
  {
    hide Val;
    ValCons(w, was);
    ValCons(q, quot);
    DigitSum(Val(was), Val(quot), Val([q] + quot), d, rem, w, q, r);
  }

  method DivideWord(w: word, rem: word, d: word, reciprocal: word) returns (q: word, r: word)
    requires IsReciprocal2by1(d, reciprocal) && rem < d
    ensures BASE * rem + w == q * d + r && r < d
  {
    q, r := Udivrem2by1(U128(w, rem), d, reciprocal);
  }

  /** `udivrem_by1`: the words of u become the quotient; the remainder is returned. */
  method UdivremBy1(u: array<word>, len: nat, d: word) returns (rem: word)
    requires 2 <= len <= u.Length && HALF <= d && u[len - 1] < d
    modifies u
    ensures old(Val(u[..len])) == Val(u[..len]) * d + rem && rem < d
    ensures u[len - 1] == 0 && u[len..] == old(u[len..])
  {
    hide Val, IsReciprocal2by1, U128.Nat;
    var reciprocal := Reciprocal2by1(d);
    rem := u[len - 1];
    u[len - 1] := 0;
    var j := len - 1;
    ghost var was, quot: seq<word> := [rem], [0];
    ValOne(rem);
    ValOne(0);
    while j > 0
      invariant 0 <= j < len && rem < d && u[..j] == old(u[..j]) && u[len..] == old(u[len..])
      invariant u[len - 1] == 0 && u[j..len] == quot && old(u[j..len]) == was
      invariant Val(was) == Val(quot) * d + rem
    {
      j := j - 1;
      assert u[j] == old(u[j]) by { assert u[j] == u[..j + 1][j]; }
      var w := u[j];
      var q, r := DivideWord(w, rem, d, reciprocal);
      DigitStep(was, quot, d, rem, w, q, r);
      was, quot := [w] + was, [q] + quot;
      u[j] := q;
      rem := r;
    }
    assert u[..len] == quot && old(u[..len]) == was;
  }

  method DivideTwoWords(w: word, rem: U128, d: U128, reciprocal: word) returns (q: word, r: U128)
    requires IsReciprocal3by2(d.Nat(), reciprocal) && rem.Nat() < d.Nat()
    ensures BASE * rem.Nat() + w == q * d.Nat() + r.Nat() && r.Nat() < d.Nat()
  {
    q, r := Udivrem3by2(rem.hi, rem.lo, w, d, reciprocal);
  }

  lemma {:induction false} ZeroNat()
    ensures U128(0, 0).Nat() == 0
  {}

  lemma {:induction false} TwoWords(s: seq<word>, x: U128)
    requires s == [x.lo, x.hi]
    ensures Val(s) == x.Nat()
  {
    ValCons(x.lo, [x.hi]);
    assert s == [x.lo] + [x.hi];
    ValOne(x.hi);
  }

  /** `udivrem_by2`: the same for a normalized two-word divisor. */
  method UdivremBy2(u: array<word>, len: nat, d: U128) returns (rem: U128)
    requires 3 <= len <= u.Length && HALF <= d.hi && U128(u[len - 2], u[len - 1]).Nat() < d.Nat()
    modifies u
    ensures old(Val(u[..len])) == Val(u[..len]) * d.Nat() + rem.Nat() && rem.Nat() < d.Nat()
    ensures u[len - 1] == 0 && u[len..] == old(u[len..])
  {
    hide Val, IsReciprocal3by2, U128.Nat;
    var reciprocal := Reciprocal3by2(d);
    rem := U128(u[len - 2], u[len - 1]);
    u[len - 1], u[len - 2] := 0, 0;
    var j := len - 2;
    ghost var was, quot: seq<word> := [rem.lo, rem.hi], [0, 0];
    TwoWords(was, rem);
    TwoWords(quot, U128(0, 0));
    ZeroNat();
    while j > 0
      invariant 0 <= j < len - 1 && rem.Nat() < d.Nat() && u[..j] == old(u[..j]) && u[len..] == old(u[len..])
      invariant u[len - 1] == 0 && u[j..len] == quot && old(u[j..len]) == was
      invariant Val(was) == Val(quot) * d.Nat() + rem.Nat()
    {
      j := j - 1;
      assert u[j] == old(u[j]) by { assert u[j] == u[..j + 1][j]; }
      var w := u[j];
      var q, r := DivideTwoWords(w, rem, d, reciprocal);
      DigitStep(was, quot, d.Nat(), rem.Nat(), w, q, r.Nat());
      was, quot := [w] + was, [q] + quot;
      u[j] := q;
      rem := r;
    }
    assert u[..len] == quot && old(u[..len]) == was;
  }

  // ---------------------------------------------------------------------------------------------
  // Helpers of the general algorithm
  // ---------------------------------------------------------------------------------------------

  /** One word of x - multiplier * y: the borrow stays below 2^64. */
  method SubMulWord(x: word, y: word, multiplier: word, borrow: word) returns (r: word, borrow': word)
    ensures r - BASE * borrow' == x - borrow - multiplier * y
  {
    var s := SubWithCarry(x, borrow, false);
    var p := Umul(y, multiplier);
    var t := SubWithCarry(s.value, p.lo, false);
    r := t.value;
    assert r - BASE * (p.hi + Bit(s.carry) + Bit(t.carry)) == x - borrow - y * multiplier;
    MulLe(y, BASE - 1, multiplier);
    borrow' := Wrap(p.hi + Bit(s.carry) + Bit(t.carry));
    NoWrap(p.hi + Bit(s.carry) + Bit(t.carry));
  }

  lemma {:induction false} SubMulStep(w: nat, r: int, b: int, b': int, x: int, m: int, y: int, t: int, xi: int, yi: int)
    requires r - w * b == x - m * y && t - BASE * b' == xi - b - m * yi
    ensures (r + w * t) - (BASE * w) * b' == (x + w * xi) - m * (y + w * yi)
  {
    MulEq(w, t - BASE * b', xi - b - m * yi);
    assert w * (t - BASE * b') == w * t - (BASE * w) * b';
    assert w * (xi - b - m * yi) == w * xi - w * b - m * (w * yi);
    assert m * (y + w * yi) == m * y + m * (w * yi);
  }

  /** `submul` as the division uses it: subtracts multiplier * y from u[j..j + len] in place. */
  method SubMul(u: array<word>, j: nat, y: seq<word>, len: nat, multiplier: word) returns (borrow: word)
    requires j + len <= u.Length && len <= |y|
    modifies u
    ensures Val(u[j..j + len]) - Pow(len) * borrow == old(Val(u[j..j + len])) - multiplier * Val(y[..len])
    ensures u[..j] == old(u[..j]) && u[j + len..] == old(u[j + len..])
  {
    borrow := 0;
    for i := 0 to len
      invariant Val(u[j..j + i]) - Pow(i) * borrow == old(Val(u[j..j + i])) - multiplier * Val(y[..i])
      invariant u[..j] == old(u[..j]) && u[j + i..] == old(u[j + i..])
    {
      ghost var done, was := u[j..j + i], old(u[j..j + i]);
      assert u[j + i] == old(u[j + i]) by { assert u[j + i] == u[j + i..][0]; }
      assert u[j + i + 1..] == u[j + i..][1..] && old(u[j + i + 1..]) == old(u[j + i..])[1..];
      var r, b := SubMulWord(u[j + i], y[i], multiplier, borrow);
      SubMulStep(Pow(i), Val(done), borrow, b, Val(was), multiplier, Val(y[..i]), r, u[j + i], y[i]);
      ValSnoc(y, i);
      ValPush(was, u[j + i]);
      assert old(u[j..j + i + 1]) == was + [u[j + i]];
      u[j + i] := r;
      borrow := b;
      ValPush(done, r);
      assert u[j..j + i + 1] == done + [r];
    }
  }

  /** `add` as the division uses it: adds y to u[j..j + len] in place. */
  method AddInto(u: array<word>, j: nat, y: seq<word>, len: nat) returns (carry: bool)
    requires j + len <= u.Length && len <= |y|
    modifies u
    ensures Val(u[j..j + len]) + Pow(len) * Bit(carry) == old(Val(u[j..j + len])) + Val(y[..len])
    ensures u[..j] == old(u[..j]) && u[j + len..] == old(u[j + len..])
  {
    carry := false;
    for i := 0 to len
      invariant Val(u[j..j + i]) + Pow(i) * Bit(carry) == old(Val(u[j..j + i])) + Val(y[..i])
      invariant u[..j] == old(u[..j]) && u[j + i..] == old(u[j + i..])
    {
      ghost var done, was := u[j..j + i], old(u[j..j + i]);
      assert u[j + i] == old(u[j + i]) by { assert u[j + i] == u[j + i..][0]; }
      assert u[j + i + 1..] == u[j + i..][1..] && old(u[j + i + 1..]) == old(u[j + i..])[1..];
      var s := AddWithCarry(u[j + i], y[i], carry);
      CarryStep(Pow(i), Val(done), s.value, Bit(s.carry), Val(was), u[j + i], Val(y[..i]), y[i], Bit(carry), 0);
      ValSnoc(y, i);
      ValPush(was, u[j + i]);
      assert old(u[j..j + i + 1]) == was + [u[j + i]];
      u[j + i] := s.value;
      carry := s.carry;
      ValPush(done, s.value);
      assert u[j..j + i + 1] == done + [s.value];
    }
  }

  // ---------------------------------------------------------------------------------------------
  // Knuth's algorithm
  // ---------------------------------------------------------------------------------------------

  lemma {:induction false} PowTwo(n: nat)
    requires n >= 2
    ensures Pow(n) == BASE2 * Pow(n - 2) && Pow(n - 1) == BASE * Pow(n - 2)
  {}

  /** A number of n words by its low n - 2 words and its two top words. */
  lemma {:induction false} ValTopTwo(s: seq<word>)
    requires |s| >= 2
    ensures var l := |s| - 2; Val(s) == Val(s[..l]) + Pow(l) * U128(s[l], s[l + 1]).Nat()
  {
    var l := |s| - 2;
    ValSplit(s, l);
    assert s[l..] == [s[l], s[l + 1]];
    TwoWords(s[l..], U128(s[l], s[l + 1]));
  }

  /** When the top words equal the divisor's, the digit 2^64 - 1 is exact and nothing is left above. */
  lemma {:induction false} EqualTopDigit(u: int, d: int, dlow: int, w: int, divisor: int, rest: int)
    requires 0 < w && 0 <= dlow < w && BASE <= divisor && 0 <= rest
    requires d == dlow + w * divisor && u == rest + BASE * (w * divisor) && u < BASE * d
    ensures 0 <= u - (BASE - 1) * d < d
  {
    MulLe(BASE, divisor, w);
  }

  /** Without a borrow the estimated digit is exact. */
  lemma {:induction false} NoBorrowDigit(
    low: int, w: int, hi: int, rhat: int, overflow: int, divisor: int, d: int, dlow: int)
    requires 0 <= low < w && 0 <= dlow && d == dlow + w * divisor
    requires hi == rhat - overflow && rhat < divisor && 0 <= overflow && 0 <= hi
    ensures 0 <= low + w * hi < d
  {
    MulLe(hi + 1, divisor, w);
    MulNonneg(w, hi);
  }

  /** With a borrow the estimated digit is exactly one too large. */
  lemma {:induction false} BorrowDigit(u: int, d: int, q: int, ulow: int, dlow: int, w: int, rhat: int, divisor: int)
    requires 0 < w && 0 <= ulow && 0 <= dlow < w && 0 <= q < BASE && 0 <= rhat && BASE <= divisor
    requires d == dlow + w * divisor && u - q * d == ulow - q * dlow + w * rhat && u - q * d < 0
    ensures 1 <= q && 0 <= u - (q - 1) * d < d
  {
    MulLe(q, BASE, dlow);
    MulNonneg(w, rhat);
    MulLe(BASE, divisor, w);
    assert (q - 1) * d == q * d - d;
    assert q == 0 ==> q * dlow == 0;
  }

  /** The estimate divides the three top words; the low words are subtracted separately. */
  lemma {:induction false} EstimateIdentity(ulow: int, w: int, u3: int, q: int, dlow: int, divisor: int, rhat: int)
    requires u3 == q * divisor + rhat
    ensures (ulow + w * u3) - q * (dlow + w * divisor) == ulow - q * dlow + w * rhat
  {
    MulEq(w, u3, q * divisor + rhat);
    assert w * (q * divisor + rhat) == q * (w * divisor) + w * rhat;
    assert q * (dlow + w * divisor) == q * dlow + q * (w * divisor);
  }

  lemma {:induction false} AddBackSum(
    w: int, low': int, carry: int, low: int, dlow: int, top': int, top: int, dtop: int, e: int)
    requires low' + w * carry == low + dlow && top' + BASE * e == top + dtop + carry
    ensures low' + w * top' == (low + w * top) + (dlow + w * dtop) - (BASE * w) * e
  {
    MulEq(w, top' + BASE * e, top + dtop + carry);
    assert w * (top' + BASE * e) == w * top' + (BASE * w) * e;
    assert w * (top + dtop + carry) == w * top + w * dtop + w * carry;
  }

  /** Adding the divisor back into its n words, dropping the carry out of the top. */
  method AddBack(u: array<word>, j: nat, d: seq<word>, n: nat) returns (ghost e: int)
    requires 2 <= n <= |d| && j + n <= u.Length
    modifies u
    ensures Val(u[j..j + n]) == old(Val(u[j..j + n])) + Val(d[..n]) - Pow(n) * e
    ensures u[..j] == old(u[..j]) && u[j + n..] == old(u[j + n..])
  {
    ghost var low, top := u[j..j + n - 1], u[j + n - 1];
    ValPush(low, top);
    assert u[j..j + n] == low + [top];
    var carry := AddInto(u, j, d, n - 1);
    assert u[j + n - 1] == top by { assert u[j + n - 1..][0] == top; }
    ghost var low' := u[j..j + n - 1];
    var t: int := u[j + n - 1];
    e := (t + d[n - 1] + Bit(carry)) / BASE;
    u[j + n - 1] := Wrap(t + d[n - 1] + Bit(carry));
    ghost var top' := u[j + n - 1];
    assert u[j..j + n] == low' + [top'];
    ValPush(low', top');
    ValSnoc(d, n - 1);
    AddBackSum(Pow(n - 1), Val(low'), Bit(carry), Val(low), Val(d[..n - 1]), top', top, d[n - 1], e);
    assert u[j + n..] == old(u[j + n..]) by { assert u[j + n..] == u[j + n - 1..][1..]; }
  }

  /** The divisor of the general algorithm: at least three words, the top bit set. */
  ghost predicate Divisor(d: seq<word>) {
    |d| >= 3 && HALF <= d[|d| - 1]
  }

  function TopTwo(d: seq<word>): U128
    requires |d| >= 2
  {
    U128(d[|d| - 2], d[|d| - 1])
  }

  lemma {:induction false} DivisorParts(d: seq<word>)
    requires Divisor(d)
    ensures Val(d) == Val(d[..|d| - 2]) + Pow(|d| - 2) * TopTwo(d).Nat() && Val(d[..|d| - 2]) < Pow(|d| - 2)
    ensures BASE2 / 2 <= TopTwo(d).Nat() < BASE2
  {
    ValTopTwo(d);
    ValBound(d[..|d| - 2]);
  }

  /** The window of one step: its low words, the word below the top two, and the top two. */
  lemma {:induction false} WindowParts(s: seq<word>)
    requires |s| >= 3
    ensures var l := |s| - 3;
            && Val(s) == Val(s[..l]) + Pow(l) * (s[l] + BASE * TopTwo(s).Nat()) && Val(s[..l]) < Pow(l)
  {
    hide Val, Pow;
    var l := |s| - 3;
    ValSplit(s, l);
    assert s[l..] == [s[l]] + [s[l + 1], s[l + 2]];
    ValCons(s[l], [s[l + 1], s[l + 2]]);
    TwoWords([s[l + 1], s[l + 2]], TopTwo(s));
    ValBound(s[..l]);
  }

  lemma {:induction false} TopCompare(x: int, w: int, a: int, y: int, b: int)
    requires 0 <= x && 0 <= y < w && x + w * a < y + w * b
    ensures a <= b
  {
    if a > b { MulLe(b + 1, a, w); }
  }

  /** The running remainder is below the divisor, so its top words are not above the divisor's. */
  lemma {:induction false} WindowBound(s: seq<word>, d: seq<word>)
    requires Divisor(d) && |s| == |d| + 1 && Val(s[1..]) < Val(d)
    ensures Val(s) < BASE * Val(d) && TopTwo(s).Nat() <= TopTwo(d).Nat()
  {
    hide Val, Pow;
    var l := |d| - 2;
    assert s == [s[0]] + s[1..];
    ValCons(s[0], s[1..]);
    ValTopTwo(s[1..]);
    DivisorParts(d);
    assert TopTwo(s) == U128(s[1..][l], s[1..][l + 1]);
    TopCompare(Val(s[1..][..l]), Pow(l), TopTwo(s).Nat(), Val(d[..l]), TopTwo(d).Nat());
  }

  /** Two representatives of one residue that both lie in [0, p) are equal. */
  lemma {:induction false} OnlyZero(a: int, b: int, p: int, m: int)
    requires 0 <= a < p && 0 <= b < p && a == b + p * m
    ensures m == 0 && a == b
  {
    if m >= 1 { MulLe(1, m, p); }
    if m <= -1 { MulLe(m, -1, p); }
  }

  lemma {:induction false} EqualTopClose(s: int, low: int, p: int, top: int, d: int, rest: int, borrow: int)
    requires s == low + p * top && 0 <= s - (BASE - 1) * d < d < p && 0 <= rest < p
    requires rest - p * borrow == low - (BASE - 1) * d
    ensures s == (BASE - 1) * d + rest && rest < d
  {
    assert p * (top - borrow) == p * top - p * borrow;
    OnlyZero(s - (BASE - 1) * d, rest, p, top - borrow);
  }

  lemma {:induction false} WindowExpand(w: nat, x: nat, t: nat)
    ensures w * (x + BASE * t) == w * x + BASE * (w * t) && 0 <= w * x
  {}

  lemma {:induction false} EqualTopWindow(s: seq<word>, d: seq<word>)
    requires Divisor(d) && |s| == |d| + 1 && Val(s[1..]) < Val(d) && TopTwo(s) == TopTwo(d)
    ensures 0 <= Val(s) - (BASE - 1) * Val(d) < Val(d)
  {
    hide Val, Pow, TopTwo;
    var l := |d| - 2;
    WindowParts(s);
    WindowBound(s, d);
    DivisorParts(d);
    WindowExpand(Pow(l), s[l], TopTwo(s).Nat());
    EqualTopDigit(Val(s), Val(d), Val(d[..l]), Pow(l), TopTwo(d).Nat(), Val(s[..l]) + Pow(l) * s[l]);
  }

  lemma {:induction false} EqualTopFinish(s: seq<word>, d: seq<word>, rest: seq<word>, borrow: int)
    requires Divisor(d) && |s| == |d| + 1 == |rest| + 1 && Val(s[1..]) < Val(d) && TopTwo(s) == TopTwo(d)
    requires Val(rest) - Pow(|d|) * borrow == Val(s[..|d|]) - (BASE - 1) * Val(d)
    ensures Val(s) == (BASE - 1) * Val(d) + Val(rest) && Val(rest) < Val(d)
  {
    hide Val, Pow, Divisor, TopTwo;
    var n := |d|;
    assert s == s[..n] + [s[n]];
    ValPush(s[..n], s[n]);
    EqualTopWindow(s, d);
    ValBound(d);
    ValBound(rest);
    EqualTopClose(Val(s), Val(s[..n]), Pow(n), s[n], Val(d), Val(rest), borrow);
  }

  /** The branch where the division of the top words would overflow. */
  method EqualTopStep(u: array<word>, j: nat, d: seq<word>) returns (qhat: word)
    requires Divisor(d) && j + |d| < u.Length && Val(u[j + 1..j + |d| + 1]) < Val(d)
    requires U128(u[j + |d| - 1], u[j + |d|]) == TopTwo(d)
    modifies u
    ensures old(Val(u[j..j + |d| + 1])) == qhat * Val(d) + Val(u[j..j + |d|]) && Val(u[j..j + |d|]) < Val(d)
    ensures u[..j] == old(u[..j]) && u[j + |d| + 1..] == old(u[j + |d| + 1..])
  {
    hide Val, Pow, Divisor;
    var n := |d|;
    ghost var s := u[j..j + n + 1];
    assert s[1..] == u[j + 1..j + n + 1];
    var u2: int := u[j + n];
    qhat := BASE - 1;
    assert u[j..j + n] == s[..n];
    var borrow := SubMul(u, j, d, n, qhat);
    assert d[..n] == d;
    ghost var rest := u[j..j + n];
    assert u[j + n + 1..] == u[j + n..][1..] && old(u[j + n + 1..]) == old(u[j + n..])[1..];
    u[j + n] := Wrap(u2 - borrow);
    assert u[j..j + n] == rest;
    EqualTopFinish(s, d, rest, borrow);
  }

  lemma {:induction false} HighDifference(w: int, low: int, hi: int, c: int, overflow: int, rhat: int, x: int)
    requires hi - BASE2 * c == rhat - overflow && low - w * overflow == x
    ensures (low + w * hi) - (BASE2 * w) * c == x + w * rhat
  {
    MulEq(w, hi - BASE2 * c, rhat - overflow);
    assert w * (hi - BASE2 * c) == w * hi - (BASE2 * w) * c;
    assert w * (rhat - overflow) == w * rhat - w * overflow;
  }

  method SubOverflow(rhat: U128, overflow: word) returns (hi: U128, carry: bool)
    ensures hi.Nat() - BASE2 * Bit(carry) == rhat.Nat() - overflow
  {
    var s0 := SubWithCarry(rhat.lo, overflow, false);
    var s1 := SubWithCarry(rhat.hi, Bit(s0.carry), false);
    hi, carry := U128(s0.value, s1.value), s1.carry;
  }

  lemma {:induction false} SubtractedValue(
    t: seq<word>, low: seq<word>, hi: U128, d: seq<word>, rhat: nat, overflow: word, carry: bool, x: int)
    requires Divisor(d) && |t| == |d| && t == low + [hi.lo, hi.hi] && rhat < TopTwo(d).Nat()
    requires hi.Nat() - BASE2 * Bit(carry) == rhat - overflow && Val(low) - Pow(|low|) * overflow == x
    ensures Val(t) - Pow(|d|) * Bit(carry) == x + Pow(|d| - 2) * rhat
    ensures !carry ==> Val(t) < Val(d)
  {
    hide Val, Pow;
    var l := |d| - 2;
    assert t[..l] == low && TopTwo(t) == hi;
    ValTopTwo(t);
    PowTwo(|d|);
    ValBound(low);
    DivisorParts(d);
    HighDifference(Pow(l), Val(low), hi.Nat(), Bit(carry), overflow, rhat, x);
    if !carry {
      NoBorrowDigit(Val(low), Pow(l), hi.Nat(), rhat, overflow, TopTwo(d).Nat(), Val(d), Val(d[..l]));
    }
  }

  /** Subtracts the estimate: the low words by `submul`, the top two from the estimated remainder. */
  method SubtractEstimate(u: array<word>, j: nat, d: seq<word>, qhat: word, rhat: U128) returns (carry: bool)
    requires Divisor(d) && j + |d| < u.Length && rhat.Nat() < TopTwo(d).Nat()
    modifies u
    ensures Val(u[j..j + |d|]) - Pow(|d|) * Bit(carry)
         == old(Val(u[j..j + |d| - 2])) - qhat * Val(d[..|d| - 2]) + Pow(|d| - 2) * rhat.Nat()
    ensures !carry ==> Val(u[j..j + |d|]) < Val(d)
    ensures u[..j] == old(u[..j]) && u[j + |d|..] == old(u[j + |d|..])
  {
    hide Val, Pow, TopTwo, U128.Nat;
    var n, l := |d|, |d| - 2;
    var overflow := SubMul(u, j, d, l, qhat);
    ghost var low := u[j..j + l];
    assert u[j + n..] == u[j + l..][2..] && old(u[j + n..]) == old(u[j + l..])[2..];
    var hi, c := SubOverflow(rhat, overflow);
    u[j + n - 2], u[j + n - 1] := hi.lo, hi.hi;
    carry := c;
    assert u[j..j + n] == low + [hi.lo, hi.hi];
    SubtractedValue(u[j..j + n], low, hi, d, rhat.Nat(), overflow, carry, old(Val(u[j..j + l])) - qhat * Val(d[..l]));
  }

  /** The estimated digit: exact without a borrow, one too large with one. */
  lemma {:induction false} EstimateOutcome(s: seq<word>, d: seq<word>, q: word, rhat: nat, t: int, carry: bool)
    requires Divisor(d) && |s| == |d| + 1
    requires s[|d| - 2] + BASE * TopTwo(s).Nat() == q * TopTwo(d).Nat() + rhat
    requires t - Pow(|d|) * Bit(carry) == Val(s[..|d| - 2]) - q * Val(d[..|d| - 2]) + Pow(|d| - 2) * rhat
    requires 0 <= t < Pow(|d|)
    ensures Val(s) - q * Val(d) == t - Pow(|d|) * Bit(carry)
    ensures carry ==> 1 <= q && 0 <= Val(s) - (q - 1) * Val(d) < Val(d)
  {
    hide Val, Pow, TopTwo, U128.Nat;
    var l := |d| - 2;
    var u3 := s[l] + BASE * TopTwo(s).Nat();
    WindowParts(s);
    DivisorParts(d);
    EstimateIdentity(Val(s[..l]), Pow(l), u3, q, Val(d[..l]), TopTwo(d).Nat(), rhat);
    MulEq(q, Val(d), Val(d[..l]) + Pow(l) * TopTwo(d).Nat());
    if carry {
      BorrowDigit(Val(s), Val(d), q, Val(s[..l]), Val(d[..l]), Pow(l), rhat, TopTwo(d).Nat());
    }
  }

  /** After adding the divisor back the window holds the exact remainder. */
  lemma {:induction false} AddedBack(s: int, d: int, q: int, t: int, p: int, t': int, e: int)
    requires s - q * d == t - p && 0 <= s - (q - 1) * d < d < p && t' == t + d - p * e && 0 <= t' < p
    ensures s == (q - 1) * d + t' && t' < d
  {
    assert (q - 1) * d == q * d - d;
    assert p * (e - 1) == p * e - p;
    OnlyZero(s - (q - 1) * d, t', p, e - 1);
  }

  function Decremented(q: word): (r: word)
    ensures 1 <= q ==> r == q - 1
  {
    Wrap(q - 1)
  }

  lemma {:induction false} DifferentTops(x: U128, y: U128)
    requires x.Nat() <= y.Nat() && x != y
    ensures x.Nat() < y.Nat()
  {}

  /** The digit and remainder of the three top words by the two top words of the divisor. */
  method Estimate(u2: word, u1: word, u0: word, d: seq<word>, reciprocal: word, ghost s: seq<word>)
    returns (q: word, rhat: U128)
    requires Divisor(d) && |s| == |d| + 1 && Val(s[1..]) < Val(d) && s[|d| - 2] == u0
    requires TopTwo(s) == U128(u1, u2) && TopTwo(s) != TopTwo(d) && IsReciprocal3by2(TopTwo(d).Nat(), reciprocal)
    ensures u0 + BASE * TopTwo(s).Nat() == q * TopTwo(d).Nat() + rhat.Nat() && rhat.Nat() < TopTwo(d).Nat()
  {
    WindowBound(s, d);
    DifferentTops(TopTwo(s), TopTwo(d));
    q, rhat := Udivrem3by2(u2, u1, u0, TopTwo(d), reciprocal);
  }

  /** The branch that estimates the digit from the three top words. */
  method EstimatedStep(u: array<word>, j: nat, d: seq<word>, reciprocal: word) returns (qhat: word)
    requires Divisor(d) && j + |d| < u.Length && Val(u[j + 1..j + |d| + 1]) < Val(d)
    requires U128(u[j + |d| - 1], u[j + |d|]) != TopTwo(d) && IsReciprocal3by2(TopTwo(d).Nat(), reciprocal)
    modifies u
    ensures old(Val(u[j..j + |d| + 1])) == qhat * Val(d) + Val(u[j..j + |d|]) && Val(u[j..j + |d|]) < Val(d)
    ensures u[..j] == old(u[..j]) && u[j + |d| + 1..] == old(u[j + |d| + 1..])
  {
    hide Val, Pow, U128.Nat, IsReciprocal3by2, Wrap;
    var n, l := |d|, |d| - 2;
    ghost var s := u[j..j + n + 1];
    assert s[1..] == u[j + 1..j + n + 1] && s[..l] == u[j..j + l];
    assert TopTwo(s) == U128(u[j + n - 1], u[j + n]);
    var q, rhat := Estimate(u[j + n], u[j + n - 1], u[j + n - 2], d, reciprocal, s);
    qhat := q;
    var carry := SubtractEstimate(u, j, d, qhat, rhat);
    ghost var t := u[j..j + n];
    ValBound(t);
    EstimateOutcome(s, d, q, rhat.Nat(), Val(t), carry);
    if carry {
      qhat := Decremented(qhat);
      ghost var e := AddBack(u, j, d, n);
      ValBound(u[j..j + n]);
      ValBound(d);
      assert d[..n] == d;
      AddedBack(Val(s), Val(d), q, Val(t), Pow(n), Val(u[j..j + n]), e);
    }
    assert u[j + n + 1..] == u[j + n..][1..] && old(u[j + n + 1..]) == old(u[j + n..])[1..];
  }

  /** One digit of Knuth's algorithm. */
  method KnuthStep(u: array<word>, j: nat, d: seq<word>, reciprocal: word) returns (qhat: word)
    requires Divisor(d) && j + |d| < u.Length && Val(u[j + 1..j + |d| + 1]) < Val(d)
    requires IsReciprocal3by2(TopTwo(d).Nat(), reciprocal)
    modifies u
    ensures old(Val(u[j..j + |d| + 1])) == qhat * Val(d) + Val(u[j..j + |d|]) && Val(u[j..j + |d|]) < Val(d)
    ensures u[..j] == old(u[..j]) && u[j + |d| + 1..] == old(u[j + |d| + 1..])
  {
    if U128(u[j + |d| - 1], u[j + |d|]) == TopTwo(d) {
      qhat := EqualTopStep(u, j, d);
    } else {
      qhat := EstimatedStep(u, j, d, reciprocal);
    }
  }

  /** One iteration seen from the start: one more numerator word and one more digit. */
  method KnuthIteration(
    u: array<word>, j: nat, d: seq<word>, reciprocal: word, ghost was: seq<word>, ghost quot: seq<word>)
    returns (qhat: word)
    requires Divisor(d) && j + |d| < u.Length && IsReciprocal3by2(TopTwo(d).Nat(), reciprocal)
    requires |was| > 0 && was[0] == u[j] && Val(u[j + 1..j + 1 + |d|]) < Val(d)
    requires Val(was[1..]) == Val(quot) * Val(d) + Val(u[j + 1..j + 1 + |d|])
    modifies u
    ensures Val(was) == Val([qhat] + quot) * Val(d) + Val(u[j..j + |d|]) && Val(u[j..j + |d|]) < Val(d)
    ensures u[..j] == old(u[..j])
  {
    hide *;
    ghost var rem, w := u[j + 1..j + 1 + |d|], u[j];
    assert u[j..j + |d| + 1] == [w] + rem && was == [w] + was[1..];
    ValCons(w, rem);
    qhat := KnuthStep(u, j, d, reciprocal);
    DigitStep(was[1..], quot, Val(d), Val(rem), w, qhat, Val(u[j..j + |d|]));
  }

  lemma {:induction false} FirstWord(u0: seq<word>, now: seq<word>, j: nat, k: nat)
    requires j < k <= |u0| && now == u0[..j + 1]
    ensures now[j] == u0[j..k][0] && u0[j..k][1..] == u0[j + 1..k] && u0[..j] == now[..j]
  {}

  /** `udivrem_knuth`: q receives the quotient digits, the low words of u the remainder. */
  method UdivremKnuth(q: array<word>, u: array<word>, ulen: nat, d: seq<word>)
    requires Divisor(d) && |d| <= ulen <= u.Length && ulen - |d| <= q.Length && q != u
    requires Val(u[ulen - |d|..ulen]) < Val(d)
    modifies q, u
    ensures old(Val(u[..ulen])) == Val(q[..ulen - |d|]) * Val(d) + Val(u[..|d|]) && Val(u[..|d|]) < Val(d)
    ensures q[ulen - |d|..] == old(q[ulen - |d|..])
  {
    hide Val, Pow, U128.Nat, IsReciprocal3by2;
    var n, k := |d|, ulen - |d|;
    var reciprocal := Reciprocal3by2(TopTwo(d));
    ValEmpty();
    ghost var u0, q0 := u[..], q[..];
    var j := k;
    ghost var quot: seq<word> := [];
    while j > 0
      invariant 0 <= j <= k && u[..j] == u0[..j] && q[k..] == q0[k..] && q[j..k] == quot
      invariant Val(u0[j..ulen]) == Val(quot) * Val(d) + Val(u[j..j + n]) && Val(u[j..j + n]) < Val(d)
    {
      j := j - 1;
      FirstWord(u0, u[..j + 1], j, ulen);
      var qhat := KnuthIteration(u, j, d, reciprocal, u0[j..ulen], quot);
      q[j] := qhat;
      quot := [qhat] + quot;
    }
    assert u[0..n] == u[..n] && u0[0..ulen] == old(u[..ulen]) && q[0..k] == q[..k];
  }
}
