/** Whole-number shifts and square-and-multiply exponentiation. */
module Shifts {
  import opened Arith
  import opened Words
  import opened Limbs
  import opened Multiplication

  lemma {:induction false} SplitAt(x: word, a: nat, b: nat)
    requires 0 < a && 0 < b && a * b == BASE
    ensures Wrap(x * a) == (x % b) * a && x * a == Wrap(x * a) + BASE * (x / b) && x / b < a
  {
    var q, r := x / b, x % b;
    assert x == q * b + r;
    assert x * a == q * (a * b) + r * a by { assert (q * b + r) * a == q * (a * b) + r * a; }
    MulLt(r, b, a);
    MulNonneg(r, a);
    assert q * (a * b) == BASE * q;
    WrapIs(x * a, q, r * a);
    if q >= a { MulLe(a, q, b); }
  }

  /** A left shift splits a word into what stays and what moves into the next word. */
  lemma {:induction false} ShlSplit(x: word, s: nat)
    requires s < 64
    ensures Pow2(s) * Pow2(64 - s) == BASE
    ensures Wrap(x * Pow2(s)) == (x % Pow2(64 - s)) * Pow2(s)
    ensures x * Pow2(s) == Wrap(x * Pow2(s)) + BASE * (x / Pow2(64 - s))
    ensures x / Pow2(64 - s) < Pow2(s)
  {
    Pow2At64();
    Pow2Add(s, 64 - s);
    SplitAt(x, Pow2(s), Pow2(64 - s));
  }

  lemma {:induction false} HalfOfQuotient(x: nat, d: nat)
    requires 0 < d
    ensures x / d / 2 == x / (2 * d)
  {
    var q := x / d;
    assert x == q * d + x % d;
    var h, b := q / 2, q % 2;
    assert q * d == h * (2 * d) + b * d by { assert (2 * h + b) * d == h * (2 * d) + b * d; }
    MulLe(b, 1, d);
    MulNonneg(b, d);
    DivModUnique(x, 2 * d, h, b * d + x % d);
  }

  /** Shifting right in two steps, so that a shift by 64 is never written. */
  lemma {:induction false} ShrTwice(x: nat, s: nat)
    requires s < 64
    ensures x / Pow2(63 - s) / 2 == x / Pow2(64 - s)
  {
    HalfOfQuotient(x, Pow2(63 - s));
  }

  /** Or-ing the carried bits into a shifted word adds them. */
  lemma {:induction false} JoinShl(y: nat, b: nat, s: nat, c: nat)
    requires y < b && b * Pow2(s) == BASE && c < Pow2(s)
    ensures Or(y * Pow2(s), c) == y * Pow2(s) + c < BASE
  {
    OrDisjoint(y, c, s);
    MulLe(y, b - 1, Pow2(s));
    assert (b - 1) * Pow2(s) == b * Pow2(s) - Pow2(s);
  }

  /** One word of a left shift by s bits: k comes in from the word below, k' goes to the word above. */
  method ShlWord(x: word, s: nat, k: nat) returns (t: word, k': nat)
    requires s < 64 && k < Pow2(s)
    ensures t + BASE * k' == x * Pow2(s) + k && k' < Pow2(s) && k' == x / Pow2(64 - s)
  {
    hide *;
    ShlSplit(x, s);
    JoinShl(x % Pow2(64 - s), Pow2(64 - s), s, k);
    t := Or(Wrap(x * Pow2(s)), k);
    k' := x / Pow2(63 - s) / 2;
    ShrTwice(x, s);
  }

  lemma {:induction false} ShlStep(w: nat, r: int, k: int, k': int, x: int, p: int, t: int, xi: int)
    requires r + w * k == x * p && t + BASE * k' == xi * p + k
    ensures (r + w * t) + (BASE * w) * k' == (x + w * xi) * p
  {
    assert w * (t + BASE * k') == w * (xi * p + k) == w * (xi * p) + w * k;
    assert w * (t + BASE * k') == w * t + (BASE * w) * k';
    assert (x + w * xi) * p == x * p + w * (xi * p);
  }

  /** The word loop of the left shift: the low words of x shifted by less than a word. */
  method ShlWords(x: seq<word>, len: nat, s: nat) returns (r: seq<word>, ghost carry: nat)
    requires len <= |x| && s < 64
    ensures |r| == len && carry < Pow2(s) && Val(r) + Pow(len) * carry == Val(x[..len]) * Pow2(s)
  {
    hide Val, Pow, Pow2;
    r := [];
    var k: nat := 0;
    PowZero();
    ValEmpty();
    assert x[..0] == [];
    for i := 0 to len
      invariant |r| == i && k < Pow2(s) && Val(r) + Pow(i) * k == Val(x[..i]) * Pow2(s)
    {
      var t, k' := ShlWord(x[i], s, k);
      ValSnoc(x, i);
      ValPush(r, t);
      PowStep(i + 1);
      ShlStep(Pow(i), Val(r), k, k', Val(x[..i]), Pow2(s), t, x[i]);
      r, k := r + [t], k';
    }
    carry := k;
  }

  lemma {:induction false} MultipleIsZero(x: nat, m: nat, q: nat)
    requires 0 < m
    ensures x * (m * q) % m == 0
  {
    assert x * (m * q) == (x * q) * m;
    DivModUnique(x * (m * q), m, x * q, 0);
  }

  lemma {:induction false} ShiftedMultiple(
    low: nat, w: nat, v: nat, p: nat, carry: nat, xl: nat, xh: nat, x: nat, wp: nat)
    requires 0 < w && 0 < v && low + v * carry == xl * p && x == xl + v * xh && wp == w * p && w * low < w * v
    ensures w * low == x * wp % (w * v)
  {
    assert x * wp == w * (xl * p) + (w * v) * (xh * p) by {
      assert (xl + v * xh) * (w * p) == w * (xl * p) + (w * v) * (xh * p);
    }
    assert w * (low + v * carry) == w * low + (w * v) * carry;
    var m := xh * p + carry;
    assert x * wp == m * (w * v) + w * low by { assert m * (w * v) == (w * v) * (xh * p) + (w * v) * carry; }
    DivModUnique(x * wp, w * v, m, w * low);
  }

  /** `operator<<`: the product with a power of two, modulo the width. */
  method ShiftLeft(x: seq<word>, shift: nat) returns (r: seq<word>)
    ensures |r| == |x| && Val(r) == Val(x) * Pow2(shift) % Pow(|x|)
  {
    var n := |x|;
    if shift >= 64 * n {
      r := Zeros(n);
      ValZeros(r);
      PowIsPow2(n);
      Pow2Add(64 * n, shift - 64 * n);
      MultipleIsZero(Val(x), Pow(n), Pow2(shift - 64 * n));
      return;
    }
    var s, skip := shift % 64, shift / 64;
    ghost var carry;
    r, carry := ShlWords(x, n - skip, s);
    ghost var low := r;
    r := Zeros(skip) + r;
    ValZeros(Zeros(skip));
    ValConcat(Zeros(skip), low);
    ValSplit(x, n - skip);
    PowAdd(skip, n - skip);
    PowIsPow2(skip);
    Pow2Add(64 * skip, s);
    ValBound(r);
    ShiftedMultiple(Val(low), Pow(skip), Pow(n - skip), Pow2(s), carry, Val(x[..n - skip]), Val(x[n - skip..]), Val(x),
        Pow2(shift));
  }

  // ---------------------------------------------------------------------------------------------
  // Right shift
  // ---------------------------------------------------------------------------------------------

  lemma {:induction false} OrComm(x: nat, y: nat)
    ensures Or(x, y) == Or(y, x)
    decreases x
  {
    if x > 0 && y > 0 { OrComm(x / 2, y / 2); }
  }

  lemma {:induction false} WrapTwice(a: nat)
    ensures Wrap(Wrap(a) * 2) == Wrap(a * 2)
  {
    var q, r := a / BASE, Wrap(a);
    WrapIs(a * 2, 2 * q + (if r < HALF then 0 else 1), if r < HALF then 2 * r else 2 * r - BASE);
    WrapIs(r * 2, if r < HALF then 0 else 1, if r < HALF then 2 * r else 2 * r - BASE);
  }

  lemma {:induction false} TwiceProduct(x: int, p: int)
    ensures (x * p) * 2 == x * (2 * p)
  {}

  lemma {:induction false} DroppedBits(x: word, a: nat, b: nat, p: nat)
    requires 0 < a && 0 < b && b * a == BASE && a == 2 * p
    ensures Wrap(Wrap(x * p) * 2) == (x % b) * a && x / b < a
  {
    hide *;
    SplitAt(x, a, b);
    WrapTwice(x * p);
    TwiceProduct(x, p);
  }

  method ShrDivide(x: word, a: nat, ghost b: nat, p: nat) returns (lo: nat, k: word, ghost rem: nat)
    requires 0 < a && 0 < b && a * b == BASE && b == 2 * p
    ensures x == a * lo + rem && rem < a && lo < b && k == rem * b
  {
    hide *;
    DroppedBits(x, b, a, p);
    lo, rem := x / a, x % a;
    k := Wrap(Wrap(x * p) * 2);
  }

  /** The bits kept by a right shift, and the bits dropped moved to the top of a word. */
  method ShrSplit(x: word, s: nat) returns (lo: nat, k: word, ghost rem: nat)
    requires s < 64
    ensures x == Pow2(s) * lo + rem && rem < Pow2(s) && lo < Pow2(64 - s)
    ensures k == rem * Pow2(64 - s) && Pow2(s) * Pow2(64 - s) == BASE
  {
    Pow2At64();
    assert Pow2(64 - s) == 2 * Pow2(63 - s);
    Pow2Add(s, 64 - s);
    hide *;
    lo, k, rem := ShrDivide(x, Pow2(s), Pow2(64 - s), Pow2(63 - s));
  }

  lemma {:induction false} ShrSum(lo: nat, a: nat, b: nat, rem: nat, t: nat)
    requires a * b == BASE && t == rem * b + lo
    ensures a * t == a * lo + BASE * rem
  {
    assert a * (rem * b + lo) == rem * (a * b) + a * lo;
    assert rem * (a * b) == BASE * rem;
  }

  /** One word of a right shift by s bits: k carries the bits rem that fell out of the word above. */
  method ShrWord(x: word, s: nat, k: word, ghost rem: nat) returns (t: word, k': word, ghost rem': nat)
    requires s < 64 && rem < Pow2(s) && k == rem * Pow2(64 - s)
    ensures Pow2(s) * t + rem' == x + BASE * rem
    ensures rem' < Pow2(s) && k' == rem' * Pow2(64 - s)
  {
    hide *;
    var lo;
    lo, k', rem' := ShrSplit(x, s);
    JoinShl(rem, Pow2(s), 64 - s, lo);
    OrComm(lo, k);
    t := Or(lo, k);
    ShrSum(lo, Pow2(s), Pow2(64 - s), rem, t);
  }

  lemma {:induction false} ShrStep(p: nat, r: int, t: int, x: int, xi: int, rem: int, rem': int)
    requires x == p * r + rem && p * t + rem' == xi + BASE * rem
    ensures xi + BASE * x == p * (t + BASE * r) + rem'
  {
    assert p * (t + BASE * r) == p * t + BASE * (p * r);
  }

  /** The word loop of the right shift, from the top word down. */
  method ShrWords(x: seq<word>, s: nat) returns (r: seq<word>, ghost rem: nat)
    requires s < 64
    ensures |r| == |x| && rem < Pow2(s) && Val(x) == Pow2(s) * Val(r) + rem
  {
    r, rem := [], 0;
    var k: word := 0;
    var i := |x|;
    while i > 0
      invariant 0 <= i <= |x| && |r| == |x| - i && rem < Pow2(s) && k == rem * Pow2(64 - s)
      invariant Val(x[i..]) == Pow2(s) * Val(r) + rem
    {
      i := i - 1;
      var t, k';
      ghost var rem';
      t, k', rem' := ShrWord(x[i], s, k, rem);
      ValCons(x[i], x[i + 1..]);
      assert x[i..] == [x[i]] + x[i + 1..];
      ValCons(t, r);
      ShrStep(Pow2(s), Val(r), t, Val(x[i + 1..]), x[i], rem, rem');
      r, k, rem := [t] + r, k', rem';
    }
    assert x[0..] == x;
  }

  lemma {:induction false} ShiftedQuotient(x: nat, low: nat, w: nat, high: nat, p: nat, q: nat, rem: nat, wp: nat)
    requires x == low + w * high && low < w && high == p * q + rem && rem < p && wp == w * p
    ensures x / wp == q
  {
    assert x == q * wp + (low + w * rem) by { assert w * (p * q + rem) == q * (w * p) + w * rem; }
    MulLe(rem, p - 1, w);
    MulNonneg(w, rem);
    assert w * (p - 1) == w * p - w;
    DivModUnique(x, wp, q, low + w * rem);
  }

  /** `operator>>`: the floor quotient by a power of two. */
  method ShiftRight(x: seq<word>, shift: nat) returns (r: seq<word>)
    ensures |r| == |x| && Val(r) == Val(x) / Pow2(shift)
  {
    var n := |x|;
    ValBound(x);
    if shift >= 64 * n {
      r := Zeros(n);
      ValZeros(r);
      PowIsPow2(n);
      Pow2Mono(64 * n, shift);
      DivModUnique(Val(x), Pow2(shift), 0, Val(x));
      return;
    }
    var s, skip := shift % 64, shift / 64;
    ghost var rem;
    r, rem := ShrWords(x[skip..], s);
    ghost var kept := r;
    r := r + Zeros(skip);
    ValZeros(Zeros(skip));
    ValConcat(kept, Zeros(skip));
    ValSplit(x, skip);
    ValBound(x[..skip]);
    PowIsPow2(skip);
    Pow2Add(64 * skip, s);
    ShiftedQuotient(Val(x), Val(x[..skip]), Pow(skip), Val(x[skip..]), Pow2(s), Val(kept), rem, Pow2(shift));
  }

  // ---------------------------------------------------------------------------------------------
  // Exponentiation
  // ---------------------------------------------------------------------------------------------

  function Power(b: nat, e: nat): nat {
    if e == 0 then 1 else b * Power(b, e - 1)
  }

  lemma {:induction false} ModMul(a: nat, b: nat, m: nat)
    requires 0 < m
    ensures (a % m) * b % m == a * b % m
  {
    assert a == (a / m) * m + a % m;
    assert a * b == (a % m) * b + ((a / m) * b) * m by {
      assert ((a / m) * m + a % m) * b == (a % m) * b + ((a / m) * b) * m;
    }
    ModShift((a % m) * b, (a / m) * b, m);
  }

  /** Reducing the base first does not change a power modulo m. */
  lemma {:induction false} PowerMod(b: nat, e: nat, m: nat)
    requires 0 < m
    ensures Power(b % m, e) % m == Power(b, e) % m
  {
    if e > 0 {
      var p, p' := Power(b, e - 1), Power(b % m, e - 1);
      PowerMod(b, e - 1, m);
      ModMul(b, p', m);
      ModMul(p', b, m);
      ModMul(p, b, m);
    }
  }

  /** Squaring the base halves the exponent. */
  lemma {:induction false} PowerSquare(b: nat, h: nat)
    ensures Power(b * b, h) == Power(b, 2 * h)
  {
    if h > 0 {
      PowerSquare(b, h - 1);
      assert Power(b, 2 * h) == b * (b * Power(b, 2 * h - 2));
    }
  }

  lemma {:induction false} PowerOfTwo(e: nat)
    ensures Power(2, e) == Pow2(e)
  {
    if e > 0 { PowerOfTwo(e - 1); }
  }

  lemma {:induction false} MulAssoc(a: int, b: int, c: int)
    ensures a * (b * c) == (a * b) * c
  {}

  lemma {:induction false} SameFactor(r: nat, p': nat, p: nat, m: nat)
    requires 0 < m && p' % m == p % m
    ensures r * p' % m == r * p % m
  {
    ModMul(p', r, m);
    ModMul(p, r, m);
  }

  /** One round of square-and-multiply keeps result * base^exponent unchanged modulo m. */
  lemma {:induction false} SquareRound(r: nat, b: nat, e: nat, m: nat)
    requires 0 < m && 0 < e
    ensures var r' := if e % 2 == 1 then r * b % m else r;
            r' * Power(b * b % m, e / 2) % m == r * Power(b, e) % m
  {
    var h := e / 2;
    var p := Power(b, 2 * h);
    var p' := Power(b * b % m, h);
    assert e % 2 == 1 ==> Power(b, e) == b * p;
    hide *;
    PowerSquare(b, h);
    PowerMod(b * b, h, m);
    if e % 2 == 1 {
      ModMul(r * b, p', m);
      SameFactor(r * b, p', p, m);
      MulAssoc(r, b, p);
    } else {
      SameFactor(r, p', p, m);
    }
  }

  lemma {:induction false} PowAtLeastBase(i: nat)
    requires i >= 1
    ensures Pow(i) >= BASE
  {
    if i > 1 { PowAtLeastBase(i - 1); }
  }

  /** All words above the lowest are zero, so the value is the lowest word. */
  method SmallShift(shift: seq<word>) returns (small: bool)
    requires |shift| > 0
    ensures small <==> Val(shift) == shift[0]
    ensures !small ==> Val(shift) >= BASE
  {
    small := true;
    for i := 1 to |shift|
      invariant small <==> Val(shift[..i]) == shift[0]
      invariant !small ==> Val(shift[..i]) >= BASE
    {
      ValSnoc(shift, i);
      PowAtLeastBase(i);
      if shift[i] != 0 { MulLe(1, shift[i], Pow(i)); small := false; }
    }
    assert shift[..|shift|] == shift;
  }

  method One(n: nat) returns (one: seq<word>)
    requires 0 < n
    ensures |one| == n && Val(one) == 1 && one[0] == 1
  {
    one := [1] + Zeros(n - 1);
    ValCons(1, Zeros(n - 1));
    ValZeros(Zeros(n - 1));
  }

  /** Two to the power of a whole number, modulo the width: zero as soon as the exponent reaches the width. */
  method PowerOfTwoLimbs(exponent: seq<word>) returns (r: seq<word>)
    requires 0 < |exponent| < 0x400_0000
    ensures |r| == |exponent| && Val(r) == Power(2, Val(exponent)) % Pow(|exponent|)
  {
    var n := |exponent|;
    var one := One(n);
    PowerOfTwo(Val(exponent));
    var small := SmallShift(exponent);
    if !small {
      r := Zeros(n);
      ValZeros(r);
      PowIsPow2(n);
      Pow2Add(64 * n, Val(exponent) - 64 * n);
      MultipleIsZero(1, Pow(n), Pow2(Val(exponent) - 64 * n));
      return;
    }
    r := ShiftLeft(one, exponent[0]);
  }

  lemma {:induction false} NonzeroParity(e: seq<word>)
    requires 0 < |e| && e != Zeros(|e|)
    ensures Val(e) > 0 && Val(e) % 2 == e[0] % 2 && Pow2(1) == 2
  {
    ValZeros(Zeros(|e|));
    if Val(e) == 0 { ValInjective(e, Zeros(|e|)); }
  }

  method ExpRound(result: seq<word>, b: seq<word>, e: seq<word>) returns (r: seq<word>, b': seq<word>, e': seq<word>)
    requires 0 < |result| == |b| == |e| && e != Zeros(|e|)
    ensures |r| == |b'| == |e'| == |b| && Val(e') < Val(e)
    ensures Val(r) * Power(Val(b'), Val(e')) % Pow(|b|) == Val(result) * Power(Val(b), Val(e)) % Pow(|b|)
    ensures Val(r) < Pow(|b|)
  {
    NonzeroParity(e);
    hide *;
    r := result;
    if e[0] % 2 != 0 {
      r := MulLimbs(result, b);
    }
    b' := MulLimbs(b, b);
    e' := ShiftRight(e, 1);
    ValBound(r);
    SquareRound(Val(result), Val(b), Val(e), Pow(|b|));
  }

  /** `exp`: base to the exponent modulo 2^N, including the shortcut for base two. */
  method Exp(base: seq<word>, exponent: seq<word>) returns (result: seq<word>)
    requires 0 < |base| == |exponent| < 0x400_0000
    ensures |result| == |base| && Val(result) == Power(Val(base), Val(exponent)) % Pow(|base|)
  {
    var n := |base|;
    var two := [2] + Zeros(n - 1);
    ValCons(2, Zeros(n - 1));
    ValZeros(Zeros(n - 1));
    if base == two {
      result := PowerOfTwoLimbs(exponent);
      return;
    }
    result := One(n);
    var b, e := base, exponent;
    ghost var target := Power(Val(base), Val(exponent)) % Pow(n);
    assert 1 * Power(Val(b), Val(e)) == Power(Val(b), Val(e));
    while e != Zeros(n)
      invariant |result| == |b| == |e| == n
      invariant Val(result) * Power(Val(b), Val(e)) % Pow(n) == target
      invariant Val(result) < Pow(n)
      decreases Val(e)
    {
      result, b, e := ExpRound(result, b, e);
    }
    ValZeros(Zeros(n));
    assert Power(Val(b), 0) == 1;
    DivModUnique(Val(result), Pow(n), 0, Val(result));
  }
}
