/** Normalization, and the division of two whole numbers with quotient and remainder. */
module WholeDivision {
  import opened Arith
  import opened Words
  import opened Limbs
  import opened Multiplication
  import opened DivisionPrimitives
  import opened Shifts
  import opened LongDivision

  // ---------------------------------------------------------------------------------------------
  // Leading zeros
  // ---------------------------------------------------------------------------------------------

  lemma {:induction false} QuotientBelow(y: nat, p: nat)
    requires 0 < p && y < p * p
    ensures y / p < p && (y / p == 0 ==> y < p)
  {
    assert y == (y / p) * p + y % p;
    if y / p >= p { MulLe(p, y / p, p); }
  }

  /** Looking at the upper half of the remaining 2^(k+1) bits. */
  lemma {:induction false} ClzStep(x: nat, y: nat, n: nat, s: nat)
    requires s <= n <= 64 && y == x / Pow2(64 - n) && y < Pow2(2 * s)
    ensures y / Pow2(s) == x / Pow2(64 - (n - s)) && y / Pow2(s) < Pow2(s)
    ensures y / Pow2(s) == 0 ==> y < Pow2(s)
  {
    hide *;
    Pow2Add(64 - n, s);
    Pow2Add(s, s);
    DivTwice(x, Pow2(64 - n), Pow2(s));
    QuotientBelow(y, Pow2(s));
  }

  lemma {:induction false} LeadingOne(x: nat, p: nat, r: nat)
    requires p <= x < 2 * p && p * r == HALF
    ensures HALF <= x * r < BASE
  {
    MulLe(p, x, r);
    assert (2 * p) * r == 2 * (p * r);
    MulLt(x, 2 * p, r);
  }

  lemma {:induction false} ClzResult(x: word, n: nat)
    requires 1 <= n <= 64 && x / Pow2(64 - n) == 1
    ensures HALF <= x * Pow2(n - 1) < BASE
  {
    hide Pow2;
    var p := Pow2(64 - n);
    Pow2At64();
    Pow2Add(64 - n, n - 1);
    assert x == 1 * p + x % p;
    LeadingOne(x, p, Pow2(n - 1));
  }

  lemma {:induction false} Pow2Small()
    ensures Pow2(6) == 64 && Pow2(0) == 1 && Pow2(1) == 2
  {}

  lemma {:induction false} Pow2Step(n: nat)
    requires n >= 1
    ensures Pow2(n) == 2 * Pow2(n - 1)
  {}

  /** `clz_generic`: the number of leading zero bits, found by halving the width looked at. */
  method Clz(x: word) returns (n: nat)
    ensures n <= 64 && (x == 0 <==> n == 64)
    ensures x != 0 ==> HALF <= x * Pow2(n) < BASE
  {
    hide Pow2;
    Pow2At64();
    Pow2Small();
    n := 64;
    var y: nat := x;
    var i := 6;
    while i > 0
      invariant 0 <= i <= 6 && Pow2(i) <= n <= 64 && y == x / Pow2(64 - n) && y < Pow2(Pow2(i))
      invariant if x == 0 then n == 64 && y == 0 else y != 0
    {
      i := i - 1;
      var s := Pow2(i);
      Pow2Step(i + 1);
      ClzStep(x, y, n, s);
      var hi := y / Pow2(s);
      if hi != 0 {
        n := n - s;
        y := hi;
      }
    }
    if x != 0 { ClzResult(x, n); }
    n := n - y;
  }

  // ---------------------------------------------------------------------------------------------
  // Normalization
  // ---------------------------------------------------------------------------------------------

  /** The number of words up to the highest non-zero one. */
  method SignificantWords(s: seq<word>) returns (m: nat)
    ensures m <= |s| && (forall i :: m <= i < |s| ==> s[i] == 0) && (m > 0 ==> s[m - 1] != 0)
  {
    m := |s|;
    while m > 0 && s[m - 1] == 0
      invariant m <= |s| && forall i :: m <= i < |s| ==> s[i] == 0
    {
      m := m - 1;
    }
  }

  /** One word of the normalizing shift: its own bits and the top bits of the word below. */
  method NormalizeWord(x: word, below: word, s: nat) returns (t: word)
    requires 0 < s < 64
    ensures t + BASE * (x / Pow2(64 - s)) == x * Pow2(s) + below / Pow2(64 - s)
  {
    hide *;
    ShlSplit(x, s);
    ShlSplit(below, s);
    JoinShl(x % Pow2(64 - s), Pow2(64 - s), s, below / Pow2(64 - s));
    t := Or(Wrap(x * Pow2(s)), below / Pow2(64 - s));
  }

  lemma {:induction false} NormalizeStep(r: int, p: int, over: int, v: int, q: int, x: int, t: int, xo: int, bo: int)
    requires r + p * over == v * q + xo && t + BASE * xo == x * q + bo
    ensures (t + BASE * r) + (BASE * p) * over == (x + BASE * v) * q + bo
  {
    assert (x + BASE * v) * q == x * q + BASE * (v * q);
    assert (BASE * p) * over == BASE * (p * over);
  }

  lemma {:induction false} ZeroQuotient(p: nat)
    requires 0 < p
    ensures 0 / p == 0
  {
    DivModUnique(0, p, 0, 0);
  }

  /** The whole number shifted left by s bits, from the top word down; the overflow is its own word. */
  method NormalizeWords(v: seq<word>, s: nat) returns (r: seq<word>, over: word)
    requires 0 < s < 64 && |v| > 0
    ensures |r| == |v| && Val(r) + Pow(|v|) * over == Val(v) * Pow2(s)
    ensures over == v[|v| - 1] / Pow2(64 - s)
  {
    var n := |v|;
    ShlSplit(v[n - 1], s);
    over := v[n - 1] / Pow2(64 - s);
    r := [];
    var i := n;
    assert v[n..] == [];
    while i > 0
      invariant 0 <= i <= n && |r| == n - i
      invariant Val(r) + Pow(n - i) * over
             == Val(v[i..]) * Pow2(s) + (if i > 0 then v[i - 1] / Pow2(64 - s) else 0)
    {
      i := i - 1;
      hide Val, Pow2;
      var below := if i > 0 then v[i - 1] else 0;
      var t := NormalizeWord(v[i], below, s);
      ZeroQuotient(Pow2(64 - s));
      NormalizeStep(Val(r), Pow(n - i - 1), over, Val(v[i + 1..]), Pow2(s), v[i], t, v[i] / Pow2(64 - s),
          below / Pow2(64 - s));
      ValCons(t, r);
      ValCons(v[i], v[i + 1..]);
      assert v[i..] == [v[i]] + v[i + 1..];
      r := [t] + r;
    }
    assert v[0..] == v;
  }

  // What the value of a number says about its words.

  lemma {:induction false} PowMono(a: nat, b: nat)
    requires a <= b
    ensures Pow(a) <= Pow(b)
  {
    if a < b { PowMono(a, b - 1); }
  }

  lemma {:induction false} WordAtMostValue(s: seq<word>, i: nat)
    requires i < |s|
    ensures s[i] * Pow(i) <= Val(s)
  {
    hide *;
    ValSplit(s, i + 1);
    ValSnoc(s, i);
    MulNonneg(Pow(i + 1), Val(s[i + 1..]));
  }

  /** Words above a value bound are zero. */
  lemma {:induction false} HighWordsZero(s: seq<word>, k: nat)
    requires Val(s) < Pow(k)
    ensures forall i :: k <= i < |s| ==> s[i] == 0
  {
    forall i | k <= i < |s| ensures s[i] == 0 {
      WordAtMostValue(s, i);
      PowMono(k, i);
      if s[i] >= 1 { MulLe(1, s[i], Pow(i)); }
    }
  }

  /** The highest non-zero word bounds the value on both sides. */
  lemma {:induction false} TopWordBounds(s: seq<word>, n: nat)
    requires 1 <= n <= |s| && forall i :: n <= i < |s| ==> s[i] == 0
    ensures s[n - 1] * Pow(n - 1) <= Val(s) < (s[n - 1] + 1) * Pow(n - 1)
  {
    hide *;
    ValTrim(s, n);
    ValSnoc(s, n - 1);
    ValBound(s[..n - 1]);
  }

  /** A smaller top word makes a smaller number; so does having fewer words. */
  lemma {:induction false} ShorterIsLess(a: seq<word>, m: nat, b: seq<word>, n: nat)
    requires m <= n && m <= |a| && 1 <= n <= |b| && HALF <= b[n - 1]
    requires (forall i :: m <= i < |a| ==> a[i] == 0) && (forall i :: n <= i < |b| ==> b[i] == 0)
    requires m > 0 ==> a[m - 1] < b[n - 1]
    ensures Val(a) < Val(b)
  {
    hide Val, Pow;
    TopWordBounds(b, n);
    if m == 0 {
      ValZeros(a);
      MulLe(1, b[n - 1], Pow(n - 1));
    } else {
      TopWordBounds(a, m);
      PowMono(m - 1, n - 1);
      MulLe(a[m - 1] as int + 1, b[n - 1], Pow(m - 1));
      MulLe(Pow(m - 1), Pow(n - 1), b[n - 1]);
    }
  }

  lemma {:induction false} TopBitSet(s: seq<word>, n: nat)
    requires 1 <= n <= |s| && HALF * Pow(n - 1) <= Val(s) < Pow(n)
    ensures HALF <= s[n - 1] && forall i :: n <= i < |s| ==> s[i] == 0
  {
    hide *;
    HighWordsZero(s, n);
    TopWordBounds(s, n);
    if s[n - 1] < HALF { MulLe(s[n - 1] as int + 1, HALF, Pow(n - 1)); }
  }

  /** If x * p is below the multiple BASE of p, then so is at most (x + 1) * p. */
  lemma {:induction false} NextMultiple(x: nat, p: nat, b: nat)
    requires p * b == BASE && x * p < BASE && 0 < p
    ensures (x + 1) * p <= BASE
  {
    if x + 1 > b { MulLe(b, x, p); } else { MulLe(x + 1, b, p); }
  }

  lemma {:induction false} ScaledProduct(x: nat, p: nat, w: nat, v: nat)
    requires HALF <= x * p && (x + 1) * p <= BASE && 0 < p && 0 < w && x * w <= v < (x + 1) * w
    ensures HALF * w <= v * p < BASE * w
  {
    MulLe(x * w, v, p);
    assert (x * w) * p == (x * p) * w;
    MulLe(HALF, x * p, w);
    MulLt(v, (x + 1) * w, p);
    assert ((x + 1) * w) * p == ((x + 1) * p) * w;
    MulLe((x + 1) * p, BASE, w);
  }

  lemma {:induction false} ScaledBounds(x: word, s: nat, w: nat, v: nat)
    requires s < 64 && 0 < w && HALF <= x * Pow2(s) < BASE && x * w <= v < (x + 1) * w
    ensures HALF * w <= v * Pow2(s) < BASE * w
  {
    hide *;
    ShlSplit(x, s);
    NextMultiple(x, Pow2(s), Pow2(64 - s));
    ScaledProduct(x, Pow2(s), w, v);
  }

  /** Scaling the divisor by the normalizing power keeps its length and sets its top bit. */
  lemma {:induction false} NormalizedDivisor(v: seq<word>, vn: seq<word>, n: nat, over: nat, s: nat)
    requires 1 <= n <= |v| == |vn| && (forall i :: n <= i < |v| ==> v[i] == 0) && s < 64
    requires HALF <= v[n - 1] * Pow2(s) < BASE
    requires Val(vn) + Pow(|v|) * over == Val(v) * Pow2(s)
    ensures over == 0 && HALF <= vn[n - 1] && forall i :: n <= i < |v| ==> vn[i] == 0
  {
    hide *;
    TopWordBounds(v, n);
    PowMono(n, |v|);
    PowStep(n);
    ScaledBounds(v[n - 1], s, Pow(n - 1), Val(v));
    if over >= 1 { MulLe(1, over, Pow(|v|)); }
    assert over == 0 ==> Pow(|v|) * over == 0;
    TopBitSet(vn, n);
  }

  /** The normalized numerator has at most one more word, smaller than any normalized top word. */
  lemma {:induction false} NormalizedNumerator(u: seq<word>, un: seq<word>, m: nat, s: nat)
    requires m <= |u| && |un| == |u| + 1 && (forall i :: m <= i < |u| ==> u[i] == 0) && s < 64
    requires Val(un) == Val(u) * Pow2(s)
    ensures un[m] < HALF && (m == 0 ==> un[0] == 0) && forall i :: m < i < |un| ==> un[i] == 0
  {
    hide Val, Pow, Pow2;
    ValTrim(u, m);
    ValBound(u[..m]);
    Pow2At64();
    Pow2Mono(s, 63);
    PowZero();
    if m == 0 {
      assert Val(un) == 0;
      HighWordsZero(un, 0);
    } else {
      PowStep(m + 1);
      MulLt(Val(u), Pow(m), Pow2(s));
      MulLe(Pow2(s), HALF, Pow(m));
      HighWordsZero(un, m + 1);
      TopWordBounds(un, m + 1);
      if un[m] >= HALF { MulLe(HALF, un[m], Pow(m)); }
    }
  }

  datatype NormalizedArgs = NormalizedArgs(numerator: seq<word>, divisor: seq<word>, m: nat, n: nat, shift: nat)

  /** What `normalize` promises the division loops. */
  ghost predicate Normalized(u: seq<word>, v: seq<word>, a: NormalizedArgs) {
    && |a.numerator| == |u| + 1 && |a.divisor| == |v| && a.shift < 64
    && Val(a.numerator) == Val(u) * Pow2(a.shift) && Val(a.divisor) == Val(v) * Pow2(a.shift)
    && 1 <= a.n <= |v| && HALF <= a.divisor[a.n - 1]
    && (forall i :: a.n <= i < |v| ==> a.divisor[i] == 0)
    && a.m <= |u| + 1 && (forall i :: a.m <= i < |u| + 1 ==> a.numerator[i] == 0)
    && (a.m > 0 ==> a.numerator[a.m - 1] < a.divisor[a.n - 1])
  }

  method FinishNormalize(u: seq<word>, v: seq<word>, un: seq<word>, vn: seq<word>, m0: nat, n: nat, shift: nat,
                         ghost over: nat, stray: word) returns (a: NormalizedArgs)
    requires |un| == |u| + 1 && |vn| == |v| && m0 <= |u| && 1 <= n <= |v| && shift < 64
    requires (forall i :: m0 <= i < |u| ==> u[i] == 0) && (forall i :: n <= i < |v| ==> v[i] == 0)
    requires HALF <= v[n - 1] * Pow2(shift) < BASE
    requires Val(un) == Val(u) * Pow2(shift) && Val(vn) + Pow(|v|) * over == Val(v) * Pow2(shift)
    ensures Normalized(u, v, a)
  {
    hide Val, Pow, Pow2;
    NormalizedDivisor(v, vn, n, over, shift);
    NormalizedNumerator(u, un, m0, shift);
    var m := m0;
    if un[m] != 0 || (if m > 0 then un[m - 1] else stray) >= vn[n - 1] {
      m := m + 1;
    }
    a := NormalizedArgs(un, vn, m, n, shift);
  }

  /**
   `normalize`. With a zero numerator the source reads the word below un[0]; `stray` stands for
   whatever is there, and nothing below depends on it.
   */
  method Normalize(u: seq<word>, v: seq<word>, stray: word) returns (a: NormalizedArgs)
    requires Val(v) > 0 && |u| > 0
    ensures Normalized(u, v, a)
  {
    var m := SignificantWords(u);
    var n := SignificantWords(v);
    if n == 0 { ValZeros(v); }
    var shift := Clz(v[n - 1]);
    var un, vn;
    ghost var over: nat := 0;
    if shift != 0 {
      var o;
      vn, o := NormalizeWords(v, shift);
      over := o;
      un, o := NormalizeWords(u, shift);
      ValPush(un, o);
      un := un + [o];
    } else {
      vn, un := v, u + [0];
      ValPush(u, 0);
    }
    a := FinishNormalize(u, v, un, vn, m, n, shift, over, stray);
  }

  // ---------------------------------------------------------------------------------------------
  // Undoing the normalization
  // ---------------------------------------------------------------------------------------------

  /** Dividing both sides by the normalizing power. */
  lemma {:induction false} Unscale(u: nat, v: nat, p: nat, q: nat, rem: nat)
    requires 0 < p && u * p == q * (v * p) + rem && rem < v * p
    ensures rem % p == 0 && u == q * v + rem / p && rem / p < v
  {
    var r := u - q * v;
    assert rem == r * p by { assert (u - q * v) * p == u * p - q * (v * p); }
    if r < 0 { MulLe(r, -1, p); }
    if r >= v { MulLe(v, r, p); }
    DivModUnique(rem, p, r, 0);
  }

  lemma {:induction false} UnshiftFacts(x: word, above: word, s: nat)
    requires 0 < s < 64
    ensures Pow2(s) * Pow2(64 - s) == BASE && x / Pow2(s) < Pow2(64 - s)
    ensures Wrap(above * Pow2(64 - s)) == (above % Pow2(s)) * Pow2(64 - s)
  {
    hide Pow2, Wrap;
    Pow2At64();
    Pow2Add(s, 64 - s);
    SplitAt(x, Pow2(64 - s), Pow2(s));
    SplitAt(above, Pow2(64 - s), Pow2(s));
  }

  lemma {:induction false} UnshiftSum(x: nat, a: nat, b: nat, rem: nat, t: nat)
    requires 0 < a && a * b == BASE && t == rem * b + x / a
    ensures a * t + x % a == x + BASE * rem
  {
    assert a * (rem * b + x / a) == rem * (a * b) + a * (x / a);
    assert x == a * (x / a) + x % a;
    assert rem * (a * b) == BASE * rem;
  }

  /** One word of the remainder moved back down, completed by the low bits of the word above. */
  method UnshiftWord(x: word, above: word, s: nat) returns (t: word)
    requires 0 < s < 64
    ensures Pow2(s) * t + x % Pow2(s) == x + BASE * (above % Pow2(s))
  {
    hide *;
    UnshiftFacts(x, above, s);
    JoinShl(above % Pow2(s), Pow2(s), 64 - s, x / Pow2(s));
    OrComm(x / Pow2(s), (above % Pow2(s)) * Pow2(64 - s));
    t := Or(x / Pow2(s), Wrap(above * Pow2(64 - s)));
    UnshiftSum(x, Pow2(s), Pow2(64 - s), above % Pow2(s), t);
  }

  lemma {:induction false} UnshiftStep(p: int, r: int, r0: int, low: int, w: int, x: int, xr: int, ar: int, t: int)
    requires p * r + r0 == low + w * xr && p * t + xr == x + BASE * ar
    ensures p * (r + w * t) + r0 == (low + w * x) + (BASE * w) * ar
  {
    assert w * (p * t + xr) == w * (x + BASE * ar);
    assert p * (r + w * t) == p * r + w * (p * t);
    assert w * (x + BASE * ar) == w * x + (BASE * w) * ar;
    assert w * (p * t + xr) == w * (p * t) + w * xr;
  }

  /** All words but the top one. */
  method UnshiftLow(un: seq<word>, s: nat) returns (r: seq<word>)
    requires |un| > 0 && 0 < s < 64
    ensures |r| == |un| - 1
    ensures Pow2(s) * Val(r) + un[0] % Pow2(s) == Val(un[..|un| - 1]) + Pow(|un| - 1) * (un[|un| - 1] % Pow2(s))
  {
    hide Val, Pow, Pow2;
    PowZero();
    ValEmpty();
    r := [];
    assert un[..0] == [];
    for i := 0 to |un| - 1
      invariant |r| == i
      invariant Pow2(s) * Val(r) + un[0] % Pow2(s) == Val(un[..i]) + Pow(i) * (un[i] % Pow2(s))
    {
      var t := UnshiftWord(un[i], un[i + 1], s);
      UnshiftStep(Pow2(s), Val(r), un[0] % Pow2(s), Val(un[..i]), Pow(i), un[i], un[i] % Pow2(s), un[i + 1] % Pow2(s),
          t);
      ValSnoc(un, i);
      ValPush(r, t);
      PowStep(i + 1);
      r := r + [t];
    }
  }

  method UnshiftTop(un: seq<word>, s: nat, low: seq<word>, t: word) returns (r: seq<word>)
    requires |un| > 0 && 0 < s < 64 && |low| == |un| - 1 && Val(un) % Pow2(s) == 0
    requires Pow2(s) * t + un[|un| - 1] % Pow2(s) == un[|un| - 1] + BASE * (0 % Pow2(s))
    requires Pow2(s) * Val(low) + un[0] % Pow2(s) == Val(un[..|un| - 1]) + Pow(|un| - 1) * (un[|un| - 1] % Pow2(s))
    ensures |r| == |un| && Val(r) == Val(un) / Pow2(s)
  {
    hide Val, Pow, Pow2;
    var n := |un|;
    r := low + [t];
    ValPush(low, t);
    ValSnoc(un, n - 1);
    assert un[..n] == un;
    DivModUnique(0, Pow2(s), 0, 0);
    UnshiftStep(Pow2(s), Val(low), un[0] % Pow2(s), Val(un[..n - 1]), Pow(n - 1), un[n - 1], un[n - 1] % Pow2(s), 0, t);
    MulEq(Pow2(s), Val(r), Val(low) + Pow(n - 1) * t);
    assert (BASE * Pow(n - 1)) * 0 == 0;
    DivModUnique(Val(un), Pow2(s), Val(r), un[0] % Pow2(s));
  }

  /** The loop that shifts the remainder of Knuth's algorithm back. */
  method Unshift(un: seq<word>, s: nat) returns (r: seq<word>)
    requires |un| > 0 && s < 64 && Val(un) % Pow2(s) == 0
    ensures |r| == |un| && Val(r) == Val(un) / Pow2(s)
  {
    var n := |un|;
    if s == 0 {
      r := un;
      assert Pow2(0) == 1;
      return;
    }
    r := UnshiftLow(un, s);
    var t := UnshiftWord(un[n - 1], 0, s);
    r := UnshiftTop(un, s, r, t);
  }

  // ---------------------------------------------------------------------------------------------
  // The whole division
  // ---------------------------------------------------------------------------------------------

  /** Conversion between widths: truncates or zero-extends. */
  function Resize(s: seq<word>, n: nat): (r: seq<word>)
    ensures |r| == n
  {
    if n <= |s| then s[..n] else s + Zeros(n - |s|)
  }

  lemma {:induction false} ResizeValue(s: seq<word>, n: nat)
    requires forall i :: n <= i < |s| ==> s[i] == 0
    ensures Val(Resize(s, n)) == Val(s)
  {
    if n <= |s| {
      ValTrim(s, n);
    } else {
      ValConcat(s, Zeros(n - |s|));
      ValZeros(Zeros(n - |s|));
    }
  }

  /** The result of a division, said once for all branches. */
  ghost predicate Divided(u: seq<word>, v: seq<word>, q: seq<word>, r: seq<word>) {
    && |q| == |u| && |r| == |v| && Val(u) == Val(q) * Val(v) + Val(r) && Val(r) < Val(v)
  }

  /** The numerator is already smaller than the divisor. */
  method DivideSmall(u: seq<word>, v: seq<word>, a: NormalizedArgs) returns (q: seq<word>, r: seq<word>)
    requires Normalized(u, v, a) && a.m <= a.n
    ensures Divided(u, v, q, r)
  {
    hide Val, Pow, Pow2;
    ShorterIsLess(a.numerator, a.m, a.divisor, a.n);
    if Val(u) >= Val(v) { MulLe(Val(v), Val(u), Pow2(a.shift)); }
    ValBound(v);
    HighWordsZero(u, |v|);
    q, r := Zeros(|u|), Resize(u, |v|);
    ValZeros(q);
    ResizeValue(u, |v|);
  }

  method Copy(s: seq<word>) returns (a: array<word>)
    ensures fresh(a) && a[..] == s
  {
    a := new word[|s|](i requires 0 <= i < |s| => s[i]);
  }

  /** The words of the quotient, cut back to the width of the numerator. */
  lemma {:induction false} QuotientWords(a: seq<word>, m: nat, k: nat)
    requires 1 <= m <= |a| && m <= k + 1 <= |a| && a[m - 1] == 0 && forall i :: m <= i < |a| ==> a[i] == 0
    ensures Val(a[..k]) == Val(a[..m])
  {
    ValTrim(a, k);
    ValTrim(a, m);
  }

  lemma {:induction false} WordInFront(x: word, n: nat)
    ensures Val([x] + Zeros(n)) == x
  {
    hide Val, Pow;
    ValCons(x, Zeros(n));
    ValZeros(Zeros(n));
  }

  lemma {:induction false} HighUnchanged(now: seq<word>, was: seq<word>, m: nat)
    requires |now| == |was| && m <= |now| && now[m..] == was[m..] && forall i :: m <= i < |was| ==> was[i] == 0
    ensures forall i :: m <= i < |now| ==> now[i] == 0
  {
    forall i | m <= i < |now| ensures now[i] == 0 { assert now[i] == now[m..][i - m] == was[i]; }
  }

  lemma {:induction false} ShiftedWordFits(x: word, p: nat)
    requires 0 < p
    ensures x / p < BASE
  {
    assert x == (x / p) * p + x % p;
    MulLe(1, p, x / p);
  }

  /** The normalized numerator divided in place by a one-word divisor, cut back to k words. */
  method QuotientByOneWord(numerator: seq<word>, m: nat, d: word, k: nat) returns (q: seq<word>, rem: word)
    requires 2 <= m <= |numerator| == k + 1 && HALF <= d && numerator[m - 1] < d
    requires forall i :: m <= i <= k ==> numerator[i] == 0
    ensures |q| == k && Val(numerator) == Val(q) * d + rem && rem < d
  {
    hide Val, Pow;
    var un := Copy(numerator);
    ValTrim(numerator, m);
    assert un[..m] == numerator[..m] && un[m..] == numerator[m..];
    rem := UdivremBy1(un, m, d);
    HighUnchanged(un[..], numerator, m);
    QuotientWords(un[..], m, k);
    q := un[..k];
    assert q == un[..][..k] && un[..m] == un[..][..m];
  }

  method DivideByOneWord(u: seq<word>, v: seq<word>, a: NormalizedArgs) returns (q: seq<word>, r: seq<word>)
    requires Normalized(u, v, a) && a.m > a.n == 1
    ensures Divided(u, v, q, r)
  {
    hide Val, Pow, Pow2;
    ValTrim(a.divisor, 1);
    ValOne(a.divisor[0]);
    assert a.divisor[..1] == [a.divisor[0]];
    var rem;
    q, rem := QuotientByOneWord(a.numerator, a.m, a.divisor[0], |u|);
    Unscale(Val(u), Val(v), Pow2(a.shift), Val(q), rem);
    ShiftedWordFits(rem, Pow2(a.shift));
    r := [rem / Pow2(a.shift)] + Zeros(|v| - 1);
    WordInFront(rem / Pow2(a.shift), |v| - 1);
  }

  /** Right shift of a two-word number by less than a word. */
  method Shr128(x: U128, s: nat) returns (r: U128)
    requires s < 64
    ensures r.Nat() == x.Nat() / Pow2(s)
  {
    hide Pow2, Or, Wrap;
    Pow2At64();
    var hi, k1;
    ghost var rem1;
    hi, k1, rem1 := ShrSplit(x.hi, s);
    var t, k2;
    ghost var rem2;
    t, k2, rem2 := ShrWord(x.lo, s, k1, rem1);
    if hi >= BASE { MulLe(1, Pow2(s), hi); }
    r := U128(t, hi);
    assert Pow2(s) * r.Nat() == Pow2(s) * t + BASE * (Pow2(s) * hi);
    DivModUnique(x.Nat(), Pow2(s), r.Nat(), rem2);
  }

  method DivideByTwoWords(u: seq<word>, v: seq<word>, a: NormalizedArgs) returns (q: seq<word>, r: seq<word>)
    requires Normalized(u, v, a) && a.m > a.n == 2
    ensures Divided(u, v, q, r)
  {
    hide Val, Pow, Pow2;
    var un := Copy(a.numerator);
    var d := U128(a.divisor[0], a.divisor[1]);
    ValTrim(a.numerator, a.m);
    ValTrim(a.divisor, 2);
    TwoWords(a.divisor[..2], d);
    assert un[..a.m] == a.numerator[..a.m];
    var rem := UdivremBy2(un, a.m, d);
    HighUnchanged(un[..], a.numerator, a.m);
    QuotientWords(un[..], a.m, |u|);
    q := un[..|u|];
    assert q == un[..][..|u|] && un[..a.m] == un[..][..a.m];
    Unscale(Val(u), Val(v), Pow2(a.shift), Val(q), rem.Nat());
    var x := Shr128(rem, a.shift);
    r := Resize([x.lo, x.hi], |v|);
    TwoWords([x.lo, x.hi], x);
    ResizeValue([x.lo, x.hi], |v|);
  }

  method DivideKnuth(u: seq<word>, v: seq<word>, a: NormalizedArgs) returns (q: seq<word>, r: seq<word>)
    requires Normalized(u, v, a) && a.m > a.n >= 3
    ensures Divided(u, v, q, r)
  {
    hide Val, Pow, Pow2;
    var n := a.n;
    var d := a.divisor[..n];
    var un := Copy(a.numerator);
    var qa := Copy(Zeros(|u|));
    ValTrim(a.numerator, a.m);
    ValTrim(a.divisor, n);
    ShorterIsLess(un[a.m - n..a.m], n, d, n);
    assert un[..a.m] == a.numerator[..a.m];
    UdivremKnuth(qa, un, a.m, d);
    q := qa[..];
    assert q[a.m - n..] == Zeros(|u|)[a.m - n..];
    HighUnchanged(q, Zeros(|u|), a.m - n);
    ValTrim(q, a.m - n);
    assert qa[..a.m - n] == q[..a.m - n];
    var rem := un[..n];
    Unscale(Val(u), Val(v), Pow2(a.shift), Val(q), Val(rem));
    r := Unshift(rem, a.shift);
    ResizeValue(r, |v|);
    r := Resize(r, |v|);
  }

  /**
   `udivrem`: for every numerator and every non-zero divisor the quotient and the remainder are exact,
   whichever of the four branches is taken.
   */
  method Udivrem(u: seq<word>, v: seq<word>, stray: word) returns (q: seq<word>, r: seq<word>)
    requires |u| > 0 && Val(v) > 0
    ensures |q| == |u| && |r| == |v|
    ensures Val(u) == Val(q) * Val(v) + Val(r) && Val(r) < Val(v)
  {
    var a := Normalize(u, v, stray);
    if a.m <= a.n {
      q, r := DivideSmall(u, v, a);
    } else if a.n == 1 {
      q, r := DivideByOneWord(u, v, a);
    } else if a.n == 2 {
      q, r := DivideByTwoWords(u, v, a);
    } else {
      q, r := DivideKnuth(u, v, a);
    }
  }
}
