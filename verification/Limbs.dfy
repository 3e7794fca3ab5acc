/** Multi-word numbers: little-endian sequences of words, their value, and the linear operations. */
module Limbs {
  import opened Arith
  import opened Words

  function Pow(n: nat): (p: nat)
    ensures p > 0
  {
    if n == 0 then 1 else BASE * Pow(n - 1)
  }

  ghost function Val(s: seq<word>): nat {
    if s == [] then 0 else s[0] + BASE * Val(s[1..])
  }

  function Zeros(n: nat): (z: seq<word>)
    ensures |z| == n && forall i :: 0 <= i < n ==> z[i] == 0
  {
    seq(n, i => 0)
  }

  lemma {:induction false} BaseAssoc(p: int, v: int)
    ensures (BASE * p) * v == BASE * (p * v)
  {}

  lemma {:induction false} PowZero()
    ensures Pow(0) == 1
  {}

  lemma {:induction false} PowStep(n: nat)
    requires n >= 1
    ensures Pow(n) == BASE * Pow(n - 1)
  {}

  lemma {:induction false} PowAdd(a: nat, b: nat)
    ensures Pow(a + b) == Pow(a) * Pow(b)
  {
    if a > 0 {
      PowAdd(a - 1, b);
      BaseAssoc(Pow(a - 1), Pow(b));
    }
  }

  lemma {:induction false} PowIsPow2(n: nat)
    ensures Pow(n) == Pow2(64 * n)
  {
    Pow2At64();
    if n > 0 {
      PowIsPow2(n - 1);
      Pow2Add(64, 64 * (n - 1));
    }
  }

  lemma {:induction false} ValEmpty()
    ensures Val([]) == 0
  {}

  lemma {:induction false} ValConcat(a: seq<word>, b: seq<word>)
    ensures Val(a + b) == Val(a) + Pow(|a|) * Val(b)
  {
    if a == [] {
      assert a + b == b;
    } else {
      assert (a + b)[1..] == a[1..] + b;
      ValConcat(a[1..], b);
      BaseAssoc(Pow(|a| - 1), Val(b));
    }
  }

  lemma {:induction false} ValBound(s: seq<word>)
    ensures Val(s) < Pow(|s|)
  {
    if s != [] { ValBound(s[1..]); }
  }

  lemma {:induction false} ValSplit(s: seq<word>, i: nat)
    requires i <= |s|
    ensures Val(s) == Val(s[..i]) + Pow(i) * Val(s[i..])
  {
    ValConcat(s[..i], s[i..]);
    assert s[..i] + s[i..] == s;
  }

  lemma {:induction false} ValOne(x: word)
    ensures Val([x]) == x
  {
    assert Val([x]) == x + BASE * Val([x][1..]);
  }

  lemma {:induction false} ValCons(x: word, s: seq<word>)
    ensures Val([x] + s) == x + BASE * Val(s)
  {
    assert ([x] + s)[1..] == s;
  }

  /** One more word at the top. */
  lemma {:induction false} ValSnoc(s: seq<word>, i: nat)
    requires i < |s|
    ensures Val(s[..i + 1]) == Val(s[..i]) + Pow(i) * s[i]
  {
    ValSplit(s[..i + 1], i);
    assert s[..i + 1][..i] == s[..i] && s[..i + 1][i..] == [s[i]];
    ValOne(s[i]);
  }

  lemma {:induction false} ValPush(s: seq<word>, x: word)
    ensures Val(s + [x]) == Val(s) + Pow(|s|) * x
  {
    ValConcat(s, [x]);
    ValOne(x);
  }

  lemma {:induction false} ValZeros(s: seq<word>)
    requires forall i :: 0 <= i < |s| ==> s[i] == 0
    ensures Val(s) == 0
  {
    if s != [] { ValZeros(s[1..]); }
  }

  /** Leading zero words do not change the value. */
  lemma {:induction false} ValTrim(s: seq<word>, n: nat)
    requires n <= |s| && forall i :: n <= i < |s| ==> s[i] == 0
    ensures Val(s) == Val(s[..n])
  {
    ValSplit(s, n);
    ValZeros(s[n..]);
  }

  /** A word sequence of a given length is determined by its value. */
  lemma {:induction false} ValInjective(a: seq<word>, b: seq<word>)
    requires |a| == |b| && Val(a) == Val(b)
    ensures a == b
  {
    if a != [] {
      assert a[0] == b[0] && Val(a[1..]) == Val(b[1..]);
      ValInjective(a[1..], b[1..]);
      assert a == [a[0]] + a[1..] && b == [b[0]] + b[1..];
    }
  }

  // ---------------------------------------------------------------------------------------------
  // Addition and subtraction
  // ---------------------------------------------------------------------------------------------

  /** The arithmetic of one carry step, scaled to its position. */
  lemma {:induction false} CarryStep(p: nat, s: int, t: int, k': int, x: int, xi: int, y: int, yi: int, k: int, c: int)
    requires s + p * k == x + y + c && t + BASE * k' == xi + yi + k
    ensures (s + p * t) + (BASE * p) * k' == (x + p * xi) + (y + p * yi) + c
  {
    assert p * (t + BASE * k') == p * (xi + yi + k);
  }

  lemma {:induction false} BorrowStep(p: nat, z: int, t: int, k': int, x: int, xi: int, y: int, yi: int, k: int, c: int)
    requires z - p * k == x - y - c && t - BASE * k' == xi - yi - k
    ensures (z + p * t) - (BASE * p) * k' == (x + p * xi) - (y + p * yi) - c
  {
    assert p * (t - BASE * k') == p * (xi - yi - k);
  }

  /** The word step of the whole-number addition: the second carry is read off the incremented sum. */
  function ChainAdd(x: word, y: word, k: bool): (r: WithCarry<word>)
    ensures r.value + BASE * Bit(r.carry) == x + y + Bit(k)
  {
    var s := Wrap(x + y);
    var k1 := s < x;
    var t := Wrap(s + Bit(k));
    WithCarry(t, t < Bit(k) || k1)
  }

  /** The word step of the whole-number subtraction: the second borrow is read before it is applied. */
  function ChainSub(x: word, y: word, k: bool): (r: WithCarry<word>)
    ensures r.value - BASE * Bit(r.carry) == x - y - Bit(k)
  {
    var z := Wrap(x - y);
    var k1 := x < y;
    var k2 := z < Bit(k);
    WithCarry(Wrap(z - Bit(k)), k1 || k2)
  }

  /** `add_with_carry` on whole numbers. */
  method AddLimbs(x: seq<word>, y: seq<word>, carry: bool) returns (s: seq<word>, k: bool)
    requires |x| == |y|
    ensures |s| == |x| && Val(s) + Pow(|x|) * Bit(k) == Val(x) + Val(y) + Bit(carry)
  {
    s, k := [], carry;
    for i := 0 to |x|
      invariant |s| == i
      invariant Val(s) + Pow(i) * Bit(k) == Val(x[..i]) + Val(y[..i]) + Bit(carry)
    {
      var t := ChainAdd(x[i], y[i], k);
      CarryStep(Pow(i), Val(s), t.value, Bit(t.carry), Val(x[..i]), x[i], Val(y[..i]), y[i], Bit(k), Bit(carry));
      ValSnoc(x, i);
      ValSnoc(y, i);
      ValPush(s, t.value);
      s, k := s + [t.value], t.carry;
    }
    assert x[..|x|] == x && y[..|y|] == y;
  }

  /** `sub_with_carry` on whole numbers: the final borrow says whether the difference wrapped. */
  method SubLimbs(x: seq<word>, y: seq<word>, carry: bool) returns (z: seq<word>, k: bool)
    requires |x| == |y|
    ensures |z| == |x| && Val(z) - Pow(|x|) * Bit(k) == Val(x) - Val(y) - Bit(carry)
  {
    z, k := [], carry;
    for i := 0 to |x|
      invariant |z| == i
      invariant Val(z) - Pow(i) * Bit(k) == Val(x[..i]) - Val(y[..i]) - Bit(carry)
    {
      var t := ChainSub(x[i], y[i], k);
      BorrowStep(Pow(i), Val(z), t.value, Bit(t.carry), Val(x[..i]), x[i], Val(y[..i]), y[i], Bit(k), Bit(carry));
      ValSnoc(x, i);
      ValSnoc(y, i);
      ValPush(z, t.value);
      z, k := z + [t.value], t.carry;
    }
    assert x[..|x|] == x && y[..|y|] == y;
  }

  /** The borrow out of a full subtraction is the comparison. */
  lemma {:induction false} BorrowIsLess(x: seq<word>, y: seq<word>, z: seq<word>, k: bool)
    requires |x| == |y| == |z| && Val(z) - Pow(|x|) * Bit(k) == Val(x) - Val(y)
    ensures k <==> Val(x) < Val(y)
  {
    ValBound(z);
  }
}
