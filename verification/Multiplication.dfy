/** Schoolbook products: all words of a product, and the low words alone. */
module Multiplication {
  import opened Arith
  import opened Words
  import opened Limbs

  /** x * y + a + b never overflows two words. */
  method MulAdd(x: word, y: word, a: word, b: word) returns (t: U128)
    ensures t.Nat() == x * y + a + b
  {
    t := Umul(x, y);
    MulLe(x, BASE - 1, y);
    ghost var p := t.Nat();
    t := Add128(t, U128(a, 0));
    Wrap2Is(p + a, 0, p + a);
    t := Add128(t, U128(b, 0));
    Wrap2Is(p + a + b, 0, p + a + b);
  }

  lemma {:induction false} MulEq(w: int, a: int, b: int)
    requires a == b
    ensures w * a == w * b
  {}

  lemma {:induction false} RowStep(
    w: nat, row: int, k: int, k': int, was: int, x: int, yj: int, t: int, o: int, xi: int)
    requires row + w * k == was + x * yj && t + BASE * k' == xi * yj + o + k
    ensures (row + w * t) + (BASE * w) * k' == (was + w * o) + (x + w * xi) * yj
  {
    MulEq(w, t + BASE * k', xi * yj + o + k);
    assert w * (xi * yj + o + k) == w * (xi * yj) + w * o + w * k;
    assert w * (t + BASE * k') == w * t + (BASE * w) * k';
    assert (x + w * xi) * yj == x * yj + w * (xi * yj);
  }

  /** Storing a word at position j + i of the row under construction. */
  function ReplaceWord(q: seq<word>, ghost p: seq<word>, j: nat, i: nat, t: word): (r: seq<word>)
    requires |q| == |p| && j + i < |q| && q[..j] == p[..j] && q[j + i..] == p[j + i..]
    ensures |r| == |p| && r[..j] == p[..j] && r[j + i + 1..] == p[j + i + 1..]
    ensures r[j..j + i + 1] == q[j..j + i] + [t]
  {
    assert q[j + i + 1..] == q[j + i..][1..];
    q[j + i := t]
  }

  /** One row of the schoolbook product: adds x[..len] * yj into p at offset j; k is the word carried out. */
  method MulRow(p: seq<word>, j: nat, x: seq<word>, yj: word, len: nat) returns (q: seq<word>, k: word)
    requires len <= |x| && j + len <= |p|
    ensures |q| == |p| && q[..j] == p[..j] && q[j + len..] == p[j + len..]
    ensures Val(q[j..j + len]) + Pow(len) * k == Val(p[j..j + len]) + Val(x[..len]) * yj
  {
    hide Val, Pow;
    q, k := p, 0;
    PowZero();
    assert p[j..j] == [] && x[..0] == [];
    ValEmpty();
    for i := 0 to len
      invariant |q| == |p| && q[..j] == p[..j] && q[j + i..] == p[j + i..]
      invariant Val(q[j..j + i]) + Pow(i) * k == Val(p[j..j + i]) + Val(x[..i]) * yj
    {
      assert q[j + i] == p[j + i] by { assert q[j + i..][0] == p[j + i..][0]; }
      var t := MulAdd(x[i], yj, q[j + i], k);
      RowStep(Pow(i), Val(q[j..j + i]), k, t.hi, Val(p[j..j + i]), Val(x[..i]), yj, t.lo, p[j + i], x[i]);
      ValSnoc(x, i);
      ValPush(p[j..j + i], p[j + i]);
      assert p[j..j + i + 1] == p[j..j + i] + [p[j + i]];
      ValPush(q[j..j + i], t.lo);
      PowStep(i + 1);
      q, k := ReplaceWord(q, p, j, i, t.lo), t.hi;
    }
  }

  /** A low part, a row above it, and one word on top. */
  lemma {:induction false} ValMiddle(a: seq<word>, b: seq<word>, k: word)
    ensures Val(a + (b + [k])) == Val(a) + Pow(|a|) * (Val(b) + Pow(|b|) * k)
  {
    ValPush(b, k);
    MulEq(Pow(|a|), Val(b + [k]), Val(b) + Pow(|b|) * k);
    ValConcat(a, b + [k]);
  }

  lemma {:induction false} RowSum(low: int, w: int, rest: int, row: int, v: int, k: int, x: int, ylow: int, yj: int)
    requires low + w * rest == x * ylow && row + v * k == rest + x * yj
    ensures low + w * (row + v * k) == x * (ylow + w * yj)
  {
    assert w * (rest + x * yj) == w * rest + x * (w * yj);
    assert x * (ylow + w * yj) == x * ylow + x * (w * yj);
  }

  lemma {:induction false} RowIntoProduct(
    p: seq<word>, q: seq<word>, r: seq<word>, j: nat, n: nat, x: nat, y: seq<word>, k: word)
    requires |p| == |q| == 2 * n && j < n == |y| && r == q[j + n := k] && q[..j] == p[..j]
    requires Val(p[..j + n]) == x * Val(y[..j])
    requires Val(q[j..j + n]) + Pow(n) * k == Val(p[j..j + n]) + x * y[j]
    ensures Val(r[..j + 1 + n]) == x * Val(y[..j + 1])
  {
    hide *;
    assert r[..j + 1 + n] == p[..j] + (q[j..j + n] + [k]);
    ValMiddle(p[..j], q[j..j + n], k);
    assert p[..j + n] == p[..j] + p[j..j + n];
    ValConcat(p[..j], p[j..j + n]);
    ValSnoc(y, j);
    MulEq(x, Val(y[..j + 1]), Val(y[..j]) + Pow(j) * y[j]);
    RowSum(Val(p[..j]), Pow(j), Val(p[j..j + n]), Val(q[j..j + n]), Pow(n), k, x, Val(y[..j]), y[j]);
  }

  /** `umul` on whole numbers: the full double-length product. */
  method UmulLimbs(x: seq<word>, y: seq<word>) returns (p: seq<word>)
    requires |x| == |y|
    ensures |p| == 2 * |x| && Val(p) == Val(x) * Val(y)
  {
    var n := |x|;
    p := Zeros(2 * n);
    ValZeros(p[..n]);
    for j := 0 to n
      invariant |p| == 2 * n && Val(p[..j + n]) == Val(x) * Val(y[..j])
    {
      var q, k := MulRow(p, j, x, y[j], n);
      assert x[..n] == x;
      RowIntoProduct(p, q, q[j + n := k], j, n, Val(x), y, k);
      p := q[j + n := k];
    }
    assert y[..n] == y && p[..2 * n] == p;
  }

  ghost function TopExcess(top: word, x: word, y: word, k: word): int {
    (top + Wrap(x * y) + k) / BASE + (x * y) / BASE
  }

  /** The top word of a truncated row: a low product and a carry added modulo 2^64. */
  function AddTop(top: word, x: word, y: word, k: word): (t: word)
    ensures t == top + x * y + k - BASE * TopExcess(top, x, y, k)
  {
    Wrap(top + Wrap(x * y) + k)
  }

  lemma {:induction false} TruncatedParts(p: seq<word>, q: seq<word>, j: nat, t: word)
    requires |p| == |q| && j < |p| && q[..j] == p[..j]
    ensures var n, w, v := |p|, Pow(j), Pow(|p| - j - 1);
            && Val(p) == Val(p[..j]) + w * (Val(p[j..n - 1]) + v * p[n - 1])
            && Val(q[n - 1 := t]) == Val(p[..j]) + w * (Val(q[j..n - 1]) + v * t)
  {
    hide Val, Pow;
    var n := |p|;
    ValMiddle(p[..j], p[j..n - 1], p[n - 1]);
    assert p == p[..j] + (p[j..n - 1] + [p[n - 1]]);
    ValMiddle(p[..j], q[j..n - 1], t);
    assert q[n - 1 := t] == p[..j] + (q[j..n - 1] + [t]);
  }

  lemma {:induction false} XParts(x: seq<word>, len: nat)
    requires len < |x|
    ensures Val(x) == Val(x[..len]) + Pow(len) * x[len] + BASE * Pow(len) * Val(x[len + 1..])
  {
    ValSplit(x, len + 1);
    ValSnoc(x, len);
  }

  lemma {:induction false} RowChange(mid: int, mid': int, v: int, top: int, t: int, k: int, xlow: int, xi: int, c: int)
    requires mid' + v * k == mid + xlow && t == top + xi + k - BASE * c
    ensures mid' + v * t == (mid + v * top) + (xlow + v * xi) - BASE * v * c
  {
    assert v * t == v * top + v * xi + v * k - BASE * v * c;
  }

  lemma {:induction false} Scaled(w: int, sum: int, a: int, row: int, v: int, c: int, n: int)
    requires sum == a + row - BASE * v * c && n == w * (BASE * v)
    ensures w * sum == w * a + w * row - n * c
  {
    assert w * (a + row - BASE * v * c) == w * a + w * row - w * (BASE * v * c);
    assert w * (BASE * v * c) == (w * (BASE * v)) * c;
  }

  /** One truncated row, as pure arithmetic: v and w are the weights of the row and of the top word in it. */
  lemma {:induction false} TruncatedSum(low: int, w: int, mid: int, mid': int, v: int, top: int, t: int, k: int,
                     x: int, xlow: int, xi: int, hi: int, yj: int, ylow: int, c: int, m: int, n: int)
    requires n == w * (BASE * v) && x == xlow + v * xi + BASE * v * hi
    requires mid' + v * k == mid + xlow * yj && t == top + xi * yj + k - BASE * c
    requires low + w * (mid + v * top) + n * m == x * ylow
    ensures low + w * (mid' + v * t) + n * (m + c + hi * yj) == x * (ylow + w * yj)
  {
    var row := xlow * yj + v * (xi * yj);
    RowChange(mid, mid', v, top, t, k, xlow * yj, xi * yj, c);
    Scaled(w, mid' + v * t, mid + v * top, row, v, c, n);
    assert x * yj == row + BASE * v * (hi * yj) by {
      assert (xlow + v * xi + BASE * v * hi) * yj == row + BASE * v * (hi * yj);
    }
    Scaled(w, x * yj, 0, row, v, 0 - hi * yj, n);
    assert x * (ylow + w * yj) == x * ylow + w * (x * yj);
    assert n * (m + c + hi * yj) == n * m + n * c + n * (hi * yj);
  }

  lemma {:induction false} TruncatedRow(
    p: seq<word>, q: seq<word>, j: nat, x: seq<word>, y: seq<word>, k: word, t: word, m: int)
    returns (m': int)
    requires |p| == |q| == |x| == |y| && j < |x| && q[..j] == p[..j]
    requires var n, len := |x|, |x| - j - 1;
             && q[j + len..] == p[j + len..] && t == AddTop(q[n - 1], x[len], y[j], k)
             && Val(q[j..j + len]) + Pow(len) * k == Val(p[j..j + len]) + Val(x[..len]) * y[j]
    requires Val(p) + Pow(|x|) * m == Val(x) * Val(y[..j])
    ensures Val(q[|x| - 1 := t]) + Pow(|x|) * m' == Val(x) * Val(y[..j + 1])
  {
    hide Val, Pow;
    var n, len := |x|, |x| - j - 1;
    PowStep(len + 1);
    assert j + len == n - 1;
    assert q[n - 1] == p[n - 1] by { assert q[j + len..][0] == p[j + len..][0]; }
    var c := TopExcess(p[n - 1], x[len], y[j], k);
    var hi := Val(x[len + 1..]);
    m' := m + c + hi * y[j];
    TruncatedParts(p, q, j, t);
    XParts(x, len);
    ValSnoc(y, j);
    MulEq(Val(x), Val(y[..j + 1]), Val(y[..j]) + Pow(j) * y[j]);
    PowAdd(j, len + 1);
    TruncatedSum(Val(p[..j]), Pow(j), Val(p[j..n - 1]), Val(q[j..n - 1]), Pow(len), p[n - 1], t, k,
                 Val(x), Val(x[..len]), x[len], hi, y[j], Val(y[..j]), c, m, Pow(n));
  }

  /** The truncated product keeps the low words of the full one. */
  method MulLimbs(x: seq<word>, y: seq<word>) returns (p: seq<word>)
    requires |x| == |y|
    ensures |p| == |x| && Val(p) == Val(x) * Val(y) % Pow(|x|)
  {
    var n := |x|;
    p := Zeros(n);
    ValZeros(p);
    ghost var m := 0;
    for j := 0 to n
      invariant |p| == n && Val(p) + Pow(n) * m == Val(x) * Val(y[..j])
    {
      var len := n - j - 1;
      var q, k := MulRow(p, j, x, y[j], len);
      var t := AddTop(q[n - 1], x[len], y[j], k);
      m := TruncatedRow(p, q, j, x, y, k, t, m);
      p := q[n - 1 := t];
    }
    assert y[..n] == y;
    ValBound(p);
    DivModUnique(Val(x) * Val(y), Pow(n), m, Val(p));
  }
}
