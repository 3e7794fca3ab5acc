/** 256-bit modular addition and multiplication. */
module Modular {
  import opened Arith
  import opened Words
  import opened Limbs
  import opened Multiplication
  import opened WholeDivision

  predicate IsU256(x: seq<word>) { |x| == 4 }

  /** A number whose top word does not exceed the modulus' non-zero top word is below twice the modulus. */
  lemma {:induction false} AlmostReduced(x: seq<word>, mod: seq<word>)
    requires IsU256(x) && IsU256(mod) && mod[3] != 0 && x[3] <= mod[3]
    ensures Val(x) < 2 * Val(mod)
  {
    hide Val, Pow;
    TopWordBounds(x, 4);
    TopWordBounds(mod, 4);
    MulLe(x[3], mod[3], Pow(3));
    MulLe(1, mod[3], Pow(3));
  }

  /** One conditional subtraction. */
  method ReduceOnce(x: seq<word>, mod: seq<word>) returns (r: seq<word>)
    requires IsU256(x) && IsU256(mod) && Val(x) < 2 * Val(mod)
    ensures IsU256(r) && Val(r) == (if Val(x) < Val(mod) then Val(x) else Val(x) - Val(mod))
  {
    hide Val, Pow;
    var d, borrow := SubLimbs(x, mod, false);
    BorrowIsLess(x, mod, d, borrow);
    r := if borrow then x else d;
  }

  lemma {:induction false} SumMod(x: nat, y: nat, s: nat, t: nat, m: nat, r: nat)
    requires 0 < m && x < 2 * m && y < 2 * m && r < m
    requires s == (if x < m then x else x - m) && t == (if y < m then y else y - m)
    requires r == s + t || r == s + t - m
    ensures r == (x + y) % m
  {
    var k := (if x < m then 0 else 1) + (if y < m then 0 else 1) + (if r == s + t then 0 else 1);
    assert x + y == k * m + r;
    DivModUnique(x + y, m, k, r);
  }

  /** The fast path: the carry out of the sum and the borrow of the last subtraction decide together. */
  method AddModFast(x: seq<word>, y: seq<word>, mod: seq<word>) returns (r: seq<word>)
    requires IsU256(x) && IsU256(y) && IsU256(mod) && mod[3] != 0 && x[3] <= mod[3] && y[3] <= mod[3]
    ensures Val(mod) > 0
    ensures IsU256(r) && Val(r) == (Val(x) + Val(y)) % Val(mod)
  {
    hide Val, Pow;
    AlmostReduced(x, mod);
    AlmostReduced(y, mod);
    var s := ReduceOnce(x, mod);
    var t := ReduceOnce(y, mod);
    var sum, carry := AddLimbs(s, t, false);
    var diff, borrow := SubLimbs(sum, mod, false);
    BorrowIsLess(sum, mod, diff, borrow);
    ValBound(mod);
    ValBound(sum);
    ValBound(diff);
    r := if carry || !borrow then diff else sum;
    SumMod(Val(x), Val(y), Val(s), Val(t), Val(mod), Val(r));
  }

  /** `addmod`: both paths give the sum modulo the modulus, for all operands. */
  method AddMod(x: seq<word>, y: seq<word>, mod: seq<word>, stray: word) returns (r: seq<word>)
    requires IsU256(x) && IsU256(y) && IsU256(mod) && Val(mod) > 0
    ensures IsU256(r) && Val(r) == (Val(x) + Val(y)) % Val(mod)
  {
    hide Val, Pow;
    if mod[3] != 0 && x[3] <= mod[3] && y[3] <= mod[3] {
      r := AddModFast(x, y, mod);
      return;
    }
    var sum, carry := AddLimbs(x, y, false);
    var n := sum + [Bit(carry)];
    ValPush(sum, Bit(carry));
    var q;
    q, r := Udivrem(n, mod, stray);
    DivModUnique(Val(n), Val(mod), Val(q), Val(r));
  }

  /** `mulmod`: the full product reduced by the long division. */
  method MulMod(x: seq<word>, y: seq<word>, mod: seq<word>, stray: word) returns (r: seq<word>)
    requires IsU256(x) && IsU256(y) && IsU256(mod) && Val(mod) > 0
    ensures IsU256(r) && Val(r) == Val(x) * Val(y) % Val(mod)
  {
    hide Val, Pow;
    var p := UmulLimbs(x, y);
    var q;
    q, r := Udivrem(p, mod, stray);
    DivModUnique(Val(p), Val(mod), Val(q), Val(r));
  }
}
