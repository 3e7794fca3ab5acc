/** Byte strings and the compact big-endian form of natural numbers. */
module Bytes {
  type byte = x: nat | x < 256
  type bytes = seq<byte>

  datatype Result<+T, +E> = Ok(value: T) | Err(error: E) {
    predicate IsFailure() { Err? }
    function PropagateFailure<U>(): Result<U, E>
      requires Err?
    {
      Err(error)
    }
    function Extract(): T
      requires Ok?
    {
      value
    }
  }

  datatype Option<+T> = None | Some(value: T)

  function Pow256(n: nat): (p: nat)
    ensures p > 0
  {
    if n == 0 then 1 else 256 * Pow256(n - 1)
  }

  /** `to_big_compact`: big-endian, no leading zero byte, nothing at all for zero. */
  function ToBigCompact(n: nat): bytes {
    if n == 0 then [] else ToBigCompact(n / 256) + [n % 256]
  }

  /** The value of a big-endian byte string. */
  function FromBig(s: bytes): nat {
    if s == [] then 0 else 256 * FromBig(s[..|s| - 1]) + s[|s| - 1]
  }

  lemma {:induction false} FromBigToBig(n: nat)
    ensures FromBig(ToBigCompact(n)) == n
  {
    if n > 0 {
      FromBigToBig(n / 256);
      var s := ToBigCompact(n);
      assert s[..|s| - 1] == ToBigCompact(n / 256);
    }
  }

  /** The compact form starts with a non-zero byte. */
  lemma {:induction false} CompactHasNoLeadingZero(n: nat)
    requires n > 0
    ensures ToBigCompact(n) != [] && ToBigCompact(n)[0] != 0
  {
    if n >= 256 { CompactHasNoLeadingZero(n / 256); }
  }

  lemma {:induction false} CompactPositive(s: bytes)
    requires s != [] && s[0] != 0
    ensures FromBig(s) > 0
  {
    if |s| > 1 { CompactPositive(s[..|s| - 1]); }
  }

  /** Without a leading zero a byte string is the compact form of its value. */
  lemma {:induction false} CompactOfValue(s: bytes)
    requires s != [] ==> s[0] != 0
    ensures ToBigCompact(FromBig(s)) == s
  {
    if s != [] {
      var t := s[..|s| - 1];
      if t != [] {
        CompactOfValue(t);
        CompactPositive(t);
      }
      assert s == t + [s[|s| - 1]];
      assert FromBig(s) / 256 == FromBig(t) && FromBig(s) % 256 == s[|s| - 1];
    }
  }

  lemma {:induction false} FromBigBound(s: bytes)
    ensures FromBig(s) < Pow256(|s|)
  {
    if s != [] { FromBigBound(s[..|s| - 1]); }
  }

  /** The compact form has at most k bytes exactly when the number is below 256^k. */
  lemma {:induction false} CompactLength(n: nat, k: nat)
    ensures |ToBigCompact(n)| <= k <==> n < Pow256(k)
  {
    if n > 0 && k > 0 { CompactLength(n / 256, k - 1); }
  }

  lemma {:induction false} Pow256Values()
    ensures Pow256(1) == 256 && Pow256(2) == 0x1_0000 && Pow256(4) == 0x1_0000_0000
    ensures Pow256(8) == 0x1_0000_0000_0000_0000
  {
    assert Pow256(2) == 256 * Pow256(1);
    assert Pow256(4) == 256 * (256 * Pow256(2));
    assert Pow256(6) == 256 * (256 * Pow256(4));
    assert Pow256(8) == 256 * (256 * Pow256(6));
  }

  lemma {:induction false} Pow256Mono(a: nat, b: nat)
    requires a <= b
    ensures Pow256(a) <= Pow256(b)
  {
    if a < b { Pow256Mono(a, b - 1); }
  }

  datatype DecodingError =
    | Overflow | LeadingZero | InputTooShort | InputTooLong | NonCanonicalSize | UnexpectedList
    | UnexpectedString | UnexpectedLength | ListLengthMismatch | MalformedHeader

  /** `from_big_compact` for an unsigned type of `width` bytes: the compact form, or one zero byte for zero. */
  function FromBigCompact(s: bytes, width: nat): Result<nat, DecodingError>
  {
    if s == [] then Ok(0)
    else if s[0] == 0 && |s| > 1 then Err(LeadingZero)
    else if |s| == 1 && s[0] == 0 then Ok(0)
    else if |s| > 32 then Err(Overflow)
    else if FromBig(s) >= Pow256(width) then Err(Overflow)
    else Ok(FromBig(s))
  }

  /** Exactly two spellings are accepted for zero and one for every other number. */
  lemma {:induction false} FromBigCompactExact(s: bytes, width: nat, n: nat)
    requires 1 <= width <= 32
    ensures FromBigCompact(s, width) == Ok(n) <==> n < Pow256(width) && (s == ToBigCompact(n) || (n == 0 && s == [0]))
  {
    assert Pow256(width) >= 1;
    if s == ToBigCompact(n) {
      FromBigToBig(n);
      if n > 0 { CompactHasNoLeadingZero(n); }
      if n < Pow256(width) {
        Pow256Mono(width, 32);
        CompactLength(n, 32);
      }
    }
    if s != [] && s[0] != 0 { CompactOfValue(s); }
  }
}
