/** The URL-safe base 64 of section 5 of RFC 4648, as node records use it. */
module Base64Url {
  import opened Bytes

  type digit = x: nat | x < 64

  const PAD: byte := 0x3D

  function CharOf(d: digit): byte {
    if d < 26 then 0x41 + d
    else if d < 52 then 0x61 + (d - 26)
    else if d < 62 then 0x30 + (d - 52)
    else if d == 62 then 0x2D
    else 0x5F
  }

  /** The decoding table. */
  function DigitOf(c: byte): Option<digit> {
    if 0x41 <= c <= 0x5A then Some(c - 0x41)
    else if 0x61 <= c <= 0x7A then Some(c - 0x61 + 26)
    else if 0x30 <= c <= 0x39 then Some(c - 0x30 + 52)
    else if c == 0x2D then Some(62)
    else if c == 0x5F then Some(63)
    else None
  }

  lemma DigitTable(c: byte, d: digit)
    ensures DigitOf(c) == Some(d) <==> c == CharOf(d)
  {}

  function Chars(ds: seq<digit>): (s: bytes)
    ensures |s| == |ds|
  {
    if ds == [] then [] else [CharOf(ds[0])] + Chars(ds[1..])
  }

  /** Three bytes make four digits; one or two bytes left over make two or three. */
  function Digits(b: bytes): seq<digit> {
    if |b| == 0 then []
    else if |b| == 1 then [b[0] / 4, b[0] % 4 * 16]
    else if |b| == 2 then [b[0] / 4, b[0] % 4 * 16 + b[1] / 16, b[1] % 16 * 4]
    else [b[0] / 4, b[0] % 4 * 16 + b[1] / 16, b[1] % 16 * 4 + b[2] / 64, b[2] % 64] + Digits(b[3..])
  }

  function Encode(b: bytes): bytes {
    Chars(Digits(b))
  }

  /** How much a bit buffer of fewer than eight bits can hold. */
  type width = x: nat | x in {0, 2, 4, 6}

  function Room(bits: width): nat {
    if bits == 0 then 1 else if bits == 2 then 4 else if bits == 4 then 16 else 64
  }

  /** Six bits come in; when there are eight, a byte goes out. */
  function After(bits: width): width {
    if bits == 0 then 6 else bits - 2
  }

  function Out(all: nat, bits: width): bytes
    requires all < Room(bits) * 64
  {
    if bits == 0 then [] else [all / Room(After(bits))]
  }

  function Unpack(ds: seq<digit>, left: nat, bits: width): bytes
    requires left < Room(bits)
  {
    if ds == [] then []
    else
      var all := left * 64 + ds[0];
      Out(all, bits) + Unpack(ds[1..], all % Room(After(bits)), After(bits))
  }

  /** The digits of a string without padding, if every character is one. */
  function DigitsOf(s: bytes): Option<seq<digit>> {
    if s == [] then Some([])
    else
      match DigitOf(s[0])
      case None => None
      case Some(d) =>
        match DigitsOf(s[1..])
        case None => None
        case Some(ds) => Some([d] + ds)
  }

  function Stripped(s: bytes): bytes {
    if s != [] && s[|s| - 1] == PAD then Stripped(s[..|s| - 1]) else s
  }

  function Decoded(s: bytes): Option<bytes> {
    match DigitsOf(Stripped(s))
    case None => None
    case Some(ds) => Some(Unpack(ds, 0, 0))
  }

  // ---------------------------------------------------------------------------------------------
  // The decoder and its 32-bit accumulator
  // ---------------------------------------------------------------------------------------------

  const WRAP: nat := 0x1_0000_0000

  lemma NoBits(n: nat, k: nat, t: nat, d: digit)
    requires n * 64 == k * WRAP + t && t < WRAP
    ensures t + d < WRAP && (t + d) % 64 == d
  {
    assert t + d == 64 * (n - k * 0x400_0000) + d;
  }

  lemma TwoBits(q: nat, left: nat, k: nat, t: nat, d: digit)
    requires left < 4 && (q * 4 + left) * 64 == k * WRAP + t && t < WRAP
    ensures t + d < WRAP && (t + d) % 256 == left * 64 + d
  {
    assert t + d == 256 * (q - k * 0x100_0000) + (left * 64 + d);
  }

  lemma FourBits(q: nat, left: nat, k: nat, t: nat, d: digit)
    requires left < 16 && (q * 16 + left) * 64 == k * WRAP + t && t < WRAP
    ensures t + d < WRAP && (t + d) % 4 == (left * 64 + d) % 4 && (t + d) / 4 % 256 == (left * 64 + d) / 4
  {
    var c, all := q - k * 0x40_0000, left * 64 + d;
    var e := 256 * c + all / 4;
    assert t + d == 4 * e + all % 4;
    assert (t + d) / 4 == e && e % 256 == all / 4;
  }

  lemma SixBits(q: nat, left: nat, k: nat, t: nat, d: digit)
    requires left < 64 && (q * 64 + left) * 64 == k * WRAP + t && t < WRAP
    ensures t + d < WRAP && (t + d) % 16 == (left * 64 + d) % 16 && (t + d) / 16 % 256 == (left * 64 + d) / 16
  {
    var c, all := q - k * 0x10_0000, left * 64 + d;
    var e := 256 * c + all / 16;
    assert t + d == 16 * e + all % 16;
    assert (t + d) / 16 == e && e % 256 == all / 16;
  }

  /** One digit in: the bits that still count are the low ones, and the wrapping shift keeps those. */
  lemma {:induction false} ShiftIn(accumulator: nat, d: digit, bits: width)
    requires accumulator < WRAP
    ensures var all, next, m := accumulator % Room(bits) * 64 + d, accumulator * 64 % WRAP + d, Room(After(bits));
            && next < WRAP && next % m == all % m && (bits > 0 ==> next / m % 256 == all / m)
  {
    var k, t := accumulator * 64 / WRAP, accumulator * 64 % WRAP;
    assert accumulator * 64 == k * WRAP + t;
    match bits {
      case 0 => NoBits(accumulator, k, t, d);
      case 2 =>
        var q, left := accumulator / 4, accumulator % 4;
        assert accumulator == q * 4 + left;
        TwoBits(q, left, k, t, d);
      case 4 =>
        var q, left := accumulator / 16, accumulator % 16;
        assert accumulator == q * 16 + left;
        FourBits(q, left, k, t, d);
      case _ =>
        var q, left := accumulator / 64, accumulator % 64;
        assert accumulator == q * 64 + left;
        SixBits(q, left, k, t, d);
    }
  }

  method StripPadding(s: bytes) returns (n: nat)
    ensures n <= |s| && s[..n] == Stripped(s)
  {
    n := |s|;
    assert s[..n] == s;
    while n > 0 && s[n - 1] == PAD
      invariant n <= |s| && Stripped(s[..n]) == Stripped(s)
    {
      assert s[..n][..n - 1] == s[..n - 1];
      n := n - 1;
    }
  }

  /** One turn of the decoding loop. */
  method Feed(accumulator: nat, bits: width, d: digit) returns (next: nat, rest: width, out: bytes)
    requires accumulator < WRAP
    ensures next < WRAP && rest == After(bits)
    ensures var all := accumulator % Room(bits) * 64 + d; next % Room(rest) == all % Room(rest) && out == Out(all, bits)
  {
    ShiftIn(accumulator, d, bits);
    next := accumulator * 64 % WRAP + d;
    var have := bits + 6;
    out := [];
    if have >= 8 {
      have := have - 8;
      out := [next / Room(have) % 256];
    }
    rest := have;
  }

  lemma {:induction false} UnpackNothing(left: nat, bits: width)
    requires left < Room(bits)
    ensures Unpack([], left, bits) == []
  {}

  lemma {:induction false} UnpackStep(d: digit, ds: seq<digit>, left: nat, bits: width, out: bytes)
    requires left < Room(bits)
    ensures var all := left * 64 + d;
            out + Unpack([d] + ds, left, bits)
                == out + Out(all, bits) + Unpack(ds, all % Room(After(bits)), After(bits))
  {
    assert ([d] + ds)[1..] == ds;
  }

  /** `base64url_decode`. */
  method Decode(s: bytes) returns (r: Option<bytes>)
    ensures r == Decoded(s)
  {
    hide Unpack, Out, After, DigitOf;
    var n := StripPadding(s);
    var body := s[..n];
    var accumulator: nat, bits: width, out: bytes := 0, 0, [];
    assert body[0..] == body;
    for i := 0 to n
      invariant accumulator < WRAP
      invariant DigitsOf(body).Some? <==> DigitsOf(body[i..]).Some?
      invariant DigitsOf(body).Some? ==>
                  Unpack(DigitsOf(body).value, 0, 0)
                      == out + Unpack(DigitsOf(body[i..]).value, accumulator % Room(bits), bits)
    {
      var d := DigitOf(body[i]);
      assert body[i..][1..] == body[i + 1..];
      if d.None? { return None; }
      if DigitsOf(body[i + 1..]).Some? {
        UnpackStep(d.value, DigitsOf(body[i + 1..]).value, accumulator % Room(bits), bits, out);
      }
      var byteOut: bytes;
      accumulator, bits, byteOut := Feed(accumulator, bits, d.value);
      out := out + byteOut;
    }
    assert body[n..] == [];
    UnpackNothing(accumulator % Room(bits), bits);
    assert out + [] == out;
    r := Some(out);
  }

  // ---------------------------------------------------------------------------------------------
  // Decoding inverts encoding
  // ---------------------------------------------------------------------------------------------

  lemma {:induction false} CharsAreDigits(ds: seq<digit>)
    ensures DigitsOf(Chars(ds)) == Some(ds)
  {
    if ds != [] {
      DigitTable(CharOf(ds[0]), ds[0]);
      CharsAreDigits(ds[1..]);
      assert Chars(ds)[1..] == Chars(ds[1..]) && [ds[0]] + ds[1..] == ds;
    }
  }

  lemma Plain(s: bytes)
    ensures [] + s == s && [] + [] + s == s
  {}

  /** Four digits fill and empty the buffer; their bytes do not depend on what follows. */
  lemma {:induction false} UnpackGroup(d0: digit, d1: digit, d2: digit, d3: digit, ds: seq<digit>)
    ensures var x := d0 * 64 + d1;
            var y := x % 16 * 64 + d2;
            Unpack([d0, d1, d2, d3] + ds, 0, 0) == [x / 16, y / 4, y % 4 * 64 + d3] + Unpack(ds, 0, 0)
  {
    hide Unpack;
    var x, y := d0 * 64 + d1, (d0 * 64 + d1) % 16 * 64 + d2;
    var e3, e2, e1 := [d3] + ds, [d2] + ([d3] + ds), [d1] + ([d2] + ([d3] + ds));
    assert [d0, d1, d2, d3] + ds == [d0] + e1;
    UnpackStep(d0, e1, 0, 0, []);
    UnpackStep(d1, e2, d0, 6, []);
    UnpackStep(d2, e3, x % 16, 4, []);
    UnpackStep(d3, ds, y % 4, 2, []);
    assert y % 4 * 64 + d3 < 256;
    Plain(Unpack([d0] + e1, 0, 0));
    Plain(Unpack(e1, d0, 6));
    Plain(Unpack(e2, x % 16, 4));
    Plain(Unpack(e3, y % 4, 2));
  }

  /** The digits of three bytes put the bytes together again. */
  lemma Regroup(b0: byte, b1: byte, b2: byte)
    ensures var d0, d1, d2, d3 := b0 / 4, b0 % 4 * 16 + b1 / 16, b1 % 16 * 4 + b2 / 64, b2 % 64;
            var x := d0 * 64 + d1;
            var y := x % 16 * 64 + d2;
            x / 16 == b0 && y / 4 == b1 && y % 4 * 64 + d3 == b2
  {
    var d0, d1, d2 := b0 / 4, b0 % 4 * 16 + b1 / 16, b1 % 16 * 4 + b2 / 64;
    var x: nat := d0 * 64 + d1;
    assert x == 16 * b0 + b1 / 16;
    assert x % 16 == b1 / 16;
    var y: nat := x % 16 * 64 + d2;
    assert y == 4 * b1 + b2 / 64;
    assert y % 4 == b2 / 64;
  }

  lemma {:induction false} UnpackTail1(b0: byte)
    ensures Unpack([b0 / 4, b0 % 4 * 16], 0, 0) == [b0]
  {
    hide Unpack;
    var d0, d1: digit := b0 / 4, b0 % 4 * 16;
    assert d0 * 64 + d1 == 16 * b0;
    assert [d0, d1] == [d0] + ([d1] + []);
    UnpackStep(d0, [d1] + [], 0, 0, []);
    UnpackStep(d1, [], d0, 6, []);
    Plain(Unpack([d0] + ([d1] + []), 0, 0));
    Plain(Unpack([d1] + [], d0, 6));
    UnpackNothing(0, 4);
  }

  lemma {:induction false} UnpackTail2(b0: byte, b1: byte)
    ensures Unpack([b0 / 4, b0 % 4 * 16 + b1 / 16, b1 % 16 * 4], 0, 0) == [b0, b1]
  {
    hide Unpack;
    var d0, d1, d2: digit := b0 / 4, b0 % 4 * 16 + b1 / 16, b1 % 16 * 4;
    Regroup(b0, b1, 0);
    var x: nat := d0 * 64 + d1;
    var y: nat := x % 16 * 64 + d2;
    assert y == 4 * b1;
    var e2: seq<digit> := [d2] + [];
    var e1 := [d1] + e2;
    assert [d0, d1, d2] == [d0] + e1;
    UnpackStep(d0, e1, 0, 0, []);
    UnpackStep(d1, e2, d0, 6, []);
    UnpackStep(d2, [], x % 16, 4, []);
    Plain(Unpack([d0] + e1, 0, 0));
    Plain(Unpack(e1, d0, 6));
    Plain(Unpack(e2, x % 16, 4));
    UnpackNothing(0, 2);
  }

  lemma {:induction false} UnpackInvertsDigits(b: bytes)
    ensures Unpack(Digits(b), 0, 0) == b
    decreases |b|
  {
    hide Unpack;
    if b == [] {
      UnpackNothing(0, 0);
    } else if |b| == 1 {
      UnpackTail1(b[0]);
    } else if |b| == 2 {
      UnpackTail2(b[0], b[1]);
    } else if |b| >= 3 {
      UnpackInvertsDigits(b[3..]);
      Regroup(b[0], b[1], b[2]);
      UnpackGroup(b[0] / 4, b[0] % 4 * 16 + b[1] / 16, b[1] % 16 * 4 + b[2] / 64, b[2] % 64, Digits(b[3..]));
      assert b == [b[0], b[1], b[2]] + b[3..];
    }
  }

  lemma {:induction false} LastChar(ds: seq<digit>)
    requires ds != []
    ensures Chars(ds)[|ds| - 1] == CharOf(ds[|ds| - 1])
  {
    if |ds| > 1 { LastChar(ds[1..]); }
  }

  lemma {:induction false} NoPadding(ds: seq<digit>)
    ensures Stripped(Chars(ds)) == Chars(ds)
  {
    if ds != [] {
      LastChar(ds);
    }
  }

  lemma {:induction false} StrippedPads(s: bytes, k: nat)
    ensures Stripped(s + seq(k, i => PAD)) == Stripped(s)
  {
    var p: bytes := s + seq(k, i => PAD);
    if k == 0 {
      assert p == s;
    } else {
      assert p[..|p| - 1] == s + seq(k - 1, i => PAD);
      StrippedPads(s, k - 1);
    }
  }

  /** Every byte string comes back from its encoding, with or without padding. */
  lemma {:induction false} DecodeInvertsEncode(b: bytes, pads: nat)
    ensures Decoded(Encode(b) + seq(pads, i => PAD)) == Some(b)
  {
    StrippedPads(Encode(b), pads);
    NoPadding(Digits(b));
    CharsAreDigits(Digits(b));
    UnpackInvertsDigits(b);
  }

  // ---------------------------------------------------------------------------------------------
  // What is accepted beyond encodings
  // ---------------------------------------------------------------------------------------------

  /** No lone last digit, and no stray bits behind the last byte. */
  predicate Canonical(ds: seq<digit>) {
    if |ds| == 0 then true
    else if |ds| == 1 then false
    else if |ds| == 2 then ds[1] % 16 == 0
    else if |ds| == 3 then ds[2] % 4 == 0
    else Canonical(ds[4..])
  }

  /** The bytes that four digits give lead back to the digits. */
  lemma Ungroup(d0: digit, d1: digit, d2: digit, d3: digit)
    ensures var x := d0 * 64 + d1;
            var y := x % 16 * 64 + d2;
            var b0, b1, b2 := x / 16, y / 4, y % 4 * 64 + d3;
            && b0 / 4 == d0 && b0 % 4 * 16 + b1 / 16 == d1 && b1 % 16 * 4 + b2 / 64 == d2 && b2 % 64 == d3
            && b1 % 16 * 4 == d2 - d2 % 4 && b0 % 4 * 16 == d1 - d1 % 16
  {
    var x: nat := d0 * 64 + d1;
    assert x / 16 == d0 * 4 + d1 / 16 && x % 16 == d1 % 16;
    var y: nat := x % 16 * 64 + d2;
    assert y / 4 == d1 % 16 * 16 + d2 / 4 && y % 4 == d2 % 4;
  }

  lemma UnpackEnds(a: digit, x: nat, y: nat)
    ensures Unpack([], a, 6) == [] && Unpack([], x % 16, 4) == [] && Unpack([], y % 4, 2) == []
  {}

  lemma {:induction false} UnpackShort(d0: digit, d1: digit, d2: digit)
    ensures Unpack([d0], 0, 0) == []
    ensures Unpack([d0, d1], 0, 0) == [(d0 * 64 + d1) / 16]
    ensures Unpack([d0, d1, d2], 0, 0) == [(d0 * 64 + d1) / 16, ((d0 * 64 + d1) % 16 * 64 + d2) / 4]
  {
    hide Unpack;
    var x := d0 * 64 + d1;
    var e2: seq<digit> := [d2] + [];
    var e1, f1 := [d1] + e2, [d1] + [];
    assert [d0, d1, d2] == [d0] + e1 && [d0, d1] == [d0] + f1 && [d0] == [d0] + [];
    UnpackStep(d0, [], 0, 0, []);
    UnpackStep(d0, f1, 0, 0, []);
    UnpackStep(d0, e1, 0, 0, []);
    UnpackStep(d1, [], d0, 6, []);
    UnpackStep(d1, e2, d0, 6, []);
    UnpackStep(d2, [], x % 16, 4, []);
    UnpackEnds(d0, x, x % 16 * 64 + d2);
    Plain(Unpack([d0] + [], 0, 0));
    Plain(Unpack([d0] + f1, 0, 0));
    Plain(Unpack([d0] + e1, 0, 0));
    Plain(Unpack(f1, d0, 6));
    Plain(Unpack(e1, d0, 6));
    Plain(Unpack(e2, x % 16, 4));
  }

  lemma {:induction false} DigitsOfGroup(b: bytes, ds: seq<digit>)
    requires |ds| >= 4 && |b| >= 3
    requires var x := ds[0] as int * 64 + ds[1]; var y := x % 16 * 64 + ds[2];
             b[..3] == [x / 16, y / 4, y % 4 * 64 + ds[3]]
    ensures Digits(b) == ds[..4] + Digits(b[3..])
  {
    Ungroup(ds[0], ds[1], ds[2], ds[3]);
    assert b[0] == b[..3][0] && b[1] == b[..3][1] && b[2] == b[..3][2];
    assert ds[..4] == [ds[0], ds[1], ds[2], ds[3]];
  }

  lemma {:induction false} SameTail(ds: seq<digit>, es: seq<digit>)
    requires |ds| >= 4
    ensures ds[..4] + es == ds <==> es == ds[4..]
  {
    assert ds == ds[..4] + ds[4..];
    assert (ds[..4] + es)[4..] == es;
  }

  lemma {:induction false} DigitsOfUnpacked(ds: seq<digit>)
    ensures Digits(Unpack(ds, 0, 0)) == ds <==> Canonical(ds)
    decreases |ds|
  {
    hide Unpack;
    if ds == [] {
      UnpackNothing(0, 0);
    } else if |ds| == 1 {
      UnpackShort(ds[0], 0, 0);
      assert ds == [ds[0]];
    } else if |ds| == 2 {
      UnpackShort(ds[0], ds[1], 0);
      Ungroup(ds[0], ds[1], 0, 0);
      assert ds == [ds[0], ds[1]];
    } else if |ds| == 3 {
      UnpackShort(ds[0], ds[1], ds[2]);
      Ungroup(ds[0], ds[1], ds[2], 0);
      assert ds == [ds[0], ds[1], ds[2]];
    } else {
      var rest := ds[4..];
      assert ds == [ds[0], ds[1], ds[2], ds[3]] + rest;
      UnpackGroup(ds[0], ds[1], ds[2], ds[3], rest);
      var b := Unpack(ds, 0, 0);
      assert b[3..] == Unpack(rest, 0, 0);
      DigitsOfGroup(b, ds);
      DigitsOfUnpacked(rest);
      SameTail(ds, Digits(b[3..]));
    }
  }

  lemma {:induction false} CharsOfDigits(s: bytes)
    requires DigitsOf(s).Some?
    ensures Chars(DigitsOf(s).value) == s
  {
    if s != [] {
      CharsOfDigits(s[1..]);
      DigitTable(s[0], DigitOf(s[0]).value);
      var ds := DigitsOf(s).value;
      assert ds[1..] == DigitsOf(s[1..]).value;
      assert s == [s[0]] + s[1..];
    }
  }

  /** Encoding what was decoded gives the string back exactly when its digits are canonical. */
  lemma {:induction false} EncodeInvertsDecodeIff(s: bytes)
    requires Decoded(s).Some?
    ensures Encode(Decoded(s).value) == Stripped(s) <==> Canonical(DigitsOf(Stripped(s)).value)
  {
    var ds := DigitsOf(Stripped(s)).value;
    CharsOfDigits(Stripped(s));
    DigitsOfUnpacked(ds);
    CharsAreDigits(Digits(Unpack(ds, 0, 0)));
    CharsAreDigits(ds);
  }
}
