/** The encoder: a flat buffer, a stack of open list starts, and headers inserted backwards. */
module RlpEncoder {
  import opened Arith
  import opened Bytes
  import opened RlpFormat

  /** The buffer as its levels: what is finished at each depth, outermost first. */
  function Flat(levels: seq<bytes>): bytes {
    if levels == [] then [] else Flat(levels[..|levels| - 1]) + levels[|levels| - 1]
  }

  function Top(levels: seq<bytes>): bytes
    requires levels != []
  {
    levels[|levels| - 1]
  }

  function Below(levels: seq<bytes>): seq<bytes>
    requires levels != []
  {
    levels[..|levels| - 1]
  }

  /** Appends finished bytes at the innermost open level. */
  function Extend(levels: seq<bytes>, s: bytes): seq<bytes>
    requires levels != []
  {
    Below(levels) + [Top(levels) + s]
  }

  lemma {:induction false} FlatPush(levels: seq<bytes>, s: bytes)
    ensures Flat(levels + [s]) == Flat(levels) + s
  {
    assert (levels + [s])[..|levels|] == levels;
  }

  lemma {:induction false} FlatExtend(levels: seq<bytes>, s: bytes)
    requires levels != []
    ensures Flat(Extend(levels, s)) == Flat(levels) + s
  {
    FlatPush(Below(levels), Top(levels) + s);
  }

  /** The bytes of `add_integral`: one test per byte position, from the most significant down. */
  function IntegralBytes(n: nat, width: nat): bytes {
    if width <= 1 then [n % 256]
    else (if n / Pow256(width - 1) != 0 then [n / Pow256(width - 1) % 256] else []) + IntegralBytes(n, width - 1)
  }

  lemma {:induction false} StartsKept(before: seq<bytes>, after: seq<bytes>, starts: seq<nat>)
    requires |before| == |after| == |starts| + 1 && Below(before) == Below(after)
    requires forall i :: 0 <= i < |starts| ==> starts[i] == |Flat(before[..i + 1])|
    ensures forall i :: 0 <= i < |starts| ==> starts[i] == |Flat(after[..i + 1])|
  {
    forall i | 0 <= i < |starts| ensures starts[i] == |Flat(after[..i + 1])| {
      assert before[..i + 1] == Below(before)[..i + 1] && after[..i + 1] == Below(after)[..i + 1];
    }
  }

  lemma {:induction false} StartsExtended(levels: seq<bytes>, starts: seq<nat>, size: nat)
    requires |levels| == |starts| + 1 && size == |Flat(levels)|
    requires forall i :: 0 <= i < |starts| ==> starts[i] == |Flat(levels[..i + 1])|
    ensures var s, l := starts + [size], levels + [[]];
            forall i :: 0 <= i < |s| ==> s[i] == |Flat(l[..i + 1])|
  {
    var s, l := starts + [size], levels + [[]];
    forall i | 0 <= i < |s| ensures s[i] == |Flat(l[..i + 1])| {
      assert l[..i + 1] == levels[..i + 1];
      assert levels[..|levels|] == levels;
    }
  }

  lemma {:induction false} StartsClosed(before: seq<bytes>, after: seq<bytes>, starts: seq<nat>)
    requires |before| == |starts| + 2 && |after| == |starts| + 1 && Below(after) == before[..|starts|]
    requires forall i :: 0 <= i < |starts| ==> starts[i] == |Flat(before[..i + 1])|
    ensures forall i :: 0 <= i < |starts| ==> starts[i] == |Flat(after[..i + 1])|
  {
    forall i | 0 <= i < |starts| ensures starts[i] == |Flat(after[..i + 1])| {
      assert after[..i + 1] == Below(after)[..i + 1] == before[..i + 1];
    }
  }

  lemma {:induction false} EmptyIsString()
    ensures EncStr([]) == [SHORT_STRING]
  {
    assert HeaderBytes(false, 0) + [] == [SHORT_STRING];
  }

  lemma {:induction false} ZeroIsCompact()
    ensures ToBigCompact(0) == []
  {}

  lemma {:induction false} SmallIsCompact(n: nat)
    requires 0 < n < 256
    ensures ToBigCompact(n) == [n]
  {
    assert ToBigCompact(n) == ToBigCompact(0) + [n];
  }

  lemma {:induction false} LargeIsNotSingle(n: nat)
    requires n >= SHORT_STRING
    ensures !IsSingleByte(ToBigCompact(n))
  {
    if n < 256 { SmallIsCompact(n); } else { CompactLength(n, 1); Pow256Values(); }
  }

  /** The low k base-256 digits of n, most significant first. */
  ghost function Digits(n: nat, k: nat): bytes {
    if k == 0 then [] else Digits(n / 256, k - 1) + [n % 256]
  }

  lemma {:induction false} DigitsFromTop(n: nat, k: nat)
    requires k >= 1
    ensures Digits(n, k) == [n / Pow256(k - 1) % 256] + Digits(n, k - 1)
  {
    if k > 1 {
      DigitsFromTop(n / 256, k - 1);
      DivTwice(n, 256, Pow256(k - 2));
    }
  }

  lemma {:induction false} AtLeastOnce(n: nat, p: nat)
    requires 0 < p <= n
    ensures n / p != 0
  {
    assert n == (n / p) * p + n % p;
  }

  /** Once the leading byte is non-zero, every later test succeeds and all digits are written. */
  lemma {:induction false} IntegralFull(n: nat, k: nat)
    requires k >= 1 && n >= Pow256(k - 1)
    ensures IntegralBytes(n, k) == Digits(n, k)
  {
    if k > 1 {
      Pow256Mono(k - 2, k - 1);
      IntegralFull(n, k - 1);
      DigitsFromTop(n, k);
      AtLeastOnce(n, Pow256(k - 1));
    }
  }

  lemma {:induction false} CompactIsDigits(n: nat, k: nat)
    requires k >= 1 && Pow256(k - 1) <= n < Pow256(k)
    ensures ToBigCompact(n) == Digits(n, k)
  {
    if k > 1 { CompactIsDigits(n / 256, k - 1); } else { SmallIsCompact(n); }
  }

  lemma {:induction false} IntegralBytesCompact(n: nat, width: nat)
    requires 1 <= width && 0 < n < Pow256(width)
    ensures IntegralBytes(n, width) == ToBigCompact(n)
  {
    if n >= Pow256(width - 1) {
      IntegralFull(n, width);
      CompactIsDigits(n, width);
    } else {
      IntegralBytesCompact(n, width - 1);
      DivModUnique(n, Pow256(width - 1), 0, n);
    }
  }

  /** What the integer overloads write is the string encoding of the compact form. */
  lemma {:induction false} IntegralIsString(n: nat, width: nat)
    requires 1 <= width <= 8 && n < Pow256(width)
    ensures n == 0 ==> EncStr(ToBigCompact(n)) == [SHORT_STRING]
    ensures 0 < n < SHORT_STRING ==> EncStr(ToBigCompact(n)) == [n]
    ensures n >= SHORT_STRING ==>
              var buf := IntegralBytes(n, width);
              |buf| <= 8 && EncStr(ToBigCompact(n)) == [SHORT_STRING + |buf|] + buf
  {
    if 0 < n < SHORT_STRING { SmallIsCompact(n); }
    if n >= SHORT_STRING {
      IntegralBytesCompact(n, width);
      LargeIsNotSingle(n);
      CompactLength(n, width);
    }
  }

  class RlpEncoder {
    var buffer: bytes
    var starts: seq<nat>
    ghost var levels: seq<bytes>

    /** The open starts are where the levels begin, and the levels make up the buffer. */
    ghost predicate Valid()
      reads this
    {
      && |levels| == |starts| + 1 && buffer == Flat(levels)
      && forall i :: 0 <= i < |starts| ==> starts[i] == |Flat(levels[..i + 1])|
    }

    constructor ()
      ensures Valid() && levels == [[]] && buffer == []
    {
      buffer, starts, levels := [], [], [[]];
    }

    /** The common tail of the add operations: finished bytes go to the end of the buffer. */
    method Append(s: bytes)
      requires Valid()
      modifies this
      ensures Valid() && starts == old(starts) && levels == Extend(old(levels), s) && buffer == old(buffer) + s
    {
      FlatExtend(levels, s);
      StartsKept(levels, Extend(levels, s), starts);
      buffer := buffer + s;
      levels := Extend(levels, s);
    }

    /** `add(ByteView)`. */
    method Add(content: bytes) returns (r: Result<(), EncodingError>)
      requires Valid()
      modifies this
      ensures Valid() && starts == old(starts)
      ensures r == if |content| < SIZE_LIMIT then Ok(()) else Err(PayloadTooLarge)
      ensures levels == if r.Ok? then Extend(old(levels), EncStr(content)) else old(levels)
      ensures buffer == if r.Ok? then old(buffer) + EncStr(content) else old(buffer)
    {
      if |content| == 1 && content[0] < SHORT_STRING {
        Append(content);
      } else {
        var header :- EncodeHeader(false, |content|);
        Append(header + content);
      }
      r := Ok(());
    }

    /** `AddRaw`: already encoded bytes; empty input is refused. */
    method AddRaw(s: bytes) returns (r: Result<(), EncodingError>)
      requires Valid()
      modifies this
      ensures Valid() && starts == old(starts)
      ensures r == if s == [] then Err(EmptyInput) else Ok(())
      ensures levels == Extend(old(levels), s) && buffer == old(buffer) + s
    {
      if s == [] {
        assert Top(levels) + s == Top(levels) && Below(levels) + [Top(levels)] == levels && buffer + s == buffer;
        return Err(EmptyInput);
      }
      Append(s);
      r := Ok(());
    }

    /** `add` for an unsigned integer of one, two, four or eight bytes. */
    method AddUint(n: nat, width: nat)
      requires Valid() && width in {1, 2, 4, 8} && n < Pow256(width)
      modifies this
      ensures Valid() && starts == old(starts) && levels == Extend(old(levels), EncStr(ToBigCompact(n)))
      ensures buffer == old(buffer) + EncStr(ToBigCompact(n))
    {
      IntegralIsString(n, width);
      if n == 0 {
        Append([SHORT_STRING]);
      } else if n < SHORT_STRING {
        Append([n]);
      } else {
        var buf := IntegralBytes(n, width);
        Append([SHORT_STRING + |buf|] + buf);
      }
    }

    /** `add` for `bool`. */
    method AddBool(b: bool)
      requires Valid()
      modifies this
      ensures Valid() && starts == old(starts) && levels == Extend(old(levels), EncStr(if b then [1] else []))
      ensures buffer == old(buffer) + EncStr(if b then [1] else [])
    {
      EmptyIsString();
      Append([if b then 1 else SHORT_STRING]);
    }

    /** `add(uint256)`. */
    method AddUint256(n: nat)
      requires Valid() && n < Pow256(32)
      modifies this
      ensures Valid() && starts == old(starts) && levels == Extend(old(levels), EncStr(ToBigCompact(n)))
      ensures buffer == old(buffer) + EncStr(ToBigCompact(n))
    {
      hide ToBigCompact, Pow256;
      CompactLength(n, 32);
      ZeroIsCompact();
      EmptyIsString();
      if n == 0 {
        Append([SHORT_STRING]);
      } else if n < SHORT_STRING {
        SmallIsCompact(n);
        Append([n]);
      } else {
        LargeIsNotSingle(n);
        var be := ToBigCompact(n);
        Append(EncodeHeader(false, |be|).value + be);
      }
    }

    /** `BeginList`: a new, empty level. */
    method BeginList()
      requires Valid()
      modifies this
      ensures Valid() && levels == old(levels) + [[]] && buffer == old(buffer)
              && starts == old(starts) + [|old(buffer)|]
    {
      FlatPush(levels, []);
      assert levels[..|levels|] == levels && (levels + [[]])[..|levels|] == levels;
      StartsExtended(levels, starts, |buffer|);
      starts := starts + [|buffer|];
      levels := levels + [[]];
    }

    /** `EndList`: the innermost level becomes one list in the level below; the header is inserted in front of it. */
    method EndList() returns (r: Result<(), EncodingError>)
      requires Valid()
      modifies this
      ensures Valid()
      ensures |old(starts)| == 0 ==>
              r == Err(UnmatchedEndList) && levels == old(levels) && starts == old(starts) && buffer == old(buffer)
      ensures |old(starts)| > 0 ==>
                var payload := Top(old(levels));
                && starts == old(starts)[..|old(starts)| - 1]
                && r == (if |payload| < SIZE_LIMIT then Ok(()) else Err(PayloadTooLarge))
                && levels == Extend(Below(old(levels)), HeaderBytes(true, |payload|) + payload)
                && buffer == Flat(levels)
    {
      if starts == [] {
        return Err(UnmatchedEndList);
      }
      ghost var payload, outer := Top(levels), Below(levels);
      var start := starts[|starts| - 1];
      FlatPush(outer, payload);
      assert levels == outer + [payload];
      assert start == |Flat(outer)| by { assert levels[..|starts|] == outer; }
      starts := starts[..|starts| - 1];
      var length := |buffer| - start;
      var header := EncodeHeader(true, length);
      ghost var closed := Extend(outer, HeaderBytes(true, |payload|) + payload);
      FlatExtend(outer, HeaderBytes(true, |payload|) + payload);
      StartsClosed(old(levels), closed, starts);
      levels := closed;
      if header.Err? {
        return Err(PayloadTooLarge);
      }
      assert buffer[..start] == Flat(outer) && buffer[start..] == payload;
      buffer := buffer[..start] + header.value + buffer[start..];
      r := Ok(());
    }

    /** `GetBytes` and `MoveBytes`: only when every list is closed. */
    method GetBytes() returns (r: Result<bytes, EncodingError>)
      requires Valid()
      ensures r == if |levels| == 1 then Ok(levels[0]) else Err(UnclosedList)
    {
      if starts != [] {
        return Err(UnclosedList);
      }
      FlatPush([], levels[0]);
      assert levels == [] + [levels[0]] && [] + levels[0] == levels[0];
      r := Ok(buffer);
    }
  }

  // Bookkeeping of the open starts.

  // Integers are strings in compact form.
}
