/** Byte strings cut into pieces and put together again. */
module Pieces {
  import opened Bytes

  function Concat(parts: seq<bytes>): bytes {
    if parts == [] then [] else parts[0] + Concat(parts[1..])
  }

  /** Pieces of n bytes, the last one possibly shorter. */
  function Cut(data: bytes, n: nat): seq<bytes>
    requires n > 0
  {
    if data == [] then []
    else if |data| <= n then [data]
    else [data[..n]] + Cut(data[n..], n)
  }

  ghost predicate AllFull(parts: seq<bytes>, n: nat) {
    forall i :: 0 <= i < |parts| ==> |parts[i]| == n
  }

  lemma {:induction false} ConcatPush(parts: seq<bytes>, part: bytes)
    ensures Concat(parts + [part]) == Concat(parts) + part
  {
    if parts == [] {
      assert parts + [part] == [part] && [part][1..] == [];
    } else {
      assert (parts + [part])[1..] == parts[1..] + [part];
      ConcatPush(parts[1..], part);
    }
  }

  /** Cutting loses nothing and leaves no piece empty or too long. */
  lemma {:induction false} CutConcat(data: bytes, n: nat)
    requires n > 0
    ensures Concat(Cut(data, n)) == data
    ensures forall i :: 0 <= i < |Cut(data, n)| ==> 0 < |Cut(data, n)[i]| <= n
    decreases |data|
  {
    if |data| > n {
      CutConcat(data[n..], n);
      assert data == data[..n] + data[n..];
    } else if data != [] {
      assert [data][1..] == [];
    }
  }

  /** There are ceil(|data| / n) pieces. */
  lemma {:induction false} CutCount(data: bytes, n: nat)
    requires n > 0
    ensures (|Cut(data, n)| - 1) * n < |data| <= |Cut(data, n)| * n
    decreases |data|
  {
    if |data| > n {
      CutCount(data[n..], n);
      var k := |Cut(data[n..], n)|;
      assert (k + 1) * n == k * n + n && (k - 1) * n + n == k * n;
    }
  }

  lemma {:induction false} CutFirst(piece: bytes, rest: bytes, n: nat)
    requires 0 < |piece| <= n && (rest != [] ==> |piece| == n)
    ensures Cut(piece + rest, n) == [piece] + Cut(rest, n)
  {
    if rest == [] {
      assert piece + rest == piece;
    } else {
      assert (piece + rest)[..n] == piece && (piece + rest)[n..] == rest;
    }
  }

  /** Full pieces in front are cut off unchanged. */
  lemma {:induction false} CutAfterFull(parts: seq<bytes>, tail: bytes, n: nat)
    requires n > 0 && AllFull(parts, n) && tail != []
    ensures Cut(Concat(parts) + tail, n) == parts + Cut(tail, n)
    decreases |parts|
  {
    hide Cut;
    if parts == [] {
      assert Concat(parts) + tail == tail;
      assert parts + Cut(tail, n) == Cut(tail, n);
    } else {
      var more := Concat(parts[1..]) + tail;
      assert |parts[0]| == n && Concat(parts) + tail == parts[0] + more;
      CutFirst(parts[0], more, n);
      CutAfterFull(parts[1..], tail, n);
      assert parts == [parts[0]] + parts[1..];
    }
  }

  lemma {:induction false} CutFull(parts: seq<bytes>, n: nat)
    requires n > 0 && AllFull(parts, n)
    ensures Cut(Concat(parts), n) == parts
  {
    if parts != [] {
      var k := |parts| - 1;
      var front, last := parts[..k], parts[k];
      assert parts == front + [last] && last != [];
      ConcatPush(front, last);
      CutAfterFull(front, last, n);
    }
  }
}
