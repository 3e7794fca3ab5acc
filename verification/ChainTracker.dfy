/** Deduplication of blocks: a set and a ring buffer that hold the last blocks accepted. */
module ChainTracker {
  type Hash = seq<nat>

  const DEFAULT_WINDOW: nat := 1024

  datatype Block = Block(hash: Hash, number: nat)

  /** The last n elements. */
  function LastOf<T>(s: seq<T>, n: nat): seq<T> {
    if |s| <= n then s else s[|s| - n..]
  }

  function HashesOf(bs: seq<Block>): (hs: seq<Hash>)
    ensures |hs| == |bs| && forall i :: 0 <= i < |bs| ==> hs[i] == bs[i].hash
  {
    seq(|bs|, i requires 0 <= i < |bs| => bs[i].hash)
  }

  /** The hashes a window of size w holds after these acceptances. */
  function Window(accepted: seq<Block>, w: nat): seq<Hash> {
    LastOf(HashesOf(accepted), w)
  }

  /** What `mark_seen` does to the blocks accepted so far. */
  function Marked(accepted: seq<Block>, w: nat, b: Block): seq<Block> {
    if b.hash in Window(accepted, w) then accepted else accepted + [b]
  }

  /** The highest number accepted and the first block that reached it; none before a number above 0. */
  function Tip(accepted: seq<Block>): (nat, seq<Hash>) {
    if accepted == [] then (0, [])
    else
      var b := accepted[|accepted| - 1];
      var (n, h) := Tip(accepted[..|accepted| - 1]);
      if b.number > n then (b.number, [b.hash]) else (n, h)
  }

  ghost predicate Distinct<T(!new)>(s: seq<T>) {
    forall i, j :: 0 <= i < j < |s| ==> s[i] != s[j]
  }

  /** The tip is the maximum, and its hash belongs to a block with that number. */
  lemma {:induction false} TipIsMaximum(accepted: seq<Block>)
    ensures var (n, h) := Tip(accepted);
            && (forall i :: 0 <= i < |accepted| ==> accepted[i].number <= n)
            && (n > 0 ==> exists i :: 0 <= i < |accepted| && accepted[i].number == n && h == [accepted[i].hash]
                                 && forall j :: 0 <= j < i ==> accepted[j].number < n)
            && (n == 0 ==> h == [])
  {
    if accepted != [] {
      var k := |accepted| - 1;
      var before := accepted[..k];
      TipIsMaximum(before);
      assert forall i :: 0 <= i < k ==> before[i] == accepted[i];
      var (n, h) := Tip(before);
      if accepted[k].number > n {
        assert accepted[k].number == Tip(accepted).0;
      } else if n > 0 {
        var i :| 0 <= i < |before| && before[i].number == n && h == [before[i].hash]
                 && forall j :: 0 <= j < i ==> before[j].number < n;
        assert accepted[i].number == n;
      }
    }
  }

  /** The ring, read from its head round, and the set hold exactly this window. */
  ghost predicate Holds(ring: seq<Hash>, head: nat, seen: set<Hash>, w: seq<Hash>) {
    && head < |ring| && |w| <= |ring| && Distinct(w) && seen == (set h | h in w)
    && (|w| < |ring| ==> head == 0 && ring[..|w|] == w)
    && (|w| == |ring| ==> ring[head..] + ring[..head] == w)
  }

  lemma {:induction false} DistinctCount(s: seq<Hash>)
    requires Distinct(s)
    ensures |set h | h in s| == |s|
  {
    if s != [] {
      var k := |s| - 1;
      DistinctCount(s[..k]);
      assert (set h | h in s) == (set h | h in s[..k]) + {s[k]};
      assert s[k] !in s[..k];
    }
  }

  lemma {:induction false} SeenIsWindow(ring: seq<Hash>, head: nat, seen: set<Hash>, w: seq<Hash>)
    requires Holds(ring, head, seen, w)
    ensures head < |ring| && |seen| == |w| <= |ring| && Distinct(w) && forall h :: h in seen <==> h in w
  {
    DistinctCount(w);
  }

  /** Overwriting the oldest slot and moving the head is dropping the first and appending. */
  lemma {:induction false} Rotate(ring: seq<Hash>, head: nat, h: Hash)
    requires head < |ring|
    ensures var after, next := ring[head := h], (head + 1) % |ring|;
            next < |ring| && after[next..] + after[..next] == (ring[head..] + ring[..head])[1..] + [h]
  {
    var after := ring[head := h];
    if head + 1 < |ring| {
      assert (head + 1) % |ring| == head + 1;
      assert after[head + 1..] == ring[head + 1..] && after[..head + 1] == ring[..head] + [h];
      assert (ring[head..] + ring[..head])[1..] == ring[head + 1..] + ring[..head];
    } else {
      assert (head + 1) % |ring| == 0;
      assert (ring[head..] + ring[..head])[1..] == ring[..head];
      assert after == ring[..head] + [h];
    }
  }

  lemma {:induction false} SetOfTail(w: seq<Hash>, h: Hash)
    requires w != [] && Distinct(w)
    ensures (set x | x in w) - {w[0]} + {h} == (set x | x in w[1..] + [h])
  {
    assert forall x :: x in w[1..] + [h] <==> x in w[1..] || x == h;
    assert forall x :: x in w <==> x == w[0] || x in w[1..];
    assert w[0] !in w[1..];
  }

  /** In a full ring a new hash takes the place of the oldest. */
  lemma {:induction false} HoldsTurn(ring: seq<Hash>, head: nat, seen: set<Hash>, w: seq<Hash>, h: Hash)
    requires Holds(ring, head, seen, w) && |w| == |ring| && h !in w
    ensures Holds(ring[head := h], (head + 1) % |ring|, seen - {ring[head]} + {h}, w[1..] + [h])
  {
    Rotate(ring, head, h);
    SetOfTail(w, h);
    assert w[0] == ring[head];
  }

  /** Before that it goes behind the last one. */
  lemma {:induction false} HoldsFill(ring: seq<Hash>, head: nat, seen: set<Hash>, w: seq<Hash>, h: Hash)
    requires Holds(ring, head, seen, w) && |w| < |ring| && h !in w
    ensures Holds(ring[|w| := h], head, seen + {h}, w + [h])
  {
    var after := ring[|w| := h];
    assert after[..|w| + 1] == w + [h];
    assert |w| + 1 == |ring| ==> after == w + [h] && after[0..] + after[..0] == after;
  }

  /** A new hash enters at the back; a full window loses its oldest. */
  lemma {:induction false} WindowPush(accepted: seq<Block>, b: Block, n: nat)
    requires n > 0 && Distinct(Window(accepted, n)) && b.hash !in Window(accepted, n)
    ensures var w, v := Window(accepted, n), Window(accepted + [b], n);
            && v == (if |w| < n then w + [b.hash] else w[1..] + [b.hash])
            && Distinct(v)
  {
    assert HashesOf(accepted + [b]) == HashesOf(accepted) + [b.hash];
    var w, v := Window(accepted, n), Window(accepted + [b], n);
    if |w| < n {
      assert v == w + [b.hash];
    } else {
      assert v == w[1..] + [b.hash];
    }
  }

  lemma {:induction false} TipPush(accepted: seq<Block>, b: Block)
    ensures var (n, h) := Tip(accepted); Tip(accepted + [b]) == if b.number > n then (b.number, [b.hash]) else (n, h)
  {
    assert (accepted + [b])[..|accepted|] == accepted;
  }

  class ChainTracker {
    const size: nat
    const ring: array<Hash>
    var seen: set<Hash>
    var head: nat
    var tipNumber: nat
    var tipHash: seq<Hash>
    ghost var accepted: seq<Block>

    /** The ring, from its head round, and the set are the last `size` accepted hashes. */
    ghost predicate Valid()
      reads this, ring
    {
      && 0 < size == ring.Length && Holds(ring[..], head, seen, Window(accepted, size))
      && (tipNumber, tipHash) == Tip(accepted)
    }

    constructor (window: nat)
      ensures Valid() && fresh(ring) && accepted == [] && size == if window == 0 then DEFAULT_WINDOW else window
    {
      var n := if window == 0 then DEFAULT_WINDOW else window;
      size := n;
      ring := new Hash[n](_ => []);
      seen, head, tipNumber, tipHash, accepted := {}, 0, 0, [], [];
    }

    /** `mark_seen`: accepted exactly when the hash is not among the last `size` accepted ones. */
    method MarkSeen(b: Block) returns (isNew: bool)
      requires Valid()
      modifies this, ring
      ensures Valid()
      ensures isNew <==> b.hash !in Window(old(accepted), size)
      ensures accepted == Marked(old(accepted), size, b)
    {
      hide Tip, Holds, Window, Distinct;
      SeenIsWindow(ring[..], head, seen, Window(accepted, size));
      if b.hash in seen { return false; }
      WindowPush(accepted, b, size);
      TipPush(accepted, b);
      Insert(b.hash, Window(accepted, size));
      accepted := accepted + [b];
      if b.number > tipNumber {
        tipNumber, tipHash := b.number, [b.hash];
      }
      isNew := true;
    }

    method Insert(h: Hash, ghost w: seq<Hash>)
      requires 0 < size == ring.Length && Holds(ring[..], head, seen, w) && h !in w
      modifies this`seen, this`head, ring
      ensures Holds(ring[..], head, seen, if |w| < size then w + [h] else w[1..] + [h])
    {
      hide Holds;
      SeenIsWindow(ring[..], head, seen, w);
      if |seen| >= size {
        ReplaceOldest(h, w);
      } else {
        HoldsFill(ring[..], head, seen, w, h);
        Put(|seen|, h);
        seen := seen + {h};
      }
    }

    method ReplaceOldest(h: Hash, ghost w: seq<Hash>)
      requires 0 < size == ring.Length == |w| && head < size && Holds(ring[..], head, seen, w) && h !in w
      modifies this`seen, this`head, ring
      ensures Holds(ring[..], head, seen, w[1..] + [h])
    {
      hide Holds;
      HoldsTurn(ring[..], head, seen, w, h);
      seen := seen - {ring[head]};
      Put(head, h);
      head := (head + 1) % size;
      seen := seen + {h};
    }

    method Put(i: nat, h: Hash)
      requires i < ring.Length
      modifies ring
      ensures ring[..] == old(ring[..])[i := h]
    {
      ring[i] := h;
    }

    method Reset()
      requires Valid()
      modifies this, ring
      ensures Valid() && accepted == []
    {
      tipNumber, tipHash, seen := 0, [], {};
      forall i | 0 <= i < ring.Length { ring[i] := []; }
      head, accepted := 0, [];
    }
  }

  // ---------------------------------------------------------------------------------------------
  // Repeats
  // ---------------------------------------------------------------------------------------------

  function MarkAll(accepted: seq<Block>, w: nat, bs: seq<Block>): seq<Block>
    decreases |bs|
  {
    if bs == [] then accepted else MarkAll(Marked(accepted, w, bs[0]), w, bs[1..])
  }

  /** Between two acceptances of one hash lie at least w others. */
  ghost predicate FarApart(accepted: seq<Block>, w: nat) {
    forall i, j :: 0 <= i < j < |accepted| && accepted[i].hash == accepted[j].hash ==> j - i - 1 >= w
  }

  lemma {:induction false} MarkedFarApart(accepted: seq<Block>, w: nat, b: Block)
    requires FarApart(accepted, w)
    ensures FarApart(Marked(accepted, w, b), w)
  {
    var hs, win := HashesOf(accepted), Window(accepted, w);
    var k := |accepted|;
    assert forall m :: k - |win| <= m < k ==> hs[m] == win[m - (k - |win|)];
    if b.hash !in win {
      forall i | 0 <= i < k && accepted[i].hash == b.hash ensures k - i - 1 >= w {
        assert hs[i] == b.hash;
      }
    }
  }

  lemma {:induction false} RepeatsFarApart(accepted: seq<Block>, w: nat, bs: seq<Block>)
    requires FarApart(accepted, w)
    ensures FarApart(MarkAll(accepted, w, bs), w)
    decreases |bs|
  {
    hide FarApart, Marked;
    if bs != [] {
      MarkedFarApart(accepted, w, bs[0]);
      RepeatsFarApart(Marked(accepted, w, bs[0]), w, bs[1..]);
    }
  }
}
