/** Runs of the encoder: every well-bracketed sequence of calls leaves the encoding of the forest it describes. */
module RlpRuns {
  import opened Bytes
  import opened RlpFormat
  import opened RlpEncoder

  datatype Op = AddOp(content: bytes) | BeginOp | EndOp

  type Frames = f: seq<seq<Item>> | f != [] witness [[]]

  function AddItem(frames: Frames, t: Item): Frames {
    frames[..|frames| - 1] + [frames[|frames| - 1] + [t]]
  }

  /** The open lists as item forests: what one call does to them. */
  function Step(frames: Frames, op: Op): Option<Frames> {
    match op
    case AddOp(content) => Some(AddItem(frames, Str(content)))
    case BeginOp => Some(frames + [[]])
    case EndOp =>
      if |frames| == 1 then None
      else Some(AddItem(frames[..|frames| - 1], List(frames[|frames| - 1])))
  }

  function Run(frames: Frames, ops: seq<Op>): Option<Frames>
    decreases ops
  {
    if ops == [] then Some(frames)
    else
      match Step(frames, ops[0])
      case None => None
      case Some(f) => Run(f, ops[1..])
  }

  /** The calls that write one tree, and one forest. */
  function Calls(t: Item): seq<Op>
    decreases t, 1
  {
    match t
    case Str(content) => [AddOp(content)]
    case List(items) => [BeginOp] + CallsAll(items) + [EndOp]
  }

  function CallsAll(ts: seq<Item>): seq<Op>
    decreases ts, 0
  {
    if ts == [] then [] else Calls(ts[0]) + CallsAll(ts[1..])
  }

  lemma {:induction false} RunConcat(frames: Frames, a: seq<Op>, b: seq<Op>)
    ensures Run(frames, a + b) == match Run(frames, a) case None => None case Some(f) => Run(f, b)
    decreases a
  {
    if a == [] {
      assert a + b == b;
    } else {
      assert (a + b)[1..] == a[1..] + b;
      if Step(frames, a[0]).Some? { RunConcat(Step(frames, a[0]).value, a[1..], b); }
    }
  }

  lemma {:induction false} RunOne(frames: Frames, op: Op)
    ensures Run(frames, [op]) == Step(frames, op)
  {
    assert [op][1..] == [];
  }

  /** The calls for a tree add exactly that tree at the current level. */
  lemma {:induction false} CallsBuildTree(frames: Frames, t: Item)
    ensures Run(frames, Calls(t)) == Some(AddItem(frames, t))
    decreases t, 1
  {
    match t {
      case Str(content) => RunOne(frames, AddOp(content));
      case List(items) =>
        var inner: Frames := frames + [[]];
        RunConcat(frames, [BeginOp] + CallsAll(items), [EndOp]);
        RunConcat(frames, [BeginOp], CallsAll(items));
        RunOne(frames, BeginOp);
        CallsBuildForest(inner, items);
        assert inner[..|inner| - 1] == frames && inner[|inner| - 1] + items == items;
        RunOne(frames + [items], EndOp);
        assert (frames + [items])[..|frames|] == frames;
    }
  }

  lemma {:induction false} CallsBuildForest(frames: Frames, ts: seq<Item>)
    ensures Run(frames, CallsAll(ts)) == Some(frames[..|frames| - 1] + [frames[|frames| - 1] + ts])
    decreases ts, 0
  {
    if ts == [] {
      assert frames[|frames| - 1] + ts == frames[|frames| - 1];
      assert frames == frames[..|frames| - 1] + [frames[|frames| - 1]];
    } else {
      RunConcat(frames, Calls(ts[0]), CallsAll(ts[1..]));
      CallsBuildTree(frames, ts[0]);
      CallsBuildForest(AddItem(frames, ts[0]), ts[1..]);
      var top := frames[|frames| - 1];
      assert top + [ts[0]] + ts[1..] == top + ts;
    }
  }

  /** The calls made so far, read back from the open frames. */
  function Trace(frames: Frames): seq<Op>
  {
    if |frames| == 1 then CallsAll(frames[0])
    else Trace(frames[..|frames| - 1]) + [BeginOp] + CallsAll(frames[|frames| - 1])
  }

  lemma {:induction false} CallsAllPush(ts: seq<Item>, t: Item)
    ensures CallsAll(ts + [t]) == CallsAll(ts) + Calls(t)
  {
    if ts == [] {
      assert [t][1..] == [] && ts + [t] == [t];
    } else {
      assert (ts + [t])[1..] == ts[1..] + [t];
      CallsAllPush(ts[1..], t);
    }
  }

  lemma {:induction false} TraceAddItem(frames: Frames, t: Item)
    ensures Trace(AddItem(frames, t)) == Trace(frames) + Calls(t)
  {
    CallsAllPush(frames[|frames| - 1], t);
    var f := AddItem(frames, t);
    assert f[..|f| - 1] == frames[..|frames| - 1];
  }

  lemma {:induction false} TraceStep(frames: Frames, op: Op)
    requires Step(frames, op).Some?
    ensures Trace(Step(frames, op).value) == Trace(frames) + [op]
  {
    match op {
      case AddOp(content) => TraceAddItem(frames, Str(content));
      case BeginOp => assert (frames + [[]])[..|frames|] == frames;
      case EndOp => TraceAddItem(frames[..|frames| - 1], List(frames[|frames| - 1]));
    }
  }

  /** A run is determined by what it leaves: the calls are the trace of the frames. */
  lemma {:induction false} RunLeavesTrace(frames: Frames, ops: seq<Op>)
    requires Run(frames, ops).Some?
    ensures Trace(Run(frames, ops).value) == Trace(frames) + ops
    decreases ops
  {
    hide Trace, Step;
    if ops == [] {
      assert Trace(frames) + ops == Trace(frames);
    } else {
      var f := Step(frames, ops[0]).value;
      TraceStep(frames, ops[0]);
      RunLeavesTrace(f, ops[1..]);
      assert ops == [ops[0]] + ops[1..];
    }
  }

  /** A call sequence ends with every list closed exactly when it is the calls of a forest, and then of that one. */
  lemma {:induction false} ClosedRunIsForest(ops: seq<Op>, ts: seq<Item>)
    ensures Run([[]], ops) == Some([ts]) <==> ops == CallsAll(ts)
  {
    assert Trace([[]]) == [] && Trace([ts]) == CallsAll(ts);
    if Run([[]], ops) == Some([ts]) {
      RunLeavesTrace([[]], ops);
      assert [] + ops == ops;
    }
    if ops == CallsAll(ts) {
      var start: Frames := [[]];
      CallsBuildForest(start, ts);
      assert start[0] + ts == ts;
      assert start[..0] + [start[0] + ts] == [start[0] + ts] == [ts];
      assert Run(start, ops) == Some([ts]);
    }
  }

  // ---------------------------------------------------------------------------------------------
  // Bracketing
  // ---------------------------------------------------------------------------------------------

  /** Lists opened minus lists closed. */
  function Depth(ops: seq<Op>): int {
    if ops == [] then 0
    else Depth(ops[..|ops| - 1]) + (match ops[|ops| - 1] case AddOp(_) => 0 case BeginOp => 1 case EndOp => -1)
  }

  ghost predicate NeverUnmatched(ops: seq<Op>) {
    forall k :: 0 <= k <= |ops| ==> Depth(ops[..k]) >= 0
  }

  /** A run succeeds exactly when no list is closed more often than opened; the open lists are counted by the depth. */
  lemma {:induction false} RunIffNeverUnmatched(ops: seq<Op>)
    ensures Run([[]], ops).Some? <==> NeverUnmatched(ops)
    ensures Run([[]], ops).Some? ==> |Run([[]], ops).value| == Depth(ops) + 1
  {
    if ops == [] {
      assert ops[..0] == [];
    } else {
      var n := |ops| - 1;
      var init, last := ops[..n], ops[n];
      RunIffNeverUnmatched(init);
      assert ops == init + [last];
      RunConcat([[]], init, [last]);
      if Run([[]], init).Some? { RunOne(Run([[]], init).value, last); }
      assert forall k :: 0 <= k <= n ==> init[..k] == ops[..k];
      assert ops[..n + 1] == ops;
      if NeverUnmatched(ops) { assert Depth(ops[..n + 1]) >= 0; }
    }
  }

  // ---------------------------------------------------------------------------------------------
  // The encoder follows the frames
  // ---------------------------------------------------------------------------------------------

  ghost function Levels(frames: seq<seq<Item>>): seq<bytes> {
    seq(|frames|, i requires 0 <= i < |frames| => EncAll(frames[i]))
  }

  ghost predicate AllEncodable(frames: seq<seq<Item>>) {
    forall i :: 0 <= i < |frames| ==> EncodableAll(frames[i])
  }

  lemma {:induction false} LevelsAddItem(frames: Frames, t: Item)
    ensures Levels(AddItem(frames, t)) == Extend(Levels(frames), Enc(t))
    ensures AllEncodable(AddItem(frames, t)) <==> AllEncodable(frames) && Encodable(t)
  {
    var top := frames[|frames| - 1];
    EncAllConcat(top, [t]);
    EncAllOne(t);
    EncodableAllConcat(top, [t]);
    assert EncodableAll([t]) <==> Encodable(t) by { assert [t][1..] == []; }
    var f := AddItem(frames, t);
    assert forall i :: 0 <= i < |frames| - 1 ==> f[i] == frames[i];
    assert f[|frames| - 1] == top + [t];
  }

  /** What cannot be encoded stays in the frames whatever is called next. */
  lemma {:induction false} EncodableBefore(frames: Frames, op: Op)
    requires Step(frames, op).Some? && AllEncodable(Step(frames, op).value)
    ensures AllEncodable(frames)
  {
    match op {
      case AddOp(content) => LevelsAddItem(frames, Str(content));
      case BeginOp =>
        assert forall i :: 0 <= i < |frames| ==> (frames + [[]])[i] == frames[i];
      case EndOp =>
        LevelsAddItem(frames[..|frames| - 1], List(frames[|frames| - 1]));
        assert forall i :: 0 <= i < |frames| - 1 ==> frames[..|frames| - 1][i] == frames[i];
    }
  }

  lemma {:induction false} EncodableThroughout(frames: Frames, ops: seq<Op>)
    requires Run(frames, ops).Some? && AllEncodable(Run(frames, ops).value)
    ensures AllEncodable(frames)
    decreases ops
  {
    if ops != [] {
      EncodableThroughout(Step(frames, ops[0]).value, ops[1..]);
      EncodableBefore(frames, ops[0]);
    }
  }

  /** One call on the encoder; its levels stay the encodings of the frames. */
  method Execute(e: RlpEncoder, op: Op, ghost frames: Frames) returns (r: Result<(), EncodingError>)
    requires e.Valid() && e.levels == Levels(frames) && AllEncodable(frames)
    modifies e
    ensures e.Valid()
    ensures r.Ok? <==> Step(frames, op).Some? && AllEncodable(Step(frames, op).value)
    ensures r.Ok? ==> e.levels == Levels(Step(frames, op).value)
  {
    match op {
      case AddOp(content) =>
        LevelsAddItem(frames, Str(content));
        r := e.Add(content);
      case BeginOp =>
        e.BeginList();
        assert Levels(frames + [[]]) == Levels(frames) + [[]];
        r := Ok(());
      case EndOp =>
        if |frames| > 1 {
          ghost var outer := frames[..|frames| - 1];
          LevelsAddItem(outer, List(frames[|frames| - 1]));
          assert Below(Levels(frames)) == Levels(outer) && Top(Levels(frames)) == EncAll(frames[|frames| - 1]);
          assert AllEncodable(outer) by { assert forall i :: 0 <= i < |outer| ==> outer[i] == frames[i]; }
        }
        r := e.EndList();
    }
  }

  /**
   A fresh encoder driven by any call sequence. The bytes come out exactly when the calls bracket and every
   payload fits, and they are the concatenated encodings of the forest that the calls describe.
   */
  method Replay(ops: seq<Op>) returns (r: Result<bytes, EncodingError>)
    ensures r.Ok? <==> Run([[]], ops).Some? && |Run([[]], ops).value| == 1 && EncodableAll(Run([[]], ops).value[0])
    ensures r.Ok? ==> r.value == EncAll(Run([[]], ops).value[0])
  {
    var e := new RlpEncoder();
    ghost var frames: Frames := [[]];
    assert Levels(frames) == [[]];
    for i := 0 to |ops|
      invariant e.Valid() && fresh(e) && e.levels == Levels(frames) && AllEncodable(frames)
      invariant Run([[]], ops[..i]) == Some(frames)
    {
      assert ops[..i + 1] == ops[..i] + [ops[i]] && ops == ops[..i] + ops[i..];
      RunConcat([[]], ops[..i], [ops[i]]);
      RunOne(frames, ops[i]);
      RunConcat([[]], ops[..i], ops[i..]);
      var s := Execute(e, ops[i], frames);
      if s.Err? {
        if Step(frames, ops[i]).Some? && Run([[]], ops).Some? && AllEncodable(Run([[]], ops).value) {
          EncodableThroughout(Step(frames, ops[i]).value, ops[i..][1..]);
        }
        return Err(s.error);
      }
      frames := Step(frames, ops[i]).value;
    }
    assert ops[..|ops|] == ops;
    r := e.GetBytes();
  }
}
