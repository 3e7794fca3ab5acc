/** Two ends of a connection over whole runs: any interleaving of sends and receives in both directions. */
module FramingRuns {
  import opened Bytes
  import opened RlpxCrypto
  import opened Framing
  import opened FrameCipher

  /** A message and whether compression was on when it was sent. */
  datatype Sent = Sent(message: Message, compressed: bool)

  /** One direction: both ends' states, the bytes in flight, and what went in and came out. */
  datatype Direction = Direction(
    sender: Half, receiver: Half, wire: bytes,
    sent: seq<Sent>, received: seq<Result<Message, SessionError>>)

  /** Each end goes by its own compression flag at the time. */
  datatype Event = Send(m: Sent) | Receive(compressed: bool)

  /** The receiver's flag is the one the next message was sent under; with nothing sent it does not matter. */
  predicate FlagAgrees(d: Direction, e: Event) {
    e.Receive? && |d.received| < |d.sent| ==> e.compressed == d.sent[|d.received|].compressed
  }

  function Step(p: Primitives, k: Keys, d: Direction, e: Event): Direction {
    match e
    case Send(m) =>
      (match SendStep(p, k, m.compressed, d.sender, m.message)
       case Err(_) => d
       case Ok(s) => d.(sender := s.after, wire := d.wire + s.Wire(), sent := d.sent + [m]))
    case Receive(compressed) =>
      if d.wire == [] then d
      else
        var r := ReceiveStep(p, k, compressed, d.receiver, d.wire);
        d.(receiver := r.after, wire := r.inbox, received := d.received + [r.result])
  }

  function Run(p: Primitives, k: Keys, d: Direction, es: seq<Event>): Direction
    decreases |es|
  {
    if es == [] then d else Run(p, k, Step(p, k, d, es[0]), es[1..])
  }

  /** The wire and the sender's state after sealing these messages from state h. */
  function SealAll(p: Primitives, k: Keys, h: Half, ms: seq<Sent>): (bytes, Half)
    decreases |ms|
  {
    if ms == [] then ([], h)
    else
      var s := Seal(p, k, h, MessageData(p, ms[0].compressed, ms[0].message));
      var (wire, after) := SealAll(p, k, s.after, ms[1..]);
      (s.Wire() + wire, after)
  }

  /** The frame data fits its three length bytes. */
  predicate Framable(p: Primitives, m: Sent) {
    |MessageData(p, m.compressed, m.message)| < LENGTH_LIMIT
  }

  /**
   Everything received is right; the receiver is where the sender was after those messages; and what is in
   flight is the rest, sealed from there.
   */
  ghost predicate InStep(p: Primitives, k: Keys, start: Half, d: Direction) {
    && |d.received| <= |d.sent|
    && d.receiver == SealAll(p, k, start, d.sent[..|d.received|]).1
    && (forall i :: 0 <= i < |d.received| ==> d.received[i] == Ok(d.sent[i].message))
    && (forall i :: 0 <= i < |d.sent| ==> Framable(p, d.sent[i]))
    && SealAll(p, k, d.receiver, d.sent[|d.received|..]) == (d.wire, d.sender)
  }

  lemma {:induction false} SealAllPush(p: Primitives, k: Keys, h: Half, ms: seq<Sent>, m: Sent)
    ensures var (wire, after) := SealAll(p, k, h, ms);
            var s := Seal(p, k, after, MessageData(p, m.compressed, m.message));
            SealAll(p, k, h, ms + [m]) == (wire + s.Wire(), s.after)
    decreases |ms|
  {
    hide Seal, MessageData;
    if ms == [] {
      assert ms + [m] == [m] && [m][1..] == [];
      var s := Seal(p, k, h, MessageData(p, m.compressed, m.message));
      assert SealAll(p, k, s.after, []) == ([], s.after);
      assert s.Wire() + [] == [] + s.Wire();
    } else {
      var s := Seal(p, k, h, MessageData(p, ms[0].compressed, ms[0].message));
      assert (ms + [m])[1..] == ms[1..] + [m];
      SealAllPush(p, k, s.after, ms[1..], m);
      var (wire, after) := SealAll(p, k, s.after, ms[1..]);
      var t := Seal(p, k, after, MessageData(p, m.compressed, m.message));
      assert s.Wire() + (wire + t.Wire()) == s.Wire() + wire + t.Wire();
    }
  }

  lemma {:induction false} WireNonempty(s: Sealed, rest: bytes)
    ensures s.Wire() + rest != []
  {}

  lemma {:induction false} SendKeepsStep(p: Primitives, k: Keys, start: Half, d: Direction, m: Sent)
    requires InStep(p, k, start, d) && |MessageData(p, m.compressed, m.message)| != LENGTH_LIMIT
    ensures InStep(p, k, start, Step(p, k, d, Send(m)))
  {
    hide Seal, MessageData, SealAll;
    var unread := d.sent[|d.received|..];
    SealAllPush(p, k, d.receiver, unread, m);
    assert (d.sent + [m])[|d.received|..] == unread + [m];
    assert (d.sent + [m])[..|d.received|] == d.sent[..|d.received|];
  }

  lemma {:induction false} ReceiveKeepsStep(p: Primitives, k: Keys, start: Half, d: Direction, compressed: bool)
    requires InStep(p, k, start, d) && SnappyInverts(p) && FlagAgrees(d, Receive(compressed))
    ensures var e := Step(p, k, d, Receive(compressed));
            && InStep(p, k, start, e)
            && |e.received| == if |d.received| < |d.sent| then |d.received| + 1 else |d.received|
  {
    hide Seal, MessageData, ReceiveFrame, ParseMessage;
    var n := |d.received|;
    if n < |d.sent| {
      var unread, m := d.sent[n..], d.sent[n];
      var data := MessageData(p, m.compressed, m.message);
      var s := Seal(p, k, d.receiver, data);
      var rest := SealAll(p, k, s.after, unread[1..]).0;
      assert d.wire == s.Wire() + rest;
      WireNonempty(s, rest);
      ParseInvertsData(p, m.compressed, m.message);
      ReceiveInvertsSeal(p, k, d.receiver, data, rest);
      assert unread[1..] == d.sent[n + 1..];
      SealAllPush(p, k, start, d.sent[..n], m);
      assert d.sent[..n] + [m] == d.sent[..n + 1];
    } else {
      assert d.sent[n..] == [];
    }
  }

  // ---------------------------------------------------------------------------------------------
  // Both directions
  // ---------------------------------------------------------------------------------------------

  datatype Connection = Connection(forth: Direction, back: Direction)

  datatype Action = Forth(e: Event) | Back(e: Event)

  function Act(p: Primitives, k: Keys, c: Connection, a: Action): Connection {
    match a
    case Forth(e) => c.(forth := Step(p, k, c.forth, e))
    case Back(e) => c.(back := Step(p, k, c.back, e))
  }

  function RunAll(p: Primitives, k: Keys, c: Connection, actions: seq<Action>): Connection
    decreases |actions|
  {
    if actions == [] then c else RunAll(p, k, Act(p, k, c, actions[0]), actions[1..])
  }

  /** No frame of exactly 2^24 bytes is sent: it would be accepted with the length field 0. */
  ghost predicate NoFullFrame(p: Primitives, actions: seq<Action>) {
    forall i :: 0 <= i < |actions| && actions[i].e.Send? ==>
      |MessageData(p, actions[i].e.m.compressed, actions[i].e.m.message)| != LENGTH_LIMIT
  }

  /** In each direction the receiver switches compression at the same message as the sender. */
  predicate FlagsAgree(p: Primitives, k: Keys, c: Connection, actions: seq<Action>)
    decreases |actions|
  {
    actions != [] ==>
      && FlagAgrees(if actions[0].Forth? then c.forth else c.back, actions[0].e)
      && FlagsAgree(p, k, Act(p, k, c, actions[0]), actions[1..])
  }

  lemma {:induction false} StepKeepsStep(p: Primitives, k: Keys, start: Half, d: Direction, e: Event)
    requires InStep(p, k, start, d) && SnappyInverts(p) && FlagAgrees(d, e)
    requires e.Send? ==> |MessageData(p, e.m.compressed, e.m.message)| != LENGTH_LIMIT
    ensures InStep(p, k, start, Step(p, k, d, e))
  {
    hide InStep, Step, SnappyInverts, FlagAgrees;
    match e {
      case Send(m) => SendKeepsStep(p, k, start, d, m);
      case Receive(compressed) => ReceiveKeepsStep(p, k, start, d, compressed);
    }
  }

  lemma {:induction false} RunKeepsStep(p: Primitives, k: Keys, f: Half, b: Half, c: Connection, actions: seq<Action>)
    requires InStep(p, k, f, c.forth) && InStep(p, k, b, c.back) && SnappyInverts(p)
    requires NoFullFrame(p, actions) && FlagsAgree(p, k, c, actions)
    ensures var d := RunAll(p, k, c, actions); InStep(p, k, f, d.forth) && InStep(p, k, b, d.back)
    decreases |actions|
  {
    hide InStep, Step, SnappyInverts, FlagAgrees;
    if actions != [] {
      match actions[0] {
        case Forth(e) => StepKeepsStep(p, k, f, c.forth, e);
        case Back(e) => StepKeepsStep(p, k, b, c.back, e);
      }
      RunKeepsStep(p, k, f, b, Act(p, k, c, actions[0]), actions[1..]);
    }
  }

  /** A fresh direction between two ciphers: the sender's egress and the receiver's ingress. */
  function Fresh(sender: FrameSecrets, receiver: FrameSecrets): Direction {
    Direction(Half(0, sender.egressSeed), Half(0, receiver.ingressSeed), [], [], [])
  }

  function KeysOf(s: FrameSecrets): Keys {
    Keys(s.aesSecret, s.macSecret)
  }

  /**
   The messages come out right and in order. After each one the receiver's counter and transcript are those the
   sender had after it, with the later messages still in flight.
   */
  ghost predicate Faithful(p: Primitives, k: Keys, start: Half, d: Direction) {
    && |d.received| <= |d.sent|
    && (forall i :: 0 <= i < |d.received| ==> d.received[i] == Ok(d.sent[i].message))
    && d.receiver == SealAll(p, k, start, d.sent[..|d.received|]).1
    && d.sender == SealAll(p, k, start, d.sent).1
    && d.wire == SealAll(p, k, d.receiver, d.sent[|d.received|..]).0
    && (|d.received| == |d.sent| <==> d.wire == [])
  }

  lemma {:induction false} SealAllConcat(p: Primitives, k: Keys, h: Half, a: seq<Sent>, b: seq<Sent>)
    ensures SealAll(p, k, h, a + b).1 == SealAll(p, k, SealAll(p, k, h, a).1, b).1
    decreases |a|
  {
    hide Seal, MessageData;
    if a == [] {
      assert a + b == b;
    } else {
      assert (a + b)[1..] == a[1..] + b;
      SealAllConcat(p, k, Seal(p, k, h, MessageData(p, a[0].compressed, a[0].message)).after, a[1..], b);
    }
  }

  lemma {:induction false} InStepIsFaithful(p: Primitives, k: Keys, start: Half, d: Direction)
    requires InStep(p, k, start, d)
    ensures Faithful(p, k, start, d)
  {
    hide Seal, MessageData;
    var n := |d.received|;
    var unread := d.sent[n..];
    SealAllConcat(p, k, start, d.sent[..n], unread);
    assert d.sent[..n] + unread == d.sent;
    if unread != [] {
      var s := Seal(p, k, d.receiver, MessageData(p, unread[0].compressed, unread[0].message));
      WireNonempty(s, SealAll(p, k, s.after, unread[1..]).0);
    }
  }

  /**
   Two ends whose secrets come from one handshake, over every interleaving of sends and receives in both
   directions: every message is received exactly and in order, and after each of them the receiver's transcript
   and keystream position are those the sender had.
   */
  lemma {:induction false} ConnectionFaithful(p: Primitives, a: KeyMaterial, b: KeyMaterial, actions: seq<Action>)
    requires SameHandshake(p, a, b) && SnappyInverts(p) && NoFullFrame(p, actions)
    requires var sa, sb := DeriveFrameSecrets(p, a, true), DeriveFrameSecrets(p, b, false);
             FlagsAgree(p, KeysOf(sa), Connection(Fresh(sa, sb), Fresh(sb, sa)), actions)
    ensures var sa, sb := DeriveFrameSecrets(p, a, true), DeriveFrameSecrets(p, b, false);
            && KeysOf(sa) == KeysOf(sb)
            && var c := RunAll(p, KeysOf(sa), Connection(Fresh(sa, sb), Fresh(sb, sa)), actions);
               && Faithful(p, KeysOf(sa), Half(0, sa.egressSeed), c.forth)
               && Faithful(p, KeysOf(sa), Half(0, sb.egressSeed), c.back)
  {
    hide RunAll, DeriveFrameSecrets, Faithful, SnappyInverts, NoFullFrame, FlagsAgree;
    var sa, sb := DeriveFrameSecrets(p, a, true), DeriveFrameSecrets(p, b, false);
    HandshakeMirrors(p, a, b);
    var k, begun := KeysOf(sa), Connection(Fresh(sa, sb), Fresh(sb, sa));
    var f, g := Half(0, sa.egressSeed), Half(0, sb.egressSeed);
    RunKeepsStep(p, k, f, g, begun, actions);
    var c := RunAll(p, k, begun, actions);
    InStepIsFaithful(p, k, f, c.forth);
    InStepIsFaithful(p, k, g, c.back);
  }

  /** Receives only, under the flags of the messages in flight. */
  ghost predicate Receives(d: Direction, es: seq<Event>) {
    && (forall i :: 0 <= i < |es| ==> es[i].Receive?)
    && forall i :: 0 <= i < |es| && |d.received| + i < |d.sent| ==>
       es[i].compressed == d.sent[|d.received| + i].compressed
  }

  /** Receiving at least as often as was sent empties the wire: nothing is lost or left over. */
  lemma {:induction false} AllDelivered(p: Primitives, k: Keys, start: Half, d: Direction, es: seq<Event>)
    requires InStep(p, k, start, d) && SnappyInverts(p) && Receives(d, es) && |d.sent| - |d.received| <= |es|
    ensures var e := Run(p, k, d, es);
            e.sent == d.sent && |e.received| == |e.sent| && e.wire == [] && e.receiver == e.sender
    decreases |es|
  {
    hide InStep, SnappyInverts, SealAll;
    InStepIsFaithful(p, k, start, d);
    if es == [] {
      assert d.sent[..|d.received|] == d.sent;
    } else {
      ReceiveKeepsStep(p, k, start, d, es[0].compressed);
      AllDelivered(p, k, start, Step(p, k, d, es[0]), es[1..]);
    }
  }

  /** The message that breaks the rule: its frame is sent, and it is refused at the other end. */
  lemma {:induction false} FullFrameIsRefused(p: Primitives, k: Keys, h: Half, m: Sent)
    requires |MessageData(p, m.compressed, m.message)| == LENGTH_LIMIT
    ensures var d := Direction(h, h, [], [], []);
            Run(p, k, d, [Send(m), Receive(m.compressed)]).received == [Err(InvalidMessage)]
  {
    var d := Direction(h, h, [], [], []);
    var data := MessageData(p, m.compressed, m.message);
    var d1 := Step(p, k, d, Send(m));
    var s := Seal(p, k, h, data);
    HeaderOpens(p, k, h, data);
    WireParts(s, []);
    assert d1.wire == s.Wire() + [] by { assert [] + s.Wire() == s.Wire() + []; }
    assert ReceiveFrame(p, k, h, d1.wire).result == [];
    var r := Receive(m.compressed);
    var d2 := Step(p, k, d1, r);
    assert d2.received == [Err(InvalidMessage)];
    assert [Send(m), r][1..] == [r] && [r][1..] == [];
    assert Run(p, k, d, [Send(m), r]) == Run(p, k, d1, [r]) == Run(p, k, d2, []);
  }
}
