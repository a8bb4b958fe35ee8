/** Packet framing: the receiving coroutine as a state machine over the bytes it has, and the
    plain left-to-right reading of the whole stream that it must agree with. */
module Framing {
  import opened Bytes
  import VarInt
  import Wire

  // The largest packet length, and the capacity of the receive buffer.
  const MAX_LENGTH: nat := 2097151

  // What a packet handler does with its session, the packet id and the bytes after it: it
  // returns with some bytes unread, or throws. A handler reads only through the reader, so
  // this is a function of those bytes.
  datatype Handled<+S> = Returned(session: S, remaining: nat) | Threw(session: S, error: Error)
  type Handler<!S> = (S, int, seq<byte>) -> Handled<S>

  datatype Frame = Frame(id: int, payload: seq<byte>)
  datatype End = Waiting | Stopped(error: Error)

  // The packets dispatched, the session they leave, and how the stream ends: waiting for
  // more bytes, or at the first error.
  datatype Trace<+S> = Trace(log: seq<Frame>, session: S, end: End)

  function After<S>(log: seq<Frame>, t: Trace<S>): Trace<S> {
    t.(log := log + t.log)
  }

  // One complete body: its id, its handler, and no byte left over.
  function OnBody<S>(h: Handler<S>, s: S, body: seq<byte>): Trace<S> {
    match Wire.ReadVarInt(body)
    case Failed(e) => Trace([], s, Stopped(e))
    case Parsed(id, payload) =>
      match h(s, id, payload)
      case Threw(s', e) => Trace([Frame(id, payload)], s', Stopped(e))
      case Returned(s', n) => Trace([Frame(id, payload)], s', if n == 0 then Waiting else Stopped(TrailingData))
  }

  function CheckLength(n: int): (r: Result<nat>)
    ensures r.Ok? ==> 0 < r.value <= MAX_LENGTH
  {
    if n <= 0 then Err(LengthTooLow) else if n > MAX_LENGTH then Err(LengthTooHigh) else Ok(n)
  }

  // ---- The reference: the whole stream, from left to right ------------------------------

  function Deframe<S>(h: Handler<S>, s: S, bytes: seq<byte>): Trace<S>
    decreases |bytes|
  {
    match VarInt.Read(32, bytes)
    case Incomplete(_, _) => Trace([], s, Waiting)
    case Bad => Trace([], s, Stopped(InvalidVarInt))
    case Value(u, used) =>
      match CheckLength(Signed(32, u))
      case Err(e) => Trace([], s, Stopped(e))
      case Ok(n) => DeframeBody(h, s, n, bytes[used..])
  }

  function DeframeBody<S>(h: Handler<S>, s: S, n: nat, bytes: seq<byte>): Trace<S>
    requires n > 0
    decreases |bytes|
  {
    if |bytes| < n then Trace([], s, Waiting)
    else
      var t := OnBody(h, s, bytes[..n]);
      if t.end.Stopped? then t else After(t.log, Deframe(h, t.session, bytes[n..]))
  }

  // ---- The coroutine -----------------------------------------------------------------------

  // Where receiver_task stands: in the loop of the varint reader, waiting for a body, or
  // finished with an exception.
  datatype Pc = ReadLength(position: nat, value: nat) | WaitBody(n: nat) | Done(error: Error)

  // Once the coroutine is done the queued bytes no longer matter; they count as none.
  datatype Machine<+S> = Machine(pc: Pc, ring: seq<byte>, session: S, log: seq<Frame>)

  predicate Wf<S>(m: Machine<S>) {
    m.pc.WaitBody? ==> 0 < m.pc.n <= MAX_LENGTH
  }

  function Start<S>(s: S): (m: Machine<S>)
    ensures Wf(m)
  {
    Machine(ReadLength(0, 0), [], s, [])
  }

  // It cannot go on without more bytes, or at all.
  predicate Suspended<S>(m: Machine<S>) {
    match m.pc
    case ReadLength(_, _) => m.ring == []
    case WaitBody(n) => |m.ring| < n
    case Done(_) => true
  }

  function Fail<S>(m: Machine<S>, e: Error): Machine<S> {
    m.(pc := Done(e), ring := [])
  }

  // From one suspension test to the next.
  function Step<S>(h: Handler<S>, m: Machine<S>): (m': Machine<S>)
    requires Wf(m) && !Suspended(m)
    ensures Wf(m') && |m'.ring| < |m.ring|
  {
    match m.pc
    case ReadLength(position, value) =>
      (match VarInt.Step(32, position, value, m.ring[0])
       case More(p, v) => m.(pc := ReadLength(p, v), ring := m.ring[1..])
       case Invalid => Fail(m, InvalidVarInt)
       case Complete(u) =>
         match CheckLength(Signed(32, u))
         case Err(e) => Fail(m, e)
         case Ok(n) => m.(pc := WaitBody(n), ring := m.ring[1..]))
    case WaitBody(n) =>
      var t := OnBody(h, m.session, m.ring[..n]);
      var m' := m.(session := t.session, log := m.log + t.log);
      if t.end.Stopped? then Fail(m', t.end.error) else m'.(pc := ReadLength(0, 0), ring := m.ring[n..])
  }

  // Resuming the coroutine runs it to its next suspension.
  function Run<S>(h: Handler<S>, m: Machine<S>): (m': Machine<S>)
    requires Wf(m)
    ensures Wf(m') && Suspended(m')
    decreases |m.ring|
  {
    if Suspended(m) then m else Run(h, Step(h, m))
  }

  // One completed socket read. A coroutine that is done has no read outstanding.
  function Deliver<S>(h: Handler<S>, m: Machine<S>, chunk: seq<byte>): (m': Machine<S>)
    requires Wf(m) && Suspended(m)
    ensures Wf(m') && Suspended(m')
  {
    if m.pc.Done? then m else Run(h, m.(ring := m.ring + chunk))
  }

  function DeliverAll<S>(h: Handler<S>, m: Machine<S>, chunks: seq<seq<byte>>): (m': Machine<S>)
    requires Wf(m) && Suspended(m)
    ensures Wf(m') && Suspended(m')
    decreases |chunks|
  {
    if chunks == [] then m else DeliverAll(h, Deliver(h, m, chunks[0]), chunks[1..])
  }

  function Observe<S>(m: Machine<S>): Trace<S> {
    Trace(m.log, m.session, if m.pc.Done? then Stopped(m.pc.error) else Waiting)
  }

  function Flatten(chunks: seq<seq<byte>>): seq<byte> {
    if chunks == [] then [] else chunks[0] + Flatten(chunks[1..])
  }

  // ---- Every interleaving is the left-to-right reading ---------------------------------------

  // What will have been observed once the bytes `more` have arrived as well, by the reference.
  function Future<S>(h: Handler<S>, m: Machine<S>, more: seq<byte>): Trace<S>
    requires Wf(m)
  {
    match m.pc
    case Done(e) => Trace(m.log, m.session, Stopped(e))
    case WaitBody(n) => After(m.log, DeframeBody(h, m.session, n, m.ring + more))
    case ReadLength(position, value) =>
      After(m.log, DeframeFrom(h, position, value, m.session, m.ring + more))
  }

  // Deframe, from the middle of a length.
  function DeframeFrom<S>(h: Handler<S>, position: nat, value: nat, s: S, bytes: seq<byte>): Trace<S> {
    match VarInt.ReadFrom(32, position, value, bytes)
    case Incomplete(_, _) => Trace([], s, Waiting)
    case Bad => Trace([], s, Stopped(InvalidVarInt))
    case Value(u, used) =>
      match CheckLength(Signed(32, u))
      case Err(e) => Trace([], s, Stopped(e))
      case Ok(n) => DeframeBody(h, s, n, bytes[used..])
  }

  lemma ReadStepKeepsFuture<S>(h: Handler<S>, m: Machine<S>, more: seq<byte>)
    requires Wf(m) && m.pc.ReadLength? && !Suspended(m)
    ensures Future(h, Step(h, m), more) == Future(h, m, more)
  {
    hide Signed, CheckLength, VarInt.Step, DeframeBody;
    var bytes := m.ring + more;
    assert bytes[0] == m.ring[0] && bytes[1..] == m.ring[1..] + more;
    assert forall n :: 0 <= n <= |bytes[1..]| ==> bytes[1..][n..] == bytes[n + 1..];
  }

  lemma BodyStepKeepsFuture<S>(h: Handler<S>, m: Machine<S>, more: seq<byte>)
    requires Wf(m) && m.pc.WaitBody? && !Suspended(m)
    ensures Future(h, Step(h, m), more) == Future(h, m, more)
  {
    hide OnBody;
    var n, bytes := m.pc.n, m.ring + more;
    assert bytes[..n] == m.ring[..n] && bytes[n..] == m.ring[n..] + more;
    var t := OnBody(h, m.session, m.ring[..n]);
    if !t.end.Stopped? {
      assert Deframe(h, t.session, bytes[n..]) == DeframeFrom(h, 0, 0, t.session, bytes[n..]);
    }
  }

  lemma {:induction false} RunKeepsFuture<S>(h: Handler<S>, m: Machine<S>, more: seq<byte>)
    requires Wf(m)
    ensures Future(h, Run(h, m), more) == Future(h, m, more)
    decreases |m.ring|
  {
    hide Step, Future;
    if !Suspended(m) {
      if m.pc.ReadLength? {
        ReadStepKeepsFuture(h, m, more);
      } else {
        BodyStepKeepsFuture(h, m, more);
      }
      RunKeepsFuture(h, Step(h, m), more);
    }
  }

  lemma FutureOfNothing<S>(h: Handler<S>, m: Machine<S>)
    requires Wf(m) && Suspended(m)
    ensures Future(h, m, []) == Observe(m)
  {
    assert m.ring + [] == m.ring;
  }

  lemma {:induction false} DeliverAllMeets<S>(h: Handler<S>, m: Machine<S>, chunks: seq<seq<byte>>)
    requires Wf(m) && Suspended(m)
    ensures Observe(DeliverAll(h, m, chunks)) == Future(h, m, Flatten(chunks))
    decreases |chunks|
  {
    hide Run;
    if chunks == [] {
      FutureOfNothing(h, m);
    } else {
      var rest := Flatten(chunks[1..]);
      DeliverAllMeets(h, Deliver(h, m, chunks[0]), chunks[1..]);
      if !m.pc.Done? {
        RunKeepsFuture(h, m.(ring := m.ring + chunks[0]), rest);
        assert m.ring + chunks[0] + rest == m.ring + Flatten(chunks);
      }
    }
  }

  // However the socket cuts the stream, what is dispatched, the session that results and the
  // first error are those of reading the concatenated bytes from left to right.
  lemma FragmentationIndependence<S>(h: Handler<S>, s: S, chunks: seq<seq<byte>>)
    ensures Observe(DeliverAll(h, Start(s), chunks)) == Deframe(h, s, Flatten(chunks))
  {
    DeliverAllMeets(h, Start(s), chunks);
    assert [] + Flatten(chunks) == Flatten(chunks);
  }

  lemma SplitsAgree<S>(h: Handler<S>, s: S, chunks: seq<seq<byte>>, chunks': seq<seq<byte>>)
    requires Flatten(chunks) == Flatten(chunks')
    ensures Observe(DeliverAll(h, Start(s), chunks)) == Observe(DeliverAll(h, Start(s), chunks'))
  {
    FragmentationIndependence(h, s, chunks);
    FragmentationIndependence(h, s, chunks');
  }

  // More bytes only add to what was dispatched, and never undo an error.
  lemma MoreBytesOnlyAdd<S>(h: Handler<S>, s: S, a: seq<byte>, b: seq<byte>)
    ensures var t, u := Deframe(h, s, a), Deframe(h, s, a + b);
            t.log <= u.log && (t.end.Stopped? ==> u == t)
  {
    var m := Deliver(h, Start(s), a);
    FragmentationIndependence(h, s, [a]);
    FragmentationIndependence(h, s, [a, b]);
    assert [a][1..] == [] && [a, b][1..] == [b] && [b][1..] == [];
    assert Flatten([b]) == b && Flatten([a]) == a && Flatten([a, b]) == a + b;
    assert DeliverAll(h, Start(s), [a]) == m;
    assert DeliverAll(h, Start(s), [a, b]) == DeliverAll(h, m, [b]) == Deliver(h, m, b);
    RunKeepsLog(h, m.(ring := m.ring + b));
  }

  lemma {:induction false} RunKeepsLog<S>(h: Handler<S>, m: Machine<S>)
    requires Wf(m)
    ensures m.log <= Run(h, m).log
    decreases |m.ring|
  {
    hide OnBody, VarInt.Step, CheckLength;
    if !Suspended(m) {
      RunKeepsLog(h, Step(h, m));
    }
  }

  // At a suspension that waits for bytes, the buffer has room for at least one more.
  lemma RoomToRead<S>(m: Machine<S>)
    requires Wf(m) && Suspended(m) && !m.pc.Done?
    ensures |m.ring| < MAX_LENGTH
  {
  }

  // ---- The sender's frames -------------------------------------------------------------------

  // queue_send: the length, then the body.
  function FrameOf(body: seq<byte>): Result<seq<byte>> {
    if |body| > MAX_LENGTH then Err(EncodeError)
    else
      assert |body| < 0x8000_0000;
      Ok(VarInt.Write(|body|) + body)
  }

  predicate Sendable(bodies: seq<seq<byte>>) {
    forall b :: b in bodies ==> |b| <= MAX_LENGTH
  }

  function Wired(bodies: seq<seq<byte>>): seq<byte>
    requires Sendable(bodies)
  {
    if bodies == [] then [] else FrameOf(bodies[0]).value + Wired(bodies[1..])
  }

  // Handing the bodies one after the other to the handler.
  function HandleAll<S>(h: Handler<S>, s: S, bodies: seq<seq<byte>>): Trace<S> {
    if bodies == [] then Trace([], s, Waiting)
    else if bodies[0] == [] then Trace([], s, Stopped(LengthTooLow))
    else
      var t := OnBody(h, s, bodies[0]);
      if t.end.Stopped? then t else After(t.log, HandleAll(h, t.session, bodies[1..]))
  }

  lemma DeframeFrame<S>(h: Handler<S>, s: S, body: seq<byte>, more: seq<byte>)
    requires |body| <= MAX_LENGTH
    ensures Deframe(h, s, FrameOf(body).value + more) ==
            if body == [] then Trace([], s, Stopped(LengthTooLow)) else DeframeBody(h, s, |body|, body + more)
  {
    hide OnBody, VarInt.Write, VarInt.Read, DeframeBody;
    var n := |body|;
    Pow2Widths();
    VarInt.RoundTripUnsigned(32, n, body + more);
    var w := VarInt.Write(n);
    assert w + body + more == w + (body + more);
    assert (w + (body + more))[|w|..] == body + more;
  }

  // Of any length that is sent, the receiver takes those from 1 to the largest and refuses the
  // others with the error for each side.
  lemma LengthChecked<S>(h: Handler<S>, s: S, n: int, more: seq<byte>)
    requires Wire.Fits(4, n)
    ensures n <= 0 ==> Deframe(h, s, Wire.EncodeNumber(n) + more) == Trace([], s, Stopped(LengthTooLow))
    ensures n > MAX_LENGTH ==> Deframe(h, s, Wire.EncodeNumber(n) + more) == Trace([], s, Stopped(LengthTooHigh))
    ensures |more| < n <= MAX_LENGTH ==> Deframe(h, s, Wire.EncodeNumber(n) + more) == Trace([], s, Waiting)
  {
    hide VarInt.Write, VarInt.Read;
    var w := VarInt.Write(Unsigned(32, n));
    VarInt.RoundTrip(32, n, more);
    assert (w + more)[|w|..] == more;
  }

  // The largest packet length is the largest number with a varint of three bytes.
  lemma LargestLength(n: nat)
    ensures |VarInt.Write(n)| <= 3 <==> n <= MAX_LENGTH
  {
    var m := n / 128;
    assert n < 128 || |VarInt.Write(n)| == 1 + |VarInt.Write(m)|;
    assert m < 128 || |VarInt.Write(m)| == 1 + |VarInt.Write(m / 128)|;
  }

  // What the receiver makes of a sender's frames is what its handler makes of the bodies,
  // in order; an empty body, which the sender accepts, is the one thing the receiver rejects.
  lemma {:induction false} ReceiveInvertsSend<S>(h: Handler<S>, s: S, bodies: seq<seq<byte>>)
    requires Sendable(bodies)
    ensures Deframe(h, s, Wired(bodies)) == HandleAll(h, s, bodies)
    decreases |bodies|
  {
    hide OnBody, VarInt.Write, FrameOf;
    if bodies == [] {
      assert VarInt.Read(32, []).Incomplete?;
    } else {
      var b, rest := bodies[0], Wired(bodies[1..]);
      DeframeFrame(h, s, b, rest);
      if b != [] {
        assert (b + rest)[..|b|] == b && (b + rest)[|b|..] == rest;
        ReceiveInvertsSend(h, OnBody(h, s, b).session, bodies[1..]);
      }
    }
  }

  // A packet as the sender writes it: its id and its fields.
  function BodyOf(f: Frame): seq<byte>
    requires -0x8000_0000 <= f.id < 0x8000_0000
  {
    Pow2Widths();
    VarInt.Write(Unsigned(32, f.id)) + f.payload
  }

  predicate Framable(frames: seq<Frame>) {
    forall f :: f in frames ==> -0x8000_0000 <= f.id < 0x8000_0000 && |BodyOf(f)| <= MAX_LENGTH
  }

  function BodiesOf(frames: seq<Frame>): (bodies: seq<seq<byte>>)
    requires Framable(frames)
    ensures Sendable(bodies)
  {
    if frames == [] then [] else [BodyOf(frames[0])] + BodiesOf(frames[1..])
  }

  // Dispatching the packets one after the other, until a handler throws or leaves bytes unread.
  function DispatchAll<S>(h: Handler<S>, s: S, frames: seq<Frame>): Trace<S> {
    if frames == [] then Trace([], s, Waiting)
    else
      var f := frames[0];
      match h(s, f.id, f.payload)
      case Threw(s', e) => Trace([f], s', Stopped(e))
      case Returned(s', n) =>
        if n == 0 then After([f], DispatchAll(h, s', frames[1..])) else Trace([f], s', Stopped(TrailingData))
  }

  // Along the run, every handler reads its packet completely.
  predicate Accepts<S>(h: Handler<S>, s: S, frames: seq<Frame>) {
    frames != [] ==>
      var r := h(s, frames[0].id, frames[0].payload);
      r.Returned? && r.remaining == 0 && Accepts(h, r.session, frames[1..])
  }

  // All the packets are dispatched and the receiver waits for more exactly if they are accepted.
  lemma {:induction false} DispatchedIffAccepted<S>(h: Handler<S>, s: S, frames: seq<Frame>)
    ensures var t := DispatchAll(h, s, frames);
            && t.log <= frames
            && (t.end == Waiting <==> Accepts(h, s, frames))
            && (t.end == Waiting ==> t.log == frames)
    decreases |frames|
  {
    if frames != [] {
      var f := frames[0];
      var r := h(s, f.id, f.payload);
      DispatchedIffAccepted(h, r.session, frames[1..]);
      assert [f] + frames[1..] == frames;
    }
  }

  lemma OnBodyOf<S>(h: Handler<S>, s: S, f: Frame)
    requires Framable([f])
    ensures BodyOf(f) != []
    ensures OnBody(h, s, BodyOf(f)) ==
            match h(s, f.id, f.payload)
            case Threw(s', e) => Trace([f], s', Stopped(e))
            case Returned(s', n) => Trace([f], s', if n == 0 then Waiting else Stopped(TrailingData))
  {
    assert f in [f];
    Pow2Widths();
    VarInt.RoundTrip(32, f.id, f.payload);
    var w := VarInt.Write(Unsigned(32, f.id));
    assert (w + f.payload)[|w|..] == f.payload;
  }

  lemma {:induction false} HandleAllBodies<S>(h: Handler<S>, s: S, frames: seq<Frame>)
    requires Framable(frames)
    ensures HandleAll(h, s, BodiesOf(frames)) == DispatchAll(h, s, frames)
    decreases |frames|
  {
    hide OnBody, BodyOf;
    if frames != [] {
      OnBodyOf(h, s, frames[0]);
      HandleAllBodies(h, OnBody(h, s, BodyOf(frames[0])).session, frames[1..]);
    }
  }

  // From sender to handler: whatever pieces the sent frames arrive in, the receiver does what
  // dispatching the packets one after the other does. All of them are dispatched, in order, with
  // the receiver waiting for more, exactly if its handlers accept them.
  lemma EndToEnd<S>(h: Handler<S>, s: S, frames: seq<Frame>, chunks: seq<seq<byte>>)
    requires Framable(frames) && Flatten(chunks) == Wired(BodiesOf(frames))
    ensures var t := Observe(DeliverAll(h, Start(s), chunks));
            && t == DispatchAll(h, s, frames) && t.log <= frames
            && (t.log == frames && t.end == Waiting <==> Accepts(h, s, frames))
  {
    FragmentationIndependence(h, s, chunks);
    ReceiveInvertsSend(h, s, BodiesOf(frames));
    HandleAllBodies(h, s, frames);
    DispatchedIffAccepted(h, s, frames);
  }

  // ---- The session is a function of the packets dispatched -----------------------------------

  function SessionAfter<S>(h: Handler<S>, s: S, log: seq<Frame>): S {
    if log == [] then s
    else SessionAfter(h, h(s, log[0].id, log[0].payload).session, log[1..])
  }

  lemma {:induction false} DeframedSession<S>(h: Handler<S>, s: S, bytes: seq<byte>)
    ensures Deframe(h, s, bytes).session == SessionAfter(h, s, Deframe(h, s, bytes).log)
    decreases |bytes|
  {
    hide Signed, CheckLength, Wire.ReadVarInt;
    match VarInt.Read(32, bytes)
    case Value(u, used) =>
      var length := CheckLength(Signed(32, u));
      if length.Ok? && length.value <= |bytes[used..]| {
        var n, rest := length.value, bytes[used..];
        var t := OnBody(h, s, rest[..n]);
        if !t.end.Stopped? {
          DeframedSession(h, t.session, rest[n..]);
          var u := Deframe(h, t.session, rest[n..]);
          assert (t.log + u.log)[1..] == u.log;
        }
      }
    case _ =>
  }
}
