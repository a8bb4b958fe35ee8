/** The connection object: the receiving coroutine over its ring buffer, the handlers that
    read through a packet reader, and the send path over a socket that writes in parts. */
module Client {
  import opened Bytes
  import opened Framing
  import opened Packet
  import opened Ring
  import opened Session
  import VarInt
  import Wire

  lemma WiredAppend(bodies: seq<seq<byte>>, body: seq<byte>)
    requires Sendable(bodies) && |body| <= MAX_LENGTH
    ensures Sendable(bodies + [body])
    ensures Wired(bodies + [body]) == Wired(bodies) + FrameOf(body).value
  {
    hide FrameOf;
    if bodies == [] {
      assert [body][1..] == [];
      assert bodies + [body] == [body];
    } else {
      assert (bodies + [body])[1..] == bodies[1..] + [body];
      WiredAppend(bodies[1..], body);
    }
  }

  // Handlers that only read, with the loops of the source.

  method ReadPropertyFrom(s: PacketReader) returns (r: Result<Property>)
    requires s.Valid()
    modifies s, s.ring
    ensures s.Valid() && s.Did(ReadProperty(old(s.Body())), old(s.Beyond()), r)
  {
    hide Wire.ReadString, Wire.ReadBool;
    var name :- s.ReadString(32767);
    var value :- s.ReadString(32767);
    var signed :- s.ReadBool();
    var signature := [];
    if signed {
      signature :- s.ReadString(32767);
    }
    r := Ok(Property(name, value, signature));
  }

  method ReadProfileFrom(s: PacketReader) returns (r: Result<Profile>)
    requires s.Valid()
    modifies s, s.ring
    ensures s.Valid() && s.Did(ReadProfile(old(s.Body())), old(s.Beyond()), r)
  {
    hide Wire.ReadString, Wire.ReadWord, Wire.ReadVarInt, ReadProperty;
    var high :- s.ReadWord(8);
    var low :- s.ReadWord(8);
    var name :- s.ReadString(16);
    var count :- s.ReadVarInt();
    var properties := [];
    ghost var whole := ReadProperties(count, [], s.Body());
    while count > 0
      invariant s.Valid() && s.Beyond() == old(s.Beyond())
      invariant ReadProperties(count, properties, s.Body()) == whole
    {
      var p :- ReadPropertyFrom(s);
      properties := properties + [p];
      count := count - 1;
    }
    r := Ok(Profile(high, low, name, properties));
  }

  class Client {
    const cfg: Config
    const ring: RingBuffer
    var pc: Pc
    var resume: bool       // m_resume is set: a socket read is outstanding
    var front: Span        // the two spans that read was given
    var back: Span
    var state: ConnectionState
    var writeBuffer: seq<byte>
    var wire: seq<byte>    // what the socket has accepted
    ghost var sent: seq<Sent>
    ghost var log: seq<Frame>

    ghost function Sess(): Session
      reads this
    {
      Session(state, sent)
    }

    // The coroutine, as the state machine of module Framing.
    ghost function Abs(): Machine<Session>
      reads this, ring
    {
      Machine(pc, if pc.Done? then [] else ring.contents, Sess(), log)
    }

    ghost predicate Valid()
      reads this, ring, ring.data
    {
      && ring.Valid() && ring.data.Length == MAX_LENGTH
      && Wf(Abs())
      && writeBuffer == [] && wire == Wired(BodiesOfSent(cfg, sent))
    }

    // Between events: either finished, or waiting with exactly one read outstanding, which
    // has room for a byte and whose spans are still the whole free part of the buffer.
    ghost predicate Idle()
      requires ring.Valid()
      reads this, ring, ring.data
    {
      && Suspended(Abs())
      && resume == !pc.Done?
      && (resume ==> front == ring.WriteFront() && back == ring.WriteBack() && front.count + back.count > 0)
    }

    // No read can complete with these bytes: the coroutine has ended, or they do not fit.
    ghost predicate Refuses(bytes: seq<byte>)
      reads this, ring
    {
      pc.Done? || bytes == [] || |ring.contents| + |bytes| > MAX_LENGTH
    }

    constructor (cfg: Config)
      ensures Valid() && fresh(ring) && fresh(ring.data) && !resume
      ensures this.cfg == cfg && Abs() == Start(Session(HANDSHAKING, [])) && wire == []
    {
      this.cfg := cfg;
      ring := new RingBuffer(MAX_LENGTH);
      pc, resume, front, back := ReadLength(0, 0), false, Span(0, 0), Span(0, 0);
      state, writeBuffer, wire, sent, log := HANDSHAKING, [], [], [], [];
    }

    // ---- Sending ---------------------------------------------------------------------------

    method WriteBytes(bytes: seq<byte>)
      modifies `writeBuffer
      ensures writeBuffer == old(writeBuffer) + bytes
    {
      writeBuffer := writeBuffer + bytes;
    }

    // Each write_some takes an arbitrary positive part of what is left.
    method WriteFlush()
      modifies `writeBuffer, `wire
      ensures writeBuffer == [] && wire == old(wire) + old(writeBuffer)
    {
      var offset := 0;
      while offset < |writeBuffer|
        invariant 0 <= offset <= |writeBuffer| && writeBuffer == old(writeBuffer)
        invariant wire == old(wire) + writeBuffer[..offset]
      {
        var n :| 1 <= n <= |writeBuffer| - offset;
        wire := wire + writeBuffer[offset..offset + n];
        offset := offset + n;
      }
      writeBuffer := [];
    }

    method QueueSend(body: seq<byte>) returns (r: Result<()>)
      requires writeBuffer == []
      modifies `writeBuffer, `wire
      ensures writeBuffer == []
      ensures match FrameOf(body)
              case Ok(frame) => r.Ok? && wire == old(wire) + frame
              case Err(e) => r == Err(e) && wire == old(wire)
    {
      hide Pow2, Unsigned, VarInt.Write;
      if |body| > MAX_LENGTH {
        return Err(EncodeError);
      }
      LengthFits(|body|);
      var length := VarInt.WriteImpl(32, |body|);
      WriteBytes(length);
      WriteBytes(body);
      WriteFlush();
      r := Ok(());
    }

    method Send(p: Sent)
      requires Valid()
      modifies `writeBuffer, `wire, `sent
      ensures Valid() && sent == old(sent) + [p]
    {
      hide Wired, FrameOf, BodyOfSent, BodiesOfSent;
      BodyIsSmall(cfg, p);
      BodiesAppend(cfg, sent, p);
      var body := BodyOfSent(cfg, p);
      WiredAppend(BodiesOfSent(cfg, sent), body);
      assert FrameOf(body).Ok? by { hide *; FrameIsOk(body); }
      var r := QueueSend(body);
      sent := sent + [p];
    }

    method SendAll(queues: seq<SmallBody>)
      requires Valid()
      modifies `writeBuffer, `wire, `sent
      ensures Valid() && Sess() == QueueAll(old(Sess()), queues)
    {
      for i := 0 to |queues|
        invariant Valid() && Sess() == QueueAll(old(Sess()), queues[..i])
      {
        hide QueueAll;
        QueueNext(old(Sess()), queues, i);
        Send(OtherPacket(queues[i]));
      }
      assert queues[..|queues|] == queues;
    }

    // ---- Handling ----------------------------------------------------------------------------

    // The outcome of a handler: its session, and what it left of the packet.
    ghost predicate DidHandle(h: Handled<Session>, s: PacketReader, beyond: seq<byte>, r: Result<()>)
      requires s.remaining <= |s.ring.contents|
      reads this, s, s.ring
    {
      match h
      case Returned(s', n) => r.Ok? && Sess() == s' && s.remaining == n && s.Beyond() == beyond
      case Threw(s', e) => r == Err(e) && Sess() == s'
    }

    method OnPacketReceived(id: int, s: PacketReader) returns (r: Result<()>)
      requires Valid() && s.Valid() && s.ring == ring
      modifies `state, `sent, `writeBuffer, `wire, s, ring
      ensures Valid() && s.Valid()
      ensures DidHandle(Handle(cfg, old(Sess()), id, old(s.Body())), s, old(s.Beyond()), r)
    {
      hide Wired, BodiesOfSent, ReadProfile, Wire.ReadInt, Wire.ReadVarInt, Wire.ReadString;
      if (state, id) !in cfg.dispatch {
        return Err(InvalidPacketId);
      }
      match cfg.dispatch[(state, id)] {
        case GameProfile =>
          var profile :- ReadProfileFrom(s);
          state := PLAY;
        case KeepAlive =>
          var keepAliveId :- s.ReadInt(8);
          Send(KeepAliveReply(keepAliveId));
        case CustomQuery =>
          var messageId :- s.ReadVarInt();
          var _ := s.Discard(s.remaining);
          Send(QueryReply(messageId));
        case CustomPayload =>
          var channel :- s.ReadString(32767);
          var _ := s.Discard(s.remaining);
        case Unsupported =>
          return Err(Aborted);
        case Ignored =>
          var _ := s.Discard(s.remaining);
        case Other =>
          r := RunOther(id, s);
          return;
      }
      r := Ok(());
    }

    // The handlers that are not modelled: an arbitrary behaviour that depends on the id and
    // the bytes of the packet.
    method RunOther(id: int, s: PacketReader) returns (r: Result<()>)
      requires Valid() && s.Valid() && s.ring == ring
      modifies `sent, `writeBuffer, `wire, s, ring
      ensures Valid() && s.Valid()
      ensures match cfg.other(id, old(s.Body()))
              case Throws(e) => r == Err(e) && Sess() == old(Sess())
              case Completes(used, queues) =>
                && r.Ok? && Sess() == QueueAll(old(Sess()), queues)
                && s.remaining == (if used < |old(s.Body())| then |old(s.Body())| - used else 0)
                && s.Beyond() == old(s.Beyond())
    {
      var payload := s.Peek();
      match cfg.other(id, payload) {
        case Throws(e) => return Err(e);
        case Completes(used, queues) =>
          var _ := s.Discard(if used < s.remaining then used else s.remaining);
          SendAll(queues);
          r := Ok(());
      }
    }

    // ---- Receiving ---------------------------------------------------------------------------

    // One byte of a packet length. The coroutine awaits it only when there is one.
    method LengthByte()
      requires Valid() && pc.ReadLength? && ring.contents != []
      modifies `pc, ring
      ensures Valid() && Abs() == Step(HandlerOf(cfg), old(Abs()))
    {
      hide Signed, VarInt.Step, Wired;
      var b := ring.Front();
      var _ := ring.Erase(1);
      match VarInt.Step(32, pc.position, pc.value, b.value) {
        case More(position, value) => pc := ReadLength(position, value);
        case Invalid => pc := Done(InvalidVarInt);
        case Complete(u) =>
          var length := Signed(32, u);
          if length <= 0 {
            pc := Done(LengthTooLow);
          } else if length > MAX_LENGTH {
            pc := Done(LengthTooHigh);
          } else {
            pc := WaitBody(length);
          }
      }
    }

    // One packet whose body has arrived.
    method Body()
      requires Valid() && pc.WaitBody? && pc.n <= |ring.contents|
      modifies `pc, `state, `sent, `log, `writeBuffer, `wire, ring
      ensures Valid() && Abs() == Step(HandlerOf(cfg), old(Abs()))
    {
      hide Handle, Wire.ReadVarInt, Wired, BodiesOfSent;
      var reader := new PacketReader(ring, pc.n);
      var id := reader.ReadVarInt();
      if id.Err? {
        pc := Done(id.error);
        return;
      }
      log := log + [Frame(id.value, reader.Body())];
      var r := OnPacketReceived(id.value, reader);
      if r.Err? {
        pc := Done(r.error);
      } else if reader.remaining != 0 {
        pc := Done(TrailingData);
      } else {
        pc := ReadLength(0, 0);
      }
    }

    // resume_on_readable: the assertion that no read is outstanding, and the new read.
    method ResumeOnReadable() returns (ok: bool)
      requires Valid() && Suspended(Abs()) && !pc.Done?
      modifies `resume, `front, `back
      ensures ok == !old(resume)
      ensures ok ==> Valid() && Idle()
    {
      ok := !resume;
      if ok {
        resume := true;
        front, back := ring.WriteFront(), ring.WriteBack();
        RoomToRead(Abs());
      }
    }

    // Resuming the coroutine: it runs to its next suspension, where it starts a read.
    method Resume()
      requires Valid() && !resume
      modifies this, ring
      ensures Valid() && Idle()
      ensures Abs() == Run(HandlerOf(cfg), old(Abs()))
    {
      hide Step;
      while (pc.ReadLength? && ring.Readable() >= 1) || (pc.WaitBody? && ring.Readable() >= pc.n)
        invariant Valid() && !resume
        invariant Run(HandlerOf(cfg), Abs()) == Run(HandlerOf(cfg), old(Abs()))
        decreases |Abs().ring|
      {
        if pc.ReadLength? {
          LengthByte();
        } else {
          Body();
        }
      }
      if !pc.Done? {
        var ok := ResumeOnReadable();
      }
    }

    // A socket read completes with some bytes: they are scattered over the two spans given to
    // the read, counted, and the coroutine is resumed. The result is the exception that
    // on_readable rethrows, if the coroutine ended with one.
    method OnReadCompleted(bytes: seq<byte>) returns (r: Result<()>)
      requires Valid() && Idle() && resume && 0 < |bytes| <= front.count + back.count
      modifies this, ring, ring.data
      ensures Valid() && Idle()
      ensures Abs() == Deliver(HandlerOf(cfg), old(Abs()), bytes)
      ensures r == if pc.Done? then Err(pc.error) else Ok(())
    {
      hide Run, Wired, BodiesOfSent;
      Scatter(ring, front, back, bytes);
      var _ := ring.MarkWrite(|bytes|);
      resume := false;
      Resume();
      r := if pc.Done? then Err(pc.error) else Ok(());
    }

    // on_tcp_connect: the coroutine starts, and suspends at once; then the two login packets.
    method OnTcpConnect(intention: SmallBody, hello: SmallBody)
      requires Valid() && !resume && Abs() == Start(Session(HANDSHAKING, []))
      modifies this, ring
      ensures Valid() && Idle() && resume
      ensures Abs() == Start(Session(LOGIN, [OtherPacket(intention), OtherPacket(hello)]))
    {
      hide Wired, BodiesOfSent, Step;
      Resume();
      assert sent == [];
      Send(OtherPacket(intention));
      state := LOGIN;
      Send(OtherPacket(hello));
      assert sent == [OtherPacket(intention), OtherPacket(hello)];
    }
  }

  // A whole connection: any number of reads, each of any size that fits, until the coroutine
  // ends or the socket goes quiet.
  method Connection(cfg: Config, intention: SmallBody, hello: SmallBody, pieces: seq<seq<byte>>)
    returns (client: Client, ghost taken: seq<seq<byte>>)
    ensures fresh(client) && client.Valid() && taken <= pieces
    ensures var s := Session(LOGIN, [OtherPacket(intention), OtherPacket(hello)]);
            && Observe(client.Abs()) == Deframe(HandlerOf(cfg), s, Flatten(taken))
            && client.wire == Wired(BodiesOfSent(cfg, client.sent))
    ensures |taken| < |pieces| ==> client.Refuses(pieces[|taken|])
  {
    hide Run, Wired, BodiesOfSent, Deframe, DeliverAll;
    client := new Client(cfg);
    client.OnTcpConnect(intention, hello);
    ghost var s := Session(LOGIN, [OtherPacket(intention), OtherPacket(hello)]);
    taken := [];
    NothingDelivered(HandlerOf(cfg), Start(s));
    var i := 0;
    while i < |pieces| && client.resume && 0 < |pieces[i]| <= client.front.count + client.back.count
      invariant i <= |pieces| && taken == pieces[..i]
      invariant client.cfg == cfg && fresh(client) && fresh(client.ring) && fresh(client.ring.data)
      invariant client.Valid() && client.Idle()
      invariant client.Abs() == DeliverAll(HandlerOf(cfg), Start(s), taken)
    {
      DeliverOneMore(HandlerOf(cfg), Start(s), taken, pieces[i]);
      var r := client.OnReadCompleted(pieces[i]);
      taken := taken + [pieces[i]];
      i := i + 1;
    }
    FragmentationIndependence(HandlerOf(cfg), s, taken);
  }

  lemma NothingDelivered<S>(h: Handler<S>, m: Machine<S>)
    requires Wf(m) && Suspended(m)
    ensures DeliverAll(h, m, []) == m
  {
  }

  lemma {:induction false} DeliverOneMore<S>(h: Handler<S>, m: Machine<S>, chunks: seq<seq<byte>>, chunk: seq<byte>)
    requires Wf(m) && Suspended(m)
    ensures DeliverAll(h, m, chunks + [chunk]) == Deliver(h, DeliverAll(h, m, chunks), chunk)
    decreases |chunks|
  {
    hide Run;
    if chunks == [] {
      assert [chunk][1..] == [] && chunks + [chunk] == [chunk];
      assert DeliverAll(h, Deliver(h, m, chunk), []) == Deliver(h, m, chunk);
    } else {
      assert (chunks + [chunk])[1..] == chunks[1..] + [chunk];
      DeliverOneMore(h, Deliver(h, m, chunks[0]), chunks[1..], chunk);
    }
  }

  lemma QueueNext(s: Session, queues: seq<SmallBody>, i: nat)
    requires i < |queues|
    ensures QueueAll(s, queues[..i + 1]) == Queue(QueueAll(s, queues[..i]), OtherPacket(queues[i]))
  {
    assert QueueAll(s, queues[..i + 1]).sent == QueueAll(s, queues[..i]).sent + [OtherPacket(queues[i])];
  }

  lemma LengthFits(n: nat)
    requires n <= MAX_LENGTH
    ensures -(Pow2(31) as int) <= n < Pow2(31) && Unsigned(32, n) == n
  {
    Pow2Widths();
  }

  lemma BodiesAppend(cfg: Config, sent: seq<Sent>, p: Sent)
    ensures BodiesOfSent(cfg, sent + [p]) == BodiesOfSent(cfg, sent) + [BodyOfSent(cfg, p)]
  {
    hide BodyOfSent;
    assert (sent + [p])[..|sent|] == sent;
  }

  lemma FrameIsOk(body: seq<byte>)
    requires |body| <= MAX_LENGTH
    ensures FrameOf(body).Ok?
  {
  }
}
