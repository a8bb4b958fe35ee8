/** What the client does with each packet, as a function of its state and the packet's bytes. */
module Session {
  import opened Bytes
  import opened Framing
  import VarInt
  import Wire

  datatype ConnectionState = HANDSHAKING | STATUS | LOGIN | PLAY

  // The handler a (state, id) pair is dispatched to.
  datatype Kind =
    | GameProfile     // login: ends the login
    | CustomQuery     // login: answered, its data ignored
    | Unsupported     // login: encryption or compression, which abort
    | KeepAlive       // play: echoed
    | CustomPayload   // play: a channel name, then any bytes
    | Ignored         // silenced, or not implemented: discarded
    | Other           // the remaining handlers

  type SmallBody = b: seq<byte> | |b| <= MAX_LENGTH

  // What one of the remaining handlers does: it may queue packets of its own.
  datatype Behaviour = Completes(used: nat, queues: seq<SmallBody>) | Throws(error: Error)

  datatype Config = Config(
    dispatch: map<(ConnectionState, int), Kind>,
    keepAliveId: int,
    queryId: int,
    other: (int, seq<byte>) -> Behaviour)
  {
    // The generated tables give each handler its own state, and ids are 32-bit numbers.
    ghost predicate Valid() {
      && -0x8000_0000 <= keepAliveId < 0x8000_0000
      && -0x8000_0000 <= queryId < 0x8000_0000
      && (forall k :: k in dispatch && dispatch[k].GameProfile? ==> k.0 == LOGIN)
      && (forall k :: k in dispatch && dispatch[k].KeepAlive? ==> k.0 == PLAY)
    }
  }

  // A queued packet.
  datatype Sent = KeepAliveReply(id: int) | QueryReply(messageId: int) | OtherPacket(body: SmallBody)

  datatype Session = Session(state: ConnectionState, sent: seq<Sent>)

  datatype Property = Property(name: seq<byte>, value: seq<byte>, signature: seq<byte>)
  datatype Profile = Profile(high: nat, low: nat, name: seq<byte>, properties: seq<Property>)

  function ReadProperty(s: seq<byte>): Parsed<Property> {
    var (name, s) :- Wire.ReadString(32767, s);
    var (value, s) :- Wire.ReadString(32767, s);
    var (signed, s) :- Wire.ReadBool(s);
    if !signed then Parsed(Property(name, value, []), s)
    else
      var (signature, s) :- Wire.ReadString(32767, s);
      Parsed(Property(name, value, signature), s)
  }

  // `while (prop_count-- > 0)`, with the properties read so far.
  function ReadProperties(count: int, done: seq<Property>, s: seq<byte>): Parsed<seq<Property>>
    decreases if count > 0 then count else 0
  {
    if count <= 0 then Parsed(done, s)
    else
      var (p, s) :- ReadProperty(s);
      ReadProperties(count - 1, done + [p], s)
  }

  function ReadProfile(s: seq<byte>): Parsed<Profile> {
    var (high, s) :- Wire.ReadWord(8, s);
    var (low, s) :- Wire.ReadWord(8, s);
    var (name, s) :- Wire.ReadString(16, s);
    var (count, s) :- Wire.ReadVarInt(s);
    var (properties, s) :- ReadProperties(count, [], s);
    Parsed(Profile(high, low, name, properties), s)
  }

  function Queue(s: Session, p: Sent): Session {
    s.(sent := s.sent + [p])
  }

  function QueueAll(s: Session, bodies: seq<SmallBody>): Session {
    s.(sent := s.sent + seq(|bodies|, i requires 0 <= i < |bodies| => OtherPacket(bodies[i])))
  }

  // A handler ends with the bytes it left, or with the error that stopped its reading.
  function Ends<T>(s: Session, s': Session, p: Parsed<T>): Handled<Session> {
    match p
    case Parsed(_, rest) => Returned(s', |rest|)
    case Failed(e) => Threw(s, e)
  }

  // on_packet_received: the dispatch and the handlers.
  function Handle(cfg: Config, s: Session, id: int, payload: seq<byte>): Handled<Session> {
    if (s.state, id) !in cfg.dispatch then Threw(s, InvalidPacketId)
    else
      match cfg.dispatch[(s.state, id)]
      case GameProfile => Ends(s, s.(state := PLAY), ReadProfile(payload))
      case KeepAlive =>
        var p := Wire.ReadInt(8, payload);
        Ends(s, if p.Parsed? then Queue(s, KeepAliveReply(p.value)) else s, p)
      case CustomQuery =>
        var p := Wire.ReadVarInt(payload);
        if p.Failed? then Threw(s, p.error) else Returned(Queue(s, QueryReply(p.value)), 0)
      case CustomPayload =>
        var p := Wire.ReadString(32767, payload);
        if p.Failed? then Threw(s, p.error) else Returned(s, 0)
      case Unsupported => Threw(s, Aborted)
      case Ignored => Returned(s, 0)
      case Other =>
        match cfg.other(id, payload)
        case Throws(e) => Threw(s, e)
        case Completes(used, queues) =>
          Returned(QueueAll(s, queues), if used < |payload| then |payload| - used else 0)
  }

  function HandlerOf(cfg: Config): Handler<Session> {
    (s, id, payload) => Handle(cfg, s, id, payload)
  }

  // ---- The bytes of a queued packet ------------------------------------------------------------

  // The 32-bit word of a number read by the program; numbers outside the range do not occur.
  function Word(width: nat, v: int): (u: nat)
    requires width > 0
    ensures u < Pow2(width)
  {
    if -(Pow2(width - 1) as int) <= v < Pow2(width - 1) then Unsigned(width, v) else 0
  }

  function BodyOfSent(cfg: Config, p: Sent): seq<byte> {
    match p
    case KeepAliveReply(id) => VarInt.Write(Word(32, cfg.keepAliveId)) + ToBigEndian(8, Word(64, id))
    case QueryReply(m) => VarInt.Write(Word(32, cfg.queryId)) + VarInt.Write(Word(32, m)) + [0]
    case OtherPacket(body) => body
  }

  lemma BodyIsSmall(cfg: Config, p: Sent)
    ensures |BodyOfSent(cfg, p)| <= MAX_LENGTH
  {
    hide VarInt.Write, Word, Pow2;
    match p {
      case KeepAliveReply(id) => VarInt.WriteFits(32, Word(32, cfg.keepAliveId));
      case QueryReply(m) =>
        VarInt.WriteFits(32, Word(32, cfg.queryId));
        VarInt.WriteFits(32, Word(32, m));
      case OtherPacket(body) =>
    }
  }

  function BodiesOfSent(cfg: Config, sent: seq<Sent>): (bodies: seq<seq<byte>>)
    ensures Sendable(bodies)
    decreases |sent|
  {
    if sent == [] then []
    else
      BodyIsSmall(cfg, sent[|sent| - 1]);
      BodiesOfSent(cfg, sent[..|sent| - 1]) + [BodyOfSent(cfg, sent[|sent| - 1])]
  }

  // ---- Runs of the session ---------------------------------------------------------------------

  function StateAfter(cfg: Config, s: Session, log: seq<Frame>): Session {
    SessionAfter(HandlerOf(cfg), s, log)
  }

  // The packet is one that completes the login.
  predicate CompletesLogin(cfg: Config, state: ConnectionState, f: Frame) {
    && (state, f.id) in cfg.dispatch
    && cfg.dispatch[(state, f.id)].GameProfile?
    && ReadProfile(f.payload).Parsed?
  }

  lemma HandleState(cfg: Config, s: Session, f: Frame)
    ensures var s' := Handle(cfg, s, f.id, f.payload).session;
            s'.state == if CompletesLogin(cfg, s.state, f) then PLAY else s.state
  {
    hide ReadProfile, Wire.ReadInt, Wire.ReadVarInt, Wire.ReadString;
  }

  // From LOGIN the state is PLAY exactly once a game profile has been read completely, and
  // otherwise still LOGIN: it never goes anywhere else, and never back.
  lemma {:induction false} StateIsPlayIffLoggedIn(cfg: Config, s: Session, log: seq<Frame>)
    requires cfg.Valid() && (s.state == LOGIN || s.state == PLAY)
    ensures StateAfter(cfg, s, log).state == LOGIN || StateAfter(cfg, s, log).state == PLAY
    ensures StateAfter(cfg, s, log).state == PLAY <==>
            s.state == PLAY || exists i :: 0 <= i < |log| && CompletesLogin(cfg, LOGIN, log[i])
    decreases |log|
  {
    hide CompletesLogin, Handle;
    if log != [] {
      var s' := Handle(cfg, s, log[0].id, log[0].payload).session;
      HandleState(cfg, s, log[0]);
      StateIsPlayIffLoggedIn(cfg, s', log[1..]);
      assert s' == HandlerOf(cfg)(s, log[0].id, log[0].payload).session;
      if i :| 0 <= i < |log| && CompletesLogin(cfg, LOGIN, log[i]) {
        if i > 0 {
          assert log[1..][i - 1] == log[i];
        }
      }
      if i :| 0 <= i < |log[1..]| && CompletesLogin(cfg, LOGIN, log[1..][i]) {
        assert log[i + 1] == log[1..][i];
      }
    }
  }

  lemma {:induction false} StateAfterSplit(cfg: Config, s: Session, a: seq<Frame>, b: seq<Frame>)
    ensures StateAfter(cfg, s, a + b) == StateAfter(cfg, StateAfter(cfg, s, a), b)
    decreases |a|
  {
    hide Handle;
    if a == [] {
      assert a + b == b;
    } else {
      assert (a + b)[1..] == a[1..] + b;
      StateAfterSplit(cfg, HandlerOf(cfg)(s, a[0].id, a[0].payload).session, a[1..], b);
    }
  }

  // In every run the state moves only forward, whatever was dispatched in between.
  lemma StateNeverGoesBack(cfg: Config, s: Session, log: seq<Frame>, i: nat, j: nat)
    requires cfg.Valid() && s.state == LOGIN && i <= j <= |log|
    ensures StateAfter(cfg, s, log[..i]).state == PLAY ==> StateAfter(cfg, s, log[..j]).state == PLAY
  {
    assert log[..j] == log[..i] + log[i..j];
    StateAfterSplit(cfg, s, log[..i], log[i..j]);
    if StateAfter(cfg, s, log[..i]).state == PLAY {
      StateIsPlayIffLoggedIn(cfg, StateAfter(cfg, s, log[..i]), log[i..j]);
    }
  }

  // ---- Keep-alive -------------------------------------------------------------------------------

  function Replies(sent: seq<Sent>): seq<int> {
    if sent == [] then []
    else Replies(sent[..|sent| - 1]) +
         if sent[|sent| - 1].KeepAliveReply? then [sent[|sent| - 1].id] else []
  }

  // The id, if the packet is a keep-alive that can be read completely.
  function KeepAliveOf(cfg: Config, playing: bool, f: Frame): seq<int> {
    if playing && (PLAY, f.id) in cfg.dispatch && cfg.dispatch[(PLAY, f.id)].KeepAlive? && |f.payload| >= 8
    then [Signed(64, BigEndian(f.payload[..8]))] else []
  }

  // The ids of the keep-alive packets read completely, in order of arrival. They are
  // recognised by the connection being in PLAY, which is itself a matter of the packets before.
  function KeepAlives(cfg: Config, playing: bool, log: seq<Frame>): seq<int>
    decreases |log|
  {
    if log == [] then []
    else
      KeepAliveOf(cfg, playing, log[0])
      + KeepAlives(cfg, playing || CompletesLogin(cfg, LOGIN, log[0]), log[1..])
  }

  lemma {:induction false} RepliesOfOthers(sent: seq<Sent>, more: seq<Sent>)
    requires forall p :: p in more ==> !p.KeepAliveReply?
    ensures Replies(sent + more) == Replies(sent)
    decreases |more|
  {
    if more == [] {
      assert sent + more == sent;
    } else {
      var n := |more| - 1;
      assert more[n] in more;
      assert (sent + more)[..|sent + more| - 1] == sent + more[..n];
      RepliesOfOthers(sent, more[..n]);
    }
  }

  lemma RepliesOfOne(sent: seq<Sent>, p: Sent)
    ensures Replies(sent + [p]) == Replies(sent) + if p.KeepAliveReply? then [p.id] else []
  {
    assert (sent + [p])[..|sent + [p]| - 1] == sent;
  }

  lemma HandleReplies(cfg: Config, s: Session, f: Frame)
    requires cfg.Valid() && (s.state == LOGIN || s.state == PLAY)
    ensures Replies(Handle(cfg, s, f.id, f.payload).session.sent)
         == Replies(s.sent) + KeepAliveOf(cfg, s.state == PLAY, f)
  {
    hide ReadProfile, Wire.ReadVarInt, Wire.ReadString, Replies, BigEndian, Signed;
    if (s.state, f.id) in cfg.dispatch {
      match cfg.dispatch[(s.state, f.id)] {
        case KeepAlive =>
          if |f.payload| >= 8 {
            RepliesOfOne(s.sent, KeepAliveReply(Wire.ReadInt(8, f.payload).value));
          }
        case CustomQuery =>
          if Wire.ReadVarInt(f.payload).Parsed? {
            RepliesOfOne(s.sent, QueryReply(Wire.ReadVarInt(f.payload).value));
          }
        case Other =>
          if cfg.other(f.id, f.payload).Completes? {
            var queues := cfg.other(f.id, f.payload).queues;
            RepliesOfOthers(s.sent, QueueAll(s, queues).sent[|s.sent|..]);
            assert QueueAll(s, queues).sent == s.sent + QueueAll(s, queues).sent[|s.sent|..];
          }
        case _ =>
      }
    }
  }

  // The keep-alive replies sent are exactly the ids read, in order.
  lemma {:induction false} RepliesEcho(cfg: Config, s: Session, log: seq<Frame>)
    requires cfg.Valid() && (s.state == LOGIN || s.state == PLAY)
    ensures Replies(StateAfter(cfg, s, log).sent)
         == Replies(s.sent) + KeepAlives(cfg, s.state == PLAY, log)
    decreases |log|
  {
    hide Handle, CompletesLogin, Replies, KeepAliveOf;
    if log != [] {
      var f := log[0];
      var s' := Handle(cfg, s, f.id, f.payload).session;
      assert s' == HandlerOf(cfg)(s, f.id, f.payload).session;
      HandleState(cfg, s, f);
      HandleReplies(cfg, s, f);
      RepliesEcho(cfg, s', log[1..]);
    }
  }

  // Over any stream, cut in any way: the session is that of the packets dispatched, so both
  // results above hold of every run of the receiver.
  lemma EveryRun(cfg: Config, s: Session, chunks: seq<seq<byte>>)
    requires cfg.Valid() && s.state == LOGIN
    ensures var t := Observe(DeliverAll(HandlerOf(cfg), Start(s), chunks));
            && t.session == StateAfter(cfg, s, t.log)
            && (t.session.state == PLAY <==>
                exists i :: 0 <= i < |t.log| && CompletesLogin(cfg, LOGIN, t.log[i]))
            && Replies(t.session.sent) == Replies(s.sent) + KeepAlives(cfg, false, t.log)
  {
    hide CompletesLogin, Handle, Replies, KeepAlives, Deframe;
    var h := HandlerOf(cfg);
    FragmentationIndependence(h, s, chunks);
    var t := Deframe(h, s, Flatten(chunks));
    DeframedSession(h, s, Flatten(chunks));
    StateIsPlayIffLoggedIn(cfg, s, t.log);
    RepliesEcho(cfg, s, t.log);
  }

  // ---- A whole conversation -------------------------------------------------------------------

  // Whatever pieces a server's packets arrive in: if the handlers accept them, all of them are
  // dispatched, the session is theirs, and the keep-alive packets among them have been answered.
  lemma ClientEndToEnd(cfg: Config, s: Session, frames: seq<Frame>, chunks: seq<seq<byte>>)
    requires cfg.Valid() && (s.state == LOGIN || s.state == PLAY) && Accepts(HandlerOf(cfg), s, frames)
    requires Framable(frames) && Flatten(chunks) == Wired(BodiesOf(frames))
    ensures var t := Observe(DeliverAll(HandlerOf(cfg), Start(s), chunks));
            && t.log == frames && t.end == Waiting && t.session == StateAfter(cfg, s, frames)
            && Replies(t.session.sent) == Replies(s.sent) + KeepAlives(cfg, s.state == PLAY, frames)
  {
    hide Handle, Replies, KeepAlives, Deframe, DeliverAll, Accepts, DispatchAll, Wired, BodiesOf;
    var h := HandlerOf(cfg);
    EndToEnd(h, s, frames, chunks);
    FragmentationIndependence(h, s, chunks);
    DeframedSession(h, s, Flatten(chunks));
    RepliesEcho(cfg, s, frames);
  }

  // The reply to a keep-alive packet carries the eight bytes that were read.
  lemma ReplyEchoesBytes(cfg: Config, payload: seq<byte>)
    requires |payload| >= 8
    ensures BodyOfSent(cfg, KeepAliveReply(Signed(64, BigEndian(payload[..8]))))
         == VarInt.Write(Word(32, cfg.keepAliveId)) + payload[..8]
  {
    hide Pow2, VarInt.Write, ToBigEndian, BigEndian;
    ToBigEndianInverts(payload[..8]);
    HalfOfWord(64);
  }

  lemma HalfOfWord(width: nat)
    requires width > 0
    ensures Pow2(width) == 2 * Pow2(width - 1)
  {
  }

  // The packets are keep-alive packets of the PLAY state.
  predicate AllKeepAlives(cfg: Config, frames: seq<Frame>) {
    forall f :: f in frames ==>
      (PLAY, f.id) in cfg.dispatch && cfg.dispatch[(PLAY, f.id)].KeepAlive? && |f.payload| == 8
  }

  // What the client must send for them: its own id for the packet, and their bytes.
  function Echoes(cfg: Config, frames: seq<Frame>): seq<seq<byte>> {
    if frames == [] then []
    else [VarInt.Write(Word(32, cfg.keepAliveId)) + frames[0].payload] + Echoes(cfg, frames[1..])
  }

  lemma {:induction false} KeepAlivesAccepted(cfg: Config, s: Session, frames: seq<Frame>)
    requires s.state == PLAY && AllKeepAlives(cfg, frames)
    ensures Accepts(HandlerOf(cfg), s, frames)
    ensures BodiesOfSent(cfg, StateAfter(cfg, s, frames).sent) == BodiesOfSent(cfg, s.sent) + Echoes(cfg, frames)
    decreases |frames|
  {
    hide VarInt.Write, Word, Handle, BodiesOfSent;
    if frames != [] {
      var f := frames[0];
      assert f in frames;
      var s' := KeepAliveHandled(cfg, s, f);
      KeepAlivesAccepted(cfg, s', frames[1..]);
    }
  }

  lemma KeepAliveHandled(cfg: Config, s: Session, f: Frame) returns (s': Session)
    requires s.state == PLAY && AllKeepAlives(cfg, [f])
    ensures HandlerOf(cfg)(s, f.id, f.payload) == Returned(s', 0) && s'.state == PLAY
    ensures BodiesOfSent(cfg, s'.sent) ==
            BodiesOfSent(cfg, s.sent) + [VarInt.Write(Word(32, cfg.keepAliveId)) + f.payload]
  {
    hide VarInt.Write, BodyOfSent, Word, BigEndian, Signed;
    assert f in [f] && f.payload[..8] == f.payload;
    var p := KeepAliveReply(Signed(64, BigEndian(f.payload[..8])));
    s' := Queue(s, p);
    ReplyEchoesBytes(cfg, f.payload);
    assert (s.sent + [p])[..|s.sent|] == s.sent;
  }

  // Keep-alive packets, in whatever pieces they arrive, are all dispatched, and the bodies that
  // the client queues for them are their own bytes, in order.
  lemma KeepAliveConversation(cfg: Config, s: Session, frames: seq<Frame>, chunks: seq<seq<byte>>)
    requires cfg.Valid() && s.state == PLAY && AllKeepAlives(cfg, frames)
    requires Framable(frames) && Flatten(chunks) == Wired(BodiesOf(frames))
    ensures var t := Observe(DeliverAll(HandlerOf(cfg), Start(s), chunks));
            && t.log == frames && t.end == Waiting
            && BodiesOfSent(cfg, t.session.sent) == BodiesOfSent(cfg, s.sent) + Echoes(cfg, frames)
  {
    hide Handle, Replies, KeepAlives, DeliverAll, Accepts, Wired, BodiesOf, Echoes, AllKeepAlives, BodiesOfSent;
    KeepAlivesAccepted(cfg, s, frames);
    ClientEndToEnd(cfg, s, frames, chunks);
  }
}
