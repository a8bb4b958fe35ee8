/** What the client makes of the packets that a server sends: each kind is written by an encoder
    here, and read and answered by the handlers. */
module Conversation {
  import opened Bytes
  import opened Framing
  import opened Session
  import opened Wire
  import Fields
  import VarInt

  // ---- Encoders -----------------------------------------------------------------------------

  // A property with or without a signature.
  function EncodeProperty(p: Property, signed: bool): seq<byte> {
    EncodeText(p.name)
    + (EncodeText(p.value) + ([if signed then 1 else 0] + if signed then EncodeText(p.signature) else []))
  }

  predicate PropertyFits(p: Property, signed: bool) {
    |p.name| <= 32767 && |p.value| <= 32767 && if signed then |p.signature| <= 32767 else p.signature == []
  }

  function EncodeProperties(ps: seq<Property>, signed: seq<bool>): seq<byte>
    requires |signed| == |ps|
  {
    if ps == [] then [] else EncodeProperty(ps[0], signed[0]) + EncodeProperties(ps[1..], signed[1..])
  }

  // The count of a profile without properties may also be negative.
  predicate ProfileFits(p: Profile, count: int, signed: seq<bool>) {
    && p.high < Pow2(64) && p.low < Pow2(64) && |p.name| <= 16
    && Fits(4, count) && (count == |p.properties| || (count < 0 && p.properties == []))
    && |signed| == |p.properties|
    && forall i :: 0 <= i < |signed| ==> PropertyFits(p.properties[i], signed[i])
  }

  function EncodeProfile(p: Profile, count: int, signed: seq<bool>): seq<byte>
    requires ProfileFits(p, count, signed)
  {
    ToBigEndian(8, p.high)
    + (ToBigEndian(8, p.low) + (EncodeText(p.name) + (EncodeNumber(count) + EncodeProperties(p.properties, signed))))
  }

  // ---- Reading inverts them -------------------------------------------------------------------

  lemma PropertyRoundTrip(p: Property, signed: bool, s: seq<byte>)
    requires PropertyFits(p, signed)
    ensures ReadProperty(EncodeProperty(p, signed) + s) == Parsed(p, s)
  {
    hide EncodeText, ReadString;
    var last := if signed then EncodeText(p.signature) else [];
    var flagged := [if signed then 1 else 0] + last;
    assert EncodeProperty(p, signed) + s == EncodeText(p.name) + (EncodeText(p.value) + (flagged + s));
    TextRoundTrip(32767, p.name, EncodeText(p.value) + (flagged + s));
    TextRoundTrip(32767, p.value, flagged + s);
    assert (flagged + s)[1..] == last + s;
    if signed {
      TextRoundTrip(32767, p.signature, s);
    }
  }

  lemma {:induction false} PropertiesRoundTrip(ps: seq<Property>, signed: seq<bool>, done: seq<Property>, s: seq<byte>)
    requires |signed| == |ps| && forall i :: 0 <= i < |ps| ==> PropertyFits(ps[i], signed[i])
    ensures ReadProperties(|ps|, done, EncodeProperties(ps, signed) + s) == Parsed(done + ps, s)
    decreases |ps|
  {
    hide ReadProperty, EncodeProperty, PropertyFits;
    if ps == [] {
      assert EncodeProperties(ps, signed) + s == s && done + ps == done;
    } else {
      var more := EncodeProperties(ps[1..], signed[1..]) + s;
      assert EncodeProperties(ps, signed) + s == EncodeProperty(ps[0], signed[0]) + more;
      PropertyRoundTrip(ps[0], signed[0], more);
      PropertiesRoundTrip(ps[1..], signed[1..], done + [ps[0]], s);
      assert done + [ps[0]] + ps[1..] == done + ps;
    }
  }

  lemma ProfileRoundTrip(p: Profile, count: int, signed: seq<bool>, s: seq<byte>)
    requires ProfileFits(p, count, signed)
    ensures ReadProfile(EncodeProfile(p, count, signed) + s) == Parsed(p, s)
  {
    hide EncodeText, EncodeNumber, ToBigEndian, EncodeProperties, ReadString, ReadWord, ReadVarInt, Pow2, Fits;
    var properties := EncodeProperties(p.properties, signed) + s;
    var counted := EncodeNumber(count) + properties;
    var named := EncodeText(p.name) + counted;
    var low := ToBigEndian(8, p.low) + named;
    assert EncodeProfile(p, count, signed) + s == ToBigEndian(8, p.high) + low;
    WordRoundTrip(8, p.high, low);
    WordRoundTrip(8, p.low, named);
    TextRoundTrip(16, p.name, counted);
    NumberRoundTrip(count, properties);
    PropertiesCounted(p.properties, count, signed, s);
  }

  lemma PropertiesCounted(ps: seq<Property>, count: int, signed: seq<bool>, s: seq<byte>)
    requires |signed| == |ps| && forall i :: 0 <= i < |ps| ==> PropertyFits(ps[i], signed[i])
    requires count == |ps| || (count < 0 && ps == [])
    ensures ReadProperties(count, [], EncodeProperties(ps, signed) + s) == Parsed(ps, s)
  {
    hide ReadProperty, EncodeProperty, PropertyFits;
    if count < 0 {
      assert EncodeProperties(ps, signed) + s == s;
    } else {
      PropertiesRoundTrip(ps, signed, [], s);
      assert [] + ps == ps;
    }
  }

  // ---- The packets of a server ------------------------------------------------------------------

  datatype Packet =
    | LoginDone(profile: Profile, count: int, signed: seq<bool>)
    | Query(messageId: int, data: seq<byte>)
    | Ping(keepAliveId: int)
    | Plugin(channel: seq<byte>, data: seq<byte>)
    | Silenced(data: seq<byte>)

  // What the fields of a packet can hold.
  predicate Typed(p: Packet) {
    match p
    case LoginDone(profile, count, signed) => ProfileFits(profile, count, signed)
    case Query(messageId, _) => Fits(4, messageId)
    case Ping(id) => Fits(8, id)
    case Plugin(channel, _) => |channel| <= 32767
    case Silenced(_) => true
  }

  function Payload(p: Packet): seq<byte>
    requires Typed(p)
  {
    match p
    case LoginDone(profile, count, signed) => EncodeProfile(profile, count, signed)
    case Query(messageId, data) => EncodeNumber(messageId) + data
    case Ping(id) => EncodeInt(8, id)
    case Plugin(channel, data) => EncodeText(channel) + data
    case Silenced(data) => data
  }

  // The handler for the packet in the generated table.
  function KindOf(p: Packet): Kind {
    match p
    case LoginDone(_, _, _) => GameProfile
    case Query(_, _) => CustomQuery
    case Ping(_) => KeepAlive
    case Plugin(_, _) => CustomPayload
    case Silenced(_) => Ignored
  }

  // The packet is known in this state under this id.
  predicate Known(cfg: Config, state: ConnectionState, id: int, p: Packet) {
    Typed(p) && (state, id) in cfg.dispatch && cfg.dispatch[(state, id)] == KindOf(p)
  }

  // What the client must do with it: go on to PLAY, answer, or nothing.
  function Effect(s: Session, p: Packet): Session {
    match p
    case LoginDone(_, _, _) => s.(state := PLAY)
    case Query(messageId, _) => s.(sent := s.sent + [QueryReply(messageId)])
    case Ping(id) => s.(sent := s.sent + [KeepAliveReply(id)])
    case Plugin(_, _) => s
    case Silenced(_) => s
  }

  // Every packet is read completely and has exactly its effect, whatever data it carries.
  lemma PacketHandled(cfg: Config, s: Session, id: int, p: Packet)
    requires Known(cfg, s.state, id, p)
    ensures Handle(cfg, s, id, Payload(p)) == Returned(Effect(s, p), 0)
  {
    hide ReadProfile, EncodeProfile, ProfileFits, EncodeText, EncodeNumber, ReadString, ReadVarInt, ReadInt,
      EncodeInt, Fits;
    match p
    case LoginDone(profile, count, signed) =>
      ProfileRoundTrip(profile, count, signed, []);
      assert EncodeProfile(profile, count, signed) + [] == EncodeProfile(profile, count, signed);
    case Query(messageId, data) => NumberRoundTrip(messageId, data);
    case Ping(id) =>
      IntRoundTrip(8, id, []);
      assert EncodeInt(8, id) + [] == EncodeInt(8, id);
    case Plugin(channel, data) => TextRoundTrip(32767, channel, data);
    case Silenced(_) =>
  }

  // Data after a packet that is not read to its end is left over, and ends the connection.
  lemma TrailingDataLeft(cfg: Config, s: Session, id: int, p: Packet, data: seq<byte>)
    requires Known(cfg, s.state, id, p) && (p.LoginDone? || p.Ping?)
    ensures Handle(cfg, s, id, Payload(p) + data) == Returned(Effect(s, p), |data|)
  {
    hide ReadProfile, EncodeProfile, ProfileFits, ReadInt, EncodeInt, Fits;
    match p
    case LoginDone(profile, count, signed) => ProfileRoundTrip(profile, count, signed, data);
    case Ping(id) => IntRoundTrip(8, id, data);
  }

  // An id outside the table is a protocol error, and what is not implemented aborts.
  lemma Refused(cfg: Config, s: Session, id: int, payload: seq<byte>)
    ensures (s.state, id) !in cfg.dispatch ==> Handle(cfg, s, id, payload) == Threw(s, InvalidPacketId)
    ensures (s.state, id) in cfg.dispatch && cfg.dispatch[(s.state, id)] == Unsupported ==>
              Handle(cfg, s, id, payload) == Threw(s, Aborted)
  {
  }

  // A packet that cannot be read stops the connection with the reader's error; nothing is answered,
  // and the state is as it was.
  lemma Unreadable(cfg: Config, s: Session, id: int, payload: seq<byte>)
    requires (s.state, id) in cfg.dispatch
    ensures var kind, r := cfg.dispatch[(s.state, id)], Handle(cfg, s, id, payload);
            && (kind == GameProfile && ReadProfile(payload).Failed? ==> r == Threw(s, ReadProfile(payload).error))
            && (kind == KeepAlive && |payload| < 8 ==> r == Threw(s, AssertFailed))
            && (kind == CustomQuery && ReadVarInt(payload).Failed? ==>
                  r == Threw(s, ReadVarInt(payload).error))
            && (kind == CustomPayload && ReadString(32767, payload).Failed? ==>
                  r == Threw(s, ReadString(32767, payload).error))
  {
    hide ReadProfile, ReadVarInt, ReadString;
  }

  // ---- The replies --------------------------------------------------------------------------------

  // The bodies of the replies are the fields that the server expects, and are read as these.
  lemma ReplyBodies(cfg: Config, id: int, s: seq<byte>)
    requires cfg.Valid()
    ensures Fits(8, id) ==>
              var fields := [Fields.Number(cfg.keepAliveId), Fields.Int(8, id)];
              Fields.ReadAll(fields, BodyOfSent(cfg, KeepAliveReply(id)) + s) == Parsed(fields, s)
    ensures Fits(4, id) ==>
              var fields := [Fields.Number(cfg.queryId), Fields.Number(id), Fields.Bool(false)];
              Fields.ReadAll(fields, BodyOfSent(cfg, QueryReply(id)) + s) == Parsed(fields, s)
  {
    hide VarInt.Write, Fields.ReadAll;
    if Fits(8, id) {
      KeepAliveBody(cfg, id);
      Fields.FieldsRoundTrip([Fields.Number(cfg.keepAliveId), Fields.Int(8, id)], s);
    }
    if Fits(4, id) {
      QueryBody(cfg, id);
      Fields.FieldsRoundTrip([Fields.Number(cfg.queryId), Fields.Number(id), Fields.Bool(false)], s);
    }
  }

  lemma KeepAliveBody(cfg: Config, id: int)
    requires cfg.Valid() && Fits(8, id)
    ensures var fields := [Fields.Number(cfg.keepAliveId), Fields.Int(8, id)];
            Fields.AllWritable(fields) && BodyOfSent(cfg, KeepAliveReply(id)) == Fields.EncodedAll(fields)
  {
    hide VarInt.Write, ToBigEndian;
    Pow2Widths();
    FieldsTogether(Fields.Number(cfg.keepAliveId), [Fields.Int(8, id)]);
    FieldsTogether(Fields.Int(8, id), []);
  }

  lemma QueryBody(cfg: Config, id: int)
    requires cfg.Valid() && Fits(4, id)
    ensures var fields := [Fields.Number(cfg.queryId), Fields.Number(id), Fields.Bool(false)];
            Fields.AllWritable(fields) && BodyOfSent(cfg, QueryReply(id)) == Fields.EncodedAll(fields)
  {
    hide VarInt.Write;
    Pow2Widths();
    FieldsTogether(Fields.Number(cfg.queryId), [Fields.Number(id), Fields.Bool(false)]);
    FieldsTogether(Fields.Number(id), [Fields.Bool(false)]);
    FieldsTogether(Fields.Bool(false), []);
  }

  lemma FieldsTogether(f: Fields.Field, rest: seq<Fields.Field>)
    requires Fields.Typed(f) && Fields.Accepted(f) && Fields.AllWritable(rest)
    ensures Fields.AllWritable([f] + rest)
    ensures Fields.EncodedAll([f] + rest) == Fields.Encoded(f) + Fields.EncodedAll(rest)
  {
    assert ([f] + rest)[1..] == rest;
  }

  // ---- A whole conversation ---------------------------------------------------------------------

  datatype Sending = Sending(id: int, packet: Packet)

  // Each packet is known in the state that those before it lead to.
  predicate AllKnown(cfg: Config, s: Session, ps: seq<Sending>)
    decreases |ps|
  {
    ps != [] ==> Known(cfg, s.state, ps[0].id, ps[0].packet) && AllKnown(cfg, Effect(s, ps[0].packet), ps[1..])
  }

  function FramesOf(cfg: Config, s: Session, ps: seq<Sending>): (frames: seq<Frame>)
    requires AllKnown(cfg, s, ps)
    ensures |frames| == |ps|
    decreases |ps|
  {
    if ps == [] then []
    else [Frame(ps[0].id, Payload(ps[0].packet))] + FramesOf(cfg, Effect(s, ps[0].packet), ps[1..])
  }

  function Effects(s: Session, ps: seq<Sending>): Session
    decreases |ps|
  {
    if ps == [] then s else Effects(Effect(s, ps[0].packet), ps[1..])
  }

  lemma {:induction false} AllHandled(cfg: Config, s: Session, ps: seq<Sending>)
    requires AllKnown(cfg, s, ps)
    ensures Accepts(HandlerOf(cfg), s, FramesOf(cfg, s, ps))
    ensures StateAfter(cfg, s, FramesOf(cfg, s, ps)) == Effects(s, ps)
    decreases |ps|
  {
    hide Handle, Known, Payload, Effect;
    if ps != [] {
      var p := ps[0];
      PacketHandled(cfg, s, p.id, p.packet);
      var s', frames := Effect(s, p.packet), FramesOf(cfg, s, ps);
      assert HandlerOf(cfg)(s, frames[0].id, frames[0].payload) == Returned(s', 0);
      assert frames[1..] == FramesOf(cfg, s', ps[1..]);
      AllHandled(cfg, s', ps[1..]);
    }
  }

  // A server sends any such packets, and the network delivers them in any pieces: the client
  // dispatches all of them in order, waits for more, and has done exactly what they ask for.
  lemma ServerConversation(cfg: Config, s: Session, ps: seq<Sending>, chunks: seq<seq<byte>>)
    requires cfg.Valid() && (s.state == LOGIN || s.state == PLAY) && AllKnown(cfg, s, ps)
    requires Framable(FramesOf(cfg, s, ps)) && Flatten(chunks) == Wired(BodiesOf(FramesOf(cfg, s, ps)))
    ensures Observe(DeliverAll(HandlerOf(cfg), Start(s), chunks))
         == Trace(FramesOf(cfg, s, ps), Effects(s, ps), Waiting)
  {
    hide Handle, Known, AllKnown, FramesOf, Effects, DeliverAll, Accepts, Wired, BodiesOf, Flatten;
    AllHandled(cfg, s, ps);
    ClientEndToEnd(cfg, s, FramesOf(cfg, s, ps), chunks);
  }
}
