/** What the encoders put on the wire, and what becomes of the bytes a server sends, against `Formats`. */
module Wires {
  import opened Bytes
  import opened Formats
  import opened Packets
  import Codec
  import Fields
  import Properties
  import Pubacks
  import Publishing
  import Vbi

  // ---- what the client writes ---------------------------------------------------------------

  /** Topic filters one after the other. */
  predicate Topics(bytes: seq<byte>, topics: seq<Utf8>)
    decreases |topics|
  {
    if topics == [] then bytes == []
    else Str(bytes, 0, topics[0]) && 2 + |topics[0]| <= |bytes| && Topics(bytes[2 + |topics[0]|..], topics[1..])
  }

  predicate ConnectBody(body: seq<byte>, c: Connect) {
    && Str(body, 0, [77, 81, 84, 84]) && |body| == 13 + |c.clientId|
    && body[6] == 5 && body[7] == 2 && Num16(body, 8, c.keepAlive) && body[10] == 0 && Str(body, 11, c.clientId)
  }

  predicate SubscribeBody(body: seq<byte>, s: Subscribe) {
    && Num16(body, 0, s.pktid) && |body| == 6 + |s.topic| && body[2] == 0 && Str(body, 3, s.topic)
    && body[5 + |s.topic|] == (match s.qos case AtMostOnce => 0 case AtLeastOnce => 1 case ExactlyOnce => 2)
                              + (if s.noLocal then 4 else 0) + (if s.retainAsPublished then 8 else 0)
  }

  predicate UnsubscribeBody(body: seq<byte>, u: Unsubscribe) {
    Num16(body, 0, u.pktid) && |body| >= 3 && body[2] == 0 && Topics(body[3..], u.topics)
  }

  /** A DISCONNECT is written with its properties, but without its reason. */
  predicate GoodbyeBody(body: seq<byte>, d: Disconnect) {
    Prefixed(body, 0) && ListEnd(body, 0) == |body| && Notes(Window(body, 0), d.properties)
  }

  /** The first byte of a packet that the client writes. */
  predicate FirstByte(b: byte, p: Packet) {
    match p
    case ConnectPacket(_) => b == 0x10
    case PublishPacket(m) => b / 16 == 3 && FlagBits(b, m.flags)
    case PubackPacket(_) => b == 0x40
    case SubscribePacket(_) => b == 0x82
    case UnsubscribePacket(_) => b == 0xA2
    case PingReqPacket => b == 0xC0
    case DisconnectPacket(_) => b == 0xE0
    case _ => false
  }

  /** The frame of a packet that the client writes. */
  predicate WrittenFrame(data: seq<byte>, p: Packet) {
    && Framed(data) && FirstByte(data[0], p)
    && var body := Window(data, 1);
       match p
       case ConnectPacket(c) => ConnectBody(body, c)
       case PublishPacket(m) => PublishBody(body, m, 0)
       case SubscribePacket(s) => SubscribeBody(body, s)
       case UnsubscribePacket(u) => UnsubscribeBody(body, u)
       case PingReqPacket => body == []
       case DisconnectPacket(d) => GoodbyeBody(body, d)
       case _ => false
  }

  predicate NoteFits(n: Note) {
    match n
    case SessionExpiryInterval(_) => true
    case ReasonString(text) => |text| <= 65535
    case UserProperty(key, val) => |key| <= 65535 && |val| <= 65535
  }

  predicate PropFits(p: Properties.Property) {
    match p
    case ResponseTopic(topic) => |topic| <= 65535
    case CorrelationData(data) => |data| <= 65535
    case UserProperty(key, val) => |key| <= 65535 && |val| <= 65535
    case _ => true
  }

  /** Every string is within its length prefix, and a PUBLISH at QoS 0 has no identifier, which would not be
      written. */
  predicate Writable(p: Packet) {
    match p
    case ConnectPacket(c) => |c.clientId| <= 65535
    case PublishPacket(m) =>
      && |m.topic| <= 65535 && (m.flags.qos == Publishing.AtMostOnce ==> m.pktid.None?)
      && forall q :: q in m.properties ==> PropFits(q)
    case SubscribePacket(s) => |s.topic| <= 65535
    case UnsubscribePacket(u) => forall t :: t in u.topics ==> |t| <= 65535
    case DisconnectPacket(d) => forall n :: n in d.properties ==> NoteFits(n)
    case _ => true
  }

  lemma NumWritten(bytes: seq<byte>, at: nat, n: u16)
    requires at <= |bytes| && U16Bytes(n) <= bytes[at..]
    ensures Num16(bytes, at, n)
  {
    assert bytes[at..][0] == U16Bytes(n)[0] && bytes[at..][1] == U16Bytes(n)[1];
  }

  lemma StrWritten(bytes: seq<byte>, at: nat, s: seq<byte>)
    requires at <= |bytes| && Fields.EncodeBlob(s) <= bytes[at..]
    ensures at + 2 + |s| <= |bytes|
    ensures Str(bytes, at, s) <==> |s| <= 65535
  {
    hide U16Bytes;
    SplitFront(U16Bytes(|s| % 0x1_0000), s, bytes[at..]);
    NumWritten(bytes, at, |s| % 0x1_0000);
    SameSlice(bytes, at, |s|);
  }

  lemma Num32Written(n: u32)
    ensures var b := U32Bytes(n);
            n == 16777216 * (b[0] as int) + 65536 * (b[1] as int) + 256 * (b[2] as int) + b[3]
  {
    var high, low := n / 0x1_0000, n % 0x1_0000;
    U32Split(n, high, low);
    assert U16Bytes(high)[0] as int * 256 + U16Bytes(high)[1] == high;
    assert U16Bytes(low)[0] as int * 256 + U16Bytes(low)[1] == low;
  }

  lemma UserWritten(bytes: seq<byte>, key: Utf8, val: Utf8)
    requires bytes != [] && Fields.EncodeBlob(key) + Fields.EncodeBlob(val) <= bytes[1..]
    ensures 5 + |key| + |val| <= |bytes|
    ensures Str(bytes, 1, key) && Str(bytes, 3 + |key|, val) <==> |key| <= 65535 && |val| <= 65535
  {
    hide Fields.EncodeBlob, Str;
    SplitFront(Fields.EncodeBlob(key), Fields.EncodeBlob(val), bytes[1..]);
    StrWritten(bytes, 1, key);
    assert bytes[1..][2 + |key|..] == bytes[3 + |key|..];
    StrWritten(bytes, 3 + |key|, val);
  }

  lemma PropWritten(bytes: seq<byte>, p: Properties.Property)
    requires Properties.Encode(p) <= bytes
    ensures |Properties.Encode(p)| == PropSize(p) <= |bytes|
    ensures Prop(bytes, 0, p) <==> PropFits(p)
  {
    hide Fields.EncodeBlob, Str, U32Bytes;
    SplitFront([Properties.Id(p)], Properties.Body(p), bytes);
    match p
    case PayloadFormatId(_) =>
    case MessageExpiryInterval(n) => Num32Written(n);
    case ResponseTopic(topic) => StrWritten(bytes, 1, topic);
    case CorrelationData(data) => StrWritten(bytes, 1, data);
    case UserProperty(key, val) => UserWritten(bytes, key, val);
  }

  lemma ExpiryStep(p: Properties.Property)
    ensures PropStep(p, 0) == PropSize(p)
  {
  }

  lemma {:induction false} PropsWritten(ps: seq<Properties.Property>)
    ensures Props(Properties.EncodeAll(ps), ps, 0) <==> forall p :: p in ps ==> PropFits(p)
  {
    hide Properties.Encode, Prop, PropSize, PropFits;
    if ps == [] {
    } else {
      var bytes := Properties.EncodeAll(ps);
      PropWritten(bytes, ps[0]);
      assert bytes[PropSize(ps[0])..] == Properties.EncodeAll(ps[1..]);
      PropsWritten(ps[1..]);
      ExpiryStep(ps[0]);
      assert forall p :: p in ps <==> p == ps[0] || p in ps[1..];
    }
  }

  lemma NoteWritten(bytes: seq<byte>, n: Note)
    requires EncodeNote(n) <= bytes
    ensures |EncodeNote(n)| == NoteSize(n) <= |bytes|
    ensures OneNote(bytes, 0, n) <==> NoteFits(n)
  {
    hide Fields.EncodeBlob, Str, U32Bytes;
    match n
    case SessionExpiryInterval(i) => SplitFront([0x11], U32Bytes(i), bytes); Num32Written(i);
    case ReasonString(text) => SplitFront([0x1F], Fields.EncodeBlob(text), bytes); StrWritten(bytes, 1, text);
    case UserProperty(key, val) =>
      SplitFront([0x26], Fields.EncodeBlob(key) + Fields.EncodeBlob(val), bytes);
      UserWritten(bytes, key, val);
  }

  lemma {:induction false} NotesWritten(ns: seq<Note>)
    ensures Notes(EncodeNotes(ns), ns) <==> forall n :: n in ns ==> NoteFits(n)
  {
    hide EncodeNote, OneNote, NoteSize, NoteFits;
    if ns == [] {
    } else {
      var bytes := EncodeNotes(ns);
      NoteWritten(bytes, ns[0]);
      assert bytes[NoteSize(ns[0])..] == EncodeNotes(ns[1..]);
      NotesWritten(ns[1..]);
      assert forall n :: n in ns <==> n == ns[0] || n in ns[1..];
    }
  }

  lemma {:induction false} TopicsWritten(topics: seq<Utf8>)
    ensures Topics(EncodeTopics(topics), topics) <==> forall t :: t in topics ==> |t| <= 65535
  {
    hide Fields.EncodeBlob, Str;
    if topics == [] {
    } else {
      var bytes := EncodeTopics(topics);
      assert bytes[0..] == bytes;
      StrWritten(bytes, 0, topics[0]);
      assert bytes[2 + |topics[0]|..] == EncodeTopics(topics[1..]);
      TopicsWritten(topics[1..]);
      assert forall t :: t in topics <==> t == topics[0] || t in topics[1..];
    }
  }

  /** A body behind its length, within the limit of lengths. */
  lemma PrefixWritten(bytes: seq<byte>, at: nat, body: seq<byte>)
    requires at <= |bytes| && Vbi.Prefixed(body) <= bytes[at..]
    ensures |body| <= Vbi.VBI_MAX ==>
              && Prefixed(bytes, at) && Window(bytes, at) == body && ListEnd(bytes, at) == at + |Vbi.Prefixed(body)|
    ensures LenSize(bytes, at) > 0 ==>
              && LenValue(bytes, at) == |body| % TWO_32 <= Vbi.VBI_MAX
              && LenSize(bytes, at) == |Vbi.Prefixed(body)| - |body|
  {
    hide Vbi.Decode, Vbi.Encode, LenSize, LenValue;
    Vbi.PrefixedFront(body, bytes[at..]);
    LenExactly(bytes, at);
    if |body| <= Vbi.VBI_MAX {
      WindowAt(bytes, at);
    }
    if LenSize(bytes, at) > 0 {
      Vbi.Sound(bytes[at..]);
    }
  }

  /** The first byte is right for every packet that is written, whatever is in it. */
  lemma FirstByteWritten(p: Packet)
    ensures Encode(p).Wire? ==> Encode(p).bytes != [] && FirstByte(Encode(p).bytes[0], p)
  {
    hide Vbi.Encode, Publishing.Body, EncodeNotes, EncodeTopics, Fields.EncodeBlob, U16Bytes;
    if p.PublishPacket? {
      var f := p.publish.flags;
      FlagsExactly(0x30 + Publishing.FlagBits(f), f);
      Publishing.FlagsInverse(f, 0x30 + Publishing.FlagBits(f));
    }
  }

  lemma FrameWritten(p: Packet)
    requires Encode(p).Wire?
    ensures Parts(p).Some? && (Framed(Encode(p).bytes) <==> |Parts(p).value.1| <= Vbi.VBI_MAX)
    ensures Framed(Encode(p).bytes) ==> Window(Encode(p).bytes, 1) == Parts(p).value.1
  {
    hide Encode, Parts, Vbi.Encode, LenSize, LenValue;
    EncodeShape(p);
    var (first, body) := Parts(p).value;
    assert Encode(p).bytes[1..] == Vbi.Prefixed(body);
    PrefixWritten(Encode(p).bytes, 1, body);
  }

  lemma ConnectWritten(c: Connect)
    ensures ConnectBody(Parts(ConnectPacket(c)).value.1, c) <==> |c.clientId| <= 65535
  {
    var body := Parts(ConnectPacket(c)).value.1;
    assert Vbi.Encode(0) == [0];
    hide U16Bytes, Fields.EncodeBlob, Str, Num16;
    assert Fields.EncodeBlob(MQTT) <= body[0..];
    StrWritten(body, 0, MQTT);
    assert body[8..10] == U16Bytes(c.keepAlive);
    NumWritten(body, 8, c.keepAlive);
    assert body[11..] == Fields.EncodeBlob(c.clientId);
    StrWritten(body, 11, c.clientId);
  }

  lemma SubscribeWritten(s: Subscribe)
    ensures SubscribeBody(Parts(SubscribePacket(s)).value.1, s) <==> |s.topic| <= 65535
  {
    var body := Parts(SubscribePacket(s)).value.1;
    hide U16Bytes, Fields.EncodeBlob, Str, Num16;
    assert U16Bytes(s.pktid) <= body[0..];
    NumWritten(body, 0, s.pktid);
    assert Fields.EncodeBlob(s.topic) <= body[3..];
    StrWritten(body, 3, s.topic);
  }

  lemma UnsubscribeWritten(u: Unsubscribe)
    ensures UnsubscribeBody(Parts(UnsubscribePacket(u)).value.1, u) <==> forall t :: t in u.topics ==> |t| <= 65535
  {
    var body := Parts(UnsubscribePacket(u)).value.1;
    hide U16Bytes, EncodeTopics, Topics, Num16;
    assert U16Bytes(u.pktid) <= body[0..];
    NumWritten(body, 0, u.pktid);
    assert body[3..] == EncodeTopics(u.topics);
    TopicsWritten(u.topics);
  }

  lemma GoodbyeWritten(d: Disconnect)
    requires |Parts(DisconnectPacket(d)).value.1| <= Vbi.VBI_MAX
    ensures GoodbyeBody(Parts(DisconnectPacket(d)).value.1, d) <==> forall n :: n in d.properties ==> NoteFits(n)
  {
    hide EncodeNotes, Notes, NoteFits, Vbi.Encode, LenSize, LenValue;
    var body := Parts(DisconnectPacket(d)).value.1;
    assert body[0..] == body;
    PrefixWritten(body, 0, EncodeNotes(d.properties));
    NotesWritten(d.properties);
  }

  lemma HeadWritten(m: Publishing.Publish, body: seq<byte>)
    requires Publishing.Encode(m).Wire? && Publishing.Head(m) <= body
    ensures Head(body, m) <==> |m.topic| <= 65535 && (m.flags.qos == Publishing.AtMostOnce ==> m.pktid.None?)
    ensures |Publishing.Head(m)| == HeadSize(m) <= |body|
  {
    hide U16Bytes, Fields.EncodeBlob, Str, Num16, Publishing.Body;
    assert body[0..] == body;
    SplitFront(Fields.EncodeBlob(m.topic), Publishing.Head(m)[2 + |m.topic|..], body);
    StrWritten(body, 0, m.topic);
    if m.flags.qos != Publishing.AtMostOnce {
      NumWritten(body, 2 + |m.topic|, m.pktid.value);
    }
  }

  lemma PublishWritten(m: Publishing.Publish)
    requires Publishing.Encode(m).Wire? && |Publishing.Body(m)| <= Vbi.VBI_MAX
    ensures PublishBody(Publishing.Body(m), m, 0) <==> Writable(PublishPacket(m))
  {
    hide Publishing.Head, Properties.EncodeAll, Head, HeadSize, Props, PropFits, Vbi.Encode, LenSize, LenValue;
    var body := Publishing.Body(m);
    Publishing.BodyParts(m, body);
    HeadWritten(m, body);
    PrefixWritten(body, HeadSize(m), Properties.EncodeAll(m.properties));
    PropsWritten(m.properties);
    assert body[ListEnd(body, HeadSize(m))..] == Publishing.PayloadBytes(m.payload);
  }

  lemma PublishOnWire(m: Publishing.Publish)
    requires Encode(PublishPacket(m)).Wire?
    ensures Publishing.Encode(m).Wire? && Parts(PublishPacket(m)).value.1 == Publishing.Body(m)
  {
    hide Publishing.Body;
  }

  /** What the client writes for a packet is its frame, exactly when the body is within the limit and what is in
      it can be written. */
  lemma WritesExactly(p: Packet)
    requires Encode(p).Wire?
    ensures Parts(p).Some?
    ensures WrittenFrame(Encode(p).bytes, p) <==> Writable(p) && |Parts(p).value.1| <= Vbi.VBI_MAX
  {
    FirstByteWritten(p);
    FrameWritten(p);
    hide Encode, Framed, FirstByte, ConnectBody, PublishBody, SubscribeBody, UnsubscribeBody, GoodbyeBody;
    if Framed(Encode(p).bytes) {
      match p
      case ConnectPacket(c) => ConnectWritten(c);
      case PublishPacket(m) => PublishOnWire(m); PublishWritten(m);
      case SubscribePacket(s) => SubscribeWritten(s);
      case UnsubscribePacket(u) => UnsubscribeWritten(u);
      case PingReqPacket =>
      case DisconnectPacket(d) => GoodbyeWritten(d);
    }
  }

  /** Pairs of strings one after the other. */
  predicate Pairs(bytes: seq<byte>, users: seq<(Utf8, Utf8)>)
    decreases |users|
  {
    if users == [] then bytes == []
    else
      var (key, val) := users[0];
      && Str(bytes, 0, key) && Str(bytes, 2 + |key|, val) && 4 + |key| + |val| <= |bytes|
      && Pairs(bytes[4 + |key| + |val|..], users[1..])
  }

  /** The properties of a PUBACK are written without a length, and all the user properties behind one
      identifier. */
  predicate BareExtras(bytes: seq<byte>, e: Pubacks.Extras) {
    var at := if e.reasonString.Some? then 3 + |e.reasonString.value| else 0;
    && at <= |bytes|
    && (e.reasonString.Some? ==> bytes[0] == 0x1F && Str(bytes, 1, e.reasonString.value))
    && if e.users == [] then |bytes| == at
       else at < |bytes| && bytes[at] == 0x26 && Pairs(bytes[at + 1..], e.users)
  }

  predicate ExtrasFit(e: Pubacks.Extras) {
    && (e.reasonString.Some? ==> |e.reasonString.value| <= 65535)
    && forall u :: u in e.users ==> |u.0| <= 65535 && |u.1| <= 65535
  }

  lemma {:induction false} PairsWritten(users: seq<(Utf8, Utf8)>)
    ensures Pairs(Pubacks.EncodeUsers(users), users) <==> forall u :: u in users ==> |u.0| <= 65535 && |u.1| <= 65535
  {
    hide Fields.EncodeBlob, Str;
    if users == [] {
    } else {
      var bytes, key, val := Pubacks.EncodeUsers(users), users[0].0, users[0].1;
      assert bytes[0..] == bytes;
      StrWritten(bytes, 0, key);
      assert Fields.EncodeBlob(val) <= bytes[2 + |key|..];
      StrWritten(bytes, 2 + |key|, val);
      assert bytes[4 + |key| + |val|..] == Pubacks.EncodeUsers(users[1..]);
      PairsWritten(users[1..]);
      assert forall u :: u in users <==> u == users[0] || u in users[1..];
    }
  }

  lemma NoPairs()
    ensures Pubacks.EncodeUsers([]) == []
  {
  }

  lemma ExtrasWritten(e: Pubacks.Extras)
    ensures BareExtras(Pubacks.EncodeExtras(e), e) <==> ExtrasFit(e)
  {
    hide Fields.EncodeBlob, Str, Pairs, Pubacks.EncodeUsers;
    var bytes := Pubacks.EncodeExtras(e);
    PairsWritten(e.users);
    var at := if e.reasonString.Some? then 3 + |e.reasonString.value| else 0;
    if e.reasonString.Some? {
      assert Fields.EncodeBlob(e.reasonString.value) <= bytes[1..];
      StrWritten(bytes, 1, e.reasonString.value);
    }
    if e.users == [] {
      assert Pubacks.EncodeUsers([]) == [] by { NoPairs(); }
    } else {
      assert bytes[at + 1..] == Pubacks.EncodeUsers(e.users);
    }
  }

  /** What the PUBACK encoder writes: identifier, reason and the bare properties. */
  lemma PubackWritesExactly(p: Pubacks.Puback)
    requires |Pubacks.Body(p)| <= Vbi.VBI_MAX
    ensures var data := Pubacks.Encode(p);
            && Framed(data) && data[0] == 0x40
            && var body := Window(data, 1);
               && Num16(body, 0, p.pktid) && |body| >= 3 && PubackReason(body[2], p.reason)
               && (BareExtras(body[3..], p.properties) <==> ExtrasFit(p.properties))
  {
    hide Vbi.Encode, U16Bytes, LenSize, LenValue, Pubacks.EncodeExtras, Num16, BareExtras, ExtrasFit;
    var data, body := Pubacks.Encode(p), Pubacks.Body(p);
    assert data[1..] == Vbi.Prefixed(body);
    PrefixWritten(data, 1, body);
    assert U16Bytes(p.pktid) <= body[0..];
    NumWritten(body, 0, p.pktid);
    assert body[3..] == Pubacks.EncodeExtras(p.properties);
    ExtrasWritten(p.properties);
  }

  // ---- what a server sends, byte by byte ----------------------------------------------------

  lemma FramedFront(first: byte, body: seq<byte>, more: seq<byte>)
    requires |body| <= Vbi.VBI_MAX
    ensures var data := [first] + Vbi.Prefixed(body);
            && Framed(data) && Window(data, 1) == body && (data + more)[..|data|] == data
  {
    hide Vbi.Encode, LenSize, LenValue;
    var data := [first] + Vbi.Prefixed(body);
    assert data[1..] == Vbi.Prefixed(body);
    PrefixWritten(data, 1, body);
  }

  lemma NotesThere(bytes: seq<byte>, at: nat, ns: seq<Note>)
    requires at <= |bytes| && Vbi.Prefixed(EncodeNotes(ns)) <= bytes[at..] && |EncodeNotes(ns)| <= Vbi.VBI_MAX
    requires FromServer(ns) && forall n :: n in ns ==> NoteFits(n)
    ensures NoteList(bytes, at, ns) && ListEnd(bytes, at) == at + |Vbi.Prefixed(EncodeNotes(ns))|
  {
    hide EncodeNotes, Notes, NoteFits, Vbi.Encode, LenSize, LenValue;
    PrefixWritten(bytes, at, EncodeNotes(ns));
    NotesWritten(ns);
  }

  /** A SUBACK or UNSUBACK with a known reason is decoded with its identifier, high byte first, its reason and
      its properties, whatever follows it. */
  lemma AckDecodes(suback: bool, id: PktId, hi: byte, lo: byte, reason: byte, ns: seq<Note>, more: seq<byte>)
    requires id == 256 * (hi as int) + lo && FromServer(ns) && forall n :: n in ns ==> NoteFits(n)
    requires if suback then reason in {0, 1, 2, 128, 131, 135, 143, 145, 151, 158, 161, 162}
             else reason in {0, 17, 128, 131, 135, 143, 145}
    requires 3 + |Vbi.Prefixed(EncodeNotes(ns))| <= Vbi.VBI_MAX
    ensures var body := [hi, lo] + Vbi.Prefixed(EncodeNotes(ns)) + [reason];
            var data := [if suback then 0x90 else 0xB0] + Vbi.Prefixed(body);
            var a := Ack(id, reason, ns);
            Codec.Decode(data + more) == Codec.Item(if suback then SubackPacket(a) else UnsubackPacket(a), |data|)
  {
    hide EncodeNotes, NoteFits, Vbi.Encode, LenSize, LenValue, NoteList, Codec.Decode, FromServer, Framed;
    var list := Vbi.Prefixed(EncodeNotes(ns));
    var body := [hi, lo] + list + [reason];
    var data := [if suback then 0x90 else 0xB0] + Vbi.Prefixed(body);
    FramedFront(data[0], body, more);
    assert list <= body[2..];
    NotesThere(body, 2, ns);
    var a := Ack(id, reason, ns);
    DecodeExactly(data + more, if suback then SubackPacket(a) else UnsubackPacket(a), |data|);
  }

  /** The short PUBACK is a success with its identifier, high byte first. */
  lemma ShortPubackDecodes(id: PktId, hi: byte, lo: byte, more: seq<byte>)
    requires id == 256 * (hi as int) + lo
    ensures Codec.Decode([0x40, 2, hi, lo] + more)
         == Codec.Item(PubackPacket(Pubacks.Puback(Pubacks.NO_EXTRAS, id, Pubacks.Success)), 4)
  {
    hide Codec.Decode;
    var data := [0x40, 2, hi, lo];
    assert Window(data, 1) == [hi, lo];
    assert (data + more)[..4] == data;
    DecodeExactly(data + more, PubackPacket(Pubacks.Puback(Pubacks.NO_EXTRAS, id, Pubacks.Success)), 4);
  }

  lemma PingRespDecodes(more: seq<byte>)
    ensures Codec.Decode([0xD0, 0] + more) == Codec.Item(PingRespPacket, 2)
  {
    hide Codec.Decode;
    var data := [0xD0, 0];
    assert (data + more)[..2] == data;
    DecodeExactly(data + more, PingRespPacket, 2);
  }

  /** A DISCONNECT without a body has reason 0. */
  lemma EmptyDisconnectDecodes(more: seq<byte>)
    ensures Codec.Decode([0xE0, 0] + more) == Codec.Item(DisconnectPacket(Disconnect(0, [])), 2)
  {
    hide Codec.Decode;
    var data := [0xE0, 0];
    assert (data + more)[..2] == data;
    assert Window(data, 1) == [];
    DecodeExactly(data + more, DisconnectPacket(Disconnect(0, [])), 2);
  }

  /** A DISCONNECT of one byte has that reason. */
  lemma ShortDisconnectDecodes(reason: byte, more: seq<byte>)
    requires reason in DISCONNECT_REASONS
    ensures Codec.Decode([0xE0, 1, reason] + more) == Codec.Item(DisconnectPacket(Disconnect(reason, [])), 3)
  {
    hide Codec.Decode;
    var data := [0xE0, 1, reason];
    assert (data + more)[..3] == data;
    assert Window(data, 1) == [reason];
    DecodeExactly(data + more, DisconnectPacket(Disconnect(reason, [])), 3);
  }

  lemma NotesLong(ns: seq<Note>)
    ensures ns != [] ==> |EncodeNotes(ns)| >= 3
  {
  }

  lemma EmptyList()
    ensures Vbi.Prefixed(EncodeNotes([])) == [0]
  {
  }

  /** A DISCONNECT with a known reason and properties is decoded with both. */
  lemma DisconnectDecodes(reason: byte, ns: seq<Note>, more: seq<byte>)
    requires reason in DISCONNECT_REASONS && FromServer(ns) && forall n :: n in ns ==> NoteFits(n)
    requires 1 + |Vbi.Prefixed(EncodeNotes(ns))| <= Vbi.VBI_MAX
    ensures var data := [0xE0] + Vbi.Prefixed([reason] + Vbi.Prefixed(EncodeNotes(ns)));
            Codec.Decode(data + more) == Codec.Item(DisconnectPacket(Disconnect(reason, ns)), |data|)
  {
    NotesLong(ns);
    hide EncodeNotes, NoteFits, Vbi.Encode, LenSize, LenValue, NoteList, Codec.Decode, FromServer, Framed;
    var list := Vbi.Prefixed(EncodeNotes(ns));
    var body := [reason] + list;
    var data := [0xE0] + Vbi.Prefixed(body);
    FramedFront(0xE0, body, more);
    assert list <= body[1..];
    if ns == [] {
      EmptyList();
    } else {
      NotesThere(body, 1, ns);
    }
    DecodeExactly(data + more, DisconnectPacket(Disconnect(reason, ns)), |data|);
  }

  // ---- what the client writes to leave ------------------------------------------------------

  lemma LenTail(bytes: seq<byte>)
    requires LenSize(bytes, 0) >= 2
    ensures LenSize(bytes, 1) == LenSize(bytes, 0) - 1
    ensures LenValue(bytes, 0) == Low(bytes[0]) + 128 * LenValue(bytes, 1)
  {
  }

  lemma {:induction false} NotesSize(window: seq<byte>, ns: seq<Note>)
    requires Notes(window, ns)
    ensures |window| == |EncodeNotes(ns)|
  {
    hide OneNote, EncodeNote, NoteSize;
    if ns == [] {
    } else {
      NoteWritten(EncodeNote(ns[0]), ns[0]);
      NotesSize(window[NoteSize(ns[0])..], ns[1..]);
    }
  }

  lemma NoListBehind(ns: seq<Note>)
    requires ns != [] && |EncodeNotes(ns)| <= Vbi.VBI_MAX
    ensures !NoteList(Vbi.Prefixed(EncodeNotes(ns)), 1, ns)
  {
    NotesLong(ns);
    hide EncodeNotes, Vbi.Encode, LenSize, LenValue, Notes, FromServer;
    var body, n := Vbi.Prefixed(EncodeNotes(ns)), |EncodeNotes(ns)|;
    assert body[0..] == body;
    PrefixWritten(body, 0, EncodeNotes(ns));
    if NoteList(body, 1, ns) {
      NotesSize(Window(body, 1), ns);
      if LenSize(body, 0) >= 2 {
        LenTail(body);
      }
      assert false;
    }
  }

  /** The DISCONNECT a client writes is decoded as itself only with reason 0 and no properties: its reason is
      never written, and the length of its properties is read as one. */
  lemma GoodbyeReadsBack(d: Disconnect, more: seq<byte>)
    requires |Vbi.Prefixed(EncodeNotes(d.properties))| <= Vbi.VBI_MAX
    ensures Encode(DisconnectPacket(d)).Wire?
    ensures var data := Encode(DisconnectPacket(d)).bytes;
            Codec.Decode(data + more) == Codec.Item(DisconnectPacket(d), |data|) <==> d == Disconnect(0, [])
  {
    NotesLong(d.properties);
    EmptyList();
    hide EncodeNotes, Vbi.Encode, LenSize, LenValue, NoteList, Codec.Decode, Framed;
    var body := Vbi.Prefixed(EncodeNotes(d.properties));
    var data := [0xE0] + Vbi.Prefixed(body);
    FramedFront(0xE0, body, more);
    DecodeExactly(data + more, DisconnectPacket(d), |data|);
    if d.properties != [] {
      NoListBehind(d.properties);
    }
  }
}
