/** The packets of the client: what it writes, and what it parses from a complete frame. */
module Packets {
  import opened Bytes
  import opened Fields
  import opened Publishing
  import Pubacks
  import Vbi

  // ---- packets that only one side sends -----------------------------------------------------

  datatype Connect = Connect(clientId: Utf8, keepAlive: u16)

  datatype Subscribe = Subscribe(topic: Utf8, pktid: PktId, qos: QoS, noLocal: bool, retainAsPublished: bool)

  datatype Unsubscribe = Unsubscribe(topics: seq<Utf8>, pktid: PktId)

  /** Properties of CONNACK, SUBACK, UNSUBACK and DISCONNECT. */
  datatype Note =
    | SessionExpiryInterval(interval: u32)
    | ReasonString(text: Utf8)
    | UserProperty(key: Utf8, val: Utf8)

  datatype Connack = Connack(sessionPresent: bool, reason: byte, properties: seq<Note>)

  /** A SUBACK or an UNSUBACK. */
  datatype Ack = Ack(pktid: PktId, reason: byte, properties: seq<Note>)

  datatype Disconnect = Disconnect(reason: byte, properties: seq<Note>)

  datatype Packet =
    | ConnectPacket(connect: Connect)
    | ConnackPacket(connack: Connack)
    | PublishPacket(publish: Publish)
    | PubackPacket(puback: Pubacks.Puback)
    | PingReqPacket
    | PingRespPacket
    | SubscribePacket(subscribe: Subscribe)
    | SubackPacket(suback: Ack)
    | UnsubscribePacket(unsubscribe: Unsubscribe)
    | UnsubackPacket(unsuback: Ack)
    | DisconnectPacket(disconnect: Disconnect)

  // ---- encoders -----------------------------------------------------------------------------

  function QosBits(q: QoS): byte {
    match q
    case AtMostOnce => 0
    case AtLeastOnce => 1
    case ExactlyOnce => 2
  }

  function EncodeTopics(topics: seq<Utf8>): seq<byte> {
    if topics == [] then [] else EncodeBlob(topics[0]) + EncodeTopics(topics[1..])
  }

  function EncodeNote(n: Note): seq<byte> {
    match n
    case SessionExpiryInterval(interval) => [0x11] + U32Bytes(interval)
    case ReasonString(text) => [0x1F] + EncodeBlob(text)
    case UserProperty(key, val) => [0x26] + (EncodeBlob(key) + EncodeBlob(val))
  }

  function EncodeNotes(ns: seq<Note>): seq<byte> {
    if ns == [] then [] else EncodeNote(ns[0]) + EncodeNotes(ns[1..])
  }

  const MQTT: seq<byte> := [0x4D, 0x51, 0x54, 0x54]

  /** First byte and body of what a client writes; the other packets have no encoder arm. */
  function Parts(p: Packet): Option<(byte, seq<byte>)> {
    match p
    case ConnectPacket(c) =>
      Some((0x10, EncodeBlob(MQTT) + [5, 2] + U16Bytes(c.keepAlive) + Vbi.Encode(0) + EncodeBlob(c.clientId)))
    case PublishPacket(m) =>
      if m.flags.qos != AtMostOnce && m.pktid.None? then None
      else Some((0x30 + FlagBits(m.flags), Publishing.Body(m)))
    case PingReqPacket => Some((0xC0, []))
    case SubscribePacket(s) =>
      var options := QosBits(s.qos) + (if s.noLocal then 4 else 0) + (if s.retainAsPublished then 8 else 0);
      Some((0x82, U16Bytes(s.pktid) + [0] + EncodeBlob(s.topic) + [options]))
    case UnsubscribePacket(u) => Some((0xA2, U16Bytes(u.pktid) + [0] + EncodeTopics(u.topics)))
    case DisconnectPacket(d) => Some((0xE0, Vbi.Prefixed(EncodeNotes(d.properties))))
    case _ => None
  }

  /** The encoder of packets: a PINGREQ is written out, the rest are a first byte and a prefixed body. */
  function Encode(p: Packet): Written {
    match p
    case PublishPacket(m) => Publishing.Encode(m)
    case PingReqPacket => Wire([0xC0, 0])
    case _ =>
      match Parts(p)
      case None => Panic
      case Some((first, body)) => Wire([first] + Vbi.Prefixed(body))
  }

  lemma EncodeShape(p: Packet)
    ensures Encode(p).Panic? <==> Parts(p).None?
    ensures Parts(p).Some? ==> Parts(p).value.0 >= 0x10
    ensures Parts(p).Some? ==> Encode(p) == Wire([Parts(p).value.0] + Vbi.Prefixed(Parts(p).value.1))
  {
    hide FlagBits, Publishing.Body, EncodeBlob, U16Bytes, EncodeTopics, EncodeNotes;
    if p.PingReqPacket? {
      assert Vbi.Prefixed([]) == [0];
    }
  }

  // ---- what a server reads in a request -----------------------------------------------------

  /** Strings one after the other, up to the end. */
  function ReadTopics(bytes: seq<byte>): Parsed<seq<Utf8>>
    decreases |bytes|
  {
    if bytes == [] then Ok([], 0)
    else
      var (topic, n) :- ParseString(bytes);
      StringSound(bytes);
      var (topics, m) :- ReadTopics(bytes[n..]);
      Ok([topic] + topics, n + m)
  }

  lemma {:induction false} ReadTopicsFit(bytes: seq<byte>)
    ensures ReadTopics(bytes).Ok? ==> forall t :: t in ReadTopics(bytes).value ==> FitsPrefix(t)
    decreases |bytes|
  {
    hide EncodeBlob, ParseString;
    if bytes == [] || !ParseString(bytes).Ok? {
    } else {
      StringSound(bytes);
      ReadTopicsFit(bytes[ParseString(bytes).used..]);
    }
  }

  lemma {:induction false} TopicsComplete(topics: seq<Utf8>)
    requires forall t :: t in topics ==> FitsPrefix(t)
    ensures ReadTopics(EncodeTopics(topics)) == Ok(topics, |EncodeTopics(topics)|)
  {
    hide EncodeBlob, ParseString;
    if topics == [] {
    } else {
      var bytes := EncodeTopics(topics);
      StringRoundTrip(topics[0], bytes);
      StringSound(bytes);
      TopicsComplete(topics[1..]);
      assert bytes[|EncodeBlob(topics[0])|..] == EncodeTopics(topics[1..]);
      assert [topics[0]] + topics[1..] == topics;
    }
  }

  lemma TopicsRoundTrip(topics: seq<Utf8>)
    ensures ReadTopics(EncodeTopics(topics)) == Ok(topics, |EncodeTopics(topics)|)
            <==> forall t :: t in topics ==> FitsPrefix(t)
  {
    hide ReadTopics, EncodeTopics, FitsPrefix;
    ReadTopicsFit(EncodeTopics(topics));
    if forall t :: t in topics ==> FitsPrefix(t) {
      TopicsComplete(topics);
    }
  }

  /** An UNSUBSCRIBE carries its identifier and no properties, and its topic filters exactly when each
      of them fits its length prefix. */
  lemma UnsubscribeLayout(u: Unsubscribe)
    ensures var body := Parts(UnsubscribePacket(u)).value.1;
            && ParsePktId(body) == Ok(u.pktid, 2) && |body| >= 3 && body[2] == 0
            && (ReadTopics(body[3..]) == Ok(u.topics, |body| - 3) <==> forall t :: t in u.topics ==> FitsPrefix(t))
  {
    hide U16Bytes, ParsePktId, ReadTopics, EncodeTopics, FitsPrefix;
    var body := Parts(UnsubscribePacket(u)).value.1;
    PktIdRoundTrip(u.pktid, body);
    TopicsRoundTrip(u.topics);
    assert body[3..] == EncodeTopics(u.topics);
  }

  /** A SUBSCRIBE carries its identifier, no properties, and the options: QoS in the low two bits, then
      No Local and Retain As Published; and its topic filter exactly when that fits its length prefix. */
  lemma SubscribeLayout(s: Subscribe)
    ensures var body := Parts(SubscribePacket(s)).value.1;
            && ParsePktId(body) == Ok(s.pktid, 2) && |body| == |s.topic| + 6 && body[2] == 0
            && (ParseString(body[3..]) == Ok(s.topic, |s.topic| + 2) <==> FitsPrefix(s.topic))
            && var options := body[|s.topic| + 5];
               options % 4 == (match s.qos case AtMostOnce => 0 case AtLeastOnce => 1 case ExactlyOnce => 2)
               && (options / 4 % 2 == 1 <==> s.noLocal)
               && (options / 8 == 1 <==> s.retainAsPublished)
  {
    hide U16Bytes, ParsePktId, EncodeBlob, ParseString;
    var body := Parts(SubscribePacket(s)).value.1;
    PktIdRoundTrip(s.pktid, body);
    assert EncodeBlob(s.topic) <= body[3..];
    StringRoundTrip(s.topic, body[3..]);
  }

  /** A CONNECT names protocol MQTT in version 5, starts clean, and carries the keep-alive and no
      properties; and the client identifier exactly when that fits its length prefix. */
  lemma ConnectLayout(c: Connect)
    ensures var body := Parts(ConnectPacket(c)).value.1;
            && |body| == |c.clientId| + 13 && TakeBlob(body) == Ok(MQTT, 6)
            && body[6] == 5 && body[7] == 2 && U16Of(body[8], body[9]) == c.keepAlive && body[10] == 0
            && (ParseString(body[11..]) == Ok(c.clientId, |c.clientId| + 2) <==> FitsPrefix(c.clientId))
  {
    var body := Parts(ConnectPacket(c)).value.1;
    assert Vbi.Encode(0) == [0];
    hide U16Bytes, U16Of, EncodeBlob, ParseString, TakeBlob;
    BlobRoundTrip(MQTT, body);
    U16Value(c.keepAlive);
    assert body[8..10] == U16Bytes(c.keepAlive);
    assert body[8] == U16Bytes(c.keepAlive)[0] && body[9] == U16Bytes(c.keepAlive)[1];
    assert body[11..] == EncodeBlob(c.clientId);
    StringRoundTrip(c.clientId, body[11..]);
  }

  // ---- parsers of what a server sends -------------------------------------------------------

  /** A DISCONNECT from a server must not carry a session expiry, which the others do not know. */
  function ParseNote(bytes: seq<byte>): (r: Parsed<Note>)
    ensures r.Ok? ==> 2 <= r.used <= |bytes|
  {
    if bytes == [] then Err(NotEnoughBytes)
    else if bytes[0] == 0x1F then
      var (s, n) :- ParseString(bytes[1..]);
      StringSound(bytes[1..]);
      Ok(ReasonString(s), n + 1)
    else if bytes[0] == 0x26 then
      var (k, n) :- ParseString(bytes[1..]);
      StringSound(bytes[1..]);
      var (v, m) :- ParseString(bytes[n + 1..]);
      StringSound(bytes[n + 1..]);
      Ok(UserProperty(k, v), n + m + 1)
    else Err(Other)
  }

  function ParseNotes(window: seq<byte>): Parsed<seq<Note>>
    decreases |window|
  {
    if window == [] then Ok([], 0)
    else
      var (n, used) :- ParseNote(window);
      var (ns, more) :- ParseNotes(window[used..]);
      Ok([n] + ns, used + more)
  }

  function ParseNoteList(bytes: seq<byte>): Parsed<seq<Note>> {
    var (len, used) :- Vbi.Decode(bytes);
    if len == 0 then Ok([], used)
    else if |bytes| < used + len then Fault
    else
      var (ns, _) :- ParseNotes(bytes[used..used + len]);
      Ok(ns, used + len)
  }

  const CONNACK_REASONS: set<byte> :=
    {0, 128, 129, 130, 131, 132, 133, 134, 135, 136, 137, 138, 140, 144, 149, 151, 153, 154, 155, 156, 157, 159}

  const SUBACK_REASONS: set<byte> := {0, 1, 2, 128, 131, 135, 143, 145, 151, 158, 161, 162}

  const UNSUBACK_REASONS: set<byte> := {0, 17, 128, 131, 135, 143, 145}

  const DISCONNECT_REASONS: set<byte> :=
    {0, 4, 128, 129, 130, 131, 135, 137, 139, 141, 142, 143, 144, 147, 148, 149, 150, 151, 152, 153, 154, 155,
     156, 157, 158, 159, 160, 161, 162}

  /** A reason code at `at`: an index out of range panics, an unknown code is an error. */
  function ReasonAt(bytes: seq<byte>, at: nat, known: set<byte>): Parsed<byte> {
    if at >= |bytes| then Fault else if bytes[at] in known then Ok(bytes[at], 1) else Err(Other)
  }

  /** The length of the rest of the packet, and where it starts; all of it must be there. */
  function Remaining(bytes: seq<byte>): (r: Parsed<nat>)
    ensures r.Ok? ==> r.used + r.value <= |bytes|
  {
    if bytes == [] then Fault
    else
      var (remaining, head) :- Vbi.Decode(bytes[1..]);
      if |bytes| < remaining + head + 1 then Err(NotEnoughBytes) else Ok(remaining, 1 + head)
  }

  function ParseConnack(bytes: seq<byte>): Parsed<Connack> {
    var (_, at) :- Remaining(bytes);
    var (flags, _) :- ReasonAt(bytes, at, {0, 1});
    var (reason, _) :- ReasonAt(bytes, at + 1, CONNACK_REASONS);
    var (notes, n) :- ParseNoteList(bytes[at + 2..]);
    Ok(Connack(flags == 1, reason, notes), at + 2 + n)
  }

  function ParseAck(bytes: seq<byte>, known: set<byte>): Parsed<Ack> {
    var (_, at) :- Remaining(bytes);
    var (pktid, i) :- ParsePktId(bytes[at..]);
    var (notes, n) :- ParseNoteList(bytes[at + i..]);
    var (reason, _) :- ReasonAt(bytes, at + i + n, known);
    Ok(Ack(pktid, reason, notes), at + i + n + 1)
  }

  function ParseDisconnect(bytes: seq<byte>): Parsed<Disconnect> {
    var (remaining, at) :- Remaining(bytes);
    if remaining == 0 then Ok(Disconnect(0, []), at)
    else
      var (reason, _) :- ReasonAt(bytes, at, DISCONNECT_REASONS);
      if remaining < 4 then Ok(Disconnect(reason, []), at + 1)
      else
        var (notes, n) :- ParseNoteList(bytes[at + 1..]);
        Ok(Disconnect(reason, notes), at + 1 + n)
  }

  /** The packet of a frame. The types a server never sends to this client, and the QoS 2 packets, are
      not implemented and panic. */
  function Parse(data: seq<byte>): Parsed<Packet> {
    if data == [] then Fault
    else
      match data[0] / 16
      case 0 => Err(Other)
      case 2 => var (p, n) :- ParseConnack(data); Ok(ConnackPacket(p), n)
      case 3 => var (p, n) :- Publishing.Parse(data); Ok(PublishPacket(p), n)
      case 4 => var (p, n) :- Pubacks.Parse(data); Ok(PubackPacket(p), n)
      case 9 => var (p, n) :- ParseAck(data, SUBACK_REASONS); Ok(SubackPacket(p), n)
      case 11 => var (p, n) :- ParseAck(data, UNSUBACK_REASONS); Ok(UnsubackPacket(p), n)
      case 13 => if |data| < 2 then Err(NotEnoughBytes) else Ok(PingRespPacket, 2)
      case 14 => var (p, n) :- ParseDisconnect(data); Ok(DisconnectPacket(p), n)
      case _ => Fault
  }

  // ---- which frames panic the parsers -------------------------------------------------------

  lemma {:induction false} NotesNeverFault(window: seq<byte>)
    ensures !ParseNotes(window).Fault?
    decreases |window|
  {
    if window == [] || !ParseNote(window).Ok? {
    } else {
      NotesNeverFault(window[ParseNote(window).used..]);
    }
  }

  /** A list whose length overflows or runs past the input. */
  predicate NotesCutShort(bytes: seq<byte>) {
    || Vbi.Overflows(bytes)
    || (Vbi.Decode(bytes).Ok? && Vbi.Decode(bytes).value > 0
        && |bytes| < Vbi.Decode(bytes).used + Vbi.Decode(bytes).value)
  }

  lemma NoteListFault(bytes: seq<byte>)
    ensures ParseNoteList(bytes).Fault? <==> NotesCutShort(bytes)
    ensures ParseNoteList(bytes).Ok? ==> ParseNoteList(bytes).used <= |bytes|
  {
    hide ParseNotes, Vbi.Decode, Vbi.Overflows;
    Vbi.Outcomes(bytes);
    if Vbi.Decode(bytes).Ok? {
      Vbi.Sound(bytes);
      var Ok(len, used) := Vbi.Decode(bytes);
      if used + len <= |bytes| {
        NotesNeverFault(bytes[used..used + len]);
      }
    }
  }

  /** A CONNACK without flags, or without a reason, or with a list that is cut short. */
  predicate ConnackPanics(body: seq<byte>) {
    || body == []
    || (body[0] <= 1 && (|body| == 1 || (body[1] in CONNACK_REASONS && NotesCutShort(body[2..]))))
  }

  function StringEnd(bytes: seq<byte>, at: nat): (end: nat)
    requires at + 2 <= |bytes|
    ensures end >= at + 2
  {
    at + 2 + U16Of(bytes[at], bytes[at + 1])
  }

  /** A whole string with its length stands at `at`. */
  predicate HoldsString(bytes: seq<byte>, at: nat) {
    && at + 2 <= |bytes| && StringEnd(bytes, at) <= |bytes|
    && ValidUtf8(bytes[at + 2..StringEnd(bytes, at)])
  }

  lemma StringHeld(bytes: seq<byte>, at: nat)
    requires at <= |bytes|
    ensures ParseString(bytes[at..]).Ok? <==> HoldsString(bytes, at)
    ensures HoldsString(bytes, at) ==> ParseString(bytes[at..]).used == StringEnd(bytes, at) - at
  {
    hide ValidUtf8, U16Of;
    if at + 2 <= |bytes| && StringEnd(bytes, at) <= |bytes| {
      assert bytes[at..][2..StringEnd(bytes, at) - at] == bytes[at + 2..StringEnd(bytes, at)];
    }
  }

  /** Nothing but whole reason strings and user properties. */
  predicate NotesFill(window: seq<byte>)
    decreases |window|
  {
    || window == []
    || (window[0] == 0x1F && HoldsString(window, 1) && NotesFill(window[StringEnd(window, 1)..]))
    || (window[0] == 0x26 && HoldsString(window, 1) && HoldsString(window, StringEnd(window, 1))
        && NotesFill(window[StringEnd(window, StringEnd(window, 1))..]))
  }

  lemma StringFits(bytes: seq<byte>, at: nat)
    requires HoldsString(bytes, at)
    ensures at + 2 <= |bytes| && StringEnd(bytes, at) <= |bytes|
  {
  }

  lemma NoteHeld(window: seq<byte>)
    requires window != []
    ensures ParseNote(window).Ok?
            <==> HoldsString(window, 1)
                 && (window[0] == 0x1F || (window[0] == 0x26 && HoldsString(window, StringEnd(window, 1))))
    ensures ParseNote(window).Ok? ==>
              ParseNote(window).used == if window[0] == 0x1F then StringEnd(window, 1)
                                        else StringEnd(window, StringEnd(window, 1))
  {
    hide ParseString, HoldsString, StringEnd;
    StringHeld(window, 1);
    if HoldsString(window, 1) {
      StringFits(window, 1);
      StringHeld(window, StringEnd(window, 1));
    }
  }

  lemma {:induction false} NotesFillExactly(window: seq<byte>)
    ensures ParseNotes(window).Ok? <==> NotesFill(window)
    decreases |window|
  {
    hide ParseNote, HoldsString, StringEnd;
    if window == [] {
    } else {
      NoteHeld(window);
      if ParseNote(window).Ok? {
        NotesFillExactly(window[ParseNote(window).used..]);
      }
    }
  }

  /** A list of whole properties that takes up all the bytes. */
  predicate ListFills(bytes: seq<byte>) {
    && Vbi.Decode(bytes).Ok? && |bytes| == Vbi.Decode(bytes).used + Vbi.Decode(bytes).value
    && NotesFill(bytes[Vbi.Decode(bytes).used..])
  }

  lemma NothingFills()
    ensures NotesFill([])
  {
  }

  lemma ListFillsExactly(bytes: seq<byte>)
    ensures ListFills(bytes) <==> ParseNoteList(bytes).Ok? && ParseNoteList(bytes).used == |bytes|
  {
    hide ParseNotes, NotesFill, Vbi.Decode;
    if Vbi.Decode(bytes).Ok? {
      Vbi.Sound(bytes);
      var Ok(len, used) := Vbi.Decode(bytes);
      if used + len == |bytes| {
        assert bytes[used..used + len] == bytes[used..];
        NotesFillExactly(bytes[used..]);
        if len == 0 {
          NothingFills();
        }
      }
    }
  }

  /** A SUBACK or UNSUBACK with a list that is cut short, or one that leaves no room for the reason. */
  predicate AckPanics(body: seq<byte>) {
    ParsePktId(body).Ok? && (NotesCutShort(body[2..]) || ListFills(body[2..]))
  }

  predicate DisconnectPanics(body: seq<byte>) {
    |body| >= 4 && body[0] in DISCONNECT_REASONS && NotesCutShort(body[1..])
  }

  /** Bytes that are exactly as long as they announce. */
  predicate Exact(data: seq<byte>) {
    && data != [] && Vbi.Decode(data[1..]).Ok?
    && |data| == 1 + Vbi.Decode(data[1..]).used + Vbi.Decode(data[1..]).value
  }

  /** The body behind the fixed header. */
  function BodyOf(data: seq<byte>): seq<byte>
    requires Exact(data)
  {
    data[1 + Vbi.Decode(data[1..]).used..]
  }

  /** The frames that panic the parsers, by packet type. */
  ghost predicate FramePanics(data: seq<byte>)
    requires Exact(data)
  {
    match data[0] / 16
    case 0 => false
    case 2 => ConnackPanics(BodyOf(data))
    case 3 => ListPanics(data)
    case 4 => Pubacks.Panics(BodyOf(data))
    case 9 => AckPanics(BodyOf(data))
    case 11 => AckPanics(BodyOf(data))
    case 13 => false
    case 14 => DisconnectPanics(BodyOf(data))
    case _ => true
  }

  lemma RemainingExact(data: seq<byte>)
    requires Exact(data)
    ensures Remaining(data) == Ok(|BodyOf(data)|, |data| - |BodyOf(data)|)
  {
    hide Vbi.Decode;
  }

  lemma BodyIsTail(data: seq<byte>)
    requires Exact(data)
    ensures |BodyOf(data)| <= |data| && BodyOf(data) == data[|data| - |BodyOf(data)|..]
  {
    hide Vbi.Decode;
  }

  lemma ConnackFault(data: seq<byte>)
    requires Exact(data)
    ensures ParseConnack(data).Fault? <==> ConnackPanics(BodyOf(data))
  {
    hide Remaining, Exact, BodyOf, ParseNoteList, NotesCutShort;
    RemainingExact(data);
    var body, at := BodyOf(data), |data| - |BodyOf(data)|;
    BodyIsTail(data);
    if |body| >= 2 {
      assert data[at + 2..] == body[2..];
      NoteListFault(body[2..]);
    }
  }

  lemma AckFault(data: seq<byte>, known: set<byte>)
    requires Exact(data)
    ensures ParseAck(data, known).Fault? <==> AckPanics(BodyOf(data))
  {
    hide Remaining, Exact, BodyOf, ParseNoteList, NotesCutShort, ListFills;
    RemainingExact(data);
    var body, at := BodyOf(data), |data| - |BodyOf(data)|;
    BodyIsTail(data);
    if ParsePktId(body).Ok? {
      assert data[at + 2..] == body[2..];
      NoteListFault(body[2..]);
      ListFillsExactly(body[2..]);
    }
  }

  lemma DisconnectFault(data: seq<byte>)
    requires Exact(data)
    ensures ParseDisconnect(data).Fault? <==> DisconnectPanics(BodyOf(data))
  {
    hide Remaining, Exact, BodyOf, ParseNoteList, NotesCutShort;
    RemainingExact(data);
    var body, at := BodyOf(data), |data| - |BodyOf(data)|;
    BodyIsTail(data);
    if |body| >= 1 {
      assert data[at + 1..] == body[1..];
      NoteListFault(body[1..]);
    }
  }

  lemma PubackFault(data: seq<byte>)
    requires Exact(data)
    ensures Pubacks.Parse(data).Fault? <==> Pubacks.Panics(BodyOf(data))
  {
    hide Vbi.Decode, Pubacks.ParseBody, Pubacks.Panics;
    Pubacks.BodyFault(BodyOf(data));
  }

  lemma ExactSize(data: seq<byte>)
    requires Exact(data)
    ensures |data| >= 2
  {
    Vbi.Sound(data[1..]);
  }

  lemma PublishFault(data: seq<byte>)
    requires Exact(data)
    ensures Publishing.Parse(data).Fault? <==> ListPanics(data)
  {
    hide Publishing.Parse, ListPanics, Vbi.Decode;
    Publishing.ExactFault(data);
  }

  /** A frame that is as long as it announces makes its parser panic exactly under `FramePanics`. */
  lemma FrameFault(data: seq<byte>)
    requires Exact(data)
    ensures Parse(data).Fault? <==> FramePanics(data)
  {
    ExactSize(data);
    hide Exact, BodyOf, Publishing.Parse, Pubacks.Parse, ParseConnack, ParseAck, ParseDisconnect, ConnackPanics,
      AckPanics, DisconnectPanics, Pubacks.Panics, ListPanics;
    match data[0] / 16
    case 2 => ConnackFault(data);
    case 3 => PublishFault(data);
    case 4 => PubackFault(data);
    case 9 => AckFault(data, SUBACK_REASONS);
    case 11 => AckFault(data, UNSUBACK_REASONS);
    case 14 => DisconnectFault(data);
    case _ =>
  }

  /** A PUBLISH comes from the parser of PUBLISH packets. */
  lemma ParsedPublish(data: seq<byte>)
    requires Parse(data).Ok? && Parse(data).value.PublishPacket?
    ensures Publishing.Parse(data).Ok? && Publishing.Parse(data).value == Parse(data).value.publish
  {
    hide Publishing.Parse, Pubacks.Parse, ParseConnack, ParseAck, ParseDisconnect;
  }
}
