/** The bytes of MQTT packets, written out position by position, as the reference for encoders and parsers. */
module Formats {
  import opened Bytes
  import opened Packets
  import Codec
  import Fields
  import Properties
  import Pubacks
  import Publishing
  import Vbi

  // ---- numbers, lengths and strings ---------------------------------------------------------

  /** A two-byte number at `at`, high byte first. */
  predicate Num16(bytes: seq<byte>, at: nat, n: int) {
    at + 2 <= |bytes| && n == 256 * (bytes[at] as int) + bytes[at + 1]
  }

  /** Bytes with their two-byte length at `at`. */
  predicate Str(bytes: seq<byte>, at: nat, s: seq<byte>) {
    Num16(bytes, at, |s|) && at + 2 + |s| <= |bytes| && bytes[at + 2..at + 2 + |s|] == s
  }

  /** How many bytes a length at `at` takes: all but the last have their high bit set. There is none in 0. */
  function LenSize(bytes: seq<byte>, at: nat): (size: nat)
    ensures size <= 4 && (size > 0 ==> at + size <= |bytes|)
  {
    if at < |bytes| && bytes[at] < 128 then 1
    else if at + 1 < |bytes| && bytes[at + 1] < 128 then 2
    else if at + 2 < |bytes| && bytes[at + 2] < 128 then 3
    else if at + 3 < |bytes| && bytes[at + 3] < 128 then 4
    else 0
  }

  function Low(b: byte): nat {
    b % 128
  }

  /** Its value: seven bits from each byte, the lowest first. */
  function LenValue(bytes: seq<byte>, at: nat): nat {
    match LenSize(bytes, at)
    case 0 => 0
    case 1 => bytes[at]
    case 2 => Low(bytes[at]) + 128 * Low(bytes[at + 1])
    case 3 => Low(bytes[at]) + 128 * Low(bytes[at + 1]) + 16384 * Low(bytes[at + 2])
    case _ =>
      Low(bytes[at]) + 128 * Low(bytes[at + 1]) + 16384 * Low(bytes[at + 2]) + 2097152 * Low(bytes[at + 3])
  }

  function LenEnd(bytes: seq<byte>, at: nat): nat {
    at + LenSize(bytes, at)
  }

  /** Where the bytes end that a length at `at` announces. */
  function ListEnd(bytes: seq<byte>, at: nat): nat {
    LenEnd(bytes, at) + LenValue(bytes, at)
  }

  /** A length at `at`, with all the bytes it announces. */
  predicate Prefixed(bytes: seq<byte>, at: nat) {
    LenSize(bytes, at) > 0 && ListEnd(bytes, at) <= |bytes|
  }

  /** Those bytes. */
  function Window(bytes: seq<byte>, at: nat): seq<byte>
    requires Prefixed(bytes, at)
  {
    bytes[LenEnd(bytes, at)..ListEnd(bytes, at)]
  }

  lemma LenStep(bytes: seq<byte>)
    requires bytes != []
    ensures bytes[0] < 128 ==> LenSize(bytes, 0) == 1 && LenValue(bytes, 0) == bytes[0]
    ensures bytes[0] >= 128 ==>
              var size := LenSize(bytes[1..], 0);
              LenSize(bytes, 0) == if 0 < size < 4 then size + 1 else 0
    ensures bytes[0] >= 128 && LenSize(bytes, 0) > 0 ==>
              LenValue(bytes, 0) == bytes[0] - 128 + 128 * LenValue(bytes[1..], 0)
  {
    assert forall i :: 0 <= i < |bytes| - 1 ==> bytes[1..][i] == bytes[i + 1];
  }

  lemma {:induction false} ReadValue(bytes: seq<byte>, depth: nat)
    requires depth <= 4
    ensures Vbi.Read(bytes, depth).Ok? <==> 0 < LenSize(bytes, 0) <= 4 - depth
    ensures Vbi.Read(bytes, depth).Ok? ==> Vbi.Read(bytes, depth) == Ok(LenValue(bytes, 0), LenSize(bytes, 0))
    decreases 4 - depth
  {
    if bytes == [] || depth == 4 {
    } else {
      hide LenSize, LenValue;
      LenStep(bytes);
      if bytes[0] >= 128 {
        ReadValue(bytes[1..], depth + 1);
      }
    }
  }

  /** The decoder of lengths accepts exactly those, with that value. */
  lemma LenExactly(bytes: seq<byte>, at: nat)
    requires at <= |bytes|
    ensures Vbi.Decode(bytes[at..]).Ok? <==> LenSize(bytes, at) > 0
    ensures Vbi.Decode(bytes[at..]).Ok? ==> Vbi.Decode(bytes[at..]) == Ok(LenValue(bytes, at), LenSize(bytes, at))
  {
    ReadValue(bytes[at..], 0);
  }

  lemma SameSlice(bytes: seq<byte>, at: nat, n: nat)
    requires at + 2 + n <= |bytes|
    ensures bytes[at..][2..2 + n] == bytes[at + 2..at + 2 + n]
  {
  }

  lemma BlobExactly(bytes: seq<byte>, at: nat, s: seq<byte>, used: nat)
    requires at <= |bytes|
    ensures Fields.TakeBlob(bytes[at..]) == Ok(s, used) <==> Str(bytes, at, s) && used == 2 + |s|
  {
    if at + 2 <= |bytes| && at + 2 + U16Of(bytes[at], bytes[at + 1]) <= |bytes| {
      SameSlice(bytes, at, U16Of(bytes[at], bytes[at + 1]));
    }
  }

  lemma StrExactly(bytes: seq<byte>, at: nat, s: Utf8, used: nat)
    requires at <= |bytes|
    ensures Fields.ParseString(bytes[at..]) == Ok(s, used) <==> Str(bytes, at, s) && used == 2 + |s|
  {
    hide ValidUtf8, Fields.TakeBlob, Str;
    BlobExactly(bytes, at, s, used);
  }

  lemma DataExactly(bytes: seq<byte>, at: nat, s: seq<byte>, used: nat)
    requires at <= |bytes|
    ensures Fields.ParseBinary(bytes[at..]) == Ok(s, used) <==> Str(bytes, at, s) && used == 2 + |s|
  {
    hide Fields.TakeBlob;
    BlobExactly(bytes, at, s, used);
  }

  lemma IdExactly(bytes: seq<byte>, at: nat, id: PktId, used: nat)
    requires at <= |bytes|
    ensures Fields.ParsePktId(bytes[at..]) == Ok(id, used) <==> Num16(bytes, at, id) && used == 2
  {
  }

  // ---- properties of a PUBLISH --------------------------------------------------------------

  /** A property at `at`. */
  predicate Prop(bytes: seq<byte>, at: nat, p: Properties.Property) {
    at < |bytes|
    && match p
       case PayloadFormatId(format) => bytes[at] == 0x01 && at + 2 <= |bytes| && bytes[at + 1] == format
       case MessageExpiryInterval(interval) =>
         && bytes[at] == 0x02 && at + 5 <= |bytes|
         && interval == 16777216 * (bytes[at + 1] as int) + 65536 * (bytes[at + 2] as int)
                     + 256 * (bytes[at + 3] as int) + bytes[at + 4]
       case ResponseTopic(topic) => bytes[at] == 0x08 && Str(bytes, at + 1, topic)
       case CorrelationData(data) => bytes[at] == 0x09 && Str(bytes, at + 1, data)
       case UserProperty(key, val) => bytes[at] == 0x26 && Str(bytes, at + 1, key) && Str(bytes, at + 3 + |key|, val)
  }

  function PropSize(p: Properties.Property): nat {
    match p
    case PayloadFormatId(_) => 2
    case MessageExpiryInterval(_) => 5
    case ResponseTopic(topic) => 3 + |topic|
    case CorrelationData(data) => 3 + |data|
    case UserProperty(key, val) => 5 + |key| + |val|
  }

  /** How far on the next property is looked for, when `lost` bytes of a MessageExpiryInterval are not
      counted: 0 of those that are written, 1 of those that are read. */
  function PropStep(p: Properties.Property, lost: nat): nat
    requires lost <= 1
  {
    if p.MessageExpiryInterval? then 5 - lost else PropSize(p)
  }

  /** The properties that fill a window. */
  predicate Props(window: seq<byte>, ps: seq<Properties.Property>, lost: nat)
    requires lost <= 1
    decreases |ps|
  {
    if ps == [] then window == []
    else
      && Prop(window, 0, ps[0]) && PropStep(ps[0], lost) <= |window|
      && Props(window[PropStep(ps[0], lost)..], ps[1..], lost)
  }

  lemma StrFits(bytes: seq<byte>, at: nat, s: seq<byte>)
    requires Str(bytes, at, s)
    ensures at + 2 + |s| <= |bytes|
  {
  }

  lemma UserExactly(bytes: seq<byte>, key: Utf8, val: Utf8, used: nat)
    requires bytes != [] && bytes[0] == 0x26
    ensures Properties.Parse(bytes) == Ok(Properties.UserProperty(key, val), used)
            <==> Prop(bytes, 0, Properties.UserProperty(key, val)) && used == 5 + |key| + |val|
  {
    hide Fields.ParseString, Str;
    var k := Fields.ParseString(bytes[1..]);
    StrExactly(bytes, 1, key, 2 + |key|);
    if k.Ok? {
      StrExactly(bytes, 1, k.value, k.used);
      StrFits(bytes, 1, k.value);
      StrExactly(bytes, 3 + |k.value|, val, 2 + |val|);
      var v := Fields.ParseString(bytes[3 + |k.value|..]);
      if v.Ok? {
        StrExactly(bytes, 3 + |k.value|, v.value, v.used);
      }
    }
  }

  lemma TopicExactly(bytes: seq<byte>, p: Properties.Property, used: nat)
    requires bytes != [] && bytes[0] == 0x08
    ensures Properties.Parse(bytes) == Ok(p, used) <==> Prop(bytes, 0, p) && used == PropStep(p, 1)
  {
    hide Fields.ParseString, Str;
    if p.ResponseTopic? && used > 0 {
      StrExactly(bytes, 1, p.topic, used - 1);
    }
  }

  lemma CorrelationExactly(bytes: seq<byte>, p: Properties.Property, used: nat)
    requires bytes != [] && bytes[0] == 0x09
    ensures Properties.Parse(bytes) == Ok(p, used) <==> Prop(bytes, 0, p) && used == PropStep(p, 1)
  {
    hide Fields.ParseBinary, Str;
    if p.CorrelationData? && used > 0 {
      DataExactly(bytes, 1, p.data, used - 1);
    }
  }

  /** The parser of properties accepts exactly those, with one byte of a MessageExpiryInterval not counted. */
  lemma PropExactly(bytes: seq<byte>, p: Properties.Property, used: nat)
    ensures Properties.Parse(bytes) == Ok(p, used) <==> Prop(bytes, 0, p) && used == PropStep(p, 1)
  {
    if bytes != [] {
      match bytes[0]
      case 0x08 => TopicExactly(bytes, p, used);
      case 0x09 => CorrelationExactly(bytes, p, used);
      case 0x26 =>
        if p.UserProperty? {
          UserExactly(bytes, p.key, p.val, used);
        }
      case _ =>
    }
  }

  lemma NoProp(ps: seq<Properties.Property>)
    requires ps != []
    ensures !Prop([], 0, ps[0])
  {
  }

  lemma {:induction false} PropsExactly(window: seq<byte>, ps: seq<Properties.Property>)
    ensures Properties.ParseAll(window).Ok? && Properties.ParseAll(window).value == ps <==> Props(window, ps, 1)
    decreases |window|
  {
    hide Properties.Parse, Prop, PropStep;
    if window == [] {
      if ps != [] {
        NoProp(ps);
      }
    } else if Properties.Parse(window).Ok? {
      var Ok(p, used) := Properties.Parse(window);
      Properties.Sound(window);
      PropExactly(window, p, used);
      if ps != [] {
        PropExactly(window, ps[0], PropStep(ps[0], 1));
        PropsExactly(window[used..], ps[1..]);
        assert [ps[0]] + ps[1..] == ps;
      }
    } else if ps != [] {
      PropExactly(window, ps[0], PropStep(ps[0], 1));
    }
  }

  /** A list of properties with its length, at `at`. */
  predicate PropList(bytes: seq<byte>, at: nat, ps: seq<Properties.Property>, lost: nat)
    requires lost <= 1
  {
    Prefixed(bytes, at) && Props(Window(bytes, at), ps, lost)
  }

  lemma WindowAt(bytes: seq<byte>, at: nat)
    requires at <= |bytes| && Prefixed(bytes, at)
    ensures bytes[at..][LenSize(bytes, at)..LenSize(bytes, at) + LenValue(bytes, at)] == Window(bytes, at)
  {
    hide LenSize, LenValue;
  }

  lemma PropListExactly(bytes: seq<byte>, at: nat, ps: seq<Properties.Property>, n: nat)
    requires at <= |bytes|
    ensures Properties.ParseList(bytes[at..]) == Ok(ps, n)
            <==> PropList(bytes, at, ps, 1) && at + n == ListEnd(bytes, at)
  {
    hide Vbi.Decode, LenSize, LenValue, Properties.ParseAll;
    LenExactly(bytes, at);
    if Prefixed(bytes, at) {
      WindowAt(bytes, at);
      PropsExactly(Window(bytes, at), ps);
    }
  }

  // ---- PUBLISH ------------------------------------------------------------------------------

  /** The low four bits of a first byte. */
  predicate FlagBits(first: byte, f: Publishing.Flags) {
    && (first / 8 % 2 == 1 <==> f.dup) && (first % 2 == 1 <==> f.retain)
    && first / 2 % 4 == match f.qos case AtMostOnce => 0 case AtLeastOnce => 1 case ExactlyOnce => 2
  }

  /** How many bytes topic and identifier take. */
  function HeadSize(m: Publishing.Publish): nat {
    2 + |m.topic| + if m.flags.qos == Publishing.AtMostOnce then 0 else 2
  }

  predicate Head(body: seq<byte>, m: Publishing.Publish) {
    && Str(body, 0, m.topic)
    && if m.flags.qos == Publishing.AtMostOnce then m.pktid.None?
       else m.pktid.Some? && Num16(body, 2 + |m.topic|, m.pktid.value)
  }

  /** Topic, identifier, properties, and the payload up to the end. */
  predicate PublishBody(body: seq<byte>, m: Publishing.Publish, lost: nat)
    requires lost <= 1
  {
    && Head(body, m) && PropList(body, HeadSize(m), m.properties, lost)
    && var rest := body[ListEnd(body, HeadSize(m))..];
       match m.payload case Text(text) => rest == text case Binary(data) => rest == data
  }

  /** The payload is text exactly with a PayloadFormatId(1). */
  predicate TextRule(m: Publishing.Publish) {
    m.payload.Text? <==> Properties.PayloadFormatId(1) in m.properties
  }

  lemma FlagsExactly(first: byte, f: Publishing.Flags)
    ensures Publishing.ParseFlags(first) == Some(f) <==> FlagBits(first, f)
  {
  }

  lemma HeadExactly(body: seq<byte>, m: Publishing.Publish, at: nat)
    ensures Publishing.ParseHead(m.flags.qos, body) == Ok((m.topic, m.pktid), at)
            <==> Head(body, m) && at == HeadSize(m)
  {
    hide Fields.ParseString, Fields.ParsePktId, Str, Num16;
    assert body[0..] == body;
    StrExactly(body, 0, m.topic, 2 + |m.topic|);
    var s := Fields.ParseString(body);
    if s.Ok? {
      StrExactly(body, 0, s.value, s.used);
      StrFits(body, 0, s.value);
      if m.pktid.Some? {
        IdExactly(body, s.used, m.pktid.value, 2);
      }
      var id := Fields.ParsePktId(body[s.used..]);
      if id.Ok? {
        IdExactly(body, s.used, id.value, id.used);
      }
    }
  }

  lemma PayloadExactly(m: Publishing.Publish, data: seq<byte>, used: nat)
    ensures Publishing.Payloaded((m.topic, m.pktid), m.properties, m.flags, data, used) == Ok(m, used)
            <==> TextRule(m) && (match m.payload case Text(text) => data == text case Binary(d) => data == d)
  {
    hide ValidUtf8;
  }

  lemma PublishBodyReads(flags: Publishing.Flags, body: seq<byte>, m: Publishing.Publish)
    requires Publishing.ParseBody(flags, |body|, body) == Ok(m, |body|)
    ensures m.flags == flags && PublishBody(body, m, 1) && TextRule(m)
  {
    hide Publishing.ParseHead, Properties.ParseList, Head, PropList, ListEnd;
    var Ok(head, at) := Publishing.ParseHead(flags.qos, body);
    var Ok(ps, n) := Properties.ParseList(body[at..]);
    HeadExactly(body, m, at);
    PropListExactly(body, at, ps, n);
    PayloadExactly(m, body[at + n..|body|], |body|);
    assert body[at + n..|body|] == body[at + n..];
  }

  lemma PublishBodyRead(body: seq<byte>, m: Publishing.Publish)
    requires PublishBody(body, m, 1) && TextRule(m)
    ensures Publishing.ParseBody(m.flags, |body|, body) == Ok(m, |body|)
  {
    hide Publishing.ParseHead, Publishing.Payloaded, Properties.ParseList, Props, TextRule;
    var at, end := HeadSize(m), ListEnd(body, HeadSize(m));
    assert at <= end <= |body|;
    hide LenSize, LenValue, ListEnd;
    HeadExactly(body, m, at);
    PropListExactly(body, at, m.properties, end - at);
    PayloadExactly(m, body[end..], |body|);
    assert body[end..|body|] == body[end..];
    hide Head, PropList;
    Publishing.BodyFrom((m.topic, m.pktid), m.properties, m.flags, at, end - at, |body|, body);
  }

  // ---- frames -------------------------------------------------------------------------------

  /** A first byte and a length, with exactly the bytes it announces behind it. */
  predicate Framed(data: seq<byte>) {
    data != [] && Prefixed(data, 1) && ListEnd(data, 1) == |data|
  }

  lemma FramedExactly(data: seq<byte>)
    ensures Framed(data) <==> Exact(data)
    ensures Framed(data) ==> BodyOf(data) == Window(data, 1) && |data| >= 2
  {
    hide Vbi.Decode;
    if data != [] {
      LenExactly(data, 1);
    }
  }

  /** The parser of PUBLISH packets accepts exactly those, whatever the type in the first byte. */
  lemma PublishExactly(data: seq<byte>, m: Publishing.Publish)
    requires Framed(data)
    ensures Publishing.Parse(data).Ok? && Publishing.Parse(data).value == m
            <==> FlagBits(data[0], m.flags) && PublishBody(Window(data, 1), m, 1) && TextRule(m)
  {
    hide Vbi.Decode, LenSize, LenValue, Publishing.ParseFlags, Publishing.ParseBody, FlagBits, PublishBody, TextRule;
    LenExactly(data, 1);
    var body := Window(data, 1);
    assert data[1 + Vbi.Decode(data[1..]).used..] == body;
    FlagsExactly(data[0], m.flags);
    if Publishing.Parse(data).Ok? && Publishing.Parse(data).value == m {
      Publishing.Sound(data);
      PublishBodyReads(m.flags, body, m);
    }
    if FlagBits(data[0], m.flags) && PublishBody(body, m, 1) && TextRule(m) {
      PublishBodyRead(body, m);
    }
  }

  // ---- what only a server sends -------------------------------------------------------------

  /** A property of a CONNACK, SUBACK, UNSUBACK or DISCONNECT at `at`. */
  predicate OneNote(bytes: seq<byte>, at: nat, n: Note) {
    at < |bytes|
    && match n
       case SessionExpiryInterval(interval) =>
         && bytes[at] == 0x11 && at + 5 <= |bytes|
         && interval == 16777216 * (bytes[at + 1] as int) + 65536 * (bytes[at + 2] as int)
                        + 256 * (bytes[at + 3] as int) + bytes[at + 4]
       case ReasonString(text) => bytes[at] == 0x1F && Str(bytes, at + 1, text)
       case UserProperty(key, val) => bytes[at] == 0x26 && Str(bytes, at + 1, key) && Str(bytes, at + 3 + |key|, val)
  }

  function NoteSize(n: Note): nat {
    match n
    case SessionExpiryInterval(_) => 5
    case ReasonString(text) => 3 + |text|
    case UserProperty(key, val) => 5 + |key| + |val|
  }

  predicate Notes(window: seq<byte>, ns: seq<Note>)
    decreases |ns|
  {
    if ns == [] then window == []
    else OneNote(window, 0, ns[0]) && NoteSize(ns[0]) <= |window| && Notes(window[NoteSize(ns[0])..], ns[1..])
  }

  /** A server sends no session expiry. */
  predicate FromServer(ns: seq<Note>) {
    forall n :: n in ns ==> !n.SessionExpiryInterval?
  }

  predicate NoteList(bytes: seq<byte>, at: nat, ns: seq<Note>) {
    Prefixed(bytes, at) && Notes(Window(bytes, at), ns) && FromServer(ns)
  }

  lemma UserNoteExactly(bytes: seq<byte>, key: Utf8, val: Utf8, used: nat)
    requires bytes != []
    ensures ParseNote(bytes) == Ok(UserProperty(key, val), used)
            <==> OneNote(bytes, 0, UserProperty(key, val)) && used == 5 + |key| + |val|
  {
    hide Fields.ParseString, Str;
    var k := Fields.ParseString(bytes[1..]);
    StrExactly(bytes, 1, key, 2 + |key|);
    if k.Ok? {
      StrExactly(bytes, 1, k.value, k.used);
      StrFits(bytes, 1, k.value);
      StrExactly(bytes, 3 + |k.value|, val, 2 + |val|);
      var v := Fields.ParseString(bytes[3 + |k.value|..]);
      if v.Ok? {
        StrExactly(bytes, 3 + |k.value|, v.value, v.used);
      }
    }
  }

  lemma NoteExactly(bytes: seq<byte>, n: Note, used: nat)
    ensures ParseNote(bytes) == Ok(n, used)
            <==> OneNote(bytes, 0, n) && !n.SessionExpiryInterval? && used == NoteSize(n)
  {
    hide Fields.ParseString, Str;
    if bytes != [] && n.ReasonString? && used > 0 {
      StrExactly(bytes, 1, n.text, used - 1);
    }
    if bytes != [] && n.UserProperty? {
      UserNoteExactly(bytes, n.key, n.val, used);
    }
  }

  lemma NoNote(n: Note)
    ensures !OneNote([], 0, n)
  {
  }

  lemma {:induction false} NotesExactly(window: seq<byte>, ns: seq<Note>)
    ensures ParseNotes(window).Ok? && ParseNotes(window).value == ns <==> Notes(window, ns) && FromServer(ns)
    decreases |window|
  {
    hide ParseNote, OneNote, NoteSize;
    if window == [] {
      if ns != [] {
        NoNote(ns[0]);
      }
    } else if ParseNote(window).Ok? {
      var Ok(n, used) := ParseNote(window);
      NoteExactly(window, n, used);
      if ns != [] {
        NoteExactly(window, ns[0], NoteSize(ns[0]));
        NotesExactly(window[used..], ns[1..]);
        assert [ns[0]] + ns[1..] == ns;
      }
    } else if ns != [] {
      NoteExactly(window, ns[0], NoteSize(ns[0]));
    }
  }

  lemma NothingFromServer()
    ensures FromServer([])
  {
  }

  lemma NoteListExactly(bytes: seq<byte>, at: nat, ns: seq<Note>, n: nat)
    requires at <= |bytes|
    ensures ParseNoteList(bytes[at..]) == Ok(ns, n) <==> NoteList(bytes, at, ns) && at + n == ListEnd(bytes, at)
  {
    hide Vbi.Decode, LenSize, LenValue, ParseNotes, FromServer;
    LenExactly(bytes, at);
    if Prefixed(bytes, at) {
      WindowAt(bytes, at);
      NotesExactly(Window(bytes, at), ns);
      NothingFromServer();
    }
  }

  /** A CONNACK: flags, reason, properties. */
  predicate ConnackBody(body: seq<byte>, c: Connack) {
    && |body| >= 2 && body[0] == (if c.sessionPresent then 1 else 0) && body[1] == c.reason
    && c.reason in {0, 128, 129, 130, 131, 132, 133, 134, 135, 136, 137, 138, 140, 144, 149, 151, 153, 154, 155,
                    156, 157, 159}
    && NoteList(body, 2, c.properties)
  }

  /** A SUBACK or UNSUBACK: identifier, properties, one reason; what follows is not looked at. */
  predicate AckBody(body: seq<byte>, a: Ack) {
    && Num16(body, 0, a.pktid) && NoteList(body, 2, a.properties)
    && ListEnd(body, 2) < |body| && body[ListEnd(body, 2)] == a.reason
  }

  /** A DISCONNECT: nothing, or a reason, or a reason and properties from four bytes on. */
  predicate DisconnectBody(body: seq<byte>, d: Disconnect) {
    if body == [] then d == Disconnect(0, [])
    else
      && body[0] == d.reason
      && d.reason in {0, 4, 128, 129, 130, 131, 135, 137, 139, 141, 142, 143, 144, 147, 148, 149, 150, 151, 152, 153,
                      154, 155, 156, 157, 158, 159, 160, 161, 162}
      && if |body| < 4 then d.properties == [] else NoteList(body, 1, d.properties)
  }

  // ---- PUBACK -------------------------------------------------------------------------------

  predicate PubackReason(b: byte, r: Pubacks.Reason) {
    b == match r
         case Success => 0
         case NoMatchingSubscribers => 16
         case UnspecifiedError => 128
         case ImplementationSpecificError => 131
         case NotAuthorized => 135
         case TopicNameInvalid => 144
         case PacketIdentifierInUse => 145
         case QuotaExceeded => 151
         case PayloadFormatInvalid => 153
  }

  /** What properties amount to: the last reason string, and all the user properties. */
  function Gathered(found: Pubacks.Extras, ns: seq<Note>): Pubacks.Extras
    decreases |ns|
  {
    if ns == [] then found
    else
      match ns[0]
      case SessionExpiryInterval(_) => Gathered(found, ns[1..])
      case ReasonString(text) => Gathered(found.(reasonString := Some(text)), ns[1..])
      case UserProperty(key, val) => Gathered(found.(users := found.users + [(key, val)]), ns[1..])
  }

  /** Properties with any one byte between each two of them. */
  predicate Spaced(window: seq<byte>, ns: seq<Note>)
    decreases |ns|
  {
    && ns != [] && OneNote(window, 0, ns[0])
    && if |ns| == 1 then NoteSize(ns[0]) == |window|
       else NoteSize(ns[0]) + 1 <= |window| && Spaced(window[NoteSize(ns[0]) + 1..], ns[1..])
  }

  ghost predicate ExtrasFrom(window: seq<byte>, found: Pubacks.Extras, e: Pubacks.Extras) {
    exists ns :: Spaced(window, ns) && FromServer(ns) && Gathered(found, ns) == e
  }

  /** A list that is empty, or longer than what is there, is no list. */
  ghost predicate ExtrasList(bytes: seq<byte>, at: nat, e: Pubacks.Extras) {
    && LenSize(bytes, at) > 0
    && if LenValue(bytes, at) == 0 || !Prefixed(bytes, at) then e == Pubacks.NO_EXTRAS
       else ExtrasFrom(Window(bytes, at), Pubacks.NO_EXTRAS, e)
  }

  /** A PUBACK: an identifier, or with a reason, or with a reason and properties. */
  ghost predicate PubackBody(body: seq<byte>, p: Pubacks.Puback) {
    && Num16(body, 0, p.pktid)
    && if |body| == 2 then p.reason == Pubacks.Success && p.properties == Pubacks.NO_EXTRAS
       else
         && PubackReason(body[2], p.reason)
         && if |body| == 3 then p.properties == Pubacks.NO_EXTRAS else ExtrasList(body, 3, p.properties)
  }

  lemma TakeIsNote(found: Pubacks.Extras, slice: seq<byte>)
    requires slice != []
    ensures Pubacks.Take(found, slice).Ok? <==> ParseNote(slice).Ok?
    ensures ParseNote(slice).Ok? ==>
              Pubacks.Take(found, slice) == Ok(Gathered(found, [ParseNote(slice).value]), ParseNote(slice).used)
  {
    hide Fields.ParseString, Fields.EncodeBlob;
  }

  lemma GatheredStep(found: Pubacks.Extras, ns: seq<Note>)
    requires ns != []
    ensures Gathered(found, ns) == Gathered(Gathered(found, [ns[0]]), ns[1..])
  {
    assert [ns[0]][1..] == [];
  }

  lemma {:induction false} WalkReads(found: Pubacks.Extras, slice: seq<byte>) returns (ns: seq<Note>)
    requires Pubacks.Walk(found, slice).Ok?
    ensures Spaced(slice, ns) && FromServer(ns) && Gathered(found, ns) == Pubacks.Walk(found, slice).value
    decreases |slice|
  {
    hide Pubacks.Take, ParseNote, OneNote, NoteSize;
    TakeIsNote(found, slice);
    var Ok(n, used) := ParseNote(slice);
    NoteExactly(slice, n, used);
    if used + 1 > |slice| {
      ns := [n];
    } else {
      var more := WalkReads(Gathered(found, [n]), slice[used + 1..]);
      ns := [n] + more;
      assert ns[1..] == more;
      GatheredStep(found, ns);
    }
  }

  lemma {:induction false} WalkRead(found: Pubacks.Extras, slice: seq<byte>, ns: seq<Note>)
    requires Spaced(slice, ns) && FromServer(ns)
    ensures Pubacks.Walk(found, slice).Ok? && Pubacks.Walk(found, slice).value == Gathered(found, ns)
    decreases |ns|
  {
    hide Pubacks.Take, ParseNote, OneNote, NoteSize;
    NoNote(ns[0]);
    NoteExactly(slice, ns[0], NoteSize(ns[0]));
    TakeIsNote(found, slice);
    GatheredStep(found, ns);
    if |ns| == 1 {
      assert ns[1..] == [];
    } else {
      WalkRead(Gathered(found, [ns[0]]), slice[NoteSize(ns[0]) + 1..], ns[1..]);
    }
  }

  lemma WalkExactly(found: Pubacks.Extras, slice: seq<byte>, e: Pubacks.Extras)
    ensures Pubacks.Walk(found, slice).Ok? && Pubacks.Walk(found, slice).value == e <==> ExtrasFrom(slice, found, e)
  {
    hide Pubacks.Walk, Spaced, FromServer, Gathered;
    if Pubacks.Walk(found, slice).Ok? {
      var ns := WalkReads(found, slice);
    }
    if ExtrasFrom(slice, found, e) {
      var ns :| Spaced(slice, ns) && FromServer(ns) && Gathered(found, ns) == e;
      WalkRead(found, slice, ns);
    }
  }

  lemma ExtrasExactly(bytes: seq<byte>, at: nat, e: Pubacks.Extras)
    requires at <= |bytes|
    ensures Pubacks.ParseExtras(bytes[at..]).Ok? && Pubacks.ParseExtras(bytes[at..]).value == e
            <==> ExtrasList(bytes, at, e)
  {
    hide Vbi.Decode, LenSize, LenValue, Pubacks.Walk, ExtrasFrom;
    LenExactly(bytes, at);
    if Prefixed(bytes, at) {
      WindowAt(bytes, at);
      WalkExactly(Pubacks.NO_EXTRAS, Window(bytes, at), e);
    }
  }

  lemma IdThere(body: seq<byte>)
    ensures Fields.ParsePktId(body).Ok? ==> Fields.ParsePktId(body).used == 2 <= |body|
    ensures forall id: PktId :: Num16(body, 0, id) ==> |body| >= 2
  {
  }

  lemma PubackReasonExactly(b: byte, r: Pubacks.Reason)
    ensures Pubacks.ParseReason(b) == Some(r) <==> PubackReason(b, r)
  {
  }

  lemma PubackBodyExactly(body: seq<byte>, p: Pubacks.Puback)
    ensures Pubacks.ParseBody(|body|, body).Ok? && Pubacks.ParseBody(|body|, body).value == p <==> PubackBody(body, p)
  {
    hide Pubacks.ParseExtras, ExtrasList, Fields.ParsePktId, Num16, PubackReason, Pubacks.ParseReason;
    assert body[0..] == body;
    IdExactly(body, 0, p.pktid, 2);
    IdThere(body);
    if |body| >= 3 {
      PubackReasonExactly(body[2], p.reason);
      ExtrasExactly(body, 3, p.properties);
    }
  }

  // ---- whole packets ------------------------------------------------------------------------

  /** The frame of a packet that the client can receive. */
  ghost predicate FrameOf(data: seq<byte>, p: Packet) {
    && Framed(data)
    && var kind, body := data[0] / 16, Window(data, 1);
       match p
       case ConnackPacket(c) => kind == 2 && ConnackBody(body, c)
       case PublishPacket(m) => kind == 3 && FlagBits(data[0], m.flags) && PublishBody(body, m, 1) && TextRule(m)
       case PubackPacket(a) => kind == 4 && PubackBody(body, a)
       case SubackPacket(a) =>
         kind == 9 && AckBody(body, a) && a.reason in {0, 1, 2, 128, 131, 135, 143, 145, 151, 158, 161, 162}
       case UnsubackPacket(a) => kind == 11 && AckBody(body, a) && a.reason in {0, 17, 128, 131, 135, 143, 145}
       case PingRespPacket => kind == 13
       case DisconnectPacket(d) => kind == 14 && DisconnectBody(body, d)
       case _ => false
  }

  /** The parsed list, wherever it ends. */
  lemma NoteListReads(bytes: seq<byte>, at: nat, ns: seq<Note>)
    requires at <= |bytes|
    ensures ParseNoteList(bytes[at..]).Ok? && ParseNoteList(bytes[at..]).value == ns <==> NoteList(bytes, at, ns)
    ensures NoteList(bytes, at, ns) ==> at + ParseNoteList(bytes[at..]).used == ListEnd(bytes, at)
  {
    hide ParseNoteList, NoteList;
    NoteListExactly(bytes, at, ns, LenSize(bytes, at) + LenValue(bytes, at));
    if ParseNoteList(bytes[at..]).Ok? {
      NoteListExactly(bytes, at, ns, ParseNoteList(bytes[at..]).used);
    }
  }

  lemma ConnackExactly(data: seq<byte>, c: Connack)
    requires Framed(data)
    ensures ParseConnack(data).Ok? && ParseConnack(data).value == c <==> ConnackBody(Window(data, 1), c)
  {
    FramedExactly(data);
    hide Framed, Exact, BodyOf, Remaining, LenSize, LenValue, ParseNoteList, NoteList;
    RemainingExact(data);
    BodyIsTail(data);
    var body, at := BodyOf(data), |data| - |BodyOf(data)|;
    if |body| >= 2 {
      assert data[at + 2..] == body[2..];
      NoteListReads(body, 2, c.properties);
    }
  }

  lemma AckExactly(data: seq<byte>, a: Ack, known: set<byte>)
    requires Framed(data)
    ensures ParseAck(data, known).Ok? && ParseAck(data, known).value == a
            <==> AckBody(Window(data, 1), a) && a.reason in known
  {
    FramedExactly(data);
    hide Framed, Exact, BodyOf, Remaining, LenSize, LenValue, ParseNoteList, NoteList, Fields.ParsePktId, Num16;
    RemainingExact(data);
    BodyIsTail(data);
    var body, at := BodyOf(data), |data| - |BodyOf(data)|;
    IdExactly(body, 0, a.pktid, 2);
    assert body[0..] == body;
    IdThere(body);
    if |body| >= 2 {
      assert data[at + 2..] == body[2..];
      NoteListReads(body, 2, a.properties);
    }
  }

  lemma DisconnectExactly(data: seq<byte>, d: Disconnect)
    requires Framed(data)
    ensures ParseDisconnect(data).Ok? && ParseDisconnect(data).value == d <==> DisconnectBody(Window(data, 1), d)
  {
    FramedExactly(data);
    hide Framed, Exact, BodyOf, Remaining, LenSize, LenValue, ParseNoteList, NoteList;
    RemainingExact(data);
    BodyIsTail(data);
    var body, at := BodyOf(data), |data| - |BodyOf(data)|;
    if |body| >= 1 {
      assert data[at + 1..] == body[1..];
      NoteListReads(body, 1, d.properties);
    }
  }

  lemma PubackExactly(data: seq<byte>, p: Pubacks.Puback)
    requires Framed(data)
    ensures Pubacks.Parse(data).Ok? && Pubacks.Parse(data).value == p <==> PubackBody(Window(data, 1), p)
  {
    hide Vbi.Decode, LenSize, LenValue, Pubacks.ParseBody, PubackBody;
    LenExactly(data, 1);
    var body := Window(data, 1);
    assert data[1 + Vbi.Decode(data[1..]).used..] == body;
    PubackBodyExactly(body, p);
  }

  /** The parser of frames accepts exactly those. */
  lemma ParseExactly(data: seq<byte>, p: Packet)
    requires Framed(data)
    ensures Parse(data).Ok? && Parse(data).value == p <==> FrameOf(data, p)
  {
    FramedExactly(data);
    hide Framed, Publishing.Parse, Pubacks.Parse, ParseConnack, ParseAck, ParseDisconnect, ConnackBody, PublishBody,
      PubackBody, AckBody, DisconnectBody, FlagBits, TextRule;
    match p
    case ConnackPacket(c) => ConnackExactly(data, c);
    case PublishPacket(m) => PublishExactly(data, m);
    case PubackPacket(a) => PubackExactly(data, a);
    case SubackPacket(a) => AckExactly(data, a, SUBACK_REASONS);
    case UnsubackPacket(a) => AckExactly(data, a, UNSUBACK_REASONS);
    case DisconnectPacket(d) => DisconnectExactly(data, d);
    case _ =>
  }

  // ---- the decoder --------------------------------------------------------------------------

  /** The four bytes behind the first all announce another. */
  predicate FourMore(src: seq<byte>) {
    |src| > 5 && forall i :: 1 <= i <= 4 ==> src[i] >= 128
  }

  lemma {:induction false} ContinuedAll(bytes: seq<byte>, n: nat)
    requires n <= |bytes|
    ensures Vbi.Continued(bytes) >= n <==> forall i :: 0 <= i < n ==> bytes[i] >= 128
    decreases n
  {
    if n == 0 {
    } else if bytes[0] >= 128 {
      ContinuedAll(bytes[1..], n - 1);
      assert (forall i :: 0 <= i < n - 1 ==> bytes[1..][i] >= 128) <==> forall i :: 1 <= i < n ==> bytes[i] >= 128 by {
        assert forall i :: 0 <= i < n - 1 ==> bytes[1..][i] == bytes[i + 1];
        assert forall i :: 1 <= i < n ==> bytes[i] == bytes[1..][i - 1];
      }
    }
  }

  lemma TailHigh(src: seq<byte>, n: nat)
    requires n < |src|
    ensures Vbi.Continued(src[1..]) >= n <==> forall i :: 1 <= i <= n ==> src[i] >= 128
  {
    hide Vbi.Continued;
    ContinuedAll(src[1..], n);
    assert forall i :: 0 <= i < n ==> src[1..][i] == src[i + 1];
    assert forall i :: 1 <= i <= n ==> src[i] == src[1..][i - 1];
  }

  /** When the length behind the first byte is refused, overflows or wants more bytes. */
  lemma LenRefused(src: seq<byte>)
    requires |src| >= 2
    ensures Vbi.Decode(src[1..]) == Fault <==> FourMore(src) && src[5] % 128 >= 16
    ensures Vbi.Decode(src[1..]) == Err(Other) <==> FourMore(src) && src[5] % 128 < 16
    ensures Vbi.Decode(src[1..]) == Err(NotEnoughBytes) <==> |src| <= 5 && forall i :: 1 <= i < |src| ==> src[i] >= 128
    ensures Vbi.Decode(src[1..]).Err? ==> Vbi.Decode(src[1..]).error != ZeroPktId
  {
    Vbi.Outcomes(src[1..]);
    Vbi.ReadErrors(src[1..], 0);
    hide Vbi.Continued, Vbi.Read;
    if |src| > 5 {
      TailHigh(src, 4);
    } else {
      TailHigh(src, |src| - 1);
    }
  }

  /** Cutting the bytes behind a length does not change it. */
  lemma LenFront(src: seq<byte>, n: nat, at: nat)
    requires at <= n <= |src|
    ensures LenSize(src[..n], at) > 0 ==> LenSize(src[..n], at) == LenSize(src, at)
    ensures LenSize(src, at) > 0 && LenEnd(src, at) <= n ==> LenSize(src[..n], at) == LenSize(src, at)
    ensures LenSize(src[..n], at) > 0 ==> LenValue(src[..n], at) == LenValue(src, at)
  {
    hide Low;
  }

  lemma FrontFramed(src: seq<byte>, n: nat)
    requires n <= |src|
    ensures Framed(src[..n]) <==> n >= 2 && LenSize(src, 1) > 0 && n == ListEnd(src, 1)
  {
    if n >= 1 {
      LenFront(src, n, 1);
      hide LenSize, LenValue;
    }
  }

  lemma NotFramed(data: seq<byte>)
    ensures Framed(data) ==> |data| >= 2
  {
  }

  /** What the front of a buffer holds: no packet has type 0, a length of five bytes is refused or overflows,
      and otherwise a frame is cut when all of it is there. */
  lemma CutExactly(src: seq<byte>, n: nat)
    ensures Codec.CutFrame(src) == Codec.Frame(n) <==> n <= |src| && Framed(src[..n]) && src[0] / 16 != 0
    ensures Codec.CutFrame(src) == Codec.Malformed
            <==> |src| >= 2 && (src[0] / 16 == 0 || (FourMore(src) && src[5] % 128 < 16))
    ensures Codec.CutFrame(src) == Codec.Crash
            <==> |src| >= 2 && src[0] / 16 != 0 && FourMore(src) && src[5] % 128 >= 16
    ensures Codec.CutFrame(src) == Codec.More
            <==> || |src| < 2
                 || (src[0] / 16 != 0 && |src| <= 5 && forall i :: 1 <= i < |src| ==> src[i] >= 128)
                 || (src[0] / 16 != 0 && LenSize(src, 1) > 0 && |src| < ListEnd(src, 1))
  {
    hide Vbi.Decode, LenSize, LenValue, Framed, FourMore;
    if n <= |src| {
      FrontFramed(src, n);
    }
    if |src| >= 2 {
      LenExactly(src, 1);
      LenRefused(src);
      if Vbi.Decode(src[1..]).Ok? {
        Vbi.Sound(src[1..]);
      }
    } else if n <= |src| {
      NotFramed(src[..n]);
    }
  }

  /** The decoder gives a packet for the first `n` bytes exactly when they are the frame of that packet. */
  lemma DecodeExactly(src: seq<byte>, p: Packet, n: nat)
    ensures Codec.Decode(src) == Codec.Item(p, n) <==> n <= |src| && FrameOf(src[..n], p)
  {
    hide Codec.CutFrame, Parse, Framed, ConnackBody, PublishBody, PubackBody, AckBody, DisconnectBody, FlagBits,
      TextRule;
    CutExactly(src, n);
    if n <= |src| && Framed(src[..n]) {
      NotFramed(src[..n]);
      ParseExactly(src[..n], p);
    }
  }

  /** It fails without taking anything off on a malformed front, and takes a whole frame off when that is of no
      packet and does not make its parser panic. */
  lemma DecodeFails(src: seq<byte>, n: nat)
    ensures Codec.Decode(src) == Codec.Failed(n)
            <==> || (n == 0 && |src| >= 2 && (src[0] / 16 == 0 || (FourMore(src) && src[5] % 128 < 16)))
                 || (n <= |src| && src != [] && src[0] / 16 != 0 && Framed(src[..n]) && Exact(src[..n])
                     && !FramePanics(src[..n]) && forall p :: !FrameOf(src[..n], p))
  {
    hide Codec.CutFrame, Parse, Framed, FrameOf, FramePanics, Exact, FourMore;
    CutExactly(src, n);
    CutExactly(src, 0);
    if n <= |src| {
      NotFramed(src[..n]);
      FramedExactly(src[..n]);
      if Framed(src[..n]) {
        FrameFault(src[..n]);
        forall p
          ensures Parse(src[..n]).Ok? && Parse(src[..n]).value == p <==> FrameOf(src[..n], p)
        {
          ParseExactly(src[..n], p);
        }
        if Parse(src[..n]).Ok? {
          assert FrameOf(src[..n], Parse(src[..n]).value);
        }
      }
    }
  }
}
