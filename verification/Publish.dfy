/** PUBLISH packets (section 3.3 of MQTT v5.0). */
module Publishing {
  import opened Bytes
  import opened Fields
  import Properties
  import Vbi

  // ---- flags --------------------------------------------------------------------------------

  datatype QoS = AtMostOnce | AtLeastOnce | ExactlyOnce

  datatype Flags = Flags(dup: bool, qos: QoS, retain: bool)

  datatype Payload = Text(text: Utf8) | Binary(data: seq<byte>)

  datatype Publish = Publish(
    topic: Utf8, payload: Payload, properties: seq<Properties.Property>, flags: Flags, pktid: Option<PktId>)

  function FlagBits(f: Flags): (r: byte)
    ensures r < 16
  {
    (if f.dup then 8 else 0) + (match f.qos case AtMostOnce => 0 case AtLeastOnce => 2 case ExactlyOnce => 4)
    + (if f.retain then 1 else 0)
  }

  /** The flags of a first byte; the value 3 of the two QoS bits is refused. */
  function ParseFlags(first: byte): Option<Flags> {
    var dup, retain := first / 8 % 2 == 1, first % 2 == 1;
    match first / 2 % 4
    case 0 => Some(Flags(dup, AtMostOnce, retain))
    case 1 => Some(Flags(dup, AtLeastOnce, retain))
    case 2 => Some(Flags(dup, ExactlyOnce, retain))
    case _ => None
  }

  /** Only the low four bits of a first byte carry flags. */
  lemma LowBits(first: byte)
    ensures ParseFlags(first) == ParseFlags(first % 16)
  {
    var k, low := first / 16, first % 16;
    assert first / 8 == 2 * k + low / 8 && first / 2 == 8 * k + low / 2 && first % 2 == low % 2;
  }

  lemma FlagsRoundTrip(f: Flags)
    ensures ParseFlags(FlagBits(f)) == Some(f)
  {
  }

  lemma FlagsReencode(low: byte)
    requires low < 16 && ParseFlags(low).Some?
    ensures FlagBits(ParseFlags(low).value) == low
  {
    assert low == 8 * (low / 8) + 2 * (low / 2 % 4) + low % 2;
  }

  /** The flags are the low four bits, both ways; the packet type does not matter. */
  lemma FlagsInverse(f: Flags, first: byte)
    ensures first % 16 == FlagBits(f) <==> ParseFlags(first) == Some(f)
  {
    hide ParseFlags, FlagBits;
    LowBits(first);
    FlagsRoundTrip(f);
    if ParseFlags(first) == Some(f) {
      FlagsReencode(first % 16);
    }
  }

  // ---- encoder and parser -------------------------------------------------------------------

  /** What an encoder does: bytes, or a panic. */
  datatype Written = Wire(bytes: seq<byte>) | Panic

  function PayloadBytes(p: Payload): seq<byte> {
    match p
    case Text(text) => text
    case Binary(data) => data
  }

  /** Topic Name and, above QoS 0, Packet Identifier. */
  function Head(p: Publish): (r: seq<byte>) {
    EncodeBlob(p.topic) + if p.flags.qos != AtMostOnce && p.pktid.Some? then U16Bytes(p.pktid.value) else []
  }

  /** Everything after the fixed header. */
  function Body(p: Publish): (r: seq<byte>) {
    Head(p) + (Properties.EncodeList(p.properties) + PayloadBytes(p.payload))
  }

  /** Above QoS 0 a missing Packet Identifier is unwrapped. */
  function Encode(p: Publish): Written {
    if p.flags.qos != AtMostOnce && p.pktid.None? then Panic
    else Wire([0x30 + FlagBits(p.flags)] + Vbi.Prefixed(Body(p)))
  }

  predicate HasTextFormat(ps: seq<Properties.Property>) {
    Properties.PayloadFormatId(1) in ps
  }

  /** Topic Name and, above QoS 0, Packet Identifier. */
  function ParseHead(qos: QoS, bytes: seq<byte>): (r: Parsed<(Utf8, Option<PktId>)>)
    ensures r.Ok? ==> r.used <= |bytes|
    ensures !r.Fault?
  {
    var (topic, t) :- ParseString(bytes);
    StringSound(bytes);
    if qos == AtMostOnce then Ok((topic, None), t)
    else
      var (id, i) :- ParsePktId(bytes[t..]);
      Ok((topic, Some(id)), t + i)
  }

  function ParsePayload(text: bool, bytes: seq<byte>): Parsed<Payload> {
    if !text then Ok(Binary(bytes), |bytes|)
    else if ValidUtf8(bytes) then Ok(Text(bytes), |bytes|)
    else Err(Other)
  }

  /** The packet made of a variable header and the bytes of a payload. */
  function Payloaded(head: (Utf8, Option<PktId>), ps: seq<Properties.Property>, flags: Flags, data: seq<byte>,
                     used: nat): Parsed<Publish>
  {
    var (payload, _) :- ParsePayload(HasTextFormat(ps), data);
    Ok(Publish(head.0, payload, ps, flags, head.1), used)
  }

  /** What follows the fixed header, in the whole rest of the input: the payload is what the announced
      length leaves over, and a variable header longer than that makes the subtraction panic. */
  function ParseBody(flags: Flags, remaining: nat, bytes: seq<byte>): (r: Parsed<Publish>)
    requires remaining <= |bytes|
    ensures r.Ok? ==> r.used == remaining
  {
    var (head, at) :- ParseHead(flags.qos, bytes);
    var (properties, n) :- Properties.ParseList(bytes[at..]);
    if remaining < at + n then Fault
    else Payloaded(head, properties, flags, bytes[at + n..remaining], remaining)
  }

  function Parse(bytes: seq<byte>): (r: Parsed<Publish>)
    ensures r.Ok? ==> r.used <= |bytes|
  {
    if bytes == [] then Err(NotEnoughBytes)
    else
      match ParseFlags(bytes[0])
      case None => Err(Other)
      case Some(flags) =>
        var (remaining, head) :- Vbi.Decode(bytes[1..]);
        if |bytes| < remaining + head + 1 then Err(NotEnoughBytes)
        else
          var (p, used) :- ParseBody(flags, remaining, bytes[1 + head..]);
          Ok(p, 1 + head + used)
  }

  // ---- what a parsed body is made of --------------------------------------------------------

  /** What every parsed PUBLISH satisfies; with QoS above 0 it has a (non-zero) identifier. */
  predicate WellFormed(p: Publish) {
    && FitsPrefix(p.topic) && Properties.AllFit(p.properties)
    && (p.pktid.Some? <==> p.flags.qos != AtMostOnce)
    && (p.payload.Text? <==> HasTextFormat(p.properties))
  }

  lemma HeadSound(qos: QoS, bytes: seq<byte>)
    requires ParseHead(qos, bytes).Ok?
    ensures var Ok((topic, id), at) := ParseHead(qos, bytes);
            && (id.Some? <==> qos != AtMostOnce) && FitsPrefix(topic)
            && bytes[..at] == EncodeBlob(topic) + if id.Some? then U16Bytes(id.value) else []
  {
    hide ParseString, EncodeBlob, ParsePktId, U16Bytes;
    StringSound(bytes);
    var t := ParseString(bytes).used;
    if qos != AtMostOnce {
      PktIdSound(bytes[t..]);
      assert bytes[..t + 2] == bytes[..t] + bytes[t..][..2];
    }
  }

  lemma HeadComplete(p: Publish, bytes: seq<byte>)
    requires WellFormed(p) && Head(p) <= bytes
    ensures ParseHead(p.flags.qos, bytes) == Ok((p.topic, p.pktid), |Head(p)|)
  {
    hide ParseString, EncodeBlob, ParsePktId, U16Bytes;
    var t := |EncodeBlob(p.topic)|;
    SplitFront(EncodeBlob(p.topic), Head(p)[t..], bytes);
    StringRoundTrip(p.topic, bytes);
    if p.pktid.Some? {
      PktIdRoundTrip(p.pktid.value, bytes[t..]);
    }
  }

  lemma BodySound(flags: Flags, remaining: nat, bytes: seq<byte>)
    requires remaining <= |bytes| && ParseBody(flags, remaining, bytes).Ok?
    ensures var Ok(p, used) := ParseBody(flags, remaining, bytes);
            var at := |Head(p)|;
            && used == remaining && p.flags == flags && WellFormed(p)
            && at <= |bytes| && Properties.ParseList(bytes[at..]).Ok?
            && Properties.ParseList(bytes[at..]).value == p.properties
            && var n := Properties.ParseList(bytes[at..]).used;
               at + n <= remaining && bytes[..at] == Head(p)
               && bytes[at + n..remaining] == PayloadBytes(p.payload)
  {
    hide ParseString, EncodeBlob, ParsePktId, U16Bytes, Properties.ParseList;
    HeadSound(flags.qos, bytes);
    var Ok(head, at) := ParseHead(flags.qos, bytes);
    Properties.ListSound(bytes[at..]);
  }

  /** The property list is reached, and is cut short. */
  ghost predicate ListPanics(bytes: seq<byte>) {
    && bytes != [] && ParseFlags(bytes[0]).Some? && Vbi.Decode(bytes[1..]).Ok?
    && 1 + Vbi.Decode(bytes[1..]).used <= |bytes|
    && var body := bytes[1 + Vbi.Decode(bytes[1..]).used..];
       var head := ParseHead(ParseFlags(bytes[0]).value.qos, body);
       head.Ok? && Properties.ListCutShort(body[head.used..])
  }

  lemma BodyFault(flags: Flags, bytes: seq<byte>)
    ensures ParseBody(flags, |bytes|, bytes).Fault?
            <==> var head := ParseHead(flags.qos, bytes);
                 head.Ok? && Properties.ListCutShort(bytes[head.used..])
  {
    hide ParseHead, Properties.ParseList, Properties.ListCutShort;
    var head := ParseHead(flags.qos, bytes);
    if head.Ok? {
      Properties.ListFaultExactly(bytes[head.used..]);
      if Properties.ParseList(bytes[head.used..]).Ok? {
        Properties.ListSound(bytes[head.used..]);
      }
    }
  }

  /** On bytes that are exactly as long as they announce, the variable header never outgrows the length,
      so the payload length is never below zero: the parser panics exactly on a property list that is cut
      short. */
  lemma ExactFault(bytes: seq<byte>)
    requires bytes != [] && Vbi.Decode(bytes[1..]).Ok?
    requires |bytes| == 1 + Vbi.Decode(bytes[1..]).used + Vbi.Decode(bytes[1..]).value
    ensures Parse(bytes).Fault? <==> ListPanics(bytes)
  {
    hide ParseBody, ParseHead, ParseFlags, Vbi.Decode, Properties.ParseList, Properties.ListCutShort;
    if ParseFlags(bytes[0]).Some? {
      BodyFault(ParseFlags(bytes[0]).value, bytes[1 + Vbi.Decode(bytes[1..]).used..]);
    }
  }

  // ---- round trips --------------------------------------------------------------------------

  /** A PUBLISH that survives encoding. */
  predicate Encodable(p: Publish) {
    WellFormed(p) && Properties.Encodable(p.properties) && |Body(p)| <= Vbi.VBI_MAX
  }

  lemma BodyParts(p: Publish, bytes: seq<byte>)
    requires Body(p) <= bytes
    ensures var at, n := |Head(p)|, |Properties.EncodeList(p.properties)|;
            && Head(p) <= bytes && Properties.EncodeList(p.properties) <= bytes[at..]
            && |Body(p)| == at + n + |PayloadBytes(p.payload)|
            && bytes[at + n..|Body(p)|] == PayloadBytes(p.payload)
  {
    hide Head, Properties.EncodeList, PayloadBytes;
    var list, payload := Properties.EncodeList(p.properties), PayloadBytes(p.payload);
    var at, n := |Head(p)|, |list|;
    SplitFront(Head(p), list + payload, bytes);
    SplitFront(list, payload, bytes[at..]);
    assert bytes[at + n..at + n + |payload|] == bytes[at..][n..][..|payload|];
  }

  lemma PayloadComplete(p: Publish, used: nat)
    requires WellFormed(p)
    ensures Payloaded((p.topic, p.pktid), p.properties, p.flags, PayloadBytes(p.payload), used) == Ok(p, used)
  {
  }

  lemma BodyFrom(head: (Utf8, Option<PktId>), ps: seq<Properties.Property>, flags: Flags,
                 at: nat, n: nat, remaining: nat, bytes: seq<byte>)
    requires at + n <= remaining <= |bytes|
    requires ParseHead(flags.qos, bytes) == Ok(head, at)
    requires Properties.ParseList(bytes[at..]) == Ok(ps, n)
    ensures ParseBody(flags, remaining, bytes) == Payloaded(head, ps, flags, bytes[at + n..remaining], remaining)
  {
    hide ParseHead, Properties.ParseList, Payloaded;
  }

  lemma HeadAndList(p: Publish, bytes: seq<byte>)
    requires Encodable(p) && Body(p) <= bytes
    ensures var at, n := |Head(p)|, |Properties.EncodeList(p.properties)|;
            && at <= |bytes| && ParseHead(p.flags.qos, bytes) == Ok((p.topic, p.pktid), at)
            && Properties.ParseList(bytes[at..]) == Ok(p.properties, n)
  {
    hide ParseHead, Head, Properties.ParseList, Properties.EncodeList, Body;
    BodyParts(p, bytes);
    HeadComplete(p, bytes);
    Properties.ListComplete(p.properties, bytes[|Head(p)|..]);
  }

  lemma BodyComplete(p: Publish, bytes: seq<byte>)
    requires Encodable(p) && Body(p) <= bytes
    ensures ParseBody(p.flags, |Body(p)|, bytes) == Ok(p, |Body(p)|)
  {
    hide ParseBody, ParseHead, Head, Properties.ParseList, Properties.EncodeList, Body, Payloaded;
    HeadAndList(p, bytes);
    BodyParts(p, bytes);
    PayloadComplete(p, |Body(p)|);
    BodyFrom((p.topic, p.pktid), p.properties, p.flags,
             |Head(p)|, |Properties.EncodeList(p.properties)|, |Body(p)|, bytes);
  }

  /** What a successful parse has read, before the body says more. */
  lemma ParseShape(bytes: seq<byte>)
    requires Parse(bytes).Ok?
    ensures bytes != [] && ParseFlags(bytes[0]).Some? && Vbi.Decode(bytes[1..]).Ok?
    ensures var Ok(remaining, head) := Vbi.Decode(bytes[1..]);
            && 1 + head + remaining <= |bytes|
            && var body := ParseBody(ParseFlags(bytes[0]).value, remaining, bytes[1 + head..]);
               body.Ok? && Parse(bytes) == Ok(body.value, 1 + head + body.used)
  {
    hide ParseBody, ParseFlags, Vbi.Decode;
    var Ok(remaining, head) := Vbi.Decode(bytes[1..]);
    var body := ParseBody(ParseFlags(bytes[0]).value, remaining, bytes[1 + head..]);
    assert body.Ok?;
  }

  /** The pieces of a parsed packet, and how many bytes it consumed. */
  lemma Sound(bytes: seq<byte>)
    requires Parse(bytes).Ok?
    ensures var Ok(p, used) := Parse(bytes);
            && bytes != [] && Vbi.Decode(bytes[1..]).Ok? && WellFormed(p)
            && var Ok(remaining, head) := Vbi.Decode(bytes[1..]);
               used == 1 + head + remaining <= |bytes|
               && ParseFlags(bytes[0]) == Some(p.flags)
               && ParseBody(p.flags, remaining, bytes[1 + head..]) == Ok(p, remaining)
  {
    hide Parse, ParseBody, ParseFlags, Vbi.Decode;
    ParseShape(bytes);
    var Ok(remaining, head) := Vbi.Decode(bytes[1..]);
    BodySound(ParseFlags(bytes[0]).value, remaining, bytes[1 + head..]);
  }

  /** A body that reads back as the packet it encodes was not truncated by the 32-bit length. */
  lemma BodyLength(p: Publish, remaining: nat, bytes: seq<byte>)
    requires Body(p) <= bytes && remaining <= |bytes| && remaining <= Vbi.VBI_MAX
    requires ParseBody(p.flags, remaining, bytes).Ok? && ParseBody(p.flags, remaining, bytes).value == p
    ensures remaining == |Body(p)| && Properties.Encodable(p.properties)
  {
    hide ParseBody, Body, Head, Properties.ParseList, Properties.EncodeList;
    BodySound(p.flags, remaining, bytes);
    BodyParts(p, bytes);
    Properties.ListRoundTrip(p.properties, bytes[|Head(p)|..]);
  }

  /** The fixed header of an encoded packet. */
  lemma FixedHeader(p: Publish, bytes: seq<byte>)
    requires Encode(p).Wire? && Encode(p).bytes <= bytes
    ensures var at := |Vbi.Header(Body(p))|;
            && 1 + at + |Body(p)| == |Encode(p).bytes| <= |bytes|
            && bytes[0] == 0x30 + FlagBits(p.flags) && ParseFlags(bytes[0]) == Some(p.flags)
            && Vbi.Prefixed(Body(p)) <= bytes[1..] && Body(p) <= bytes[1 + at..]
  {
    hide Body, Vbi.Header, FlagBits, ParseFlags;
    var body := Body(p);
    SplitFront([0x30 + FlagBits(p.flags)], Vbi.Prefixed(body), bytes);
    SplitFront(Vbi.Header(body), body, bytes[1..]);
    var at := |Vbi.Header(body)|;
    assert bytes[1..][at..] == bytes[1 + at..];
    FlagsInverse(p.flags, bytes[0]);
  }

  /** Bytes that begin with an encoded PUBLISH read back as that packet, and as exactly its bytes, if
      and only if it is encodable: the identifier is there just above QoS 0, the payload is text just
      when a PayloadFormatId(1) says so, there is no MessageExpiryInterval, and every length fits. */
  lemma RoundTrip(p: Publish, bytes: seq<byte>)
    requires Encode(p).Wire? && Encode(p).bytes <= bytes
    ensures (Parse(bytes).Ok? && Parse(bytes).value == p) <==> Encodable(p)
    ensures Encodable(p) ==> Parse(bytes).used == |Encode(p).bytes|
  {
    hide ParseBody, Body, Vbi.Header, Vbi.Decode, FlagBits, ParseFlags;
    var at := |Vbi.Header(Body(p))|;
    FixedHeader(p, bytes);
    Vbi.PrefixedFront(Body(p), bytes[1..]);
    if Encodable(p) {
      BodyComplete(p, bytes[1 + at..]);
    } else if Parse(bytes).Ok? && Parse(bytes).value == p {
      Sound(bytes);
      Vbi.Sound(bytes[1..]);
      BodyLength(p, Vbi.Decode(bytes[1..]).value, bytes[1 + at..]);
      assert false;
    }
  }

  /** The list that a prefix of the bytes parses to, where the encoding of that list begins, is all there
      with its true length. */
  lemma ListNotCut(ps: seq<Properties.Property>, bytes: seq<byte>, front: seq<byte>)
    requires Properties.EncodeList(ps) <= bytes && front <= bytes
    requires Properties.ParseList(front).Ok? && Properties.ParseList(front).value == ps
    ensures Properties.ParseList(front).used == |Properties.EncodeList(ps)|
  {
    hide Vbi.Decode, Vbi.Encode, Properties.ParseList, Properties.EncodeAll, Properties.Expiries;
    Properties.ListSound(front);
    Vbi.Sound(front);
    Vbi.Local(front, bytes[|front|..]);
    assert bytes == front + bytes[|front|..];
    Vbi.PrefixedFront(Properties.EncodeAll(ps), bytes);
    Properties.LengthMod(ps);
  }

  lemma BodyNotCut(p: Publish, remaining: nat, bytes: seq<byte>, front: seq<byte>)
    requires Body(p) <= bytes && front <= bytes && remaining <= |front|
    requires ParseBody(p.flags, remaining, front).Ok? && ParseBody(p.flags, remaining, front).value == p
    ensures remaining == |Body(p)|
  {
    hide ParseBody, Body, Head, Properties.ParseList, Properties.EncodeList;
    BodySound(p.flags, remaining, front);
    BodyParts(p, bytes);
    var at := |Head(p)|;
    assert front[at..] <= bytes[at..];
    ListNotCut(p.properties, bytes[at..], front[at..]);
  }

  /** If only a front of an encoded packet is parsed and gives the packet, its length was not cut: the
      body is within the limit. */
  lemma NotCut(p: Publish, bytes: seq<byte>, front: seq<byte>)
    requires Encode(p).Wire? && Encode(p).bytes <= bytes && front <= bytes
    requires Parse(front).Ok? && Parse(front).value == p
    ensures |Body(p)| <= Vbi.VBI_MAX
  {
    hide Parse, ParseBody, Body, Encode, ParseFlags, FlagBits, Vbi.Decode, Vbi.Prefixed;
    Sound(front);
    Vbi.Sound(front[1..]);
    var Ok(remaining, head) := Vbi.Decode(front[1..]);
    FixedHeader(p, bytes);
    assert bytes[1..] == front[1..] + bytes[|front|..];
    Vbi.Local(front[1..], bytes[|front|..]);
    Vbi.PrefixedFront(Body(p), bytes[1..]);
    assert front[1 + head..] <= bytes[1 + head..];
    BodyNotCut(p, remaining, bytes[1 + head..], front[1 + head..]);
  }

  lemma SamePieces(a: seq<byte>, b: seq<byte>, c: seq<byte>, n: nat, remaining: nat, bytes: seq<byte>)
    requires |a| + n + |c| == remaining <= |bytes| && bytes[..|a|] == a && bytes[|a| + n..remaining] == c
    ensures a + (b + c) == bytes[..remaining] <==> b == bytes[|a|..|a| + n]
  {
    if a + (b + c) == bytes[..remaining] {
      assert |b| == n;
      assert b == (a + (b + c))[|a|..|a| + n];
    }
  }

  lemma BodySame(flags: Flags, remaining: nat, bytes: seq<byte>)
    requires remaining <= |bytes| && ParseBody(flags, remaining, bytes).Ok?
    ensures var p := ParseBody(flags, remaining, bytes).value;
            var at := |Head(p)|;
            && at <= |bytes| && Properties.ParseList(bytes[at..]).Ok?
            && Properties.ParseList(bytes[at..]).value == p.properties
            && var n := Properties.ParseList(bytes[at..]).used;
               at + n <= remaining
               && (Body(p) == bytes[..remaining] <==> Properties.EncodeList(p.properties) == bytes[at..at + n])
  {
    hide ParseBody, Head, Properties.ParseList, Properties.EncodeList, PayloadBytes;
    BodySound(flags, remaining, bytes);
    var p := ParseBody(flags, remaining, bytes).value;
    var n := Properties.ParseList(bytes[|Head(p)|..]).used;
    SamePieces(Head(p), Properties.EncodeList(p.properties), PayloadBytes(p.payload), n, remaining, bytes);
  }

  lemma BodyReencode(flags: Flags, remaining: nat, bytes: seq<byte>)
    requires remaining <= |bytes| && ParseBody(flags, remaining, bytes).Ok?
    ensures var p := ParseBody(flags, remaining, bytes).value;
            |Head(p)| <= |bytes|
            && (Body(p) == bytes[..remaining]
                <==> Properties.Expiries(p.properties) == 0 && Vbi.MinimalLength(bytes[|Head(p)|..]))
  {
    hide ParseBody, Head, Body, Properties.ParseList, Properties.EncodeList;
    BodySame(flags, remaining, bytes);
    var at := |Head(ParseBody(flags, remaining, bytes).value)|;
    var n := Properties.ParseList(bytes[at..]).used;
    Properties.ListReencode(bytes[at..]);
    assert bytes[at..at + n] == bytes[at..][..n];
  }

  lemma SameFront(a: byte, s: seq<byte>, b: byte, t: seq<byte>)
    ensures [a] + s == [b] + t <==> a == b && s == t
  {
    assert ([a] + s)[0] == a && ([a] + s)[1..] == s;
    assert ([b] + t)[0] == b && ([b] + t)[1..] == t;
  }

  lemma TypeBits(flags: Flags, b: byte)
    requires ParseFlags(b) == Some(flags)
    ensures b == 0x30 + FlagBits(flags) <==> b / 16 == 3
  {
    hide ParseFlags, FlagBits;
    FlagsInverse(flags, b);
  }

  /** The fixed header is given back exactly when it carries the type of a PUBLISH and a minimal length. */
  lemma HeaderReencode(p: Publish, bytes: seq<byte>, body: seq<byte>)
    requires bytes != [] && ParseFlags(bytes[0]) == Some(p.flags) && Vbi.Decode(bytes[1..]).Ok?
    requires var Ok(remaining, head) := Vbi.Decode(bytes[1..]);
             1 + head + remaining <= |bytes| && |body| % TWO_32 == |body| && body == bytes[1 + head..][..remaining]
    ensures var Ok(remaining, head) := Vbi.Decode(bytes[1..]);
            [0x30 + FlagBits(p.flags)] + Vbi.Prefixed(body) == bytes[..1 + head + remaining]
            <==> bytes[0] / 16 == 3 && Vbi.MinimalLength(bytes[1..])
  {
    hide Vbi.Decode, Vbi.Prefixed, Vbi.MinimalLength, ParseFlags, FlagBits;
    var Ok(remaining, head) := Vbi.Decode(bytes[1..]);
    TypeBits(p.flags, bytes[0]);
    Vbi.PrefixedReencode(bytes[1..]);
    assert body == bytes[1..][head..head + remaining];
    assert bytes[..1 + head + remaining] == [bytes[0]] + bytes[1..][..head + remaining];
    SameFront(0x30 + FlagBits(p.flags), Vbi.Prefixed(body), bytes[0], bytes[1..][..head + remaining]);
  }

  /** Bytes that are the encoding of a packet carry the body of that packet. */
  lemma BodyInPlace(p: Publish, bytes: seq<byte>)
    requires bytes != [] && Vbi.Decode(bytes[1..]).Ok?
    requires var Ok(remaining, head) := Vbi.Decode(bytes[1..]);
             1 + head + remaining <= |bytes| && Encode(p) == Wire(bytes[..1 + head + remaining])
    ensures var Ok(remaining, head) := Vbi.Decode(bytes[1..]);
            Body(p) == bytes[1 + head..][..remaining]
  {
    hide Vbi.Decode, Body, FlagBits;
    var Ok(remaining, head) := Vbi.Decode(bytes[1..]);
    assert Encode(p).bytes <= bytes;
    FixedHeader(p, bytes);
    Vbi.PrefixedFront(Body(p), bytes[1..]);
  }

  lemma PacketReencode(p: Publish, bytes: seq<byte>)
    requires bytes != [] && ParseFlags(bytes[0]) == Some(p.flags) && Encode(p).Wire? && Vbi.Decode(bytes[1..]).Ok?
    requires Vbi.Decode(bytes[1..]).value <= Vbi.VBI_MAX
    requires 1 + Vbi.Decode(bytes[1..]).used + Vbi.Decode(bytes[1..]).value <= |bytes|
    ensures var Ok(remaining, head) := Vbi.Decode(bytes[1..]);
            Encode(p) == Wire(bytes[..1 + head + remaining])
            <==> && bytes[0] / 16 == 3 && Vbi.MinimalLength(bytes[1..])
                 && Body(p) == bytes[1 + head..][..remaining]
  {
    hide Vbi.Decode, Body, FlagBits, ParseFlags, Vbi.MinimalLength, Vbi.Prefixed;
    var Ok(remaining, head) := Vbi.Decode(bytes[1..]);
    HeaderReencode(p, bytes, bytes[1 + head..][..remaining]);
    if Encode(p) == Wire(bytes[..1 + head + remaining]) {
      BodyInPlace(p, bytes);
    }
  }

  /** An accepted packet in the form the encoder writes: it carries the type of a PUBLISH, both its
      lengths are minimal and it holds no MessageExpiryInterval. */
  predicate Canonical(bytes: seq<byte>)
    requires Parse(bytes).Ok?
  {
    Sound(bytes);
    var p := Parse(bytes).value;
    var Ok(remaining, head) := Vbi.Decode(bytes[1..]);
    BodySound(p.flags, remaining, bytes[1 + head..]);
    && bytes[0] / 16 == 3 && Vbi.MinimalLength(bytes[1..])
    && Vbi.MinimalLength(bytes[1 + head..][|Head(p)|..]) && Properties.Expiries(p.properties) == 0
  }

  lemma CanonicalParts(p: Publish, remaining: nat, head: nat, bytes: seq<byte>)
    requires bytes != [] && ParseFlags(bytes[0]) == Some(p.flags) && Encode(p).Wire?
    requires Vbi.Decode(bytes[1..]) == Ok(remaining, head) && remaining <= Vbi.VBI_MAX
    requires 1 + head + remaining <= |bytes|
    requires ParseBody(p.flags, remaining, bytes[1 + head..]) == Ok(p, remaining)
    ensures |Head(p)| <= |bytes[1 + head..]|
    ensures Encode(p) == Wire(bytes[..1 + head + remaining])
            <==> && bytes[0] / 16 == 3 && Vbi.MinimalLength(bytes[1..])
                 && Vbi.MinimalLength(bytes[1 + head..][|Head(p)|..]) && Properties.Expiries(p.properties) == 0
  {
    hide ParseBody, Body, Head, Vbi.MinimalLength, ParseFlags, Encode, Vbi.Decode;
    PacketReencode(p, bytes);
    BodyReencode(p.flags, remaining, bytes[1 + head..]);
  }

  /** Encoding a parsed packet gives back the bytes it consumed exactly when they were canonical. */
  lemma Reencode(bytes: seq<byte>)
    requires Parse(bytes).Ok?
    ensures Encode(Parse(bytes).value) == Wire(bytes[..Parse(bytes).used]) <==> Canonical(bytes)
  {
    hide Parse, ParseBody, Body, Head, Vbi.MinimalLength, ParseFlags, Vbi.Decode;
    Sound(bytes);
    Vbi.Sound(bytes[1..]);
    var Ok(remaining, head) := Vbi.Decode(bytes[1..]);
    CanonicalParts(Parse(bytes).value, remaining, head, bytes);
  }

  // ---- the imperative form ------------------------------------------------------------------

  method EncodeInto(p: Publish) returns (r: Written)
    ensures r == Encode(p)
  {
    hide FlagBits, EncodeBlob, U16Bytes, Properties.EncodeList, Vbi.Encode, PayloadBytes;
    var first := 0x30 + FlagBits(p.flags);
    var header: seq<byte> := [first];
    var buf: seq<byte> := [];
    buf := buf + EncodeBlob(p.topic);
    if p.flags.qos != AtMostOnce {
      if p.pktid.None? {
        return Panic;
      }
      buf := buf + U16Bytes(p.pktid.value);
    }
    assert buf == Head(p);
    var properties := Properties.EncodeListLoop(p.properties);
    buf := buf + properties;
    buf := buf + PayloadBytes(p.payload);
    assert buf == Body(p);
    var len := Vbi.EncodeLoop(|buf| % TWO_32);
    header := header + len;
    header := header + buf;
    assert header == [first] + Vbi.Prefixed(buf);
    r := Wire(header);
  }

  method ParseBodyCounting(flags: Flags, remaining: nat, bytes: seq<byte>) returns (r: Parsed<Publish>)
    requires remaining <= |bytes|
    ensures r == ParseBody(flags, remaining, bytes)
  {
    hide ParseHead, Properties.ParseList, Payloaded;
    var variableHeaderLen := 0;
    var head := ParseHead(flags.qos, bytes);
    if !head.Ok? {
      return if head.Err? then Err(head.error) else Fault;
    }
    variableHeaderLen := variableHeaderLen + head.used;
    var properties := Properties.ParseListLoop(bytes[variableHeaderLen..]);
    if !properties.Ok? {
      return if properties.Err? then Err(properties.error) else Fault;
    }
    variableHeaderLen := variableHeaderLen + properties.used;
    if remaining < variableHeaderLen {
      return Fault;
    }
    return Payloaded(head.value, properties.value, flags, bytes[variableHeaderLen..remaining], remaining);
  }

  method ParseCounting(bytes: seq<byte>) returns (r: Parsed<Publish>)
    ensures r == Parse(bytes)
  {
    hide ParseFlags, ParseBody, Vbi.Decode;
    var bytesRead := 0;
    if bytes == [] {
      return Err(NotEnoughBytes);
    }
    var flags := ParseFlags(bytes[0]);
    if flags.None? {
      return Err(Other);
    }
    bytesRead := bytesRead + 1;
    var remaining := Vbi.DecodeLoop(bytes[bytesRead..]);
    if !remaining.Ok? {
      return if remaining.Err? then Err(remaining.error) else Fault;
    }
    bytesRead := bytesRead + remaining.used;
    if |bytes| < remaining.value + remaining.used + 1 {
      return Err(NotEnoughBytes);
    }
    var body := ParseBodyCounting(flags.value, remaining.value, bytes[bytesRead..]);
    match body
    case Ok(p, used) => r := Ok(p, bytesRead + used);
    case Err(e) => r := Err(e);
    case Fault => r := Fault;
  }
}
