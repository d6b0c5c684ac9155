/** Framing: cutting packets out of a growing buffer, whatever chunks its bytes arrive in. */
module Codec {
  import opened Bytes
  import opened Packets
  import Properties
  import Pubacks
  import Publishing
  import Vbi

  // ---- frames -------------------------------------------------------------------------------

  /** What the front of a buffer holds. */
  datatype Cut = More | Frame(len: nat) | Malformed | Crash

  function CutFrame(src: seq<byte>): (r: Cut)
    ensures r.Frame? ==> 2 <= r.len <= |src|
  {
    if |src| < 2 then More
    else if src[0] / 16 == 0 then Malformed
    else
      match Vbi.Decode(src[1..])
      case Ok(len, used) =>
        Vbi.Sound(src[1..]);
        if len > Vbi.VBI_MAX then Malformed
        else if |src| < 1 + used + len then More
        else Frame(1 + used + len)
      case Err(NotEnoughBytes) => More
      case Err(_) => Malformed
      case Fault => Crash
  }

  /** Only the want of bytes can be cured by more bytes. */
  lemma CutStable(src: seq<byte>, more: seq<byte>)
    requires CutFrame(src) != More
    ensures CutFrame(src + more) == CutFrame(src)
  {
    hide Vbi.Decode;
    var tail := src[1..];
    assert (src + more)[1..] == tail + more;
    if Vbi.Decode(tail) != Err(NotEnoughBytes) {
      Vbi.Local(tail, more);
    }
  }

  /** A first byte and a prefixed body, whatever follows them, are cut as one frame exactly when the
      length of the body can be written. */
  lemma CutExact(first: byte, body: seq<byte>, bytes: seq<byte>)
    requires first >= 16 && [first] + Vbi.Prefixed(body) <= bytes
    ensures CutFrame(bytes) == Frame(1 + |Vbi.Prefixed(body)|) <==> |body| <= Vbi.VBI_MAX
  {
    hide Vbi.Decode, Vbi.Encode;
    SplitFront([first], Vbi.Prefixed(body), bytes);
    Vbi.PrefixedFront(body, bytes[1..]);
    if Vbi.Decode(bytes[1..]).Ok? {
      Vbi.Sound(bytes[1..]);
    }
  }

  /** What the client writes for any packet is cut as exactly that frame, with anything behind it, as
      long as the body is within the limit, and only then. */
  lemma SelfFraming(p: Packet, bytes: seq<byte>)
    requires Encode(p).Wire? && Encode(p).bytes <= bytes
    ensures Parts(p).Some?
    ensures CutFrame(bytes) == Frame(|Encode(p).bytes|) <==> |Parts(p).value.1| <= Vbi.VBI_MAX
  {
    hide Encode, Parts;
    EncodeShape(p);
    CutExact(Parts(p).value.0, Parts(p).value.1, bytes);
  }

  /** The same for what the encoder of PUBACKs writes. */
  lemma PubackFraming(p: Pubacks.Puback, bytes: seq<byte>)
    requires Pubacks.Encode(p) <= bytes
    ensures CutFrame(bytes) == Frame(|Pubacks.Encode(p)|) <==> |Pubacks.Body(p)| <= Vbi.VBI_MAX
  {
    hide Pubacks.Body, CutFrame;
    CutExact(0x40, Pubacks.Body(p), bytes);
  }

  // ---- decoding -----------------------------------------------------------------------------

  /** One call of the decoder: the packet or error, and how many bytes it took off the buffer. */
  datatype Decoded = NeedMore | Item(packet: Packet, taken: nat) | Failed(taken: nat) | Crashed

  function Decode(src: seq<byte>): (r: Decoded)
    ensures r.Item? ==> 2 <= r.taken <= |src|
    ensures r.Failed? ==> r.taken <= |src|
  {
    match CutFrame(src)
    case More => NeedMore
    case Malformed => Failed(0)
    case Crash => Crashed
    case Frame(n) =>
      match Packets.Parse(src[..n])
      case Ok(p, _) => Item(p, n)
      case Err(_) => Failed(n)
      case Fault => Crashed
  }

  lemma DecodeStable(src: seq<byte>, more: seq<byte>)
    requires Decode(src) != NeedMore
    ensures Decode(src + more) == Decode(src)
  {
    hide CutFrame, Packets.Parse;
    CutStable(src, more);
    if CutFrame(src).Frame? {
      assert (src + more)[..CutFrame(src).len] == src[..CutFrame(src).len];
    }
  }

  datatype Status = Waiting | Broken | Panicked

  /** What has come out of a stream: the packets, whether it goes on, and the bytes not yet used. */
  datatype Stream = Stream(packets: seq<Packet>, status: Status, rest: seq<byte>)

  function After(packets: seq<Packet>, s: Stream): Stream {
    s.(packets := packets + s.packets)
  }

  /** Decoding a buffer until it needs more bytes or an error. */
  function Drain(buf: seq<byte>): Stream
    decreases |buf|
  {
    match Decode(buf)
    case NeedMore => Stream([], Waiting, buf)
    case Item(p, n) => After([p], Drain(buf[n..]))
    case Failed(n) => Stream([], Broken, buf[n..])
    case Crashed => Stream([], Panicked, buf)
  }

  function Flatten(chunks: seq<seq<byte>>): seq<byte> {
    if chunks == [] then [] else chunks[0] + Flatten(chunks[1..])
  }

  /** Draining the buffer after every chunk; once broken, the chunks to come stay unread. */
  function Feed(buf: seq<byte>, chunks: seq<seq<byte>>): Stream
    decreases |chunks|
  {
    var now := Drain(buf);
    if chunks == [] then now
    else if now.status != Waiting then now.(rest := now.rest + Flatten(chunks))
    else After(now.packets, Feed(now.rest + chunks[0], chunks[1..]))
  }

  lemma AfterAssoc(a: seq<Packet>, b: seq<Packet>, s: Stream)
    ensures After(a, After(b, s)) == After(a + b, s)
    ensures After([], s) == s
  {
    assert a + (b + s.packets) == (a + b) + s.packets;
    assert [] + s.packets == s.packets;
  }

  /** The step past one packet, with and without more bytes. */
  lemma DrainItem(buf: seq<byte>, more: seq<byte>, p: Packet, n: nat)
    requires Decode(buf) == Item(p, n)
    ensures Drain(buf) == After([p], Drain(buf[n..]))
    ensures Drain(buf + more) == After([p], Drain(buf[n..] + more))
    ensures var later := Drain(buf[n..]);
            After([p], After(later.packets, Drain(later.rest + more)))
            == After(After([p], later).packets, Drain(later.rest + more))
  {
    hide Decode;
    DecodeStable(buf, more);
    assert (buf + more)[n..] == buf[n..] + more;
    var later := Drain(buf[n..]);
    AfterAssoc([p], later.packets, Drain(later.rest + more));
  }

  /** More bytes behind a buffer only continue what the buffer alone gives. */
  lemma {:induction false} DrainExtends(buf: seq<byte>, more: seq<byte>)
    ensures var now := Drain(buf);
            Drain(buf + more) == if now.status == Waiting then After(now.packets, Drain(now.rest + more))
                                 else now.(rest := now.rest + more)
    decreases |buf|
  {
    hide Decode;
    match Decode(buf)
    case NeedMore => AfterAssoc([], [], Drain(buf + more));
    case Item(p, n) =>
      DrainExtends(buf[n..], more);
      DrainItem(buf, more, p, n);
    case Failed(n) =>
      DecodeStable(buf, more);
      assert (buf + more)[n..] == buf[n..] + more;
    case Crashed =>
      DecodeStable(buf, more);
  }

  /** Chunking does not matter: any split of the bytes gives the same packets, the same error and the
      same bytes left over as having them all at once. */
  lemma {:induction false} ChunkingIndependence(buf: seq<byte>, chunks: seq<seq<byte>>)
    ensures Feed(buf, chunks) == Drain(buf + Flatten(chunks))
    decreases |chunks|
  {
    hide Drain;
    if chunks == [] {
      assert buf + Flatten(chunks) == buf;
    } else {
      var now, later := Drain(buf), Flatten(chunks[1..]);
      DrainExtends(buf, Flatten(chunks));
      if now.status == Waiting {
        ChunkingIndependence(now.rest + chunks[0], chunks[1..]);
        assert (now.rest + chunks[0]) + later == now.rest + Flatten(chunks);
      }
    }
  }

  // ---- streams of PUBLISH packets -----------------------------------------------------------

  /** The bytes a packet puts on the wire; an encoder that panics puts none. */
  function Sent(p: Packet): seq<byte> {
    match Encode(p)
    case Wire(bytes) => bytes
    case Panic => []
  }

  /** The bytes of packets written one after the other. */
  function Written(ps: seq<Packet>): seq<byte> {
    if ps == [] then [] else Sent(ps[0]) + Written(ps[1..])
  }

  lemma EncodableWithin(m: Publishing.Publish)
    requires Publishing.Encodable(m)
    ensures |Publishing.Body(m)| <= Vbi.VBI_MAX
  {
  }

  lemma DecodedNotCut(m: Publishing.Publish, bytes: seq<byte>)
    requires Publishing.Encode(m).Wire? && Publishing.Encode(m).bytes <= bytes
    requires Decode(bytes).Item? && Decode(bytes).packet == PublishPacket(m)
    ensures |Publishing.Body(m)| <= Vbi.VBI_MAX
  {
    hide Publishing.Body, Publishing.Encode, Publishing.Parse, CutFrame, Packets.Parse;
    var frame := bytes[..CutFrame(bytes).len];
    ParsedPublish(frame);
    Publishing.NotCut(m, bytes, frame);
  }

  lemma DecodeWithin(m: Publishing.Publish, bytes: seq<byte>)
    requires Publishing.Encode(m).Wire? && |Publishing.Body(m)| <= Vbi.VBI_MAX
    requires Publishing.Encode(m).bytes <= bytes
    ensures var n := |Publishing.Encode(m).bytes|;
            Decode(bytes) == Item(PublishPacket(m), n) <==> Publishing.Encodable(m)
    ensures Decode(bytes).Item? && Decode(bytes).packet == PublishPacket(m) ==> Publishing.Encodable(m)
  {
    hide Publishing.Body, Publishing.FlagBits, Publishing.Parse, Publishing.Encodable, Vbi.Prefixed, CutFrame;
    var wire := Publishing.Encode(m).bytes;
    EncodeShape(PublishPacket(m));
    SelfFraming(PublishPacket(m), bytes);
    Publishing.RoundTrip(m, wire);
    assert bytes[..|wire|] == wire;
    assert wire[0] / 16 == 3;
  }

  /** A PUBLISH that is written is decoded as itself, whatever follows it, exactly when it is encodable. */
  lemma DecodeOne(m: Publishing.Publish, bytes: seq<byte>)
    requires Publishing.Encode(m).Wire? && Publishing.Encode(m).bytes <= bytes
    ensures Publishing.Encodable(m) ==> Decode(bytes) == Item(PublishPacket(m), |Publishing.Encode(m).bytes|)
    ensures Decode(bytes).Item? && Decode(bytes).packet == PublishPacket(m) ==> Publishing.Encodable(m)
  {
    hide Decode, Publishing.Encode, Publishing.Encodable, Publishing.Body;
    if Decode(bytes).Item? && Decode(bytes).packet == PublishPacket(m) {
      DecodedNotCut(m, bytes);
      DecodeWithin(m, bytes);
    } else if Publishing.Encodable(m) {
      EncodableWithin(m);
      DecodeWithin(m, bytes);
    }
  }

  /** A PUBLISH that is decoded above QoS 0 carries a Packet Identifier. */
  predicate Reliable(p: Packet) {
    p.PublishPacket? ==> Publishing.WellFormed(p.publish)
  }

  lemma DecodedReliable(src: seq<byte>)
    requires Decode(src).Item?
    ensures Reliable(Decode(src).packet)
  {
    hide CutFrame, Publishing.Parse, ParseConnack, ParseAck, ParseDisconnect, Publishing.WellFormed;
    var frame := src[..CutFrame(src).len];
    if frame[0] / 16 == 3 {
      Publishing.Sound(frame);
    }
  }

  /** Every packet that comes out of a stream can be relied on. */
  lemma {:induction false} DrainReliable(buf: seq<byte>)
    ensures forall p :: p in Drain(buf).packets ==> Reliable(p)
    decreases |buf|
  {
    hide Decode, Reliable;
    if !Decode(buf).Item? {
    } else {
      DecodedReliable(buf);
      DrainReliable(buf[Decode(buf).taken..]);
    }
  }

  /** A PUBLISH whose encoder panics lacks an identifier. */
  lemma PanicUnreliable(m: Publishing.Publish)
    requires Publishing.Encode(m).Panic?
    ensures !Reliable(PublishPacket(m)) && !Publishing.Encodable(m)
  {
    hide Publishing.Body, Publishing.FlagBits, Properties.Encodable, Properties.AllFit;
  }

  function Wrapped(ms: seq<Publishing.Publish>): (r: seq<Packet>)
    ensures |r| == |ms| && forall i :: 0 <= i < |ms| ==> r[i] == PublishPacket(ms[i])
  {
    if ms == [] then [] else [PublishPacket(ms[0])] + Wrapped(ms[1..])
  }

  lemma StreamPanic(ms: seq<Publishing.Publish>)
    requires ms != [] && Publishing.Encode(ms[0]).Panic?
    ensures Drain(Written(Wrapped(ms))).packets != Wrapped(ms)
    ensures ms[0] in ms && !Publishing.Encodable(ms[0])
  {
    hide Drain, Written, Publishing.Encode, Publishing.Encodable, Reliable;
    DrainReliable(Written(Wrapped(ms)));
    PanicUnreliable(ms[0]);
    assert Wrapped(ms)[0] == PublishPacket(ms[0]);
  }

  lemma WrittenNothing()
    ensures Written([]) == []
  {
  }

  /** The stream of a list is that of its tail behind its first packet, if that is encodable; if not, the
      first packet does not come out. */
  lemma StreamStep(ms: seq<Publishing.Publish>)
    requires ms != [] && Publishing.Encode(ms[0]).Wire?
    ensures var all, tail := Wrapped(ms), Wrapped(ms[1..]);
            if Publishing.Encodable(ms[0])
            then Drain(Written(all)) == After([all[0]], Drain(Written(tail))) && all == [all[0]] + tail
            else Drain(Written(all)) != Stream(all, Waiting, [])
  {
    hide Decode, Publishing.Encode, Publishing.Body, Publishing.Encodable;
    var m, bytes := ms[0], Written(Wrapped(ms));
    var n := |Publishing.Encode(m).bytes|;
    assert Wrapped(ms)[1..] == Wrapped(ms[1..]);
    assert Sent(PublishPacket(m)) == Publishing.Encode(m).bytes;
    assert bytes[n..] == Written(Wrapped(ms[1..]));
    DecodeOne(m, bytes);
  }

  lemma DrainNothing()
    ensures Drain([]) == Stream([], Waiting, [])
  {
  }

  /** The stream law: packets written one after the other come out as the same list, with nothing left
      over, exactly when each of them is encodable. */
  lemma {:induction false} StreamInverse(ms: seq<Publishing.Publish>)
    ensures Drain(Written(Wrapped(ms))) == Stream(Wrapped(ms), Waiting, [])
            <==> forall m :: m in ms ==> Publishing.Encodable(m)
  {
    hide Decode, Publishing.Encode, Publishing.Body, Publishing.Encodable, Drain, Written, Reliable;
    if ms == [] {
      DrainNothing();
      assert Written(Wrapped(ms)) == [] by { WrittenNothing(); }
    } else if Publishing.Encode(ms[0]).Panic? {
      StreamPanic(ms);
    } else {
      StreamStep(ms);
      StreamInverse(ms[1..]);
      assert forall x :: x in ms <==> x == ms[0] || x in ms[1..];
    }
  }

  /** The stream law under any split of the bytes into chunks. */
  lemma ChunkedStreamInverse(ms: seq<Publishing.Publish>, chunks: seq<seq<byte>>)
    requires Flatten(chunks) == Written(Wrapped(ms))
    ensures Feed([], chunks) == Stream(Wrapped(ms), Waiting, [])
            <==> forall m :: m in ms ==> Publishing.Encodable(m)
  {
    hide Feed, Drain, Written, Publishing.Encode, Publishing.Body, Publishing.Encodable;
    StreamInverse(ms);
    ChunkingIndependence([], chunks);
    assert [] + Flatten(chunks) == Flatten(chunks);
  }

  /** A packet the client can write, with a body whose length survives the cast to 32 bits. */
  predicate LengthFits(p: Packet) {
    Parts(p).Some? && |Parts(p).value.1| < TWO_32
  }

  lemma SentShape(p: Packet, bytes: seq<byte>)
    requires LengthFits(p) && Sent(p) <= bytes
    ensures var n := |Parts(p).value.1|;
            bytes != [] && Vbi.Encode(n) <= bytes[1..] && |Sent(p)| == 1 + |Vbi.Encode(n)| + n
  {
    hide Encode, Parts, Vbi.Encode;
    EncodeShape(p);
    var (first, body) := Parts(p).value;
    SplitFront([first], Vbi.Prefixed(body), bytes);
    SplitFront(Vbi.Header(body), body, bytes[1..]);
  }

  /** Two packets at the front of the same bytes are equally long. */
  lemma SameLength(p: Packet, q: Packet, bytes: seq<byte>)
    requires LengthFits(p) && LengthFits(q) && Sent(p) <= bytes && Sent(q) <= bytes
    ensures |Sent(p)| == |Sent(q)| >= 2
  {
    hide Sent, Parts, Vbi.Encode;
    SentShape(p, bytes);
    SentShape(q, bytes);
    Vbi.PrefixCode(|Parts(p).value.1|, |Parts(q).value.1|, bytes[1..]);
  }

  /** Whatever packets are written, the bytes can be split into them in only one way, as long as every
      length survives the cast. */
  lemma {:induction false} UniqueFrames(ps: seq<Packet>, qs: seq<Packet>)
    requires (forall p :: p in ps ==> LengthFits(p)) && (forall q :: q in qs ==> LengthFits(q))
    requires Written(ps) == Written(qs)
    ensures |ps| == |qs| && forall i :: 0 <= i < |ps| ==> Sent(ps[i]) == Sent(qs[i])
  {
    hide Sent, LengthFits;
    if ps != [] {
      SameLength(ps[0], ps[0], Written(ps));
    }
    if qs != [] {
      SameLength(qs[0], qs[0], Written(qs));
    }
    if ps != [] && qs != [] {
      SameLength(ps[0], qs[0], Written(ps));
      var n := |Sent(ps[0])|;
      assert Written(ps)[..n] == Sent(ps[0]) && Written(ps)[n..] == Written(ps[1..]);
      assert Written(qs)[..n] == Sent(qs[0]) && Written(qs)[n..] == Written(qs[1..]);
      UniqueFrames(ps[1..], qs[1..]);
      assert forall i :: 0 < i < |ps| ==> ps[i] == ps[1..][i - 1];
      assert forall i :: 0 < i < |qs| ==> qs[i] == qs[1..][i - 1];
    }
  }

  function Pings(n: nat): seq<Packet> {
    if n == 0 then [] else [PingReqPacket] + Pings(n - 1)
  }

  lemma {:induction false} PingBytes(n: nat)
    ensures |Written(Pings(n))| == 2 * n && |Pings(n)| == n
  {
    if n == 0 {
    } else {
      PingBytes(n - 1);
      assert Pings(n)[1..] == Pings(n - 1);
    }
  }

  /** A PUBLISH to the empty topic. */
  function Plain(payload: seq<byte>): Publishing.Publish {
    Publishing.Publish([], Publishing.Binary(payload), [], Publishing.Flags(false, Publishing.AtMostOnce, false), None)
  }

  lemma SmallLengths()
    ensures Vbi.Encode(0) == [0] && Vbi.Encode(3) == [3]
  {
  }

  lemma PlainSent(payload: seq<byte>)
    requires (3 + |payload|) % TWO_32 == 3
    ensures Sent(PublishPacket(Plain(payload))) == [0x30, 3, 0, 0, 0] + payload
  {
    hide Vbi.Encode;
    var m := Plain(payload);
    assert Vbi.Encode(0) == [0] && Vbi.Encode(3) == [3] by { SmallLengths(); }
    assert Properties.EncodeList([]) == [0];
    assert Publishing.Head(m) == [0, 0];
    assert Publishing.Body(m) == [0, 0, 0] + payload;
    assert Vbi.Prefixed(Publishing.Body(m)) == [3] + ([0, 0, 0] + payload);
  }

  /** Beyond the cast it fails: a PUBLISH with 2^31 PINGREQs for its payload is written like an empty
      PUBLISH with 2^31 PINGREQs behind it. */
  lemma LongFramesNotUnique(n: nat)
    requires n == 0x8000_0000
    ensures var long, short := PublishPacket(Plain(Written(Pings(n)))), PublishPacket(Plain([]));
            Written([long]) == Written([short] + Pings(n)) && |[long]| != |[short] + Pings(n)|
  {
    PingBytes(n);
    hide Pings, Sent, Plain;
    var payload := Written(Pings(n));
    var long, short := PublishPacket(Plain(payload)), PublishPacket(Plain([]));
    PlainSent(payload);
    PlainSent([]);
    assert [long][1..] == [] && ([short] + Pings(n))[1..] == Pings(n);
    WrittenNothing();
    assert Written([long]) == Sent(long) + [];
    assert Written([short] + Pings(n)) == Sent(short) + payload;
  }

  // ---- which buffers panic the decoder ------------------------------------------------------

  /** The length in a frame is the length read from the buffer. */
  lemma FrameLength(src: seq<byte>, len: nat, used: nat)
    requires CutFrame(src).Frame? && Vbi.Decode(src[1..]) == Ok(len, used)
    ensures CutFrame(src).len == 1 + used + len <= |src|
    ensures Vbi.Decode(src[..CutFrame(src).len][1..]) == Ok(len, used)
  {
    var frame := src[..CutFrame(src).len];
    Vbi.Cut(src[1..], frame[1..]);
  }

  /** A PUBLISH parsed from a frame is exactly as long as the frame, and the frame makes the parser
      panic exactly when its property list is cut short: the payload length never goes below zero. */
  lemma ExactFrame(src: seq<byte>)
    requires CutFrame(src).Frame?
    ensures var frame := src[..CutFrame(src).len];
            && (Publishing.Parse(frame).Ok? ==> Publishing.Parse(frame).used == |frame|)
            && (Publishing.Parse(frame).Fault? <==> Publishing.ListPanics(frame))
  {
    hide Vbi.Decode, Publishing.Parse, Publishing.ParseFlags, Publishing.ParseBody, Publishing.ListPanics;
    var frame := src[..CutFrame(src).len];
    var Ok(len, used) := Vbi.Decode(src[1..]);
    FrameLength(src, len, used);
    Publishing.ExactFault(frame);
    if Publishing.Parse(frame).Ok? {
      Publishing.Sound(frame);
    }
  }

  lemma FrameExact(src: seq<byte>)
    requires CutFrame(src).Frame?
    ensures Exact(src[..CutFrame(src).len])
  {
    hide Vbi.Decode;
    var Ok(len, used) := Vbi.Decode(src[1..]);
    FrameLength(src, len, used);
  }

  /** The buffers that make the decoder panic: those whose length overflows, and those whose complete
      frame is one of `FramePanics`. */
  lemma CrashExactly(src: seq<byte>)
    ensures CutFrame(src).Frame? ==> Exact(src[..CutFrame(src).len])
    ensures Decode(src).Crashed?
            <==> || (|src| >= 2 && src[0] / 16 != 0 && Vbi.Overflows(src[1..]))
                 || (CutFrame(src).Frame? && FramePanics(src[..CutFrame(src).len]))
  {
    hide Vbi.Decode, Vbi.Overflows, Packets.Parse, FramePanics;
    if |src| >= 2 {
      Vbi.Outcomes(src[1..]);
    }
    if CutFrame(src).Frame? {
      FrameExact(src);
      FrameFault(src[..CutFrame(src).len]);
    }
  }

  // ---- the imperative form ------------------------------------------------------------------

  /** A growing buffer. */
  class BytesMut {
    var bytes: seq<byte>

    constructor ()
      ensures bytes == []
    {
      bytes := [];
    }
  }

  method DecodeFrom(src: BytesMut) returns (r: Decoded)
    modifies src
    ensures r == Decode(old(src.bytes))
    ensures src.bytes == if r.Item? || r.Failed? then old(src.bytes)[r.taken..] else old(src.bytes)
  {
    hide Vbi.Decode;
    if |src.bytes| < 2 {
      return NeedMore;
    }
    if src.bytes[0] / 16 == 0 {
      return Failed(0);
    }
    var vbi := Vbi.DecodeLoop(src.bytes[1..]);
    match vbi
    case Ok(len, used) =>
      if len > Vbi.VBI_MAX {
        return Failed(0);
      }
      var total := 1 + used + len;
      if |src.bytes| < total {
        return NeedMore;
      }
      var data := src.bytes[..total];
      var packet := Packets.Parse(data);
      if packet.Fault? {
        return Crashed;
      }
      src.bytes := src.bytes[total..];
      r := if packet.Ok? then Item(packet.value, total) else Failed(total);
    case Err(e) =>
      r := if e == NotEnoughBytes then NeedMore else Failed(0);
    case Fault =>
      r := Crashed;
  }

  method EncodeTo(p: Packet, dst: BytesMut) returns (written: bool)
    modifies dst
    ensures written <==> Encode(p).Wire?
    ensures dst.bytes == old(dst.bytes) + if written then Encode(p).bytes else []
  {
    match Encode(p)
    case Wire(data) =>
      dst.bytes := dst.bytes + data;
      written := true;
    case Panic =>
      written := false;
  }

  /** Decoding everything that has arrived. */
  method DrainFrom(src: BytesMut) returns (packets: seq<Packet>, status: Status)
    modifies src
    ensures Stream(packets, status, src.bytes) == Drain(old(src.bytes))
  {
    hide Decode;
    packets := [];
    AfterAssoc([], [], Drain(src.bytes));
    while true
      invariant Drain(old(src.bytes)) == After(packets, Drain(src.bytes))
      decreases |src.bytes|
    {
      ghost var before := src.bytes;
      var d := DecodeFrom(src);
      match d
      case NeedMore =>
        return packets, Waiting;
      case Failed(_) =>
        return packets, Broken;
      case Crashed =>
        return packets, Panicked;
      case Item(p, n) =>
        AfterAssoc(packets, [p], Drain(src.bytes));
        packets := packets + [p];
    }
  }

  /** What draining leaves over holds no further packet. */
  lemma {:induction false} Drained(buf: seq<byte>)
    requires Drain(buf).status == Waiting
    ensures var rest := Drain(buf).rest; Drain(rest) == Stream([], Waiting, rest)
    decreases |buf|
  {
    hide Decode;
    if !Decode(buf).Item? {
    } else {
      Drained(buf[Decode(buf).taken..]);
    }
  }

  /** Reading chunks until the stream ends or breaks: the unread chunks are reported with the buffer. */
  method ReadChunks(chunks: seq<seq<byte>>) returns (packets: seq<Packet>, status: Status, rest: seq<byte>)
    ensures Stream(packets, status, rest) == Drain(Flatten(chunks))
  {
    hide Drain, Decode;
    var src := new BytesMut();
    packets, status := [], Waiting;
    var i := 0;
    DrainNothing();
    AfterAssoc([], [], Drain(Flatten(chunks)));
    assert [] + Flatten(chunks) == Flatten(chunks);
    while i < |chunks| && status == Waiting
      invariant 0 <= i <= |chunks|
      invariant status == Waiting ==> Drain(src.bytes) == Stream([], Waiting, src.bytes)
      invariant var tail := src.bytes + Flatten(chunks[i..]);
                Drain(Flatten(chunks)) == if status == Waiting then After(packets, Drain(tail))
                                          else Stream(packets, status, tail)
    {
      ghost var buf, tail := src.bytes + chunks[i], Flatten(chunks[i + 1..]);
      assert chunks[i..][1..] == chunks[i + 1..];
      assert src.bytes + Flatten(chunks[i..]) == buf + tail;
      src.bytes := src.bytes + chunks[i];
      i := i + 1;
      var more: seq<Packet>;
      more, status := DrainFrom(src);
      DrainExtends(buf, tail);
      if status == Waiting {
        Drained(buf);
        AfterAssoc(packets, more, Drain(src.bytes + tail));
      }
      packets := packets + more;
    }
    assert i == |chunks| ==> src.bytes + Flatten(chunks[i..]) == src.bytes;
    rest := src.bytes + Flatten(chunks[i..]);
  }
}
