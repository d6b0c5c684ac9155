/** PUBACK packets (section 3.4 of MQTT v5.0). */
module Pubacks {
  import opened Bytes
  import opened Fields
  import Vbi

  datatype Reason =
    | Success | NoMatchingSubscribers | UnspecifiedError | ImplementationSpecificError | NotAuthorized
    | TopicNameInvalid | PacketIdentifierInUse | QuotaExceeded | PayloadFormatInvalid

  /** Properties of a PUBACK. */
  datatype Extras = Extras(reasonString: Option<Utf8>, users: seq<(Utf8, Utf8)>)

  datatype Puback = Puback(properties: Extras, pktid: PktId, reason: Reason)

  const NO_EXTRAS: Extras := Extras(None, [])

  function Code(r: Reason): byte {
    match r
    case Success => 0
    case NoMatchingSubscribers => 16
    case UnspecifiedError => 128
    case ImplementationSpecificError => 131
    case NotAuthorized => 135
    case TopicNameInvalid => 144
    case PacketIdentifierInUse => 145
    case QuotaExceeded => 151
    case PayloadFormatInvalid => 153
  }

  function ParseReason(b: byte): Option<Reason> {
    match b
    case 0 => Some(Success)
    case 16 => Some(NoMatchingSubscribers)
    case 128 => Some(UnspecifiedError)
    case 131 => Some(ImplementationSpecificError)
    case 135 => Some(NotAuthorized)
    case 144 => Some(TopicNameInvalid)
    case 145 => Some(PacketIdentifierInUse)
    case 151 => Some(QuotaExceeded)
    case 153 => Some(PayloadFormatInvalid)
    case _ => None
  }

  lemma ReasonInverse(r: Reason, b: byte)
    ensures ParseReason(b) == Some(r) <==> b == Code(r)
  {
  }

  // ---- encoder ------------------------------------------------------------------------------

  function EncodeUsers(users: seq<(Utf8, Utf8)>): (r: seq<byte>) {
    if users == [] then []
    else (EncodeBlob(users[0].0) + EncodeBlob(users[0].1)) + EncodeUsers(users[1..])
  }

  /** The printer writes no length, and the identifier of user properties only once. */
  function EncodeExtras(e: Extras): (r: seq<byte>) {
    (if e.reasonString.Some? then [0x1F] + EncodeBlob(e.reasonString.value) else [])
    + ((if |e.users| > 0 then [0x26] else []) + EncodeUsers(e.users))
  }

  function Body(p: Puback): (r: seq<byte>) {
    (U16Bytes(p.pktid) + [Code(p.reason)]) + EncodeExtras(p.properties)
  }

  function Encode(p: Puback): (r: seq<byte>) {
    [0x40] + Vbi.Prefixed(Body(p))
  }

  // ---- parser -------------------------------------------------------------------------------

  /** One property at the front of a non-empty slice, added to those found before. */
  function Take(found: Extras, slice: seq<byte>): Parsed<Extras>
    requires slice != []
  {
    if slice[0] == 0x1F then
      var (s, n) :- ParseString(slice[1..]);
      Ok(found.(reasonString := Some(s)), n + 1)
    else if slice[0] == 0x26 then
      var (k, n) :- ParseString(slice[1..]);
      StringSound(slice[1..]);
      var (v, m) :- ParseString(slice[n + 1..]);
      Ok(found.(users := found.users + [(k, v)]), n + m + 1)
    else Err(Other)
  }

  /** The parser skips one byte behind every property, and stops when there is none to skip. */
  function Walk(found: Extras, slice: seq<byte>): Parsed<Extras>
    decreases |slice|
  {
    if slice == [] then Err(NotEnoughBytes)
    else
      var (more, used) :- Take(found, slice);
      if used + 1 > |slice| then Ok(more, used) else Walk(more, slice[used + 1..])
  }

  /** A window that is not all there counts as empty. */
  function ParseExtras(bytes: seq<byte>): Parsed<Extras> {
    var (len, used) :- Vbi.Decode(bytes);
    if len == 0 || |bytes| < used + len then Ok(NO_EXTRAS, used + len)
    else
      var (found, _) :- Walk(NO_EXTRAS, bytes[used..used + len]);
      Ok(found, used + len)
  }

  /** What follows the fixed header. */
  function ParseBody(remaining: nat, bytes: seq<byte>): Parsed<Puback> {
    var (pktid, at) :- ParsePktId(bytes);
    if remaining == 2 then Ok(Puback(NO_EXTRAS, pktid, Success), at)
    else if |bytes| <= at then Fault
    else
      match ParseReason(bytes[at])
      case None => Err(Other)
      case Some(reason) =>
        if remaining < 4 then Ok(Puback(NO_EXTRAS, pktid, reason), at + 1)
        else
          var (extras, n) :- ParseExtras(bytes[at + 1..]);
          Ok(Puback(extras, pktid, reason), at + 1 + n)
  }

  function Parse(bytes: seq<byte>): Parsed<Puback> {
    if bytes == [] then Fault
    else
      var (remaining, head) :- Vbi.Decode(bytes[1..]);
      if |bytes| < remaining + head + 1 then Err(NotEnoughBytes)
      else
        var (p, used) :- ParseBody(remaining, bytes[1 + head..]);
        Ok(p, 1 + head + used)
  }

  method WalkLoop(window: seq<byte>) returns (r: Parsed<Extras>)
    ensures r == Walk(NO_EXTRAS, window)
  {
    hide Take;
    var properties := NO_EXTRAS;
    var slice := window;
    while true
      invariant Walk(NO_EXTRAS, window) == Walk(properties, slice)
      decreases |slice|
    {
      if slice == [] {
        return Err(NotEnoughBytes);
      }
      var one := Take(properties, slice);
      if !one.Ok? {
        return one;
      }
      if one.used + 1 > |slice| {
        return one;
      }
      properties, slice := one.value, slice[one.used + 1..];
    }
  }

  method ParseExtrasLoop(bytes: seq<byte>) returns (r: Parsed<Extras>)
    ensures r == ParseExtras(bytes)
  {
    hide Walk, Vbi.Decode;
    var len := Vbi.DecodeLoop(bytes);
    if !len.Ok? {
      return if len.Err? then Err(len.error) else Fault;
    }
    if len.value == 0 || |bytes| < len.used + len.value {
      return Ok(NO_EXTRAS, len.used + len.value);
    }
    var found := WalkLoop(bytes[len.used..len.used + len.value]);
    match found
    case Ok(extras, _) => r := Ok(extras, len.used + len.value);
    case Err(e) => r := Err(e);
    case Fault => r := Fault;
  }

  method ParseBodyCounting(remaining: nat, bytes: seq<byte>) returns (r: Parsed<Puback>)
    ensures r == ParseBody(remaining, bytes)
  {
    hide ParsePktId, ParseExtras, ParseReason;
    var bytesRead := 0;
    var id := ParsePktId(bytes);
    if !id.Ok? {
      return if id.Err? then Err(id.error) else Fault;
    }
    bytesRead := bytesRead + id.used;
    var reason := Some(Success);
    if remaining != 2 {
      if bytesRead >= |bytes| {
        return Fault;
      }
      reason := ParseReason(bytes[bytesRead]);
      if reason.None? {
        return Err(Other);
      }
      bytesRead := bytesRead + 1;
    }
    var properties := NO_EXTRAS;
    if remaining >= 4 {
      var extras := ParseExtrasLoop(bytes[bytesRead..]);
      if !extras.Ok? {
        return if extras.Err? then Err(extras.error) else Fault;
      }
      properties, bytesRead := extras.value, bytesRead + extras.used;
    }
    r := Ok(Puback(properties, id.value, reason.value), bytesRead);
  }

  method EncodeUsersLoop(users: seq<(Utf8, Utf8)>) returns (buf: seq<byte>)
    ensures buf == EncodeUsers(users)
  {
    hide EncodeBlob;
    buf := [];
    for i := 0 to |users|
      invariant buf + EncodeUsers(users[i..]) == EncodeUsers(users)
    {
      assert users[i..][1..] == users[i + 1..];
      buf := buf + (EncodeBlob(users[i].0) + EncodeBlob(users[i].1));
    }
  }

  method EncodeExtrasLoop(e: Extras) returns (buf: seq<byte>)
    ensures buf == EncodeExtras(e)
  {
    hide EncodeBlob, EncodeUsers;
    buf := [];
    if e.reasonString.Some? {
      buf := buf + [0x1F];
      buf := buf + EncodeBlob(e.reasonString.value);
    }
    if |e.users| > 0 {
      buf := buf + [0x26];
    }
    var users := EncodeUsersLoop(e.users);
    buf := buf + users;
  }

  method EncodeInto(p: Puback) returns (header: seq<byte>)
    ensures header == Encode(p)
  {
    hide EncodeExtras, Code, U16Bytes, Vbi.Encode;
    header := [0x40];
    var buf: seq<byte> := [];
    buf := buf + U16Bytes(p.pktid);
    buf := buf + [Code(p.reason)];
    var extras := EncodeExtrasLoop(p.properties);
    buf := buf + extras;
    assert buf == Body(p);
    var len := Vbi.EncodeLoop(|buf| % TWO_32);
    header := header + len;
    header := header + buf;
    assert header == [0x40] + Vbi.Prefixed(buf);
  }

  // ---- when a PUBACK panics its parser ------------------------------------------------------

  lemma {:induction false} WalkNeverFaults(found: Extras, slice: seq<byte>)
    ensures !Walk(found, slice).Fault?
    decreases |slice|
  {
    if slice == [] || !Take(found, slice).Ok? || Take(found, slice).used + 1 > |slice| {
    } else {
      WalkNeverFaults(Take(found, slice).value, slice[Take(found, slice).used + 1..]);
    }
  }

  /** Behind an identifier and a known reason, a property length that overflows. */
  predicate Panics(body: seq<byte>) {
    |body| >= 4 && ParsePktId(body).Ok? && ParseReason(body[2]).Some? && Vbi.Overflows(body[3..])
  }

  /** A body that is as long as announced makes the parser panic exactly then. */
  lemma BodyFault(body: seq<byte>)
    ensures ParseBody(|body|, body).Fault? <==> Panics(body)
  {
    hide Walk, ParseReason, Vbi.Decode, Vbi.Overflows;
    if |body| >= 4 {
      var bytes := body[3..];
      Vbi.Outcomes(bytes);
      if Vbi.Decode(bytes).Ok? {
        var Ok(len, used) := Vbi.Decode(bytes);
        if used + len <= |bytes| {
          WalkNeverFaults(NO_EXTRAS, bytes[used..used + len]);
        }
      }
    }
  }

  // ---- when a PUBACK reads back -------------------------------------------------------------

  /** Every string found is at most `n` bytes long. */
  predicate Short(e: Extras, n: nat) {
    && (e.reasonString.Some? ==> |e.reasonString.value| <= n)
    && (forall u :: u in e.users ==> |u.0| <= n && |u.1| <= n)
  }

  lemma TakeShort(found: Extras, slice: seq<byte>, n: nat)
    requires slice != [] && |slice| <= n && Short(found, n) && Take(found, slice).Ok?
    ensures Short(Take(found, slice).value, n)
  {
    hide ParseString, EncodeBlob;
    StringSound(slice[1..]);
    if slice[0] == 0x26 {
      StringSound(slice[ParseString(slice[1..]).used + 1..]);
    }
  }

  lemma {:induction false} WalkShort(found: Extras, slice: seq<byte>, n: nat)
    requires |slice| <= n && Short(found, n) && Walk(found, slice).Ok?
    ensures Short(Walk(found, slice).value, n)
    decreases |slice|
  {
    hide Take, Short;
    TakeShort(found, slice, n);
    var Ok(more, used) := Take(found, slice);
    if used + 1 > |slice| {
    } else {
      WalkShort(more, slice[used + 1..], n);
    }
  }

  lemma ShortBlob(s: seq<byte>)
    requires |s| <= 255
    ensures EncodeBlob(s)[0] == 0
  {
  }

  /** The bytes a non-empty property list starts with: its first identifier, taken for a length by the
      parser, and the high length byte of its first string, taken for an identifier. */
  lemma ExtrasFront(e: Extras)
    requires e != NO_EXTRAS && Short(e, 255)
    ensures |EncodeExtras(e)| >= 2 && EncodeExtras(e)[1] == 0
  {
    hide EncodeBlob;
    if e.reasonString.Some? {
      ShortBlob(e.reasonString.value);
    } else {
      assert e.users != [];
      ShortBlob(e.users[0].0);
      assert EncodeUsers(e.users)[0] == EncodeBlob(e.users[0].0)[0];
    }
  }

  lemma FirstId(e: Extras)
    requires e != NO_EXTRAS
    ensures EncodeExtras(e) != [] && (EncodeExtras(e)[0] == 0x1F || EncodeExtras(e)[0] == 0x26)
  {
    if e.reasonString.None? {
      assert e.users != [];
    }
  }

  lemma ExtrasRefused(e: Extras, bytes: seq<byte>, len: nat, used: nat)
    requires e != NO_EXTRAS && EncodeExtras(e) <= bytes && Vbi.Decode(bytes) == Ok(len, used)
    requires 0 < len && used + len <= |bytes| && Short(e, len)
    ensures !Walk(NO_EXTRAS, bytes[used..used + len]).Ok?
  {
    hide EncodeExtras;
    FirstId(e);
    assert bytes[0] == EncodeExtras(e)[0];
    assert len == bytes[0] && used == 1;
    ExtrasFront(e);
    assert bytes[1] == EncodeExtras(e)[1] == 0;
    assert bytes[used..used + len][0] == 0;
  }

  lemma ExtrasLost(e: Extras, bytes: seq<byte>)
    requires e != NO_EXTRAS && EncodeExtras(e) <= bytes
    ensures !(ParseExtras(bytes).Ok? && ParseExtras(bytes).value == e)
  {
    hide EncodeExtras, Walk;
    if ParseExtras(bytes).Ok? && ParseExtras(bytes).value == e {
      var Ok(len, used) := Vbi.Decode(bytes);
      var window := bytes[used..used + len];
      Vbi.Sound(bytes);
      WalkShort(NO_EXTRAS, window, |window|);
      ExtrasRefused(e, bytes, len, used);
    }
  }

  lemma NoExtras()
    ensures EncodeExtras(NO_EXTRAS) == []
  {
  }

  lemma BodyReadsBack(p: Puback, remaining: nat, bytes: seq<byte>)
    requires Body(p) <= bytes && |Body(p)| >= 3 && remaining == |Body(p)| % TWO_32
    ensures (ParseBody(remaining, bytes).Ok? && ParseBody(remaining, bytes).value == p)
            <==> p.properties == NO_EXTRAS
    ensures p.properties == NO_EXTRAS ==> ParseBody(remaining, bytes).used == 3
  {
    hide ParsePktId, U16Bytes, EncodeExtras, ParseExtras, Code, ParseReason;
    SplitFront(U16Bytes(p.pktid) + [Code(p.reason)], EncodeExtras(p.properties), bytes);
    SplitFront(U16Bytes(p.pktid), [Code(p.reason)], bytes);
    PktIdRoundTrip(p.pktid, bytes);
    assert bytes[2] == bytes[2..][0] == Code(p.reason);
    ReasonInverse(p.reason, bytes[2]);
    if p.properties == NO_EXTRAS {
      NoExtras();
    } else {
      ExtrasLost(p.properties, bytes[3..]);
    }
  }

  lemma BodyLength(p: Puback)
    ensures |Body(p)| == 3 + |EncodeExtras(p.properties)|
    ensures p.properties == NO_EXTRAS ==> |Body(p)| == 3
    ensures p.properties == NO_EXTRAS ==> |Encode(p)| == 5
  {
  }

  /** A PUBACK that is encoded reads back, whatever follows it, exactly when it has no properties. */
  lemma RoundTrip(p: Puback, bytes: seq<byte>)
    requires Encode(p) <= bytes
    ensures (Parse(bytes).Ok? && Parse(bytes).value == p) <==> p.properties == NO_EXTRAS
    ensures p.properties == NO_EXTRAS ==> Parse(bytes).used == |Encode(p)|
  {
    hide ParseBody, Vbi.Decode;
    BodyLength(p);
    var head := |Vbi.Header(Body(p))|;
    SplitFront([0x40], Vbi.Prefixed(Body(p)), bytes);
    Vbi.PrefixedFront(Body(p), bytes[1..]);
    assert bytes[1..][head..] == bytes[1 + head..];
    BodyReadsBack(p, |Body(p)| % TWO_32, bytes[1 + head..]);
  }
}
