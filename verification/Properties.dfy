/** Properties of a PUBLISH and their length-prefixed list (section 2.2.2 of MQTT v5.0). */
module Properties {
  import opened Bytes
  import opened Fields
  import Vbi

  datatype Property =
    | PayloadFormatId(format: byte)
    | MessageExpiryInterval(interval: u32)
    | ResponseTopic(topic: Utf8)
    | CorrelationData(data: seq<byte>)
    | UserProperty(key: Utf8, val: Utf8)

  // ---- one property -------------------------------------------------------------------------

  function Id(p: Property): byte {
    match p
    case PayloadFormatId(_) => 0x01
    case MessageExpiryInterval(_) => 0x02
    case ResponseTopic(_) => 0x08
    case CorrelationData(_) => 0x09
    case UserProperty(_, _) => 0x26
  }

  function Body(p: Property): seq<byte> {
    match p
    case PayloadFormatId(format) => [format]
    case MessageExpiryInterval(interval) => U32Bytes(interval)
    case ResponseTopic(topic) => EncodeBlob(topic)
    case CorrelationData(data) => EncodeBlob(data)
    case UserProperty(key, val) => EncodeBlob(key) + EncodeBlob(val)
  }

  function Encode(p: Property): (r: seq<byte>)
    ensures |r| >= 2 && (p.MessageExpiryInterval? ==> |r| == 5)
  {
    [Id(p)] + Body(p)
  }

  /** A MessageExpiryInterval takes five bytes but is reported as four. */
  function Parse(bytes: seq<byte>): (r: Parsed<Property>) {
    if bytes == [] then Err(NotEnoughBytes)
    else if bytes[0] == 0x01 then
      if |bytes| < 2 then Fault else Ok(PayloadFormatId(bytes[1]), 2)
    else if bytes[0] == 0x02 then
      if |bytes| < 5 then Err(NotEnoughBytes)
      else Ok(MessageExpiryInterval(U32Of(bytes[1], bytes[2], bytes[3], bytes[4])), 4)
    else if bytes[0] == 0x08 then
      var (s, n) :- ParseString(bytes[1..]);
      Ok(ResponseTopic(s), n + 1)
    else if bytes[0] == 0x09 then
      var (s, n) :- ParseBinary(bytes[1..]);
      Ok(CorrelationData(s), n + 1)
    else if bytes[0] == 0x26 then
      var (k, n) :- ParseString(bytes[1..]);
      var (v, m) :- ParseString(bytes[n + 1..]);
      Ok(UserProperty(k, v), n + m + 1)
    else Err(Other)
  }

  /** The strings and the data of the property fit their length prefixes. */
  predicate Fits(p: Property) {
    match p
    case ResponseTopic(topic) => FitsPrefix(topic)
    case CorrelationData(data) => FitsPrefix(data)
    case UserProperty(key, val) => FitsPrefix(key) && FitsPrefix(val)
    case _ => true
  }

  /** How many bytes of the encoding the parser leaves uncounted. */
  function Uncounted(p: Property): nat {
    if p.MessageExpiryInterval? then 1 else 0
  }

  lemma UserPropertySound(bytes: seq<byte>)
    requires bytes != [] && bytes[0] == 0x26 && Parse(bytes).Ok?
    ensures var Ok(p, used) := Parse(bytes);
            2 <= used == |Encode(p)| <= |bytes| && Fits(p) && Encode(p) == bytes[..used]
  {
    hide EncodeBlob, ParseString;
    var tail := bytes[1..];
    StringSound(tail);
    var Ok(k, n) := ParseString(tail);
    var rest := bytes[n + 1..];
    StringSound(rest);
    var Ok(v, m) := ParseString(rest);
    assert bytes[..n + m + 1] == [bytes[0]] + (tail[..n] + rest[..m]);
  }

  lemma ExpirySound(bytes: seq<byte>)
    requires |bytes| >= 5 && bytes[0] == 0x02
    ensures Encode(Parse(bytes).value) == bytes[..5]
  {
    hide U32Bytes, U32Of;
    U32Inverse(bytes[1], bytes[2], bytes[3], bytes[4]);
  }

  lemma BlobPropertySound(bytes: seq<byte>)
    requires bytes != [] && (bytes[0] == 0x08 || bytes[0] == 0x09) && Parse(bytes).Ok?
    ensures var Ok(p, used) := Parse(bytes);
            2 <= used == |Encode(p)| <= |bytes| && Fits(p) && Encode(p) == bytes[..used]
  {
    hide EncodeBlob, ParseString, ParseBinary;
    var tail := bytes[1..];
    if bytes[0] == 0x08 {
      StringSound(tail);
    } else {
      BinarySound(tail);
    }
    var used := Parse(bytes).used;
    assert bytes[..used] == [bytes[0]] + tail[..used - 1];
  }

  /** Progress, bounds and content of a parsed property. */
  lemma Sound(bytes: seq<byte>)
    requires Parse(bytes).Ok?
    ensures var Ok(p, used) := Parse(bytes);
            && 2 <= used <= |bytes| && Fits(p)
            && used == |Encode(p)| - Uncounted(p) && |Encode(p)| <= |bytes|
            && Encode(p) == bytes[..|Encode(p)|]
  {
    hide EncodeBlob, ParseString, ParseBinary, U32Bytes, U32Of;
    if bytes[0] == 0x02 {
      ExpirySound(bytes);
    } else if bytes[0] == 0x08 || bytes[0] == 0x09 {
      BlobPropertySound(bytes);
    } else if bytes[0] == 0x26 {
      UserPropertySound(bytes);
    }
  }

  lemma UserPropertyRoundTrip(key: Utf8, val: Utf8, bytes: seq<byte>)
    requires FitsPrefix(key) && FitsPrefix(val)
    requires bytes != [] && bytes[0] == 0x26 && EncodeBlob(key) + EncodeBlob(val) <= bytes[1..]
    ensures Parse(bytes) == Ok(UserProperty(key, val), |key| + |val| + 5)
  {
    hide EncodeBlob, ParseString;
    var tail := bytes[1..];
    SplitFront(EncodeBlob(key), EncodeBlob(val), tail);
    StringRoundTrip(key, tail);
    assert bytes[|key| + 3..] == tail[|key| + 2..];
    StringRoundTrip(val, bytes[|key| + 3..]);
  }

  /** Outside MessageExpiryInterval, a property that fits is read back, whatever follows it. */
  lemma RoundTrip(p: Property, bytes: seq<byte>)
    requires Fits(p) && !p.MessageExpiryInterval? && Encode(p) <= bytes
    ensures Parse(bytes) == Ok(p, |Encode(p)|)
  {
    hide EncodeBlob, ParseString, ParseBinary;
    SplitFront([Id(p)], Body(p), bytes);
    match p {
      case PayloadFormatId(format) =>
      case ResponseTopic(topic) => StringRoundTrip(topic, bytes[1..]);
      case CorrelationData(data) => BinaryRoundTrip(data, bytes[1..]);
      case UserProperty(key, val) => UserPropertyRoundTrip(key, val, bytes);
    }
  }

  /** A format indicator without its value, or binary data announced longer than what is there. */
  predicate CutShort(bytes: seq<byte>) {
    || bytes == [0x01]
    || (|bytes| >= 3 && bytes[0] == 0x09 && U16Of(bytes[1], bytes[2]) > |bytes| - 3)
  }

  /** The inputs on which a property makes the parser panic are those two. */
  lemma FaultExactly(bytes: seq<byte>)
    ensures Parse(bytes).Fault? <==> CutShort(bytes)
  {
    hide U16Of;
  }

  // ---- the list -----------------------------------------------------------------------------

  function EncodeAll(ps: seq<Property>): (r: seq<byte>) {
    if ps == [] then [] else Encode(ps[0]) + EncodeAll(ps[1..])
  }

  /** The properties of a window, which they must fill. */
  function ParseAll(window: seq<byte>): Parsed<seq<Property>>
    decreases |window|
  {
    if window == [] then Ok([], 0)
    else
      var (p, used) :- Parse(window);
      Sound(window);
      var (ps, more) :- ParseAll(window[used..]);
      Ok([p] + ps, used + more)
  }

  function EncodeList(ps: seq<Property>): (r: seq<byte>) {
    Vbi.Prefixed(EncodeAll(ps))
  }

  function ParseList(bytes: seq<byte>): Parsed<seq<Property>> {
    var (len, used) :- Vbi.Decode(bytes);
    if len == 0 then Ok([], used)
    else if |bytes| < used + len then Fault
    else
      var (ps, _) :- ParseAll(bytes[used..used + len]);
      Ok(ps, used + len)
  }

  predicate AllFit(ps: seq<Property>) {
    forall p :: p in ps ==> Fits(p)
  }

  /** Number of MessageExpiryInterval properties. */
  function Expiries(ps: seq<Property>): nat {
    if ps == [] then 0 else Uncounted(ps[0]) + Expiries(ps[1..])
  }

  /** A property list that survives encoding. */
  predicate Encodable(ps: seq<Property>) {
    AllFit(ps) && Expiries(ps) == 0 && |EncodeAll(ps)| <= Vbi.VBI_MAX
  }

  /** A parsed window: its length is that of the encoding, less one byte for every
      MessageExpiryInterval; without those it is the encoding. */
  lemma {:induction false} ParseAllSound(window: seq<byte>)
    requires ParseAll(window).Ok?
    ensures var Ok(ps, used) := ParseAll(window);
            && used == |window| == |EncodeAll(ps)| - Expiries(ps)
            && AllFit(ps) && 2 * |ps| <= |window|
            && (Expiries(ps) == 0 ==> EncodeAll(ps) == window)
    decreases |window|
  {
    hide Encode, Parse;
    if window == [] {
    } else {
      Sound(window);
      var Ok(p, used) := Parse(window);
      ParseAllSound(window[used..]);
      var Ok(ps, _) := ParseAll(window[used..]);
      assert ([p] + ps)[1..] == ps;
      assert window == window[..used] + window[used..];
    }
  }

  lemma {:induction false} ParseAllComplete(ps: seq<Property>)
    requires AllFit(ps) && Expiries(ps) == 0
    ensures ParseAll(EncodeAll(ps)) == Ok(ps, |EncodeAll(ps)|)
  {
    hide Encode, Parse;
    if ps == [] {
    } else {
      var bytes := EncodeAll(ps);
      RoundTrip(ps[0], bytes);
      assert bytes[|Encode(ps[0])|..] == EncodeAll(ps[1..]);
      ParseAllComplete(ps[1..]);
      assert [ps[0]] + ps[1..] == ps;
    }
  }

  /** Every MessageExpiryInterval accounts for five bytes of the encoding. */
  lemma {:induction false} ExpiriesBound(ps: seq<Property>)
    ensures 5 * Expiries(ps) <= |EncodeAll(ps)|
    ensures ps != [] ==> |EncodeAll(ps)| >= 2
  {
    hide Encode;
    if ps == [] {
    } else {
      ExpiriesBound(ps[1..]);
    }
  }

  /** A parsed list: what it consumed of what it announced. */
  lemma ListSound(bytes: seq<byte>)
    requires ParseList(bytes).Ok?
    ensures var Ok(ps, used) := ParseList(bytes);
            && Vbi.Decode(bytes).Ok?
            && Vbi.Decode(bytes).value == |EncodeAll(ps)| - Expiries(ps)
            && used == Vbi.Decode(bytes).used + Vbi.Decode(bytes).value <= |bytes|
            && AllFit(ps)
            && (Expiries(ps) == 0 ==> EncodeAll(ps) == bytes[Vbi.Decode(bytes).used..used])
  {
    hide ParseAll, Encode, Vbi.Encode, Vbi.Decode;
    Vbi.Sound(bytes);
    var Ok(len, head) := Vbi.Decode(bytes);
    if len > 0 {
      ParseAllSound(bytes[head..head + len]);
    }
  }

  /** If the 32-bit length of the encoding is what a parse announced, nothing was truncated and
      nothing left uncounted. */
  lemma LengthMod(ps: seq<Property>)
    requires |EncodeAll(ps)| % TWO_32 == |EncodeAll(ps)| - Expiries(ps)
    requires |EncodeAll(ps)| - Expiries(ps) <= Vbi.VBI_MAX
    ensures Expiries(ps) == 0
  {
    hide EncodeAll, Expiries;
    ExpiriesBound(ps);
  }

  /** Re-encoding a parsed list gives back the bytes it consumed exactly when it holds no
      MessageExpiryInterval and its length was written in as few bytes as possible. */
  lemma ListReencode(bytes: seq<byte>)
    requires ParseList(bytes).Ok?
    ensures var Ok(ps, used) := ParseList(bytes);
            && Vbi.Decode(bytes).Ok? && used <= |bytes|
            && (EncodeList(ps) == bytes[..used]
                <==> Expiries(ps) == 0 && Vbi.MinimalLength(bytes))
  {
    hide ParseAll, EncodeAll, Vbi.Encode, Vbi.Decode;
    ListSound(bytes);
    Vbi.Sound(bytes);
    Vbi.PrefixedReencode(bytes);
    var Ok(ps, used) := ParseList(bytes);
    if EncodeList(ps) == bytes[..used] {
      assert EncodeList(ps) <= bytes;
      Vbi.PrefixedFront(EncodeAll(ps), bytes);
      LengthMod(ps);
    }
  }

  lemma ListComplete(ps: seq<Property>, bytes: seq<byte>)
    requires Encodable(ps) && EncodeList(ps) <= bytes
    ensures ParseList(bytes) == Ok(ps, |EncodeList(ps)|)
  {
    hide ParseAll, Vbi.Encode, Vbi.Decode;
    Vbi.PrefixedFront(EncodeAll(ps), bytes);
    ParseAllComplete(ps);
    ExpiriesBound(ps);
    if |EncodeAll(ps)| == 0 {
      assert ps == [];
    }
  }

  /** Bytes that begin with an encoded property list read back as that list exactly when it holds
      no MessageExpiryInterval and every length fits its prefix. */
  lemma ListRoundTrip(ps: seq<Property>, bytes: seq<byte>)
    requires EncodeList(ps) <= bytes
    ensures (ParseList(bytes).Ok? && ParseList(bytes).value == ps) <==> Encodable(ps)
    ensures Encodable(ps) ==> ParseList(bytes).used == |EncodeList(ps)|
  {
    hide ParseList, EncodeAll, Vbi.Encode, Vbi.Decode;
    if Encodable(ps) {
      ListComplete(ps, bytes);
    } else if ParseList(bytes).Ok? && ParseList(bytes).value == ps {
      ListSound(bytes);
      Vbi.Sound(bytes);
      Vbi.PrefixedFront(EncodeAll(ps), bytes);
      LengthMod(ps);
      assert false;
    }
  }

  /** The parse of a window comes to the property at offset `at`. */
  predicate Reaches(window: seq<byte>, at: nat)
    decreases |window|
  {
    at == 0 || (Parse(window).Ok? && (Sound(window); Parse(window).used <= at)
                && Reaches(window[Parse(window).used..], at - Parse(window).used))
  }

  /** The parse of a window comes to a property that is cut short. */
  ghost predicate EndsCutShort(window: seq<byte>) {
    exists at :: 0 <= at < |window| && Reaches(window, at) && CutShort(window[at..])
  }

  /** The lists that panic: the length overflows, or it runs past the input, or the parse of the window it
      announces comes to a property that is cut short. */
  ghost predicate ListCutShort(bytes: seq<byte>) {
    || Vbi.Overflows(bytes)
    || (Vbi.Decode(bytes).Ok? && Vbi.Decode(bytes).value > 0
        && var Ok(len, used) := Vbi.Decode(bytes);
           |bytes| < used + len || EndsCutShort(bytes[used..used + len]))
  }

  lemma NothingCutShort(bytes: seq<byte>)
    ensures CutShort(bytes) ==> bytes != []
  {
  }

  /** Coming to a cut property: at once, or behind the first property. */
  lemma EndsCutShortStep(window: seq<byte>)
    requires window != []
    ensures Parse(window).Ok? ==> Parse(window).used <= |window|
    ensures EndsCutShort(window)
            <==> CutShort(window) || (Parse(window).Ok? && EndsCutShort(window[Parse(window).used..]))
  {
    hide Parse, CutShort;
    assert window[0..] == window;
    if CutShort(window) {
      assert Reaches(window, 0);
    }
    if Parse(window).Ok? {
      Sound(window);
      var used := Parse(window).used;
      var rest := window[used..];
      assert forall at :: 0 <= at < |rest| ==> rest[at..] == window[at + used..];
      if EndsCutShort(rest) {
        var at :| 0 <= at < |rest| && Reaches(rest, at) && CutShort(rest[at..]);
        assert Reaches(window, at + used);
      }
      if EndsCutShort(window) && !CutShort(window) {
        var at :| 0 <= at < |window| && Reaches(window, at) && CutShort(window[at..]);
        assert Reaches(rest, at - used) && rest[at - used..] == window[at..];
        assert at - used < |rest| by { NothingCutShort(window[at..]); }
      }
    }
  }

  lemma NoWindow()
    ensures !EndsCutShort([])
  {
  }

  lemma {:induction false} WindowFaultExactly(window: seq<byte>)
    ensures ParseAll(window).Fault? <==> EndsCutShort(window)
    decreases |window|
  {
    hide Parse, CutShort, EndsCutShort;
    if window == [] {
      NoWindow();
    } else {
      FaultExactly(window);
      EndsCutShortStep(window);
      if Parse(window).Ok? {
        Sound(window);
        WindowFaultExactly(window[Parse(window).used..]);
      }
    }
  }

  /** A property list makes the parser panic exactly when it is cut short. */
  lemma ListFaultExactly(bytes: seq<byte>)
    ensures ParseList(bytes).Fault? <==> ListCutShort(bytes)
  {
    hide ParseAll, EndsCutShort, Vbi.Decode, Vbi.Overflows;
    Vbi.Outcomes(bytes);
    if Vbi.Decode(bytes).Ok? {
      var Ok(len, used) := Vbi.Decode(bytes);
      if 0 < len && used + len <= |bytes| {
        WindowFaultExactly(bytes[used..used + len]);
      }
    }
  }

  /** Lists that are cut short in each way: in their bytes, in a format indicator, in binary data behind
      a complete property. */
  lemma ListFaults()
    ensures ParseList([5]) == Fault
    ensures ParseList([1, 0x01]) == Fault
    ensures ParseList([5, 0x01, 0, 0x09, 0, 5]) == Fault
  {
    var binary: seq<byte> := [0x09, 0, 5];
    assert [1, 0x01][1..1 + 1] == [0x01];
    assert [5, 0x01, 0, 0x09, 0, 5][1..1 + 5] == [0x01, 0, 0x09, 0, 5];
    assert [0x01, 0, 0x09, 0, 5][2..] == binary;
    assert ParseAll([0x01]) == Fault;
    assert ParseAll(binary) == Fault;
    assert ParseAll([0x01, 0, 0x09, 0, 5]) == Fault;
  }

  // ---- the loops ----------------------------------------------------------------------------

  method EncodeListLoop(ps: seq<Property>) returns (header: seq<byte>)
    ensures header == EncodeList(ps)
  {
    hide Encode, Vbi.Encode;
    header := [];
    var buf: seq<byte> := [];
    for i := 0 to |ps|
      invariant buf + EncodeAll(ps[i..]) == EncodeAll(ps)
    {
      assert ps[i..][1..] == ps[i + 1..];
      buf := buf + Encode(ps[i]);
    }
    var len := Vbi.EncodeLoop(|buf| % TWO_32);
    header := header + len;
    header := header + buf;
  }

  /** A parse of the rest of a window, joined to what was parsed before it. */
  function Joined(before: seq<Property>, consumed: nat, rest: Parsed<seq<Property>>): Parsed<seq<Property>> {
    match rest
    case Ok(ps, used) => Ok(before + ps, consumed + used)
    case other => other
  }

  lemma JoinEnds(all: Parsed<seq<Property>>)
    ensures Joined([], 0, all) == all
    ensures all.Ok? ==> Joined(all.value, all.used, Ok([], 0)) == all
  {
    if all.Ok? {
      assert [] + all.value == all.value + [] == all.value;
    }
  }

  lemma ConsAssoc(before: seq<Property>, p: Property, tail: seq<Property>)
    ensures before + ([p] + tail) == (before + [p]) + tail
  {
  }

  lemma JoinStep(before: seq<Property>, consumed: nat, rest: seq<byte>)
    requires rest != [] && Parse(rest).Ok?
    ensures var Ok(p, used) := Parse(rest);
            used <= |rest|
            && Joined(before, consumed, ParseAll(rest))
               == Joined(before + [p], consumed + used, ParseAll(rest[used..]))
  {
    hide Parse, Encode;
    Sound(rest);
    var Ok(p, used) := Parse(rest);
    var tail := ParseAll(rest[used..]);
    if tail.Ok? {
      ConsAssoc(before, p, tail.value);
      assert ParseAll(rest).value == [p] + tail.value;
    }
  }

  method ParseListLoop(bytes: seq<byte>) returns (r: Parsed<seq<Property>>)
    ensures r == ParseList(bytes)
  {
    hide Parse, Vbi.Decode;
    var len := Vbi.DecodeLoop(bytes);
    if !len.Ok? {
      return if len.Err? then Err(len.error) else Fault;
    }
    var bytelen, consumed := len.value, len.used;
    if bytelen == 0 {
      return Ok([], consumed);
    }
    if |bytes| < consumed + bytelen {
      return Fault;
    }
    var rest := bytes[consumed..consumed + bytelen];
    ghost var window := rest;
    var properties: seq<Property> := [];
    JoinEnds(ParseAll(window));
    while |rest| > 0
      invariant |rest| <= |window|
      invariant ParseAll(window) == Joined(properties, |window| - |rest|, ParseAll(rest))
      decreases |rest|
    {
      var one := Parse(rest);
      if !one.Ok? {
        return if one.Err? then Err(one.error) else Fault;
      }
      Sound(rest);
      JoinStep(properties, |window| - |rest|, rest);
      properties := properties + [one.value];
      rest := rest[one.used..];
    }
    assert ParseAll(rest) == Ok([], 0);
    JoinEnds(Ok(properties, |window|));
    r := Ok(properties, consumed + bytelen);
  }
}
