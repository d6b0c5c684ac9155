/** Length-prefixed strings and binary data, and Packet Identifiers
    (sections 1.5.4, 1.5.6 and 2.2.1 of MQTT v5.0). */
module Fields {
  import opened Bytes

  /** The length prefix is cast to 16 bits, so it is only right up to 65535 bytes. */
  function EncodeBlob(s: seq<byte>): (r: seq<byte>)
    ensures |r| == |s| + 2
  {
    U16Bytes(|s| % 0x1_0000) + s
  }

  predicate FitsPrefix(s: seq<byte>) {
    |s| <= 65535
  }

  /** The bytes announced by the length prefix, if they are all there. */
  function TakeBlob(bytes: seq<byte>): Parsed<seq<byte>> {
    if |bytes| < 2 then Err(NotEnoughBytes) else
    var len := U16Of(bytes[0], bytes[1]);
    if len + 2 <= |bytes| then Ok(bytes[2..2 + len], len + 2) else Err(NotEnoughBytes)
  }

  function ParseString(bytes: seq<byte>): (r: Parsed<Utf8>)
    ensures !r.Fault?
  {
    var (s, used) :- TakeBlob(bytes);
    if ValidUtf8(s) then Ok(s, used) else Err(Other)
  }

  /** Unlike strings, binary data is sliced without a length check. */
  function ParseBinary(bytes: seq<byte>): Parsed<seq<byte>> {
    if |bytes| < 2 then Err(NotEnoughBytes)
    else if TakeBlob(bytes).Ok? then TakeBlob(bytes)
    else Fault
  }

  function ParsePktId(bytes: seq<byte>): (r: Parsed<PktId>)
    ensures !r.Fault?
  {
    if |bytes| < 2 then Err(NotEnoughBytes) else
    var id := U16Of(bytes[0], bytes[1]);
    if id == 0 then Err(ZeroPktId) else Ok(id, 2)
  }

  lemma BlobSound(bytes: seq<byte>)
    requires TakeBlob(bytes).Ok?
    ensures var Ok(s, used) := TakeBlob(bytes);
            FitsPrefix(s) && used == |s| + 2 <= |bytes| && EncodeBlob(s) == bytes[..used]
  {
    hide U16Bytes, U16Of;
    var len := U16Of(bytes[0], bytes[1]);
    U16Inverse(bytes[0], bytes[1]);
    assert bytes[..2 + len] == [bytes[0], bytes[1]] + bytes[2..2 + len];
  }

  /** A parsed string fits its prefix and re-encodes to the bytes it came from. */
  lemma StringSound(bytes: seq<byte>)
    requires ParseString(bytes).Ok?
    ensures var Ok(s, used) := ParseString(bytes);
            FitsPrefix(s) && used == |s| + 2 <= |bytes| && EncodeBlob(s) == bytes[..used]
  {
    hide EncodeBlob, TakeBlob;
    BlobSound(bytes);
  }

  lemma BinarySound(bytes: seq<byte>)
    requires ParseBinary(bytes).Ok?
    ensures var Ok(s, used) := ParseBinary(bytes);
            FitsPrefix(s) && used == |s| + 2 <= |bytes| && EncodeBlob(s) == bytes[..used]
  {
    hide EncodeBlob, TakeBlob;
    BlobSound(bytes);
  }

  lemma PktIdSound(bytes: seq<byte>)
    requires ParsePktId(bytes).Ok?
    ensures ParsePktId(bytes).used == 2 <= |bytes| && U16Bytes(ParsePktId(bytes).value) == bytes[..2]
  {
    hide U16Bytes, U16Of;
    U16Inverse(bytes[0], bytes[1]);
  }

  lemma BlobRoundTrip(s: seq<byte>, bytes: seq<byte>)
    requires EncodeBlob(s) <= bytes
    ensures TakeBlob(bytes) == Ok(s, |EncodeBlob(s)|) <==> FitsPrefix(s)
  {
    hide U16Bytes, U16Of;
    if FitsPrefix(s) {
      U16Value(|s|);
      assert bytes[0] == EncodeBlob(s)[0] && bytes[1] == EncodeBlob(s)[1];
      assert bytes[2..2 + |s|] == EncodeBlob(s)[2..] == s;
    } else if TakeBlob(bytes).Ok? {
      BlobSound(bytes);
    }
  }

  /** Bytes that begin with an encoded string read back as it exactly when it fits the prefix. */
  lemma StringRoundTrip(s: Utf8, bytes: seq<byte>)
    requires EncodeBlob(s) <= bytes
    ensures ParseString(bytes) == Ok(s, |EncodeBlob(s)|) <==> FitsPrefix(s)
  {
    hide EncodeBlob, TakeBlob;
    BlobRoundTrip(s, bytes);
  }

  /** Bytes that begin with encoded data read back as it exactly when it fits the prefix. */
  lemma BinaryRoundTrip(s: seq<byte>, bytes: seq<byte>)
    requires EncodeBlob(s) <= bytes
    ensures ParseBinary(bytes) == Ok(s, |EncodeBlob(s)|) <==> FitsPrefix(s)
  {
    hide EncodeBlob, TakeBlob;
    BlobRoundTrip(s, bytes);
  }

  lemma PktIdRoundTrip(id: PktId, bytes: seq<byte>)
    requires U16Bytes(id) <= bytes
    ensures ParsePktId(bytes) == Ok(id, 2)
  {
    hide U16Bytes, U16Of;
    U16Value(id);
    assert bytes[0] == U16Bytes(id)[0] && bytes[1] == U16Bytes(id)[1];
  }
}
