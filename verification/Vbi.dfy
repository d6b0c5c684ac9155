/** Variable Byte Integers: base-128 digits, low digit first, high bit set on all but the last byte
    (section 1.5.5 of MQTT v5.0). */
module Vbi {
  import opened Bytes

  /** The largest value four digits can hold. */
  const VBI_MAX: int := 268_435_455

  function Encode(n: u32): (r: seq<byte>)
    ensures |r| >= 1
  {
    if n < 128 then [n] else [n % 128 + 128] + Encode(n / 128)
  }

  /** Reads the digits of `bytes` when `depth` digits have been read before. The fifth digit is
      scaled before the limit is checked, so a payload of 16 or more leaves 32 bits. */
  function Read(bytes: seq<byte>, depth: nat): Parsed<nat>
    requires depth <= 4
    decreases 4 - depth
  {
    if bytes == [] then Err(NotEnoughBytes)
    else if depth == 4 then if bytes[0] % 128 >= 16 then Fault else Err(Other)
    else if bytes[0] < 128 then Ok(bytes[0], 1)
    else
      var (high, used) :- Read(bytes[1..], depth + 1);
      Ok(bytes[0] - 128 + 128 * high, used + 1)
  }

  function Decode(bytes: seq<byte>): Parsed<nat> {
    Read(bytes, 0)
  }

  /** One more than the largest value that fits in the digits left at `depth`. */
  function Room(depth: nat): nat
    requires depth <= 4
    decreases 4 - depth
  {
    if depth == 4 then 1 else 128 * Room(depth + 1)
  }

  lemma RoomValues()
    ensures Room(0) == VBI_MAX + 1 && Room(1) == 2_097_152 && Room(2) == 16_384
    ensures Room(3) == 128 && Room(4) == 1
  {
    assert Room(3) == 128 * Room(4);
    assert Room(2) == 128 * Room(3);
    assert Room(1) == 128 * Room(2);
  }

  lemma DigitsLeft(n: u32, depth: nat)
    requires depth < 4 && 128 <= n < Room(depth)
    ensures depth + 1 < 4 && n / 128 < Room(depth + 1)
  {
    RoomValues();
  }

  lemma EncodeDigit(n: u32)
    ensures Encode(n) == if n < 128 then [n] else [n % 128 + 128] + Encode(n / 128)
  {
  }

  lemma ReadDigit(b: byte, tail: seq<byte>, depth: nat)
    requires depth < 4
    ensures b < 128 ==> Read([b] + tail, depth) == Ok(b, 1)
    ensures b >= 128 && Read(tail, depth + 1).Ok? ==>
              var Ok(high, used) := Read(tail, depth + 1);
              Read([b] + tail, depth) == Ok(b - 128 + 128 * high, used + 1)
    ensures b >= 128 && !Read(tail, depth + 1).Ok? ==> Read([b] + tail, depth) == Read(tail, depth + 1)
  {
    assert ([b] + tail)[1..] == tail;
  }

  lemma {:induction false} ReadInverse(n: u32, depth: nat, rest: seq<byte>)
    requires depth < 4 && n < Room(depth)
    ensures Read(Encode(n) + rest, depth) == Ok(n, |Encode(n)|)
    decreases 4 - depth
  {
    hide Encode, Read, Room;
    EncodeDigit(n);
    if n < 128 {
      ReadDigit(n, rest, depth);
    } else {
      DigitsLeft(n, depth);
      ReadInverse(n / 128, depth + 1, rest);
      ReadDigit(n % 128 + 128, Encode(n / 128) + rest, depth);
      assert Encode(n) + rest == [n % 128 + 128] + (Encode(n / 128) + rest);
    }
  }

  lemma {:induction false} ReadTooLarge(n: u32, depth: nat, rest: seq<byte>)
    requires depth <= 4 && Room(depth) <= n < 16 * Room(depth)
    ensures |Encode(n)| == 5 - depth
    ensures Read(Encode(n) + rest, depth) == Err(Other)
    decreases 4 - depth
  {
    if depth == 4 {
    } else {
      ReadTooLarge(n / 128, depth + 1, rest);
      assert (Encode(n) + rest)[1..] == Encode(n / 128) + rest;
    }
  }

  /** No encoding is the front of another. */
  lemma {:induction false} PrefixCode(n: u32, m: u32, bytes: seq<byte>)
    requires Encode(n) <= bytes && Encode(m) <= bytes
    ensures n == m
  {
    assert bytes[0] == Encode(n)[0] == Encode(m)[0];
    if n < 128 || m < 128 {
    } else {
      SplitFront([n % 128 + 128], Encode(n / 128), bytes);
      SplitFront([m % 128 + 128], Encode(m / 128), bytes);
      PrefixCode(n / 128, m / 128, bytes[1..]);
    }
  }

  /** Everything an accepted input says about its value. */
  lemma {:induction false} ReadSound(bytes: seq<byte>, depth: nat)
    requires depth <= 4 && Read(bytes, depth).Ok?
    ensures var Ok(n, used) := Read(bytes, depth);
            && 1 <= used <= 4 - depth && used <= |bytes| && n < Room(depth)
            && (forall i :: 0 <= i < used ==> (bytes[i] >= 128 <==> i < used - 1))
            && n < TWO_32 && |Encode(n)| <= used
            && (|Encode(n)| == used <==> Encode(n) == bytes[..used])
    decreases 4 - depth
  {
    RoomValues();
    if bytes[0] < 128 {
    } else {
      ReadSound(bytes[1..], depth + 1);
      var Ok(high, below) := Read(bytes[1..], depth + 1);
      var n, used := bytes[0] - 128 + 128 * high, below + 1;
      assert bytes[..used] == [bytes[0]] + bytes[1..][..below];
      assert forall i :: 0 < i < used ==> bytes[i] == bytes[1..][i - 1];
      if n >= 128 {
        assert n / 128 == high && n % 128 == bytes[0] - 128;
        assert Encode(n) == [bytes[0]] + Encode(high);
      }
    }
  }

  lemma {:induction false} ReadLocal(bytes: seq<byte>, more: seq<byte>, depth: nat)
    requires depth <= 4 && Read(bytes, depth) != Err(NotEnoughBytes)
    ensures Read(bytes + more, depth) == Read(bytes, depth)
    decreases 4 - depth
  {
    if bytes == [] || depth == 4 || bytes[0] < 128 {
    } else {
      ReadLocal(bytes[1..], more, depth + 1);
      assert (bytes + more)[1..] == bytes[1..] + more;
    }
  }

  /** Bytes that begin with an encoding decode to its value exactly up to the limit; the five bytes
      of a larger value are rejected. */
  lemma RoundTrip(n: u32, bytes: seq<byte>)
    requires Encode(n) <= bytes
    ensures Decode(bytes) == if n <= VBI_MAX then Ok(n, |Encode(n)|) else Err(Other)
    ensures n > VBI_MAX ==> |Encode(n)| == 5
  {
    hide Encode, Read;
    var rest := bytes[|Encode(n)|..];
    assert bytes == Encode(n) + rest;
    RoomValues();
    if n <= VBI_MAX {
      ReadInverse(n, 0, rest);
    } else {
      ReadTooLarge(n, 0, rest);
    }
  }

  /** The encoding has the minimal length, by the thresholds of section 1.5.5. */
  lemma Thresholds(n: u32)
    ensures |Encode(n)| == if n < 128 then 1 else if n < 16_384 then 2 else if n < 2_097_152 then 3
                           else if n <= VBI_MAX then 4 else 5
  {
    var a, b := n / 128, n / 128 / 128;
    var c := b / 128;
    assert |Encode(n)| == 1 || |Encode(n)| == 1 + |Encode(a)|;
    assert |Encode(a)| == 1 || |Encode(a)| == 1 + |Encode(b)|;
    assert |Encode(b)| == 1 || |Encode(b)| == 1 + |Encode(c)|;
    assert |Encode(c)| == 1 || |Encode(c)| == 1 + |Encode(c / 128)|;
  }

  /** An accepted input is within the limit, takes at most four bytes and never fewer than the
      encoder would; it is the encoder's own output exactly when it is that short. */
  lemma Sound(bytes: seq<byte>)
    requires Decode(bytes).Ok?
    ensures var Ok(n, used) := Decode(bytes);
            && n <= VBI_MAX && |Encode(n)| <= used <= 4 && used <= |bytes|
            && (|Encode(n)| == used <==> Encode(n) == bytes[..used])
  {
    RoomValues();
    ReadSound(bytes, 0);
  }

  /** A length written in as few bytes as possible. */
  predicate MinimalLength(bytes: seq<byte>) {
    Decode(bytes).Ok? && (Sound(bytes); Decode(bytes).used == |Encode(Decode(bytes).value)|)
  }

  /** How many bytes at the front have their high bit set. */
  function Continued(bytes: seq<byte>): (n: nat)
    ensures n <= |bytes|
  {
    if bytes == [] || bytes[0] < 128 then 0 else 1 + Continued(bytes[1..])
  }

  /** A fifth byte whose payload leaves 32 bits. */
  predicate Overflows(bytes: seq<byte>) {
    Continued(bytes) >= 4 && |bytes| > 4 && bytes[4] % 128 >= 16
  }

  lemma {:induction false} ReadOutcome(bytes: seq<byte>, depth: nat)
    requires depth <= 4
    ensures var n := Continued(bytes);
            && (Read(bytes, depth).Ok? <==> n < |bytes| && depth + n < 4)
            && (Read(bytes, depth).Ok? ==> Read(bytes, depth).used == n + 1)
            && (Read(bytes, depth) == Err(NotEnoughBytes) <==> n == |bytes| && depth + n <= 4)
            && (Read(bytes, depth) == Fault
                <==> depth + n >= 4 && |bytes| > 4 - depth && bytes[4 - depth] % 128 >= 16)
    decreases 4 - depth
  {
    if bytes == [] || depth == 4 || bytes[0] < 128 {
    } else {
      ReadOutcome(bytes[1..], depth + 1);
    }
  }

  lemma {:induction false} ReadErrors(bytes: seq<byte>, depth: nat)
    requires depth <= 4
    ensures Read(bytes, depth).Err? ==> Read(bytes, depth).error != ZeroPktId
    decreases 4 - depth
  {
    if bytes == [] || depth == 4 || bytes[0] < 128 {
    } else {
      ReadErrors(bytes[1..], depth + 1);
    }
  }

  /** Which input is accepted, wants more bytes, panics or is refused: it depends on how many bytes at
      the front have their high bit set, and beyond four of them on the fifth byte. */
  lemma Outcomes(bytes: seq<byte>)
    ensures var n := Continued(bytes);
            && (Decode(bytes).Ok? <==> n < |bytes| && n < 4)
            && (Decode(bytes).Ok? ==> Decode(bytes).used == n + 1)
            && (Decode(bytes) == Err(NotEnoughBytes) <==> n == |bytes| <= 4)
            && (Decode(bytes) == Fault <==> Overflows(bytes))
            && (Decode(bytes) == Err(Other) <==> n >= 4 && |bytes| > 4 && bytes[4] % 128 < 16)
  {
    ReadOutcome(bytes, 0);
    ReadErrors(bytes, 0);
  }

  /** Only the want of bytes can be cured by more bytes. */
  lemma Local(bytes: seq<byte>, more: seq<byte>)
    requires Decode(bytes) != Err(NotEnoughBytes)
    ensures Decode(bytes + more) == Decode(bytes)
  {
    ReadLocal(bytes, more, 0);
  }

  lemma {:induction false} ReadCut(bytes: seq<byte>, front: seq<byte>, depth: nat)
    requires depth <= 4 && Read(bytes, depth).Ok? && front <= bytes && Read(bytes, depth).used <= |front|
    ensures Read(front, depth) == Read(bytes, depth)
    decreases 4 - depth
  {
    ReadSound(bytes, depth);
    if bytes[0] < 128 {
    } else {
      ReadSound(bytes[1..], depth + 1);
      ReadCut(bytes[1..], front[1..], depth + 1);
    }
  }

  /** The digits read are a matter of the bytes read. */
  lemma Cut(bytes: seq<byte>, front: seq<byte>)
    requires Decode(bytes).Ok? && front <= bytes && Decode(bytes).used <= |front|
    ensures Decode(front) == Decode(bytes)
  {
    ReadCut(bytes, front, 0);
  }

  // ---- length-prefixed bytes ----------------------------------------------------------------

  /** The length of `body`, cast to 32 bits and encoded. */
  function Header(body: seq<byte>): (r: seq<byte>) {
    Encode(|body| % TWO_32)
  }

  function Prefixed(body: seq<byte>): (r: seq<byte>) {
    Header(body) + body
  }

  /** Bytes that begin with a prefixed body: the length read is the true one up to the limit, and if
      one is read at all it is the length modulo the cast. */
  lemma PrefixedFront(body: seq<byte>, bytes: seq<byte>)
    requires Prefixed(body) <= bytes
    ensures Header(body) <= bytes && body <= bytes[|Header(body)|..]
    ensures |body| <= VBI_MAX ==> Decode(bytes) == Ok(|body|, |Header(body)|)
    ensures |body| <= VBI_MAX ==> bytes[|Header(body)|..|Header(body)| + |body|] == body
    ensures Decode(bytes).Ok? ==> Decode(bytes) == Ok(|body| % TWO_32, |Header(body)|)
  {
    hide Encode, Decode;
    SplitFront(Header(body), body, bytes);
    RoundTrip(|body| % TWO_32, bytes);
    assert bytes[|Header(body)|..][..|body|] == bytes[|Header(body)|..|Header(body)| + |body|];
  }

  /** Prefixing the bytes announced by a decoded length gives back what was read exactly when the
      length was minimal. */
  lemma PrefixedReencode(bytes: seq<byte>)
    requires Decode(bytes).Ok? && Decode(bytes).used + Decode(bytes).value <= |bytes|
    ensures var Ok(n, used) := Decode(bytes);
            Prefixed(bytes[used..used + n]) == bytes[..used + n] <==> MinimalLength(bytes)
  {
    hide Encode, Decode;
    Sound(bytes);
    var Ok(n, used) := Decode(bytes);
    assert bytes[..used + n] == bytes[..used] + bytes[used..used + n];
  }

  /** The weight of the digit at `idx`. */
  function Weight(idx: nat): nat
    requires idx <= 4
  {
    if idx == 0 then 1 else 128 * Weight(idx - 1)
  }

  lemma WeightValues()
    ensures Weight(0) == 1 && Weight(1) == 128 && Weight(2) == 16_384 && Weight(3) == 2_097_152
    ensures Weight(4) == 268_435_456
  {
    assert Weight(2) == 128 * Weight(1);
    assert Weight(3) == 128 * Weight(2);
    assert Weight(4) == 128 * Weight(3);
  }

  /** What the outcome of reading the digits from `idx` on makes of the whole input, when the
      digits before it amount to `value`. */
  function Scaled(tail: Parsed<nat>, value: nat, idx: nat): Parsed<nat>
    requires idx <= 4
  {
    match tail
    case Ok(high, used) => Ok(value + Weight(idx) * high, idx + used)
    case other => other
  }

  /** The 32-bit sum overflows only at the fifth digit, and only from 16 on. */
  lemma SumBound(value: nat, digit: nat, idx: nat)
    requires idx <= 4 && value < Weight(idx) && digit < 128
    ensures value + digit * Weight(idx) >= TWO_32 <==> idx == 4 && digit >= 16
    ensures idx < 4 ==> value + digit * Weight(idx) < Weight(idx + 1)
  {
    hide Weight;
    WeightValues();
  }

  lemma Distribute(w: nat, digit: nat, high: nat)
    ensures w * (digit + 128 * high) == digit * w + 128 * w * high
  {
  }

  /** One turn of the decoding loop: what is left to read. */
  lemma ScaledStep(tail: seq<byte>, value: nat, idx: nat)
    requires idx < 4 && tail != []
    ensures var sum := value + tail[0] % 128 * Weight(idx);
            && (tail[0] < 128 ==> Scaled(Read(tail, idx), value, idx) == Ok(sum, idx + 1))
            && (tail[0] >= 128 ==>
                  Scaled(Read(tail, idx), value, idx) == Scaled(Read(tail[1..], idx + 1), sum, idx + 1))
  {
    assert Weight(idx + 1) == 128 * Weight(idx);
    hide Weight, Read;
    ReadDigit(tail[0], tail[1..], idx);
    assert tail == [tail[0]] + tail[1..];
    var rest := Read(tail[1..], idx + 1);
    if tail[0] >= 128 {
      assert tail[0] % 128 == tail[0] - 128;
      if rest.Ok? {
        Distribute(Weight(idx), tail[0] - 128, rest.value);
      }
    }
  }

  /** Where the decoding loop starts, and where it stops without a number. */
  lemma ScaledEnds(tail: seq<byte>, value: nat, idx: nat)
    requires idx <= 4
    ensures Decode(tail) == Scaled(Read(tail, 0), 0, 0)
    ensures tail == [] ==> Scaled(Read(tail, idx), value, idx) == Err(NotEnoughBytes)
    ensures idx == 4 && tail != [] ==>
              Scaled(Read(tail, idx), value, idx) == if tail[0] % 128 >= 16 then Fault else Err(Other)
  {
    WeightValues();
  }

  method EncodeLoop(value: u32) returns (vec: seq<byte>)
    ensures vec == Encode(value)
  {
    var n := value;
    vec := [];
    while true
      invariant 0 <= n < TWO_32
      invariant vec + Encode(n) == Encode(value)
      decreases n
    {
      var b := n % 128;
      var low := n;
      n := n / 128;
      if n > 0 {
        vec := vec + [b + 128];
      } else {
        vec := vec + [b];
        break;
      }
    }
  }

  method DecodeLoop(bytes: seq<byte>) returns (r: Parsed<nat>)
    ensures r == Decode(bytes)
  {
    hide Weight, Decode, Read, Scaled;
    WeightValues();
    ScaledEnds(bytes, 0, 0);
    assert bytes[0..] == bytes;
    var multiplier, value, idx := 1, 0, 0;
    while true
      invariant idx <= 4 && idx <= |bytes|
      invariant multiplier == Weight(idx) && 0 <= value < multiplier
      invariant Decode(bytes) == Scaled(Read(bytes[idx..], idx), value, idx)
      decreases 4 - idx
    {
      ScaledEnds(bytes[idx..], value, idx);
      if idx >= |bytes| {
        return Err(NotEnoughBytes);
      }
      var b := bytes[idx];
      ghost var tail := bytes[idx..];
      assert tail[0] == b && tail[1..] == bytes[idx + 1..];
      SumBound(value, b % 128, idx);
      var sum := value + b % 128 * multiplier;
      // the sum is a u32: beyond it the addition panics
      if sum >= TWO_32 {
        return Fault;
      }
      if idx < 4 {
        ScaledStep(tail, value, idx);
      }
      value := sum;
      if multiplier > 128 * 128 * 128 {
        return Err(Other);
      }
      multiplier := multiplier * 128;
      idx := idx + 1;
      if b < 128 {
        return Ok(value, idx);
      }
    }
  }
}
