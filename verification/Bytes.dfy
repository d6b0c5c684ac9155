/** Machine integers, byte strings and the outcome of a parser. */
module Bytes {
  type byte = x: int | 0 <= x < 0x100
  type u16 = x: int | 0 <= x < 0x1_0000
  type u32 = x: int | 0 <= x < 0x1_0000_0000

  /** A non-zero 16-bit number: a Packet Identifier. */
  type PktId = x: int | 1 <= x <= 65535 witness 1

  const TWO_32: int := 0x1_0000_0000

  datatype Option<+T> = None | Some(value: T)

  /** Why a conversion failed; the texts carried by `Other` are not modelled. */
  datatype ConvertError = NotEnoughBytes | ZeroPktId | Other

  /** What a parser does with its input: a value and the number of bytes it reports as consumed,
      an error, or a panic (an index out of range, or arithmetic outside its type). */
  datatype Parsed<+T> = Ok(value: T, used: nat) | Err(error: ConvertError) | Fault {

    predicate IsFailure() {
      !Ok?
    }

    function PropagateFailure<U>(): Parsed<U>
      requires IsFailure()
    {
      if Err? then Err(error) else Fault
    }

    function Extract(): (T, nat)
      requires Ok?
    {
      (value, used)
    }
  }

  function U16Bytes(n: u16): (r: seq<byte>)
    ensures |r| == 2
  {
    [n / 256, n % 256]
  }

  function U16Of(hi: byte, lo: byte): u16 {
    256 * hi + lo
  }

  function U32Bytes(n: u32): (r: seq<byte>)
    ensures |r| == 4
  {
    U16Bytes(n / 0x1_0000) + U16Bytes(n % 0x1_0000)
  }

  function U32Of(b3: byte, b2: byte, b1: byte, b0: byte): u32 {
    0x1_0000 * U16Of(b3, b2) + U16Of(b1, b0)
  }

  lemma U16Inverse(hi: byte, lo: byte)
    ensures U16Bytes(U16Of(hi, lo)) == [hi, lo]
  {
  }

  lemma U16Value(n: u16)
    ensures U16Of(U16Bytes(n)[0], U16Bytes(n)[1]) == n
  {
  }

  lemma U32Split(n: u32, high: u16, low: u16)
    requires n == 0x1_0000 * high + low
    ensures U32Bytes(n) == U16Bytes(high) + U16Bytes(low)
  {
    hide U16Bytes;
    assert n / 0x1_0000 == high && n % 0x1_0000 == low;
  }

  lemma U32Inverse(b3: byte, b2: byte, b1: byte, b0: byte)
    ensures U32Bytes(U32Of(b3, b2, b1, b0)) == [b3, b2, b1, b0]
  {
    hide U32Bytes, U16Bytes, U16Of;
    U32Split(U32Of(b3, b2, b1, b0), U16Of(b3, b2), U16Of(b1, b0));
    U16Inverse(b3, b2);
    U16Inverse(b1, b0);
  }

  /** Bytes that begin with `a + b` begin with `a`, and go on with `b`. */
  lemma SplitFront<T>(a: seq<T>, b: seq<T>, bytes: seq<T>)
    requires a + b <= bytes
    ensures a <= bytes && b <= bytes[|a|..]
  {
    assert a == (a + b)[..|a|] == bytes[..|a|];
    assert b == (a + b)[|a|..] == bytes[|a|..|a| + |b|];
    assert bytes[|a|..][..|b|] == bytes[|a|..|a| + |b|];
  }

  // ---- UTF-8 --------------------------------------------------------------------------------

  /** Where a scan of UTF-8 stands: at a character boundary, before a continuation byte with `more`
      after it, before a second byte that must lie in `lo..hi` with a continuation byte and `more`
      others after it, or past an ill-formed byte. */
  datatype Utf8State = Boundary | Tail(more: nat) | Second(lo: byte, hi: byte, more: nat) | Bad

  /** One byte of the scan (section 4 of RFC 3629). */
  function Utf8Next(state: Utf8State, b: byte): Utf8State {
    match state
    case Boundary =>
      if b < 0x80 then Boundary
      else if 0xC2 <= b <= 0xDF then Tail(0)
      else if b == 0xE0 then Second(0xA0, 0xBF, 0)
      else if b == 0xED then Second(0x80, 0x9F, 0)
      else if 0xE1 <= b <= 0xEF then Tail(1)
      else if b == 0xF0 then Second(0x90, 0xBF, 1)
      else if b == 0xF4 then Second(0x80, 0x8F, 1)
      else if 0xF1 <= b <= 0xF3 then Tail(2)
      else Bad
    case Tail(more) =>
      if !(0x80 <= b <= 0xBF) then Bad else if more == 0 then Boundary else Tail(more - 1)
    case Second(lo, hi, more) =>
      if lo <= b <= hi then Tail(more) else Bad
    case Bad => Bad
  }

  function Utf8Scan(s: seq<byte>): Utf8State {
    if s == [] then Boundary else Utf8Next(Utf8Scan(s[..|s| - 1]), s[|s| - 1])
  }

  predicate ValidUtf8(s: seq<byte>) {
    Utf8Scan(s) == Boundary
  }

  /** A string, as its UTF-8 bytes. */
  type Utf8 = s: seq<byte> | ValidUtf8(s) witness []
}
