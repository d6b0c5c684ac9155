/** Strings are what Unicode text encodes to: the scan of `Bytes` against section 3 of RFC 3629. */
module Texts {
  import opened Bytes

  /** A Unicode scalar value: a code point that is no surrogate. */
  type Scalar = x: int | 0 <= x <= 0xD7FF || 0xE000 <= x <= 0x10FFFF

  /** Its one to four bytes. */
  function Char(c: Scalar): (s: seq<byte>)
    ensures 1 <= |s| <= 4
  {
    if c < 0x80 then [c]
    else if c < 0x800 then [0xC0 + c / 64, 0x80 + c % 64]
    else if c < 0x1_0000 then [0xE0 + c / 4096, 0x80 + c / 64 % 64, 0x80 + c % 64]
    else [0xF0 + c / 0x4_0000, 0x80 + c / 4096 % 64, 0x80 + c / 64 % 64, 0x80 + c % 64]
  }

  function Text(cs: seq<Scalar>): seq<byte> {
    if cs == [] then [] else Char(cs[0]) + Text(cs[1..])
  }

  /** The scan, from the front. */
  function Run(state: Utf8State, s: seq<byte>): Utf8State
    decreases |s|
  {
    if s == [] then state else Run(Utf8Next(state, s[0]), s[1..])
  }

  lemma {:induction false} RunSnoc(state: Utf8State, s: seq<byte>, b: byte)
    ensures Run(state, s + [b]) == Utf8Next(Run(state, s), b)
    decreases |s|
  {
    hide Utf8Next;
    if s == [] {
      assert ([] + [b])[1..] == [];
    } else {
      assert (s + [b])[1..] == s[1..] + [b];
      RunSnoc(Utf8Next(state, s[0]), s[1..], b);
    }
  }

  lemma {:induction false} ScanIsRun(s: seq<byte>)
    ensures Utf8Scan(s) == Run(Boundary, s)
  {
    hide Utf8Next;
    if s == [] {
    } else {
      var n := |s| - 1;
      ScanIsRun(s[..n]);
      RunSnoc(Boundary, s[..n], s[n]);
      assert s[..n] + [s[n]] == s;
    }
  }

  lemma {:induction false} RunJoin(state: Utf8State, a: seq<byte>, b: seq<byte>)
    ensures Run(state, a + b) == Run(Run(state, a), b)
    decreases |a|
  {
    hide Utf8Next;
    if a == [] {
      assert [] + b == b;
    } else {
      assert (a + b)[1..] == a[1..] + b;
      RunJoin(Utf8Next(state, a[0]), a[1..], b);
    }
  }

  lemma {:induction false} BadStays(s: seq<byte>)
    ensures Run(Bad, s) == Bad
  {
    if s == [] {
    } else {
      BadStays(s[1..]);
    }
  }

  lemma RunStep(state: Utf8State, s: seq<byte>)
    requires s != []
    ensures Run(state, s) == Run(Utf8Next(state, s[0]), s[1..])
  {
  }

  /** What two, three and four bytes do. */
  lemma RunBytes(state: Utf8State, s: seq<byte>)
    ensures |s| == 1 ==> Run(state, s) == Utf8Next(state, s[0])
    ensures |s| == 2 ==> Run(state, s) == Utf8Next(Utf8Next(state, s[0]), s[1])
    ensures |s| == 3 ==> Run(state, s) == Utf8Next(Utf8Next(Utf8Next(state, s[0]), s[1]), s[2])
    ensures |s| == 4 ==> Run(state, s) == Utf8Next(Utf8Next(Utf8Next(Utf8Next(state, s[0]), s[1]), s[2]), s[3])
    decreases |s|
  {
    hide Utf8Next;
    if 1 <= |s| <= 4 {
      RunStep(state, s);
      if |s| > 1 {
        RunBytes(Utf8Next(state, s[0]), s[1..]);
      }
    }
  }

  lemma Char2Runs(c: Scalar)
    requires 0x80 <= c < 0x800
    ensures Utf8Next(Utf8Next(Boundary, 0xC0 + c / 64), 0x80 + c % 64) == Boundary
  {
    assert 2 <= c / 64 < 32;
  }

  lemma Char3Runs(c: Scalar)
    requires 0x800 <= c < 0x1_0000
    ensures Utf8Next(Utf8Next(Utf8Next(Boundary, 0xE0 + c / 4096), 0x80 + c / 64 % 64), 0x80 + c % 64) == Boundary
  {
    var a, b := c / 4096, c / 64 % 64;
    assert c / 64 == 64 * a + b;
    assert a == 0 ==> b >= 0x20;
    assert a == 13 ==> b < 0x20;
    assert Utf8Next(Utf8Next(Boundary, 0xE0 + a), 0x80 + b) == Tail(0);
  }

  lemma Char4Runs(c: Scalar)
    requires 0x1_0000 <= c
    ensures Utf8Next(Utf8Next(Utf8Next(Utf8Next(Boundary, 0xF0 + c / 0x4_0000), 0x80 + c / 4096 % 64),
                              0x80 + c / 64 % 64), 0x80 + c % 64) == Boundary
  {
    var a, b := c / 0x4_0000, c / 4096 % 64;
    assert c / 4096 == 64 * a + b;
    assert a == 0 ==> b >= 0x10;
    assert a == 4 ==> b < 0x10;
    assert Utf8Next(Utf8Next(Boundary, 0xF0 + a), 0x80 + b) == Tail(1);
  }

  lemma Ascii(b: byte)
    ensures b < 0x80 ==> Utf8Next(Boundary, b) == Boundary
  {
  }

  /** Every character takes the scan from boundary to boundary. */
  lemma CharRuns(c: Scalar)
    ensures Run(Boundary, Char(c)) == Boundary
  {
    hide Utf8Next;
    RunBytes(Boundary, Char(c));
    if c < 0x80 {
      Ascii(c);
    } else if c < 0x800 {
      Char2Runs(c);
    } else if c < 0x1_0000 {
      Char3Runs(c);
    } else {
      Char4Runs(c);
    }
  }

  lemma {:induction false} TextRuns(cs: seq<Scalar>)
    ensures Run(Boundary, Text(cs)) == Boundary
  {
    hide Char;
    if cs == [] {
    } else {
      CharRuns(cs[0]);
      TextRuns(cs[1..]);
      RunJoin(Boundary, Char(cs[0]), Text(cs[1..]));
    }
  }

  /** After a boundary a scan that comes to one has read one character first. */
  lemma FirstByte(s: seq<byte>)
    requires s != [] && Run(Boundary, s) == Boundary
    ensures 0x80 <= s[0] ==> |s| >= 2 && 0x80 <= s[1] <= 0xBF
    ensures 0x80 <= s[0] ==> Run(Utf8Next(Utf8Next(Boundary, s[0]), s[1]), s[2..]) == Boundary
    ensures 0x80 <= s[0] ==> Utf8Next(Utf8Next(Boundary, s[0]), s[1]) != Bad
  {
    RunStep(Boundary, s);
    BadStays(s[1..]);
    if s[0] >= 0x80 {
      assert s[1..] != [];
      RunStep(Utf8Next(Boundary, s[0]), s[1..]);
      BadStays(s[2..]);
      assert s[1..][1..] == s[2..];
    }
  }

  /** A continuation is read to the end. */
  lemma {:induction false} TailReads(more: nat, s: seq<byte>)
    requires Run(Tail(more), s) == Boundary
    ensures |s| > more && Run(Boundary, s[more + 1..]) == Boundary
    ensures forall i :: 0 <= i <= more ==> 0x80 <= s[i] <= 0xBF
  {
    assert s != [];
    RunStep(Tail(more), s);
    BadStays(s[1..]);
    if more > 0 {
      TailReads(more - 1, s[1..]);
      assert s[1..][more..] == s[more + 1..];
      assert forall i :: 1 <= i <= more ==> s[i] == s[1..][i - 1];
    }
  }

  lemma Join3(a: byte, b: byte, d: byte) returns (c: Scalar)
    requires 0xE0 <= a < 0xF0 && 0x80 <= b <= 0xBF && 0x80 <= d <= 0xBF
    requires Utf8Next(Utf8Next(Boundary, a), b) != Bad
    ensures Char(c) == [a, b, d]
  {
    c := 4096 * (a - 0xE0) + 64 * (b - 0x80) + (d - 0x80);
    assert c / 64 == 64 * (a - 0xE0) + (b - 0x80);
  }

  lemma Join4(a: byte, b: byte, d: byte, e: byte) returns (c: Scalar)
    requires 0xF0 <= a && 0x80 <= b <= 0xBF && 0x80 <= d <= 0xBF && 0x80 <= e <= 0xBF
    requires Utf8Next(Utf8Next(Boundary, a), b) != Bad
    ensures Char(c) == [a, b, d, e]
  {
    c := 0x4_0000 * (a - 0xF0) + 4096 * (b - 0x80) + 64 * (d - 0x80) + (e - 0x80);
    assert c / 4096 == 64 * (a - 0xF0) + (b - 0x80);
    assert c / 64 == 4096 * (a - 0xF0) + 64 * (b - 0x80) + (d - 0x80);
  }

  lemma FirstChar(s: seq<byte>) returns (c: Scalar)
    requires s != [] && Run(Boundary, s) == Boundary
    ensures Char(c) <= s && Run(Boundary, s[|Char(c)|..]) == Boundary
  {
    if s[0] < 0x80 {
      c := s[0];
      RunStep(Boundary, s);
      assert Char(c) <= s;
    } else {
      FirstByte(s);
      var state := Utf8Next(Utf8Next(Boundary, s[0]), s[1]);
      if s[0] < 0xE0 {
        c := 64 * (s[0] as int - 0xC0) + (s[1] - 0x80);
        assert Char(c) == [s[0], s[1]] <= s;
      } else if s[0] < 0xF0 {
        TailReads(0, s[2..]);
        c := Join3(s[0], s[1], s[2]);
        assert Char(c) <= s;
        assert s[2..][1..] == s[3..];
      } else {
        TailReads(1, s[2..]);
        assert s[2..][0] == s[2] && s[2..][1] == s[3];
        c := Join4(s[0], s[1], s[2], s[3]);
        assert Char(c) <= s;
        assert s[2..][2..] == s[4..];
      }
    }
  }

  lemma {:induction false} RunReads(s: seq<byte>) returns (cs: seq<Scalar>)
    requires Run(Boundary, s) == Boundary
    ensures Text(cs) == s
    decreases |s|
  {
    hide Char;
    if s == [] {
      cs := [];
    } else {
      var c := FirstChar(s);
      var more := RunReads(s[|Char(c)|..]);
      cs := [c] + more;
      assert cs[1..] == more;
    }
  }

  /** The bytes taken for strings are exactly the encodings of Unicode text. */
  lemma ValidExactly(s: seq<byte>)
    ensures ValidUtf8(s) <==> exists cs :: Text(cs) == s
  {
    hide Text;
    ScanIsRun(s);
    if ValidUtf8(s) {
      var cs := RunReads(s);
    }
    if cs :| Text(cs) == s {
      TextRuns(cs);
    }
  }
}
