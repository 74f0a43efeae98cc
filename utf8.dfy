/**
  UTF-8 as defined by RFC 3629, in the form Python's `str.encode('utf-8')` and the
  strict `bytes.decode('utf-8')` apply it. A Dafny `char` is a Unicode scalar value
  (never a surrogate), so encoding is total; decoding rejects every byte sequence
  that is not the shortest-form encoding of scalar values (section 4 of RFC 3629).
*/
module Utf8 {
  import opened Wrappers

  /** One element of a Python `bytes` value. */
  type byte = x: int | 0 <= x < 256

  predicate IsContinuation(b: byte) {
    0x80 <= b <= 0xBF
  }

  predicate IsAscii(s: string) {
    forall i :: 0 <= i < |s| ==> s[i] as int < 0x80
  }

  /** The code units of one scalar value, shortest form (section 3 of RFC 3629). */
  function EncodeChar(c: char): (r: seq<byte>)
    ensures 1 <= |r| <= 4
    ensures |r| == 1 <==> c as int < 0x80
  {
    var n := c as int;
    if n < 0x80 then [n]
    else if n < 0x800 then [0xC0 + n / 64, 0x80 + n % 64]
    else if n < 0x10000 then [0xE0 + n / 4096, 0x80 + (n / 64) % 64, 0x80 + n % 64]
    else [0xF0 + n / 262144, 0x80 + (n / 4096) % 64, 0x80 + (n / 64) % 64, 0x80 + n % 64]
  }

  function Encode(s: string): (r: seq<byte>)
    ensures |r| >= |s|
    ensures |r| == 0 <==> |s| == 0
  {
    if s == [] then [] else EncodeChar(s[0]) + Encode(s[1..])
  }

  /**
    The first scalar value of a non-empty byte sequence and the number of bytes
    it occupies, or None when the sequence does not start with a well-formed
    UTF-8 character (the table of section 4 of RFC 3629).
  */
  function DecodeFirst(b: seq<byte>): (r: Option<(char, nat)>)
    requires |b| > 0
    ensures r.Some? ==> 1 <= r.value.1 <= |b|
  {
    var b0: int := b[0];
    if b0 < 0x80 then Some((b0 as char, 1))
    else if 0xC2 <= b0 <= 0xDF then
      if |b| >= 2 && IsContinuation(b[1]) then
        Some((((b0 - 0xC0) * 64 + (b[1] as int - 0x80)) as char, 2))
      else None
    else if 0xE0 <= b0 <= 0xEF then
      var lo := if b0 == 0xE0 then 0xA0 else 0x80;
      var hi := if b0 == 0xED then 0x9F else 0xBF;
      if |b| >= 3 && lo <= b[1] <= hi && IsContinuation(b[2]) then
        Some((((b0 - 0xE0) * 4096 + (b[1] as int - 0x80) * 64 + (b[2] as int - 0x80)) as char, 3))
      else None
    else if 0xF0 <= b0 <= 0xF4 then
      var lo := if b0 == 0xF0 then 0x90 else 0x80;
      var hi := if b0 == 0xF4 then 0x8F else 0xBF;
      if |b| >= 4 && lo <= b[1] <= hi && IsContinuation(b[2]) && IsContinuation(b[3]) then
        Some((((b0 - 0xF0) * 262144 + (b[1] as int - 0x80) * 4096 + (b[2] as int - 0x80) * 64 + (b[3] as int - 0x80)) as char, 4))
      else None
    else None
  }

  /** Strict decoding: None exactly where Python raises UnicodeDecodeError. */
  function Decode(b: seq<byte>): (r: Option<string>)
    ensures r.Some? ==> Encode(r.value) == b
    decreases |b|
  {
    if b == [] then Some([])
    else
      match DecodeFirst(b)
      case None => None
      case Some((c, k)) =>
        match Decode(b[k..])
        case None => None
        case Some(rest) =>
          DecodeFirstSound(b);
          assert b == b[..k] + b[k..];
          assert ([c] + rest)[1..] == rest;
          Some([c] + rest)
  }

  /** A recognised first character is exactly the shortest-form encoding of what it decodes to. */
  lemma DecodeFirstSound(b: seq<byte>)
    requires |b| > 0 && DecodeFirst(b).Some?
    ensures b[..DecodeFirst(b).value.1] == EncodeChar(DecodeFirst(b).value.0)
  {
    var b0 := b[0];
    if b0 < 0x80 {
    } else if b0 <= 0xDF {
      SoundTwo(b0, b[1]);
      assert b[..2] == [b0, b[1]];
    } else if b0 <= 0xEF {
      SoundThree(b0, b[1], b[2]);
      assert b[..3] == [b0, b[1], b[2]];
    } else {
      SoundFour(b0, b[1], b[2], b[3]);
      assert b[..4] == [b0, b[1], b[2], b[3]];
    }
  }

  lemma SoundTwo(b0: byte, b1: byte)
    requires 0xC2 <= b0 <= 0xDF && IsContinuation(b1)
    ensures DecodeFirst([b0, b1]) == Some((((b0 - 0xC0) * 64 + (b1 - 0x80)) as char, 2))
    ensures EncodeChar(((b0 - 0xC0) * 64 + (b1 - 0x80)) as char) == [b0, b1]
  {
  }

  lemma SoundThree(b0: byte, b1: byte, b2: byte)
    requires 0xE0 <= b0 <= 0xEF && IsContinuation(b1) && IsContinuation(b2)
    requires b0 == 0xE0 ==> 0xA0 <= b1
    requires b0 == 0xED ==> b1 <= 0x9F
    ensures var n := (b0 - 0xE0) * 4096 + (b1 - 0x80) * 64 + (b2 - 0x80);
      0x800 <= n < 0xD800 || 0xE000 <= n < 0x10000
    ensures EncodeChar(((b0 - 0xE0) * 4096 + (b1 - 0x80) * 64 + (b2 - 0x80)) as char) == [b0, b1, b2]
  {
    var n := (b0 - 0xE0) * 4096 + (b1 - 0x80) * 64 + (b2 - 0x80);
    var q1 := (b0 - 0xE0) * 64 + (b1 - 0x80);
    assert n / 64 == q1 && n % 64 == b2 - 0x80;
    assert q1 / 64 == b0 - 0xE0 && q1 % 64 == b1 - 0x80;
    assert n / 4096 == q1 / 64;
  }

  lemma SoundFour(b0: byte, b1: byte, b2: byte, b3: byte)
    requires 0xF0 <= b0 <= 0xF4 && IsContinuation(b1) && IsContinuation(b2) && IsContinuation(b3)
    requires b0 == 0xF0 ==> 0x90 <= b1
    requires b0 == 0xF4 ==> b1 <= 0x8F
    ensures var n := (b0 - 0xF0) * 262144 + (b1 - 0x80) * 4096 + (b2 - 0x80) * 64 + (b3 - 0x80);
      0x10000 <= n < 0x110000
    ensures EncodeChar(((b0 - 0xF0) * 262144 + (b1 - 0x80) * 4096 + (b2 - 0x80) * 64 + (b3 - 0x80)) as char) == [b0, b1, b2, b3]
  {
    var n := (b0 - 0xF0) * 262144 + (b1 - 0x80) * 4096 + (b2 - 0x80) * 64 + (b3 - 0x80);
    var q1 := (b0 - 0xF0) * 4096 + (b1 - 0x80) * 64 + (b2 - 0x80);
    var q2 := (b0 - 0xF0) * 64 + (b1 - 0x80);
    assert n / 64 == q1 && n % 64 == b3 - 0x80;
    assert q1 / 64 == q2 && q1 % 64 == b2 - 0x80;
    assert q2 / 64 == b0 - 0xF0 && q2 % 64 == b1 - 0x80;
    assert n / 4096 == q2 && n / 262144 == b0 - 0xF0;
  }

  lemma EncodeAppend(s: string, t: string)
    ensures Encode(s + t) == Encode(s) + Encode(t)
  {
    if s != [] {
      assert (s + t)[1..] == s[1..] + t;
      EncodeAppend(s[1..], t);
    } else {
      assert s + t == t;
    }
  }

  /** Every code unit sequence produced by EncodeChar is recognised as that character. */
  lemma DecodeFirstEncodeChar(c: char, rest: seq<byte>)
    ensures DecodeFirst(EncodeChar(c) + rest) == Some((c, |EncodeChar(c)|))
  {
    var n := c as int;
    var b := EncodeChar(c) + rest;
    if n < 0x80 {
    } else if n < 0x800 {
      DecodeTwo(c, b);
    } else if n < 0x10000 {
      DecodeThree(c, b);
    } else {
      DecodeFour(c, b);
    }
  }

  lemma DecodeTwo(c: char, b: seq<byte>)
    requires 0x80 <= c as int < 0x800 && |b| >= 2
    requires b[..2] == EncodeChar(c)
    ensures DecodeFirst(b) == Some((c, 2))
  {
    var n := c as int;
    assert b[0] == 0xC0 + n / 64 && b[1] == 0x80 + n % 64 by { assert b[0] == b[..2][0] && b[1] == b[..2][1]; }
  }

  lemma DecodeThree(c: char, b: seq<byte>)
    requires 0x800 <= c as int < 0x10000 && |b| >= 3
    requires b[..3] == EncodeChar(c)
    ensures DecodeFirst(b) == Some((c, 3))
  {
    var n := c as int;
    var q1, q2 := n / 64, n / 4096;
    assert q2 == q1 / 64;
    assert b[0] == 0xE0 + q2 && b[1] == 0x80 + q1 % 64 && b[2] == 0x80 + n % 64 by {
      assert b[0] == b[..3][0] && b[1] == b[..3][1] && b[2] == b[..3][2];
    }
    assert q2 * 4096 + (q1 % 64) * 64 + n % 64 == n;
  }

  lemma DecodeFour(c: char, b: seq<byte>)
    requires 0x10000 <= c as int && |b| >= 4
    requires b[..4] == EncodeChar(c)
    ensures DecodeFirst(b) == Some((c, 4))
  {
    var n := c as int;
    var q1, q2, q3 := n / 64, n / 4096, n / 262144;
    assert q2 == q1 / 64 && q3 == q2 / 64;
    assert b[0] == 0xF0 + q3 && b[1] == 0x80 + q2 % 64 && b[2] == 0x80 + q1 % 64 && b[3] == 0x80 + n % 64 by {
      assert b[0] == b[..4][0] && b[1] == b[..4][1] && b[2] == b[..4][2] && b[3] == b[..4][3];
    }
    assert q3 * 262144 + (q2 % 64) * 4096 + (q1 % 64) * 64 + n % 64 == n;
  }

  /** Decoding inverts encoding for every string. */
  lemma {:induction false} DecodeEncode(s: string)
    ensures Decode(Encode(s)) == Some(s)
  {
    if s != [] {
      var e := Encode(s);
      DecodeFirstEncodeChar(s[0], Encode(s[1..]));
      var k := |EncodeChar(s[0])|;
      assert e[k..] == Encode(s[1..]);
      DecodeEncode(s[1..]);
      assert [s[0]] + s[1..] == s;
    }
  }

  /** ASCII text encodes to its code points, one byte per character. */
  lemma {:induction false} EncodeAscii(s: string)
    requires IsAscii(s)
    ensures |Encode(s)| == |s|
    ensures forall i :: 0 <= i < |s| ==> Encode(s)[i] == s[i] as int
  {
    if s != [] {
      assert IsAscii(s[1..]) by {
        forall i | 0 <= i < |s[1..]| ensures s[1..][i] as int < 0x80 { assert s[1..][i] == s[i + 1]; }
      }
      EncodeAscii(s[1..]);
    }
  }
}
