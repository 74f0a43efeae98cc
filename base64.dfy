/**
  Base64 with the standard alphabet of section 4 of RFC 4648, as Python's
  `base64.b64encode` writes it (padding with '=', no line breaks) and as
  `base64.b64decode` reads it with validate=False, which runs CPython's
  `binascii.a2b_base64` in its non-strict mode (the CPython 3.11+ algorithm):
  bytes outside the alphabet are skipped, a '=' seen after at least two
  characters of a quad may end the input, and leftover characters of an
  incomplete quad are an error.
*/
module Base64 {
  import opened Wrappers
  import Utf8

  type byte = Utf8.byte

  const Pad: char := '='

  /** The character for a 6-bit value: entry `v` of the alphabet A-Z, a-z, 0-9, '+', '/'. */
  function Sextet(v: int): (c: char)
    requires 0 <= v < 64
    ensures c as int < 0x80 && c != Pad
  {
    if v < 26 then ('A' as int + v) as char
    else if v < 52 then ('a' as int + v - 26) as char
    else if v < 62 then ('0' as int + v - 52) as char
    else if v == 62 then '+'
    else '/'
  }

  /** The decoding table: the 6-bit value of an alphabet byte, 64 for any other byte. */
  function SextetValue(c: byte): (v: int)
    ensures 0 <= v <= 64
    ensures v < 64 ==> Sextet(v) as int == c
  {
    if 'A' as int <= c <= 'Z' as int then c - 'A' as int
    else if 'a' as int <= c <= 'z' as int then c - 'a' as int + 26
    else if '0' as int <= c <= '9' as int then c - '0' as int + 52
    else if c == '+' as int then 62
    else if c == '/' as int then 63
    else 64
  }

  lemma SextetRoundTrip(v: int)
    requires 0 <= v < 64
    ensures SextetValue(Sextet(v) as int) == v
  {
  }

  /** Encoding: each group of three bytes becomes four characters; a final group of one or two is padded. */
  function Encode(data: seq<byte>): (r: string)
    ensures |r| == 4 * ((|data| + 2) / 3)
    ensures Utf8.IsAscii(r)
  {
    if |data| == 0 then []
    else if |data| == 1 then
      [Sextet(data[0] / 4), Sextet(data[0] % 4 * 16), Pad, Pad]
    else if |data| == 2 then
      [Sextet(data[0] / 4), Sextet(data[0] % 4 * 16 + data[1] / 16), Sextet(data[1] % 16 * 4), Pad]
    else
      var quad := [Sextet(data[0] / 4), Sextet(data[0] % 4 * 16 + data[1] / 16),
                   Sextet(data[1] % 16 * 4 + data[2] / 64), Sextet(data[2] % 64)];
      var rest := Encode(data[3..]);
      assert forall i :: 4 <= i < |quad + rest| ==> (quad + rest)[i] == rest[i - 4];
      quad + rest
  }

  /** Bytes of the decoder's state for the quad being read: `quadPos` data characters read, `leftChar` their unused bits. */
  ghost predicate StateOk(quadPos: int, leftChar: int) {
    && 0 <= quadPos < 4 && 0 <= leftChar
    && (quadPos == 0 ==> leftChar == 0)
    && (quadPos == 1 ==> leftChar < 64)
    && (quadPos == 2 ==> leftChar < 16)
    && (quadPos == 3 ==> leftChar < 4)
  }

  /**
    The non-strict decoding loop over the remaining input `s`, appending output
    bytes to `acc`; None where CPython raises binascii.Error (input that ends
    inside a quad with no padding to close it).
  */
  function Run(s: seq<byte>, quadPos: int, leftChar: int, pads: nat, acc: seq<byte>): (r: Option<seq<byte>>)
    requires StateOk(quadPos, leftChar)
    ensures r.Some? ==> |acc| <= |r.value| && r.value[..|acc|] == acc
    ensures r.Some? ==> 4 * (|r.value| - |acc|) <= 3 * |s| + (4 - quadPos) % 4
    decreases |s|
  {
    if s == [] then
      if quadPos == 0 then Some(acc) else None
    else if s[0] == Pad as int then
      if quadPos >= 2 && quadPos + pads + 1 >= 4 then Some(acc)
      else Run(s[1..], quadPos, leftChar, if quadPos >= 2 then pads + 1 else pads, acc)
    else
      var v := SextetValue(s[0]);
      if v == 64 then Run(s[1..], quadPos, leftChar, pads, acc)
      else if quadPos == 0 then Run(s[1..], 1, v, 0, acc)
      else if quadPos == 1 then Run(s[1..], 2, v % 16, 0, acc + [leftChar * 4 + v / 16])
      else if quadPos == 2 then Run(s[1..], 3, v % 4, 0, acc + [leftChar * 16 + v / 4])
      else Run(s[1..], 0, 0, 0, acc + [leftChar * 64 + v])
  }

  /** b64decode, non-strict: at most three bytes come out for every four characters read. */
  function Decode(s: seq<byte>): (r: Option<seq<byte>>)
    ensures r.Some? ==> 4 * |r.value| <= 3 * |s|
  {
    Run(s, 0, 0, 0, [])
  }

  /** The bytes of an ASCII string, one per character. */
  function AsciiBytes(s: string): (r: seq<byte>)
    requires Utf8.IsAscii(s)
    ensures Utf8.Encode(s) == r
  {
    Utf8.EncodeAscii(s);
    seq(|s|, i requires 0 <= i < |s| => s[i] as int)
  }

  lemma AsciiBytesAppend(s: string, t: string)
    requires Utf8.IsAscii(s) && Utf8.IsAscii(t)
    ensures Utf8.IsAscii(s + t) && AsciiBytes(s + t) == AsciiBytes(s) + AsciiBytes(t)
  {
    assert forall i :: 0 <= i < |s + t| ==> (s + t)[i] == if i < |s| then s[i] else t[i - |s|];
  }

  /** Four characters of a full group take the decoder from quad position 0 back to 0 and emit the group's three bytes. */
  lemma RunQuad(x0: byte, x1: byte, x2: byte, t: seq<byte>, pads: nat, acc: seq<byte>)
    ensures var q := [Sextet(x0 / 4) as int, Sextet(x0 % 4 * 16 + x1 / 16) as int,
                      Sextet(x1 % 16 * 4 + x2 / 64) as int, Sextet(x2 % 64) as int];
            Run(q + t, 0, 0, pads, acc) == Run(t, 0, 0, 0, acc + [x0, x1, x2])
  {
    var v0, v1, v2, v3 := x0 / 4, x0 % 4 * 16 + x1 / 16, x1 % 16 * 4 + x2 / 64, x2 % 64;
    var q: seq<byte> := [Sextet(v0) as int, Sextet(v1) as int, Sextet(v2) as int, Sextet(v3) as int];
    var s3 := [Sextet(v3) as int] + t;
    var s2 := [Sextet(v2) as int] + s3;
    var s1 := [Sextet(v1) as int] + s2;
    QuadCons(Sextet(v0) as int, Sextet(v1) as int, Sextet(v2) as int, Sextet(v3) as int, t);
    QuadArith(x0, x1, x2);
    RunFirst(v0, s1, pads, acc);
    RunSecond(v1, s2, v0, acc, x0);
    RunThird(v2, s3, v1 % 16, acc + [x0], x1);
    RunFourth(v3, t, v2 % 4, acc + [x0] + [x1], x2);
    AppendThree(acc, x0, x1, x2);
  }

  lemma QuadCons(c0: byte, c1: byte, c2: byte, c3: byte, t: seq<byte>)
    ensures [c0, c1, c2, c3] + t == [c0] + ([c1] + ([c2] + ([c3] + t)))
  {
  }

  lemma AppendThree(acc: seq<byte>, x0: byte, x1: byte, x2: byte)
    ensures acc + [x0] + [x1] + [x2] == acc + [x0, x1, x2]
  {
  }

  /** The first character of a quad only stores its six bits. */
  lemma RunFirst(v: int, t: seq<byte>, pads: nat, acc: seq<byte>)
    requires 0 <= v < 64
    ensures Run([Sextet(v) as int] + t, 0, 0, pads, acc) == Run(t, 1, v, 0, acc)
  {
    SextetRoundTrip(v);
    var s := [Sextet(v) as int] + t;
    assert s[0] == Sextet(v) as int && s[1..] == t;
  }

  /** The second character of a quad completes the first byte. */
  lemma RunSecond(v: int, t: seq<byte>, leftChar: int, acc: seq<byte>, out: byte)
    requires 0 <= v < 64 && 0 <= leftChar < 64 && out == leftChar * 4 + v / 16
    ensures Run([Sextet(v) as int] + t, 1, leftChar, 0, acc) == Run(t, 2, v % 16, 0, acc + [out])
  {
    SextetRoundTrip(v);
    var s := [Sextet(v) as int] + t;
    assert s[0] == Sextet(v) as int && s[1..] == t;
  }

  /** The third character of a quad completes the second byte. */
  lemma RunThird(v: int, t: seq<byte>, leftChar: int, acc: seq<byte>, out: byte)
    requires 0 <= v < 64 && 0 <= leftChar < 16 && out == leftChar * 16 + v / 4
    ensures Run([Sextet(v) as int] + t, 2, leftChar, 0, acc) == Run(t, 3, v % 4, 0, acc + [out])
  {
    SextetRoundTrip(v);
    var s := [Sextet(v) as int] + t;
    assert s[0] == Sextet(v) as int && s[1..] == t;
  }

  /** The fourth character of a quad completes the third byte and closes the quad. */
  lemma RunFourth(v: int, t: seq<byte>, leftChar: int, acc: seq<byte>, out: byte)
    requires 0 <= v < 64 && 0 <= leftChar < 4 && out == leftChar * 64 + v
    ensures Run([Sextet(v) as int] + t, 3, leftChar, 0, acc) == Run(t, 0, 0, 0, acc + [out])
  {
    SextetRoundTrip(v);
    var s := [Sextet(v) as int] + t;
    assert s[0] == Sextet(v) as int && s[1..] == t;
  }

  /** The four sextets of three bytes put back together give the bytes. */
  lemma QuadArith(x0: byte, x1: byte, x2: byte)
    ensures x0 / 4 * 4 + (x0 % 4 * 16 + x1 / 16) / 16 == x0
    ensures (x0 % 4 * 16 + x1 / 16) % 16 * 16 + (x1 % 16 * 4 + x2 / 64) / 4 == x1
    ensures (x1 % 16 * 4 + x2 / 64) % 4 * 64 + x2 % 64 == x2
  {
  }

  /** A final group of one byte, "xy==", ends decoding at its second '='. */
  lemma RunFinalOne(x0: byte, pads: nat, acc: seq<byte>)
    ensures Run([Sextet(x0 / 4) as int, Sextet(x0 % 4 * 16) as int, Pad as int, Pad as int], 0, 0, pads, acc)
            == Some(acc + [x0])
  {
    var v0, v1 := x0 / 4, x0 % 4 * 16;
    SextetRoundTrip(v0); SextetRoundTrip(v1);
    var s: seq<byte> := [Sextet(v0) as int, Sextet(v1) as int, Pad as int, Pad as int];
    assert s[1..] == [Sextet(v1) as int, Pad as int, Pad as int];
    assert s[1..][1..] == [Pad as int, Pad as int];
    assert s[1..][1..][1..] == [Pad as int];
    assert Run(s, 0, 0, pads, acc) == Run(s[1..], 1, v0, 0, acc);
    assert Run(s[1..], 1, v0, 0, acc) == Run(s[1..][1..], 2, v1 % 16, 0, acc + [x0]) by {
      assert v0 * 4 + v1 / 16 == x0;
    }
    assert Run(s[1..][1..], 2, v1 % 16, 0, acc + [x0]) == Run(s[1..][1..][1..], 2, v1 % 16, 1, acc + [x0]);
  }

  /** A final group of two bytes, "xyz=", ends decoding at its '='. */
  lemma RunFinalTwo(x0: byte, x1: byte, pads: nat, acc: seq<byte>)
    ensures Run([Sextet(x0 / 4) as int, Sextet(x0 % 4 * 16 + x1 / 16) as int, Sextet(x1 % 16 * 4) as int, Pad as int],
                0, 0, pads, acc)
            == Some(acc + [x0, x1])
  {
    var v0, v1, v2 := x0 / 4, x0 % 4 * 16 + x1 / 16, x1 % 16 * 4;
    SextetRoundTrip(v0); SextetRoundTrip(v1); SextetRoundTrip(v2);
    var s: seq<byte> := [Sextet(v0) as int, Sextet(v1) as int, Sextet(v2) as int, Pad as int];
    assert s[1..] == [Sextet(v1) as int, Sextet(v2) as int, Pad as int];
    assert s[1..][1..] == [Sextet(v2) as int, Pad as int];
    assert s[1..][1..][1..] == [Pad as int];
    assert Run(s, 0, 0, pads, acc) == Run(s[1..], 1, v0, 0, acc);
    assert Run(s[1..], 1, v0, 0, acc) == Run(s[1..][1..], 2, v1 % 16, 0, acc + [x0]) by {
      assert v0 * 4 + v1 / 16 == x0;
    }
    assert Run(s[1..][1..], 2, v1 % 16, 0, acc + [x0]) == Run(s[1..][1..][1..], 3, v2 % 4, 0, acc + [x0] + [x1]) by {
      assert v1 % 16 * 16 + v2 / 4 == x1;
    }
    assert acc + [x0] + [x1] == acc + [x0, x1];
  }

  /** Decoding inverts encoding: the bytes of any encoded string decode to the original data. */
  lemma {:induction false} RunEncode(data: seq<byte>, pads: nat, acc: seq<byte>)
    ensures Run(AsciiBytes(Encode(data)), 0, 0, pads, acc) == Some(acc + data)
    decreases |data|
  {
    if |data| == 0 {
      assert AsciiBytes(Encode(data)) == [];
      assert acc + data == acc;
    } else if |data| == 1 {
      var x0 := data[0];
      AsciiBytesOfQuad(Sextet(x0 / 4), Sextet(x0 % 4 * 16), Pad, Pad);
      RunFinalOne(x0, pads, acc);
      assert data == [x0];
    } else if |data| == 2 {
      var x0, x1 := data[0], data[1];
      AsciiBytesOfQuad(Sextet(x0 / 4), Sextet(x0 % 4 * 16 + x1 / 16), Sextet(x1 % 16 * 4), Pad);
      RunFinalTwo(x0, x1, pads, acc);
      assert data == [x0, x1];
    } else {
      RunEncode(data[3..], 0, acc + data[..3]);
      RunEncodeGroup(data, pads, acc);
    }
  }

  lemma RunEncodeGroup(data: seq<byte>, pads: nat, acc: seq<byte>)
    requires |data| >= 3
    requires Run(AsciiBytes(Encode(data[3..])), 0, 0, 0, acc + data[..3]) == Some(acc + data[..3] + data[3..])
    ensures Run(AsciiBytes(Encode(data)), 0, 0, pads, acc) == Some(acc + data)
  {
    var x0, x1, x2 := data[0], data[1], data[2];
    EncodeGroupBytes(data);
    RunQuad(x0, x1, x2, AsciiBytes(Encode(data[3..])), pads, acc);
    GroupSplit(data, acc);
  }

  lemma GroupSplit(data: seq<byte>, acc: seq<byte>)
    requires |data| >= 3
    ensures data[..3] == [data[0], data[1], data[2]]
    ensures acc + data[..3] + data[3..] == acc + data
  {
  }

  /** The bytes of an encoding are the first group's four characters, then the bytes of the rest's encoding. */
  lemma EncodeGroupBytes(data: seq<byte>)
    requires |data| >= 3
    ensures AsciiBytes(Encode(data)) ==
      [Sextet(data[0] / 4) as int, Sextet(data[0] % 4 * 16 + data[1] / 16) as int,
       Sextet(data[1] % 16 * 4 + data[2] / 64) as int, Sextet(data[2] % 64) as int] + AsciiBytes(Encode(data[3..]))
  {
    var x0, x1, x2 := data[0], data[1], data[2];
    var quad := [Sextet(x0 / 4), Sextet(x0 % 4 * 16 + x1 / 16),
                 Sextet(x1 % 16 * 4 + x2 / 64), Sextet(x2 % 64)];
    var rest := Encode(data[3..]);
    assert Encode(data) == quad + rest;
    AsciiBytesOfQuad(quad[0], quad[1], quad[2], quad[3]);
    AsciiBytesAppend(quad, rest);
  }

  lemma AsciiBytesOfQuad(c0: char, c1: char, c2: char, c3: char)
    requires c0 as int < 0x80 && c1 as int < 0x80 && c2 as int < 0x80 && c3 as int < 0x80
    ensures Utf8.IsAscii([c0, c1, c2, c3])
    ensures AsciiBytes([c0, c1, c2, c3]) == [c0 as int, c1 as int, c2 as int, c3 as int]
  {
  }

  lemma DecodeEncode(data: seq<byte>)
    ensures Decode(Utf8.Encode(Encode(data))) == Some(data)
  {
    assert Utf8.Encode(Encode(data)) == AsciiBytes(Encode(data));
    RunEncode(data, 0, []);
    assert [] + data == data;
  }
}
