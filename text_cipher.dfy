/**
  The text super-cipher of crypto.py: a Caesar rotation of ASCII letters, a
  repeating-key XOR over the UTF-8 bytes, and base64 as the transport text.
*/
module TextCipher {
  import opened Wrappers
  import Utf8
  import Base64
  import opened Binary

  type byte = Utf8.byte

  predicate IsLower(c: char) {
    'a' <= c <= 'z'
  }

  predicate IsUpper(c: char) {
    'A' <= c <= 'Z'
  }

  /**
    One step of encrypt_caesar. Dafny's `%` with the positive modulus 26 is
    never negative, as Python's is, so every integer shift wraps correctly.
  */
  function RotateChar(c: char, shift: int): (r: char)
    ensures IsLower(r) <==> IsLower(c)
    ensures IsUpper(r) <==> IsUpper(c)
    ensures !IsLower(c) && !IsUpper(c) ==> r == c
  {
    if IsLower(c) then ((c as int - 'a' as int + shift) % 26 + 'a' as int) as char
    else if IsUpper(c) then ((c as int - 'A' as int + shift) % 26 + 'A' as int) as char
    else c
  }

  /** The text encrypt_caesar returns. */
  function Rotate(text: string, shift: int): (r: string)
    ensures |r| == |text|
  {
    seq(|text|, i requires 0 <= i < |text| => RotateChar(text[i], shift))
  }

  /** Rotating by `a` and then by `b` is rotating by `a + b`. */
  lemma RotateCharCompose(c: char, a: int, b: int)
    ensures RotateChar(RotateChar(c, a), b) == RotateChar(c, a + b)
  {
    if IsLower(c) || IsUpper(c) {
      var base := if IsLower(c) then 'a' as int else 'A' as int;
      var x := c as int - base;
      var y := (x + a) % 26;
      assert RotateChar(c, a) as int - base == y;
      ModAddMod(x + a, b);
    }
  }

  lemma ModAddMod(x: int, b: int)
    ensures (x % 26 + b) % 26 == (x + b) % 26
  {
    var q := x / 26;
    assert x == 26 * q + x % 26;
    assert x + b == (x % 26 + b) + 26 * q;
  }

  lemma RotateCharZero(c: char)
    ensures RotateChar(c, 0) == c
  {
  }

  lemma RotateCompose(text: string, a: int, b: int)
    ensures Rotate(Rotate(text, a), b) == Rotate(text, a + b)
  {
    forall i | 0 <= i < |text|
      ensures Rotate(Rotate(text, a), b)[i] == Rotate(text, a + b)[i]
    {
      RotateCharCompose(text[i], a, b);
    }
  }

  /** decrypt_caesar undoes encrypt_caesar for every text and every integer shift. */
  lemma RotateInverse(text: string, shift: int)
    ensures Rotate(Rotate(text, shift), -shift) == text
    ensures Rotate(Rotate(text, -shift), shift) == text
  {
    RotateCompose(text, shift, -shift);
    RotateCompose(text, -shift, shift);
    forall i | 0 <= i < |text| ensures Rotate(text, 0)[i] == text[i] {
      RotateCharZero(text[i]);
    }
  }

  /** encrypt_caesar: builds the result character by character. */
  method EncryptCaesar(text: string, shift: int) returns (result: string)
    ensures result == Rotate(text, shift)
  {
    result := "";
    for i := 0 to |text|
      invariant |result| == i
      invariant forall k :: 0 <= k < i ==> result[k] == RotateChar(text[k], shift)
    {
      var shifted := RotateChar(text[i], shift);
      result := result + [shifted];
    }
  }

  /** decrypt_caesar: encryption with the negated shift, hence a two-sided inverse of it. */
  method DecryptCaesar(text: string, shift: int) returns (result: string)
    ensures result == Rotate(text, -shift)
    ensures Rotate(result, shift) == text
  {
    result := EncryptCaesar(text, -shift);
    RotateInverse(text, shift);
  }

  /** Bitwise exclusive or of the low `n` bits of `a` and `b`, least significant bit first. */
  function XorBits(a: nat, b: nat, n: nat): (r: nat)
    ensures r < Pow2(n)
  {
    if n == 0 then 0 else (if a % 2 == b % 2 then 0 else 1) + 2 * XorBits(a / 2, b / 2, n - 1)
  }

  /** Python's `^` on two bytes. */
  function XorByte(a: byte, b: byte): byte {
    XorBits(a, b, 8)
  }

  lemma {:induction false} XorBitsTwice(a: nat, b: nat, n: nat)
    requires a < Pow2(n)
    ensures XorBits(XorBits(a, b, n), b, n) == a
  {
    if n > 0 {
      XorBitsTwice(a / 2, b / 2, n - 1);
      var r := XorBits(a, b, n);
      assert r % 2 == (if a % 2 == b % 2 then 0 else 1);
      assert r / 2 == XorBits(a / 2, b / 2, n - 1);
    }
  }

  lemma XorByteTwice(a: byte, b: byte)
    ensures XorByte(XorByte(a, b), b) == a
  {
    XorBitsTwice(a, b, 8);
  }

  /**
    What encrypt_decrypt_xor computes from `data` and the key's UTF-8 bytes:
    None where `i % len(key_bytes)` raises ZeroDivisionError, which is exactly
    when the key is empty and there is at least one data byte.
  */
  function Xor(data: seq<byte>, key: seq<byte>): (r: Option<seq<byte>>)
    ensures r.None? <==> |data| > 0 && |key| == 0
    ensures r.Some? ==> |r.value| == |data|
  {
    if |data| > 0 && |key| == 0 then None
    else Some(seq(|data|, i requires 0 <= i < |data| => XorByte(data[i], key[i % |key|])))
  }

  /** XOR with the same key is its own inverse. */
  lemma XorInvolution(data: seq<byte>, key: seq<byte>)
    requires Xor(data, key).Some?
    ensures Xor(Xor(data, key).value, key) == Some(data)
  {
    var once := Xor(data, key).value;
    var twice := Xor(once, key).value;
    forall i | 0 <= i < |data| ensures twice[i] == data[i] {
      XorByteTwice(data[i], key[i % |key|]);
    }
    assert twice == data;
  }

  /** encrypt_decrypt_xor: appends one XORed byte per index; the first index fails on an empty key. */
  method EncryptDecryptXor(data: seq<byte>, key: string) returns (r: Option<seq<byte>>)
    ensures r == Xor(data, Utf8.Encode(key))
  {
    var keyBytes := Utf8.Encode(key);
    var keyLen := |keyBytes|;
    var output: seq<byte> := [];
    for i := 0 to |data|
      invariant |output| == i
      invariant keyLen == 0 ==> i == 0
      invariant keyLen > 0 ==> forall k :: 0 <= k < i ==> output[k] == XorByte(data[k], keyBytes[k % keyLen])
    {
      if keyLen == 0 {
        return None;
      }
      var xorByte := XorByte(data[i], keyBytes[i % keyLen]);
      output := output + [xorByte];
    }
    if keyLen > 0 {
      assert output == Xor(data, keyBytes).value;
    } else {
      assert output == [];
    }
    r := Some(output);
  }

  /** The fixed text super_decrypt_text returns for every failure. */
  const DecryptionFailed: string := "DEKRIPSI GAGAL: Kunci atau format data salah."

  /**
    super_encrypt_text: Caesar, UTF-8, XOR, base64. None is the ZeroDivisionError
    the XOR step raises (this function does not catch it).
  */
  function SuperEncryptText(plaintext: string, shift: int, key: string): (r: Option<string>)
    ensures r.Some? <==> |key| > 0 || |plaintext| == 0
  {
    var caesar := Rotate(plaintext, shift);
    match Xor(Utf8.Encode(caesar), Utf8.Encode(key))
    case None => None
    case Some(x) => Some(Base64.Encode(x))
  }

  /**
    super_decrypt_text: base64 decoding of the text's UTF-8 bytes, XOR, strict
    UTF-8 decoding, Caesar with the negated shift; any failure yields the one
    fixed message.
  */
  function SuperDecryptText(ciphertext: string, shift: int, key: string): (r: string)
    ensures Base64.Decode(Utf8.Encode(ciphertext)).None? ==> r == DecryptionFailed
    ensures var d := Base64.Decode(Utf8.Encode(ciphertext));
      d.Some? && |d.value| > 0 && |key| == 0 ==> r == DecryptionFailed
    ensures var d := Base64.Decode(Utf8.Encode(ciphertext));
      d.Some? && Xor(d.value, Utf8.Encode(key)).Some? && Utf8.Decode(Xor(d.value, Utf8.Encode(key)).value).None?
      ==> r == DecryptionFailed
    ensures var d := Base64.Decode(Utf8.Encode(ciphertext));
      d.Some? && Xor(d.value, Utf8.Encode(key)).Some? && Utf8.Decode(Xor(d.value, Utf8.Encode(key)).value).Some?
      ==> Rotate(r, shift) == Utf8.Decode(Xor(d.value, Utf8.Encode(key)).value).value
  {
    match Base64.Decode(Utf8.Encode(ciphertext))
    case None => DecryptionFailed
    case Some(x) =>
      match Xor(x, Utf8.Encode(key))
      case None => DecryptionFailed
      case Some(c) =>
        match Utf8.Decode(c)
        case None => DecryptionFailed
        case Some(t) =>
          RotateInverse(t, shift);
          Rotate(t, -shift)
  }

  /** Whatever the shift and key, a successful encryption decrypts back to the plaintext. */
  lemma SuperRoundTrip(plaintext: string, shift: int, key: string)
    requires SuperEncryptText(plaintext, shift, key).Some?
    ensures SuperDecryptText(SuperEncryptText(plaintext, shift, key).value, shift, key) == plaintext
  {
    var caesar := Rotate(plaintext, shift);
    var bytes := Utf8.Encode(caesar);
    var keyBytes := Utf8.Encode(key);
    var x := Xor(bytes, keyBytes).value;
    Base64.DecodeEncode(x);
    if |keyBytes| == 0 {
      assert bytes == [] && x == [];
    } else {
      XorInvolution(bytes, keyBytes);
    }
    assert Xor(x, keyBytes) == Some(bytes);
    Utf8.DecodeEncode(caesar);
    RotateInverse(plaintext, shift);
  }

  /** The worked example: "HELLO" with shift 3 and key "k" (Caesar gives "KHOOR"). */
  lemma HelloExample()
    ensures Rotate("HELLO", 3) == "KHOOR"
    ensures SuperEncryptText("HELLO", 3, "k") == Some("ICMkJDk=")
    ensures SuperDecryptText("ICMkJDk=", 3, "k") == "HELLO"
  {
    HelloCaesar();
    HelloBytes();
    HelloXor();
    HelloBase64();
    SuperRoundTrip("HELLO", 3, "k");
  }

  lemma HelloCaesar()
    ensures Rotate("HELLO", 3) == "KHOOR"
  {
    var r := Rotate("HELLO", 3);
    assert r[0] == 'K' && r[1] == 'H' && r[2] == 'O' && r[3] == 'O' && r[4] == 'R';
  }

  lemma HelloBytes()
    ensures Utf8.Encode("KHOOR") == [0x4B, 0x48, 0x4F, 0x4F, 0x52]
    ensures Utf8.Encode("k") == [0x6B]
  {
    assert Utf8.IsAscii("KHOOR");
    Utf8.EncodeAscii("KHOOR");
  }

  lemma HelloXor()
    ensures Xor([0x4B, 0x48, 0x4F, 0x4F, 0x52], [0x6B]) == Some([0x20, 0x23, 0x24, 0x24, 0x39])
  {
    HelloXorBytes();
    XorOneByteKey([0x4B, 0x48, 0x4F, 0x4F, 0x52], 0x6B, [0x20, 0x23, 0x24, 0x24, 0x39]);
  }

  /** With a one-byte key every data byte is XORed with that byte. */
  lemma XorOneByteKey(d: seq<byte>, b: byte, e: seq<byte>)
    requires |e| == |d| && forall i :: 0 <= i < |d| ==> e[i] == XorByte(d[i], b)
    ensures Xor(d, [b]) == Some(e)
  {
    var x := Xor(d, [b]).value;
    forall i | 0 <= i < |d| ensures x[i] == e[i] {
      assert [b][i % 1] == b;
    }
    assert x == e;
  }

  lemma HelloXorBytes()
    ensures XorByte(0x4B, 0x6B) == 0x20
    ensures XorByte(0x48, 0x6B) == 0x23
    ensures XorByte(0x4F, 0x6B) == 0x24
    ensures XorByte(0x52, 0x6B) == 0x39
  {
    assert XorBits(0, 0, 1) == 0;
    assert XorBits(1, 1, 2) == 0;
    assert XorBits(2, 3, 3) == 1;
    assert XorBits(4, 6, 4) == 2;
    assert XorBits(9, 13, 5) == 4;
    assert XorBits(18, 26, 6) == 8;
    assert XorBits(37, 53, 7) == 16;
    assert XorBits(75, 107, 8) == 32;
    assert XorBits(0, 0, 1) == 0;
    assert XorBits(1, 1, 2) == 0;
    assert XorBits(2, 3, 3) == 1;
    assert XorBits(4, 6, 4) == 2;
    assert XorBits(9, 13, 5) == 4;
    assert XorBits(18, 26, 6) == 8;
    assert XorBits(36, 53, 7) == 17;
    assert XorBits(72, 107, 8) == 35;
    assert XorBits(0, 0, 1) == 0;
    assert XorBits(1, 1, 2) == 0;
    assert XorBits(2, 3, 3) == 1;
    assert XorBits(4, 6, 4) == 2;
    assert XorBits(9, 13, 5) == 4;
    assert XorBits(19, 26, 6) == 9;
    assert XorBits(39, 53, 7) == 18;
    assert XorBits(79, 107, 8) == 36;
    assert XorBits(0, 0, 1) == 0;
    assert XorBits(1, 1, 2) == 0;
    assert XorBits(2, 3, 3) == 1;
    assert XorBits(5, 6, 4) == 3;
    assert XorBits(10, 13, 5) == 7;
    assert XorBits(20, 26, 6) == 14;
    assert XorBits(41, 53, 7) == 28;
    assert XorBits(82, 107, 8) == 57;
  }

  lemma HelloBase64()
    ensures Base64.Encode([0x20, 0x23, 0x24, 0x24, 0x39]) == "ICMkJDk="
  {
    var d: seq<byte> := [0x20, 0x23, 0x24, 0x24, 0x39];
    assert d[3..] == [0x24, 0x39];
    assert Base64.Encode(d[3..]) == "JDk=";
  }
}
