/**
  The AES-256-GCM file format of crypto.py: a 16-byte PBKDF2 salt, a 12-byte
  GCM nonce, the 16-byte authentication tag and the ciphertext, concatenated.
  PBKDF2-HMAC-SHA256 (section 5.2 of RFC 8018) and AES-GCM (NIST SP 800-38D)
  are parameters of the model; what this file relies on about them is stated
  once, in `Correct`. The salt and nonce that `os.urandom` supplies are
  arguments.
*/
module FileCipher {
  import opened Wrappers
  import Utf8

  type byte = Utf8.byte

  const SaltLength: nat := 16
  const NonceLength: nat := 12
  const TagLength: nat := 16
  /** Bytes in front of the ciphertext: salt, nonce and tag. */
  const HeaderLength: nat := 44

  datatype Hash = Sha256

  datatype KdfParams = KdfParams(algorithm: Hash, length: nat, iterations: nat)

  /** The fixed parameters of get_aes_key_from_password. */
  const AesKdf: KdfParams := KdfParams(Sha256, 32, 100000)

  /** The output of a GCM encryptor: the ciphertext and the tag read after finalize. */
  datatype Sealed = Sealed(ciphertext: seq<byte>, tag: seq<byte>)

  /**
    The cryptographic primitives: `pbkdf2(params, salt, password)`,
    `seal(key, nonce, plaintext)` and `open(key, nonce, tag, ciphertext)`,
    the last being None where the library raises InvalidTag.
  */
  datatype Primitives = Primitives(
    pbkdf2: (KdfParams, seq<byte>, seq<byte>) -> seq<byte>,
    seal: (seq<byte>, seq<byte>, seq<byte>) -> Sealed,
    open: (seq<byte>, seq<byte>, seq<byte>, seq<byte>) -> Option<seq<byte>>)

  /**
    What the model assumes of the primitives: the derived key has the
    requested length, GCM keeps the length of the plaintext and writes a
    16-byte tag, opening a sealed message gives it back, and opening
    succeeds only on a ciphertext and tag that sealing the result produces.
  */
  ghost predicate Correct(p: Primitives) {
    (forall params, salt, password :: |p.pbkdf2(params, salt, password)| == params.length)
    && (forall key, nonce, m :: |p.seal(key, nonce, m).ciphertext| == |m| && |p.seal(key, nonce, m).tag| == TagLength)
    && (forall key, nonce, m :: p.open(key, nonce, p.seal(key, nonce, m).tag, p.seal(key, nonce, m).ciphertext) == Some(m))
    && (forall key, nonce, tag, c ::
          p.open(key, nonce, tag, c).Some? ==> p.seal(key, nonce, p.open(key, nonce, tag, c).value) == Sealed(c, tag))
  }

  /** Sixteen zero bytes. */
  const ZeroTag: seq<byte> := [0, 0, 0, 0, 0, 0, 0, 0, 0, 0, 0, 0, 0, 0, 0, 0]

  /**
    A stand-in with no secrecy whatever (the key is zeros, the ciphertext is
    the plaintext and the tag is zeros) that meets `Correct`, so that the
    lemmas below do not rest on an assumption nothing meets.
  */
  const Transparent: Primitives := Primitives(
    (params: KdfParams, salt: seq<byte>, password: seq<byte>) => seq(params.length, _ => 0),
    (key: seq<byte>, nonce: seq<byte>, m: seq<byte>) => Sealed(m, ZeroTag),
    (key: seq<byte>, nonce: seq<byte>, tag: seq<byte>, c: seq<byte>) => if tag == ZeroTag then Some(c) else None)

  lemma TransparentCorrect()
    ensures Correct(Transparent)
  {
  }

  /** get_aes_key_from_password: PBKDF2-HMAC-SHA256, 32 bytes, 100000 rounds, over the UTF-8 bytes of the password. */
  function DeriveKey(p: Primitives, password: string, salt: seq<byte>): (r: seq<byte>)
    ensures Correct(p) ==> |r| == 32
  {
    p.pbkdf2(AesKdf, salt, Utf8.Encode(password))
  }

  /** aes_encrypt_file: the salt, the nonce, the tag and the ciphertext, in that order. */
  function Encrypt(p: Primitives, data: seq<byte>, password: string, salt: seq<byte>, nonce: seq<byte>): (r: seq<byte>)
    requires |salt| == SaltLength && |nonce| == NonceLength
    ensures |r| >= SaltLength + NonceLength
    ensures r[..SaltLength] == salt && r[SaltLength..SaltLength + NonceLength] == nonce
    ensures Correct(p) ==> |r| == HeaderLength + |data|
  {
    var sealed := p.seal(DeriveKey(p, password, salt), nonce, data);
    salt + nonce + sealed.tag + sealed.ciphertext
  }

  /** Python's `s[lo:hi]` for non-negative bounds: both are cut down to the length. */
  function Slice(s: seq<byte>, lo: nat, hi: nat): (r: seq<byte>)
    ensures |r| == if lo <= hi && lo <= |s| then (if hi <= |s| then hi else |s|) - lo else 0
    ensures hi <= |s| && lo <= hi ==> r == s[lo..hi]
  {
    var h := if hi <= |s| then hi else |s|;
    var l := if lo <= h then lo else h;
    s[l..h]
  }

  /** The four parts aes_decrypt_file reads from a file. */
  datatype Blob = Blob(salt: seq<byte>, nonce: seq<byte>, tag: seq<byte>, ciphertext: seq<byte>)

  /** The slices `[0:16]`, `[16:28]`, `[28:44]` and `[44:]`; a short file gives shorter parts. */
  function Split(blob: seq<byte>): (r: Blob)
    ensures r.salt + r.nonce + r.tag + r.ciphertext == blob
    ensures |blob| >= HeaderLength <==> |r.tag| == TagLength
    ensures |blob| >= HeaderLength ==> |r.salt| == SaltLength && |r.nonce| == NonceLength
  {
    var rest := if |blob| <= HeaderLength then [] else blob[HeaderLength..];
    Blob(Slice(blob, 0, 16), Slice(blob, 16, 28), Slice(blob, 28, 44), rest)
  }

  /** Split takes apart exactly what Encrypt concatenates. */
  lemma SplitJoin(salt: seq<byte>, nonce: seq<byte>, tag: seq<byte>, c: seq<byte>)
    requires |salt| == SaltLength && |nonce| == NonceLength && |tag| == TagLength
    ensures Split(salt + nonce + tag + c) == Blob(salt, nonce, tag, c)
  {
    var blob := salt + nonce + tag + c;
    assert blob[0..16] == salt;
    assert blob[16..28] == nonce;
    assert blob[28..44] == tag;
    assert blob[44..] == c;
  }

  /**
    Why aes_decrypt_file fails: the GCM mode object rejects a nonce shorter
    than 8 bytes and a tag shorter than 16, and the decryptor raises
    InvalidTag when the tag does not authenticate the ciphertext.
  */
  datatype DecryptError = NonceTooShort | TagTooShort | InvalidTag

  /** aes_decrypt_file: re-derive the key from the stored salt and open the ciphertext. */
  function Decrypt(p: Primitives, blob: seq<byte>, password: string): (r: Result<seq<byte>, DecryptError>)
    ensures |blob| < HeaderLength ==> r.Err? && r.error != InvalidTag
    ensures r.Err? && r.error == InvalidTag ==> |blob| >= HeaderLength
  {
    var parts := Split(blob);
    if |parts.nonce| < 8 then Err(NonceTooShort)
    else if |parts.tag| < TagLength then Err(TagTooShort)
    else
      match p.open(DeriveKey(p, password, parts.salt), parts.nonce, parts.tag, parts.ciphertext)
      case None => Err(InvalidTag)
      case Some(m) => Ok(m)
  }

  /** Decrypting with the password a file was encrypted with gives the file back. */
  lemma DecryptEncrypt(p: Primitives, data: seq<byte>, password: string, salt: seq<byte>, nonce: seq<byte>)
    requires Correct(p)
    requires |salt| == SaltLength && |nonce| == NonceLength
    ensures Decrypt(p, Encrypt(p, data, password, salt, nonce), password) == Ok(data)
  {
    var key := DeriveKey(p, password, salt);
    var sealed := p.seal(key, nonce, data);
    SplitJoin(salt, nonce, sealed.tag, sealed.ciphertext);
  }

  /**
    Every file that decrypts is the encryption of what it decrypts to, under
    that password and the file's own salt and nonce.
  */
  lemma DecryptSound(p: Primitives, blob: seq<byte>, password: string)
    requires Correct(p)
    requires Decrypt(p, blob, password).Ok?
    ensures |blob| >= HeaderLength
    ensures Encrypt(p, Decrypt(p, blob, password).value, password, blob[..SaltLength], blob[SaltLength..SaltLength + NonceLength]) == blob
  {
    var parts := Split(blob);
    var key := DeriveKey(p, password, parts.salt);
    assert p.open(key, parts.nonce, parts.tag, parts.ciphertext).Some?;
    assert parts.salt == blob[..SaltLength];
    assert parts.nonce == blob[SaltLength..SaltLength + NonceLength];
  }

  /* ---------- File names (app.py) ---------- */

  /** The download name of an encrypted file. */
  function EncryptedName(name: string): (r: string)
    ensures |r| == |name| + 4 && r[..|name|] == name
  {
    name + ".enc"
  }

  /** The download name of a decrypted file: ".enc" removed, or "decrypted_" in front. */
  function DecryptedName(name: string): (r: string)
    ensures |name| >= 4 && name[|name| - 4..] == ".enc" ==> r + ".enc" == name
    ensures !(|name| >= 4 && name[|name| - 4..] == ".enc") ==> r == "decrypted_" + name
  {
    if |name| >= 4 && name[|name| - 4..] == ".enc" then name[..|name| - 4] else "decrypted_" + name
  }

  /** Decrypting the name of an encrypted file gives back the original name. */
  lemma DecryptedEncryptedName(name: string)
    ensures DecryptedName(EncryptedName(name)) == name
  {
    var e := EncryptedName(name);
    assert e[|e| - 4..] == ".enc";
    assert e[..|e| - 4] == name;
  }
}
