/**
  Least-significant-bit steganography of crypto.py over a decoded image. An
  image is its sequence of RGB pixels in raster order; PNG decoding and
  encoding happen outside this model. A text travels as the bits of
  `text_to_binary`, followed by the bits of the delimiter "::EOF::", one bit
  per channel value in the order R, G, B of each pixel in turn.
*/
module Stego {
  import opened Wrappers
  import opened Binary
  import Utf8

  type byte = Utf8.byte

  /** The end-of-message marker appended before hiding. */
  const Delimiter: string := "::EOF::"

  /** The ValueError text stego_hide_message raises when the image is too small. */
  const TooSmall: string := "Error steganografi: Gambar terlalu kecil untuk menyembunyikan pesan ini."

  /** What stego_extract_message returns when no delimiter is found. */
  const NotFound: string := "Pesan tidak ditemukan atau delimiter rusak."

  /* ---------- text_to_binary and binary_to_text ---------- */

  /** text_to_binary: the `format(ord(c), '08b')` digits of every character, in order. */
  function TextBits(s: string): (r: seq<Bit>)
    ensures |r| >= 8 * |s|
  {
    if s == [] then [] else Format08b(s[0] as int) + TextBits(s[1..])
  }

  /** Every code point fits in one byte, so every character takes exactly eight bits. */
  predicate SingleByte(s: string) {
    forall i :: 0 <= i < |s| ==> s[i] as int < 256
  }

  lemma {:induction false} TextBitsAppend(s: string, t: string)
    ensures TextBits(s + t) == TextBits(s) + TextBits(t)
  {
    if s == [] {
      assert s + t == t;
    } else {
      assert (s + t)[1..] == s[1..] + t;
      TextBitsAppend(s[1..], t);
    }
  }

  lemma {:induction false} TextBitsLength(s: string)
    requires SingleByte(s)
    ensures |TextBits(s)| == 8 * |s|
  {
    if s != [] {
      assert SingleByte(s[1..]) by {
        forall i | 0 <= i < |s[1..]| ensures s[1..][i] as int < 256 { assert s[1..][i] == s[i + 1]; }
      }
      TextBitsLength(s[1..]);
    }
  }

  /** The bits of characters `a` to `b` sit at bit positions `8a` to `8b`. */
  lemma TextBitsSlice(s: string, a: nat, b: nat)
    requires SingleByte(s) && a <= b <= |s|
    ensures |TextBits(s)| == 8 * |s|
    ensures TextBits(s)[8 * a..8 * b] == TextBits(s[a..b])
  {
    assert s == s[..a] + s[a..b] + s[b..];
    TextBitsAppend(s[..a] + s[a..b], s[b..]);
    TextBitsAppend(s[..a], s[a..b]);
    assert SingleByte(s[..a]) by {
      forall i | 0 <= i < a ensures s[..a][i] as int < 256 { assert s[..a][i] == s[i]; }
    }
    assert SingleByte(s[a..b]) by {
      forall i | 0 <= i < b - a ensures s[a..b][i] as int < 256 { assert s[a..b][i] == s[a + i]; }
    }
    TextBitsLength(s);
    TextBitsLength(s[..a]);
    TextBitsLength(s[a..b]);
  }

  /** binary_to_text: one character per complete group of eight bits; a shorter tail is dropped. */
  function DecodeBits(bits: seq<Bit>): (r: string)
    ensures |r| == |bits| / 8
    decreases |bits|
  {
    if |bits| < 8 then []
    else
      assert Pow2(8) == 256;
      [Value(bits[..8]) as char] + DecodeBits(bits[8..])
  }

  /**
    binary_to_text inverts text_to_binary on single-byte text, whatever
    fewer-than-eight bits follow.
  */
  lemma {:induction false} DecodeTextBits(s: string, tail: seq<Bit>)
    requires SingleByte(s) && |tail| < 8
    ensures DecodeBits(TextBits(s) + tail) == s
  {
    if s == [] {
      assert TextBits(s) + tail == tail;
    } else {
      SingleByteTail(s);
      DecodeTextBits(s[1..], tail);
      DecodeTextBitsStep(s, tail);
    }
  }

  /** Decoding the first character's eight bits puts that character in front of the rest's decoding. */
  lemma DecodeTextBitsStep(s: string, tail: seq<Bit>)
    requires SingleByte(s) && s != []
    requires DecodeBits(TextBits(s[1..]) + tail) == s[1..]
    ensures DecodeBits(TextBits(s) + tail) == s
  {
    TextBitsCons(s, tail);
    DecodeCharBits(s[0], TextBits(s[1..]) + tail);
    ConsTail(s);
  }

  lemma TextBitsCons(s: string, tail: seq<Bit>)
    requires s != []
    ensures TextBits(s) + tail == Format08b(s[0] as int) + (TextBits(s[1..]) + tail)
  {
  }

  lemma ConsTail(s: string)
    requires s != []
    ensures [s[0]] + s[1..] == s
  {
  }

  /** The eight bits of a single-byte character decode to that character. */
  lemma DecodeCharBits(c: char, rest: seq<Bit>)
    requires c as int < 256
    ensures DecodeBits(Format08b(c as int) + rest) == [c] + DecodeBits(rest)
  {
    var head := Format08b(c as int);
    DecodeBitsCons(head, rest);
    assert Value(head) as char == c;
  }

  lemma SingleByteTail(s: string)
    requires SingleByte(s) && s != []
    ensures SingleByte(s[1..])
  {
    forall i | 0 <= i < |s[1..]| ensures s[1..][i] as int < 256 { assert s[1..][i] == s[i + 1]; }
  }

  /** binary_to_text reads a leading group of eight bits as one character. */
  lemma DecodeBitsCons(head: seq<Bit>, rest: seq<Bit>)
    requires |head| == 8
    ensures Value(head) < 256
    ensures DecodeBits(head + rest) == [Value(head) as char] + DecodeBits(rest)
  {
    assert Pow2(8) == 256;
    assert (head + rest)[..8] == head;
    assert (head + rest)[8..] == rest;
  }

  /** binary_to_text as written: a stride-8 loop that appends one character per full segment. */
  method BinaryToText(binaryStream: seq<Bit>) returns (text: string)
    ensures text == DecodeBits(binaryStream)
  {
    text := "";
    var i := 0;
    while i < |binaryStream|
      invariant i <= |binaryStream| ==> text + DecodeBits(binaryStream[i..]) == DecodeBits(binaryStream)
      invariant i > |binaryStream| ==> text == DecodeBits(binaryStream)
      decreases |binaryStream| - i
    {
      var end := if i + 8 <= |binaryStream| then i + 8 else |binaryStream|;
      var byteSegment := binaryStream[i..end];
      if |byteSegment| == 8 {
        assert Pow2(8) == 256;
        assert binaryStream[i..][..8] == byteSegment;
        assert binaryStream[i..][8..] == binaryStream[i + 8..];
        text := text + [Value(byteSegment) as char];
      }
      i := i + 8;
    }
  }

  /* ---------- Pixels and their least significant bits ---------- */

  datatype Pixel = Pixel(r: byte, g: byte, b: byte)

  /** `pixel[i]` for i in 0, 1, 2. */
  function Channel(p: Pixel, i: nat): byte
    requires i < 3
  {
    if i == 0 then p.r else if i == 1 then p.g else p.b
  }

  /** All channel values of an image, pixel by pixel, R then G then B. */
  function Channels(img: seq<Pixel>): (r: seq<byte>)
    ensures |r| == 3 * |img|
  {
    seq(3 * |img|, j requires 0 <= j < 3 * |img| => Channel(img[j / 3], j % 3))
  }

  /** `(v & 0xFE) | bit`: the low bit becomes `bit`, the seven high bits stay. */
  function SetLsb(v: byte, bit: Bit): (r: byte)
    ensures r / 2 == v / 2
    ensures r % 2 == bit
  {
    v - v % 2 + bit
  }

  /** `v & 1`. */
  function Lsb(v: byte): Bit {
    v % 2
  }

  /** The bit stream stego_extract_message reads from an image. */
  function Lsbs(img: seq<Pixel>): (r: seq<Bit>)
    ensures |r| == 3 * |img|
  {
    var c := Channels(img);
    seq(|c|, j requires 0 <= j < |c| => Lsb(c[j]))
  }

  /** Channel value number `j` after embedding: carries bit `j` while there is one. */
  function EmbedChannel(v: byte, bits: seq<Bit>, j: nat): byte {
    if j < |bits| then SetLsb(v, bits[j]) else v
  }

  function EmbedPixel(p: Pixel, bits: seq<Bit>, base: nat): Pixel {
    Pixel(EmbedChannel(p.r, bits, base), EmbedChannel(p.g, bits, base + 1), EmbedChannel(p.b, bits, base + 2))
  }

  /** The pixels stego_hide_message writes, given the payload bits. */
  function Embed(img: seq<Pixel>, bits: seq<Bit>): (r: seq<Pixel>)
    ensures |r| == |img|
  {
    seq(|img|, k requires 0 <= k < |img| => EmbedPixel(img[k], bits, 3 * k))
  }

  lemma ChannelIndex(img: seq<Pixel>, k: nat, i: nat)
    requires k < |img| && i < 3
    ensures Channels(img)[3 * k + i] == Channel(img[k], i)
  {
    assert (3 * k + i) / 3 == k && (3 * k + i) % 3 == i;
  }

  /**
    Only least significant bits change: channel value `j` becomes
    `(v & 0xFE) | bits[j]` for `j < |bits|`, and every later value is copied.
  */
  lemma EmbedChannels(img: seq<Pixel>, bits: seq<Bit>)
    ensures |Channels(Embed(img, bits))| == |Channels(img)|
    ensures forall j :: 0 <= j < |bits| && j < 3 * |img| ==>
      Channels(Embed(img, bits))[j] == SetLsb(Channels(img)[j], bits[j])
    ensures forall j :: |bits| <= j < 3 * |img| ==> Channels(Embed(img, bits))[j] == Channels(img)[j]
  {
    var e := Embed(img, bits);
    forall j | 0 <= j < 3 * |img|
      ensures Channels(e)[j] == EmbedChannel(Channels(img)[j], bits, j)
    {
      var k, i := j / 3, j % 3;
      assert j == 3 * k + i;
      ChannelIndex(img, k, i);
      ChannelIndex(e, k, i);
    }
  }

  /** A pixel that starts at or after the last payload bit is copied unchanged. */
  lemma EmbedCopiesTail(img: seq<Pixel>, bits: seq<Bit>, k: nat)
    requires k < |img| && |bits| <= 3 * k
    ensures Embed(img, bits)[k] == img[k]
  {
  }

  /** The first `|bits|` least significant bits of the embedded image are the payload. */
  lemma EmbedLsbs(img: seq<Pixel>, bits: seq<Bit>)
    requires |bits| <= 3 * |img|
    ensures Lsbs(Embed(img, bits))[..|bits|] == bits
  {
    EmbedChannels(img, bits);
    var l := Lsbs(Embed(img, bits));
    forall j | 0 <= j < |bits| ensures l[j] == bits[j] {
      assert Channels(Embed(img, bits))[j] == SetLsb(Channels(img)[j], bits[j]);
    }
  }

  /* ---------- stego_hide_message ---------- */

  /** text_to_binary of the message with the delimiter appended. */
  function PayloadBits(msg: string): seq<Bit> {
    TextBits(msg + Delimiter)
  }

  /**
    The image stego_hide_message produces: an error, rather than a truncated
    payload, exactly when the pixels offer fewer channel values than there
    are payload bits.
  */
  function Hide(img: seq<Pixel>, msg: string): (r: Result<seq<Pixel>, string>)
    ensures r.Err? <==> 3 * |img| < |PayloadBits(msg)|
    ensures r.Err? ==> r.error == TooSmall
    ensures r.Ok? ==> |r.value| == |img|
  {
    var bits := PayloadBits(msg);
    if 3 * |img| < |bits| then Err(TooSmall) else Ok(Embed(img, bits))
  }

  /** stego_hide_message as written: the payload, then the embedding loops, then the size check. */
  method StegoHideMessage(img: seq<Pixel>, secretMessage: string) returns (r: Result<seq<Pixel>, string>)
    ensures r == Hide(img, secretMessage)
  {
    var message := secretMessage + Delimiter;
    var secretBinary := TextBits(message);
    var newImgData, dataIndex := EmbedLoop(img, secretBinary);
    if dataIndex < |secretBinary| {
      return Err(TooSmall);
    }
    return Ok(newImgData);
  }

  /**
    The pixel loop of stego_hide_message: pixels are rewritten while bits
    remain and copied after that; the running bit index ends at the number
    of bits embedded.
  */
  method EmbedLoop(img: seq<Pixel>, secretBinary: seq<Bit>) returns (newImgData: seq<Pixel>, dataIndex: nat)
    ensures newImgData == Embed(img, secretBinary)
    ensures dataIndex == if 3 * |img| < |secretBinary| then 3 * |img| else |secretBinary|
  {
    dataIndex := 0;
    newImgData := [];
    for k := 0 to |img|
      invariant |newImgData| == k
      invariant dataIndex == if 3 * k < |secretBinary| then 3 * k else |secretBinary|
      invariant forall t :: 0 <= t < k ==> newImgData[t] == EmbedPixel(img[t], secretBinary, 3 * t)
    {
      var pixel := img[k];
      if dataIndex < |secretBinary| {
        var newPixel;
        newPixel, dataIndex := EmbedPixelLoop(pixel, secretBinary, dataIndex);
        newImgData := newImgData + [newPixel];
      } else {
        newImgData := newImgData + [pixel];
      }
    }
  }

  /**
    The channel loop of stego_hide_message for one pixel, entered with the
    bit index at the pixel's first channel value: each of the three values
    takes the next bit while there is one.
  */
  method EmbedPixelLoop(pixel: Pixel, secretBinary: seq<Bit>, start: nat) returns (newPixel: Pixel, dataIndex: nat)
    ensures newPixel == EmbedPixel(pixel, secretBinary, start)
    ensures dataIndex == if start + 3 < |secretBinary| then start + 3 else if start < |secretBinary| then |secretBinary| else start
  {
    dataIndex := start;
    var channels: seq<byte> := [];
    for i := 0 to 3
      invariant |channels| == i
      invariant dataIndex == if start + i < |secretBinary| then start + i else if start < |secretBinary| then |secretBinary| else start
      invariant forall t :: 0 <= t < i ==> channels[t] == EmbedChannel(Channel(pixel, t), secretBinary, start + t)
    {
      if dataIndex < |secretBinary| {
        var newVal := SetLsb(Channel(pixel, i), secretBinary[dataIndex]);
        channels := channels + [newVal];
        dataIndex := dataIndex + 1;
      } else {
        channels := channels + [Channel(pixel, i)];
      }
    }
    newPixel := Pixel(channels[0], channels[1], channels[2]);
  }

  /* ---------- stego_extract_message ---------- */

  /** The bits text_to_binary gives the delimiter. */
  const DelimiterBits: seq<Bit> := TextBits(Delimiter)

  /** The first `n` bits of the stream end with the bits `delim`. */
  predicate EndsAt(stream: seq<Bit>, n: nat, delim: seq<Bit>) {
    |delim| <= n <= |stream| && stream[n - |delim|..n] == delim
  }

  /** A delimiter end the search accepts: at any bit position, or only after whole characters when `aligned`. */
  predicate Hit(stream: seq<Bit>, n: nat, delim: seq<Bit>, aligned: bool) {
    EndsAt(stream, n, delim) && (aligned ==> n % 8 == 0)
  }

  /** The least stream length, from `start` on, at which the search stops. */
  function FindEnd(stream: seq<Bit>, start: nat, delim: seq<Bit>, aligned: bool): (r: Option<nat>)
    ensures r.Some? ==> start <= r.value <= |stream| && Hit(stream, r.value, delim, aligned)
    ensures r.Some? ==> forall n :: start <= n < r.value ==> !Hit(stream, n, delim, aligned)
    ensures r.None? ==> forall n :: start <= n <= |stream| ==> !Hit(stream, n, delim, aligned)
    decreases |stream| + 1 - start
  {
    if start > |stream| then None
    else if Hit(stream, start, delim, aligned) then Some(start)
    else FindEnd(stream, start + 1, delim, aligned)
  }

  /** The search stops at the first hit. */
  lemma FindEndAt(stream: seq<Bit>, n: nat, delim: seq<Bit>, aligned: bool)
    requires Hit(stream, n, delim, aligned)
    requires forall m :: 0 <= m < n ==> !Hit(stream, m, delim, aligned)
    ensures FindEnd(stream, 0, delim, aligned) == Some(n)
  {
  }

  /** Cutting the stream after position `m` does not change whether it ends with the delimiter at `n <= m`. */
  lemma EndsAtPrefix(stream: seq<Bit>, m: nat, n: nat, delim: seq<Bit>)
    requires n <= m <= |stream|
    ensures EndsAt(stream, n, delim) <==> EndsAt(stream[..m], n, delim)
  {
    if |delim| <= n {
      assert stream[..m][n - |delim|..n] == stream[n - |delim|..n];
    }
  }

  /**
    The text before the first delimiter end the search accepts, or the
    not-found message when the stream holds none; a found text has one
    character per eight bits before the match.
  */
  function ExtractWith(img: seq<Pixel>, delim: seq<Bit>, aligned: bool): (r: string)
    ensures (forall n :: 0 <= n <= |Lsbs(img)| ==> !Hit(Lsbs(img), n, delim, aligned)) ==> r == NotFound
    ensures r != NotFound ==> 8 * |r| <= 3 * |img|
  {
    var stream := Lsbs(img);
    match FindEnd(stream, 0, delim, aligned)
    case None => NotFound
    case Some(n) => DecodeBits(stream[..n - |delim|])
  }

  /** What stego_extract_message returns: the delimiter is looked for after every single bit. */
  function Extract(img: seq<Pixel>): (r: string)
    ensures |img| < 19 ==> r == NotFound
  {
    DelimiterFacts();
    ExtractWith(img, DelimiterBits, false)
  }

  /** Extraction that looks for the delimiter only after whole characters. */
  function ExtractAligned(img: seq<Pixel>): (r: string)
    ensures |img| < 19 ==> r == NotFound
  {
    DelimiterFacts();
    ExtractWith(img, DelimiterBits, true)
  }

  /**
    stego_extract_message as written: grows the bit stream one channel value
    at a time and returns at the first point where it ends with the
    delimiter's bits, decoding what came before them.
  */
  method StegoExtractMessage(img: seq<Pixel>) returns (r: string)
    ensures r == Extract(img)
  {
    var delimiterBinary := TextBits(Delimiter);
    r := ScanForDelimiter(img, delimiterBinary);
  }

  /**
    The pixel loop of stego_extract_message, for the delimiter's bits
    `delimiterBinary`: returns as soon as a pixel's channel loop finds the
    stream ending with them.
  */
  method ScanForDelimiter(img: seq<Pixel>, delimiterBinary: seq<Bit>) returns (r: string)
    requires |delimiterBinary| > 0
    ensures r == ExtractWith(img, delimiterBinary, false)
  {
    var binaryStream: seq<Bit> := [];
    for k := 0 to |img|
      invariant binaryStream == Lsbs(img)[..3 * k]
      invariant Clear(Lsbs(img), 3 * k + 1, delimiterBinary)
    {
      var found;
      ChannelIndex(img, k, 0);
      ChannelIndex(img, k, 1);
      ChannelIndex(img, k, 2);
      found, binaryStream := ScanPixel(img[k], Lsbs(img), k, binaryStream, delimiterBinary);
      if found {
        var messageBinary := binaryStream[..|binaryStream| - |delimiterBinary|];
        r := BinaryToText(messageBinary);
        ExtractAtHit(img, binaryStream, delimiterBinary);
        return;
      }
    }
    NoHitAtAll(Lsbs(img), delimiterBinary);
    return NotFound;
  }

  /** No prefix of the stream shorter than `m` bits ends with the delimiter. */
  predicate Clear(stream: seq<Bit>, m: nat, delim: seq<Bit>) {
    forall n :: 0 <= n < m ==> !Hit(stream, n, delim, false)
  }

  /**
    The channel loop of stego_extract_message for pixel `k`, whose three
    least significant bits are bits `3k` to `3k + 2` of the stream: appends
    one bit per channel value and stops at the first bit after which the
    stream ends with the delimiter.
  */
  method ScanPixel(pixel: Pixel, ghost full: seq<Bit>, ghost k: nat, stream: seq<Bit>, delimiterBinary: seq<Bit>)
    returns (found: bool, binaryStream: seq<Bit>)
    requires 3 * k + 3 <= |full|
    requires full[3 * k] == Lsb(pixel.r) && full[3 * k + 1] == Lsb(pixel.g) && full[3 * k + 2] == Lsb(pixel.b)
    requires stream == full[..3 * k] && Clear(full, 3 * k + 1, delimiterBinary)
    ensures 3 * k < |binaryStream| <= 3 * k + 3 && binaryStream == full[..|binaryStream|]
    ensures found ==> EndsWith(binaryStream, delimiterBinary) && Clear(full, |binaryStream|, delimiterBinary)
    ensures !found ==> |binaryStream| == 3 * k + 3 && Clear(full, 3 * k + 4, delimiterBinary)
  {
    binaryStream := stream;
    for i := 0 to 3
      invariant binaryStream == full[..3 * k + i]
      invariant Clear(full, 3 * k + i + 1, delimiterBinary)
    {
      ghost var before := binaryStream;
      binaryStream := binaryStream + [Lsb(Channel(pixel, i))];
      StreamStep(full, 3 * k + i, before, binaryStream, delimiterBinary);
      if EndsWith(binaryStream, delimiterBinary) {
        return true, binaryStream;
      }
      ClearStep(full, 3 * k + i + 1, delimiterBinary);
    }
    return false, binaryStream;
  }

  /** A prefix that does not end with the delimiter extends the clear part by one bit. */
  lemma ClearStep(stream: seq<Bit>, m: nat, delim: seq<Bit>)
    requires Clear(stream, m, delim) && !Hit(stream, m, delim, false)
    ensures Clear(stream, m + 1, delim)
  {
  }

  /** A stream clear beyond its end has no delimiter end at all. */
  lemma NoHitAtAll(stream: seq<Bit>, delim: seq<Bit>)
    requires Clear(stream, |stream| + 1, delim)
    ensures FindEnd(stream, 0, delim, false) == None
  {
  }

  /** Python's `s.endswith(suffix)`. */
  predicate EndsWith(s: seq<Bit>, suffix: seq<Bit>) {
    |suffix| <= |s| && s[|s| - |suffix|..] == suffix
  }

  /** One more bit of the stream, and whether the longer prefix ends with the delimiter. */
  lemma StreamStep(full: seq<Bit>, m: nat, before: seq<Bit>, after: seq<Bit>, delim: seq<Bit>)
    requires m < |full| && before == full[..m] && after == before + [full[m]]
    ensures after == full[..m + 1]
    ensures EndsWith(after, delim) <==> Hit(full, m + 1, delim, false)
  {
    EndsAtPrefix(full, m + 1, m + 1, delim);
  }

  /** Extraction stops at the first prefix of the stream that ends with the delimiter. */
  lemma ExtractAtHit(img: seq<Pixel>, prefix: seq<Bit>, delim: seq<Bit>)
    requires |prefix| <= |Lsbs(img)| && prefix == Lsbs(img)[..|prefix|]
    requires Clear(Lsbs(img), |prefix|, delim)
    requires EndsWith(prefix, delim)
    ensures ExtractWith(img, delim, false) == DecodeBits(prefix[..|prefix| - |delim|])
  {
    var n := |prefix|;
    EndsAtPrefix(Lsbs(img), n, n, delim);
    FindEndAt(Lsbs(img), n, delim, false);
    assert prefix[..n - |delim|] == Lsbs(img)[..n - |delim|];
  }

  /* ---------- Round trips ---------- */

  /**
    Embedding bits whose first delimiter end the search accepts is at `n`,
    and then extracting, gives back the bits before that delimiter, decoded.
  */
  lemma EmbedExtract(img: seq<Pixel>, bits: seq<Bit>, n: nat, delim: seq<Bit>, aligned: bool)
    requires |bits| <= 3 * |img| && n <= |bits|
    requires Hit(bits, n, delim, aligned)
    requires forall m :: 0 <= m < n ==> !Hit(bits, m, delim, aligned)
    ensures ExtractWith(Embed(img, bits), delim, aligned) == DecodeBits(bits[..n - |delim|])
  {
    var stream := Lsbs(Embed(img, bits));
    EmbedLsbs(img, bits);
    EndsAtPrefix(stream, |bits|, n, delim);
    forall m | 0 <= m < n ensures !Hit(stream, m, delim, aligned) {
      assert !Hit(bits, m, delim, aligned);
      EndsAtPrefix(stream, |bits|, m, delim);
    }
    FindEndAt(stream, n, delim, aligned);
    assert stream[..n - |delim|] == bits[..n - |delim|];
  }

  lemma SingleByteAppend(s: string, t: string)
    requires SingleByte(s) && SingleByte(t)
    ensures SingleByte(s + t)
  {
    forall i | 0 <= i < |s + t| ensures (s + t)[i] as int < 256 {
      if i >= |s| { assert (s + t)[i] == t[i - |s|]; }
    }
  }

  /**
    Hiding `msg` followed by the single-byte delimiter text `pat` and then
    extracting gives `msg` back, when the search first accepts a delimiter
    end at the end of the payload.
  */
  lemma EmbedRoundTrip(img: seq<Pixel>, msg: string, pat: string, aligned: bool)
    requires SingleByte(msg) && SingleByte(pat)
    requires |TextBits(msg + pat)| <= 3 * |img|
    requires forall n :: 0 <= n < |TextBits(msg + pat)| ==> !Hit(TextBits(msg + pat), n, TextBits(pat), aligned)
    ensures ExtractWith(Embed(img, TextBits(msg + pat)), TextBits(pat), aligned) == msg
  {
    var bits := TextBits(msg + pat);
    var delim := TextBits(pat);
    PayloadEnd(msg, pat, aligned);
    EmbedExtract(img, bits, |bits|, delim, aligned);
    DecodeTextBits(msg, []);
    assert TextBits(msg) + [] == TextBits(msg);
  }

  /** The payload bits end with the delimiter's bits, after the message's bits, at a character boundary. */
  lemma PayloadEnd(msg: string, pat: string, aligned: bool)
    requires SingleByte(msg) && SingleByte(pat)
    ensures Hit(TextBits(msg + pat), |TextBits(msg + pat)|, TextBits(pat), aligned)
    ensures TextBits(msg + pat)[..|TextBits(msg + pat)| - |TextBits(pat)|] == TextBits(msg)
  {
    TextBitsAppend(msg, pat);
    AppendParts(TextBits(msg), TextBits(pat));
    SingleByteAppend(msg, pat);
    BitsWholeBytes(msg + pat);
  }

  lemma AppendParts(a: seq<Bit>, b: seq<Bit>)
    ensures (a + b)[|a + b| - |b|..] == b && (a + b)[..|a + b| - |b|] == a
  {
  }

  /** The bits of single-byte text come in whole bytes. */
  lemma BitsWholeBytes(s: string)
    requires SingleByte(s)
    ensures |TextBits(s)| % 8 == 0
  {
    TextBitsLength(s);
    EightDivides(|s|);
  }

  lemma EightDivides(x: nat)
    ensures (8 * x) % 8 == 0 && (8 * x) / 8 == x
  {
  }

  /** The text `s` ends with the delimiter text `pat` at character position `m`. */
  predicate CharsEndAt(s: string, m: nat, pat: string) {
    |pat| <= m <= |s| && s[m - |pat|..m] == pat
  }

  /** `pat` occurs in the text only as its final characters. */
  predicate OnlyAtEnd(s: string, pat: string) {
    forall m :: 0 <= m < |s| ==> !CharsEndAt(s, m, pat)
  }

  /** At a character boundary, the bits end with the delimiter's bits exactly when the characters end with it. */
  lemma AlignedEnd(s: string, m: nat, pat: string)
    requires SingleByte(s) && SingleByte(pat) && m <= |s|
    ensures EndsAt(TextBits(s), 8 * m, TextBits(pat)) <==> CharsEndAt(s, m, pat)
  {
    var k := |pat|;
    TextBitsLength(pat);
    if m >= k {
      TextBitsSlice(s, m - k, m);
      var w := s[m - k..m];
      assert SingleByte(w) by {
        forall i | 0 <= i < k ensures w[i] as int < 256 { assert w[i] == s[m - k + i]; }
      }
      TextBitsInjective(w, pat);
      var lo := 8 * m - |TextBits(pat)|;
      assert lo == 8 * (m - k);
      assert TextBits(s)[lo..8 * m] == TextBits(w);
    } else {
      assert 8 * m < 8 * k;
    }
  }

  /** Single-byte texts with the same bits are the same text. */
  lemma TextBitsInjective(s: string, t: string)
    requires SingleByte(s) && SingleByte(t)
    ensures TextBits(s) == TextBits(t) <==> s == t
  {
    if TextBits(s) == TextBits(t) {
      DecodeTextBits(s, []);
      DecodeTextBits(t, []);
      assert TextBits(s) + [] == TextBits(t) + [];
    }
  }

  /** The first bit of every character of ASCII text is 0. */
  lemma AsciiLeadingZero(s: string, q: nat)
    requires Utf8.IsAscii(s) && q < |s|
    ensures |TextBits(s)| == 8 * |s|
    ensures TextBits(s)[8 * q] == 0
  {
    assert SingleByte(s);
    TextBitsSlice(s, q, q + 1);
    assert s[q..q + 1] == [s[q]];
    assert TextBits([s[q]]) == Format08b(s[q] as int) + TextBits([]);
    assert Pow2(7) == 128;
    ToBitsLeadingZero(s[q] as int, 8);
    assert TextBits(s)[8 * q..8 * q + 8][0] == TextBits(s)[8 * q];
  }

  /** Wherever the delimiter's bits are laid off a byte boundary, one of its 1-bits falls on a byte's first bit. */
  predicate OneAtEveryOffset(delim: seq<Bit>) {
    forall o :: 1 <= o < 8 ==> OneAtOffset(delim, o)
  }

  /** Some 1-bit of the delimiter lands on a byte's first bit when the delimiter starts `o` bits into a byte. */
  predicate OneAtOffset(delim: seq<Bit>, o: nat) {
    exists p :: 0 <= p < |delim| && (o + p) % 8 == 0 && delim[p] == 1
  }

  /** In ASCII text such a delimiter's bits can only end at a character boundary. */
  lemma AsciiNoMisaligned(s: string, n: nat, delim: seq<Bit>)
    requires Utf8.IsAscii(s) && |delim| % 8 == 0 && OneAtEveryOffset(delim)
    requires n % 8 != 0
    ensures !EndsAt(TextBits(s), n, delim)
  {
    var bits := TextBits(s);
    AsciiSingleByte(s);
    TextBitsLength(s);
    if |delim| <= n <= |bits| {
      var w := n - |delim|;
      OffsetOfStart(n, |delim|);
      var p := OnePosition(delim, w % 8);
      var q := ByteOf(w, p);
      AsciiLeadingZero(s, q);
      Differs(bits, n, delim, p);
    }
  }

  /** A position of the delimiter's bits that holds a 1 and lands on a byte's first bit at offset `o`. */
  lemma OnePosition(delim: seq<Bit>, o: nat) returns (p: nat)
    requires 1 <= o < 8 && OneAtEveryOffset(delim)
    ensures p < |delim| && (o + p) % 8 == 0 && delim[p] == 1
  {
    assert OneAtOffset(delim, o);
    p :| 0 <= p < |delim| && (o + p) % 8 == 0 && delim[p] == 1;
  }

  /** Removing a whole number of bytes from the end position leaves the offset within a byte unchanged. */
  lemma OffsetOfStart(n: nat, d: nat)
    requires d <= n && d % 8 == 0 && n % 8 != 0
    ensures 1 <= (n - d) % 8 < 8
  {
    var k := d / 8;
    assert d == 8 * k;
    assert n == (n - d) + 8 * k;
  }

  /** Position `w + p` starts a byte when `p` makes up the offset of `w` to a multiple of eight. */
  lemma ByteOf(w: nat, p: nat) returns (q: nat)
    requires (w % 8 + p) % 8 == 0
    ensures 8 * q == w + p
  {
    var a := w / 8;
    assert w == 8 * a + w % 8;
    var b := (w % 8 + p) / 8;
    assert w % 8 + p == 8 * b;
    q := a + b;
  }

  /**
    Hiding and extracting ASCII text gives it back, at any bit offset the
    search looks, whenever the delimiter occurs in the message followed by
    the delimiter only at its very end.
  */
  lemma AsciiRoundTrip(img: seq<Pixel>, msg: string, pat: string)
    requires Utf8.IsAscii(msg) && Utf8.IsAscii(pat)
    requires |TextBits(msg + pat)| <= 3 * |img|
    requires OneAtEveryOffset(TextBits(pat))
    requires OnlyAtEnd(msg + pat, pat)
    ensures ExtractWith(Embed(img, TextBits(msg + pat)), TextBits(pat), false) == msg
  {
    var t := msg + pat;
    AsciiAppend(msg, pat);
    forall n | 0 <= n < |TextBits(t)| ensures !Hit(TextBits(t), n, TextBits(pat), false) {
      AsciiNoEarlyHit(t, pat, n);
    }
    assert SingleByte(msg) && SingleByte(pat);
    EmbedRoundTrip(img, msg, pat, false);
  }

  lemma AsciiAppend(s: string, t: string)
    requires Utf8.IsAscii(s) && Utf8.IsAscii(t)
    ensures Utf8.IsAscii(s + t)
  {
    forall i | 0 <= i < |s + t| ensures (s + t)[i] as int < 0x80 {
      if i >= |s| { assert (s + t)[i] == t[i - |s|]; }
    }
  }

  /** In ASCII text holding the delimiter only at its end, no delimiter match ends before the last bit. */
  lemma AsciiNoEarlyHit(t: string, pat: string, n: nat)
    requires Utf8.IsAscii(t) && Utf8.IsAscii(pat)
    requires OneAtEveryOffset(TextBits(pat))
    requires OnlyAtEnd(t, pat)
    requires n < |TextBits(t)|
    ensures !Hit(TextBits(t), n, TextBits(pat), false)
  {
    AsciiSingleByte(t);
    AsciiSingleByte(pat);
    if n % 8 != 0 {
      BitsWholeBytes(pat);
      AsciiNoMisaligned(t, n, TextBits(pat));
    } else {
      NoEarlyAlignedHit(t, pat, n);
    }
  }

  lemma AsciiSingleByte(s: string)
    requires Utf8.IsAscii(s)
    ensures SingleByte(s)
  {
  }

  /** In single-byte text holding the delimiter text only at its end, no match at a character boundary ends early. */
  lemma NoEarlyAlignedHit(t: string, pat: string, n: nat)
    requires SingleByte(t) && SingleByte(pat)
    requires OnlyAtEnd(t, pat)
    requires n % 8 == 0 && n < |TextBits(t)|
    ensures !EndsAt(TextBits(t), n, TextBits(pat))
  {
    TextBitsLength(t);
    var m := n / 8;
    assert 8 * m == n && m < |t|;
    AlignedEnd(t, m, pat);
  }

  /** Looking only at character boundaries, every single-byte message that holds the delimiter only at its end comes back. */
  lemma AlignedRoundTrip(img: seq<Pixel>, msg: string, pat: string)
    requires SingleByte(msg) && SingleByte(pat)
    requires |TextBits(msg + pat)| <= 3 * |img|
    requires OnlyAtEnd(msg + pat, pat)
    ensures ExtractWith(Embed(img, TextBits(msg + pat)), TextBits(pat), true) == msg
  {
    var t := msg + pat;
    SingleByteAppend(msg, pat);
    TextBitsLength(t);
    forall n | 0 <= n < |TextBits(t)| ensures !Hit(TextBits(t), n, TextBits(pat), true) {
      if n % 8 == 0 {
        NoEarlyAlignedHit(t, pat, n);
      }
    }
    EmbedRoundTrip(img, msg, pat, true);
  }

  /* ---------- The same properties for the delimiter "::EOF::" ---------- */

  lemma DelimiterFacts()
    ensures Utf8.IsAscii(Delimiter) && SingleByte(Delimiter)
    ensures |DelimiterBits| == 56
  {
    TextBitsLength(Delimiter);
  }

  /**
    Hiding and then extracting gives the message back when it is single-byte
    text and the delimiter's bits end nowhere before the end of the payload.
  */
  lemma HideExtract(img: seq<Pixel>, msg: string)
    requires SingleByte(msg)
    requires Hide(img, msg).Ok?
    requires forall n :: 0 <= n < |PayloadBits(msg)| ==> !EndsAt(PayloadBits(msg), n, DelimiterBits)
    ensures Extract(Hide(img, msg).value) == msg
  {
    DelimiterFacts();
    EmbedRoundTrip(img, msg, Delimiter, false);
  }

  /** With an empty message only the delimiter is hidden, and nineteen pixels are enough for it. */
  lemma HideExtractEmpty(img: seq<Pixel>)
    requires |img| >= 19
    ensures Hide(img, "").Ok?
    ensures Extract(Hide(img, "").value) == ""
  {
    assert "" + Delimiter == Delimiter;
    DelimiterFacts();
    HideExtract(img, "");
  }

  /**
    Hiding and extracting ASCII text gives it back whenever "::EOF::" occurs
    in the message followed by the delimiter only at its very end.
  */
  lemma AsciiHideExtract(img: seq<Pixel>, msg: string)
    requires Utf8.IsAscii(msg)
    requires Hide(img, msg).Ok?
    requires OnlyAtEnd(msg + Delimiter, Delimiter)
    ensures Extract(Hide(img, msg).value) == msg
  {
    DelimiterFacts();
    DelimiterShape(Delimiter);
    ShapeFacts(Delimiter);
    OnesOfDelimiter(TextBits(Delimiter));
    AsciiRoundTrip(img, msg, Delimiter);
  }

  /** The corrected extraction gives back every single-byte message that holds "::EOF::" only at its end. */
  lemma AlignedHideExtract(img: seq<Pixel>, msg: string)
    requires SingleByte(msg)
    requires Hide(img, msg).Ok?
    requires OnlyAtEnd(msg + Delimiter, Delimiter)
    ensures ExtractAligned(Hide(img, msg).value) == msg
  {
    DelimiterFacts();
    AlignedRoundTrip(img, msg, Delimiter);
  }

  /* ---------- What an unaligned delimiter match does ---------- */

  /** Characters `i` of a single-byte text occupy bits `8i` to `8i + 8`. */
  lemma TextBitsGroup(s: string, i: nat)
    requires SingleByte(s) && i < |s|
    ensures |TextBits(s)| == 8 * |s|
    ensures TextBits(s)[8 * i..8 * i + 8] == Format08b(s[i] as int)
  {
    TextBitsSlice(s, i, i + 1);
    assert s[i..i + 1] == [s[i]];
    assert TextBits([s[i]]) == Format08b(s[i] as int) + TextBits([]);
  }

  /** The eight bits of a character below 256 are its big-endian numeral. */
  lemma Format08bOf(b0: Bit, b1: Bit, b2: Bit, b3: Bit, b4: Bit, b5: Bit, b6: Bit, b7: Bit)
    ensures Format08b(128 * b0 + 64 * b1 + 32 * b2 + 16 * b3 + 8 * b4 + 4 * b5 + 2 * b6 + b7)
      == [b0, b1, b2, b3, b4, b5, b6, b7]
  {
    var bits := [b0, b1, b2, b3, b4, b5, b6, b7];
    assert Value([b0]) == b0 by { assert [b0][..0] == []; }
    assert Value([b0, b1]) == 2 * b0 + b1 by { assert [b0, b1][..1] == [b0]; }
    assert Value([b0, b1, b2]) == 4 * b0 + 2 * b1 + b2 by { assert [b0, b1, b2][..2] == [b0, b1]; }
    assert Value(bits[..4]) == 8 * b0 + 4 * b1 + 2 * b2 + b3 by { assert bits[..4][..3] == [b0, b1, b2]; }
    assert Value(bits[..5]) == 2 * Value(bits[..4]) + b4 by { assert bits[..5][..4] == bits[..4]; }
    assert Value(bits[..6]) == 2 * Value(bits[..5]) + b5 by { assert bits[..6][..5] == bits[..5]; }
    assert Value(bits[..7]) == 2 * Value(bits[..6]) + b6 by { assert bits[..7][..6] == bits[..6]; }
    assert Value(bits) == 2 * Value(bits[..7]) + b7;
    assert Pow2(8) == 256;
    ToBitsValue(bits);
  }

  /** The bits of a seven-character text spelled like "::EOF::", one character at a time. */
  lemma DelimiterShape(pat: string)
    requires |pat| == 7
    requires pat[0] == ':' && pat[1] == ':' && pat[2] == 'E' && pat[3] == 'O'
    requires pat[4] == 'F' && pat[5] == ':' && pat[6] == ':'
    ensures |TextBits(pat)| == 56
    ensures TextBits(pat)[0..8] == [0, 0, 1, 1, 1, 0, 1, 0]
    ensures TextBits(pat)[8..16] == [0, 0, 1, 1, 1, 0, 1, 0]
    ensures TextBits(pat)[16..24] == [0, 1, 0, 0, 0, 1, 0, 1]
    ensures TextBits(pat)[24..32] == [0, 1, 0, 0, 1, 1, 1, 1]
    ensures TextBits(pat)[32..40] == [0, 1, 0, 0, 0, 1, 1, 0]
    ensures TextBits(pat)[40..48] == [0, 0, 1, 1, 1, 0, 1, 0]
    ensures TextBits(pat)[48..56] == [0, 0, 1, 1, 1, 0, 1, 0]
  {
    assert SingleByte(pat);
    Format08bOf(0, 0, 1, 1, 1, 0, 1, 0);
    Format08bOf(0, 1, 0, 0, 0, 1, 0, 1);
    Format08bOf(0, 1, 0, 0, 1, 1, 1, 1);
    Format08bOf(0, 1, 0, 0, 0, 1, 1, 0);
    TextBitsGroup(pat, 0);
    TextBitsGroup(pat, 1);
    TextBitsGroup(pat, 2);
    TextBitsGroup(pat, 3);
    TextBitsGroup(pat, 4);
    TextBitsGroup(pat, 5);
    TextBitsGroup(pat, 6);
  }

  /** The individual delimiter bits the arguments below rely on. */
  predicate DelimiterBitFacts(d: seq<Bit>) {
    |d| == 56 && d[1] == 0 && d[2] == 1 && d[3] == 1 && d[9] == 0 && d[18] == 0
    && d[26] == 0 && d[34] == 0 && d[41] == 0 && d[49] == 0
    && d[4] == 1 && d[6] == 1 && d[17] == 1 && d[21] == 1 && d[23] == 1
  }

  lemma ShapeFacts(pat: string)
    requires |TextBits(pat)| == 56
    requires TextBits(pat)[0..8] == [0, 0, 1, 1, 1, 0, 1, 0]
    requires TextBits(pat)[8..16] == [0, 0, 1, 1, 1, 0, 1, 0]
    requires TextBits(pat)[16..24] == [0, 1, 0, 0, 0, 1, 0, 1]
    requires TextBits(pat)[24..32] == [0, 1, 0, 0, 1, 1, 1, 1]
    requires TextBits(pat)[32..40] == [0, 1, 0, 0, 0, 1, 1, 0]
    requires TextBits(pat)[40..48] == [0, 0, 1, 1, 1, 0, 1, 0]
    requires TextBits(pat)[48..56] == [0, 0, 1, 1, 1, 0, 1, 0]
    ensures DelimiterBitFacts(TextBits(pat))
  {
    var d := TextBits(pat);
    assert d[1] == d[0..8][1] && d[2] == d[0..8][2] && d[3] == d[0..8][3];
    assert d[4] == d[0..8][4] && d[6] == d[0..8][6];
    assert d[9] == d[8..16][1];
    assert d[17] == d[16..24][1] && d[18] == d[16..24][2] && d[21] == d[16..24][5] && d[23] == d[16..24][7];
    assert d[26] == d[24..32][2] && d[34] == d[32..40][2];
    assert d[41] == d[40..48][1] && d[49] == d[48..56][1];
  }

  /** The delimiter's 1-bits cover every misaligned offset. */
  lemma OnesOfDelimiter(d: seq<Bit>)
    requires DelimiterBitFacts(d)
    ensures |d| % 8 == 0 && OneAtEveryOffset(d)
  {
    forall o | 1 <= o < 8 ensures OneAtOffset(d, o) {
      var p := if o == 1 then 23 else if o == 2 then 6 else if o == 3 then 21 else if o == 4 then 4
        else if o == 5 then 3 else if o == 6 then 2 else 17;
      assert (o + p) % 8 == 0 && d[p] == 1;
    }
  }

  /** Every group of eight bits decodes to a character below 256. */
  lemma {:induction false} DecodeBitsSingleByte(bits: seq<Bit>)
    ensures SingleByte(DecodeBits(bits))
    decreases |bits|
  {
    if |bits| >= 8 {
      var r := DecodeBits(bits);
      DecodeBitsSingleByte(bits[8..]);
      assert Pow2(8) == 256;
      forall i | 0 <= i < |r| ensures r[i] as int < 256 {
        if i > 0 { assert r[i] == DecodeBits(bits[8..])[i - 1]; }
      }
    }
  }

  /** text_to_binary inverts binary_to_text on whole groups of eight bits. */
  lemma {:induction false} TextBitsDecode(bits: seq<Bit>)
    requires |bits| % 8 == 0
    ensures TextBits(DecodeBits(bits)) == bits
    decreases |bits|
  {
    if |bits| >= 8 {
      var r := DecodeBits(bits);
      var head := bits[..8];
      assert Pow2(8) == 256;
      assert r[0] as int == Value(head);
      assert r[1..] == DecodeBits(bits[8..]);
      ToBitsValue(head);
      assert Format08b(r[0] as int) == head;
      TextBitsDecode(bits[8..]);
      assert bits == head + bits[8..];
    }
  }

  /** One position inside the window where the stream differs from the delimiter rules out a match there. */
  lemma Differs(stream: seq<Bit>, n: nat, delim: seq<Bit>, t: nat)
    requires |delim| <= n <= |stream| && t < |delim|
    requires stream[n - |delim| + t] != delim[t]
    ensures !EndsAt(stream, n, delim)
  {
    assert stream[n - |delim|..n][t] != delim[t];
  }

  /** Seven zero bits: what pads a bit-shifted delimiter out to whole characters. */
  const SevenZeros: seq<Bit> := [0, 0, 0, 0, 0, 0, 0]

  /**
    In the stream 0, the delimiter, seven zeros, the delimiter again, the
    first match at any bit position ends after bit 57, and the first match at
    a character boundary ends the stream.
  */
  lemma ShiftedHits(d: seq<Bit>)
    requires DelimiterBitFacts(d)
    ensures Hit([0] + d + SevenZeros + d, 57, d, false)
    ensures forall m :: 0 <= m < 57 ==> !Hit([0] + d + SevenZeros + d, m, d, false)
    ensures Hit([0] + d + SevenZeros + d, 120, d, true)
    ensures forall m :: 0 <= m < 120 ==> !Hit([0] + d + SevenZeros + d, m, d, true)
  {
    var bits := [0] + d + SevenZeros + d;
    assert |bits| == 120;
    assert forall i :: 1 <= i <= 56 ==> bits[i] == d[i - 1];
    assert forall i :: 57 <= i < 64 ==> bits[i] == 0;
    assert bits[1..57] == d;
    assert bits[64..120] == d;
    Differs(bits, 56, d, 2);
    forall m | 0 <= m < 120 && m % 8 == 0 && 56 <= m ensures !EndsAt(bits, m, d) {
      if m == 56 || m == 64 || m == 96 || m == 104 || m == 112 {
        Differs(bits, m, d, 2);
      } else {
        Differs(bits, m, d, 3);
      }
    }
  }

  /** The eight characters whose bits are a zero bit, the delimiter's bits, then seven zero bits. */
  function ShiftedText(pat: string): (r: string)
    ensures |r| == (|TextBits(pat)| + 8) / 8
  {
    DecodeBits([0] + TextBits(pat) + SevenZeros)
  }

  /**
    Hiding the shifted delimiter text: the search at every bit position
    stops inside the message and returns the empty text, while the search at
    character boundaries returns the message.
  */
  lemma ShiftedRoundTrip(img: seq<Pixel>, pat: string)
    requires DelimiterBitFacts(TextBits(pat))
    requires |img| >= 40
    ensures SingleByte(ShiftedText(pat)) && |ShiftedText(pat)| == 8
    ensures TextBits(ShiftedText(pat) + pat) == [0] + TextBits(pat) + SevenZeros + TextBits(pat)
    ensures ExtractWith(Embed(img, TextBits(ShiftedText(pat) + pat)), TextBits(pat), false) == ""
    ensures ExtractWith(Embed(img, TextBits(ShiftedText(pat) + pat)), TextBits(pat), true) == ShiftedText(pat)
  {
    var d := TextBits(pat);
    var b := [0] + d + SevenZeros;
    var msg := ShiftedText(pat);
    DecodeBitsSingleByte(b);
    TextBitsDecode(b);
    TextBitsAppend(msg, pat);
    var bits := b + d;
    assert bits == [0] + d + SevenZeros + d;
    ShiftedHits(d);
    EmbedExtract(img, bits, 57, d, false);
    assert |bits[..1]| == 1;
    EmbedExtract(img, bits, 120, d, true);
    assert bits[..64] == b;
  }

  /**
    A single-byte message of eight characters that stego_extract_message
    does not give back: the delimiter's bits occur in the payload one bit
    after the start, so extraction stops there and returns the empty text.
    Extraction at character boundaries returns the message.
  */
  lemma MisalignedDelimiter(img: seq<Pixel>)
    requires |img| >= 40
    ensures SingleByte(ShiftedText(Delimiter)) && |ShiftedText(Delimiter)| == 8
    ensures Hide(img, ShiftedText(Delimiter)).Ok?
    ensures Extract(Hide(img, ShiftedText(Delimiter)).value) == ""
    ensures ExtractAligned(Hide(img, ShiftedText(Delimiter)).value) == ShiftedText(Delimiter)
  {
    DelimiterShape(Delimiter);
    ShapeFacts(Delimiter);
    ShiftedRoundTrip(img, Delimiter);
  }

  /* ---------- A payload that starts with the delimiter ---------- */

  /**
    When the message followed by the delimiter text starts with the
    delimiter text, both searches stop right after it and extraction
    returns the empty text.
  */
  lemma LeadingDelimiterLost(img: seq<Pixel>, msg: string, pat: string, aligned: bool)
    requires SingleByte(msg) && SingleByte(pat)
    requires |pat| <= |msg + pat| && (msg + pat)[..|pat|] == pat
    requires |TextBits(msg + pat)| <= 3 * |img|
    ensures ExtractWith(Embed(img, TextBits(msg + pat)), TextBits(pat), aligned) == ""
  {
    var t := msg + pat;
    var bits := TextBits(t);
    var d := TextBits(pat);
    SingleByteAppend(msg, pat);
    TextBitsSlice(t, 0, |pat|);
    assert t[0..|pat|] == pat;
    TextBitsLength(pat);
    BitsWholeBytes(pat);
    assert bits[|d| - |d|..|d|] == d;
    assert Hit(bits, |d|, d, aligned);
    EmbedExtract(img, bits, |d|, d, aligned);
    assert bits[..|d| - |d|] == [];
  }

  /**
    The ASCII message "::EOF", which does not contain the delimiter, is lost:
    its payload "::EOF::EOF::" begins with "::EOF::", so both the search as
    written and the whole-character search return "".
  */
  lemma EofSuffixLost(img: seq<Pixel>)
    requires |img| >= 32
    ensures Hide(img, "::EOF").Ok?
    ensures Extract(Hide(img, "::EOF").value) == ""
    ensures ExtractAligned(Hide(img, "::EOF").value) == ""
  {
    var msg := "::EOF";
    DelimiterFacts();
    assert SingleByte(msg);
    SingleByteAppend(msg, Delimiter);
    TextBitsLength(msg + Delimiter);
    assert |msg + Delimiter| == 12;
    assert (msg + Delimiter)[..7] == Delimiter;
    LeadingDelimiterLost(img, msg, Delimiter, false);
    LeadingDelimiterLost(img, msg, Delimiter, true);
  }
}
