# Layered ciphers, LSB steganography and the message store, in Dafny

This project models the core of a small secure-messaging application. There are two parts.

The ciphers (`crypto.py`):
- a Caesar rotation of ASCII letters;
- a repeating-key XOR over bytes;
- the text "super cipher": Caesar, then UTF-8, then XOR, then base64;
- least-significant-bit steganography over RGB pixels, with the end marker "::EOF::";
- the byte layout of the AES-256-GCM file format: salt, nonce, tag, ciphertext.

The message store (`database.py`): the user and message tables, as an in-memory class with AUTOINCREMENT counters. Its operations are:
- registration, including the uniqueness of usernames;
- the order of the login checks;
- sending a message;
- a user's inbox;
- fetching a message by id;
- listing usernames.

Modules:
- `Wrappers` (wrappers.dfy): Option and Result.
- `Utf8` (utf8.dfy): UTF-8 as in RFC 3629, shortest form, with strict decoding.
- `Base64` (base64.dfy): the alphabet of section 4 of RFC 4648, the padded encoder, and CPython's non-strict `b64decode` state machine.
- `Binary` (binary.dfy): big-endian numerals. This covers `format(n, '08b')` and `int(s, 2)`.
- `TextCipher` (text_cipher.dfy): Caesar, XOR and the super cipher.
- `Stego` (stego.dfy): `text_to_binary`, `binary_to_text`, hiding, and extraction.
- `FileCipher` (file_cipher.dfy): the AES-GCM file layout.
- `MessageStore` (message_store.dfy): the tables and their operations.

Where the source is a loop, the model is a method with that loop. Each such method's postcondition ties its result to a specification function, and the lemmas about that function carry the properties:
- `encrypt_caesar`;
- `encrypt_decrypt_xor`;
- `binary_to_text`;
- `stego_hide_message`;
- `stego_extract_message`.

The nested loops of the two steganography functions are split: the pixel loop is one method, and the channel loop for one pixel is another that it calls. The extraction's early return becomes a flag from the channel loop, and the pixel loop returns on it.

The database functions are methods of a `Database` class over sequence fields.

Where the code does something other than what it evidently intends, the model follows the code:
- `get_message_by_id` takes only an id and does not check the recipient. `MessageStore.Database.GetMessageById` has the same signature, so nothing in the model restricts who may read a payload.
- The steganographic delimiter is meant to be recognised after whole characters, at the end of the message. The code looks for the delimiter's bits after every single bit, so a match may start in the middle of a character. The model follows the code; see "## Findings".
- A message that ends in "::EOF" or "::EOF:", or that contains "::EOF::", is not recovered under either search: the delimiter text then occurs in the payload before its end. `Stego.EofSuffixLost` shows that "::EOF" extracts as "".
- Foreign keys from messages to users are declared but SQLite does not enforce them by default. `SendMessage` therefore accepts any sender and recipient.

Stand-ins for the environment:
- Randomness (`os.urandom`), the clock behind `CURRENT_TIMESTAMP`, bcrypt and the face-recognition network are parameters of the operations that use them.
- A storage failure is a parameter of `MessageStore.Database.SendMessage` and `MessageStore.Database.AddUser`, the two operations whose source catches it.
- PBKDF2-HMAC-SHA256 (section 5.2 of RFC 8018) and AES-GCM (NIST SP 800-38D) are function values in `FileCipher.Primitives`. What the proofs assume about them is the predicate `FileCipher.Correct`. `FileCipher.Transparent` is an instance that satisfies it, which shows that the assumption can be met.

## Model

| member | source | states |
|---|---|---|
| TextCipher.RotateChar | crypto.py:31-36 | lower case maps to lower case and upper case to upper case; every other character is unchanged |
| TextCipher.Rotate | crypto.py:27-38 | the rotated text has the length of the input |
| TextCipher.RotateCompose | crypto.py:27-38 | rotating by `a` and then by `b` is rotating by `a + b`, for all integer shifts, negative ones included (modulo 26) |
| TextCipher.RotateInverse | crypto.py:40-42 | rotating by `s` and then by `-s` gives the text back, in both orders |
| TextCipher.EncryptCaesar | crypto.py:27-38 | the character loop computes the rotation of the whole text |
| TextCipher.DecryptCaesar | crypto.py:40-42 | decryption is rotation by the negated shift, and encrypting its result gives the input back |
| TextCipher.XorByteTwice | crypto.py:51 | XOR of a byte with the same key byte twice restores the byte |
| TextCipher.Xor | crypto.py:44-54 | the output has the length of the data; it fails (ZeroDivisionError) exactly when the data is non-empty and the key is empty |
| TextCipher.XorInvolution | crypto.py:44-54 | applying the same key twice gives the data back |
| TextCipher.EncryptDecryptXor | crypto.py:44-54 | the index loop computes `data[i] ^ key[i mod len(key)]` over the UTF-8 bytes of the key string |
| TextCipher.SuperEncryptText | crypto.py:56-65 | encryption succeeds exactly when the key is non-empty or the plaintext is empty |
| TextCipher.SuperDecryptText | crypto.py:67-81 | a base64 failure, an empty key with non-empty decoded bytes, and XOR output that is not UTF-8 each give "DEKRIPSI GAGAL: Kunci atau format data salah."; otherwise Caesar-encrypting the result with the same shift gives the decoded text |
| TextCipher.SuperRoundTrip | crypto.py:56-81 | super_decrypt_text inverts super_encrypt_text for every text, shift and key with which encryption succeeds |
| TextCipher.HelloExample | crypto.py:56-81 | "HELLO" with shift 3 and key "k" encrypts to "ICMkJDk=", which decrypts back to "HELLO" |
| Utf8.Decode | crypto.py:77 | whatever strict decoding accepts re-encodes to the same bytes |
| Utf8.DecodeEncode | crypto.py:62 | decoding the UTF-8 encoding of any string gives the string back |
| Utf8.EncodeAscii | crypto.py:62 | ASCII text encodes to one byte per character, equal to its code point |
| Base64.Encode | crypto.py:65 | the encoding has 4 characters per started group of 3 bytes and is ASCII |
| Base64.SextetRoundTrip | crypto.py:65-71 | reading an alphabet character back gives its 6-bit value |
| Base64.RunEncode | crypto.py:71 | the decoding loop over an encoding appends exactly the encoded bytes |
| Base64.Run | crypto.py:71 | the decoding loop only appends to its output, and from quad position q it emits at most (3 * characters + (4 - q) mod 4) / 4 bytes |
| Base64.Decode | crypto.py:71 | non-strict b64decode yields at most three bytes for every four input characters |
| Base64.DecodeEncode | crypto.py:65-71 | b64decode of the bytes of b64encode is the identity |
| Binary.Value | crypto.py:97 | `int(s, 2)` of `n` digits is below 2^n |
| Binary.ValueToBits | crypto.py:88 | `w` digits write every number below 2^w exactly |
| Binary.ToBitsValue | crypto.py:88-97 | writing the value of a digit string at its own width gives the string back |
| Binary.Width | crypto.py:88 | `format(n, '08b')` has 8 digits exactly when n < 256, and more otherwise |
| Binary.Format08b | crypto.py:88 | the digits have that width and read back as `n` |
| Stego.TextBits | crypto.py:86-88 | text_to_binary gives at least 8 bits per character |
| Stego.TextBitsAppend | crypto.py:86-88 | the bits of a concatenation are the concatenated bits |
| Stego.TextBitsLength | crypto.py:86-88 | text whose code points are all below 256 takes exactly 8 bits per character |
| Stego.TextBitsSlice | crypto.py:86-88 | in such text, characters a to b sit at bits 8a to 8b |
| Stego.DecodeBits | crypto.py:90-100 | binary_to_text gives one character per complete group of 8 bits |
| Stego.DecodeTextBits | crypto.py:86-100 | binary_to_text inverts text_to_binary on single-byte text, and ignores a trailing group of fewer than 8 bits |
| Stego.TextBitsDecode | crypto.py:86-100 | text_to_binary inverts binary_to_text on whole groups of 8 bits |
| Stego.DecodeBitsSingleByte | crypto.py:97 | every decoded character is below 256 |
| Stego.BinaryToText | crypto.py:90-100 | the stride-8 loop computes DecodeBits |
| Stego.SetLsb | crypto.py:122 | clearing the low bit with `& 0xFE` and then setting it to `bit` keeps the seven high bits and leaves `bit` as the low bit |
| Stego.Embed | crypto.py:111-129 | the embedded image has as many pixels as the input |
| Stego.EmbedChannels | crypto.py:115-129 | channel value j (R, G, B of each pixel in turn) becomes `v & 0xFE` with `bits[j]` as its low bit, for j below the payload length; every later value is copied |
| Stego.EmbedLsbs | crypto.py:119-124 | the first payload-length low bits of the result are the payload |
| Stego.Hide | crypto.py:102-143 | hiding fails with the "Gambar terlalu kecil" error exactly when 3 * pixels < bits of message + "::EOF::"; it never truncates; on success the pixel count is kept |
| Stego.StegoHideMessage | crypto.py:108-132 | the pixel loop with its running bit index computes Hide |
| Stego.EmbedLoop | crypto.py:111-129 | the pixel loop writes Embed of the payload bits, and its bit index ends at the number of bits that fit: the payload length or 3 * pixels, whichever is smaller |
| Stego.EmbedPixelLoop | crypto.py:116-127 | the channel loop of one pixel rewrites each channel value that still has a bit and copies the rest, moving the bit index up to three places but never past the payload |
| Stego.ExtractWith | crypto.py:154-167 | with no delimiter end in the image's low bits the result is "Pesan tidak ditemukan atau delimiter rusak."; a found text has at most one character per eight low bits |
| Stego.Extract | crypto.py:146-167 | stego_extract_message's result; an image of fewer than 19 pixels cannot hold the 56 delimiter bits and gives the not-found text |
| Stego.ExtractAligned | crypto.py:154-167 | the corrected extraction, which accepts a delimiter end only after a whole character; below 19 pixels it also gives the not-found text |
| Stego.FindEnd | crypto.py:156-165 | the search stops at the least stream length at which the stream ends with the delimiter bits; None means no such length exists |
| Stego.StegoExtractMessage | crypto.py:146-167 | the nested loop with its early return computes Extract: the bits before the first delimiter match at any bit position, decoded, or "Pesan tidak ditemukan atau delimiter rusak." |
| Stego.ScanForDelimiter | crypto.py:154-167 | the extraction loop computes the same result for any non-empty delimiter bit string |
| Stego.ScanPixel | crypto.py:157-165 | the channel loop of one pixel extends the stream by one low bit per channel value and stops at the first length at which it ends with the delimiter bits, with no shorter match before it; without a match it has read all three bits |
| Stego.StreamStep | crypto.py:159-162 | after each channel the accumulated stream is the prefix of the image's low bits, and `endswith` is a match at that length |
| Stego.NoHitAtAll | crypto.py:167 | a stream in which no prefix ends with the delimiter bits leaves the search with nothing found |
| Stego.ExtractAtHit | crypto.py:162-165 | the first prefix ending with the delimiter bits is the one extraction decodes, minus the delimiter |
| Stego.EmbedExtract | crypto.py:102-167 | extracting from an embedded payload decodes the bits before the payload's first delimiter match |
| Stego.EmbedRoundTrip | crypto.py:102-167 | hiding then extracting gives a single-byte message back when the delimiter bits end nowhere earlier than the end of the payload |
| Stego.HideExtract | crypto.py:102-167 | the same, stated for Hide and Extract with "::EOF::" |
| Stego.HideExtractEmpty | crypto.py:102-167 | with 19 or more pixels the empty message is hidden and extracted as "" |
| Stego.TextBitsInjective | crypto.py:86-88 | two single-byte texts have the same text_to_binary bits exactly when they are the same text |
| Stego.AlignedEnd | crypto.py:86-88 | at a character boundary the bits end with the delimiter's bits exactly when the characters end with the delimiter |
| Stego.AsciiNoMisaligned | crypto.py:162 | in ASCII text no delimiter whose 1-bits cover every bit offset can match off a character boundary |
| Stego.AsciiRoundTrip | crypto.py:102-167 | for ASCII messages m such that m followed by the delimiter text holds the delimiter text only at its end, hiding then extracting gives m back |
| Stego.OnesOfDelimiter | crypto.py:151-152 | the bits of "::EOF::" have a 1 at every offset modulo 8 |
| Stego.DelimiterShape | crypto.py:151-152 | the bits of "::EOF::", character by character |
| Stego.AsciiHideExtract | crypto.py:102-167 | extract(hide(img, m)) == m for every ASCII message m such that m + "::EOF::" holds "::EOF::" only at its end: m neither contains "::EOF::" nor ends in "::EOF" or "::EOF:" |
| Stego.AlignedRoundTrip | crypto.py:156-165 | the search at character boundaries gives back every single-byte message m such that m followed by the delimiter text holds the delimiter text only at its end |
| Stego.AlignedHideExtract | crypto.py:156-165 | the same for Hide and "::EOF::": every single-byte m for which m + "::EOF::" holds "::EOF::" only at its end comes back |
| Stego.ShiftedHits | crypto.py:156-165 | in the shifted stream the first match at any bit position ends at bit 57, and the first match at a character boundary ends at bit 120 |
| Stego.ShiftedRoundTrip | crypto.py:156-165 | the shifted text: extraction at every bit position returns "", extraction at character boundaries returns the text |
| Stego.MisalignedDelimiter | crypto.py:156-165 | an 8-character single-byte message that hides successfully in 40 pixels but extracts as "" |
| Stego.LeadingDelimiterLost | crypto.py:156-165 | when the message followed by the delimiter text starts with the delimiter text, either search stops after it and extraction gives "" |
| Stego.EofSuffixLost | crypto.py:102-167 | the ASCII message "::EOF" hides in 32 pixels and extracts as "" under the search as written and under the whole-character search |
| FileCipher.DeriveKey | crypto.py:174-183 | the key is PBKDF2 with SHA-256, length 32 and 100000 iterations over the UTF-8 bytes of the password, so it has 32 bytes |
| FileCipher.Encrypt | crypto.py:185-209 | the file starts with the 16-byte salt and then the 12-byte nonce, and has 44 + plaintext-length bytes |
| FileCipher.Split | crypto.py:214-220 | the slices [0:16], [16:28], [28:44] and [44:] concatenate back to the file; the tag has 16 bytes exactly when the file has at least 44 bytes |
| FileCipher.SplitJoin | crypto.py:204-220 | slicing recovers exactly the salt, nonce, tag and ciphertext that were concatenated |
| FileCipher.Decrypt | crypto.py:212-232 | a file shorter than 44 bytes always fails, before authentication |
| FileCipher.DecryptEncrypt | crypto.py:185-228 | decrypting with the password a file was encrypted with gives the data back |
| FileCipher.DecryptSound | crypto.py:212-228 | every file that decrypts is the encryption of its result under that password and its own salt and nonce |
| FileCipher.DecryptedEncryptedName | app.py:420-428 | the ".enc" name of an encrypted file is turned back into the original name |
| FileCipher.DecryptedName | app.py:425-428 | a name ending in ".enc" loses that suffix; any other name gets "decrypted_" in front |
| MessageStore.Blob | database.py:222-225 | text is stored as its UTF-8 bytes, and these decode back to the text; bytes are stored as they are |
| MessageStore.Inbox | database.py:246-251 | only the rows for that recipient are selected, so there are no more entries than rows |
| MessageStore.InboxMembers | database.py:246-251 | a summary is in the inbox exactly when some row addressed to the user projects to it |
| MessageStore.InboxAppend | database.py:227-251 | a new message joins the end of its recipient's inbox and no other inbox |
| MessageStore.SortNewest | database.py:247 | `ORDER BY timestamp DESC` gives the same entries in non-increasing timestamp order |
| MessageStore.Lookup | database.py:259-263 | None exactly when no row has the id; otherwise the sender, type, payload and file name of a row with that id |
| MessageStore.LookupAppend | database.py:227-263 | after an insert under a new id, that id finds the new row and every other id finds what it found before |
| MessageStore.Usernames | database.py:204-210 | at most one name per user row |
| MessageStore.UsernamesMembers | database.py:200-212 | a name is listed exactly when some user has it and it is not a truthy `exclude_user` |
| MessageStore.FindUser | database.py:182-185 | None exactly when no user has the name; otherwise a row with that name |
| MessageStore.UsersAppend | database.py:165-167 | adding a user under the next id and an unused name keeps user ids increasing and usernames unique |
| MessageStore.MessageIdsAppend | database.py:227-234 | adding a message under the next id keeps message ids increasing |
| MessageStore.FindUserUnique | database.py:182-185 | with unique usernames, the lookup finds the only row with that name |
| MessageStore.Database.constructor | database.py:114-148 | both tables start empty |
| MessageStore.Database.SendMessage | database.py:214-238 | on success, exactly one row is appended: a fresh id above every earlier id, is_read 0, the stored blob, and "Pesan berhasil terkirim." is returned; on a storage error nothing changes and "Gagal mengirim pesan: " + the error is returned |
| MessageStore.Database.GetMessagesForUser | database.py:240-253 | exactly the summaries (no payload) of the messages addressed to the user, newest first |
| MessageStore.Database.GetMessageById | database.py:255-265 | the stored fields of the row with that id, or None, for any caller, with nothing changed |
| MessageStore.Database.GetAllUsernames | database.py:200-212 | the usernames, without `exclude_user` when it is truthy |
| MessageStore.Database.AddUser | database.py:151-173 | the checks in order: incomplete data, no face found, storage error, duplicate username ("Username '<u>' sudah ada."), and then registration; only registration adds a row (under the next id), and a refused username leaves the table unchanged |
| MessageStore.Database.VerifyUser | database.py:176-196 | the checks in order (incomplete input, unknown user, wrong password, face mismatch), each with its own message; login succeeds exactly when the input is complete and the user exists, the password verifies and the face matches |

## Left out

- PNG decoding and encoding (PIL `Image.open`, `convert('RGB')`, `save`) are outside the model. An image is its sequence of RGB pixels, and Hide and Extract work on decoded pixels.
- The "Error ekstraksi: ..." result of stego_extract_message comes only from a failed image decoding, so it is not modelled.
- The other ValueError wrappings in stego_hide_message are not modelled either, for the same reason; only the too-small error is represented.
- The `print(f"Error dekripsi: {e}")` of super_decrypt_text is console output and is not modelled; only the returned failure text is.
- The `except ValueError` in binary_to_text is not modelled, because `int(segment, 2)` of eight binary digits never raises.
- PBKDF2 and AES-GCM are parameters described by `FileCipher.Correct`, not implementations. Cipher strength and key secrecy are not modelled.
- The salt and nonce are arguments instead of `os.urandom` outputs.
- FileCipher.Decrypt: it returns the reason for a failure rather than the raised message. That message embeds the library's own error text.
- FileCipher.Encrypt: no error path is modelled. With a 32-byte key and a 12-byte nonce, the library raises nothing there.
- The GCM parameter checks in FileCipher.Decrypt follow the cryptography library: a nonce of at least 8 bytes and a tag of at least 16 bytes.
- bcrypt and face comparison are boolean oracle parameters. The face network's output for registration is the `faceJson` argument. Floating-point cosine similarity, OpenCV and `get_face_encoding` are not modelled.
- SQLite connections and transactions are not modelled. A storage error is an optional error argument of SendMessage and AddUser only; in AddUser it is checked before the uniqueness constraint.
- VerifyUser, GetAllUsernames, GetMessagesForUser and GetMessageById always return: their source has no `try`, so a failing `connect` or `execute` raises `sqlite3.Error` to the caller, and that uncaught exception is not modelled.
- NULL values in NOT NULL columns are not modelled, because every argument has a non-null type.
- `CURRENT_TIMESTAMP` is the `now` argument.
- MessageStore.SortNewest: rows with equal timestamps come in no promised order, since `ORDER BY timestamp DESC` leaves that order to SQLite. The model fixes one order, and the contracts promise none.
- MessageStore.Usernames: without ORDER BY, SQLite's row order is not promised; the model uses table order.
- The application layers (app.py, main.py, auth.py, models.py, client_face_auth.py) are not part of this model, except the file-name helper of app.py.
- As in Python, a `str` holds code points, and Dafny's `char` excludes surrogates. So lone surrogates, which Python's UTF-8 encoder rejects, cannot occur in the model.
- Base64.Decode follows the CPython 3.11+ non-strict decoder. Some older CPython versions differ on misplaced '=' characters.

## Findings

| source | as written | input that shows it | evidently intended | confidence | as-written member | corrected member |
|---|---|---|---|---|---|---|
| crypto.py:156-165 | extraction tests `binary_stream.endswith(delimiter_binary)` after every single bit, so the delimiter's bits can match across character boundaries inside the message | the eight-character message whose bits are 0, the bits of "::EOF::", then 0000000; it hides in 40 pixels, and the first match ends at bit 57, so extraction returns "" | the delimiter is recognised only after whole characters, and the message comes back | medium: the message consists of control and Latin-1 characters; ASCII messages never meet a misaligned match (Stego.AsciiHideExtract); not executed | Stego.MisalignedDelimiter | Stego.AlignedHideExtract |
