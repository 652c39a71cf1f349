# GsZip archive engine, modelled in Dafny

GsZip is a small Java library that reads and writes ZIP archives (the
PKWARE APPNOTE.TXT format). It supports stored and DEFLATE entries and the
traditional PKWARE encryption. This project models the library's archive
engine and proves properties of the model:

- `pkware.dfy` (module `PKWare`): the traditional PKWARE stream cipher of
  section 6.1 of APPNOTE.TXT. It covers the CRC-32 table, the three key
  registers, `update` and `cryptByte`, the byte-sequence view of encryption
  and decryption with the round trips between them, and whole-buffer
  CRC-32 defined from the same table.
- `streams.dfy` (module `Streams`): the base stream `GsZipInputStream` and
  its closed flag, the file range view `SubInputStream` (the same as libzip
  `SubStream`), and the libzip `util.GsZipSubStream` with its strict end
  check, `resetSize` and `skip`.
- `crypto_streams.dfy` (module `CryptoStreams`): the encrypting and
  decrypting streams, which are restartable, and the one-shot variants of
  the older revisions.
- `entry_header.dfy` (module `Headers`): the local and central file headers
  of APPNOTE sections 4.3.7 and 4.3.12. It covers the byte codec, `byteSize`,
  `matchLocal`, the encryption flags, the check bytes, MS-DOS date and time,
  and file-name resolution through the Info-ZIP Unicode Path extra field.
- `central_dir_end.dfy` (module `Eocd`): the end-of-central-directory
  record of section 4.3.16 and its three revisions.
- `entry.dfy` (module `Entries`): the entry view `GsZipEntry`.
- `entry_tree.dfy` (module `EntryTree`): the path trie `GsZipEntryNode`.
- `zip_util.dfy` (module `ZipUtil`): path normalisation, the parent path,
  and the stream length and CRC passes.
- `zip_file.dfy` (module `Reader`): the reader `GsZipFile`. It covers the
  backward scan for the end record, the directory parse, entry lookup and
  the checks that choose how an entry's data is decoded.
- `legacy_zip_file.dfy` (module `LegacyReader`): the libzip `GsZipFile`.
- `packer.dfy` and `packer_object.dfy` (modules `Packer` and
  `PackerObject`): the writer `GsZipPacker`. It covers the ordered entry
  queue, the parent-folder rule, compression and encryption of each entry,
  the two output loops and the end record.
- `packed_open.dfy` (module `PackedOpen`): what the packer writes is what
  the reader opens.
- `common.dfy` (module `ZipCommon`): the error kinds, the `Result` and
  `Outcome` wrappers, `GsZipUtil.check`, little-endian fields and Java's
  signed views of them.

The newest revision (`gszip/src/main/java/com/geansea/zip/`) is the model of
each component. The older revisions (`libzip/src/main/java/com/geansea/zip/`,
its `util/` package, and `gszip/src/main/java/com/geansea/gszip/util/`) are
written as variants of it: a separate class, a revision parameter, or a
function beside the newest one. Each row below names the revision it cites.

Java `int`, `short` and `byte` fields are the newtypes `u32`, `u16` and
`byte`. The cipher's arithmetic is done on `bv32`. Java's signed readings of
the fields are the explicit functions `Signed8`, `Signed16` and `Signed32`.
A file's contents is a `seq<byte>`, and an output stream is the sequence of
bytes written to it. Every thrown exception is an `Err` or `Fail` value whose
error kind names it. Where a caller catches it, the model does the same.
`packTo` catches only some errors, and it ends with `Threw(kind)` for the
ones that escape it.

## Model

| member | source | states |
|---|---|---|
| PKWare.TableEntry | gszip/src/main/java/com/geansea/zip/PKWareKey.java:15-24 | The inner loop of the static initialiser yields entry i of the table: i put through eight reflected steps, each a right shift that XORs 0xEDB88320 in when the low bit was 1. |
| PKWare.BuildCrcTable | gszip/src/main/java/com/geansea/zip/PKWareKey.java:14-26 | The table has 256 entries, and entry i is `CrcTable(i)`, the eight-step reflected CRC of i. In libzip util `GsZipPKWareKey.java`, lines 11 to 23: The older key builds the same table, by the same construction. |
| PKWare.PKWareKey.constructor | gszip/src/main/java/com/geansea/zip/PKWareKey.java:32-34 | A new key holds the registers 0x12345678, 0x23456789, 0x34567890, and its cipher is the PKWARE update and keystream byte. In libzip util `GsZipPKWareKey.java`, lines 29 to 33: The older key, which has no reset, starts from the same three register values. |
| PKWare.PKWareKey.Reset | gszip/src/main/java/com/geansea/zip/PKWareKey.java:36-40 | After reset the registers are the initial constants, whatever updates came before. |
| PKWare.PKWareKey.Update | gszip/src/main/java/com/geansea/zip/PKWareKey.java:42-55 | The new registers are `UpdateKeys` of the old ones: key0 takes the CRC step with c, key1 := (key1 + (key0 & 0xFF)) * 134775813 + 1 mod 2^32, and key2 takes the CRC step with key1 >>> 24. Each step uses the value just computed. In libzip util `GsZipPKWareKey.java`, lines 35 to 43: The older key updates its registers in the same three steps. |
| PKWare.PKWareKey.CryptByte | gszip/src/main/java/com/geansea/zip/PKWareKey.java:48-51 | Returns bits 8..15 of t * (t ^ 1), where t = key2 \|2, and changes no register. In libzip util `GsZipPKWareKey.java`, lines 45 to 48: The older key returns the same keystream byte, and it changes no state either. |
| PKWare.RunAppend | gszip/src/main/java/com/geansea/zip/PKWareKey.java:36-46 | Updating with a + b is updating with a and then with b. So after reset the registers depend only on the sequence of bytes passed to update. |
| PKWare.EncryptAppend | gszip/src/main/java/com/geansea/zip/PKWareEncryptInputStream.java:59-67 | Encrypting a + b is encrypting a and then encrypting b under the registers a left. So the bytes can be encrypted in pieces, one read at a time. |
| PKWare.DecryptAppend | gszip/src/main/java/com/geansea/zip/PKWareDecryptInputStream.java:39-50 | Decrypting a + b is decrypting a and then decrypting b under the registers left by a's plaintext. |
| PKWare.EncryptSlice | gszip/src/main/java/com/geansea/zip/PKWareEncryptInputStream.java:59-67 | Bytes i..j of an encryption are the encryption of input bytes i..j under the registers that the first i plaintext bytes leave. |
| PKWare.DecryptSlice | gszip/src/main/java/com/geansea/zip/PKWareDecryptInputStream.java:42-48 | Bytes i..j of a decryption are the decryption of bytes i..j under the registers that the first i decrypted bytes leave. |
| PKWare.EncryptIndex | gszip/src/main/java/com/geansea/zip/PKWareEncryptInputStream.java:62-65 | Output byte i is input byte i XOR the keystream byte of the registers after the first i input bytes. The registers then advance with the plaintext byte. |
| PKWare.DecryptIndex | gszip/src/main/java/com/geansea/zip/PKWareDecryptInputStream.java:44-47 | Output byte i is input byte i XOR the keystream byte. The registers then advance with the decrypted byte, not the ciphertext byte. |
| PKWare.DecryptEncrypt | gszip/src/main/java/com/geansea/zip/PKWareDecryptInputStream.java:39-50 | Decryption from the same registers undoes encryption, for every cipher and every input. |
| PKWare.EncryptDecrypt | gszip/src/main/java/com/geansea/zip/PKWareEncryptInputStream.java:50-67 | Encryption from the same registers undoes decryption. |
| PKWare.DecryptEncryptKeys | gszip/src/main/java/com/geansea/zip/PKWareDecryptInputStream.java:39-50 | A one-line corollary of `DecryptEncrypt`: after decrypting an encryption, the decryptor's registers equal the encryptor's. |
| PKWare.CrcRunAppend | gszip/src/main/java/com/geansea/zip/GsZipUtil.java:35-44 | The CRC-32 register after a + b is the register after b, started from the register a left. So feeding the CRC chunk by chunk gives the whole-buffer value. |
| Streams.CopyInto | gszip/src/main/java/com/geansea/zip/SubInputStream.java:58-61 | Copies `count` file bytes from position `from` into the buffer at `off`, and leaves every other buffer cell unchanged. |
| Streams.ZipInputStream.constructor | gszip/src/main/java/com/geansea/zip/GsZipInputStream.java:11-12 | A new stream is open. |
| Streams.ZipInputStream.Close | gszip/src/main/java/com/geansea/zip/GsZipInputStream.java:27-31 | After close the stream is closed. |
| Streams.ZipInputStream.EnsureOpen | gszip/src/main/java/com/geansea/zip/GsZipInputStream.java:41-45 | Passes exactly when the stream is open. Otherwise it fails with "Stream closed". |
| Streams.ZipInputStream.Read | gszip/src/main/java/com/geansea/zip/GsZipInputStream.java:22-25 | The base bulk read always fails, with "should be overridden". |
| Streams.ZipInputStream.ReadByte | gszip/src/main/java/com/geansea/zip/GsZipInputStream.java:14-20 | The base single-byte read fails with "Stream closed" on a closed stream, and otherwise with the failure of the bulk read. |
| Streams.ZipInputStream.Restart | gszip/src/main/java/com/geansea/zip/GsZipInputStream.java:37-39 | The base restart always fails with "Restart is not supported". |
| Streams.SubInputStream.Create | gszip/src/main/java/com/geansea/zip/SubInputStream.java:19-28 | Construction succeeds exactly when start <= end <= file length. The first failed check names the error. A new view is open and positioned at start. In libzip `SubStream.java`, lines 19 to 30: libzip `SubStream` makes the same two checks in the same order. |
| Streams.SubInputStream.CreateFrom | gszip/src/main/java/com/geansea/zip/SubInputStream.java:30-32 | The one-offset form ends the view at the file length. It succeeds exactly when start <= length. |
| Streams.SubInputStream.Close | gszip/src/main/java/com/geansea/zip/GsZipInputStream.java:27-31 | Closing sets the closed flag and leaves the cursor in place. |
| Streams.SubInputStream.Available | gszip/src/main/java/com/geansea/zip/SubInputStream.java:34-38 | On an open view the result is 1 exactly when offset < end, and 0 exactly at the end. On a closed view it is "Stream closed". |
| Streams.SubInputStream.Read | gszip/src/main/java/com/geansea/zip/SubInputStream.java:48-68 | A closed view fails, and a read with len 0 returns 0. Otherwise the count is min(len, `Span()`), where `Span()` is Java's `(int)(end - offset)`: the distance to the end cast to an int. A negative count makes the file read throw (IndexOutOfRange). A count of 0 returns -1 and touches nothing. A positive count copies exactly those file bytes into the buffer at `off`, leaves the rest of the buffer alone, advances the cursor by the count and lowers `Span()` by it. In libzip `SubStream.java`, lines 51 to 73: libzip `SubStream.read` has the same cast at line 62 and behaves the same way. |
| Streams.SubInputStream.Deliver | gszip/src/main/java/com/geansea/zip/SubInputStream.java:58-64 | A positive count no larger than `Span()` copies exactly that many file bytes from the cursor into the buffer at `off`, leaves the rest of the buffer alone, advances the cursor by the count and lowers `Span()` by it. |
| Streams.SubInputStream.Remaining | gszip/src/main/java/com/geansea/zip/SubInputStream.java:54-57 | What reads from the cursor deliver before the end: below 2 GiB from the end, exactly the file bytes from the cursor to the end. |
| Streams.SubInputStream.FromStart | gszip/src/main/java/com/geansea/zip/SubInputStream.java:70-74 | What reads deliver after a restart: the whole range when it is below 2 GiB. |
| Streams.SubInputStream.SpanOnTrack | gszip/src/main/java/com/geansea/zip/SubInputStream.java:57 | With the cursor where reads from the start leave it, the int-cast count `(int)(end - offset)` is negative exactly for an overlong range, and otherwise is what is left of the bytes delivered from the start. |
| Streams.SubInputStream.RemainingMoved | gszip/src/main/java/com/geansea/zip/SubInputStream.java:57-64 | Reads that move the cursor by no more than the int-cast count leave what was left less the bytes they delivered, and lower that count by as many. |
| Streams.SubInputStream.ReadByte | gszip/src/main/java/com/geansea/zip/SubInputStream.java:40-46 | A one-byte `read`: a closed view fails, a negative `Span()` fails with IndexOutOfRange, a zero `Span()` returns -1 and stays put, and otherwise it returns the next file byte as 0..255 and advances one place. |
| Streams.SubInputStream.Restart | gszip/src/main/java/com/geansea/zip/SubInputStream.java:70-74 | On an open view the cursor goes back to start, so the bytes still to come are exactly file[start..end]. A closed view fails and keeps its cursor. |
| Streams.UnsignedByteAtEnds | libzip/src/main/java/com/geansea/zip/SubStream.java:43-49 | An unsigned single-byte read is -1 exactly past the end. Otherwise it is the byte, in 0..255. |
| Streams.LegacySubStream.Create | libzip/src/main/java/com/geansea/zip/util/GsZipSubStream.java:18-26 | For int offsets, construction succeeds exactly when offset < endOffset < file length, both strict. It fails with "Error length" and then with "Error end offset". |
| Streams.LegacySubStream.CreateFrom | libzip/src/main/java/com/geansea/zip/util/GsZipSubStream.java:28-30 | The one-offset form passes `(int) file.length()` as the end. The strict check therefore rejects every file shorter than 2^31 bytes. |
| Streams.LegacySubStream.ResetSize | libzip/src/main/java/com/geansea/zip/util/GsZipSubStream.java:32-35 | The end moves to the int sum offset + size before it is checked, so a failed call still moves it. The call passes exactly when the new end is below the file length, and otherwise fails with "Error end offset". |
| Streams.LegacySubStream.Available | libzip/src/main/java/com/geansea/zip/util/GsZipSubStream.java:37-40 | 1 exactly when offset < endOffset, and 0 otherwise, also when a skip has left the cursor past the end. |
| Streams.LegacySubStream.Read | libzip/src/main/java/com/geansea/zip/util/GsZipSubStream.java:49-62 | A negative cursor fails at the seek, and a negative clamped count min(len, endOffset - offset) fails at the file read. Otherwise the call copies the file bytes up to that count and advances by the count as an int. It returns -1 whenever nothing is read, which includes a read of length 0 and a cursor at or past the file's end. Inside the range this is min(len, endOffset - offset). |
| Streams.LegacySubStream.ReadByte | libzip/src/main/java/com/geansea/zip/util/GsZipSubStream.java:42-47 | Returns the byte sign-extended, so -1 comes back both at the end and for a 0xFF byte. A failing bulk read fails this read too. |
| Streams.LegacySubStream.Skip | libzip/src/main/java/com/geansea/zip/util/GsZipSubStream.java:64-69 | For any long n, the count is min(n, endOffset - offset), and the cursor moves by it as an int, unchecked, and the count is returned. Inside the range a count n >= 0 stops at the end. A negative n moves the cursor back by n, even below 0, after which a read fails at the seek. |
| Streams.SignedByteAtLosesFF | libzip/src/main/java/com/geansea/zip/util/GsZipSubStream.java:42-47 | A signed single-byte read is -1 exactly at the end or on a 0xFF byte. So the byte 0xFF cannot be told apart from the end of the stream. |
| CryptoStreams.Feed | gszip/src/main/java/com/geansea/zip/PKWareEncryptInputStream.java:82-85 | Feeding the password leaves the registers that result from running the cipher over it. |
| CryptoStreams.EncryptAt | gszip/src/main/java/com/geansea/zip/PKWareEncryptInputStream.java:61-65 | One cell is XORed with the keystream byte, and the key then advances with the plaintext byte. No other cell changes. |
| CryptoStreams.DecryptAt | gszip/src/main/java/com/geansea/zip/PKWareDecryptInputStream.java:44-47 | One cell is XORed with the keystream byte, and the key then advances with the decrypted byte. No other cell changes. |
| CryptoStreams.EncryptInPlace | gszip/src/main/java/com/geansea/zip/PKWareEncryptInputStream.java:59-66 | The loop over the bytes just read leaves each of them equal to the matching byte of the whole-stream encryption, and leaves the key where the whole encryption is at that point. No cell outside the range changes. |
| CryptoStreams.DecryptInPlace | gszip/src/main/java/com/geansea/zip/PKWareDecryptInputStream.java:42-48 | The loop leaves each byte just read equal to the matching byte of the whole-stream decryption, and leaves the key where that decryption is. |
| CryptoStreams.HeaderFirst | gszip/src/main/java/com/geansea/zip/PKWareEncryptInputStream.java:53-67 | The first 12 encrypted bytes depend on the header alone. After them the registers are those left by the header, whatever body follows. |
| CryptoStreams.PKWareEncryptInputStream.Init | gszip/src/main/java/com/geansea/zip/PKWareEncryptInputStream.java:23-36 | The plaintext header is the 11 random bytes followed by the check byte. The new stream is open, at position 0, with a fresh PKWARE key. |
| CryptoStreams.PKWareEncryptInputStream.Create | gszip/src/main/java/com/geansea/zip/PKWareEncryptInputStream.java:23-36 | Construction fails with "Stream closed" exactly when the base is closed, because of the restart in the constructor. Otherwise the plaintext header is random[..11] + [checkByte] and the stream is at position 0. In libzip `PKWareEncryptInputStream.java`, lines 19 to 32: The libzip revision builds the stream the same way. |
| CryptoStreams.PKWareEncryptInputStream.EncryptHeader | gszip/src/main/java/com/geansea/zip/PKWareEncryptInputStream.java:86-90 | The header becomes the encryption of the plaintext header from the current registers, and the key advances over the plaintext header. |
| CryptoStreams.PKWareEncryptInputStream.Restart | gszip/src/main/java/com/geansea/zip/PKWareEncryptInputStream.java:76-91 | On an open stream this restarts the base, resets the key, feeds the password and re-encrypts the same plaintext header. So the stream is back at position 0 of the same output, and two passes deliver identical bytes. A closed stream fails with "Stream closed". In libzip `PKWareEncryptInputStream.java`, lines 82 to 97: The libzip restart reseeds the key and re-encrypts the header in the same way. |
| CryptoStreams.PKWareEncryptInputStream.Close | gszip/src/main/java/com/geansea/zip/PKWareEncryptInputStream.java:70-74 | Closes both the stream and its base. |
| CryptoStreams.PKWareEncryptInputStream.Available | gszip/src/main/java/com/geansea/zip/PKWareEncryptInputStream.java:38-45 | A closed stream fails. An open one answers 0 or 1, and 1 whenever output remains. For a range below 2 GiB it is 1 exactly while output remains and 0 exactly at its end. |
| CryptoStreams.PKWareEncryptInputStream.Read | gszip/src/main/java/com/geansea/zip/PKWareEncryptInputStream.java:47-68 | The output is the encryption of header + base range: 12 + the base length bytes in all. A read with len 0 returns 0. A read that starts in the header returns only header bytes and does not move the base. Otherwise it returns min(len, remaining) bytes, and at the end it returns -1. The bytes copied are exactly the next bytes of the output, and the position advances by the count. In libzip `PKWareEncryptInputStream.java`, lines 51 to 74: The libzip read serves the header first and encrypts the body in the same way. |
| CryptoStreams.PKWareEncryptInputStream.ReadHeader | gszip/src/main/java/com/geansea/zip/PKWareEncryptInputStream.java:53-58 | Serves min(12 - headerPos, len) header bytes. These are the next bytes of the output. |
| CryptoStreams.PKWareEncryptInputStream.ReadBody | gszip/src/main/java/com/geansea/zip/PKWareEncryptInputStream.java:59-67 | After the header, the bytes returned are the next bytes of the output: -1 at the end, otherwise min(len, remaining). |
| CryptoStreams.TrackedRead | gszip/src/main/java/com/geansea/zip/PKWareEncryptInputStream.java:59 | A base read on a range below 2 GiB read from its start cannot throw: it gives 0 for len 0, -1 at the end and otherwise min(len, `Span()`) bytes of the file from the cursor, which moves by that count. |
| CryptoStreams.PKWareEncryptInputStream.ReadTracked | gszip/src/main/java/com/geansea/zip/PKWareEncryptInputStream.java:59-67 | The body branch: -1 at the end of the output, otherwise min(len, what is left) bytes, which are the next bytes of the output; the rest of the buffer is untouched. |
| CryptoStreams.PKWareEncryptInputStream.ReadPlain | gszip/src/main/java/com/geansea/zip/PKWareEncryptInputStream.java:59 | The base read of the body branch delivers the same count, as the plaintext the cipher consumes at that position. |
| CryptoStreams.PKWareEncryptInputStream.EncryptChunk | gszip/src/main/java/com/geansea/zip/PKWareEncryptInputStream.java:60-66 | The plaintext bytes of one read, encrypted in place, become the matching bytes of the output, and the key moves past them. |
| CryptoStreams.PKWareEncryptInputStream.ReadByte | gszip/src/main/java/com/geansea/zip/GsZipInputStream.java:14-20 | The inherited single-byte read returns the next output byte as 0..255, or -1 exactly at the end. In libzip `PKWareEncryptInputStream.java`, lines 43 to 49: The libzip single-byte read returns 0..255, or -1 at the end. |
| CryptoStreams.PKWareDecryptInputStream.Init | gszip/src/main/java/com/geansea/zip/PKWareDecryptInputStream.java:19-27 | The stream starts open, with a fresh PKWARE key and the given password. |
| CryptoStreams.PKWareDecryptInputStream.Create | gszip/src/main/java/com/geansea/zip/PKWareDecryptInputStream.java:19-31 | A closed base gives "Stream closed". A base range shorter than 12 bytes gives "Read header failed". Otherwise construction succeeds exactly when the last decrypted header byte is the time check or the CRC check, and fails with "Check byte not matched" when it is neither. In libzip `PKWareDecryptInputStream.java`, lines 16 to 28: The libzip revision makes the same check-byte test after its restart. In libzip `PKWareDecryptStream.java`, lines 16 to 28: libzip `PKWareDecryptStream` makes the same check-byte test. |
| CryptoStreams.PKWareDecryptInputStream.Restart | gszip/src/main/java/com/geansea/zip/PKWareDecryptInputStream.java:58-76 | On an open stream whose base holds at least 12 bytes, restart rereads and decrypts the header and leaves the stream at output position 0. With fewer than 12 bytes it fails with "Read header failed", and a closed stream fails with "Stream closed". In libzip `PKWareDecryptInputStream.java`, lines 73 to 91: The libzip restart reseeds the key and fails in the same way on a short header. |
| CryptoStreams.PKWareDecryptInputStream.Close | gszip/src/main/java/com/geansea/zip/PKWareDecryptInputStream.java:52-56 | Closes both the stream and its base. |
| CryptoStreams.PKWareDecryptInputStream.Available | gszip/src/main/java/com/geansea/zip/PKWareDecryptInputStream.java:33-37 | A closed stream fails. An open one answers 0 or 1, and 1 whenever output remains. For a range below 2 GiB it is 1 exactly while output remains and 0 exactly at its end. |
| CryptoStreams.PKWareDecryptInputStream.Read | gszip/src/main/java/com/geansea/zip/PKWareDecryptInputStream.java:39-50 | The output is the decryption of the base range with the 12 header bytes removed: the base length - 12 bytes. Each read returns the base's count, min(len, remaining), or -1 at the end, and copies exactly the next output bytes. In libzip `PKWareDecryptInputStream.java`, lines 50 to 65: The libzip bulk read decrypts in the same way. In libzip `PKWareDecryptStream.java`, lines 48 to 62: libzip `PKWareDecryptStream.read` decrypts in place and passes the count through. |
| CryptoStreams.PKWareDecryptInputStream.DecryptChunk | gszip/src/main/java/com/geansea/zip/PKWareDecryptInputStream.java:43-48 | The ciphertext bytes of one read, decrypted in place, become the matching bytes of the output, and the key moves past them. |
| CryptoStreams.PKWareDecryptInputStream.ReadHeaderBytes | gszip/src/main/java/com/geansea/zip/PKWareDecryptInputStream.java:68-71 | The header read from the base's start throws exactly for an overlong range, and fills the 12-byte buffer with the range's first bytes exactly when the range holds 12 bytes. |
| CryptoStreams.PKWareDecryptInputStream.AcceptHeader | gszip/src/main/java/com/geansea/zip/PKWareDecryptInputStream.java:72-75 | The 12 bytes, decrypted in place, are kept as the header and the stream stands at the first plaintext byte. |
| CryptoStreams.PKWareDecryptInputStream.ReadByte | libzip/src/main/java/com/geansea/zip/PKWareDecryptInputStream.java:36-48 | The single-byte read returns the next decrypted byte as 0..255, or -1 exactly at the end. |
| CryptoStreams.CheckByteOfHeader | gszip/src/main/java/com/geansea/zip/PKWareDecryptInputStream.java:28-30 | The byte the check compares is the last byte of the decrypted 12-byte header. |
| CryptoStreams.DecryptsEncryptedEntry | gszip/src/main/java/com/geansea/zip/PKWareDecryptInputStream.java:19-50 | Under the same password, the decryption of an encrypted header + body gives back that header and body. Its check byte is the one the encrypting side put last. So the decrypting stream delivers exactly the encrypting stream's input and passes the check-byte test. |
| CryptoStreams.OneShotOpen | libzip/src/main/java/com/geansea/zip/GsZipPKWareDecryptStream.java:15-37 | The one-shot decryptor (with `rejectEmpty` false) seeds the key, even with an empty password. It fails "Read header failed" on fewer than 12 bytes and "Check byte not matched" unless the last decrypted header byte is a check value. On success the key is left after the header. In libzip util `GsZipPKWareDecryptStream.java`, lines 19 to 41: The util revision (`rejectEmpty` true) first rejects an empty password, then reads and checks the header in the same way. In gszip util `GsZipPkwareDecryptStream.java`, lines 17 to 43: The gszip/gszip revision (`rejectEmpty` true) rejects "Empty password", then reads and checks the header in the same way. |
| CryptoStreams.OneShotOpenDecrypts | libzip/src/main/java/com/geansea/zip/GsZipPKWareDecryptStream.java:15-72 | Opened on an encrypted entry whose check byte is a check value, the one-shot decryptor succeeds. Decrypting the rest from the key it leaves gives back the entry's data, as the restartable decryptor does. |
| CryptoStreams.OneShotEncryptHeader | libzip/src/main/java/com/geansea/zip/GsZipPKWareEncryptStream.java:18-39 | The constructor seeds the key with the password, replaces the last of the 12 random header bytes with the check byte, and encrypts them. The header decrypts to the random bytes followed by the check byte, so the check byte is what a decryptor compares. The registers left for the body are those the plaintext header leaves. In libzip util `GsZipPkwareEncryptStream.java`, lines 19 to 45: The util revision does the same after it fails "Empty password" on an empty password. |
| CryptoStreams.OneShotEncryptOpens | libzip/src/main/java/com/geansea/zip/GsZipPKWareEncryptStream.java:18-39 | What a one-shot encryptor delivers, its header and then the body encrypted from the registers it leaves, is opened by a one-shot decryptor whose check values include the check byte. The decryptor continues from the same registers and gives back the body. |
| CryptoStreams.AvailableHeaderFirst | libzip/src/main/java/com/geansea/zip/GsZipPKWareEncryptStream.java:41-47 | While header bytes remain the result is their number; after that it is the base's. It is 0 exactly when both are exhausted. |
| CryptoStreams.AvailableSum | libzip/src/main/java/com/geansea/zip/util/GsZipPkwareEncryptStream.java:47-50 | Remaining header bytes plus the base's count. It is 0 exactly when both are exhausted, and never less than the libzip revision's answer. |
| Headers.FixedPart | gszip/src/main/java/com/geansea/zip/EntryHeader.java:283-307 | The fixed part is 46 bytes for a central header and 30 for a local one. |
| Headers.FixedPartRoundTrip | gszip/src/main/java/com/geansea/zip/EntryHeader.java:238-256 | Reading back the fixed part that `writeTo` puts gives every field of the variant. For a local header the central-only fields come back as 0. |
| Headers.CentralFixedRoundTrip | gszip/src/main/java/com/geansea/zip/EntryHeader.java:238-256 | Reading back a central fixed part gives every field unchanged. |
| Headers.LocalFixedRoundTrip | gszip/src/main/java/com/geansea/zip/EntryHeader.java:238-256 | Reading back a local fixed part gives the local fields, and zeroes versionMadeBy, commentLen, diskNumber, intAttrib, extAttrib and localOffset. |
| Headers.CentralHeadAt | gszip/src/main/java/com/geansea/zip/EntryHeader.java:286-288 | A central header puts the signature at offset 0 and versionMadeBy at offset 4, little-endian. |
| Headers.CentralSharedAt | gszip/src/main/java/com/geansea/zip/EntryHeader.java:290-299 | In a central header the shared fields sit at offsets 6 to 30, as APPNOTE section 4.3.12 lays them out. |
| Headers.CentralTailAt | gszip/src/main/java/com/geansea/zip/EntryHeader.java:300-306 | In a central header commentLen, diskNumber, intAttrib, extAttrib and localOffset sit at offsets 32, 34, 36, 38 and 42. |
| Headers.Take | gszip/src/main/java/com/geansea/zip/EntryHeader.java:258-269 | A read of n bytes succeeds exactly when 0 <= n <= the bytes left, and returns the next n. A short read is "Read fail", and a negative length is the negative-array-size failure. |
| Headers.Parse | gszip/src/main/java/com/geansea/zip/EntryHeader.java:233-271 | Fewer bytes than the fixed part give "Read fail". A success has the variant's signature and a positive name length, its lengths agree with its arrays, its central-only fields are 0 when it is local, and it spans `byteSize` bytes of the input. |
| Headers.ParseArrays | gszip/src/main/java/com/geansea/zip/EntryHeader.java:258-270 | Reading the arrays changes only the name, extra field and comment. A success passes the signature and name checks, and the arrays fit in the input. |
| Headers.ArraysRead | gszip/src/main/java/com/geansea/zip/EntryHeader.java:258-269 | The name, extra field and comment are the next fileNameLen, extraFieldLen and commentLen bytes, read as signed 16-bit lengths, in that order. |
| Headers.ParsePrefix | gszip/src/main/java/com/geansea/zip/EntryHeader.java:233-271 | A header that parses from some bytes parses the same with any bytes after them. So reading a header never looks past its own bytes. |
| Headers.Write | gszip/src/main/java/com/geansea/zip/EntryHeader.java:84-93 | `writeTo` succeeds exactly when the signature matches the variant, the name is not empty, flag 0x0800 (UTF-8) is set and the method is 0 or 8. The first failed check, in that order, names the error. |
| Headers.WriteSize | gszip/src/main/java/com/geansea/zip/EntryHeader.java:273-318 | `writeTo` emits exactly `byteSize` bytes: 46 + name + extra + comment for a central header, 30 + name + extra for a local one. A local header still appends a non-empty comment, so there the count exceeds `byteSize` by the comment length. |
| Headers.WriteBytes | gszip/src/main/java/com/geansea/zip/EntryHeader.java:281-318 | The bytes written are the fixed part, then the name, the extra field and the comment. |
| Headers.WriteParse | gszip/src/main/java/com/geansea/zip/EntryHeader.java:233-319 | `writeTo` then `readFrom` of the same variant reproduces every field of that variant, with the name, extra and comment bytes, whatever follows. For a local header the comment must be empty. |
| Headers.ReadBytes | gszip/src/main/java/com/geansea/zip/EntryHeader.java:234-236 | Reading the fixed part from the stream gives the first n bytes left, or "Read fail" when fewer remain. A closed stream gives "Stream closed". |
| Headers.ReadField | gszip/src/main/java/com/geansea/zip/EntryHeader.java:258-269 | One array read: nothing is read for a length <= 0. Otherwise a closed stream fails, a stream whose `Span()` is negative fails with IndexOutOfRange, and an open one reads exactly that many bytes of what it has left, or fails "Read fail". The cursor moves by the bytes read and `Span()` drops by as many. |
| Headers.ReadArrays | gszip/src/main/java/com/geansea/zip/EntryHeader.java:258-270 | The stream pass over the three arrays gives `ParseArrays` of the bytes left, consumes exactly the arrays' bytes, and leaves what the stream had left less those bytes. |
| Headers.ReadTail | gszip/src/main/java/com/geansea/zip/EntryHeader.java:262-270 | Once the name is read, the extra field, the comment and `checkValid` give `ParseArrays` of the bytes the header started with, and consume exactly the extra field and comment. |
| Headers.ReadComment | gszip/src/main/java/com/geansea/zip/EntryHeader.java:266-270 | Once name and extra field are read, the comment and `checkValid` give `ParseArrays` of the bytes the header started with, and consume exactly the comment. |
| Headers.ReadHeader | gszip/src/main/java/com/geansea/zip/EntryHeader.java:233-271 | `readFrom` fails on a closed stream and with IndexOutOfRange on a stream whose `Span()` is negative. On an open stream it gives `Parse` of the bytes left. On success it consumes exactly `byteSize` bytes, and the stream keeps what it had left less those bytes. |
| Headers.ReadInPlaceParse | gszip/src/main/java/com/geansea/zip/EntryHeader.java:233-271 | When the header parses, the fields that `readFrom` overwrites in place equal the parsed header, whatever they held before. |
| Headers.FillArraysParse | gszip/src/main/java/com/geansea/zip/EntryHeader.java:258-269 | Filling the arrays in place agrees with `ParseArrays` whenever that succeeds. |
| Headers.ShortNameOverwrites | gszip/src/main/java/com/geansea/zip/EntryHeader.java:258-261 | When the stream holds fewer name bytes than fileNameLen, `readFrom` fails "Read fail". The fixed fields are already overwritten by then, and the name array holds the bytes read followed by zeros. The extra field and comment keep their old values. |
| Headers.MatchLocalWritten | gszip/src/main/java/com/geansea/zip/EntryHeader.java:95-106 | The local header written from a valid central header parses back and `matchLocal`es it: same method, same flags & 0x41, same name length and bytes, and the same CRC and sizes unless bit 3 defers them. |
| Headers.EncMethodBits | gszip/src/main/java/com/geansea/zip/EntryHeader.java:112-114 | `getEncMethod` is flags & 0x41: bit 0 as 1 plus bit 6 as 0x40. The encrypted and strong-encryption flags are exactly those bits. |
| Headers.EncMethodOnlyAdds | gszip/src/main/java/com/geansea/zip/EntryHeader.java:116-118 | `setEncMethod` only ORs bits in: every flag that was set stays set, and every bit of the method is set afterwards. |
| Headers.TimeCheck | gszip/src/main/java/com/geansea/zip/EntryHeader.java:181-183 | The time check is the high byte of the modification time. |
| Headers.CrcCheck | gszip/src/main/java/com/geansea/zip/EntryHeader.java:185-187 | The CRC check is the top byte of the CRC. |
| Headers.DosDateValue | gszip/src/main/java/com/geansea/zip/EntryHeader.java:148-150 | From 1980 on, the date field is ((year - 1980) << 9) \|(month << 5) \|day, truncated to 16 bits, which keeps the year mod 128. |
| Headers.DosTimeValue | gszip/src/main/java/com/geansea/zip/EntryHeader.java:151-153 | The time field is (hour << 11) \|(minute << 5) \|(second >> 1). |
| Headers.DosDateFields | gszip/src/main/java/com/geansea/zip/EntryHeader.java:131-133 | Decoding a packed date gives back the month and the day, and the year mod 128 counted from 1980. |
| Headers.DosTimeFields | gszip/src/main/java/com/geansea/zip/EntryHeader.java:134-136 | Decoding a packed time gives back the hour and the minute, and the seconds rounded down to an even number. |
| Headers.DosRoundTrip | gszip/src/main/java/com/geansea/zip/EntryHeader.java:128-155 | `setLastModifiedTime` then `getLastModifiedTime` gives back the time with the seconds rounded down to even and the year taken mod 128 from 1980. |
| Headers.DosBefore1980 | gszip/src/main/java/com/geansea/zip/EntryHeader.java:144-146 | Any time before 1980 is stored as date 0x21 and time 0, and it reads back as 1980-01-01 00:00:00. |
| Headers.SearchUnicodePath | gszip/src/main/java/com/geansea/zip/EntryHeader.java:194-215 | The loop over the extra field's records finds what `FindUnicodePath` specifies. That is the first 0x7075 record with size > 5, version 1 and a CRC equal to the raw name's CRC-32. A truncated record is an error, as Java's buffer underflow is. |
| Headers.GetFileName | gszip/src/main/java/com/geansea/zip/EntryHeader.java:189-218 | The name is resolved in this order: with the UTF-8 flag, the name bytes as UTF-8; else a matching Unicode Path record's payload as UTF-8; else the raw bytes in the caller's charset. |
| Headers.UnicodePathRecord | gszip/src/main/java/com/geansea/zip/EntryHeader.java:196-203 | An Info-ZIP Unicode Path record (APPNOTE section 4.6.9) is 9 bytes longer than its UTF-8 name. |
| Headers.UnicodePathRecordFields | gszip/src/main/java/com/geansea/zip/EntryHeader.java:197-203 | The record's fields are, in order: id 0x7075, size = name length + 5, version 1, the CRC, then the name. |
| Headers.UnicodePathFound | gszip/src/main/java/com/geansea/zip/EntryHeader.java:194-209 | Without the UTF-8 flag, an extra field that starts with a version-1 Unicode Path record carrying the raw name's CRC-32 resolves the name to that record's UTF-8 payload. |
| Headers.StaleUnicodePathSkipped | gszip/src/main/java/com/geansea/zip/EntryHeader.java:199-213 | A Unicode Path record whose CRC does not match the name is skipped, and the search goes on after it. |
| Headers.EntryHeader.constructor | gszip/src/main/java/com/geansea/zip/EntryHeader.java:61-82 | A new header is central, version 0x14, flagged UTF-8, stored, with every other field 0 and empty arrays. |
| Headers.EntryHeader.ReadFrom | gszip/src/main/java/com/geansea/zip/EntryHeader.java:233-271 | `readFrom` passes exactly when `Parse` of the bytes left succeeds, with its error otherwise. On success the fields are the parsed header and the stream has moved past `byteSize` bytes. In every case the fields are what the in-place reads leave. |
| Headers.EntryHeader.WriteTo | gszip/src/main/java/com/geansea/zip/EntryHeader.java:281-319 | Writes `Write` of the fields. Those bytes read back as the same header of that variant, for a central header or a local header without a comment. |
| Headers.EntryHeader.SetSign | gszip/src/main/java/com/geansea/zip/EntryHeader.java:108-110 | Sets the signature of the variant, and nothing else. |
| Headers.EntryHeader.SetEncMethod | gszip/src/main/java/com/geansea/zip/EntryHeader.java:116-118 | ORs the method into the flags, so every flag that was set stays set. |
| Headers.EntryHeader.SetCompMethod | gszip/src/main/java/com/geansea/zip/EntryHeader.java:124-126 | Stores the method truncated to 16 bits, and nothing else. |
| Headers.EntryHeader.SetLastModifiedTime | gszip/src/main/java/com/geansea/zip/EntryHeader.java:140-155 | Stores the packed DOS date and time, and nothing else. |
| Headers.EntryHeader.SetCRC | gszip/src/main/java/com/geansea/zip/EntryHeader.java:161-163 | Sets the CRC only. |
| Headers.EntryHeader.SetCompSize | gszip/src/main/java/com/geansea/zip/EntryHeader.java:169-171 | Sets the compressed size only. |
| Headers.EntryHeader.SetUncompSize | gszip/src/main/java/com/geansea/zip/EntryHeader.java:177-179 | Sets the uncompressed size only. |
| Headers.EntryHeader.SetFileName | gszip/src/main/java/com/geansea/zip/EntryHeader.java:220-223 | Stores the UTF-8 bytes and their length truncated to 16 bits. For a name under 32768 bytes the lengths stay consistent. |
| Headers.EntryHeader.SetLocalOffset | gszip/src/main/java/com/geansea/zip/EntryHeader.java:229-231 | Sets the local header offset only. |
| Eocd.ByteSizeOfComment | gszip/src/main/java/com/geansea/zip/CentralDirEnd.java:89-91 | `byteSize` is (22 + commentLen) & 0xFFFF. For every comment that `setComment` stores, of fewer than 65514 bytes, that is 22 + the comment's length. |
| Eocd.ReadInPlaceParse | gszip/src/main/java/com/geansea/zip/CentralDirEnd.java:67-87 | `readFrom` checks, in order: at least 22 bytes, signature 0x06054b50, disk 0, start disk 0, equal entry counts, then room for 22 + commentLen bytes. Its outcome is that of `Parse`, and on success the fields are the parsed record. A short array leaves the fields alone, and a bad signature overwrites only the signature. |
| Eocd.ParseValid | gszip/src/main/java/com/geansea/zip/CentralDirEnd.java:67-87 | A record that reads successfully has the signature, both disk numbers 0 and equal counts, and fits in the array. Its comment is exactly the commentLen bytes after the fixed part. |
| Eocd.FixedBytes | gszip/src/main/java/com/geansea/zip/CentralDirEnd.java:96-105 | The fixed part written is 22 bytes. |
| Eocd.FixedBytesRoundTrip | gszip/src/main/java/com/geansea/zip/CentralDirEnd.java:97-104 | Every fixed field reads back little-endian from its offset (0, 4, 6, 8, 10, 12, 16, 20), whatever follows. |
| Eocd.EncodeParse | gszip/src/main/java/com/geansea/zip/CentralDirEnd.java:67-107 | A valid record, written and then read back, is the same record, whatever bytes follow it. |
| Eocd.SampleParses | gszip/src/test/java/com/geansea/zip/CentralDirEndTest.java:10-36 | A single example, the test's sample record: it reads as 0x3412 entries, directory size 0x04030201, offset 0x08070605, and the comment bytes of "abc中文". |
| Eocd.PutAll | gszip/src/main/java/com/geansea/zip/CentralDirEnd.java:96-106 | Relative puts never write past the array's room. |
| Eocd.PutAllFits | gszip/src/main/java/com/geansea/zip/CentralDirEnd.java:96-106 | When all the bytes fit, every put is written, in order. |
| Eocd.PutAllOverflows | gszip/src/main/java/com/geansea/zip/CentralDirEnd.java:106 | When they do not fit, a put throws before the end, as `BufferOverflowException` does. |
| Eocd.PutAt | gszip/src/main/java/com/geansea/zip/CentralDirEnd.java:96-106 | The bytes land at the position, and no other array cell changes. |
| Eocd.WriteRecord | gszip/src/main/java/com/geansea/zip/CentralDirEnd.java:93-107 | `writeTo` of each revision: a failed check leaves the array untouched. Otherwise the puts are written from the start and the rest of the array is unchanged, and an overflowing put fails with the earlier puts already written. In libzip util `GsZipCentralDirEnd.java`, lines 108 to 126: The util `writeTo` (revision `Validating`) runs `checkValid` first, and writes the comment only when its length is positive. In libzip `GsZipCentralDirEnd.java`, lines 93 to 107: The libzip `writeTo` (revision `Unmasked`) checks the room against 22 + commentLen, without the mask. |
| Eocd.PutsConcat | gszip/src/main/java/com/geansea/zip/CentralDirEnd.java:97-106 | The puts of `writeTo`, in order, are the fixed part followed by the comment. |
| Eocd.WriteThenRead | gszip/src/main/java/com/geansea/zip/CentralDirEnd.java:93-107 | With room for the whole record, `writeTo` writes exactly the encoded record and completes. |
| Eocd.WriteOverflows | gszip/src/main/java/com/geansea/zip/CentralDirEnd.java:94-106 | The room check uses the masked `byteSize`. A comment longer than the room after the fixed part therefore passes the check and overflows on the last put. |
| Eocd.CentralDirEnd.constructor | gszip/src/main/java/com/geansea/zip/CentralDirEnd.java:23-33 | A new record holds the signature and zeros, with no comment. |
| Eocd.CentralDirEnd.ReadFrom | gszip/src/main/java/com/geansea/zip/CentralDirEnd.java:67-87 | Passes exactly when `Parse` succeeds, with `Parse`'s error otherwise. The fields become what the in-place reads leave, which on success is the parsed record. |
| Eocd.CentralDirEnd.WriteTo | gszip/src/main/java/com/geansea/zip/CentralDirEnd.java:93-107 | An array shorter than `byteSize` fails "Not enough length" and is left untouched. Otherwise the fixed part and the comment are put in order. A record that is valid and completes reads back from the array as itself. |
| Eocd.CentralDirEnd.SetEntryCount | gszip/src/main/java/com/geansea/zip/CentralDirEnd.java:39-42 | Both count fields take the count as a short. So the count-match check passes on re-read, and `getEntryCount` gives count mod 65536. |
| Eocd.CentralDirEnd.SetDirRange | gszip/src/main/java/com/geansea/zip/CentralDirEnd.java:52-55 | Keeps the low 32 bits of each value, which the unsigned getters return. In libzip `GsZipCentralDirEnd.java`, lines 53 to 56: The libzip revision keeps the low 32 bits of each value too. |
| Eocd.CentralDirEnd.SetComment | gszip/src/main/java/com/geansea/zip/CentralDirEnd.java:62-65 | Stores the comment's bytes and their count as a short. |
| Eocd.BuiltRecordReadsBack | gszip/src/main/java/com/geansea/zip/CentralDirEnd.java:23-107 | A new record after `setEntryCount`, `setDirRange` and `setComment` is valid, and reads back whole after `writeTo`: the count mod 65536, the range mod 2^32 and the comment. |
| Eocd.UtilReadFixed | libzip/src/main/java/com/geansea/zip/util/GsZipCentralDirEnd.java:85-93 | The util gets of the fixed part succeed exactly when 22 bytes are there. Otherwise a get fails with buffer underflow. |
| Eocd.UtilReadFixedOf | libzip/src/main/java/com/geansea/zip/util/GsZipCentralDirEnd.java:85-93 | The util gets read back every written fixed field, and leave the comment the object held before. |
| Eocd.UnmaskedByteSize | libzip/src/main/java/com/geansea/zip/GsZipCentralDirEnd.java:89-91 | The unmasked `byteSize` of the older revisions agrees with the newest one exactly when commentLen >= -22 as a short. |
| Eocd.UtilEntryCount | libzip/src/main/java/com/geansea/zip/util/GsZipCentralDirEnd.java:51-53 | The util getter returns the count as a signed short: the unsigned count, or that count - 65536. |
| Eocd.UtilWriteFits | libzip/src/main/java/com/geansea/zip/util/GsZipCentralDirEnd.java:108-126 | For a record that passes `checkValid` and whose length field is its comment's byte count, the util `writeTo` with room writes exactly the encoded record. |
| Eocd.UtilWriteThenRead | libzip/src/main/java/com/geansea/zip/util/GsZipCentralDirEnd.java:82-102 | Such a record reads back through the util `readFrom`, every field. An empty comment leaves the comment the object held before. In gszip util `GsZipCentralDirEnd.java`, lines 70 to 102: The gszip/gszip `readFrom` and `getComment` give the written comment back in the same way. |
| Eocd.SetCommentBytes | libzip/src/main/java/com/geansea/zip/util/GsZipCentralDirEnd.java:77-80 | `setComment` in every revision but gszip/gszip: the bytes and their byte count, so the length field equals the comment's length. |
| Eocd.CharCountCommentBreaks | gszip/src/main/java/com/geansea/gszip/util/GsZipCentralDirEnd.java:74-80 | Storing the character count makes a one-character, three-byte comment ("中") a record whose `byteSize` is 23. Writing it into 23 bytes overflows. Written into 25 bytes, it reads back with the comment cut to its first byte. |
| Eocd.ByteCountCommentFits | gszip/src/main/java/com/geansea/gszip/util/GsZipCentralDirEnd.java:104-126 | With the byte count stored instead, `byteSize` is 22 + the comment's bytes and `writeTo` into that room completes. |
| Eocd.ByteCountCommentReadsBack | gszip/src/main/java/com/geansea/gszip/util/GsZipCentralDirEnd.java:82-102 | ... and the comment reads back whole. |
| Entries.NewEntry | gszip/src/main/java/com/geansea/zip/GsZipEntry.java:29-34 | An entry exists exactly when the header's file name resolves, and it fails with that error otherwise. It keeps the index and the header, the decoded resolved name, and the DOS date and time as calendar fields. In libzip `GsZipEntry.java`, lines 29 to 34: The libzip entry is built the same way from its util header. |
| Entries.EncryptMethodOf | gszip/src/main/java/com/geansea/zip/GsZipEntry.java:53-63 | No encryption exactly when neither encryption bit is set. PKWARE exactly when bit 0 is set and bit 6 is not. Unsupported exactly when bit 6 (strong encryption) is set. In libzip `GsZipEntry.java`, lines 52 to 61: libzip classifies the encryption method identically. |
| Entries.IsEncryptedBits | gszip/src/main/java/com/geansea/zip/GsZipEntry.java:65-67 | An entry is encrypted exactly when either encryption bit is set. |
| Entries.CompressMethodOf | gszip/src/main/java/com/geansea/zip/GsZipEntry.java:69-79 | Stored exactly for method 0, deflated exactly for method 8, and unsupported for anything else. In libzip `GsZipEntry.java`, lines 67 to 76: libzip classifies the compression method identically. |
| Entries.PackerEncryptionReadsBack | gszip/src/main/java/com/geansea/zip/GsZipEntry.java:53-67 | A header whose flags had `setEncMethod(ENCRYPT_PKWARE)` applied, with bit 6 clear, reads back as PKWARE-encrypted. |
| Entries.PlainHeaderNotEncrypted | gszip/src/main/java/com/geansea/zip/GsZipEntry.java:53-67 | A header with the flags of a new header reads back as not encrypted. |
| EntryTree.Child | gszip/src/main/java/com/geansea/zip/GsZipEntryNode.java:66-68 | A child link leads to a later node that points back at its parent and carries the name it is filed under. |
| EntryTree.Walk | gszip/src/main/java/com/geansea/zip/GsZipEntryNode.java:51-64 | A lookup that finds something finds a node of the tree. |
| EntryTree.CreateLinked | gszip/src/main/java/com/geansea/zip/GsZipEntryNode.java:78-82 | Creating a missing child, filed under its parent, keeps every parent/child link consistent. |
| EntryTree.SetEntryLinked | gszip/src/main/java/com/geansea/zip/GsZipEntryNode.java:85-86 | Attaching an entry to a node keeps the links consistent. |
| EntryTree.Insert | gszip/src/main/java/com/geansea/zip/GsZipEntryNode.java:70-87 | A successful `addChild` leaves a consistent tree that is no smaller than before, with the entry's node inside it. |
| EntryTree.InsertGrows | gszip/src/main/java/com/geansea/zip/GsZipEntryNode.java:70-87 | An insertion removes no node and no child link. |
| EntryTree.WalkGrows | gszip/src/main/java/com/geansea/zip/GsZipEntryNode.java:51-64 | A lookup that succeeds in a tree succeeds, with the same node, in every tree that grew from it. |
| EntryTree.InsertFinds | gszip/src/main/java/com/geansea/zip/GsZipEntryNode.java:70-87 | After an insertion the path leads to the node that took the entry, and that node holds it. |
| EntryTree.InsertKeepsEntries | gszip/src/main/java/com/geansea/zip/GsZipEntryNode.java:70-87 | An insertion changes no other entry: old nodes keep theirs, and nodes created on the way have none. |
| EntryTree.InsertTargetFree | gszip/src/main/java/com/geansea/zip/GsZipEntryNode.java:85-86 | The node that takes the entry held none before, so "Entry already exist" is the only way to meet a taken node. |
| EntryTree.InsertKeepsLookups | gszip/src/main/java/com/geansea/zip/GsZipEntryNode.java:51-87 | Every path that found a node before an insertion finds the same node after it. |
| EntryTree.FreshInsertSucceeds | gszip/src/main/java/com/geansea/zip/GsZipEntryNode.java:70-87 | Inserting under an empty node with no entry never fails. |
| EntryTree.InsertFails | gszip/src/main/java/com/geansea/zip/GsZipEntryNode.java:70-87 | An insertion fails exactly when the path meets an existing file node before a non-empty name ("Adding child for file node"), or ends at a node that already holds an entry ("Entry already exist"). Each error is raised only in its own case. |
| EntryTree.ShiftBlocked | gszip/src/main/java/com/geansea/zip/GsZipEntryNode.java:73-84 | One step of the walk leaves both failure conditions unchanged for the rest of the path. |
| EntryTree.NotBlockedMissing | gszip/src/main/java/com/geansea/zip/GsZipEntryNode.java:78-82 | Past a missing child, only new nodes are met, so neither failure can happen. |
| EntryTree.ChildrenFiled | gszip/src/main/java/com/geansea/zip/GsZipEntryNode.java:32-35 | The children map and the parent links describe the same set of nodes. |
| EntryTree.EntryNodes.constructor | gszip/src/main/java/com/geansea/zip/GsZipEntryNode.java:20-25 | A new tree is the root alone: no parent, no name, no children, no entry. |
| EntryTree.EntryNodes.GetParent | gszip/src/main/java/com/geansea/zip/GsZipEntryNode.java:27-30 | There is no parent for the root, and only for the root. For any other node it is the node the given one is filed under, by its own name. In libzip `GsZipEntryNode.java`, lines 26 to 28: libzip holds no reference for the root and answers null there, as the newest tree does. |
| EntryTree.EntryNodes.GetChildren | gszip/src/main/java/com/geansea/zip/GsZipEntryNode.java:32-35 | Exactly the nodes whose parent is the given one. |
| EntryTree.EntryNodes.GetChild | gszip/src/main/java/com/geansea/zip/GsZipEntryNode.java:66-68 | Some node exactly when the name is a key of the children, and that node's parent and name match. |
| EntryTree.EntryNodes.GetChildWithPath | gszip/src/main/java/com/geansea/zip/GsZipEntryNode.java:51-64 | The loop returns what `Walk` gives for the path's non-empty segments. In libzip `GsZipEntryNode.java`, lines 46 to 59: libzip walks the path the same way. |
| EntryTree.EntryNodes.AddChild | gszip/src/main/java/com/geansea/zip/GsZipEntryNode.java:70-87 | The loop passes exactly when `Insert` succeeds, and leaves the tree `Insert` builds. On failure it returns `Insert`'s error with the tree unchanged, because every check that can fail comes before the first node is created. In libzip `GsZipEntryNode.java`, lines 65 to 82: libzip makes the same two checks, through Preconditions.checkState. |
| EntryTree.AddThenGet | gszip/src/main/java/com/geansea/zip/GsZipEntryNode.java:51-87 | After `addChild(path, e)` at the root, `getChildWithPath(path)` finds a node holding e. |
| ZipUtil.Pieces | gszip/src/main/java/com/geansea/zip/GsZipUtil.java:71 | Splitting always gives at least one piece. |
| ZipUtil.PiecesJoin | gszip/src/main/java/com/geansea/zip/GsZipUtil.java:71-86 | Splitting a '/'-joined list of separator-free pieces gives the list back. |
| ZipUtil.FoldKept | gszip/src/main/java/com/geansea/zip/GsZipUtil.java:70-85 | The stack loop only ever holds surviving segments: none empty, none ".", none containing a separator. Under the newest rule ".." can only be the first segment; under the earlier rule it can only be in a leading run of "..". |
| ZipUtil.FoldKeptId | gszip/src/main/java/com/geansea/zip/GsZipUtil.java:70-85 | A stack of surviving segments passes through the loop unchanged. |
| ZipUtil.NormalizedShape | gszip/src/main/java/com/geansea/zip/GsZipUtil.java:69-87 | The normalised path is its surviving segments joined by single '/', with no leading, trailing or doubled '/'. It splits back into those segments. |
| ZipUtil.NormalizedIdempotent | gszip/src/main/java/com/geansea/zip/GsZipUtil.java:69-87 | Normalising a normalised path changes nothing, under either rule. |
| ZipUtil.NormalizedExample | gszip/src/main/java/com/geansea/zip/GsZipUtil.java:69-87 | A single example: "a//b/../c" normalises to "a/c". |
| ZipUtil.DotDotRules | libzip/src/main/java/com/geansea/zip/GsZipUtil.java:46-72 | A single example of where the revisions differ on leading "..": the newest turns "../../a" into "a", while libzip's `getCanonicalPath` keeps "../../a". |
| ZipUtil.NormalizePath | gszip/src/main/java/com/geansea/zip/GsZipUtil.java:69-87 | The loop returns the normalised path. |
| ZipUtil.GetCanonicalPath | gszip/src/main/java/com/geansea/zip/GsZipUtil.java:89-107 | The same loop, with the same result for every path. |
| ZipUtil.LegacyCanonicalPath | libzip/src/main/java/com/geansea/zip/GsZipUtil.java:46-72 | The peek-guarded pop, then the StringBuilder of "/" + part with the first character dropped ("" for an empty stack), is the path normalised under the earlier rule. |
| ZipUtil.IndexOf | gszip/src/main/java/com/geansea/zip/GsZipUtil.java:110 | -1 exactly when the character is absent. Otherwise it is the first position holding the character. |
| ZipUtil.ParentPath | gszip/src/main/java/com/geansea/zip/GsZipUtil.java:109-115 | The text before the first '/', which holds no '/'. It is "" when the path has none. In libzip `GsZipUtil.java`, lines 74 to 80: The libzip revision is identical. |
| ZipUtil.ParentOfJoin | gszip/src/main/java/com/geansea/zip/GsZipUtil.java:109-115 | On a joined path the result is the first segment, not the immediate parent ("a/b/c" gives "a"). It is "" for a single segment. |
| ZipUtil.Skip | gszip/src/main/java/com/geansea/zip/GsZipUtil.java:57 | `InputStream.skip` over the range view: 0 for 0, the closed-stream error, otherwise as many bytes as the count or the end allows, with the position moved by that much. |
| ZipUtil.CalcStreamLength | gszip/src/main/java/com/geansea/zip/GsZipUtil.java:53-61 | After a restart, the skips add up to the range's length, cast to an int. The stream ends at the end of the range. A closed stream fails. |
| ZipUtil.CrcExtend | gszip/src/main/java/com/geansea/zip/GsZipUtil.java:40-42 | Feeding the next chunk of the range extends the CRC run over the range. |
| ZipUtil.ChunkStep | gszip/src/main/java/com/geansea/zip/GsZipUtil.java:40-42 | The bytes a read delivered, fed to the register, extend the run by exactly those bytes. |
| ZipUtil.CalcStreamCrc | gszip/src/main/java/com/geansea/zip/GsZipUtil.java:35-44 | After a restart, the CRC of all the chunks read is the CRC-32 of the whole range. A closed stream fails. |
| ZipUtil.MarkedStream.constructor | libzip/src/main/java/com/geansea/zip/GsZipUtil.java:25 | A stream marked at its first byte. |
| ZipUtil.MarkedStream.Reset | libzip/src/main/java/com/geansea/zip/GsZipUtil.java:25 | `reset` returns to the mark. |
| ZipUtil.MarkedStream.Read | libzip/src/main/java/com/geansea/zip/GsZipUtil.java:28 | 0 for an empty array and -1 at the end. Otherwise as many of the next bytes as fit, copied in order. |
| ZipUtil.MarkedStream.Skip | libzip/src/main/java/com/geansea/zip/GsZipUtil.java:39 | Nothing for a count that is not positive. Otherwise as far as the count or the end allows. |
| ZipUtil.IntCastAdd | libzip/src/main/java/com/geansea/zip/GsZipUtil.java:40 | Adding to the wrapped int accumulator wraps the true total. |
| ZipUtil.GetStreamLength | libzip/src/main/java/com/geansea/zip/GsZipUtil.java:35-44 | The length is the data's, wrapped to an int (exact below 2^31), and the stream is back at its mark. |
| ZipUtil.GetStreamCrc | libzip/src/main/java/com/geansea/zip/GsZipUtil.java:23-33 | The CRC-32 of the whole data, with the stream back at its mark. |
| Reader.ScanDown | gszip/src/main/java/com/geansea/zip/GsZipFile.java:150-159 | The scan stops at the highest offset of the window that holds the end-record signature. No offset above it does, and when it finds nothing, no offset in the window does. |
| Reader.EocdOffset | gszip/src/main/java/com/geansea/zip/GsZipFile.java:146-161 | A file shorter than 22 bytes fails "File too short", and only such a file. Otherwise the result is the highest offset in [max(len - 22 - 0xFFFF, 0), len - 22] holding the signature, or "Find central dir fail" when none does. |
| Reader.FindCentralDirEnd | gszip/src/main/java/com/geansea/zip/GsZipFile.java:147-161 | The scan loop, one 4-byte read per offset, finds exactly `EocdOffset`. |
| Reader.WrittenDirEndFound | gszip/src/main/java/com/geansea/zip/GsZipFile.java:146-167 | A valid end record written after any bytes is found at its own offset and read back as itself, provided its comment holds no later signature. |
| Reader.LoadDir | gszip/src/main/java/com/geansea/zip/GsZipFile.java:177-184 | When the directory loop succeeds from index i, it yields count - i entries numbered i, i+1, ..., and a consistent, grown tree. |
| Reader.LoadDirFinds | gszip/src/main/java/com/geansea/zip/GsZipFile.java:177-184 | Every entry the loop reads is found again by looking up its name in the final tree. |
| Reader.LoadDirOnlyListed | gszip/src/main/java/com/geansea/zip/GsZipFile.java:177-184 | Every entry in the final tree was read by the loop, or was already on that node before it. |
| Reader.ReadDirCases | gszip/src/main/java/com/geansea/zip/GsZipFile.java:170-185 | A directory range past the end of the file fails. Any other range below 2 GiB is read by the loop over exactly its bytes. |
| Reader.Window | gszip/src/main/java/com/geansea/zip/SubInputStream.java:48-68 | The bytes a stream over [start, end) delivers from its start: the whole range below 2 GiB, and otherwise as many as the int cast of its length, when that is not negative. |
| Reader.OpenedDir | gszip/src/main/java/com/geansea/zip/GsZipFile.java:27-37 | An opened archive holds the end record found by the scan and the directory read with it from an empty tree. |
| Reader.OpenedEntries | gszip/src/main/java/com/geansea/zip/GsZipFile.java:27-37 | After `create` there are exactly `getEntryCount` entries, numbered 0..n-1 in directory order, and each one's name looks up that entry. |
| Reader.OpenedLookupListed | gszip/src/main/java/com/geansea/zip/GsZipFile.java:129-133 | Every entry a path lookup finds in an opened archive is in its entry list. |
| Reader.OpenedNamesDistinct | gszip/src/main/java/com/geansea/zip/GsZipFile.java:177-184 | No two entries of an opened archive share their path segments, because the tree refuses the second with "Entry already exist". |
| Reader.EmptyArchiveOpens | gszip/src/main/java/com/geansea/zip/GsZipFile.java:27-37 | An archive that is only an empty end record opens with no entries and a bare root. |
| Reader.IntAdd | gszip/src/main/java/com/geansea/zip/GsZipFile.java:97 | Java int addition: exact while the sum stays below 2^31, and negative when it crosses into [2^31, 2^32). |
| Reader.LocalHeader | gszip/src/main/java/com/geansea/zip/GsZipFile.java:91-94 | An offset past the file fails as the stream constructor does. A distance to the end whose int cast is negative fails as the stream's first read does. A header that reads is the parse of `Window` from the offset to the end, is at least 30 bytes and fits in the file, and its name resolves. |
| Reader.DataRange | gszip/src/main/java/com/geansea/zip/GsZipFile.java:91-98 | A negative local offset fails. A success means: the local header at the offset reads and matches the central one, the data starts right after the local header, runs for the local compressed size, ends inside the file and is shorter than 2^31 bytes. |
| Reader.RangeBehind | gszip/src/main/java/com/geansea/zip/GsZipFile.java:95-98 | Once the local header at the offset is read: a success means the header matches the central one, the data starts right behind it, runs for the local compressed size, ends inside the file and is shorter than 2^31 bytes. |
| Reader.DataRangeFrom | gszip/src/main/java/com/geansea/zip/GsZipFile.java:91-98 | When the local header at a non-negative offset reads, `DataRange` is `RangeBehind` of that header. |
| Reader.RangeBehindAt | gszip/src/main/java/com/geansea/zip/GsZipFile.java:95-98 | A matching local header whose data range lies in a file below 2 GiB gives exactly the range behind the header, as long as its compressed size. |
| Reader.OpenPlan | gszip/src/main/java/com/geansea/zip/GsZipFile.java:84-121 | A folder needs nothing from the file, and only a folder. For a file, the plan's range is `DataRange`, it decrypts exactly for PKWARE and inflates exactly for method 8. Decryption demands a non-empty password, 12 header bytes and a check byte equal to the time or CRC check. A range error, unsupported encryption or unsupported compression fails. |
| Reader.ZipFile.Init | gszip/src/main/java/com/geansea/zip/GsZipFile.java:39-46 | A new archive object: an empty end record, an empty list, a bare root, UTF-8 names and an empty password. |
| Reader.ZipFile.Create | gszip/src/main/java/com/geansea/zip/GsZipFile.java:26-37 | Succeeds exactly when `Open` does, with its error otherwise. On success the object holds `Open`'s end record, entries and tree, with an empty password. |
| Reader.ZipFile.ReadCentralDirEnd | gszip/src/main/java/com/geansea/zip/GsZipFile.java:146-168 | Passes exactly when the record at the found offset reads, and the fields are that record. When the scan fails nothing changes. Otherwise the fields are what the in-place read leaves. |
| Reader.ZipFile.ReadCentralDir | gszip/src/main/java/com/geansea/zip/GsZipFile.java:170-185 | Passes exactly when `ReadDir` succeeds on the record's range and count. The entries are appended to the list and the tree becomes `ReadDir`'s. |
| Reader.ZipFile.ReadEntries | gszip/src/main/java/com/geansea/zip/GsZipFile.java:177-184 | When the stream's `Span()` is negative and there is an entry to read, the first read fails with IndexOutOfRange. Otherwise the loop does what `LoadDir` describes over the bytes the stream has left, stopping at the first error, and the list and tree grow by `LoadDir`'s entries and nodes. |
| Reader.ZipFile.ReadEntry | gszip/src/main/java/com/geansea/zip/GsZipFile.java:178-183 | One pass: IndexOutOfRange when the stream's `Span()` is negative. Otherwise the error of `LoadDir`'s first step, or an entry that is the head of `LoadDir` with the rest read from where the stream now stands. |
| Reader.ZipFile.ReadCentralHeader | gszip/src/main/java/com/geansea/zip/GsZipFile.java:178-179 | A new header read in the central layout: IndexOutOfRange when `Span()` is negative, otherwise `Parse` of the bytes the stream has left, no longer than those bytes. |
| Reader.ZipFile.ReadNewHeader | gszip/src/main/java/com/geansea/zip/GsZipFile.java:178-179 | A new header read in either layout: IndexOutOfRange when `Span()` is negative, otherwise `Parse` of the bytes left, and on success the cursor moves by its `byteSize`. |
| Reader.ZipFile.EnterHeader | gszip/src/main/java/com/geansea/zip/GsZipFile.java:181-183 | The entry made from a parsed header and filed in list and tree: the error of `LoadDir`'s first step, or the head of `LoadDir` with the rest read behind that header. |
| Reader.ZipFile.FileEntry | gszip/src/main/java/com/geansea/zip/GsZipFile.java:182-183 | The entry is appended to the list (before `addChild`, so even when that fails), and the tree becomes what `Insert` builds, or the insertion's error is returned. |
| Reader.ZipFile.NeedPassword | gszip/src/main/java/com/geansea/zip/GsZipFile.java:52-61 | True exactly when some entry is encrypted. |
| Reader.ZipFile.SetPassword | gszip/src/main/java/com/geansea/zip/GsZipFile.java:63-65 | The password is replaced and nothing else changes. |
| Reader.ZipFile.SetDefaultCharset | gszip/src/main/java/com/geansea/zip/GsZipFile.java:48-50 | Only the charset changes, and `getComment` now decodes with it. |
| Reader.ZipFile.GetEntry | gszip/src/main/java/com/geansea/zip/GsZipFile.java:76-81 | The entry at the index when 0 <= index < size, and an error otherwise. |
| Reader.ZipFile.GetEntryByPath | gszip/src/main/java/com/geansea/zip/GsZipFile.java:129-133 | The entry of the node the path leads to, or nothing. |
| Reader.ZipFile.LocateData | gszip/src/main/java/com/geansea/zip/GsZipFile.java:91-98 | The statement-by-statement checks give exactly `DataRange`. |
| Reader.ZipFile.CheckLocal | gszip/src/main/java/com/geansea/zip/GsZipFile.java:95-98 | The match check, the int sum for the start and the range stream's checks give exactly `RangeBehind`. |
| Reader.ZipFile.ReadLocalHeader | gszip/src/main/java/com/geansea/zip/GsZipFile.java:91-94 | The stream from the offset to the end of the file (with its int-cast read count), the header read from it, then turned into an entry to resolve its name, is `LocalHeader`, errors included. |
| Reader.ZipFile.OpenLayer | gszip/src/main/java/com/geansea/zip/GsZipFile.java:99-110 | The raw range stream for an unencrypted entry. For PKWARE, a fresh decrypting stream over it, holding the password and positioned at the first plaintext byte. Otherwise the error of the checks: "Need password", a wrong password or a short range, or "Not supported encrypt method". |
| Reader.ZipFile.OpenData | gszip/src/main/java/com/geansea/zip/GsZipFile.java:98-121 | A fresh range stream exactly over the data, wrapped for decryption exactly when the plan says so, with inflation flagged for method 8. Otherwise the plan's error. |
| Reader.ZipFile.GetInputStream | gszip/src/main/java/com/geansea/zip/GsZipFile.java:83-127 | Succeeds exactly when `OpenPlan` for the entry does, with its error otherwise. A folder gets a fresh empty stream. A file gets the streams over exactly the plan's range. |
| Reader.ZipFile.GetInputStreamByPath | gszip/src/main/java/com/geansea/zip/GsZipFile.java:135-139 | Nothing when no entry has the path. Otherwise the outcome of `getInputStream` at that entry's index. |
| LegacyReader.LegacyDirEnd | libzip/src/main/java/com/geansea/zip/GsZipFile.java:127-150 | The libzip reader's record, when it reads, passes `checkValid`, so its signed entry count is not negative. A failed scan gives the scan's error. |
| LegacyReader.StrictRange | libzip/src/main/java/com/geansea/zip/util/GsZipSubStream.java:18-26 | The older range stream's checks pass exactly when offset < end < file length. Otherwise "Error length" (start not before end) or "Error end offset". |
| LegacyReader.LegacyReadDir | libzip/src/main/java/com/geansea/zip/GsZipFile.java:152-167 | A range that fails the strict checks fails with their error, before the count is looked at. A success gives a consistent tree and as many entries as the signed count, or none for a count that is not positive. |
| LegacyReader.LegacyOpen | libzip/src/main/java/com/geansea/zip/GsZipFile.java:31-41 | The archive is the record `LegacyDirEnd` reads and the directory `LegacyReadDir` reads with it, and the record's error comes first. |
| LegacyReader.LegacyDirEndOfWritten | libzip/src/main/java/com/geansea/zip/GsZipFile.java:127-150 | A valid record whose length field is its comment's length, written after any bytes, is what the libzip reader reads. |
| LegacyReader.LegacyReadDirAgrees | libzip/src/main/java/com/geansea/zip/GsZipFile.java:152-167 | For a non-empty directory range below 2^31 that ends before the file's last byte, and a count below 2^15, the libzip reader reads the same directory as the newest one. |
| LegacyReader.LegacyOpenedEntries | libzip/src/main/java/com/geansea/zip/GsZipFile.java:31-41 | After opening, the entries number as many as the count, numbered 0..n-1 in directory order, and each one's name looks up that entry. |
| LegacyReader.LegacyEmptyArchiveRejected | libzip/src/main/java/com/geansea/zip/util/GsZipSubStream.java:21 | An archive that is only an empty end record opens in the newest reader, but the libzip one refuses it with "Error length", because its directory range is empty. |
| LegacyReader.LegacyDecryptCheck | libzip/src/main/java/com/geansea/zip/util/GsZipPKWareDecryptStream.java:19-41 | The one-shot decrypting stream's constructor, after the method and password checks, fails and passes exactly as the newest reader's checks do. |
| LegacyReader.LegacyOpenPlan | libzip/src/main/java/com/geansea/zip/GsZipFile.java:74-111 | A folder reads nothing, and only a folder. For a file in an archive under 2 GiB, `getInputStream` always fails: "Error end offset" when the local offset is inside the file, because the stream to the file length ends at the file's length, which the check refuses. A plan that succeeds decrypts exactly for PKWARE and inflates exactly for method 8. |
| LegacyReader.RelaxedRange | libzip/src/main/java/com/geansea/zip/util/GsZipSubStream.java:18-26 | The evidently intended check passes exactly when offset < end <= file length, with the same errors. |
| LegacyReader.LegacyDataRange | libzip/src/main/java/com/geansea/zip/GsZipFile.java:80-85 | Through the corrected range stream, the data range lies inside the file. |
| LegacyReader.LegacyWindowRange | libzip/src/main/java/com/geansea/zip/util/GsZipSubStream.java:32-35 | The header read and matched in the window, then the end reset to the position after it plus the central compressed size, stays inside the file. |
| LegacyReader.LegacyRangeBehind | libzip/src/main/java/com/geansea/zip/GsZipFile.java:84-85 | Once the local header at the offset is read: a success means it matches the central one, the data starts right behind it, and its end, reset by the central compressed size, lies between start and the file length. |
| LegacyReader.LegacyBehindAt | libzip/src/main/java/com/geansea/zip/GsZipFile.java:84-85 | A matching local header whose range, set by the central compressed size, lies in a file below 2 GiB gives exactly that range. |
| LegacyReader.LegacyOpenPlanFixed | libzip/src/main/java/com/geansea/zip/GsZipFile.java:74-111 | With the corrected range stream, a folder reads nothing and a range error is returned as is. A plan's range is `LegacyDataRange` inside the file, decrypting exactly for PKWARE and inflating exactly for method 8. |
| LegacyReader.LegacyFixedAgrees | libzip/src/main/java/com/geansea/zip/GsZipFile.java:74-111 | On a file under 2 GiB, wherever the newest reader finds an entry's data (and the central compressed size is the local one), the corrected libzip reader builds the same range and plan, while the reader as written fails. |
| LegacyReader.FixedPlanFollowsRange | libzip/src/main/java/com/geansea/zip/GsZipFile.java:87-109 | Plans built over the same range agree. |
| LegacyReader.LegacyRangeAgrees | libzip/src/main/java/com/geansea/zip/GsZipFile.java:80-85 | The corrected range equals the newest reader's range under the same conditions. |
| LegacyReader.LegacyRangeAt | libzip/src/main/java/com/geansea/zip/GsZipFile.java:80-85 | The corrected range is the newest reader's range wherever the central compressed size spans it. |
| LegacyReader.WholeWindow | libzip/src/main/java/com/geansea/zip/GsZipFile.java:80 | On a file under 2 GiB, the stream to the int-cast file length shows the whole file. |
| LegacyReader.WindowAt | libzip/src/main/java/com/geansea/zip/util/GsZipSubStream.java:32-35 | In that window, an entry whose local header reads and matches has its data right behind the header. |
| Packer.NewInfoStamp | gszip/src/main/java/com/geansea/zip/GsZipPacker.java:190-199 | A new entry is named by the UTF-8 bytes of its name, stored and unflagged, and carries its source's modification time exactly when it is a file. In libzip `GsZipPacker.java`, lines 190 to 203: The libzip entry carries the time stamp exactly when it is a folder, because its isFile() answers whether the path is empty; files keep a zero date and time. |
| Packer.Appended | gszip/src/main/java/com/geansea/zip/GsZipPacker.java:49-51 | Appending an entry the queue admits keeps the queue's invariant: every entry admitted by those before it, and the name map the one the list describes. |
| Packer.FolderAddedCases | gszip/src/main/java/com/geansea/zip/GsZipPacker.java:59-83 | addFolder step by step: an empty name fails, an existing folder is success with no change, an existing file fails, and a new folder is appended after its parent, which must go in first. |
| Packer.FolderAddedKeeps | gszip/src/main/java/com/geansea/zip/GsZipPacker.java:59-83 | addFolder fails exactly on an empty name, a name or parent that names a file; success keeps the invariant, only appends, adds no name but the folder and its parent, and maps the folder to no source. In libzip `GsZipPacker.java`, lines 61 to 85: The same for libzip, whose names are normalised by getCanonicalPath. |
| Packer.FolderUnderParent | gszip/src/main/java/com/geansea/zip/GsZipPacker.java:70-78 | A new folder with a parent: the parent is added first and fails exactly when it names a file; otherwise the folder is admitted behind it. |
| Packer.SameEntriesIndexed | gszip/src/main/java/com/geansea/zip/GsZipPacker.java:104-107 | packTo updates only headers, so the list stays as orderly and describes the same name map as before. |
| Packer.FileAddedKeeps | gszip/src/main/java/com/geansea/zip/GsZipPacker.java:37-57 | addFile fails on an empty name, then on a source that is not a file, then on a queued name, then exactly when the parent names a file; success keeps the invariant, only appends, maps the name to the source and ends the list with the file. In libzip `GsZipPacker.java`, lines 39 to 59: The same for libzip, whose names are normalised by getCanonicalPath. |
| Packer.FileAddedQueued | gszip/src/main/java/com/geansea/zip/GsZipPacker.java:43-52 | For a new name and a real source file, addFile fails exactly when the parent names a file. |
| Packer.FileAtTop | gszip/src/main/java/com/geansea/zip/GsZipPacker.java:44-52 | A file without a parent folder is appended directly and adds exactly its own name. |
| Packer.FileBesideParent | gszip/src/main/java/com/geansea/zip/GsZipPacker.java:44-52 | Once the parent folder went in, appending the file keeps the invariant and maps the name to the source. |
| Packer.FileUnderParent | gszip/src/main/java/com/geansea/zip/GsZipPacker.java:44-52 | A file with a parent: the parent folder is added first, and its failure is the file's failure. |
| Packer.FileStep | gszip/src/main/java/com/geansea/zip/GsZipPacker.java:44-52 | After the early returns, addFile succeeds exactly when the parent went in, and then appends the file to the queue the parent left. |
| Packer.FileUnderFolder | gszip/src/main/java/com/geansea/zip/GsZipPacker.java:49-51 | Appending an admitted file to a grown queue keeps the invariant and adds exactly its name. |
| Packer.Grown | gszip/src/main/java/com/geansea/zip/GsZipPacker.java:75-77 | Appending an admitted folder to a grown queue keeps the invariant and extends the original queue. |
| Packer.CompressChoice | gszip/src/main/java/com/geansea/zip/GsZipPacker.java:117-133 | The CRC is the source's, the uncompressed size is its length, and the deflated bytes replace the source, flagged DEFLATE, exactly when the source is not empty and they are shorter. In libzip `GsZipPacker.java`, lines 115 to 133: The same choice in libzip, through marked buffered streams. |
| Packer.SealOpens | gszip/src/main/java/com/geansea/zip/GsZipPacker.java:135-144 | The encrypted payload is 12 bytes longer, the size field says so, and the same password decrypts it to the 12-byte header ending in the time check, then the payload. |
| Packer.SealedEntryDecrypts | gszip/src/main/java/com/geansea/zip/GsZipPacker.java:135-144 | An entry the packer encrypted passes every decryption check of the reader with the same password. |
| Packer.StageFits | gszip/src/main/java/com/geansea/zip/GsZipPacker.java:117-144 | A file's stage keeps the header's other fields, the source's CRC and length and the method chosen; without a password the payload is the compressed stage, with one it decrypts to the 12-byte header ending in the time check, then the compressed stage; the size field is the payload's length. In libzip `GsZipPacker.java`, lines 115 to 146: With a password, a non-empty source that did not deflate shorter seals nothing behind the header, because the deflate pass drained the buffered file stream that the encryption stream then reads. |
| Packer.LibzipSealDropsData | libzip/src/main/java/com/geansea/zip/GsZipPacker.java:123-146 | A libzip file encrypted without being compressed is written with compressed size 12, its uncompressed size and CRC those of the source, and 12 bytes that decrypt to the check header and nothing else; the newest packer writes 12 + the source's length bytes that decrypt to the header and the source. |
| Packer.LocalRun | gszip/src/main/java/com/geansea/zip/GsZipPacker.java:103-157 | The first loop changes only headers, of the entries it reached, and never the order or the names. |
| Packer.LocalStep | gszip/src/main/java/com/geansea/zip/GsZipPacker.java:104-156 | One pass of the first loop changes only the header of its own entry. |
| Packer.CentralRun | gszip/src/main/java/com/geansea/zip/GsZipPacker.java:159-165 | The second loop changes only headers, of the entries it reached. |
| Packer.CentralStep | gszip/src/main/java/com/geansea/zip/GsZipPacker.java:160-165 | One pass of the second loop changes only the header of its own entry. |
| Packer.LocalStepExtends | gszip/src/main/java/com/geansea/zip/GsZipPacker.java:103-157 | A first loop that got through n entries got through n - 1, and extends its bytes and headers. |
| Packer.LocalStepOf | gszip/src/main/java/com/geansea/zip/GsZipPacker.java:104-156 | A successful pass over entry n - 1 appends that entry's bytes, records its new header and advances streamOffset. |
| Packer.LocalStepAt | gszip/src/main/java/com/geansea/zip/GsZipPacker.java:104-156 | The same for the pass over entry k. |
| Packer.CentralStepExtends | gszip/src/main/java/com/geansea/zip/GsZipPacker.java:159-165 | A second loop that got through n entries got through n - 1 and extends its bytes and headers. |
| Packer.EndBytes | gszip/src/main/java/com/geansea/zip/GsZipPacker.java:172-174 | The bytes written for the end record are exactly the record's byteSize. The newest record fails only with a put's BufferOverflowException. |
| Packer.Pack | gszip/src/main/java/com/geansea/zip/GsZipPacker.java:101-180 | packTo is the first loop, the second loop, then the end record. A caught error ends it with false and an uncaught one escapes. The newest packer lets only BufferOverflowException escape, and libzip never returns false, since it catches only IOException. In libzip `GsZipPacker.java`, lines 99 to 183: The same loops and end record, with every error escaping; with a password, a file that did not deflate shorter has only the 12 encrypted header bytes behind its local header (`Packer.LibzipSealDropsData`). |
| Packer.PackEntryLayout | gszip/src/main/java/com/geansea/zip/GsZipPacker.java:105-156 | A pass signs the header local, gives it the offset the pass started at and keeps its shape, and writes the header followed, for a file, by compSize bytes. |
| Packer.PackEntryAdvance | gszip/src/main/java/com/geansea/zip/GsZipPacker.java:107-155 | Below 2 GiB, the recorded offset reads back as the start, and streamOffset grows by exactly what was written. |
| Packer.PackEntryBytes | gszip/src/main/java/com/geansea/zip/GsZipPacker.java:146-154 | A pass appends the header as writeTo writes it, then for a file compSize more bytes. |
| Packer.PackEntryPayload | gszip/src/main/java/com/geansea/zip/GsZipPacker.java:146-154 | What a file's pass writes after the header is its stage's payload. |
| Packer.LocalRunKeeps | gszip/src/main/java/com/geansea/zip/GsZipPacker.java:103-157 | A first loop that got through n entries got through every prefix, whose bytes it extends and whose headers it keeps. |
| Packer.LocalFailStays | gszip/src/main/java/com/geansea/zip/GsZipPacker.java:176-179 | A write that throws ends the first loop: later entries change nothing. |
| Packer.LocalRunUnfolds | gszip/src/main/java/com/geansea/zip/GsZipPacker.java:104-156 | The loop over n entries is the pass over entry n - 1 after the loop over the rest. |
| Packer.LocalRunOffset | gszip/src/main/java/com/geansea/zip/GsZipPacker.java:103-157 | Below 2 GiB, streamOffset is the number of bytes written and every header keeps its shape. |
| Packer.PassHeader | gszip/src/main/java/com/geansea/zip/GsZipPacker.java:105-107 | The pass over entry k starts where earlier bytes end and leaves a local header recording that offset. |
| Packer.PassOffset | gszip/src/main/java/com/geansea/zip/GsZipPacker.java:107 | The offset the k-th header records is where the bytes before it end. |
| Packer.PassLayout | gszip/src/main/java/com/geansea/zip/GsZipPacker.java:146-156 | The pass over entry k lies in the bytes as its local header followed by the rest of what it wrote. |
| Packer.PassLength | gszip/src/main/java/com/geansea/zip/GsZipPacker.java:147-155 | The pass over entry k writes byteSize bytes plus, for a file, the compressed size. |
| Packer.PassData | gszip/src/main/java/com/geansea/zip/GsZipPacker.java:148-155 | For a file, what the pass writes after its header is its stage's payload: the source or its deflation, encrypted when there is a password (for libzip, only the header when the source did not deflate shorter). |
| Packer.PassAt | gszip/src/main/java/com/geansea/zip/GsZipPacker.java:103-157 | The bytes of the k-th pass lie in the final output at the offset the loop had reached. |
| Packer.LocalHeaderAt | gszip/src/main/java/com/geansea/zip/GsZipPacker.java:103-157 | Each local header lies at the offset it records, which is the length of what came before, and reads back there. |
| Packer.LocalDataAt | gszip/src/main/java/com/geansea/zip/GsZipPacker.java:117-156 | Each file's compSize bytes after its local header are its payload. |
| Packer.LocalSliceAt | gszip/src/main/java/com/geansea/zip/GsZipPacker.java:146-156 | Each file's data in the output is what its own pass wrote after its header. |
| Packer.CentralStepOf | gszip/src/main/java/com/geansea/zip/GsZipPacker.java:160-165 | A successful central pass signs the header central, appends it as written, and adds its byteSize to dirSize. |
| Packer.CentralRunKeeps | gszip/src/main/java/com/geansea/zip/GsZipPacker.java:159-165 | A second loop that got through n entries got through every prefix, whose bytes it extends. |
| Packer.CentralFailStays | gszip/src/main/java/com/geansea/zip/GsZipPacker.java:159-165 | A central header that cannot be written ends the second loop. |
| Packer.CentralRunSize | gszip/src/main/java/com/geansea/zip/GsZipPacker.java:159-165 | Below 2 GiB, dirSize is the number of central bytes written. |
| Packer.CentralHeaderOf | gszip/src/main/java/com/geansea/zip/GsZipPacker.java:161-163 | The second loop leaves each entry's header signed central. |
| Packer.CentralParsesBehind | gszip/src/main/java/com/geansea/zip/GsZipPacker.java:163 | A central header written after earlier bytes reads back there, whatever follows. |
| Packer.CentralPrefixAt | gszip/src/main/java/com/geansea/zip/GsZipPacker.java:160-165 | The first k + 1 central headers are the first k followed by the k-th written. |
| Packer.EndRecordHolds | gszip/src/main/java/com/geansea/zip/GsZipPacker.java:167-170 | For fewer than 32768 entries and a short comment, the end record is valid and holds the count, the directory's offset and size, and the comment. |
| Packer.EndBytesEncode | gszip/src/main/java/com/geansea/zip/GsZipPacker.java:172-174 | The newest packer writes the end record exactly, with no padding. In libzip `GsZipPacker.java`, lines 169 to 177: The libzip packer, with the util end record class, writes it exactly too. |
| Packer.EndBytesNewest | gszip/src/main/java/com/geansea/zip/GsZipPacker.java:167-174 | The newest end record write fails exactly when the comment has 65514 bytes or more. Then the masked byteSize makes the array smaller than the record, and the comment's put overflows. |
| Packer.EndBytesLibzip | libzip/src/main/java/com/geansea/zip/GsZipPacker.java:169-177 | For a comment below 65514 bytes, the libzip write fails with a negative array size for a comment of 32768 bytes or more. Otherwise it fails checkValid for 32768 to 65535 entries (modulo 65536), and otherwise writes the record exactly. |
| Packer.PackEndVerdict | gszip/src/main/java/com/geansea/zip/GsZipPacker.java:167-179 | Once both loops pass, the newest packTo returns true unless the comment has 65514 bytes or more, when BufferOverflowException escapes. libzip throws on a comment of 32768 bytes or more, then on 32768 to 65535 entries (modulo 65536), and otherwise returns true. In libzip `GsZipPacker.java`, lines 169 to 182: The end record part of the libzip packTo, whose catch is for IOException only. |
| Packer.PackParts | gszip/src/main/java/com/geansea/zip/GsZipPacker.java:101-180 | A successful packTo writes the first loop's bytes, the central directory, then an end record whose count, offset and size are the entry count and the byte counts. In libzip `GsZipPacker.java`, lines 99 to 183: The same for libzip, with the password and comment in UTF-8, whose first loop seals only the header for a file that did not deflate shorter. |
| Packer.PackLocalAt | gszip/src/main/java/com/geansea/zip/GsZipPacker.java:101-180 | In the packed archive each local header lies at the offset it records and reads back there. |
| Packer.PackedDataAt | gszip/src/main/java/com/geansea/zip/GsZipPacker.java:117-157 | In the packed archive each file's data follows its local header and is its payload. |
| Packer.PackedCentralAt | gszip/src/main/java/com/geansea/zip/GsZipPacker.java:159-165 | In the packed archive the k-th central header lies after the earlier ones and reads back as that entry signed central. |
| Packer.PackDirEnd | gszip/src/main/java/com/geansea/zip/GsZipPacker.java:167-174 | The reader's backward scan finds the end record packTo wrote and reads it back. |
| Packer.RunDirEnd | gszip/src/main/java/com/geansea/zip/GsZipPacker.java:167-174 | The same, on the loops' bytes followed by the encoded record. |
| Packer.DirEndBehind | gszip/src/main/java/com/geansea/zip/GsZipPacker.java:174 | A valid end record written after any bytes is the one the reader's backward scan finds. |
| PackerObject.ZipPacker.constructor | gszip/src/main/java/com/geansea/zip/GsZipPacker.java:26-31 | A new packer has an empty queue, UTF-8 as its charset and an empty comment. In libzip `GsZipPacker.java`, lines 29 to 33: The libzip packer starts the same way. |
| PackerObject.ZipPacker.SetDefaultCharset | gszip/src/main/java/com/geansea/zip/GsZipPacker.java:33-35 | Only the charset changes. |
| PackerObject.ZipPacker.SetComment | gszip/src/main/java/com/geansea/zip/GsZipPacker.java:85-87 | Only the comment changes. |
| PackerObject.ZipPacker.AddFolder | gszip/src/main/java/com/geansea/zip/GsZipPacker.java:59-83 | The result and the new queue are FolderAdded's; a failure changes nothing; the invariant is kept. In libzip `GsZipPacker.java`, lines 61 to 85: The same for the libzip packer. |
| PackerObject.ZipPacker.AddNewFolder | gszip/src/main/java/com/geansea/zip/GsZipPacker.java:70-78 | A new folder is appended after its parent, as FolderAdded says. |
| PackerObject.ZipPacker.AddFile | gszip/src/main/java/com/geansea/zip/GsZipPacker.java:37-57 | The result and the new queue are FileAdded's; a failure changes nothing; the invariant is kept. In libzip `GsZipPacker.java`, lines 39 to 59: The same for the libzip packer. |
| PackerObject.ZipPacker.AddNewFile | gszip/src/main/java/com/geansea/zip/GsZipPacker.java:44-52 | A new file is appended after its parent folder, as FileAdded says. |
| PackerObject.ZipPacker.Append | gszip/src/main/java/com/geansea/zip/GsZipPacker.java:49-51 | The entry goes at the end of the list and its name is mapped to its source. |
| PackerObject.ZipPacker.PackTo | gszip/src/main/java/com/geansea/zip/GsZipPacker.java:101-180 | The bytes written, and how the call ends, are Pack's: true, false for a caught error, or the error that escapes. The list keeps its entries with the headers the loops left. In libzip `GsZipPacker.java`, lines 99 to 183: The same for the libzip packer, as libzip's `Pack` writes it, the drained stream included. |
| PackerObject.ZipPacker.PackToPath | gszip/src/main/java/com/geansea/zip/GsZipPacker.java:89-99 | An existing file gives false with nothing written. Otherwise the call ends as packTo does, and an error that escapes packTo escapes this call too. In libzip `GsZipPacker.java`, lines 87 to 97: The same for the libzip packer. |
| PackerObject.LocalLoop | gszip/src/main/java/com/geansea/zip/GsZipPacker.java:103-157 | The loop computes exactly LocalRun over the whole list. |
| PackerObject.LocalPass | gszip/src/main/java/com/geansea/zip/GsZipPacker.java:104-156 | One pass of the first loop over entry i: from the state `LocalRun` reaches before i, it reaches the state `LocalRun` reaches after i. |
| PackerObject.CentralLoop | gszip/src/main/java/com/geansea/zip/GsZipPacker.java:159-165 | The loop computes exactly CentralRun over the whole list. |
| PackedOpen.PackedEntryOpens | gszip/src/main/java/com/geansea/zip/GsZipPacker.java:101-180 | Opening any file of a packed archive, the reader finds its data right behind its local header, as long as its compressed size; the libzip reader finds the same range but refuses the entry. |
| PackedOpen.RunEntryOpens | gszip/src/main/java/com/geansea/zip/GsZipPacker.java:103-157 | Each file's local header reads back at its offset and its data ends before the end of the archive. |
| PackedOpen.EntryBehindHeader | gszip/src/main/java/com/geansea/zip/GsZipFile.java:91-98 | An entry whose local header reads back at its offset has its data range right behind the header. In libzip `GsZipFile.java`, lines 80 to 85: The libzip reader computes the same range, yet refuses a file entry through its strict range check. |
| PackedOpen.DataBehindHeader | gszip/src/main/java/com/geansea/zip/GsZipFile.java:91-98 | The newest reader's half: the data range is what follows the local header. |
| ZipCommon.Check | gszip/src/main/java/com/geansea/zip/GsZipUtil.java:22-26 | check passes exactly when the state holds, and otherwise fails with the given error. |
| Headers.MaskBits | gszip/src/main/java/com/geansea/zip/EntryHeader.java:112-113 | The encryption mask 0x0041 keeps exactly bits 0 and 6 of the flags. |
| Headers.WrapYear | gszip/src/main/java/com/geansea/zip/EntryHeader.java:148-150 | The cast to short keeps the year offset modulo 128 above the month and day bits. |
| Reader.LoadDirAt | gszip/src/main/java/com/geansea/zip/GsZipFile.java:170-185 | One pass of the directory loop: a header that fails to parse, an entry whose name fails, or a tree insertion that fails ends the load with that error; otherwise the entry leads what the rest loads. |
| Reader.WrittenDirEndAt | gszip/src/main/java/com/geansea/zip/GsZipFile.java:146-161 | A valid record written after any bytes, with no later signature in its comment, is found at the offset where it starts. |
| ZipCommon.Le16 | gszip/src/main/java/com/geansea/zip/CentralDirEnd.java:96-104 | putShort writes two bytes, low byte first, that add back up to the value. |
| ZipCommon.Le32 | gszip/src/main/java/com/geansea/zip/CentralDirEnd.java:96-104 | putInt writes four bytes, low byte first, that add back up to the value. |
| ZipCommon.Le16RoundTrip | gszip/src/main/java/com/geansea/zip/CentralDirEnd.java:96-104 | A 16-bit field put little-endian reads back as the same value, wherever it lies. |
| ZipCommon.Le32RoundTrip | gszip/src/main/java/com/geansea/zip/CentralDirEnd.java:96-104 | A 32-bit field put little-endian reads back as the same value, wherever it lies. |
| ZipCommon.Signed32 | gszip/src/main/java/com/geansea/zip/CentralDirEnd.java:80-81 | Java's signed reading of an int field lies in the int range and differs from the unsigned value by 0 or 2^32. |
| ZipCommon.IntCast | gszip/src/main/java/com/geansea/zip/GsZipFile.java:162 | The int cast of a long always gives an int. It keeps every value an int can hold, and makes a value of 2^31 or more smaller. |
| ZipCommon.IntCastShift | gszip/src/main/java/com/geansea/zip/SubInputStream.java:57 | Lowering a long by an amount between 0 and its int cast lowers the int cast by the same amount. |

## Left out

- DEFLATE and INFLATE (`DeflaterInputStream`, `InflaterInputStream`, `java.util.zip.Deflater`) are not part of this model. The packer takes the raw DEFLATE codec as the `deflate` parameter, and the reader only records that an entry is to be inflated.
- `java.util.zip.CRC32` is a library call. Whole-buffer CRC-32 is defined from the PKWARE table instead, as the same reflected 0xEDB88320 code.
- Charset encoding and decoding are library calls. They are the `Charset` and `decode` parameters; only UTF-8 encoding is written out.
- `java.util.Random` in the encrypting streams is a parameter: the random header bytes, and the packer's `salt` per entry.
- `RandomAccessFile`, `FileInputStream`, `FileOutputStream` and `File` are I/O. A file is a `seq<byte>`, an output stream is the sequence written to it, and `isFile`, `exists`, `lastModified` and a source's bytes come from the `FileSystem` parameter.
- `BufferedInputStream` mark and reset in `GsZipUtil` are modelled by `ZipUtil.MarkedStream` over a byte sequence, not as the library class. The libzip packer's chain of buffered, deflating and encrypting streams is not modelled as streams: `Packer.StageOf` states what it delivers, including the file stream its deflate pass drains (`Packer.Drained`).
- `synchronized` blocks in the readers and range streams are concurrency; the model is single-threaded.
- `GsZip.java` (directory traversal, `mkdirs`) of both revisions and the demo app are I/O plumbing and are not part of this model.
- `GsZipException` is only an exception class; every thrown exception is an `Err` or `Fail` value whose error kind names it, and `Packer.Verdict` records an error that escapes `packTo`. The libzip `GsZipInputStream` only holds an always-failing `restart`, which `Streams.ZipInputStream.Restart` already states.
- Length fields above 32767 read as negative `short` values in Java, and the array allocation then throws. The model reads them signed too and returns a `NegativeLength` error value instead of the JVM exception.
- The libzip test archives under `src/test` are binary files; their expected sizes and CRCs are not restated.
- Streams.SubInputStream.Read: a short `RandomAccessFile.read` is not modelled; each read delivers the full clamped count.
- CryptoStreams.PKWareEncryptInputStream and CryptoStreams.PKWareDecryptInputStream: the base stream is a `Streams.SubInputStream`, where Java accepts any `GsZipInputStream`. Encrypting a deflated stream is therefore stated on byte sequences (`Packer.StageFits`) rather than through a stream chain.
- ZipUtil.CalcStreamLength and ZipUtil.CalcStreamCrc: the stream is a `Streams.SubInputStream`, for the same reason; the packer's passes over deflating and encrypting streams are stated on byte sequences.
- Headers and LegacyReader: the libzip `util.GsZipEntryHeader` and `util.GsZipUtil` classes are not part of this model. The libzip reader and the `Libzip` packer revision use the newest header codec in their place.
- LegacyReader: the libzip `GsZipFile` is modelled by functions over the file's bytes (open, directory, data range, open plan), not as a class. Its `getEntry`, `needPassword` and `getComment` match the newest reader's and are not repeated.
- LegacyReader.LegacyOpenPlan: a negative central compressed size fails when the plan is built; Java fails at the first read of the stream.
- EntryTree.EntryNodes.AddChild: libzip reports its two failures with `Preconditions.checkState`, an unchecked exception; the model returns the same error values as for the newest tree.
- Reader.DataRange: when Java's int sum of the local offset and the header size wraps below zero, the model refuses the entry with `NegativeOffset`. Java builds the range stream anyway. Its reads then fail, and an empty stored entry reads as an immediate end.
- Reader.ZipFile: `size`, `getComment` and `getEntryTree` only return fields and carry no contract of their own.
- CryptoStreams: the libzip `PKWareDecryptStream` has no closed flag, so its `close` does not disable later reads. The model does not carry that difference.
- CryptoStreams: the signed single-byte reads of the libzip `PKWareDecryptStream` and `GsZipPKWareDecryptStream` and of the gszip `util.GsZipPkwareDecryptStream` are not modelled per class. The sign extension they share is stated once, on `Streams.LegacySubStream.ReadByte`: the bytes 0x80 to 0xFE read back as -128 to -2, and 0xFF as -1, the end-of-stream value.
- CryptoStreams: the single-byte read of the libzip `util.GsZipPkwareEncryptStream` is not modelled. It returns a header byte sign-extended, and a body byte as the base stream's value XORed with the sign-extended keystream byte, so an encrypted byte of 0x80 or more reads as a negative int.
- Reader.ZipFile.OpenLayer and Reader.ZipFile.OpenData: they take a data range shorter than 2^31 bytes, which every range `Reader.DataRange` accepts is, since the compressed size that sets its length is a Java int.
- Reader.RangeBehind and Reader.ZipFile.CheckLocal: they take a local header that has been read, so at least 30 bytes long, and a local offset that is a non-negative Java int, as `Reader.DataRange` supplies.
- CryptoStreams.PKWareEncryptInputStream.Available and CryptoStreams.PKWareDecryptInputStream.Available: "0 exactly at the end of the output" is stated only for ranges below 2 GiB. On a longer range the base reports 1 while its cursor is before the range's end, even where its reads, limited by the int-cast count, deliver no more.
- PackerObject.ZipPacker.PackTo: libzip calls `setComment` twice with the same arguments; the model calls it once, which leaves the same record.
- Packer.Caught: the libzip `util.GsZipEntryHeader` is not part of this model. Its check failures are taken to escape libzip's `packTo` as the util end record's `Preconditions.checkState` failures do, since `packTo` declares no exception and catches only `IOException`.
- Packer: the `Date` round trip through `File.lastModified` is a calendar tuple from the `FileSystem` parameter, not a millisecond clock.

## Findings

| source | as written | input that shows it | evidently intended | confidence | as-written member | corrected member |
|---|---|---|---|---|---|---|
| libzip/src/main/java/com/geansea/zip/util/GsZipSubStream.java:21-35 | The range stream requires its end to lie strictly below the file length, and the one-offset constructor and the reader's `resetSize` both ask for a range that ends at the file length or at an entry's last byte | any archive under 2 GiB that holds a file entry: opening that entry is refused, because the stream over its local header ends at the file length | an end equal to the file length is allowed (`end <= length`), as in `SubInputStream` | high, not executed | LegacyReader.LegacyOpenPlan | LegacyReader.LegacyOpenPlanFixed |
| gszip/src/main/java/com/geansea/gszip/util/GsZipCentralDirEnd.java:74-80 | `setComment` stores the comment's character count as its length | the comment "中": one character, three UTF-8 bytes, so `byteSize()` is 23 while the record needs 25, and a record read back keeps only the byte 0xE4 | the length is the number of encoded bytes | high, not executed | Eocd.CharCountCommentBreaks | Eocd.ByteCountCommentReadsBack |
| libzip/src/main/java/com/geansea/zip/util/GsZipSubStream.java:42-47 | the single-byte read returns the byte sign-extended | a stream holding the one byte 0xFF reads like an empty stream: -1 at once | the byte as 0..255, and -1 only at the end | high, not executed | Streams.SignedByteAtLosesFF | Streams.UnsignedByteAtEnds |
| libzip/src/main/java/com/geansea/zip/GsZipPacker.java:195-203 | `EntryInfo.isFile()` answers `path.isEmpty()`, so the time stamp goes to folders and never to files | any added file: its entry has date and time 0 | stamp an entry exactly when it has a source file, as the newest packer does | high, not executed | Packer.NewInfoStamp | Packer.NewInfoStamp |
| libzip/src/main/java/com/geansea/zip/GsZipPacker.java:123-146 | the deflate-length pass reads the buffered file stream to its end; when the deflation is not shorter that drained stream is kept, and the encryption stream over it never rewinds it, so the entry's data is only the 12-byte encrypted header | the libzip packer with password "pw" and one file holding "a": the entry says compressed size 12, uncompressed size 1 and the CRC of "a", and its 12 bytes decrypt to the check header alone | seal the whole source behind the header, as the newest packer does by restarting its base | high, not executed | Packer.LibzipSealDropsData | Packer.StageFits |
