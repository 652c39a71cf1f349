/** EntryHeader: the local file header (section 4.3.7 of the PKWARE
    APPNOTE.TXT) and the central directory file header (section 4.3.12), one
    record type for both, with a flag that selects the layout.

    The Java class is a bag of fields that readFrom and the setters overwrite;
    nothing shares a header, and readFrom overwrites every field, so the model
    is a value: a reader returns a new header and a setter returns the updated
    one. Java short and int fields are kept as their raw 16 and 32 bits
    (`u16`, `u32`); where Java compares or adds them as signed values the model
    applies Signed16 explicitly. */
module Headers {
  import opened ZipCommon
  import opened Streams
  import PKWare

  const CENTRAL_MAGIC: u32 := 0x02014b50   // "PK\x01\x02"
  const LOCAL_MAGIC: u32 := 0x04034b50     // "PK\x03\x04"

  const CENTRAL_HEADER_SIZE: nat := 0x2E
  const LOCAL_HEADER_SIZE: nat := 0x1E

  // General purpose bit flags (section 4.4.4)
  const FLAG_ENCRYPTED: nat := 0x0001
  const FLAG_DATA_DESCRIPTOR: nat := 0x0008
  const FLAG_STRONG_ENCRYPTION: nat := 0x0040
  const FLAG_LANGUAGE_UTF8: nat := 0x0800
  const ENCRYPT_MASK: nat := 0x0041        // FLAG_ENCRYPTED | FLAG_STRONG_ENCRYPTION

  const ENCRYPT_NONE: nat := 0x00
  const ENCRYPT_PKWARE: nat := 0x01        // FLAG_ENCRYPTED

  // Compression methods (section 4.4.5)
  const COMPRESS_STORED: u16 := 0x00
  const COMPRESS_FLATE: u16 := 0x08

  /** Info-ZIP Unicode Path extra field (section 4.6.9). */
  const UNICODE_PATH_ID: u16 := 0x7075

  /** The fields of both layouts; versionMadeBy, commentLen, diskNumber,
      intAttrib, extAttrib and localOffset exist only in the central one. */
  datatype Header = Header(
    sign: u32,
    versionMadeBy: u16,
    versionNeeded: u16,
    bitFlags: u16,
    compMethod: u16,
    lastModTime: u16,
    lastModDate: u16,
    crc: u32,
    compSize: u32,
    uncompSize: u32,
    fileNameLen: u16,
    extraFieldLen: u16,
    commentLen: u16,
    diskNumber: u16,
    intAttrib: u16,
    extAttrib: u32,
    localOffset: u32,
    fileName: seq<byte>,
    extraField: seq<byte>,
    comment: seq<byte>)

  /** The header a new EntryHeader starts as: central signature, version 2.0,
      the UTF-8 flag, stored, and everything else zero or empty. */
  const NEW_HEADER: Header :=
    Header(CENTRAL_MAGIC, 0x0014, 0x0014, FLAG_LANGUAGE_UTF8 as u16, COMPRESS_STORED,
           0, 0, 0, 0, 0, 0, 0, 0, 0, 0, 0, 0, [], [], [])

  function Magic(central: bool): u32
  {
    if central then CENTRAL_MAGIC else LOCAL_MAGIC
  }


  /** `(bitFlags & flag) != 0` */
  predicate HasFlag(h: Header, flag: nat)
  {
    AndBits(h.bitFlags as nat, flag, 16) != 0
  }

  /** The three length fields, read as Java shorts, are the lengths of the
      three byte arrays: what readFrom produces and setFileName keeps while a
      name is shorter than 32768 bytes. */
  predicate Consistent(h: Header)
  {
    |h.fileName| == Signed16(h.fileNameLen)
    && |h.extraField| == Signed16(h.extraFieldLen)
    && |h.comment| == Signed16(h.commentLen)
  }

  /** What a header of the given layout keeps: a local header has zero in
      every central-only field and no comment. */
  function View(h: Header, central: bool): Header
  {
    if central then h
    else h.(versionMadeBy := 0, commentLen := 0, diskNumber := 0, intAttrib := 0,
            extAttrib := 0, localOffset := 0, comment := [])
  }

  // ---------------------------------------------------------------------------
  // The fixed part: little-endian 16- and 32-bit fields
  // ---------------------------------------------------------------------------

  function HeaderSize(central: bool): nat
  {
    if central then CENTRAL_HEADER_SIZE else LOCAL_HEADER_SIZE
  }

  /** The ten fields both layouts share, versionNeeded to extraFieldLen: 26 bytes. */
  function SharedFields(h: Header): seq<byte>
  {
    Le16(h.versionNeeded) + Le16(h.bitFlags) + Le16(h.compMethod) + Le16(h.lastModTime)
    + Le16(h.lastModDate) + Le32(h.crc) + Le32(h.compSize) + Le32(h.uncompSize)
    + Le16(h.fileNameLen) + Le16(h.extraFieldLen)
  }

  /** The five fields only the central layout has, after the shared ones: 14 bytes. */
  function CentralFields(h: Header): seq<byte>
  {
    Le16(h.commentLen) + Le16(h.diskNumber) + Le16(h.intAttrib) + Le32(h.extAttrib)
    + Le32(h.localOffset)
  }

  /** The fixed part writeTo puts: the signature, versionMadeBy (central
      only), the shared fields, the central-only fields. */
  function FixedPart(h: Header, central: bool): (r: seq<byte>)
    ensures |r| == HeaderSize(central)
  {
    if central then Le32(h.sign) + Le16(h.versionMadeBy) + SharedFields(h) + CentralFields(h)
    else Le32(h.sign) + SharedFields(h)
  }

  /** The fixed part readFrom takes from the start of b; a local header gets
      zero in every central-only field and no byte arrays yet. */
  function FromFixed(b: seq<byte>, central: bool): Header
    requires |b| >= HeaderSize(central)
  {
    var at := if central then 6 else 4;  // where the shared fields start
    Header(GetLe32(b, 0), if central then GetLe16(b, 4) else 0,
           GetLe16(b, at), GetLe16(b, at + 2), GetLe16(b, at + 4), GetLe16(b, at + 6),
           GetLe16(b, at + 8), GetLe32(b, at + 10), GetLe32(b, at + 14), GetLe32(b, at + 18),
           GetLe16(b, at + 22), GetLe16(b, at + 24),
           if central then GetLe16(b, 32) else 0, if central then GetLe16(b, 34) else 0,
           if central then GetLe16(b, 36) else 0, if central then GetLe32(b, 38) else 0,
           if central then GetLe32(b, 42) else 0, [], [], [])
  }

  /** The shared fields read back from wherever they sit. */
  lemma SharedFieldsAt(h: Header, pre: seq<byte>, post: seq<byte>)
    ensures var b := pre + SharedFields(h) + post; var at := |pre|;
      GetLe16(b, at) == h.versionNeeded && GetLe16(b, at + 2) == h.bitFlags
      && GetLe16(b, at + 4) == h.compMethod && GetLe16(b, at + 6) == h.lastModTime
      && GetLe16(b, at + 8) == h.lastModDate && GetLe32(b, at + 10) == h.crc
      && GetLe32(b, at + 14) == h.compSize && GetLe32(b, at + 18) == h.uncompSize
      && GetLe16(b, at + 22) == h.fileNameLen && GetLe16(b, at + 24) == h.extraFieldLen
  {
  }

  /** The central-only fields read back from wherever they sit. */
  lemma CentralFieldsAt(h: Header, pre: seq<byte>, post: seq<byte>)
    ensures var b := pre + CentralFields(h) + post; var at := |pre|;
      GetLe16(b, at) == h.commentLen && GetLe16(b, at + 2) == h.diskNumber
      && GetLe16(b, at + 4) == h.intAttrib && GetLe32(b, at + 6) == h.extAttrib
      && GetLe32(b, at + 10) == h.localOffset
  {
  }

  /** Reading back the fixed part gives every fixed field of the layout. */
  lemma FixedPartRoundTrip(h: Header, central: bool, rest: seq<byte>)
    ensures FromFixed(FixedPart(h, central) + rest, central)
            == View(h, central).(fileName := [], extraField := [], comment := [])
  {
    if central {
      CentralFixedRoundTrip(h, rest);
    } else {
      LocalFixedRoundTrip(h, rest);
    }
  }

  lemma CentralFixedRoundTrip(h: Header, rest: seq<byte>)
    ensures FromFixed(FixedPart(h, true) + rest, true)
            == h.(fileName := [], extraField := [], comment := [])
  {
    CentralHeadAt(h, rest);
    CentralSharedAt(h, rest);
    CentralTailAt(h, rest);
  }

  /** The signature and versionMadeBy of a central fixed part read back. */
  lemma CentralHeadAt(h: Header, rest: seq<byte>)
    ensures GetLe32(FixedPart(h, true) + rest, 0) == h.sign
    ensures GetLe16(FixedPart(h, true) + rest, 4) == h.versionMadeBy
  {
    var x2 := Le32(h.sign) + Le16(h.versionMadeBy);
    var x3 := x2 + SharedFields(h);
    var x4 := x3 + CentralFields(h);
    GetLe32Front(x4, rest, 0);
    GetLe32Front(x3, CentralFields(h), 0);
    GetLe32Front(x2, SharedFields(h), 0);
    Le32RoundTrip(h.sign, [], Le16(h.versionMadeBy));
    assert [] + Le32(h.sign) + Le16(h.versionMadeBy) == x2;
    GetLe16Front(x4, rest, 4);
    GetLe16Front(x3, CentralFields(h), 4);
    GetLe16Front(x2, SharedFields(h), 4);
    Le16RoundTrip(h.versionMadeBy, Le32(h.sign), []);
    assert Le32(h.sign) + Le16(h.versionMadeBy) + [] == x2;
  }

  /** The shared fields of a central fixed part read back from byte 6. */
  lemma CentralSharedAt(h: Header, rest: seq<byte>)
    ensures var b := FixedPart(h, true) + rest;
      GetLe16(b, 6) == h.versionNeeded && GetLe16(b, 8) == h.bitFlags
      && GetLe16(b, 10) == h.compMethod && GetLe16(b, 12) == h.lastModTime
      && GetLe16(b, 14) == h.lastModDate && GetLe32(b, 16) == h.crc
      && GetLe32(b, 20) == h.compSize && GetLe32(b, 24) == h.uncompSize
      && GetLe16(b, 28) == h.fileNameLen && GetLe16(b, 30) == h.extraFieldLen
  {
    var pre := Le32(h.sign) + Le16(h.versionMadeBy);
    assert FixedPart(h, true) + rest == pre + SharedFields(h) + (CentralFields(h) + rest);
    SharedFieldsAt(h, pre, CentralFields(h) + rest);
  }

  /** The central-only fields read back from byte 32. */
  lemma CentralTailAt(h: Header, rest: seq<byte>)
    ensures var b := FixedPart(h, true) + rest;
      GetLe16(b, 32) == h.commentLen && GetLe16(b, 34) == h.diskNumber
      && GetLe16(b, 36) == h.intAttrib && GetLe32(b, 38) == h.extAttrib
      && GetLe32(b, 42) == h.localOffset
  {
    var pre := Le32(h.sign) + Le16(h.versionMadeBy) + SharedFields(h);
    CentralFieldsAt(h, pre, rest);
  }

  lemma LocalFixedRoundTrip(h: Header, rest: seq<byte>)
    ensures FromFixed(FixedPart(h, false) + rest, false)
            == View(h, false).(fileName := [], extraField := [], comment := [])
  {
    var b := FixedPart(h, false) + rest;
    assert b == [] + Le32(h.sign) + (SharedFields(h) + rest);
    Le32RoundTrip(h.sign, [], SharedFields(h) + rest);
    assert b == Le32(h.sign) + SharedFields(h) + rest;
    SharedFieldsAt(h, Le32(h.sign), rest);
  }

  // ---------------------------------------------------------------------------
  // readFrom, byteSize, writeTo
  // ---------------------------------------------------------------------------

  /** One `new byte[len]` followed, when len > 0, by a read that must deliver
      all len bytes: a negative length is a NegativeArraySizeException, a short
      read "Read fail". */
  function Take(s: seq<byte>, len: int): (r: Result<seq<byte>>)
    ensures r.Ok? <==> 0 <= len <= |s|
    ensures r.Ok? ==> r.value == s[..len]
    ensures r.Err? ==> r.error == (if len < 0 then NegativeLength else ReadFail)
  {
    if len < 0 then Err(NegativeLength)
    else if len == 0 then Ok([])
    else if |s| < len then Err(ReadFail)
    else Ok(s[..len])
  }

  /** readFrom over the bytes s that the stream still holds: the fixed part,
      then the byte arrays and checkValid. */
  function Parse(s: seq<byte>, central: bool): (r: Result<Header>)
    ensures |s| < HeaderSize(central) ==> r == Err(ReadFail)
    ensures r.Ok? ==> r.value.sign == Magic(central) && Signed16(r.value.fileNameLen) > 0
    ensures r.Ok? ==> Consistent(r.value) && View(r.value, central) == r.value
    ensures r.Ok? ==> ByteSize(r.value, central) <= |s|
  {
    if |s| < HeaderSize(central) then Err(ReadFail)
    else ParseArrays(FromFixed(s, central), s[HeaderSize(central)..], central)
  }

  /** A header reads the same whatever follows its bytes: readFrom never
      reads past byteSize. */
  lemma ParsePrefix(s: seq<byte>, rest: seq<byte>, central: bool)
    requires Parse(s, central).Ok?
    ensures Parse(s + rest, central) == Parse(s, central)
  {
    var n := HeaderSize(central);
    var t := s + rest;
    FromFixedPrefix(s, central);
    FromFixedPrefix(t, central);
    assert t[..n] == s[..n];
    assert t[n..] == s[n..] + rest;
    ArraysPrefix(FromFixed(s, central), s[n..], rest, central);
  }

  /** The same for the byte arrays after the fixed part. */
  lemma ArraysPrefix(h: Header, a: seq<byte>, rest: seq<byte>, central: bool)
    requires ParseArrays(h, a, central).Ok?
    ensures ParseArrays(h, a + rest, central) == ParseArrays(h, a, central)
  {
    var b := a + rest;
    var name := Signed16(h.fileNameLen);
    var extra := Signed16(h.extraFieldLen);
    assert b[..name] == a[..name];
    assert b[name..] == a[name..] + rest;
    assert b[name..][..extra] == a[name..][..extra];
    assert b[name + extra..] == a[name + extra..] + rest;
    assert b[name + extra..][..Signed16(h.commentLen)] == a[name + extra..][..Signed16(h.commentLen)];
  }

  /** After the fixed part h: the name, the extra field and the comment, each
      of the length its field gives (a local header has commentLen 0), then
      checkValid: the signature of the layout and a non-empty name. */
  function ParseArrays(h: Header, s: seq<byte>, central: bool): (r: Result<Header>)
    ensures r.Ok? ==> r.value == h.(fileName := r.value.fileName, extraField := r.value.extraField,
                                    comment := r.value.comment)
    ensures r.Ok? ==> Consistent(r.value) && r.value.sign == Magic(central) && Signed16(h.fileNameLen) > 0
                      && |r.value.fileName| + |r.value.extraField| + |r.value.comment| <= |s|
  {
    var name :- Take(s, Signed16(h.fileNameLen));
    var extra :- Take(s[|name|..], Signed16(h.extraFieldLen));
    var comment :- Take(s[|name| + |extra|..], Signed16(h.commentLen));
    if h.sign != Magic(central) then Err(ErrorSign)
    else if Signed16(h.fileNameLen) <= 0 then Err(EmptyFileName)
    else Ok(h.(fileName := name, extraField := extra, comment := comment))
  }

  /** byteSize: the fixed part plus the three lengths as Java shorts (the
      comment only in the central layout). */
  function ByteSize(h: Header, central: bool): int
  {
    HeaderSize(central) + Signed16(h.fileNameLen) + Signed16(h.extraFieldLen)
    + (if central then Signed16(h.commentLen) else 0)
  }

  /** checkValidForWrite, then writeTo: the fixed part, then each byte array
      whose length field is positive as a short. The comment is written in
      the local layout too. */
  function Write(h: Header, central: bool): (r: Result<seq<byte>>)
    ensures r.Ok? <==> (h.sign == Magic(central) && Signed16(h.fileNameLen) > 0
                        && HasFlag(h, FLAG_LANGUAGE_UTF8)
                        && (h.compMethod == COMPRESS_STORED || h.compMethod == COMPRESS_FLATE))
    ensures r.Err? ==> r.error == (if h.sign != Magic(central) then ErrorSign
                                   else if Signed16(h.fileNameLen) <= 0 then EmptyFileName
                                   else if !HasFlag(h, FLAG_LANGUAGE_UTF8) then ErrorEncoding
                                   else ErrorCompressMethod)
  {
    if h.sign != Magic(central) then Err(ErrorSign)
    else if Signed16(h.fileNameLen) <= 0 then Err(EmptyFileName)
    else if !HasFlag(h, FLAG_LANGUAGE_UTF8) then Err(ErrorEncoding)
    else if h.compMethod != COMPRESS_STORED && h.compMethod != COMPRESS_FLATE then Err(ErrorCompressMethod)
    else
      Ok(FixedPart(h, central)
         + (if Signed16(h.fileNameLen) > 0 then h.fileName else [])
         + (if Signed16(h.extraFieldLen) > 0 then h.extraField else [])
         + (if Signed16(h.commentLen) > 0 then h.comment else []))
  }

  /** writeTo emits byteSize bytes, except that a local header with a comment
      also emits the comment, which byteSize leaves out. */
  lemma WriteSize(h: Header, central: bool)
    requires Consistent(h) && Write(h, central).Ok?
    ensures |Write(h, central).value| == ByteSize(h, central) + (if central then 0 else |h.comment|)
  {
  }

  /** The byte arrays of a consistent header read back after its fixed part. */
  lemma ParseArraysOf(h: Header, central: bool, rest: seq<byte>)
    requires Consistent(h) && h.sign == Magic(central) && Signed16(h.fileNameLen) > 0
    ensures ParseArrays(h.(fileName := [], extraField := [], comment := []),
                        h.fileName + h.extraField + h.comment + rest, central) == Ok(h)
  {
    var s := h.fileName + h.extraField + h.comment + rest;
    assert s[..|h.fileName|] == h.fileName;
    assert s[|h.fileName|..] == h.extraField + (h.comment + rest);
    assert s[|h.fileName| + |h.extraField|..] == h.comment + rest;
  }

  /** What writeTo emits: the fixed part and the three byte arrays of a
      consistent header (a local one included, when its comment is empty). */
  lemma WriteBytes(h: Header, central: bool)
    requires Consistent(h) && Write(h, central).Ok?
    ensures Write(h, central).value == FixedPart(h, central) + h.fileName + h.extraField + h.comment
  {
  }

  lemma Regroup(a: seq<byte>, b: seq<byte>, c: seq<byte>, d: seq<byte>, e: seq<byte>)
    ensures a + b + c + d + e == a + (b + c + d + e)
  {
  }

  /** readFrom takes the fixed part from the first bytes and the arrays from
      the rest. */
  lemma ParseSplit(fixed: seq<byte>, tail: seq<byte>, central: bool)
    requires |fixed| == HeaderSize(central)
    ensures Parse(fixed + tail, central) == ParseArrays(FromFixed(fixed + tail, central), tail, central)
  {
    assert (fixed + tail)[HeaderSize(central)..] == tail;
  }

  /** writeTo then readFrom of the same layout gives back every field that
      layout holds, whatever follows the record. */
  lemma WriteParse(h: Header, central: bool, rest: seq<byte>)
    requires Consistent(h) && Write(h, central).Ok?
    requires central || h.commentLen == 0
    ensures Parse(Write(h, central).value + rest, central) == Ok(View(h, central))
  {
    var v := View(h, central);
    var tail := h.fileName + h.extraField + h.comment + rest;
    var fixed := FixedPart(h, central);
    WriteBytes(h, central);
    Regroup(fixed, h.fileName, h.extraField, h.comment, rest);
    ParseSplit(fixed, tail, central);
    FixedPartRoundTrip(h, central, tail);
    assert v.comment == h.comment;
    ParseArraysOf(v, central, rest);
  }

  // ---------------------------------------------------------------------------
  // readFrom over a stream
  // ---------------------------------------------------------------------------

  /** The fixed part depends on its first HeaderSize bytes only. */
  lemma FromFixedPrefix(s: seq<byte>, central: bool)
    requires |s| >= HeaderSize(central)
    ensures FromFixed(s[..HeaderSize(central)], central) == FromFixed(s, central)
  {
    var p := s[..HeaderSize(central)];
    assert forall i :: 0 <= i < |p| ==> p[i] == s[i];
  }

  /** Dropping a then b elements drops a + b. */
  lemma DropDrop(s: seq<byte>, a: nat, b: nat)
    requires a + b <= |s|
    ensures s[a..][b..] == s[a + b..]
  {
  }

  /** `new byte[n]`, one `stream.read` into it, and the "Read fail" check that
      the read filled it. */
  method ReadBytes(stream: SubInputStream, n: nat) returns (r: Result<seq<byte>>)
    requires stream.Valid() && n > 0
    modifies stream
    ensures stream.Valid() && stream.closed == old(stream.closed) && old(stream.offset) <= stream.offset
    ensures old(stream.closed) ==> r == Err(StreamClosed)
    ensures !old(stream.closed) && old(stream.Span()) < 0 ==> r == Err(IndexOutOfRange)
    ensures !old(stream.closed) && old(stream.Span()) >= 0 ==> r == Take(old(stream.Remaining()), n)
    ensures r.Ok? ==> stream.offset == old(stream.offset) + n
    ensures old(stream.Span()) >= 0 ==> 0 <= stream.Span() == old(stream.Span()) - (stream.offset - old(stream.offset))
    ensures old(stream.Span()) >= 0 ==> stream.Remaining() == old(stream.Remaining())[stream.offset - old(stream.offset)..]
  {
    var b := new byte[n];
    var count :- stream.Read(b, 0, n);
    if count != n {
      return Err(ReadFail);
    }
    assert b[..] == old(stream.Remaining())[..n];
    return Ok(b[..]);
  }

  /** One byte array of readFrom: allocated with the length field as a short,
      read only when that length is positive. */
  method ReadField(stream: SubInputStream, len: int, ghost t: seq<byte>) returns (r: Result<seq<byte>>)
    requires stream.Valid() && stream.Remaining() == t
    modifies stream
    ensures stream.Valid() && stream.closed == old(stream.closed) && old(stream.offset) <= stream.offset
    ensures r == (if old(stream.closed) && len > 0 then Err(StreamClosed)
                  else if old(stream.Span()) < 0 && len > 0 then Err(IndexOutOfRange)
                  else Take(t, len))
    ensures r.Ok? ==> stream.offset == old(stream.offset) + |r.value|
    ensures old(stream.Span()) >= 0 ==> 0 <= stream.Span() == old(stream.Span()) - (stream.offset - old(stream.offset))
    ensures old(stream.Span()) >= 0 ==> stream.Remaining() == t[stream.offset - old(stream.offset)..]
  {
    if len < 0 {
      return Err(NegativeLength);
    }
    if len == 0 {
      return Ok([]);
    }
    r := ReadBytes(stream, len);
  }

  /** The byte arrays of readFrom and checkValid, after the fixed part h. */
  method ReadArrays(stream: SubInputStream, h: Header, central: bool) returns (r: Result<Header>)
    requires stream.Valid() && !stream.closed && stream.Span() >= 0
    modifies stream
    ensures stream.Valid() && !stream.closed && old(stream.offset) <= stream.offset
    ensures r == ParseArrays(h, old(stream.Remaining()), central)
    ensures 0 <= stream.Span() == old(stream.Span()) - (stream.offset - old(stream.offset))
    ensures stream.Remaining() == old(stream.Remaining())[stream.offset - old(stream.offset)..]
    ensures r.Ok? ==> stream.offset == old(stream.offset) + |r.value.fileName| + |r.value.extraField|
                                       + |r.value.comment|
  {
    ghost var t := stream.Remaining();
    ghost var from := stream.offset;
    var name :- ReadField(stream, Signed16(h.fileNameLen), t);
    r := ReadTail(stream, h, central, name, t);
    DropDrop(t, |name|, stream.offset - from - |name|);
  }

  /** The extra field and the comment, read after the name, and checkValid. */
  method ReadTail(stream: SubInputStream, h: Header, central: bool, name: seq<byte>, ghost t: seq<byte>)
    returns (r: Result<Header>)
    requires stream.Valid() && !stream.closed && stream.Span() >= 0
    requires Take(t, Signed16(h.fileNameLen)) == Ok(name) && stream.Remaining() == t[|name|..]
    modifies stream
    ensures stream.Valid() && !stream.closed && old(stream.offset) <= stream.offset
    ensures r == ParseArrays(h, t, central)
    ensures 0 <= stream.Span() == old(stream.Span()) - (stream.offset - old(stream.offset))
    ensures stream.Remaining() == old(stream.Remaining())[stream.offset - old(stream.offset)..]
    ensures r.Ok? ==> stream.offset == old(stream.offset) + |r.value.extraField| + |r.value.comment|
  {
    ghost var t1 := t[|name|..];
    var extra :- ReadField(stream, Signed16(h.extraFieldLen), t1);
    DropDrop(t, |name|, |extra|);
    ghost var from := stream.offset;
    r := ReadComment(stream, h, central, name, extra, t);
    DropDrop(t1, |extra|, stream.offset - from);
  }

  /** The comment, read after the extra field, and checkValid. */
  method ReadComment(stream: SubInputStream, h: Header, central: bool, name: seq<byte>, extra: seq<byte>,
                     ghost t: seq<byte>) returns (r: Result<Header>)
    requires stream.Valid() && !stream.closed && stream.Span() >= 0
    requires Take(t, Signed16(h.fileNameLen)) == Ok(name)
    requires |name| <= |t| && Take(t[|name|..], Signed16(h.extraFieldLen)) == Ok(extra)
    requires |name| + |extra| <= |t| && stream.Remaining() == t[|name| + |extra|..]
    modifies stream
    ensures stream.Valid() && !stream.closed && old(stream.offset) <= stream.offset
    ensures r == ParseArrays(h, t, central)
    ensures 0 <= stream.Span() == old(stream.Span()) - (stream.offset - old(stream.offset))
    ensures stream.Remaining() == old(stream.Remaining())[stream.offset - old(stream.offset)..]
    ensures r.Ok? ==> stream.offset == old(stream.offset) + |r.value.comment|
  {
    var comment :- ReadField(stream, Signed16(h.commentLen), t[|name| + |extra|..]);
    if h.sign != Magic(central) {
      return Err(ErrorSign);
    }
    if Signed16(h.fileNameLen) <= 0 {
      return Err(EmptyFileName);
    }
    return Ok(h.(fileName := name, extraField := extra, comment := comment));
  }

  /** readFrom: the fixed part, then the name, the extra field and the comment
      from the same stream, then checkValid. It reads exactly what Parse
      reads, and on success the cursor has moved past byteSize bytes. */
  method ReadHeader(stream: SubInputStream, central: bool) returns (r: Result<Header>)
    requires stream.Valid()
    modifies stream
    ensures stream.Valid() && stream.closed == old(stream.closed) && old(stream.offset) <= stream.offset
    ensures r == (if old(stream.closed) then Err(StreamClosed)
                  else if old(stream.Span()) < 0 then Err(IndexOutOfRange)
                  else Parse(old(stream.Remaining()), central))
    ensures r.Ok? ==> stream.offset == old(stream.offset) + ByteSize(r.value, central)
    ensures old(stream.Span()) >= 0 ==> 0 <= stream.Span() == old(stream.Span()) - (stream.offset - old(stream.offset))
    ensures old(stream.Span()) >= 0 ==> stream.Remaining() == old(stream.Remaining())[stream.offset - old(stream.offset)..]
  {
    ghost var s := stream.Remaining();
    var fixed :- ReadBytes(stream, HeaderSize(central));
    FromFixedPrefix(s, central);
    assert stream.Remaining() == s[HeaderSize(central)..];
    r := ReadArrays(stream, FromFixed(fixed, central), central);
  }

  // ---------------------------------------------------------------------------
  // matchLocal, flags and check bytes
  // ---------------------------------------------------------------------------

  /** matchLocal, called on the central header with the local one: the same
      method, encryption bits, name length and name; and, unless the local
      header defers them to a data descriptor (bit 3), the same CRC and sizes. */
  predicate MatchLocal(central: Header, local: Header)
  {
    central.compMethod == local.compMethod
    && AndBits(central.bitFlags as nat, ENCRYPT_MASK, 16) == AndBits(local.bitFlags as nat, ENCRYPT_MASK, 16)
    && central.fileNameLen == local.fileNameLen
    && central.fileName == local.fileName
    && (!HasFlag(local, FLAG_DATA_DESCRIPTOR) ==>
          central.crc == local.crc && central.compSize == local.compSize
          && central.uncompSize == local.uncompSize)
  }

  /** The local header a writer puts in front of an entry's data: the central
      header with the local signature and no comment. */
  function LocalOf(h: Header): Header
  {
    h.(sign := LOCAL_MAGIC, commentLen := 0, comment := [])
  }

  /** A central header matches the local header written from it and read
      back: the check the reader makes before it opens an entry's data. */
  lemma MatchLocalWritten(h: Header, rest: seq<byte>)
    requires Consistent(h) && Signed16(h.fileNameLen) > 0 && HasFlag(h, FLAG_LANGUAGE_UTF8)
    requires h.compMethod == COMPRESS_STORED || h.compMethod == COMPRESS_FLATE
    ensures Write(LocalOf(h), false).Ok?
    ensures Parse(Write(LocalOf(h), false).value + rest, false).Ok?
    ensures MatchLocal(h, Parse(Write(LocalOf(h), false).value + rest, false).value)
  {
    WriteParse(LocalOf(h), false, rest);
  }

  /** getEncMethod: the encryption bits of the flags. */
  function EncMethod(h: Header): nat
  {
    AndBits(h.bitFlags as nat, ENCRYPT_MASK, 16)
  }

  /** The mask 0x0041 keeps bits 0 and 6. */
  lemma MaskBits(a: nat)
    ensures AndBits(a, ENCRYPT_MASK, 16) == (if Bit(a, 0) == 1 then 1 else 0) + (if Bit(a, 6) == 1 then 0x40 else 0)
  {
    var a1 := a / 2;
    var a2 := a1 / 2;
    var a3 := a2 / 2;
    var a4 := a3 / 2;
    var a5 := a4 / 2;
    var a6 := a5 / 2;
    AndBitsZero(a6 / 2, 9);
    assert AndBits(a6, 1, 10) == a6 % 2;
    assert AndBits(a5, 2, 11) == 2 * AndBits(a6, 1, 10);
    assert AndBits(a4, 4, 12) == 2 * AndBits(a5, 2, 11);
    assert AndBits(a3, 8, 13) == 2 * AndBits(a4, 4, 12);
    assert AndBits(a2, 16, 14) == 2 * AndBits(a3, 8, 13);
    assert AndBits(a1, 32, 15) == 2 * AndBits(a2, 16, 14);
    assert AndBits(a, 0x41, 16) == a % 2 + 2 * AndBits(a1, 32, 15);
    assert Bit(a, 6) == Bit(a1, 5) == Bit(a2, 4) == Bit(a3, 3) == Bit(a4, 2) == Bit(a5, 1) == Bit(a6, 0);
  }

  /** The encryption bits are bit 0 (traditional PKWARE encryption) and bit 6
      (strong encryption), each read by HasFlag. */
  lemma EncMethodBits(h: Header)
    ensures EncMethod(h) == (if Bit(h.bitFlags as nat, 0) == 1 then 1 else 0)
                            + (if Bit(h.bitFlags as nat, 6) == 1 then 0x40 else 0)
    ensures HasFlag(h, FLAG_ENCRYPTED) <==> Bit(h.bitFlags as nat, 0) == 1
    ensures HasFlag(h, FLAG_STRONG_ENCRYPTION) <==> Bit(h.bitFlags as nat, 6) == 1
  {
    var a := h.bitFlags as nat;
    MaskBits(a);
    AndBitsPow(a, 0, 16);
    assert Pow2(6) == 0x40;
    AndBitsPow(a, 6, 16);
  }

  /** setEncMethod: `bitFlags |= (short) method`. */
  function WithEncMethod(flags: u16, enc: int): u16
  {
    Pow2Sixteen();
    OrBits(flags as nat, ToU16(enc) as nat, 16) as u16
  }

  /** setEncMethod only adds bits: every flag that was set stays set, and so
      does every bit of the argument. */
  lemma EncMethodOnlyAdds(flags: u16, enc: int)
    ensures AndBits(WithEncMethod(flags, enc) as nat, flags as nat, 16) == flags as nat
    ensures AndBits(WithEncMethod(flags, enc) as nat, ToU16(enc) as nat, 16) == ToU16(enc) as nat
  {
    Pow2Sixteen();
    OrBitsKeeps(flags as nat, ToU16(enc) as nat, 16);
    LowBitsId(flags as nat, 16);
    LowBitsId(ToU16(enc) as nat, 16);
  }

  /** getTimeCheck: `(byte) (lastModTime >>> 8)`, the high byte of the
      modification time, which is the second byte the header stores for it. */
  function TimeCheck(h: Header): (r: byte)
    ensures r == Le16(h.lastModTime)[1]
  {
    (h.lastModTime as int / 0x100) as byte
  }

  /** getCrcCheck: `(byte) (CRC >>> 24)`, the top byte of the CRC, which is
      the last byte the header stores for it. */
  function CrcCheck(h: Header): (r: byte)
    ensures r == Le32(h.crc)[3]
  {
    (h.crc as int / 0x100_0000) as byte
  }

  // ---------------------------------------------------------------------------
  // MS-DOS date and time (section 4.4.6)
  // ---------------------------------------------------------------------------

  /** A moment as GregorianCalendar hands out its fields: YEAR, MONTH + 1,
      DATE, HOUR_OF_DAY, MINUTE and SECOND. */
  datatype DateTime = DateTime(year: int, month: int, day: int, hour: int, minute: int, second: int)

  /** The ranges a normalised calendar keeps those fields in. */
  predicate CalendarFields(t: DateTime)
  {
    1 <= t.month <= 12 && 1 <= t.day <= 31 && 0 <= t.hour < 24 && 0 <= t.minute < 60
    && 0 <= t.second < 60
  }

  /** The date setLastModifiedTime stores: `((year - 1980) << 9) | (month << 5)
      | day` cut to a short, or 0x21 (1 January 1980) before 1980. */
  function DosDate(t: DateTime): u16
    requires CalendarFields(t)
  {
    if t.year < 1980 then 0x21
    else
      Pow2Sixteen();
      OrBits(OrBits(ShiftLeft(t.year - 1980, 9), ShiftLeft(t.month, 5), 16), t.day, 16) as u16
  }

  /** The time setLastModifiedTime stores: `(hour << 11) | (minute << 5) |
      (second >> 1)`, or 0 before 1980. */
  function DosTime(t: DateTime): u16
    requires CalendarFields(t)
  {
    if t.year < 1980 then 0
    else
      Pow2Sixteen();
      OrBits(OrBits(ShiftLeft(t.hour, 11), ShiftLeft(t.minute, 5), 16), t.second / 2, 16) as u16
  }

  /** getLastModifiedTime: the fields it hands to GregorianCalendar.set, month
      1-based. Java shifts the shorts with sign extension and then masks, so
      each field is a run of bits of the unsigned value: year bits 9-15, month
      bits 5-8, day bits 0-4, hour bits 11-15, minute bits 5-10 and seconds
      bits 0-4, doubled. */
  function FromDos(date: u16, time: u16): DateTime
  {
    DateTime(1980 + (date as int / 512) % 128, (date as int / 32) % 16, date as int % 32,
             (time as int / 2048) % 32, (time as int / 32) % 64, (time as int % 32) * 2)
  }

  /** The date field of a year from 1980 on, as a sum. */
  lemma DosDateValue(t: DateTime)
    requires CalendarFields(t) && t.year >= 1980
    ensures DosDate(t) as int == (512 * ((t.year - 1980) % 128) + 32 * t.month + t.day)
  {
    var y := t.year - 1980;
    assert Pow2(4) == 16;
    PackFields(y, t.month, t.day, 4);
    ShiftLeftFive(y);
    WrapYear(y, 32 * t.month + t.day);
  }

  /** Seven year bits above nine lower ones: the 16-bit cut keeps the year
      modulo 128. */
  lemma WrapYear(y: nat, inner: nat)
    requires inner < 512
    ensures (512 * y + inner) % 0x1_0000 == 512 * (y % 128) + inner
  {
    assert y == 128 * (y / 128) + y % 128;
    ModOf(512 * y + inner, 0x1_0000, y / 128, 512 * (y % 128) + inner);
  }

  /** The time field, as a sum; it never overflows 16 bits. */
  lemma DosTimeValue(t: DateTime)
    requires CalendarFields(t) && t.year >= 1980
    ensures DosTime(t) as int == 2048 * t.hour + 32 * t.minute + t.second / 2
  {
    assert Pow2(6) == 64;
    PackFields(t.hour, t.minute, t.second / 2, 6);
    ShiftLeftFive(t.hour);
    var v := 2048 * t.hour + 32 * t.minute + t.second / 2;
    assert v < 0x1_0000;
    ModOf(v, 0x1_0000, 0, v);
  }

  /** The date fields read back. */
  lemma DosDateFields(t: DateTime)
    requires CalendarFields(t) && t.year >= 1980
    ensures var d := FromDos(DosDate(t), 0);
      d.year == 1980 + (t.year - 1980) % 128 && d.month == t.month && d.day == t.day
  {
    DosDateValue(t);
    var r := (t.year - 1980) % 128;
    var date := DosDate(t) as int;
    ModOf(date, 512, r, 32 * t.month + t.day);
    ModOf(date, 32, 16 * r + t.month, t.day);
    ModOf(16 * r + t.month, 16, r, t.month);
  }

  /** The time fields read back, seconds to the even second. */
  lemma DosTimeFields(t: DateTime)
    requires CalendarFields(t) && t.year >= 1980
    ensures var d := FromDos(0, DosTime(t));
      d.hour == t.hour && d.minute == t.minute && d.second == t.second / 2 * 2
  {
    DosTimeValue(t);
    var time := DosTime(t) as int;
    ModOf(time, 2048, t.hour, 32 * t.minute + t.second / 2);
    ModOf(time, 32, 64 * t.hour + t.minute, t.second / 2);
    ModOf(64 * t.hour + t.minute, 64, t.hour, t.minute);
  }

  /** getLastModifiedTime after setLastModifiedTime gives back the moment to
      the even second, with the year taken modulo 128 from 1980: the seven
      year bits end in 2107. */
  lemma DosRoundTrip(t: DateTime)
    requires CalendarFields(t) && t.year >= 1980
    ensures FromDos(DosDate(t), DosTime(t))
            == t.(year := 1980 + (t.year - 1980) % 128, second := t.second / 2 * 2)
  {
    DosDateFields(t);
    DosTimeFields(t);
  }

  /** A moment before 1980 is stored as 1 January 1980, midnight. */
  lemma DosBefore1980(t: DateTime)
    requires CalendarFields(t) && t.year < 1980
    ensures FromDos(DosDate(t), DosTime(t)) == DateTime(1980, 1, 1, 0, 0, 0)
  {
  }

  // ---------------------------------------------------------------------------
  // getFileName and the Unicode Path extra field (section 4.6.9)
  // ---------------------------------------------------------------------------

  /** Which bytes getFileName decodes, and with which charset: UTF-8, or the
      charset the caller passes. The decoders themselves are not modelled. */
  datatype NameBytes = Utf8Name(bytes: seq<byte>) | CharsetName(bytes: seq<byte>)

  /** The record loop of getFileName from byte pos of the extra field: while
      four bytes remain, a record id and a size (a short); a Unicode Path
      record with a size above 5 gives its name when its version is 1 and its
      CRC is nameCrc; every other record is skipped. A record that runs past
      the field is a BufferUnderflowException, a negative size of a skipped
      record a NegativeArraySizeException. */
  function FindUnicodePath(extra: seq<byte>, pos: nat, nameCrc: u32): Result<Option<seq<byte>>>
    requires pos <= |extra|
    decreases |extra| - pos
  {
    if |extra| - pos < 4 then Ok(None)
    else
      var id := GetLe16(extra, pos);
      var size := Signed16(GetLe16(extra, pos + 2));
      if id == UNICODE_PATH_ID && size > 5 then
        if |extra| - (pos + 4) < size then Err(BufferUnderflow)
        else if extra[pos + 4] == 1 && GetLe32(extra, pos + 5) == nameCrc then
          Ok(Some(extra[pos + 9..pos + 4 + size]))
        else FindUnicodePath(extra, pos + 4 + size, nameCrc)
      else if size < 0 then Err(NegativeLength)
      else if |extra| - (pos + 4) < size then Err(BufferUnderflow)
      else FindUnicodePath(extra, pos + 4 + size, nameCrc)
  }

  /** getFileName: the name bytes as UTF-8 when the UTF-8 flag is set; else
      the first valid Unicode Path record whose CRC is the CRC-32 of the name
      bytes; else the name bytes in the caller's charset. */
  function FileName(h: Header): Result<NameBytes>
  {
    if HasFlag(h, FLAG_LANGUAGE_UTF8) then Ok(Utf8Name(h.fileName))
    else if Signed16(h.extraFieldLen) > 0 then
      var found :- FindUnicodePath(h.extraField, 0, PKWare.CrcOf(h.fileName));
      if found.Some? then Ok(Utf8Name(found.value)) else Ok(CharsetName(h.fileName))
    else Ok(CharsetName(h.fileName))
  }

  /** The record loop of getFileName as the source runs it: a cursor over
      the extra field. */
  method SearchUnicodePath(extra: seq<byte>, nameCrc: u32) returns (r: Result<Option<seq<byte>>>)
    ensures r == FindUnicodePath(extra, 0, nameCrc)
  {
    var pos := 0;
    while |extra| - pos >= 4
      invariant pos <= |extra|
      invariant FindUnicodePath(extra, pos, nameCrc) == FindUnicodePath(extra, 0, nameCrc)
      decreases |extra| - pos
    {
      var id := GetLe16(extra, pos);
      var size := Signed16(GetLe16(extra, pos + 2));
      if id == UNICODE_PATH_ID && size > 5 {
        if |extra| - (pos + 4) < size {
          return Err(BufferUnderflow);
        }
        if extra[pos + 4] == 1 && GetLe32(extra, pos + 5) == nameCrc {
          return Ok(Some(extra[pos + 9..pos + 4 + size]));
        }
      } else {
        if size < 0 {
          return Err(NegativeLength);
        }
        if |extra| - (pos + 4) < size {
          return Err(BufferUnderflow);
        }
      }
      pos := pos + 4 + size;
    }
    return Ok(None);
  }

  /** getFileName. */
  method GetFileName(h: Header) returns (r: Result<NameBytes>)
    ensures r == FileName(h)
  {
    if HasFlag(h, FLAG_LANGUAGE_UTF8) {
      return Ok(Utf8Name(h.fileName));
    }
    if Signed16(h.extraFieldLen) > 0 {
      var found :- SearchUnicodePath(h.extraField, PKWare.CrcOf(h.fileName));
      if found.Some? {
        return Ok(Utf8Name(found.value));
      }
    }
    return Ok(CharsetName(h.fileName));
  }

  /** A Unicode Path record as section 4.6.9 lays it out: id, size, version 1,
      the CRC-32 of the header's name bytes, the UTF-8 name. */
  function UnicodePathRecord(utf8Name: seq<byte>, nameCrc: u32): (r: seq<byte>)
    requires |utf8Name| < 0x7FFB
    ensures |r| == 9 + |utf8Name|
  {
    Le16(UNICODE_PATH_ID) + Le16((|utf8Name| + 5) as u16) + [1] + Le32(nameCrc) + utf8Name
  }

  /** The fields of a record, read back wherever it sits. */
  lemma UnicodePathRecordAt(utf8Name: seq<byte>, nameCrc: u32, pre: seq<byte>, post: seq<byte>)
    requires |utf8Name| < 0x7FFB
    ensures var s := pre + UnicodePathRecord(utf8Name, nameCrc) + post; var at := |pre|;
      GetLe16(s, at) == UNICODE_PATH_ID && Signed16(GetLe16(s, at + 2)) == |utf8Name| + 5
      && s[at + 4] == 1 && GetLe32(s, at + 5) == nameCrc
      && s[at + 9..at + 9 + |utf8Name|] == utf8Name
  {
    var r := UnicodePathRecord(utf8Name, nameCrc);
    var s := pre + r + post;
    UnicodePathRecordFields(utf8Name, nameCrc);
    GetLe16Shift(pre, r, post, 0);
    GetLe16Shift(pre, r, post, 2);
    GetLe32Shift(pre, r, post, 5);
    assert s[|pre| + 4] == r[4];
    assert s[|pre| + 9..|pre| + 9 + |utf8Name|] == r[9..];
  }

  /** The fields of a record, read from its own bytes. */
  lemma UnicodePathRecordFields(utf8Name: seq<byte>, nameCrc: u32)
    requires |utf8Name| < 0x7FFB
    ensures var r := UnicodePathRecord(utf8Name, nameCrc);
      GetLe16(r, 0) == UNICODE_PATH_ID && Signed16(GetLe16(r, 2)) == |utf8Name| + 5
      && r[4] == 1 && GetLe32(r, 5) == nameCrc && r[9..] == utf8Name
  {
    var size := (|utf8Name| + 5) as u16;
    var r := UnicodePathRecord(utf8Name, nameCrc);
    var tail := [1] + Le32(nameCrc) + utf8Name;
    assert r == [] + Le16(UNICODE_PATH_ID) + (Le16(size) + tail);
    Le16RoundTrip(UNICODE_PATH_ID, [], Le16(size) + tail);
    assert r == Le16(UNICODE_PATH_ID) + Le16(size) + tail;
    Le16RoundTrip(size, Le16(UNICODE_PATH_ID), tail);
    Le32RoundTrip(nameCrc, Le16(UNICODE_PATH_ID) + Le16(size) + [1], utf8Name);
  }

  /** A name without the UTF-8 flag whose extra field starts with a Unicode
      Path record for its bytes resolves to the record's UTF-8 name. */
  lemma UnicodePathFound(h: Header, utf8Name: seq<byte>, rest: seq<byte>)
    requires 0 < |utf8Name| < 0x7FFB && !HasFlag(h, FLAG_LANGUAGE_UTF8) && Consistent(h)
    requires h.extraField == UnicodePathRecord(utf8Name, PKWare.CrcOf(h.fileName)) + rest
    ensures FileName(h) == Ok(Utf8Name(utf8Name))
  {
    UnicodePathRecordAt(utf8Name, PKWare.CrcOf(h.fileName), [], rest);
    assert [] + UnicodePathRecord(utf8Name, PKWare.CrcOf(h.fileName)) + rest == h.extraField;
  }

  /** The record loop only looks at the bytes from its cursor on. */
  lemma {:induction false} FindUnicodePathShift(pre: seq<byte>, s: seq<byte>, pos: nat, nameCrc: u32)
    requires pos <= |s|
    ensures FindUnicodePath(pre + s, |pre| + pos, nameCrc) == FindUnicodePath(s, pos, nameCrc)
    decreases |s| - pos
  {
    if |s| - pos >= 4 {
      HeadBehind(pre, s, pos);
      var size := Signed16(GetLe16(s, pos + 2));
      if size >= 0 && |s| - (pos + 4) >= size {
        FindUnicodePathShift(pre, s, pos + 4 + size, nameCrc);
        if size > 5 {
          RecordBehind(pre, s, pos, size);
        }
      }
    }
  }

  /** A record's id and size read the same behind a prefix. */
  lemma HeadBehind(pre: seq<byte>, s: seq<byte>, pos: nat)
    requires pos + 4 <= |s|
    ensures GetLe16(pre + s, |pre| + pos) == GetLe16(s, pos)
    ensures GetLe16(pre + s, |pre| + pos + 2) == GetLe16(s, pos + 2)
  {
    var b := pre + s;
    var at := |pre| + pos;
    assert b[at] == s[pos] && b[at + 1] == s[pos + 1];
    assert b[at + 2] == s[pos + 2] && b[at + 3] == s[pos + 3];
  }

  /** A Unicode Path record's version, CRC and name read the same behind a
      prefix. */
  lemma RecordBehind(pre: seq<byte>, s: seq<byte>, pos: nat, size: int)
    requires 5 < size && pos + 4 + size <= |s|
    ensures var b := pre + s;
      var at := |pre| + pos;
      && b[at + 4] == s[pos + 4] && GetLe32(b, at + 5) == GetLe32(s, pos + 5)
      && b[at + 9..at + 4 + size] == s[pos + 9..pos + 4 + size]
  {
    var b := pre + s;
    var at := |pre| + pos;
    assert GetLe16(b, at + 5) == GetLe16(s, pos + 5) by {
      assert b[at + 5] == s[pos + 5] && b[at + 6] == s[pos + 6];
    }
    assert GetLe16(b, at + 7) == GetLe16(s, pos + 7) by {
      assert b[at + 7] == s[pos + 7] && b[at + 8] == s[pos + 8];
    }
  }

  /** A Unicode Path record whose CRC is not that of the name bytes, left
      over from a rename, is passed over: the search goes on behind it. */
  lemma StaleUnicodePathSkipped(utf8Name: seq<byte>, recordCrc: u32, nameCrc: u32, rest: seq<byte>)
    requires 0 < |utf8Name| < 0x7FFB && recordCrc != nameCrc
    ensures FindUnicodePath(UnicodePathRecord(utf8Name, recordCrc) + rest, 0, nameCrc)
            == FindUnicodePath(rest, 0, nameCrc)
  {
    var record := UnicodePathRecord(utf8Name, recordCrc);
    UnicodePathRecordAt(utf8Name, recordCrc, [], rest);
    assert [] + record + rest == record + rest;
    FindUnicodePathShift(record, rest, 0, nameCrc);
  }

  // ---------------------------------------------------------------------------
  // The EntryHeader object
  // ---------------------------------------------------------------------------

  /** readFrom as it overwrites the object, over the bytes s the stream still
      holds: nothing changes when the fixed part cannot be read; otherwise
      every fixed field is overwritten (zero for the central-only ones of a
      local header), then each byte array in turn is replaced by a new array
      of its length field, filled as far as the stream goes, until a negative
      length or a short read stops the method. */
  function ReadInPlace(prior: Header, s: seq<byte>, central: bool): Header
  {
    if |s| < HeaderSize(central) then prior
    else
      FillArrays(FromFixed(s, central).(fileName := prior.fileName, extraField := prior.extraField,
                                        comment := prior.comment), s[HeaderSize(central)..])
  }

  /** The byte arrays of readFrom over the bytes t after the fixed part h. */
  function FillArrays(h: Header, t: seq<byte>): Header
  {
    var nameLen := Signed16(h.fileNameLen);
    if nameLen < 0 then h
    else
      var h := h.(fileName := Filled(t, nameLen));
      if nameLen > |t| then h
      else
        var t := t[nameLen..];
        var extraLen := Signed16(h.extraFieldLen);
        if extraLen < 0 then h
        else
          var h := h.(extraField := Filled(t, extraLen));
          if extraLen > |t| then h
          else
            var t := t[extraLen..];
            var commentLen := Signed16(h.commentLen);
            if commentLen < 0 then h else h.(comment := Filled(t, commentLen))
  }

  /** A readFrom that succeeds overwrites every field with what Parse reads,
      whatever the object held before. */
  lemma ReadInPlaceParse(prior: Header, s: seq<byte>, central: bool)
    requires Parse(s, central).Ok?
    ensures ReadInPlace(prior, s, central) == Parse(s, central).value
  {
    var h := FromFixed(s, central);
    FillArraysParse(h, h.(fileName := prior.fileName, extraField := prior.extraField, comment := prior.comment),
                    s[HeaderSize(central)..], central);
  }

  /** Filling the arrays over bytes that ParseArrays reads gives what it
      reads, whatever the arrays held. */
  lemma FillArraysParse(h: Header, g: Header, t: seq<byte>, central: bool)
    requires ParseArrays(h, t, central).Ok?
    requires g == h.(fileName := g.fileName, extraField := g.extraField, comment := g.comment)
    ensures FillArrays(g, t) == ParseArrays(h, t, central).value
  {
    ArraysRead(h, t, central);
    var nameLen := Signed16(h.fileNameLen);
    var extraLen := Signed16(h.extraFieldLen);
    assert Filled(t[nameLen..], extraLen) == t[nameLen..nameLen + extraLen];
  }

  /** What a successful ParseArrays read: three slices of s in a row, each
      as long as its length field says. */
  lemma ArraysRead(h: Header, s: seq<byte>, central: bool)
    requires ParseArrays(h, s, central).Ok?
    ensures var name := Signed16(h.fileNameLen);
      var extra := Signed16(h.extraFieldLen);
      var comment := Signed16(h.commentLen);
      && 0 <= name && 0 <= extra && 0 <= comment && name + extra + comment <= |s|
      && ParseArrays(h, s, central).value
         == h.(fileName := s[..name], extraField := s[name..name + extra],
               comment := s[name + extra..][..comment])
  {
    var name := Signed16(h.fileNameLen);
    var extra := Signed16(h.extraFieldLen);
    assert s[name..][..extra] == s[name..name + extra];
  }

  /** A readFrom that fails on a name longer than what is left keeps the
      fixed part it read and the name array it allocated: the bytes that were
      there, then zeros. */
  lemma ShortNameOverwrites(prior: Header, s: seq<byte>, central: bool)
    requires |s| >= HeaderSize(central)
    requires Signed16(FromFixed(s, central).fileNameLen) > |s| - HeaderSize(central)
    ensures Parse(s, central) == Err(ReadFail)
    ensures var r := ReadInPlace(prior, s, central);
      r.sign == GetLe32(s, 0) && r.fileNameLen == FromFixed(s, central).fileNameLen
      && r.fileName == s[HeaderSize(central)..] + Zeros(Signed16(r.fileNameLen) - (|s| - HeaderSize(central)))
      && r.extraField == prior.extraField && r.comment == prior.comment
  {
  }

  /** An EntryHeader: its fields, which readFrom and the setters overwrite in
      place. The getters are the functions above applied to `fields`. */
  class EntryHeader {
    var fields: Header

    constructor()
      ensures fields == NEW_HEADER
    {
      fields := NEW_HEADER;
    }

    /** readFrom: on success every field is what the stream held; on failure
        the fields read before the failing step are overwritten. */
    method ReadFrom(stream: SubInputStream, central: bool) returns (r: Outcome)
      requires stream.Valid()
      modifies this, stream
      ensures stream.Valid() && stream.closed == old(stream.closed)
      ensures var p := if old(stream.closed) then Err(StreamClosed)
                       else if old(stream.Span()) < 0 then Err(IndexOutOfRange)
                       else Parse(old(stream.Remaining()), central);
        (r.Pass? <==> p.Ok?) && (r.Fail? ==> r.error == p.error)
        && (r.Pass? ==> fields == p.value && stream.offset == old(stream.offset) + ByteSize(fields, central))
      ensures fields == if old(stream.closed) || old(stream.Span()) < 0 then old(fields)
                        else ReadInPlace(old(fields), old(stream.Remaining()), central)
    {
      var span := stream.Span();
      var held := if span < 0 then [] else stream.file[stream.offset..stream.offset + span];
      assert held == stream.Remaining();
      var p := ReadHeader(stream, central);
      if p.Err? {
        if !stream.closed && span >= 0 {
          fields := ReadInPlace(fields, held, central);
        }
        return Fail(p.error);
      }
      ReadInPlaceParse(fields, held, central);
      fields := p.value;
      return Pass;
    }

    /** writeTo: the bytes the output stream receives. */
    method WriteTo(central: bool) returns (r: Result<seq<byte>>)
      ensures r == Write(fields, central)
      ensures r.Ok? && Consistent(fields) && (central || fields.commentLen == 0)
              ==> Parse(r.value, central) == Ok(View(fields, central))
    {
      r := Write(fields, central);
      if r.Ok? && Consistent(fields) && (central || fields.commentLen == 0) {
        WriteParse(fields, central, []);
        assert r.value + [] == r.value;
      }
    }

    method SetSign(central: bool)
      modifies this
      ensures fields == old(fields).(sign := Magic(central))
    {
      fields := fields.(sign := Magic(central));
    }

    /** setEncMethod ors the method into the flags; the encryption bits read
        back with getEncMethod hold every bit of the method. */
    method SetEncMethod(enc: int)
      modifies this
      ensures fields == old(fields).(bitFlags := WithEncMethod(old(fields).bitFlags, enc))
      ensures AndBits(fields.bitFlags as nat, old(fields).bitFlags as nat, 16) == old(fields).bitFlags as nat
    {
      EncMethodOnlyAdds(fields.bitFlags, enc);
      fields := fields.(bitFlags := WithEncMethod(fields.bitFlags, enc));
    }

    method SetCompMethod(compression: int)
      modifies this
      ensures fields == old(fields).(compMethod := ToU16(compression))
    {
      fields := fields.(compMethod := ToU16(compression));
    }

    /** setLastModifiedTime: the moment as MS-DOS date and time. */
    method SetLastModifiedTime(t: DateTime)
      requires CalendarFields(t)
      modifies this
      ensures fields == old(fields).(lastModDate := DosDate(t), lastModTime := DosTime(t))
    {
      fields := fields.(lastModDate := DosDate(t), lastModTime := DosTime(t));
    }

    method SetCRC(crc: u32)
      modifies this
      ensures fields == old(fields).(crc := crc)
    {
      fields := fields.(crc := crc);
    }

    method SetCompSize(size: u32)
      modifies this
      ensures fields == old(fields).(compSize := size)
    {
      fields := fields.(compSize := size);
    }

    method SetUncompSize(size: u32)
      modifies this
      ensures fields == old(fields).(uncompSize := size)
    {
      fields := fields.(uncompSize := size);
    }

    /** setFileName: the UTF-8 bytes of the name and their count as a short,
        which keeps the header consistent while the name is under 32768 bytes. */
    method SetFileName(utf8Name: seq<byte>)
      modifies this
      ensures fields == old(fields).(fileName := utf8Name, fileNameLen := ToU16(|utf8Name|))
      ensures Consistent(old(fields)) && |utf8Name| < 0x8000 ==> Consistent(fields)
    {
      fields := fields.(fileName := utf8Name, fileNameLen := ToU16(|utf8Name|));
    }

    method SetLocalOffset(offset: u32)
      modifies this
      ensures fields == old(fields).(localOffset := offset)
    {
      fields := fields.(localOffset := offset);
    }
  }
}
