/** CentralDirEnd: the end of central directory record (section 4.3.16 of the
    PKWARE APPNOTE.TXT), 22 little-endian bytes and a comment.

    The record is kept as a value, `Record`; the CentralDirEnd object holds one
    and its readFrom and setters replace it. writeTo fills a caller's array
    through a ByteBuffer, one relative put per field: a put that does not fit
    throws BufferOverflowException and leaves the earlier puts written. Three
    earlier revisions of the class differ in byteSize, in the checks readFrom
    and writeTo make, and in how setComment counts; they are modelled beside
    the newest one as `Revision` cases and variant functions. */
module Eocd {
  import opened ZipCommon
  import Streams

  const MAGIC: u32 := 0x06054b50   // "PK\x05\x06"
  const BASE_SIZE: nat := 0x16

  datatype Record = Record(
    sign: u32,
    diskNum: u16,
    startDiskNum: u16,
    diskEntryNum: u16,
    entryNum: u16,
    dirSize: u32,
    dirOffset: u32,
    commentLen: u16,
    comment: seq<byte>)

  /** A new CentralDirEnd: the signature and zeros, no comment. */
  const NEW_RECORD: Record := Record(MAGIC, 0, 0, 0, 0, 0, 0, 0, [])

  /** getEntryCount: `entryNum & 0xFFFF`, the count as unsigned. */
  function EntryCount(e: Record): nat
  {
    e.entryNum as nat
  }

  /** getDirOffset and getDirSize: the int fields as unsigned longs. */
  function DirOffset(e: Record): nat
  {
    e.dirOffset as nat
  }

  function DirSize(e: Record): nat
  {
    e.dirSize as nat
  }

  /** byteSize: `BASE_SIZE + commentLen & 0xFFFF`, where `+` binds first, so
      the sum of 22 and the short comment length, cut to 16 bits. */
  function ByteSize(e: Record): nat
  {
    (BASE_SIZE + Signed16(e.commentLen)) % 0x1_0000
  }

  /** The mask makes byteSize the record's length for every comment setComment
      can store and 22 more bytes can follow, even past 32767 bytes, where the
      length field reads as a negative short. */
  lemma ByteSizeOfComment(e: Record)
    requires e.commentLen == ToU16(|e.comment|) && |e.comment| < 0x1_0000 - BASE_SIZE
    ensures ByteSize(e) == BASE_SIZE + |e.comment|
  {
    if |e.comment| >= 0x8000 {
      assert Signed16(e.commentLen) == |e.comment| - 0x1_0000;
      ModOf(BASE_SIZE + |e.comment|, 0x1_0000, 0, BASE_SIZE + |e.comment|);
      assert (BASE_SIZE + |e.comment| - 0x1_0000) % 0x1_0000 == BASE_SIZE + |e.comment|;
    }
  }

  // ---------------------------------------------------------------------------
  // readFrom
  // ---------------------------------------------------------------------------

  /** readFrom over the array's bytes, its checks in order: room for the fixed
      part, the signature, both disk numbers zero, equal entry counts, a
      comment length that is a valid array size, and room for the comment.
      The comment is the bytes right after the fixed part; later bytes are
      ignored. */
  function Parse(b: seq<byte>): Result<Record>
  {
    if |b| < BASE_SIZE then Err(NotEnoughLength)
    else if GetLe32(b, 0) != MAGIC then Err(ErrorSign)
    else if GetLe16(b, 4) != 0 then Err(DiskNumberNotZero)
    else if GetLe16(b, 6) != 0 then Err(StartDiskNumberNotZero)
    else if GetLe16(b, 8) != GetLe16(b, 10) then Err(EntryNumberMismatch)
    else
      var e := Record(GetLe32(b, 0), 0, 0, GetLe16(b, 8), GetLe16(b, 10), GetLe32(b, 12),
                      GetLe32(b, 16), GetLe16(b, 20), []);
      var len := Signed16(e.commentLen);
      if len < 0 then Err(NegativeLength)
      else if |b| < ByteSize(e) then Err(NotEnoughLength)
      else Ok(e.(comment := b[BASE_SIZE..BASE_SIZE + len]))
  }

  /** The object after a readFrom of one revision, and how it ended. */
  datatype Loaded = Loaded(fields: Record, outcome: Outcome)

  /** readFrom of the newest revision as it overwrites the object: each get
      lands in its field before that field's check, so a failed check leaves
      the fields read so far overwritten; `new byte[commentLen]` replaces the
      comment with zeros before the final length check. */
  function ReadInPlace(prior: Record, b: seq<byte>): (r: Loaded)
  {
    if |b| < BASE_SIZE then Loaded(prior, Fail(NotEnoughLength))
    else
      var e := prior.(sign := GetLe32(b, 0));
      if e.sign != MAGIC then Loaded(e, Fail(ErrorSign))
      else
        var e := e.(diskNum := GetLe16(b, 4));
        if e.diskNum != 0 then Loaded(e, Fail(DiskNumberNotZero))
        else
          var e := e.(startDiskNum := GetLe16(b, 6));
          if e.startDiskNum != 0 then Loaded(e, Fail(StartDiskNumberNotZero))
          else
            var e := e.(diskEntryNum := GetLe16(b, 8), entryNum := GetLe16(b, 10));
            if e.diskEntryNum != e.entryNum then Loaded(e, Fail(EntryNumberMismatch))
            else
              var e := e.(dirSize := GetLe32(b, 12), dirOffset := GetLe32(b, 16), commentLen := GetLe16(b, 20));
              var len := Signed16(e.commentLen);
              if len < 0 then Loaded(e, Fail(NegativeLength))
              else
                var e := e.(comment := Zeros(len));
                if |b| < ByteSize(e) then Loaded(e, Fail(NotEnoughLength))
                else Loaded(e.(comment := b[BASE_SIZE..BASE_SIZE + len]), Pass)
  }

  /** The in-place read and the value read agree: the same outcome, and on
      success every field is overwritten with what the array holds. On
      failure the fields before the failing check are the array's, those
      after it are what the object held. */
  lemma ReadInPlaceParse(prior: Record, b: seq<byte>)
    ensures var r := ReadInPlace(prior, b);
      (r.outcome.Pass? <==> Parse(b).Ok?)
      && (r.outcome.Fail? ==> r.outcome.error == Parse(b).error)
      && (r.outcome.Pass? ==> r.fields == Parse(b).value)
    ensures |b| < BASE_SIZE ==> ReadInPlace(prior, b).fields == prior
    ensures |b| >= BASE_SIZE ==> ReadInPlace(prior, b).fields.sign == GetLe32(b, 0)
    ensures |b| >= BASE_SIZE && GetLe32(b, 0) != MAGIC
            ==> ReadInPlace(prior, b).fields == prior.(sign := GetLe32(b, 0))
  {
  }

  /** What a successful readFrom guarantees about the record. */
  predicate Valid(e: Record)
  {
    e.sign == MAGIC && e.diskNum == 0 && e.startDiskNum == 0 && e.diskEntryNum == e.entryNum
    && |e.comment| == Signed16(e.commentLen)
  }

  lemma ParseValid(b: seq<byte>)
    ensures Parse(b).Ok? ==> Valid(Parse(b).value) && ByteSize(Parse(b).value) <= |b|
  {
  }

  /** The 22 fixed bytes, as the eight puts of writeTo emit them. */
  function Puts(e: Record): seq<seq<byte>>
  {
    [Le32(e.sign), Le16(e.diskNum), Le16(e.startDiskNum), Le16(e.diskEntryNum),
     Le16(e.entryNum), Le32(e.dirSize), Le32(e.dirOffset), Le16(e.commentLen)]
  }

  /** The bytes of a sequence of puts, in order. */
  function Concat(chunks: seq<seq<byte>>): seq<byte>
  {
    if chunks == [] then [] else chunks[0] + Concat(chunks[1..])
  }

  function FixedBytes(e: Record): (r: seq<byte>)
    ensures |r| == BASE_SIZE
  {
    Le32(e.sign) + Le16(e.diskNum) + Le16(e.startDiskNum) + Le16(e.diskEntryNum)
    + Le16(e.entryNum) + Le32(e.dirSize) + Le32(e.dirOffset) + Le16(e.commentLen)
  }

  /** The whole record: the fixed bytes, then the comment. */
  function Encode(e: Record): seq<byte>
  {
    FixedBytes(e) + e.comment
  }

  /** Every fixed field reads back from the written bytes, whatever follows. */
  lemma FixedBytesRoundTrip(e: Record, rest: seq<byte>)
    ensures var b := FixedBytes(e) + rest;
      GetLe32(b, 0) == e.sign && GetLe16(b, 4) == e.diskNum && GetLe16(b, 6) == e.startDiskNum
      && GetLe16(b, 8) == e.diskEntryNum && GetLe16(b, 10) == e.entryNum
      && GetLe32(b, 12) == e.dirSize && GetLe32(b, 16) == e.dirOffset
      && GetLe16(b, 20) == e.commentLen
  {
    var a := Le32(e.sign) + Le16(e.diskNum) + Le16(e.startDiskNum);
    var c := Le16(e.diskEntryNum) + Le16(e.entryNum) + Le32(e.dirSize);
    var d := Le32(e.dirOffset) + Le16(e.commentLen);
    var b := FixedBytes(e) + rest;
    assert b == a + c + d + rest;
    Le32RoundTrip(e.sign, [], Le16(e.diskNum) + Le16(e.startDiskNum) + c + d + rest);
    Le16RoundTrip(e.diskNum, Le32(e.sign), Le16(e.startDiskNum) + c + d + rest);
    Le16RoundTrip(e.startDiskNum, Le32(e.sign) + Le16(e.diskNum), c + d + rest);
    Le16RoundTrip(e.diskEntryNum, a, Le16(e.entryNum) + Le32(e.dirSize) + d + rest);
    Le16RoundTrip(e.entryNum, a + Le16(e.diskEntryNum), Le32(e.dirSize) + d + rest);
    Le32RoundTrip(e.dirSize, a + Le16(e.diskEntryNum) + Le16(e.entryNum), d + rest);
    Le32RoundTrip(e.dirOffset, a + c, Le16(e.commentLen) + rest);
    Le16RoundTrip(e.commentLen, a + c + Le32(e.dirOffset), rest);
  }

  /** writeTo then readFrom gives the record back, whatever the array holds
      after it. */
  lemma EncodeParse(e: Record, rest: seq<byte>)
    requires Valid(e)
    ensures Parse(Encode(e) + rest) == Ok(e)
  {
    var b := Encode(e) + rest;
    assert b == FixedBytes(e) + (e.comment + rest);
    FixedBytesRoundTrip(e, e.comment + rest);
    assert b[BASE_SIZE..BASE_SIZE + |e.comment|] == e.comment;
  }

  /** The record of CentralDirEndTest reads as 0x3412 entries, a directory of
      0x04030201 bytes at 0x08070605, and the nine comment bytes of "abc" and
      two CJK characters in UTF-8. */
  const SAMPLE_COMMENT: seq<byte> := [0x61, 0x62, 0x63, 0xE4, 0xB8, 0xAD, 0xE6, 0x96, 0x87]
  const SAMPLE: seq<byte> := [0x50, 0x4B, 0x05, 0x06, 0, 0, 0, 0, 0x12, 0x34, 0x12, 0x34,
                              0x01, 0x02, 0x03, 0x04, 0x05, 0x06, 0x07, 0x08, 0x09, 0] + SAMPLE_COMMENT

  lemma SampleParses()
    ensures Parse(SAMPLE).Ok?
    ensures EntryCount(Parse(SAMPLE).value) == 0x3412
    ensures DirSize(Parse(SAMPLE).value) == 0x04030201
    ensures DirOffset(Parse(SAMPLE).value) == 0x08070605
    ensures Parse(SAMPLE).value.comment == SAMPLE_COMMENT
  {
    assert GetLe32(SAMPLE, 0) == MAGIC && GetLe16(SAMPLE, 4) == 0 && GetLe16(SAMPLE, 6) == 0;
    assert GetLe16(SAMPLE, 8) == 0x3412 && GetLe16(SAMPLE, 10) == 0x3412;
    assert GetLe32(SAMPLE, 12) == 0x04030201 && GetLe32(SAMPLE, 16) == 0x08070605;
    assert GetLe16(SAMPLE, 20) == 9;
    assert SAMPLE[BASE_SIZE..BASE_SIZE + 9] == SAMPLE_COMMENT;
  }

  // ---------------------------------------------------------------------------
  // writeTo: relative puts into a fixed array
  // ---------------------------------------------------------------------------

  /** What a run of puts leaves: the bytes written from the start of the
      array, and whether every put fitted. */
  datatype Written = Written(bytes: seq<byte>, complete: bool)

  /** Puts into an array with room bytes: a put that fits is written; the
      first one that does not throws and ends the run. */
  function PutAll(chunks: seq<seq<byte>>, room: nat): (r: Written)
    ensures |r.bytes| <= room
  {
    if chunks == [] then Written([], true)
    else if |chunks[0]| > room then Written([], false)
    else
      var w := PutAll(chunks[1..], room - |chunks[0]|);
      Written(chunks[0] + w.bytes, w.complete)
  }

  /** When all the bytes fit, every put is written. */
  lemma {:induction false} PutAllFits(chunks: seq<seq<byte>>, room: nat)
    requires |Concat(chunks)| <= room
    ensures PutAll(chunks, room) == Written(Concat(chunks), true)
  {
    if chunks != [] {
      PutAllFits(chunks[1..], room - |chunks[0]|);
    }
  }

  /** When they do not, the run stops short of the end of the array's room. */
  lemma {:induction false} PutAllOverflows(chunks: seq<seq<byte>>, room: nat)
    requires |Concat(chunks)| > room
    ensures !PutAll(chunks, room).complete
  {
    if chunks != [] && |chunks[0]| <= room {
      PutAllOverflows(chunks[1..], room - |chunks[0]|);
    }
  }

  /** Bytes that fit land at pos; nothing else in the array moves. */
  method PutAt(c: seq<byte>, b: array<byte>, pos: nat)
    requires pos + |c| <= b.Length
    modifies b
    ensures b[..pos + |c|] == old(b[..pos]) + c && b[pos + |c|..] == old(b[pos + |c|..])
  {
    Streams.CopyInto(c, 0, |c|, b, pos);
  }

  /** The three revisions of writeTo and readFrom: the newest class, the
      earlier one beside it with an unmasked byteSize, and the one in the
      util packages, which validates the record first and writes the comment
      only when its length is positive. */
  datatype Revision = Newest | Unmasked | Validating

  /** byteSize of each revision; only the newest masks to 16 bits. */
  function RevByteSize(e: Record, rev: Revision): int
  {
    if rev == Newest then ByteSize(e) else BASE_SIZE + Signed16(e.commentLen)
  }

  /** checkValid of the util revisions: the readFrom checks, then a count that
      is not negative as a short. */
  function CheckValid(e: Record): Outcome
  {
    if e.sign != MAGIC then Fail(ErrorSign)
    else if e.diskNum != 0 then Fail(DiskNumberNotZero)
    else if e.startDiskNum != 0 then Fail(StartDiskNumberNotZero)
    else if e.diskEntryNum != e.entryNum then Fail(EntryNumberMismatch)
    else if Signed16(e.entryNum) < 0 then Fail(ErrorEntryNumber)
    else Pass
  }

  /** What writeTo does before its first put: either the error it throws, or
      the puts it goes on to make. */
  function WritePlan(e: Record, room: nat, rev: Revision): Result<seq<seq<byte>>>
  {
    var valid := if rev == Validating then CheckValid(e) else Pass;
    if valid.Fail? then Err(valid.error)
    else if room < RevByteSize(e, rev) then Err(NotEnoughLength)
    else if rev == Validating && Signed16(e.commentLen) <= 0 then Ok(Puts(e))
    else Ok(Puts(e) + [e.comment])
  }

  /** writeTo: the checks, then the puts; an overflowing put is a
      BufferOverflowException after the puts before it. */
  method WriteRecord(e: Record, b: array<byte>, rev: Revision) returns (r: Outcome)
    modifies b
    ensures WritePlan(e, b.Length, rev).Err? ==> r == Fail(WritePlan(e, b.Length, rev).error) && b[..] == old(b[..])
    ensures WritePlan(e, b.Length, rev).Ok? ==>
      var w := PutAll(WritePlan(e, b.Length, rev).value, b.Length);
      (r.Pass? <==> w.complete) && (r.Fail? ==> r.error == BufferOverflow)
      && b[..|w.bytes|] == w.bytes && b[|w.bytes|..] == old(b[|w.bytes|..])
  {
    var plan := WritePlan(e, b.Length, rev);
    if plan.Err? {
      return Fail(plan.error);
    }
    var w := PutAll(plan.value, b.Length);
    PutAt(w.bytes, b, 0);
    r := if w.complete then Pass else Fail(BufferOverflow);
  }

  /** One step of Concat from the k-th put. */
  lemma ConcatFrom(p: seq<seq<byte>>, k: nat)
    requires k < |p|
    ensures Concat(p[k..]) == p[k] + Concat(p[k + 1..])
  {
    assert p[k..][1..] == p[k + 1..];
  }

  /** An empty last put adds nothing. */
  lemma {:induction false} ConcatDropEmpty(p: seq<seq<byte>>)
    ensures Concat(p + [[]]) == Concat(p)
  {
    if p != [] {
      assert (p + [[]])[1..] == p[1..] + [[]];
      ConcatDropEmpty(p[1..]);
    }
  }

  /** The puts of the newest writeTo are the encoded record. */
  lemma PutsConcat(e: Record)
    ensures Concat(Puts(e) + [e.comment]) == Encode(e)
  {
    var p := Puts(e) + [e.comment];
    assert p[9..] == [];
    ConcatFrom(p, 8);
    ConcatFrom(p, 7);
    ConcatFrom(p, 6);
    ConcatFrom(p, 5);
    ConcatFrom(p, 4);
    ConcatFrom(p, 3);
    ConcatFrom(p, 2);
    ConcatFrom(p, 1);
    ConcatFrom(p, 0);
    assert p[0..] == p;
  }

  /** The newest writeTo into an array with room for the whole record writes
      exactly the encoded record at its start, and readFrom of the array gives
      the record back when it is valid. */
  lemma WriteThenRead(e: Record, room: nat)
    requires BASE_SIZE + |e.comment| <= room && ByteSize(e) <= room
    ensures WritePlan(e, room, Newest).Ok?
    ensures PutAll(WritePlan(e, room, Newest).value, room) == Written(Encode(e), true)
  {
    PutsConcat(e);
    PutAllFits(Puts(e) + [e.comment], room);
  }

  /** A comment longer than the array's room past the fixed part overflows. */
  lemma WriteOverflows(e: Record, room: nat)
    requires room < BASE_SIZE + |e.comment| && ByteSize(e) <= room
    ensures WritePlan(e, room, Newest).Ok?
    ensures !PutAll(WritePlan(e, room, Newest).value, room).complete
  {
    PutsConcat(e);
    PutAllOverflows(Puts(e) + [e.comment], room);
  }

  // ---------------------------------------------------------------------------
  // The CentralDirEnd object
  // ---------------------------------------------------------------------------

  class CentralDirEnd {
    var fields: Record

    constructor()
      ensures fields == NEW_RECORD
    {
      fields := NEW_RECORD;
    }

    /** readFrom: on success the record is what the array holds; on failure
        the fields read before the failing check are overwritten. */
    method ReadFrom(bytes: seq<byte>) returns (r: Outcome)
      modifies this
      ensures (r.Pass? <==> Parse(bytes).Ok?) && (r.Fail? ==> r.error == Parse(bytes).error)
      ensures fields == ReadInPlace(old(fields), bytes).fields
      ensures r.Pass? ==> fields == Parse(bytes).value
    {
      var loaded := ReadInPlace(fields, bytes);
      ReadInPlaceParse(fields, bytes);
      fields := loaded.fields;
      r := loaded.outcome;
    }

    /** writeTo of the newest revision; a record read or built by the setters
        and written into room enough reads back unchanged. */
    method WriteTo(b: array<byte>) returns (r: Outcome)
      modifies b
      ensures b.Length < ByteSize(fields) ==> r == Fail(NotEnoughLength) && b[..] == old(b[..])
      ensures b.Length >= ByteSize(fields) ==>
        var w := PutAll(Puts(fields) + [fields.comment], b.Length);
        (r.Pass? <==> w.complete) && (r.Fail? ==> r.error == BufferOverflow)
        && b[..|w.bytes|] == w.bytes && b[|w.bytes|..] == old(b[|w.bytes|..])
      ensures r.Pass? && Valid(fields) ==> Parse(b[..]) == Ok(fields)
    {
      r := WriteRecord(fields, b, Newest);
      if r.Pass? && Valid(fields) {
        if b.Length < BASE_SIZE + |fields.comment| {
          WriteOverflows(fields, b.Length);
          assert false;
        }
        WriteThenRead(fields, b.Length);
        var n := |Encode(fields)|;
        assert b[..] == b[..n] + b[n..];
        EncodeParse(fields, b[n..]);
      }
    }

    /** setEntryCount: both counts, as shorts. */
    method SetEntryCount(count: int)
      modifies this
      ensures fields == old(fields).(entryNum := ToU16(count), diskEntryNum := ToU16(count))
      ensures EntryCount(fields) == count % 0x1_0000
    {
      fields := fields.(entryNum := ToU16(count), diskEntryNum := ToU16(count));
    }

    /** setDirRange: the low 32 bits of each long. */
    method SetDirRange(offset: int, size: int)
      modifies this
      ensures fields == old(fields).(dirOffset := ToU32(offset), dirSize := ToU32(size))
      ensures DirOffset(fields) == offset % 0x1_0000_0000 && DirSize(fields) == size % 0x1_0000_0000
    {
      fields := fields.(dirOffset := ToU32(offset), dirSize := ToU32(size));
    }

    /** setComment: the comment's bytes in the caller's charset, and their
        count as a short. */
    method SetComment(bytes: seq<byte>)
      modifies this
      ensures fields == old(fields).(comment := bytes, commentLen := ToU16(|bytes|))
    {
      fields := fields.(comment := bytes, commentLen := ToU16(|bytes|));
    }
  }

  /** The record a packer builds, a new record after setEntryCount,
      setDirRange and setComment, passes every readFrom check and reads back
      with the count, the range and the comment it was given. */
  lemma BuiltRecordReadsBack(count: int, offset: int, size: int, comment: seq<byte>, rest: seq<byte>)
    requires |comment| < 0x8000
    ensures var e := NEW_RECORD.(entryNum := ToU16(count), diskEntryNum := ToU16(count),
                                 dirOffset := ToU32(offset), dirSize := ToU32(size),
                                 comment := comment, commentLen := ToU16(|comment|));
      Valid(e) && Parse(Encode(e) + rest) == Ok(e)
      && EntryCount(e) == count % 0x1_0000 && DirOffset(e) == offset % 0x1_0000_0000
      && DirSize(e) == size % 0x1_0000_0000 && e.comment == comment
  {
    var e := NEW_RECORD.(entryNum := ToU16(count), diskEntryNum := ToU16(count),
                         dirOffset := ToU32(offset), dirSize := ToU32(size),
                         comment := comment, commentLen := ToU16(|comment|));
    EncodeParse(e, rest);
  }

  // ---------------------------------------------------------------------------
  // The util revisions: readFrom in place, checkValid, signed getters
  // ---------------------------------------------------------------------------

  /** The eight relative gets of the fixed part, each overwriting its field;
      a get past the end of the array throws BufferUnderflowException with
      the earlier fields already overwritten. */
  function UtilReadFixed(prior: Record, b: seq<byte>): (r: Loaded)
    ensures r.outcome.Pass? <==> |b| >= BASE_SIZE
    ensures r.outcome.Fail? ==> r.outcome.error == BufferUnderflow
  {
    if |b| < 4 then Loaded(prior, Fail(BufferUnderflow))
    else
      var e := prior.(sign := GetLe32(b, 0));
      if |b| < 6 then Loaded(e, Fail(BufferUnderflow))
      else
        var e := e.(diskNum := GetLe16(b, 4));
        if |b| < 8 then Loaded(e, Fail(BufferUnderflow))
        else
          var e := e.(startDiskNum := GetLe16(b, 6));
          if |b| < 10 then Loaded(e, Fail(BufferUnderflow))
          else
            var e := e.(diskEntryNum := GetLe16(b, 8));
            if |b| < 12 then Loaded(e, Fail(BufferUnderflow))
            else
              var e := e.(entryNum := GetLe16(b, 10));
              if |b| < 16 then Loaded(e, Fail(BufferUnderflow))
              else
                var e := e.(dirSize := GetLe32(b, 12));
                if |b| < 20 then Loaded(e, Fail(BufferUnderflow))
                else
                  var e := e.(dirOffset := GetLe32(b, 16));
                  if |b| < BASE_SIZE then Loaded(e, Fail(BufferUnderflow))
                  else Loaded(e.(commentLen := GetLe16(b, 20)), Pass)
  }

  /** readFrom of the util revisions: the length check against the byteSize
      of the record held before, the gets, the length check against the new
      byteSize, the comment only when its length is positive (otherwise the
      earlier comment stays), then checkValid. */
  function UtilParse(prior: Record, b: seq<byte>): Loaded
  {
    if |b| < BASE_SIZE + Signed16(prior.commentLen) then Loaded(prior, Fail(NotEnoughLength))
    else
      var f := UtilReadFixed(prior, b);
      if f.outcome.Fail? then f
      else
        var e := f.fields;
        var len := Signed16(e.commentLen);
        if |b| < BASE_SIZE + len then Loaded(e, Fail(NotEnoughLength))
        else
          var e := if len > 0 then e.(comment := b[BASE_SIZE..BASE_SIZE + len]) else e;
          Loaded(e, CheckValid(e))
  }

  /** The unmasked byteSize of the earlier revisions agrees with the newest
      one exactly when the sum is not negative, that is for every comment
      length down to -22 as a short. */
  lemma UnmaskedByteSize(e: Record)
    ensures RevByteSize(e, Unmasked) == ByteSize(e) <==> Signed16(e.commentLen) >= -(BASE_SIZE as int)
  {
    var s := BASE_SIZE + Signed16(e.commentLen);
    if s >= 0 {
      ModOf(s, 0x1_0000, 0, s);
    }
  }

  /** The util revisions return the fields as Java ints and shorts. */
  function UtilEntryCount(e: Record): (r: int)
    ensures r == EntryCount(e) || r == EntryCount(e) - 0x1_0000
  {
    Signed16(e.entryNum)
  }

  /** getComment of the gszip util revision: nothing unless the length is
      positive. */
  function UtilComment(e: Record): seq<byte>
  {
    if Signed16(e.commentLen) > 0 then e.comment else []
  }

  /** The gets of the fixed part read back every written field; the comment
      is still the one held before. */
  lemma UtilReadFixedOf(prior: Record, e: Record, rest: seq<byte>)
    ensures UtilReadFixed(prior, FixedBytes(e) + rest) == Loaded(e.(comment := prior.comment), Pass)
  {
    FixedBytesRoundTrip(e, rest);
  }

  /** The util writeTo, into room for the record, writes the encoded record
      when checkValid passes and the comment length is its byte count. */
  lemma UtilWriteFits(e: Record, room: nat)
    requires CheckValid(e).Pass? && |e.comment| < 0x8000 && e.commentLen == ToU16(|e.comment|)
    requires BASE_SIZE + |e.comment| <= room
    ensures WritePlan(e, room, Validating).Ok?
    ensures PutAll(WritePlan(e, room, Validating).value, room) == Written(Encode(e), true)
  {
    SmallU16(|e.comment|);
    PutsConcat(e);
    if |e.comment| == 0 {
      ConcatDropEmpty(Puts(e));
      PutAllFits(Puts(e), room);
    } else {
      PutAllFits(Puts(e) + [e.comment], room);
    }
  }

  /** Such a record, once written, reads back whatever follows it in the
      array: every field, and the comment too unless it is empty, in which
      case the object keeps the comment it held before, which the gszip util
      getComment hides behind the zero length. */
  lemma UtilWriteThenRead(e: Record, prior: Record, rest: seq<byte>)
    requires CheckValid(e).Pass? && |e.comment| < 0x8000 && e.commentLen == ToU16(|e.comment|)
    requires Signed16(prior.commentLen) <= |e.comment| + |rest|
    ensures UtilParse(prior, Encode(e) + rest)
            == Loaded(if e.comment == [] then e.(comment := prior.comment) else e, Pass)
    ensures UtilComment(UtilParse(prior, Encode(e) + rest).fields) == e.comment
  {
    SmallU16(|e.comment|);
    var b := Encode(e) + rest;
    assert b == FixedBytes(e) + (e.comment + rest);
    UtilReadFixedOf(prior, e, e.comment + rest);
    var f := UtilReadFixed(prior, b);
    assert b[BASE_SIZE..BASE_SIZE + |e.comment|] == e.comment;
    assert f.fields.(comment := e.comment) == e;
  }

  /** setComment of the gszip util revision: the length field takes the
      string's length in chars, the bytes are the string in the caller's
      charset, kept only when that char count is positive as a short. */
  function CharCountSetComment(e: Record, chars: nat, bytes: seq<byte>): Record
  {
    var len := ToU16(chars);
    e.(commentLen := len, comment := if Signed16(len) > 0 then bytes else [])
  }

  /** setComment of every other revision: the bytes and their count. */
  function SetCommentBytes(e: Record, bytes: seq<byte>): (r: Record)
    ensures r.comment == bytes && |bytes| < 0x8000 ==> Signed16(r.commentLen) == |bytes|
  {
    e.(comment := bytes, commentLen := ToU16(|bytes|))
  }

  /** "中", one char, three bytes in UTF-8. */
  const ZHONG_UTF8: seq<byte> := [0xE4, 0xB8, 0xAD]

  /** The char count goes wrong as soon as a char takes more than one byte:
      the record does not fit the byteSize() bytes it claims, and in a larger
      array it reads back with the comment cut to its first byte. */
  lemma CharCountCommentBreaks()
    ensures var e := CharCountSetComment(NEW_RECORD, 1, ZHONG_UTF8);
      RevByteSize(e, Validating) == 23
      && WritePlan(e, 23, Validating).Ok? && !PutAll(WritePlan(e, 23, Validating).value, 23).complete
      && WritePlan(e, 25, Validating).Ok? && PutAll(WritePlan(e, 25, Validating).value, 25) == Written(Encode(e), true)
      && UtilParse(NEW_RECORD, Encode(e)).fields.comment == [0xE4]
  {
    var e := CharCountSetComment(NEW_RECORD, 1, ZHONG_UTF8);
    PutsConcat(e);
    PutAllOverflows(Puts(e) + [e.comment], 23);
    PutAllFits(Puts(e) + [e.comment], 25);
    var b := Encode(e);
    UtilReadFixedOf(NEW_RECORD, e, e.comment);
    assert b[BASE_SIZE..BASE_SIZE + 1] == [0xE4];
  }

  /** With the byte count, the same comment, or any comment under 32768
      bytes, fits byteSize() exactly ... */
  lemma ByteCountCommentFits(bytes: seq<byte>)
    requires |bytes| < 0x8000
    ensures var e := SetCommentBytes(NEW_RECORD, bytes);
      RevByteSize(e, Validating) == BASE_SIZE + |bytes|
      && PutAll(WritePlan(e, BASE_SIZE + |bytes|, Validating).value, BASE_SIZE + |bytes|) == Written(Encode(e), true)
  {
    var e := SetCommentBytes(NEW_RECORD, bytes);
    SmallU16(|bytes|);
    UtilWriteFits(e, BASE_SIZE + |bytes|);
  }

  /** ... and reads back whole. */
  lemma ByteCountCommentReadsBack(bytes: seq<byte>, prior: Record)
    requires |bytes| < 0x8000 && Signed16(prior.commentLen) <= |bytes|
    ensures var e := SetCommentBytes(NEW_RECORD, bytes);
      UtilParse(prior, Encode(e)).outcome == Pass && UtilComment(UtilParse(prior, Encode(e)).fields) == bytes
  {
    var e := SetCommentBytes(NEW_RECORD, bytes);
    assert CheckValid(e).Pass?;
    assert Encode(e) + [] == Encode(e);
    UtilWriteThenRead(e, prior, []);
  }
}
