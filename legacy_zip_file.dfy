/** The libzip revision of GsZipFile. It finds the end record by the same
    backward scan, but reads it with the older record reader into a fresh
    record, views the central directory and an entry's data through the
    older range stream with its strict end checks, and decrypts with the
    one-shot decrypting stream. */
module LegacyReader {
  import opened ZipCommon
  import opened Headers
  import opened Entries
  import opened EntryTree
  import opened Reader
  import Eocd
  import CryptoStreams
  import PKWare

  // ---------------------------------------------------------------------------
  // Opening the archive
  // ---------------------------------------------------------------------------

  /** readCentralDirEnd: the bytes from the found offset to the end of the
      file, read over a new record. */
  function LegacyDirEnd(file: seq<byte>): (r: Result<Eocd.Record>)
    ensures r.Ok? ==> Eocd.CheckValid(r.value).Pass? && Eocd.UtilEntryCount(r.value) >= 0
    ensures EocdOffset(file).Err? ==> r == Err(EocdOffset(file).error)
  {
    var p :- EocdOffset(file);
    var l := Eocd.UtilParse(Eocd.NEW_RECORD, file[p..]);
    if l.outcome.Fail? then Err(l.outcome.error) else Ok(l.fields)
  }

  /** The older range stream's constructor checks, on Java ints: the start
      must lie before the end, and the end before the end of the file. */
  function StrictRange(fileLength: nat, offset: int, endOffset: int): (r: Outcome)
    ensures r.Pass? <==> offset < endOffset < fileLength
    ensures r.Fail? ==> r.error == (if offset >= endOffset then ErrorLength else ErrorEndOffset)
  {
    if offset >= endOffset then Fail(ErrorLength)
    else if endOffset >= fileLength then Fail(ErrorEndOffset)
    else Pass
  }

  /** readCentralDir: a strict range stream over [offset, offset + size) with
      an int sum, then as many headers as the signed entry count says. The
      range is checked before the count is looked at, so even a directory
      with no entries needs a non-empty range before the file's last byte.
      Reading from a negative offset fails at the seek. */
  function LegacyReadDir(file: seq<byte>, e: Eocd.Record, decode: NameBytes -> string): (r: Result<Dir>)
    ensures r.Ok? ==> Linked(r.value.nodes)
    ensures StrictRange(|file|, Signed32(e.dirOffset), IntAdd(Signed32(e.dirOffset), Signed32(e.dirSize))).Fail? ==>
      r == Err(StrictRange(|file|, Signed32(e.dirOffset), IntAdd(Signed32(e.dirOffset), Signed32(e.dirSize))).error)
    ensures r.Ok? ==> |r.value.entries| == (if Eocd.UtilEntryCount(e) > 0 then Eocd.UtilEntryCount(e) else 0)
  {
    var offset := Signed32(e.dirOffset);
    var endOffset := IntAdd(offset, Signed32(e.dirSize));
    var view := StrictRange(|file|, offset, endOffset);
    if view.Fail? then Err(view.error)
    else
      var count := Eocd.UtilEntryCount(e);
      if count <= 0 then Ok(Dir([], [ROOT]))
      else if offset < 0 then Err(NegativeOffset)
      else LoadDir(file[offset..endOffset], 0, count, [ROOT], decode)
  }

  /** The constructor: the record, then the directory into an empty list and
      a tree holding only the root. */
  function LegacyOpen(file: seq<byte>, decode: NameBytes -> string): (r: Result<Archive>)
    ensures r.Ok? ==> LegacyDirEnd(file) == Ok(r.value.dirEnd) && Linked(r.value.nodes)
    ensures r.Ok? ==> LegacyReadDir(file, r.value.dirEnd, decode) == Ok(Dir(r.value.entries, r.value.nodes))
    ensures LegacyDirEnd(file).Err? ==> r == Err(LegacyDirEnd(file).error)
  {
    var e :- LegacyDirEnd(file);
    var d :- LegacyReadDir(file, e, decode);
    Ok(Archive(e, d.entries, d.nodes))
  }

  /** A valid record written after any bytes, whose comment length field is
      the comment's length and whose comment holds no later signature, is
      the record the constructor reads. */
  lemma LegacyDirEndOfWritten(prefix: seq<byte>, e: Eocd.Record)
    requires Eocd.CheckValid(e).Pass? && |e.comment| < 0x8000 && e.commentLen == ToU16(|e.comment|)
    requires forall p: nat :: |prefix| < p <= |prefix| + |e.comment| ==> !MagicAt(prefix + Eocd.Encode(e), p)
    ensures LegacyDirEnd(prefix + Eocd.Encode(e)) == Ok(e)
  {
    SmallU16(|e.comment|);
    WrittenDirEndFound(prefix, e);
    var file := prefix + Eocd.Encode(e);
    assert file[|prefix|..] == Eocd.Encode(e) + [];
    Eocd.UtilWriteThenRead(e, Eocd.NEW_RECORD, []);
  }

  /** For a directory range that is non-empty, ends before the file's last
      byte and stays below 2^31, and a count below 2^15, the libzip reader
      reads the same directory as the newest one. */
  lemma LegacyReadDirAgrees(file: seq<byte>, e: Eocd.Record, decode: NameBytes -> string)
    requires 0 < Eocd.DirSize(e) && Eocd.DirOffset(e) + Eocd.DirSize(e) < 0x8000_0000
    requires Eocd.DirOffset(e) + Eocd.DirSize(e) < |file|
    requires Eocd.EntryCount(e) < 0x8000
    ensures LegacyReadDir(file, e, decode)
            == ReadDir(file, Eocd.DirOffset(e), Eocd.DirSize(e), Eocd.EntryCount(e), [ROOT], decode)
  {
    var start, size := Eocd.DirOffset(e), Eocd.DirSize(e);
    assert Signed32(e.dirOffset) == start && Signed32(e.dirSize) == size;
    assert Eocd.UtilEntryCount(e) == Eocd.EntryCount(e);
    ReadDirCases(file, start, size, Eocd.EntryCount(e), [ROOT], decode);
    if Eocd.EntryCount(e) == 0 {
      assert LoadDir(file[start..start + size], 0, 0, [ROOT], decode) == Ok(Dir([], [ROOT]));
    }
  }

  /** After opening, the entries are numbered 0..n-1 in directory order and
      looking up an entry's name finds that entry. */
  lemma LegacyOpenedEntries(file: seq<byte>, decode: NameBytes -> string)
    requires LegacyOpen(file, decode).Ok?
    ensures var a := LegacyOpen(file, decode).value;
      && Linked(a.nodes) && |a.entries| == Eocd.UtilEntryCount(a.dirEnd)
      && forall k :: 0 <= k < |a.entries| ==>
           a.entries[k].index == k && Lookup(a.nodes, a.entries[k].name) == Some(a.entries[k])
  {
    var a := LegacyOpen(file, decode).value;
    var e := a.dirEnd;
    var offset := Signed32(e.dirOffset);
    var endOffset := IntAdd(offset, Signed32(e.dirSize));
    var count := Eocd.UtilEntryCount(e);
    if count > 0 {
      LoadDirFinds(file[offset..endOffset], 0, count, [ROOT], decode);
    }
  }

  /** The archive of an end record alone, which the newest reader opens, is
      refused: its directory offset and size are both 0, and the range check
      comes before the entry count. */
  lemma LegacyEmptyArchiveRejected(decode: NameBytes -> string)
    ensures LegacyOpen(EmptyArchive(), decode) == Err(ErrorLength)
    ensures Open(EmptyArchive(), decode).Ok?
  {
    EmptyArchiveOpens(decode);
    LegacyDirEndOfWritten([], Eocd.NEW_RECORD);
    assert [] + Eocd.Encode(Eocd.NEW_RECORD) == EmptyArchive();
  }

  // ---------------------------------------------------------------------------
  // Opening an entry's data
  // ---------------------------------------------------------------------------

  /** The one-shot decrypting stream behind getInputStream: the encryption
      method, then the password, then the header and its check byte as the
      stream's constructor reads them. The result says whether the data is
      encrypted. */
  function LegacyDecryptCheck(file: seq<byte>, e: Entry, password: seq<byte>, start: nat, end: nat): (r: Result<bool>)
    requires start <= end <= |file|
    ensures r == DecryptCheck(file, e, password, start, end)
  {
    var enc := EncryptMethodOf(e);
    if enc == NoEncryption then Ok(false)
    else if enc == PkwareEncryption then
      if password == [] then Err(NeedPassword)
      else
        var keys :- CryptoStreams.OneShotOpen(false, PKWare.PKWARE, password, file[start..end],
                                              TimeCheck(e.header), CrcCheck(e.header));
        Ok(true)
    else Err(EncryptNotSupported)
  }

  /** getInputStream for an entry. A folder reads nothing. For a file, a
      strict range stream runs from the signed local offset to the file
      length cast to an int; the local header is read through it and must
      match, and the end is then reset to the position after the header
      plus the central compressed size, again short of the file's last
      byte. The decrypting and inflating layers follow. */
  function LegacyOpenPlan(file: seq<byte>, e: Entry, password: seq<byte>): (r: Result<Plan>)
    ensures !IsFile(e) <==> r == Ok(FolderPlan)
    ensures IsFile(e) && |file| < 0x8000_0000 ==>
      r == Err(if Signed32(e.header.localOffset) >= |file| then ErrorLength else ErrorEndOffset)
    ensures r.Ok? && r.value.DataPlan? ==>
      && r.value.end < |file| && IntCast(|file|) < |file|
      && (r.value.encrypted <==> EncryptMethodOf(e) == PkwareEncryption)
      && (r.value.inflate <==> CompressMethodOf(e) == Flate)
  {
    if !IsFile(e) then Ok(FolderPlan)
    else
      var offset := Signed32(e.header.localOffset);
      var endOffset := IntCast(|file|);
      var view := StrictRange(|file|, offset, endOffset);
      if view.Fail? then Err(view.error)
      else if offset < 0 then Err(NegativeOffset)
      else
        var local :- LocalHeader(file[..endOffset], offset);
        if !MatchLocal(e.header, local) then Err(HeaderMismatch)
        else
          var start := offset + ByteSize(local, false);
          var end := IntAdd(start, Signed32(e.header.compSize));
          if end >= |file| then Err(ErrorEndOffset)
          else if end < start then Err(StartAfterEnd)
          else
            var encrypted :- LegacyDecryptCheck(file, e, password, start, end);
            if CompressMethodOf(e) == UnsupportedCompression then Err(CompressNotSupported)
            else Ok(DataPlan(start, end, encrypted, CompressMethodOf(e) == Flate))
  }

  // ---------------------------------------------------------------------------
  // The range stream with the end check it evidently intends
  // ---------------------------------------------------------------------------

  /** The range stream's checks as evidently intended: a range may run up
      to the end of the file, which is what the constructor that takes the
      file length as the end needs. */
  function RelaxedRange(fileLength: nat, offset: int, endOffset: int): (r: Outcome)
    ensures r.Pass? <==> offset < endOffset <= fileLength
    ensures r.Fail? ==> r.error == (if offset >= endOffset then ErrorLength else ErrorEndOffset)
  {
    if offset >= endOffset then Fail(ErrorLength)
    else if endOffset > fileLength then Fail(ErrorEndOffset)
    else Pass
  }

  /** The data range getInputStream views through the corrected range
      stream: from the signed local offset to the file length cast to an
      int, the local header read and matched, then the end reset to the
      position after the header plus the central compressed size, which may
      be the end of the file. */
  function LegacyDataRange(file: seq<byte>, e: Entry): (r: Result<Range>)
    ensures r.Ok? ==> r.value.start <= r.value.end <= |file|
  {
    var offset := Signed32(e.header.localOffset);
    var endOffset := IntCast(|file|);
    var view := RelaxedRange(|file|, offset, endOffset);
    if view.Fail? then Err(view.error)
    else if offset < 0 then Err(NegativeOffset)
    else LegacyWindowRange(file[..endOffset], |file|, offset, e)
  }

  /** The same past the stream's construction, over the bytes it shows from
      the file start to its end: the local header read at the offset and
      matched, then the data behind it as long as the central compressed
      size says, within the file. */
  function LegacyWindowRange(window: seq<byte>, fileLength: nat, offset: nat, e: Entry): (r: Result<Range>)
    ensures r.Ok? ==> r.value.start <= r.value.end <= fileLength
  {
    var local :- LocalHeader(window, offset);
    LegacyRangeBehind(e, offset, local, fileLength)
  }

  /** The rest of LegacyWindowRange once the local header at offset has been
      read: the end is the start plus the central compressed size. */
  function LegacyRangeBehind(e: Entry, offset: nat, local: Header, fileLength: nat): (r: Result<Range>)
    requires HeaderSize(false) <= ByteSize(local, false)
    ensures r.Ok? ==> MatchLocal(e.header, local) && r.value.start == offset + ByteSize(local, false)
    ensures r.Ok? ==> r.value.start <= r.value.end <= fileLength
  {
    if !MatchLocal(e.header, local) then Err(HeaderMismatch)
    else
      var start := offset + ByteSize(local, false);
      var end := IntAdd(start, Signed32(e.header.compSize));
      if end > fileLength then Err(ErrorEndOffset)
      else if end < start then Err(StartAfterEnd)
      else Ok(Range(start, end))
  }

  /** getInputStream for an entry through the corrected range stream: the
      data range, then the decrypting and inflating layers. */
  function LegacyOpenPlanFixed(file: seq<byte>, e: Entry, password: seq<byte>): (r: Result<Plan>)
    ensures !IsFile(e) <==> r == Ok(FolderPlan)
    ensures IsFile(e) && LegacyDataRange(file, e).Err? ==> r == Err(LegacyDataRange(file, e).error)
    ensures r.Ok? && r.value.DataPlan? ==>
      && LegacyDataRange(file, e) == Ok(Range(r.value.start, r.value.end))
      && r.value.end <= |file|
      && (r.value.encrypted <==> EncryptMethodOf(e) == PkwareEncryption)
      && (r.value.inflate <==> CompressMethodOf(e) == Flate)
  {
    if !IsFile(e) then Ok(FolderPlan)
    else
      var range :- LegacyDataRange(file, e);
      var encrypted :- LegacyDecryptCheck(file, e, password, range.start, range.end);
      if CompressMethodOf(e) == UnsupportedCompression then Err(CompressNotSupported)
      else Ok(DataPlan(range.start, range.end, encrypted, CompressMethodOf(e) == Flate))
  }

  /** On a file under 2 GiB, wherever the newest reader finds an entry's
      data and the central compressed size is the local one, the corrected
      libzip reader finds the same range and builds the same plan, where the
      reader as written refuses every file entry. */
  lemma LegacyFixedAgrees(file: seq<byte>, e: Entry, password: seq<byte>)
    requires |file| < 0x8000_0000 && IsFile(e) && Signed32(e.header.localOffset) < |file|
    requires DataRange(file, e).Ok?
    requires var off := Signed32(e.header.localOffset);
      e.header.compSize == LocalHeader(file, off).value.compSize
    ensures LegacyDataRange(file, e) == DataRange(file, e)
    ensures LegacyOpenPlanFixed(file, e, password) == OpenPlan(file, e, password)
    ensures LegacyOpenPlan(file, e, password).Err?
  {
    LegacyRangeAgrees(file, e);
    FixedPlanFollowsRange(file, e, password);
  }

  /** Plans built over the same range agree. */
  lemma FixedPlanFollowsRange(file: seq<byte>, e: Entry, password: seq<byte>)
    requires IsFile(e) && LegacyDataRange(file, e) == DataRange(file, e)
    ensures LegacyOpenPlanFixed(file, e, password) == OpenPlan(file, e, password)
  {
    var range := DataRange(file, e);
    if range.Ok? {
      var start, end := range.value.start, range.value.end;
      assert LegacyDecryptCheck(file, e, password, start, end) == DecryptCheck(file, e, password, start, end);
    }
  }

  /** The range half of LegacyFixedAgrees. */
  lemma LegacyRangeAgrees(file: seq<byte>, e: Entry)
    requires |file| < 0x8000_0000 && Signed32(e.header.localOffset) < |file|
    requires DataRange(file, e).Ok?
    requires var off := Signed32(e.header.localOffset);
      e.header.compSize == LocalHeader(file, off).value.compSize
    ensures LegacyDataRange(file, e) == DataRange(file, e)
  {
    var x := DataRange(file, e).value;
    LegacyRangeAt(file, e, x);
  }

  /** On a file under 2 GiB, the corrected range is the newest reader's
      wherever the central compressed size spans that range. */
  lemma LegacyRangeAt(file: seq<byte>, e: Entry, x: Range)
    requires |file| < 0x8000_0000 && DataRange(file, e) == Ok(x)
    requires Signed32(e.header.compSize) == x.end - x.start
    ensures LegacyDataRange(file, e) == Ok(x)
  {
    var off := Signed32(e.header.localOffset);
    var local := LocalHeader(file, off).value;
    assert LocalHeader(file, off) == Ok(local);
    WholeWindow(file, e);
    WindowAt(file, e, local, x);
  }

  /** On a file under 2 GiB the range stream over a header inside the file
      shows the whole file. */
  lemma WholeWindow(file: seq<byte>, e: Entry)
    requires |file| < 0x8000_0000 && 0 <= Signed32(e.header.localOffset) < |file|
    ensures LegacyDataRange(file, e) == LegacyWindowRange(file, |file|, Signed32(e.header.localOffset), e)
  {
    assert IntCast(|file|) == |file|;
    assert file[..|file|] == file;
  }

  /** Over the whole file, the window range of an entry whose local header
      reads and matches is the data behind that header. */
  lemma WindowAt(file: seq<byte>, e: Entry, local: Header, x: Range)
    requires |file| < 0x8000_0000
    requires var off := Signed32(e.header.localOffset);
      && 0 <= off && LocalHeader(file, off) == Ok(local) && MatchLocal(e.header, local)
      && x.start == off + ByteSize(local, false) && x.end == x.start + Signed32(e.header.compSize)
      && x.start <= x.end <= |file|
    ensures LegacyWindowRange(file, |file|, Signed32(e.header.localOffset), e) == Ok(x)
  {
    LegacyBehindAt(e, Signed32(e.header.localOffset), local, x, |file|);
  }

  /** The same with the file left out: once the start is known and the end
      stays under 2 GiB, the int sum does not wrap. */
  lemma LegacyBehindAt(e: Entry, offset: nat, local: Header, x: Range, fileLength: nat)
    requires MatchLocal(e.header, local) && fileLength < 0x8000_0000
    requires HeaderSize(false) <= ByteSize(local, false)
    requires x.start == offset + ByteSize(local, false) && x.end == x.start + Signed32(e.header.compSize)
    requires x.start <= x.end <= fileLength
    ensures LegacyRangeBehind(e, offset, local, fileLength) == Ok(x)
  {
    assert IntAdd(x.start, Signed32(e.header.compSize)) == x.end;
  }
}
