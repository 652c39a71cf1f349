/** Reading back what the packer wrote, entry by entry: the newest reader
    finds each file's data behind its local header, and the libzip reader
    does too once its range stream admits a range that ends at the end of
    the file. */
module PackedOpen {
  import opened ZipCommon
  import opened Headers
  import opened ZipUtil
  import Eocd
  import Reader
  import LegacyReader
  import Entries
  import opened Packer

  /** In what a successful packTo wrote, out, the reader finds the data of
      the k-th file entry, described by its central header, right behind
      that entry's local header h, as long as the compressed size; the
      libzip reader with the range stream corrected finds the same range,
      where as written it refuses the entry. */
  lemma PackedEntryOpens(rev: Revision, list: seq<EntryInfo>, password: string, charset: Charset, comment: string,
                         fs: FileSystem, tools: Tools, k: nat, out: seq<byte>, h: Header, e: Entries.Entry)
    requires Shaped(list) && Sources(list, fs, tools.deflate) && k < |list| && list[k].path != ""
    requires |list| < 0x8000 && |TextBytes(rev, charset, comment)| < 0x8000
    requires Pack(rev, list, password, charset, comment, fs, tools).verdict == Returned(true)
    requires out == Pack(rev, list, password, charset, comment, fs, tools).bytes && |out| < 0x8000_0000
    requires h == LocalRun(rev, list, |list|, password, TextBytes(rev, charset, password), fs, tools).list[k].header
    requires e.header == h.(sign := CENTRAL_MAGIC)
    ensures var data := Signed32(h.localOffset) + ByteSize(h, false);
      && 0 <= data <= data + Signed32(h.compSize) <= |out|
      && Reader.DataRange(out, e) == Ok(Reader.Range(data, data + Signed32(h.compSize)))
      && (Entries.IsFile(e) ==>
            && LegacyReader.LegacyDataRange(out, e) == Reader.DataRange(out, e)
            && LegacyReader.LegacyOpenPlan(out, e, TextBytes(rev, charset, password)).Err?)
  {
    var pw := TextBytes(rev, charset, password);
    var l := LocalRun(rev, list, |list|, password, pw, fs, tools);
    var c := CentralRun(l.list, |list|);
    var d := Eocd.Encode(EndRecord(|list|, |l.bytes|, |c.bytes|, TextBytes(rev, charset, comment)));
    PackParts(rev, list, password, charset, comment, fs, tools);
    assert out == l.bytes + c.bytes + d;
    RunEntryOpens(rev, out, list, k, password, pw, fs, tools, c.bytes, d, h);
    EntryBehindHeader(out, e, h, pw);
  }

  /** The k-th entry of the first loop, in its bytes followed by b and a
      nonempty d: EntryBehindHeader's conditions hold for its header. */
  lemma RunEntryOpens(rev: Revision, out: seq<byte>, list: seq<EntryInfo>, k: nat, password: string, pw: seq<byte>,
                      fs: FileSystem, tools: Tools, b: seq<byte>, d: seq<byte>, h: Header)
    requires Shaped(list) && Sources(list, fs, tools.deflate) && k < |list| && list[k].path != ""
    requires LocalRun(rev, list, |list|, password, pw, fs, tools).outcome.Pass?
    requires out == LocalRun(rev, list, |list|, password, pw, fs, tools).bytes + b + d
    requires |d| > 0 && |out| < 0x8000_0000
    requires h == LocalRun(rev, list, |list|, password, pw, fs, tools).list[k].header
    ensures Write(h, false).Ok?
    ensures 0 <= Signed32(h.localOffset) <= |out| && Parse(out[Signed32(h.localOffset)..], false) == Ok(View(h, false))
    ensures var data := Signed32(h.localOffset) + ByteSize(h, false);
      0 <= data <= data + Signed32(h.compSize) < |out|
  {
    var l := LocalRun(rev, list, |list|, password, pw, fs, tools);
    LocalHeaderAt(rev, list, |list|, k, password, pw, fs, tools);
    ParseInFront(l.bytes, b, d, Signed32(h.localOffset), false);
    PackedDataAt(rev, out, list, k, password, pw, fs, tools, b, d);
  }

  /** An entry whose central header is a written local header signed
      central, where that local header reads back at its offset with the
      compressed size following it in the file: the reader's data range is
      what follows the header, and on a file under 2 GiB with a byte left
      after the data the corrected libzip reader agrees with it. */
  lemma EntryBehindHeader(out: seq<byte>, e: Entries.Entry, h: Header, pw: seq<byte>)
    requires e.header == h.(sign := CENTRAL_MAGIC) && Write(h, false).Ok?
    requires 0 <= Signed32(h.localOffset) <= |out| && Parse(out[Signed32(h.localOffset)..], false) == Ok(View(h, false))
    requires var data := Signed32(h.localOffset) + ByteSize(h, false);
      data <= data + Signed32(h.compSize) < |out| < 0x8000_0000
    ensures var data := Signed32(h.localOffset) + ByteSize(h, false);
      && Reader.DataRange(out, e) == Ok(Reader.Range(data, data + Signed32(h.compSize)))
      && (Entries.IsFile(e) ==>
            && LegacyReader.LegacyDataRange(out, e) == Reader.DataRange(out, e)
            && LegacyReader.LegacyOpenPlan(out, e, pw).Err?)
  {
    LocalHeaderBehind(out, h);
    DataBehindHeader(out, e, h);
    if Entries.IsFile(e) {
      assert e.header.compSize == View(h, false).compSize;
      LegacyReader.LegacyFixedAgrees(out, e, pw);
    }
  }

  /** The reader's half of EntryBehindHeader. */
  lemma DataBehindHeader(out: seq<byte>, e: Entries.Entry, h: Header)
    requires e.header == h.(sign := CENTRAL_MAGIC)
    requires 0 <= Signed32(h.localOffset) && Reader.LocalHeader(out, Signed32(h.localOffset)) == Ok(View(h, false))
    requires var data := Signed32(h.localOffset) + ByteSize(h, false);
      data <= data + Signed32(h.compSize) <= |out| < 0x8000_0000
    ensures var data := Signed32(h.localOffset) + ByteSize(h, false);
      Reader.DataRange(out, e) == Ok(Reader.Range(data, data + Signed32(h.compSize)))
  {
    assert HeaderSize(false) <= ByteSize(View(h, false), false);
    ViewSize(h);
    RangeBehindView(e, h, |out|);
    Reader.DataRangeFrom(out, e, View(h, false));
  }

  /** The same with the file left out: the range behind the local header
      written from a header, once its start is known. */
  lemma RangeBehindView(e: Entries.Entry, h: Header, fileLength: nat)
    requires e.header == h.(sign := CENTRAL_MAGIC)
    requires var data := Signed32(h.localOffset) + ByteSize(h, false);
      0 <= Signed32(h.localOffset) && HeaderSize(false) <= ByteSize(h, false)
      && data <= data + Signed32(h.compSize) <= fileLength < 0x8000_0000
    ensures var data := Signed32(h.localOffset) + ByteSize(h, false);
      Reader.RangeBehind(e, Signed32(h.localOffset), View(h, false), fileLength)
      == Ok(Reader.Range(data, data + Signed32(h.compSize)))
  {
    CentralMatchesLocal(h);
    ViewSize(h);
    Reader.RangeBehindAt(e, Signed32(h.localOffset), View(h, false), fileLength);
  }

  /** The local view of a header keeps its local size and compressed size. */
  lemma ViewSize(h: Header)
    ensures ByteSize(View(h, false), false) == ByteSize(h, false)
    ensures View(h, false).compSize == h.compSize
  {
  }

  /** The central header written from a header matches the local header
      read back from what was written. */
  lemma CentralMatchesLocal(h: Header)
    ensures MatchLocal(h.(sign := CENTRAL_MAGIC), View(h, false))
  {
  }

  /** The local header the reader reads at the offset of such an entry is
      the one written there. */
  lemma LocalHeaderBehind(out: seq<byte>, h: Header)
    requires HasFlag(h, FLAG_LANGUAGE_UTF8)
    requires 0 <= Signed32(h.localOffset) <= |out| < 0x8000_0000
    requires Parse(out[Signed32(h.localOffset)..], false) == Ok(View(h, false))
    ensures Reader.LocalHeader(out, Signed32(h.localOffset)) == Ok(View(h, false))
  {
    var at := Signed32(h.localOffset);
    assert View(h, false).bitFlags == h.bitFlags;
    assert Reader.Window(out, at, |out|) == out[at..];
  }
}
