/** GsZipFile: an archive opened from its bytes. Opening scans backwards for
    the end of central directory record, reads it, and then reads every
    central header into the entry list and the entry tree. An entry's data
    is opened as a range of the file, behind a decrypting stream when the
    entry is encrypted and an inflating one when it is deflated. */
module Reader {
  import opened ZipCommon
  import opened Headers
  import opened Entries
  import opened EntryTree
  import opened Streams
  import Eocd
  import CryptoStreams
  import PKWare

  // ---------------------------------------------------------------------------
  // The backward scan for the end of central directory record
  // ---------------------------------------------------------------------------

  /** The four bytes at p, read little-endian, are the record's signature. */
  predicate MagicAt(file: seq<byte>, p: nat)
    requires p + 4 <= |file|
  {
    GetLe32(file, p) == Eocd.MAGIC
  }

  /** The lowest offset the scan tries: 0xFFFF below the highest one, which
      is room for the longest comment, but not below the start of the file. */
  function ScanStop(file: seq<byte>): nat
    requires |file| >= Eocd.BASE_SIZE
  {
    if |file| - Eocd.BASE_SIZE - 0xFFFF > 0 then |file| - Eocd.BASE_SIZE - 0xFFFF else 0
  }

  /** The scan from `scan` down to `stop`: the first offset that holds the
      signature is the highest such offset of the range. */
  function ScanDown(file: seq<byte>, scan: int, stop: nat): (r: Option<nat>)
    requires scan + 4 <= |file|
    ensures r.Some? ==> stop <= r.value <= scan && MagicAt(file, r.value)
    ensures r.Some? ==> forall p: nat :: r.value < p <= scan ==> !MagicAt(file, p)
    ensures r.None? ==> forall p: nat :: stop <= p <= scan ==> !MagicAt(file, p)
    decreases scan + 1 - stop
  {
    if scan < stop then None
    else if MagicAt(file, scan) then Some(scan)
    else ScanDown(file, scan - 1, stop)
  }

  /** Where readCentralDirEnd finds the record: a file shorter than the
      record fails outright; otherwise the highest offset of the scan window
      that holds the signature, and failure when none does. */
  function EocdOffset(file: seq<byte>): (r: Result<nat>)
    ensures |file| < Eocd.BASE_SIZE <==> r == Err(FileTooShort)
    ensures r.Ok? ==> |file| >= Eocd.BASE_SIZE && ScanStop(file) <= r.value <= |file| - Eocd.BASE_SIZE
                      && MagicAt(file, r.value)
    ensures r.Ok? ==> forall p: nat :: r.value < p <= |file| - Eocd.BASE_SIZE ==> !MagicAt(file, p)
    ensures |file| >= Eocd.BASE_SIZE && r.Err? ==>
      r.error == CentralDirNotFound
      && forall p: nat :: ScanStop(file) <= p <= |file| - Eocd.BASE_SIZE ==> !MagicAt(file, p)
  {
    if |file| < Eocd.BASE_SIZE then Err(FileTooShort)
    else
      match ScanDown(file, |file| - Eocd.BASE_SIZE, ScanStop(file))
      case None => Err(CentralDirNotFound)
      case Some(p) => Ok(p)
  }

  /** The scan loop of readCentralDirEnd: one 4-byte read per offset, from
      the highest candidate down to the stop offset. */
  method FindCentralDirEnd(file: seq<byte>) returns (r: Result<nat>)
    ensures r == EocdOffset(file)
  {
    var scanOffset: int := |file| - Eocd.BASE_SIZE;
    var ok := Check(scanOffset >= 0, FileTooShort);
    if ok.Fail? {
      return Err(ok.error);
    }
    var stopOffset: nat := if scanOffset - 0xFFFF > 0 then scanOffset - 0xFFFF else 0;
    var dirEndOffset: int := -1;
    while stopOffset <= scanOffset
      invariant stopOffset - 1 <= scanOffset <= |file| - Eocd.BASE_SIZE
      invariant dirEndOffset == -1
      invariant ScanDown(file, scanOffset, stopOffset) == ScanDown(file, |file| - Eocd.BASE_SIZE, stopOffset)
      decreases scanOffset + 1 - stopOffset
    {
      if GetLe32(file, scanOffset) == Eocd.MAGIC {
        dirEndOffset := scanOffset;
        break;
      }
      scanOffset := scanOffset - 1;
    }
    ok := Check(dirEndOffset >= 0, CentralDirNotFound);
    if ok.Fail? {
      return Err(ok.error);
    }
    r := Ok(dirEndOffset);
  }

  /** The record read from the found offset to the end of the file. */
  function DirEndOf(file: seq<byte>): Result<Eocd.Record>
  {
    var p :- EocdOffset(file);
    Eocd.Parse(file[p..])
  }

  /** A record written after any bytes, with no later signature in its
      comment, is the one the scan finds. */
  lemma WrittenDirEndFound(prefix: seq<byte>, e: Eocd.Record)
    requires Eocd.Valid(e)
    requires forall p: nat :: |prefix| < p <= |prefix| + |e.comment| ==> !MagicAt(prefix + Eocd.Encode(e), p)
    ensures EocdOffset(prefix + Eocd.Encode(e)) == Ok(|prefix|)
    ensures DirEndOf(prefix + Eocd.Encode(e)) == Ok(e)
  {
    var file := prefix + Eocd.Encode(e);
    WrittenDirEndAt(prefix, e);
    Eocd.EncodeParse(e, []);
    assert Eocd.Encode(e) + [] == file[|prefix|..];
  }

  /** The offset half of WrittenDirEndFound. */
  lemma WrittenDirEndAt(prefix: seq<byte>, e: Eocd.Record)
    requires Eocd.Valid(e)
    requires forall p: nat :: |prefix| < p <= |prefix| + |e.comment| ==> !MagicAt(prefix + Eocd.Encode(e), p)
    ensures EocdOffset(prefix + Eocd.Encode(e)) == Ok(|prefix|)
  {
    var file := prefix + Eocd.Encode(e);
    var n := |prefix|;
    Eocd.FixedBytesRoundTrip(e, e.comment);
    assert file[n..] == Eocd.FixedBytes(e) + e.comment;
    assert MagicAt(file, n);
    assert |file| == n + Eocd.BASE_SIZE + |e.comment| && ScanStop(file) <= n;
    var found := ScanDown(file, |file| - Eocd.BASE_SIZE, ScanStop(file));
    assert found.Some? && found.value >= n;
    assert found.value == n;
  }

  // ---------------------------------------------------------------------------
  // The central directory
  // ---------------------------------------------------------------------------

  /** The entries read so far and the tree they went into. */
  datatype Dir = Dir(entries: seq<Entry>, nodes: seq<Node>)

  /** One entry in front of what the rest of the loop reads. */
  function Cons(e: Entry, rest: Result<Dir>): Result<Dir>
  {
    if rest.Err? then rest else Ok(Dir([e] + rest.value.entries, rest.value.nodes))
  }

  /** The entries a loop has already added in front of what it still reads. */
  function Prepend(added: seq<Entry>, rest: Result<Dir>): Result<Dir>
  {
    if rest.Err? then rest else Ok(Dir(added + rest.value.entries, rest.value.nodes))
  }

  lemma AppendSlices<T>(a: seq<T>, x: T, n: nat)
    requires n <= |a|
    ensures (a + [x])[..n] == a[..n] && (a + [x])[n..] == a[n..] + [x]
  {
  }

  lemma PrependNothing(rest: Result<Dir>)
    ensures Prepend([], rest) == rest
  {
    if rest.Ok? {
      assert [] + rest.value.entries == rest.value.entries;
    }
  }

  lemma PrependCons(added: seq<Entry>, e: Entry, rest: Result<Dir>)
    ensures Prepend(added, Cons(e, rest)) == Prepend(added + [e], rest)
  {
    if rest.Ok? {
      assert added + ([e] + rest.value.entries) == added + [e] + rest.value.entries;
    }
  }

  /** A parsed header is at least its fixed part long. */
  lemma ParsedSize(s: seq<byte>, central: bool)
    requires Parse(s, central).Ok?
    ensures HeaderSize(central) <= ByteSize(Parse(s, central).value, central) <= |s|
  {
  }

  /** The loop of readCentralDir from entry `index` on, over the bytes the
      directory stream still holds: each header is read, made an entry with
      its index and filed in the tree; the first failure ends the loop. */
  function LoadDir(s: seq<byte>, index: nat, count: nat, nodes: seq<Node>,
                   decode: NameBytes -> string): (r: Result<Dir>)
    requires Linked(nodes)
    ensures r.Ok? ==> Linked(r.value.nodes) && |nodes| <= |r.value.nodes|
    ensures r.Ok? ==> |r.value.entries| == (if index <= count then count - index else 0)
    ensures r.Ok? ==> forall k :: 0 <= k < |r.value.entries| ==> r.value.entries[k].index == index + k
    decreases count - index, 2
  {
    if index >= count then Ok(Dir([], nodes))
    else LoadNext(s, index, count, nodes, decode)
  }

  /** One pass of the loop, for an index below the count.  It only hands on
      to LoadStep: with the header parser two calls away from LoadDir, a proof
      that only mentions LoadDir does not unfold the parser. */
  function LoadNext(s: seq<byte>, index: nat, count: nat, nodes: seq<Node>,
                    decode: NameBytes -> string): (r: Result<Dir>)
    requires Linked(nodes) && index < count
    ensures r.Ok? ==> Linked(r.value.nodes) && |nodes| <= |r.value.nodes|
    ensures r.Ok? ==> |r.value.entries| == count - index
    ensures r.Ok? ==> forall k :: 0 <= k < |r.value.entries| ==> r.value.entries[k].index == index + k
    decreases count - index, 1
  {
    LoadStep(s, index, count, nodes, decode)
  }

  /** The pass itself: a central header parsed from the front of s, made the
      entry with this index and filed in the tree; the loop goes on after the
      header's bytes. */
  function LoadStep(s: seq<byte>, index: nat, count: nat, nodes: seq<Node>,
                    decode: NameBytes -> string): (r: Result<Dir>)
    requires Linked(nodes) && index < count
    ensures r.Ok? ==> Linked(r.value.nodes) && |nodes| <= |r.value.nodes|
    ensures r.Ok? ==> |r.value.entries| == count - index
    ensures r.Ok? ==> forall k :: 0 <= k < |r.value.entries| ==> r.value.entries[k].index == index + k
    decreases count - index, 0
  {
    var h :- Parse(s, true);
    ParsedSize(s, true);
    var e :- NewEntry(index, h, decode);
    var ins :- Insert(nodes, 0, Names(e.name), e);
    Cons(e, LoadDir(s[ByteSize(h, true)..], index + 1, count, ins.nodes, decode))
  }

  /** One pass of the directory loop, spelled out: the header parse, the
      entry built from it and its place in the tree each fail the whole
      load, and otherwise the entry leads what the rest of the bytes load. */
  lemma LoadDirAt(rest: seq<byte>, index: nat, count: nat, nodes: seq<Node>, decode: NameBytes -> string)
    requires Linked(nodes) && index < count
    ensures var p := Parse(rest, true);
      var full := LoadDir(rest, index, count, nodes, decode);
      && (p.Err? ==> full == Err(p.error))
      && (p.Ok? ==>
            && ByteSize(p.value, true) <= |rest|
            && var e := NewEntry(index, p.value, decode);
            && (e.Err? ==> full == Err(e.error))
            && (e.Ok? ==>
                  var ins := Insert(nodes, 0, Names(e.value.name), e.value);
                  && (ins.Err? ==> full == Err(ins.error))
                  && (ins.Ok? ==> full == Cons(e.value, LoadDir(rest[ByteSize(p.value, true)..], index + 1, count,
                                                               ins.value.nodes, decode)))))
  {
    assert LoadDir(rest, index, count, nodes, decode) == LoadStep(rest, index, count, nodes, decode);
    if Parse(rest, true).Ok? {
      ParsedSize(rest, true);
    }
  }

  /** The bytes a sub stream over [start, end) delivers from its start:
      the first (int)(end - start) of them, which is all of them below
      2 GiB, and none when that int is negative. */
  function Window(file: seq<byte>, start: nat, end: nat): (r: seq<byte>)
    requires start <= end <= |file|
    ensures end - start < 0x8000_0000 ==> r == file[start..end]
    ensures IntCast(end - start) >= 0 ==> |r| == IntCast(end - start)
  {
    if IntCast(end - start) < 0 then [] else file[start..start + IntCast(end - start)]
  }

  /** readCentralDir: a stream over [start, start + size), then `count`
      headers read from it. A size whose int cast is negative makes the
      first read throw. */
  function ReadDir(file: seq<byte>, start: nat, size: nat, count: nat, nodes: seq<Node>,
                   decode: NameBytes -> string): Result<Dir>
    requires Linked(nodes)
  {
    if start + size > |file| then Err(EndAfterFileLength)
    else if IntCast(size) < 0 && count > 0 then Err(IndexOutOfRange)
    else LoadDir(Window(file, start, start + size), 0, count, nodes, decode)
  }

  /** What an opened archive holds. */
  datatype Archive = Archive(dirEnd: Eocd.Record, entries: seq<Entry>, nodes: seq<Node>)

  /** create: the record, then the directory into an empty list and a tree
      holding only the root. */
  function Open(file: seq<byte>, decode: NameBytes -> string): Result<Archive>
  {
    var e :- DirEndOf(file);
    var d :- ReadDir(file, Eocd.DirOffset(e), Eocd.DirSize(e), Eocd.EntryCount(e), [ROOT], decode);
    Ok(Archive(e, d.entries, d.nodes))
  }

  /** getEntry(path) over a tree: the entry of the node the path leads to. */
  function Lookup(nodes: seq<Node>, path: string): Option<Entry>
    requires Linked(nodes)
  {
    match Walk(nodes, 0, Names(path))
    case None => None
    case Some(n) => nodes[n].entry
  }

  lemma {:induction false} LoadDirGrows(s: seq<byte>, index: nat, count: nat, nodes: seq<Node>,
                                        decode: NameBytes -> string)
    requires Linked(nodes) && LoadDir(s, index, count, nodes, decode).Ok?
    ensures Grows(nodes, LoadDir(s, index, count, nodes, decode).value.nodes)
    decreases count - index
  {
    if index < count {
      assert LoadDir(s, index, count, nodes, decode) == LoadStep(s, index, count, nodes, decode);
      var h := Parse(s, true).value;
      ParsedSize(s, true);
      var e := NewEntry(index, h, decode).value;
      var ins := Insert(nodes, 0, Names(e.name), e).value;
      var final := LoadDir(s, index, count, nodes, decode).value.nodes;
      LoadDirGrows(s[ByteSize(h, true)..], index + 1, count, ins.nodes, decode);
      InsertGrows(nodes, 0, Names(e.name), e);
      assert Grows(ins.nodes, final);
    }
  }

  /** An entry already in the tree stays on its node through the loop. */
  lemma {:induction false} LoadDirKeeps(s: seq<byte>, index: nat, count: nat, nodes: seq<Node>,
                                        decode: NameBytes -> string)
    requires Linked(nodes) && LoadDir(s, index, count, nodes, decode).Ok?
    ensures var final := LoadDir(s, index, count, nodes, decode).value.nodes;
      forall i :: 0 <= i < |nodes| && nodes[i].entry.Some? ==> final[i].entry == nodes[i].entry
    decreases count - index
  {
    if index < count {
      assert LoadDir(s, index, count, nodes, decode) == LoadStep(s, index, count, nodes, decode);
      var h := Parse(s, true).value;
      ParsedSize(s, true);
      var e := NewEntry(index, h, decode).value;
      var ins := Insert(nodes, 0, Names(e.name), e).value;
      LoadDirKeeps(s[ByteSize(h, true)..], index + 1, count, ins.nodes, decode);
      InsertTargetFree(nodes, 0, Names(e.name), e);
      InsertKeepsEntries(nodes, 0, Names(e.name), e);
    }
  }

  /** Every entry the loop reads is found again by looking up its name in
      the final tree. */
  lemma {:induction false} LoadDirFinds(s: seq<byte>, index: nat, count: nat, nodes: seq<Node>,
                                        decode: NameBytes -> string)
    requires Linked(nodes) && LoadDir(s, index, count, nodes, decode).Ok?
    ensures var d := LoadDir(s, index, count, nodes, decode).value;
      forall k :: 0 <= k < |d.entries| ==> Lookup(d.nodes, d.entries[k].name) == Some(d.entries[k])
    decreases count - index
  {
    if index < count {
      assert LoadDir(s, index, count, nodes, decode) == LoadStep(s, index, count, nodes, decode);
      var h := Parse(s, true).value;
      ParsedSize(s, true);
      var e := NewEntry(index, h, decode).value;
      var ins := Insert(nodes, 0, Names(e.name), e).value;
      var t := s[ByteSize(h, true)..];
      var rest := LoadDir(t, index + 1, count, ins.nodes, decode).value;
      var d := LoadDir(s, index, count, nodes, decode).value;
      assert d == Dir([e] + rest.entries, rest.nodes);
      LoadDirFinds(t, index + 1, count, ins.nodes, decode);
      InsertFinds(nodes, 0, Names(e.name), e);
      LoadDirGrows(t, index + 1, count, ins.nodes, decode);
      WalkGrows(ins.nodes, rest.nodes, 0, Names(e.name));
      LoadDirKeeps(t, index + 1, count, ins.nodes, decode);
      assert Lookup(d.nodes, e.name) == Some(e);
      forall k | 0 <= k < |d.entries|
        ensures Lookup(d.nodes, d.entries[k].name) == Some(d.entries[k])
      {
        if k > 0 {
          assert d.entries[k] == rest.entries[k - 1];
        }
      }
    }
  }

  /** Every entry in the final tree was read by the loop or was there
      before it: here for the node `i`. */
  lemma {:induction false} LoadDirOnlyListed(s: seq<byte>, index: nat, count: nat, nodes: seq<Node>,
                                             decode: NameBytes -> string, i: nat)
    requires Linked(nodes) && LoadDir(s, index, count, nodes, decode).Ok?
    requires var d := LoadDir(s, index, count, nodes, decode).value;
      i < |d.nodes| && d.nodes[i].entry.Some?
    ensures var d := LoadDir(s, index, count, nodes, decode).value;
      d.nodes[i].entry.value in d.entries || (i < |nodes| && d.nodes[i].entry == nodes[i].entry)
    decreases count - index
  {
    if index < count {
      assert LoadDir(s, index, count, nodes, decode) == LoadStep(s, index, count, nodes, decode);
      var h := Parse(s, true).value;
      ParsedSize(s, true);
      var e := NewEntry(index, h, decode).value;
      var ins := Insert(nodes, 0, Names(e.name), e).value;
      var t := s[ByteSize(h, true)..];
      var rest := LoadDir(t, index + 1, count, ins.nodes, decode).value;
      var d := LoadDir(s, index, count, nodes, decode).value;
      assert d == Dir([e] + rest.entries, rest.nodes);
      LoadDirOnlyListed(t, index + 1, count, ins.nodes, decode, i);
      var x := d.nodes[i].entry.value;
      if x in rest.entries {
        assert x in d.entries;
      } else {
        InsertFinds(nodes, 0, Names(e.name), e);
        InsertKeepsEntries(nodes, 0, Names(e.name), e);
        if i == ins.node {
          assert x == d.entries[0];
        }
      }
    }
  }

  /** A directory range past the end of the file fails; any other below
      2 GiB is read by the loop over its bytes. */
  lemma ReadDirCases(file: seq<byte>, start: nat, size: nat, count: nat, nodes: seq<Node>,
                     decode: NameBytes -> string)
    requires Linked(nodes)
    ensures start + size > |file| ==> ReadDir(file, start, size, count, nodes, decode) == Err(EndAfterFileLength)
    ensures start + size <= |file| && size < 0x8000_0000 ==>
      ReadDir(file, start, size, count, nodes, decode) == LoadDir(file[start..start + size], 0, count, nodes, decode)
  {
  }

  /** An opened archive holds its end record and the directory read with it. */
  lemma OpenedDir(file: seq<byte>, decode: NameBytes -> string)
    requires Open(file, decode).Ok?
    ensures var e := DirEndOf(file).value;
      var d := ReadDir(file, Eocd.DirOffset(e), Eocd.DirSize(e), Eocd.EntryCount(e), [ROOT], decode);
      d.Ok? && Open(file, decode).value == Archive(e, d.value.entries, d.value.nodes)
  {
  }

  /** After opening, there are entryCount entries numbered 0..n-1 in
      directory order, and looking up an entry's name finds that entry. */
  lemma OpenedEntries(file: seq<byte>, decode: NameBytes -> string)
    requires Open(file, decode).Ok?
    ensures var a := Open(file, decode).value;
      && Linked(a.nodes) && |a.entries| == Eocd.EntryCount(a.dirEnd)
      && forall k :: 0 <= k < |a.entries| ==>
           a.entries[k].index == k && Lookup(a.nodes, a.entries[k].name) == Some(a.entries[k])
  {
    OpenedDir(file, decode);
    var e := DirEndOf(file).value;
    var start, size, count := Eocd.DirOffset(e), Eocd.DirSize(e), Eocd.EntryCount(e);
    ReadDirCases(file, start, size, count, [ROOT], decode);
    LoadDirFinds(Window(file, start, start + size), 0, count, [ROOT], decode);
  }

  /** Every entry a lookup finds in an opened archive is one of its list. */
  lemma OpenedLookupListed(file: seq<byte>, decode: NameBytes -> string, path: string)
    requires Open(file, decode).Ok?
    ensures var a := Open(file, decode).value;
      Linked(a.nodes) && (Lookup(a.nodes, path).Some? ==> Lookup(a.nodes, path).value in a.entries)
  {
    OpenedDir(file, decode);
    var e := DirEndOf(file).value;
    var start, size, count := Eocd.DirOffset(e), Eocd.DirSize(e), Eocd.EntryCount(e);
    ReadDirCases(file, start, size, count, [ROOT], decode);
    var a := Open(file, decode).value;
    if Lookup(a.nodes, path).Some? {
      var n := Walk(a.nodes, 0, Names(path)).value;
      LoadDirOnlyListed(Window(file, start, start + size), 0, count, [ROOT], decode, n);
    }
  }

  /** No two entries of an opened archive have names with the same path
      segments: the tree refuses the second. */
  lemma OpenedNamesDistinct(file: seq<byte>, decode: NameBytes -> string)
    requires Open(file, decode).Ok?
    ensures var a := Open(file, decode).value;
      forall j, k :: 0 <= j < k < |a.entries| ==> Names(a.entries[j].name) != Names(a.entries[k].name)
  {
    OpenedEntries(file, decode);
  }

  /** An archive holding only an end record with no entries and no comment:
      what a packer with nothing added writes. */
  function EmptyArchive(): seq<byte>
  {
    Eocd.Encode(Eocd.NEW_RECORD)
  }

  /** Such an archive opens with no entries. */
  lemma EmptyArchiveOpens(decode: NameBytes -> string)
    ensures Open(EmptyArchive(), decode) == Ok(Archive(Eocd.NEW_RECORD, [], [ROOT]))
  {
    WrittenDirEndFound([], Eocd.NEW_RECORD);
    assert [] + Eocd.Encode(Eocd.NEW_RECORD) == EmptyArchive();
  }

  // ---------------------------------------------------------------------------
  // Opening an entry's data
  // ---------------------------------------------------------------------------

  /** Java int addition: the sum cut to 32 bits and read as signed. */
  function IntAdd(a: int, b: int): (r: int)
    ensures 0 <= a + b < 0x8000_0000 ==> r == a + b
    ensures 0x8000_0000 <= a + b < 0x1_0000_0000 ==> r < 0
  {
    Signed32(ToU32(a + b))
  }

  /** What getInputStream builds for an entry: nothing to read for a folder;
      for a file the range of its data, whether it is decrypted and whether
      it is inflated. */
  datatype Plan = FolderPlan | DataPlan(start: nat, end: nat, encrypted: bool, inflate: bool)

  /** The decryption checks on a data range, in the order the streams
      make them: encryption method, password, the 12-byte encryption header
      and its check byte. The result says whether the data is encrypted. */
  function DecryptCheck(file: seq<byte>, e: Entry, password: seq<byte>, start: nat, end: nat): Result<bool>
    requires start <= end <= |file|
  {
    var enc := EncryptMethodOf(e);
    if enc == UnsupportedEncryption then Err(EncryptNotSupported)
    else if enc == NoEncryption then Ok(false)
    else if password == [] then Err(NeedPassword)
    else if end - start < CryptoStreams.HEADER_LEN then Err(ReadHeaderFailed)
    else if CryptoStreams.CheckByte(PKWare.PKWARE, password, file[start..end]) !in {TimeCheck(e.header), CrcCheck(e.header)}
    then Err(CheckByteMismatch)
    else Ok(true)
  }

  /** The decryption checks, then the compression method. */
  function DataPlanOf(file: seq<byte>, e: Entry, password: seq<byte>, start: nat, end: nat): Result<Plan>
    requires start <= end <= |file|
  {
    var encrypted :- DecryptCheck(file, e, password, start, end);
    if CompressMethodOf(e) == UnsupportedCompression then Err(CompressNotSupported)
    else Ok(DataPlan(start, end, encrypted, CompressMethodOf(e) == Flate))
  }

  /** Where a file entry's data lies. */
  datatype Range = Range(start: nat, end: nat)

  /** The local header read from a stream that starts at `off` and runs to
      the end of the file; its name must decode as well. Past 2 GiB from
      the end the stream's first read throws. */
  function LocalHeader(file: seq<byte>, off: nat): (r: Result<Header>)
    ensures off > |file| ==> r == Err(StartAfterEnd)
    ensures off <= |file| && IntCast(|file| - off) < 0 ==> r == Err(IndexOutOfRange)
    ensures r.Ok? ==> off <= |file| && Parse(Window(file, off, |file|), false) == r && FileName(r.value).Ok?
    ensures r.Ok? ==> HeaderSize(false) <= ByteSize(r.value, false) <= |file| - off
  {
    if off > |file| then Err(StartAfterEnd)
    else if IntCast(|file| - off) < 0 then Err(IndexOutOfRange)
    else
      var local :- Parse(Window(file, off, |file|), false);
      ParsedSize(Window(file, off, |file|), false);
      var name :- FileName(local);
      Ok(local)
  }

  /** The first half of getInputStream for a file: the local header at the
      (signed) local offset must read and match the central one; the data
      follows that header, as long as the local compressed size says. The
      start is an int sum, so a wrapped sum is a negative start. */
  function DataRange(file: seq<byte>, e: Entry): (r: Result<Range>)
    ensures r.Ok? ==>
      var off := Signed32(e.header.localOffset);
      && 0 <= off && LocalHeader(file, off).Ok?
      && var local := LocalHeader(file, off).value;
      && MatchLocal(e.header, local)
      && r.value.start == off + ByteSize(local, false)
      && r.value.end == r.value.start + Signed32(local.compSize) <= |file|
      && r.value.end - r.value.start < 0x8000_0000
    ensures Signed32(e.header.localOffset) < 0 ==> r == Err(NegativeOffset)
  {
    var off := Signed32(e.header.localOffset);
    if off < 0 then Err(NegativeOffset)
    else
      var local :- LocalHeader(file, off);
      RangeBehind(e, off, local, |file|)
  }

  /** The rest of DataRange once the local header at off has been read. */
  function RangeBehind(e: Entry, off: nat, local: Header, fileLength: nat): (r: Result<Range>)
    requires off < 0x8000_0000 && HeaderSize(false) <= ByteSize(local, false)
    ensures r.Ok? ==>
      && MatchLocal(e.header, local)
      && r.value.start == off + ByteSize(local, false)
      && r.value.end == r.value.start + Signed32(local.compSize) <= fileLength
      && r.value.end - r.value.start < 0x8000_0000
  {
    if !MatchLocal(e.header, local) then Err(HeaderMismatch)
    else
      var start := IntAdd(off, ByteSize(local, false));
      var end := start + Signed32(local.compSize);
      if start > end then Err(StartAfterEnd)
      else if end > fileLength then Err(EndAfterFileLength)
      else if start < 0 then Err(NegativeOffset)
      else Ok(Range(start, end))
  }

  /** The data range of an entry whose local header reads and matches:
      behind that header, as long as its compressed size says. */
  lemma DataRangeFrom(file: seq<byte>, e: Entry, local: Header)
    requires 0 <= Signed32(e.header.localOffset) && LocalHeader(file, Signed32(e.header.localOffset)) == Ok(local)
    ensures DataRange(file, e) == RangeBehind(e, Signed32(e.header.localOffset), local, |file|)
  {
  }

  lemma RangeBehindAt(e: Entry, off: nat, local: Header, fileLength: nat)
    requires MatchLocal(e.header, local) && HeaderSize(false) <= ByteSize(local, false)
    requires var start := off + ByteSize(local, false);
      0 <= start <= start + Signed32(local.compSize) <= fileLength < 0x8000_0000
    ensures var start := off + ByteSize(local, false);
      RangeBehind(e, off, local, fileLength) == Ok(Range(start, start + Signed32(local.compSize)))
  {
    assert IntAdd(off, ByteSize(local, false)) == off + ByteSize(local, false);
  }

  /** getInputStream for an entry: nothing from the file for a folder; for a
      file its data range, then the checks of the streams over it. */
  function OpenPlan(file: seq<byte>, e: Entry, password: seq<byte>): (r: Result<Plan>)
    ensures !IsFile(e) <==> r == Ok(FolderPlan)
    ensures r.Ok? && r.value.DataPlan? ==>
      && DataRange(file, e) == Ok(Range(r.value.start, r.value.end))
      && (r.value.encrypted <==> EncryptMethodOf(e) == PkwareEncryption)
      && (r.value.inflate <==> CompressMethodOf(e) == Flate)
    ensures r.Ok? && r.value.DataPlan? && r.value.encrypted ==>
      && password != [] && r.value.end - r.value.start >= CryptoStreams.HEADER_LEN
      && CryptoStreams.CheckByte(PKWare.PKWARE, password, file[r.value.start..r.value.end])
           in {TimeCheck(e.header), CrcCheck(e.header)}
    ensures IsFile(e) && DataRange(file, e).Err? ==> r == Err(DataRange(file, e).error)
    ensures IsFile(e) && EncryptMethodOf(e) == UnsupportedEncryption ==> r.Err?
    ensures IsFile(e) && CompressMethodOf(e) == UnsupportedCompression ==> r.Err?
  {
    if !IsFile(e) then Ok(FolderPlan)
    else
      var range :- DataRange(file, e);
      DataPlanOf(file, e, password, range.start, range.end)
  }

  /** The streams that deliver an entry's data. */
  datatype Layer = Raw(sub: SubInputStream) | Decrypting(dec: CryptoStreams.PKWareDecryptInputStream)
  datatype EntryStream = FolderStream(base: ZipInputStream) | DataStream(layer: Layer, inflate: bool)

  // ---------------------------------------------------------------------------
  // The GsZipFile object
  // ---------------------------------------------------------------------------

  /** An open archive. `decode` turns name bytes into text under the default
      charset, which is UTF-8 when the names are read; the password is held
      as its UTF-8 bytes. */
  class ZipFile {
    const file: seq<byte>
    const dirEnd: Eocd.CentralDirEnd
    var entryList: seq<Entry>
    const entryTree: EntryNodes
    var decode: NameBytes -> string
    var password: seq<byte>

    predicate Valid()
      reads this, entryTree
    {
      entryTree.Valid()
    }

    constructor Init(file: seq<byte>, decode: NameBytes -> string)
      ensures Valid() && this.file == file && this.decode == decode
      ensures fresh(dirEnd) && fresh(entryTree) && dirEnd.fields == Eocd.NEW_RECORD
      ensures entryList == [] && entryTree.nodes == [ROOT] && password == []
    {
      this.file := file;
      dirEnd := new Eocd.CentralDirEnd();
      entryList := [];
      entryTree := new EntryNodes();
      this.decode := decode;
      password := [];
    }

    /** create: construct, read the record, read the directory. */
    static method Create(file: seq<byte>, decode: NameBytes -> string) returns (r: Result<ZipFile>)
      ensures r.Ok? <==> Open(file, decode).Ok?
      ensures r.Err? ==> r.error == Open(file, decode).error
      ensures r.Ok? ==> var a := Open(file, decode).value;
        && fresh(r.value) && r.value.Valid() && r.value.file == file && r.value.decode == decode
        && r.value.dirEnd.fields == a.dirEnd && r.value.entryList == a.entries
        && r.value.entryTree.nodes == a.nodes && r.value.password == []
    {
      var zip := new ZipFile.Init(file, decode);
      var ok := zip.ReadCentralDirEnd();
      if ok.Fail? {
        return Err(ok.error);
      }
      ok := zip.ReadCentralDir();
      if ok.Fail? {
        return Err(ok.error);
      }
      r := Ok(zip);
    }

    /** readCentralDirEnd: scan for the record and read it from there to the
        end of the file. */
    method ReadCentralDirEnd() returns (r: Outcome)
      modifies dirEnd
      ensures (r.Pass? <==> DirEndOf(file).Ok?) && (r.Fail? ==> r.error == DirEndOf(file).error)
      ensures r.Pass? ==> dirEnd.fields == DirEndOf(file).value
      ensures var p := EocdOffset(file);
        dirEnd.fields == if p.Err? then old(dirEnd.fields) else Eocd.ReadInPlace(old(dirEnd.fields), file[p.value..]).fields
    {
      var found := FindCentralDirEnd(file);
      if found.Err? {
        return Fail(found.error);
      }
      var bytes := file[found.value..];
      r := dirEnd.ReadFrom(bytes);
    }

    /** readCentralDir: entryCount headers from the directory range, each
        appended to the list and added to the tree under its name. */
    method ReadCentralDir() returns (r: Outcome)
      requires Valid()
      modifies this, entryTree
      ensures Valid() && password == old(password) && decode == old(decode)
      ensures var d := ReadDir(file, Eocd.DirOffset(dirEnd.fields), Eocd.DirSize(dirEnd.fields),
                              Eocd.EntryCount(dirEnd.fields), old(entryTree.nodes), decode);
        && (r.Pass? <==> d.Ok?) && (r.Fail? ==> r.error == d.error)
        && (d.Ok? ==> entryList == old(entryList) + d.value.entries && entryTree.nodes == d.value.nodes)
    {
      var dirOffset := Eocd.DirOffset(dirEnd.fields);
      var dirSize := Eocd.DirSize(dirEnd.fields);
      var entryCount := Eocd.EntryCount(dirEnd.fields);
      ReadDirCases(file, dirOffset, dirSize, entryCount, entryTree.nodes, decode);
      var created := SubInputStream.Create(file, dirOffset, dirOffset + dirSize);
      if created.Err? {
        return Fail(created.error);
      }
      var rafStream := created.value;
      assert rafStream.Remaining() == Window(file, dirOffset, dirOffset + dirSize);
      assert rafStream.Span() == IntCast(dirSize);
      r := ReadEntries(rafStream, entryCount);
    }

    /** The loop of readCentralDir: `count` entries read from the stream. */
    method ReadEntries(stream: SubInputStream, count: nat) returns (r: Outcome)
      requires Valid() && stream.Valid() && !stream.closed
      modifies this, entryTree, stream
      ensures Valid() && password == old(password) && decode == old(decode)
      ensures var d := if old(stream.Span()) < 0 && count > 0 then Err(IndexOutOfRange)
                       else LoadDir(old(stream.Remaining()), 0, count, old(entryTree.nodes), decode);
        && (r.Pass? <==> d.Ok?) && (r.Fail? ==> r.error == d.error)
        && (d.Ok? ==> entryList == old(entryList) + d.value.entries && entryTree.nodes == d.value.nodes)
    {
      ghost var s := stream.Remaining();
      ghost var span := stream.Span();
      ghost var list0 := entryList;
      ghost var nodes0 := entryTree.nodes;
      ghost var added: seq<Entry> := [];
      var i: nat := 0;
      PrependNothing(LoadDir(s, 0, count, nodes0, decode));
      while i < count
        invariant i <= count && password == old(password) && decode == old(decode)
        invariant stream.Valid() && !stream.closed && entryTree.Valid()
        invariant entryList == list0 + added
        invariant span < 0 ==> i == 0
        invariant if i == 0 then stream.Span() == span else stream.Span() >= 0
        invariant LoadDir(s, 0, count, nodes0, decode)
                  == Prepend(added, LoadDir(stream.Remaining(), i, count, entryTree.nodes, decode))
      {
        var entry := ReadEntry(stream, i, count);
        if entry.Err? {
          return Fail(entry.error);
        }
        PrependCons(added, entry.value, LoadDir(stream.Remaining(), i + 1, count, entryTree.nodes, decode));
        added := added + [entry.value];
        i := i + 1;
      }
      assert added + [] == added;
      r := Pass;
    }

    /** One pass of the readCentralDir loop: a central header read from the
        stream, made the entry with this index, appended to the list and
        added to the tree under its name. */
    method ReadEntry(stream: SubInputStream, index: nat, count: nat) returns (r: Result<Entry>)
      requires Valid() && stream.Valid() && !stream.closed && index < count
      modifies this, entryTree, stream
      ensures Valid() && password == old(password) && decode == old(decode)
      ensures stream.Valid() && !stream.closed
      ensures r.Ok? ==> entryList == old(entryList) + [r.value] && stream.Span() >= 0
      ensures old(stream.Span()) < 0 ==> r == Err(IndexOutOfRange)
      ensures old(stream.Span()) >= 0 ==>
        var full := LoadDir(old(stream.Remaining()), index, count, old(entryTree.nodes), decode);
        && (r.Err? ==> full == Err(r.error))
        && (r.Ok? ==> full == Cons(r.value, LoadDir(stream.Remaining(), index + 1, count, entryTree.nodes, decode)))
    {
      ghost var rest := stream.Remaining();
      var fields := ReadCentralHeader(stream);
      if fields.Err? {
        LoadDirAt(rest, index, count, entryTree.nodes, decode);
        return Err(fields.error);
      }
      r := EnterHeader(index, count, fields.value, rest);
    }

    /** The header of that pass: a new EntryHeader read from the stream in
        the central layout. */
    static method ReadCentralHeader(stream: SubInputStream) returns (r: Result<Header>)
      requires stream.Valid() && !stream.closed
      modifies stream
      ensures stream.Valid() && !stream.closed
      ensures r == if old(stream.Span()) < 0 then Err(IndexOutOfRange) else Parse(old(stream.Remaining()), true)
      ensures r.Ok? ==> stream.Span() >= 0 && ByteSize(r.value, true) <= |old(stream.Remaining())|
                        && stream.Remaining() == old(stream.Remaining())[ByteSize(r.value, true)..]
    {
      ghost var from := stream.offset;
      ghost var t := stream.Remaining();
      assert t == stream.RemainingAt(from);
      r := ReadNewHeader(stream, true);
      if r.Ok? {
        ParsedSize(t, true);
        stream.RemainingMoved(from, stream.offset);
      }
    }

    /** A new EntryHeader, read from the stream: what Parse finds in the
        bytes left, or the error of the read that throws. */
    static method ReadNewHeader(stream: SubInputStream, central: bool) returns (r: Result<Header>)
      requires stream.Valid() && !stream.closed
      modifies stream
      ensures stream.Valid() && !stream.closed
      ensures r == if old(stream.Span()) < 0 then Err(IndexOutOfRange) else Parse(old(stream.Remaining()), central)
      ensures r.Ok? ==> stream.offset == old(stream.offset) + ByteSize(r.value, central)
    {
      var header := new EntryHeader();
      var read := header.ReadFrom(stream, central);
      if read.Fail? {
        return Err(read.error);
      }
      r := Ok(header.fields);
    }

    /** The rest of that pass, once a header parsed from the front of the
        bytes left: the entry made from it, appended to the list and added
        to the tree under its name. */
    method EnterHeader(index: nat, count: nat, fields: Header, ghost rest: seq<byte>) returns (r: Result<Entry>)
      requires Valid() && index < count && Parse(rest, true) == Ok(fields)
      modifies this, entryTree
      ensures Valid() && password == old(password) && decode == old(decode)
      ensures r.Ok? ==> entryList == old(entryList) + [r.value]
      ensures ByteSize(fields, true) <= |rest|
      ensures var full := LoadDir(rest, index, count, old(entryTree.nodes), decode);
        && (r.Err? ==> full == Err(r.error))
        && (r.Ok? ==> full == Cons(r.value, LoadDir(rest[ByteSize(fields, true)..], index + 1, count,
                                                    entryTree.nodes, decode)))
    {
      LoadDirAt(rest, index, count, entryTree.nodes, decode);
      var entry :- NewEntry(index, fields, decode);
      var filed := FileEntry(entry);
      if filed.Fail? {
        return Err(filed.error);
      }
      r := Ok(entry);
    }

    /** An entry appended to the list and added to the tree under its name. */
    method FileEntry(entry: Entry) returns (filed: Outcome)
      requires Valid()
      modifies this, entryTree
      ensures Valid() && password == old(password) && decode == old(decode)
      ensures entryList == old(entryList) + [entry]
      ensures var ins := Insert(old(entryTree.nodes), 0, Names(entry.name), entry);
        && (filed.Pass? <==> ins.Ok?)
        && (ins.Ok? ==> entryTree.nodes == ins.value.nodes)
        && (ins.Err? ==> filed == Fail(ins.error))
    {
      entryList := entryList + [entry];
      filed := entryTree.AddChild(0, entry.name, entry);
    }

    /** needPassword: whether any entry is encrypted. */
    method NeedPassword() returns (r: bool)
      ensures r <==> exists k :: 0 <= k < |entryList| && IsEncrypted(entryList[k])
    {
      var encrypted := false;
      var i := 0;
      while i < |entryList|
        invariant 0 <= i <= |entryList| && !encrypted
        invariant forall k :: 0 <= k < i ==> !IsEncrypted(entryList[k])
      {
        if EncryptMethodOf(entryList[i]) != NoEncryption {
          encrypted := true;
          break;
        }
        i := i + 1;
      }
      r := encrypted;
    }

    method SetPassword(password: seq<byte>)
      modifies this
      ensures this.password == password && entryList == old(entryList) && decode == old(decode)
    {
      this.password := password;
    }

    /** getComment: the archive comment decoded with the current charset. */
    function GetComment(): string
      reads this, dirEnd
    {
      decode(CharsetName(dirEnd.fields.comment))
    }

    /** setDefaultCharset: the decoding getComment uses from now on; the
        entries already read keep their names, and the record is untouched. */
    method SetDefaultCharset(decode: NameBytes -> string)
      modifies this
      ensures this.decode == decode && GetComment() == decode(CharsetName(dirEnd.fields.comment))
      ensures entryList == old(entryList) && password == old(password) && dirEnd.fields == old(dirEnd.fields)
    {
      this.decode := decode;
    }

    /** getEntry(index): the entry at that position, if there is one. */
    function GetEntry(index: int): (r: Result<Entry>)
      reads this
      ensures r.Ok? <==> 0 <= index < |entryList|
      ensures r.Ok? ==> r.value == entryList[index]
      ensures r.Err? ==> r.error == IndexOutOfRange
    {
      if index < 0 || index >= |entryList| then Err(IndexOutOfRange)
      else Ok(entryList[index])
    }

    /** getEntry(path): the entry of the node the path leads to, if any. */
    method GetEntryByPath(path: string) returns (r: Option<Entry>)
      requires Valid()
      ensures r == Lookup(entryTree.nodes, path)
    {
      var node := entryTree.GetChildWithPath(0, path);
      if node.None? {
        return None;
      }
      r := entryTree.nodes[node.value].entry;
    }

    /** What getInputStream(index) opens, as a value. */
    function OpenAt(index: int): Result<Plan>
      reads this
    {
      var e :- GetEntry(index);
      OpenPlan(file, e, password)
    }

    /** The local header read through a stream from the local offset, checked
        against the central one, and the data range after it. */
    method LocateData(entry: Entry) returns (r: Result<Range>)
      ensures r == DataRange(file, entry)
    {
      var localOffset := Signed32(entry.header.localOffset);
      if localOffset < 0 {
        return Err(NegativeOffset);
      }
      var local :- ReadLocalHeader(localOffset);
      r := CheckLocal(entry, localOffset, local);
    }

    /** The checks after the local header: it must match the central one,
        and the data it announces must lie inside the file. */
    method CheckLocal(entry: Entry, localOffset: nat, local: Header) returns (r: Result<Range>)
      requires localOffset < 0x8000_0000 && HeaderSize(false) <= ByteSize(local, false)
      ensures r == RangeBehind(entry, localOffset, local, |file|)
    {
      var ok := Check(MatchLocal(entry.header, local), HeaderMismatch);
      if ok.Fail? {
        return Err(ok.error);
      }
      var start := IntAdd(localOffset, ByteSize(local, false));
      var end := start + Signed32(local.compSize);
      if start > end {
        return Err(StartAfterEnd);
      }
      if end > |file| {
        return Err(EndAfterFileLength);
      }
      if start < 0 {
        return Err(NegativeOffset);
      }
      r := Ok(Range(start, end));
    }

    /** The local header through a stream from `offset` to the end of the
        file, and the local entry made from it. */
    method ReadLocalHeader(offset: nat) returns (r: Result<Header>)
      ensures r == LocalHeader(file, offset)
    {
      var entryStream :- SubInputStream.CreateFrom(file, offset);
      assert entryStream.Remaining() == Window(file, offset, |file|);
      assert entryStream.Span() == IntCast(|file| - offset);
      var localHeader :- ReadNewHeader(entryStream, false);
      var localEntry :- NewEntry(0, localHeader, decode);
      r := Ok(localEntry.header);
    }

    /** The stream that reads a data range: the sub stream itself, or for a
        PKWARE entry a decrypting stream over it. */
    method OpenLayer(entry: Entry, sub: SubInputStream) returns (r: Result<Layer>)
      requires sub.Valid() && !sub.closed && sub.file == file && sub.offset == sub.start
      requires sub.end - sub.start < 0x8000_0000
      modifies sub
      ensures var c := DecryptCheck(file, entry, password, sub.start, sub.end);
        && (r.Ok? <==> c.Ok?) && (r.Err? ==> r.error == c.error)
        && (r.Ok? ==> (r.value.Raw? <==> !c.value))
        && (r.Ok? && r.value.Raw? ==> r.value.sub == sub && sub.Valid() && !sub.closed && sub.offset == sub.start)
        && (r.Ok? && r.value.Decrypting? ==>
              var d := r.value.dec;
              fresh(d) && d.Valid() && d.Position() == 0 && d.password == password && d.base == sub)
    {
      var encryption := EncryptMethodOf(entry);
      if encryption == NoEncryption {
        return Ok(Raw(sub));
      } else if encryption == PkwareEncryption {
        var ok := Check(password != [], Error.NeedPassword);
        if ok.Fail? {
          return Err(ok.error);
        }
        assert !sub.Overlong() && sub.FromStart() == file[sub.start..sub.end];
        var decrypt :- CryptoStreams.PKWareDecryptInputStream.Create(
          sub, password, TimeCheck(entry.header), CrcCheck(entry.header));
        r := Ok(Decrypting(decrypt));
      } else {
        r := Err(EncryptNotSupported);
      }
    }

    /** The streams over a data range: the layer that reads it, and whether
        an inflater goes on top. */
    method OpenData(entry: Entry, range: Range) returns (r: Result<EntryStream>)
      requires range.start <= range.end <= |file| && range.end - range.start < 0x8000_0000
      ensures var p := DataPlanOf(file, entry, password, range.start, range.end);
        && (r.Ok? <==> p.Ok?) && (r.Err? ==> r.error == p.error)
        && (r.Ok? ==>
              && r.value.DataStream? && r.value.inflate == p.value.inflate
              && (r.value.layer.Raw? <==> !p.value.encrypted)
              && (r.value.layer.Raw? ==>
                    var s := r.value.layer.sub;
                    fresh(s) && s.Valid() && !s.closed && s.file == file
                    && s.start == range.start && s.end == range.end && s.offset == s.start)
              && (r.value.layer.Decrypting? ==>
                    var d := r.value.layer.dec;
                    fresh(d) && d.Valid() && d.Position() == 0 && d.password == password
                    && d.base.file == file && d.base.start == range.start && d.base.end == range.end))
    {
      var created := SubInputStream.Create(file, range.start, range.end);
      var subStream := created.value;
      var layer :- OpenLayer(entry, subStream);
      var compression := CompressMethodOf(entry);
      if compression == UnsupportedCompression {
        return Err(CompressNotSupported);
      }
      r := Ok(DataStream(layer, compression == Flate));
    }

    /** getInputStream(index): the streams OpenAt describes, or its error. */
    method GetInputStream(index: int) returns (r: Result<EntryStream>)
      ensures var p := OpenAt(index);
        && (r.Ok? <==> p.Ok?) && (r.Err? ==> r.error == p.error)
        && (r.Ok? && p.value.FolderPlan? ==> r.value.FolderStream? && fresh(r.value.base) && !r.value.base.closed)
        && (r.Ok? && p.value.DataPlan? ==>
              && r.value.DataStream? && r.value.inflate == p.value.inflate
              && (r.value.layer.Raw? <==> !p.value.encrypted)
              && (r.value.layer.Raw? ==>
                    var s := r.value.layer.sub;
                    fresh(s) && s.Valid() && !s.closed && s.file == file
                    && s.start == p.value.start && s.end == p.value.end && s.offset == s.start)
              && (r.value.layer.Decrypting? ==>
                    var d := r.value.layer.dec;
                    fresh(d) && d.Valid() && d.Position() == 0 && d.password == password
                    && d.base.file == file && d.base.start == p.value.start && d.base.end == p.value.end))
    {
      var entry :- GetEntry(index);
      if !IsFile(entry) {
        var empty := new ZipInputStream();
        return Ok(FolderStream(empty));
      }
      var range :- LocateData(entry);
      r := OpenData(entry, range);
    }

    /** getInputStream(path): nothing when no entry has the path, otherwise
        the streams of that entry, found by its index. */
    method GetInputStreamByPath(path: string) returns (r: Result<Option<EntryStream>>)
      requires Valid()
      ensures var found := Lookup(entryTree.nodes, path);
        && (found.None? ==> r == Ok(None))
        && (found.Some? ==>
              && (r.Ok? <==> OpenAt(found.value.index).Ok?)
              && (r.Ok? ==> r.value.Some?)
              && (r.Err? ==> r.error == OpenAt(found.value.index).error))
    {
      var entry := GetEntryByPath(path);
      if entry.None? {
        return Ok(None);
      }
      var stream :- GetInputStream(entry.value.index);
      r := Ok(Some(stream));
    }
  }
}
