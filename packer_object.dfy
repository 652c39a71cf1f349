/** The GsZipPacker object: the entry list and the name map it updates in
    place as files and folders are added, the charset and comment setters,
    and the two packTo methods with their loops. Each method is proved
    against the value model of the Packer module: the queue an add leaves
    is FolderAdded or FileAdded of the queue before, and what packTo writes
    is Pack of the list. */
module PackerObject {
  import opened ZipCommon
  import opened Headers
  import opened ZipUtil
  import Reader
  import opened Packer

  class ZipPacker {
    /** Which packer: the newest (gszip) or the earlier one (libzip). */
    const rev: Revision
    var entryList: seq<EntryInfo>
    var entries: map<string, string>
    var charset: Charset
    var comment: string

    /** The list and the map, as a queue. */
    function Contents(): Queue
      reads this
    {
      Queue(entryList, entries)
    }

    /** Every entry was admitted by those before it, and the map is the one
        the list describes. */
    predicate Valid()
      reads this
    {
      Indexed(Contents())
    }

    /** An empty packer: UTF-8 and no comment. */
    constructor(rev: Revision)
      ensures Valid() && this.rev == rev
      ensures entryList == [] && entries == map[] && comment == ""
      ensures forall text :: charset(text) == Utf8(text)
    {
      this.rev := rev;
      entryList := [];
      entries := map[];
      charset := Utf8;
      comment := "";
    }

    method SetDefaultCharset(charset: Charset)
      modifies this
      ensures this.charset == charset && Contents() == old(Contents()) && comment == old(comment)
    {
      this.charset := charset;
    }

    method SetComment(comment: string)
      modifies this
      ensures this.comment == comment && Contents() == old(Contents()) && charset == old(charset)
    {
      this.comment := comment;
    }

    /** addFolder: true and the queue FolderAdded describes, or false and
        no change (a failing parent has no parent of its own, so nothing
        was added before the failure). */
    method AddFolder(entryName: string, fs: FileSystem) returns (ok: bool)
      requires Valid()
      modifies this
      ensures Valid() && charset == old(charset) && comment == old(comment)
      ensures var r := FolderAdded(rev, old(Contents()), entryName, fs);
        ok == r.Ok? && Contents() == (if r.Ok? then r.value else old(Contents()))
      decreases if NoSep(entryName, SEPS) then 0 else 1, 1
    {
      FolderAddedKeeps(rev, Contents(), entryName, fs);
      var name := Normalized(RuleOf(rev), entryName);
      if name == "" {
        return false;
      }
      if name in entries {
        return entries[name] == "";
      }
      ok := AddNewFolder(entryName, name, fs);
    }

    /** addFolder past its early returns: a new folder, after its parent. */
    method AddNewFolder(entryName: string, name: string, fs: FileSystem) returns (ok: bool)
      requires Valid() && name == Normalized(RuleOf(rev), entryName) && name != "" && name !in entries
      modifies this
      ensures Valid() && charset == old(charset) && comment == old(comment)
      ensures var r := FolderAdded(rev, old(Contents()), entryName, fs);
        ok == r.Ok? && Contents() == (if r.Ok? then r.value else old(Contents()))
      decreases if NoSep(entryName, SEPS) then 0 else 1, 0
    {
      ghost var q0 := Contents();
      FolderAddedKeeps(rev, q0, entryName, fs);
      var parent := ParentPath(name);
      if parent != "" {
        FolderUnderParent(rev, q0, entryName, fs);
        var added := AddFolder(parent, fs);
        if !added {
          return false;
        }
      } else {
        FolderAddedCases(rev, q0, entryName, fs);
      }
      Append(NewInfo(rev, name + "/", "", fs), name, "");
      ok := true;
    }

    /** addFile: true and the queue FileAdded describes, or false and no
        change. */
    method AddFile(entryName: string, fileName: string, fs: FileSystem) returns (ok: bool)
      requires Valid()
      modifies this
      ensures Valid() && charset == old(charset) && comment == old(comment)
      ensures var r := FileAdded(rev, old(Contents()), entryName, fileName, fs);
        ok == r.Ok? && Contents() == (if r.Ok? then r.value else old(Contents()))
    {
      FileAddedKeeps(rev, Contents(), entryName, fileName, fs);
      var name := Normalized(RuleOf(rev), entryName);
      if name == "" || fileName == "" || !fs.isFile(fileName) || name in entries {
        return false;
      }
      ok := AddNewFile(entryName, name, fileName, fs);
    }

    /** addFile past its early returns: a new file, after its parent folder. */
    method AddNewFile(entryName: string, name: string, fileName: string, fs: FileSystem) returns (ok: bool)
      requires Valid() && name == Normalized(RuleOf(rev), entryName) && name != "" && name !in entries
      requires fileName != "" && fs.isFile(fileName)
      modifies this
      ensures Valid() && charset == old(charset) && comment == old(comment)
      ensures var r := FileAdded(rev, old(Contents()), entryName, fileName, fs);
        ok == r.Ok? && Contents() == (if r.Ok? then r.value else old(Contents()))
    {
      ghost var q0 := Contents();
      var parent := ParentPath(name);
      var added := true;
      if parent != "" {
        added := AddFolder(parent, fs);
      }
      FileStep(rev, q0, Contents(), entryName, fileName, fs, added);
      if added {
        Append(NewInfo(rev, name, fileName, fs), name, fileName);
      }
      ok := added;
    }

    /** Queues one entry: the info at the end of the list, its name mapped
        to its source file ("" for a folder). */
    method Append(info: EntryInfo, name: string, source: string)
      modifies this
      ensures entryList == old(entryList) + [info] && entries == old(entries)[name := source]
      ensures charset == old(charset) && comment == old(comment)
    {
      entryList := entryList + [info];
      entries := entries[name := source];
    }

    /** packTo(stream, password): the bytes the stream receives, and how
        the call ends, are Pack's: true, false for an error it catches, or
        the error that escapes; the headers of the list are left as the
        loops updated them. */
    method PackTo(password: string, fs: FileSystem, tools: Tools) returns (verdict: Verdict, out: seq<byte>)
      requires Valid()
      modifies this
      ensures Valid() && entries == old(entries) && charset == old(charset) && comment == old(comment)
      ensures var o := Pack(rev, old(entryList), password, charset, comment, fs, tools);
        verdict == o.verdict && out == o.bytes && entryList == o.list
    {
      var list0 := entryList;
      var local := LocalLoop(rev, list0, password, TextBytes(rev, charset, password), fs, tools);
      if local.outcome.Fail? {
        SameEntriesIndexed(list0, local.list);
        entryList := local.list;
        return Stopped(rev, local.outcome.error), local.bytes;
      }
      var central := CentralLoop(local.list);
      SameEntriesIndexed(list0, central.list);
      entryList := central.list;
      out := local.bytes + central.bytes;
      if central.outcome.Fail? {
        return Stopped(rev, central.outcome.error), out;
      }
      var dirEnd := EndRecord(|list0|, local.total, central.total, TextBytes(rev, charset, comment));
      var endBytes := EndBytes(rev, dirEnd);
      if endBytes.Err? {
        return Stopped(rev, endBytes.error), out;
      }
      out := out + endBytes.value;
      verdict := Returned(true);
    }

    /** packTo(filePath, password): false, with nothing written, when the
        file already exists; otherwise packTo into the new file, whose
        escaping errors escape this call too. */
    method PackToPath(filePath: string, password: string, fs: FileSystem, tools: Tools)
      returns (verdict: Verdict, out: seq<byte>)
      requires Valid()
      modifies this
      ensures Valid() && entries == old(entries) && charset == old(charset) && comment == old(comment)
      ensures fs.present(filePath) ==> verdict == Returned(false) && out == [] && entryList == old(entryList)
      ensures !fs.present(filePath) ==>
        var o := Pack(rev, old(entryList), password, charset, comment, fs, tools);
        verdict == o.verdict && out == o.bytes && entryList == o.list
    {
      if fs.present(filePath) {
        return Returned(false), [];
      }
      verdict, out := PackTo(password, fs, tools);
    }
  }

  /** The first loop of packTo: each entry signed local and given the
      stream offset, then written, a folder as its header alone, a file with
      its payload; streamOffset sums what was written as an int. A failing
      write ends the loop with that entry's header already updated. */
  method LocalLoop(rev: Revision, list0: seq<EntryInfo>, password: string, pw: seq<byte>, fs: FileSystem, tools: Tools)
    returns (r: Run)
    ensures r == LocalRun(rev, list0, |list0|, password, pw, fs, tools)
  {
    var list := list0;
    var streamOffset := 0;
    var out: seq<byte> := [];
    var i := 0;
    while i < |list0|
      invariant 0 <= i <= |list0|
      invariant LocalRun(rev, list0, i, password, pw, fs, tools) == Run(list, out, streamOffset, Pass)
    {
      var pass := LocalPass(rev, list0, i, list, out, streamOffset, password, pw, fs, tools);
      if pass.outcome.Fail? {
        LocalFailStays(rev, list0, i + 1, |list0|, password, pw, fs, tools);
        return pass;
      }
      list, out, streamOffset := pass.list, pass.bytes, pass.total;
      i := i + 1;
    }
    r := Run(list, out, streamOffset, Pass);
  }

  /** One pass of the first loop, over entry i: its header updated in the
      list, then its bytes written and streamOffset moved past them. */
  method LocalPass(rev: Revision, list0: seq<EntryInfo>, i: nat, list: seq<EntryInfo>, out: seq<byte>, streamOffset: int,
                   password: string, pw: seq<byte>, fs: FileSystem, tools: Tools)
    returns (r: Run)
    requires i < |list0| && LocalRun(rev, list0, i, password, pw, fs, tools) == Run(list, out, streamOffset, Pass)
    ensures r == LocalRun(rev, list0, i + 1, password, pw, fs, tools)
  {
    LocalRunUnfolds(rev, list0, i + 1, password, pw, fs, tools);
    var info := list[i];
    var p := PackEntry(rev, info, streamOffset, password, pw, fs, tools.deflate, tools.salt(i));
    var list' := list[i := info.(header := p.header)];
    if p.written.Err? {
      return Run(list', out, streamOffset, Fail(p.written.error));
    }
    r := Run(list', out + p.written.value, Advance(streamOffset, info, p.header), Pass);
  }

  /** The second loop of packTo: each header signed central and written;
      dirSize sums the central byteSizes as an int. */
  method CentralLoop(list0: seq<EntryInfo>) returns (r: Run)
    ensures r == CentralRun(list0, |list0|)
  {
    var list := list0;
    var dirSize := 0;
    var out: seq<byte> := [];
    var i := 0;
    while i < |list0|
      invariant 0 <= i <= |list0|
      invariant CentralRun(list0, i) == Run(list, out, dirSize, Pass)
    {
      assert CentralRun(list0, i + 1) == CentralStep(list0, i + 1);
      var header := list[i].header.(sign := CENTRAL_MAGIC);
      list := list[i := list[i].(header := header)];
      var w := Write(header, true);
      if w.Err? {
        CentralFailStays(list0, i + 1, |list0|);
        return Run(list, out, dirSize, Fail(w.error));
      }
      out := out + w.value;
      dirSize := Reader.IntAdd(dirSize, ByteSize(header, true));
      i := i + 1;
    }
    r := Run(list, out, dirSize, Pass);
  }
}
