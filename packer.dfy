/** GsZipPacker: files and folders queued under normalised entry names, then
    written as one archive: each entry's local header and data, the central
    headers, and the end of central directory record.

    The queue is an entry list in insertion order and a map from each name
    to its source path ("" for a folder). Adding an entry first adds its
    parent folder, so a folder always comes before what it holds. The newest
    packer (gszip) and the earlier one (libzip) are modelled together; they
    differ in how names are normalised, which entries get a time stamp, the
    charset of the password and the comment, the end record class, and what
    an encrypted file that did not deflate shorter holds: libzip seals only
    the 12-byte header, since its deflate pass drained the file stream. */
module Packer {
  import opened ZipCommon
  import opened Headers
  import opened ZipUtil
  import Eocd
  import PKWare
  import CryptoStreams
  import Reader
  import EntryTree
  import Entries

  datatype Revision = Newest | Libzip

  /** getCanonicalPath of libzip keeps a ".." that follows another ".." on
      the stack; normalizePath of gszip pops any segment. */
  function RuleOf(rev: Revision): PopRule
  {
    if rev == Newest then PopAny else PopNamed
  }

  /** A moment whose calendar fields are in range, as java.util.Date gives them. */
  type Moment = t: DateTime | CalendarFields(t) witness DateTime(1980, 1, 1, 0, 0, 0)

  /** A charset, as String.getBytes applies it. */
  type Charset = string -> seq<byte>

  /** What the packer asks of the file system: File.isFile, File.lastModified
      as calendar fields, a source file's bytes, and File.exists. */
  datatype FileSystem = FileSystem(isFile: string -> bool, lastModified: string -> Moment,
                                   contents: string -> seq<byte>, present: string -> bool)

  /** The 12 header bytes an encrypting stream draws at random. */
  type Salt = s: seq<byte> | |s| == CryptoStreams.HEADER_LEN witness [0, 0, 0, 0, 0, 0, 0, 0, 0, 0, 0, 0]

  /** The raw DEFLATE codec, and the random header of the encrypting stream
      built for the k-th entry. */
  datatype Tools = Tools(deflate: seq<byte> -> seq<byte>, salt: nat -> Salt)

  // ---------------------------------------------------------------------------
  // The queue: entryList and entries
  // ---------------------------------------------------------------------------

  /** EntryInfo: the entry's name ('/'-terminated for a folder), its source
      path ("" for a folder), and the header packTo fills in. */
  datatype EntryInfo = EntryInfo(name: string, path: string, header: Header)

  /** Whether the EntryInfo constructor stamps the header with the source's
      modification time: the newest packer does so when there is a source;
      the earlier one asks its isFile(), which is `path.isEmpty()`, and so
      stamps folders, with the time File("") reports, and never files. */
  predicate Stamped(rev: Revision, path: string)
  {
    if rev == Newest then path != "" else path == ""
  }

  /** The EntryInfo constructor: a new header named by the name's UTF-8
      bytes, stamped or not. */
  function NewInfo(rev: Revision, name: string, path: string, fs: FileSystem): EntryInfo
  {
    var h := NEW_HEADER.(fileName := Utf8(name), fileNameLen := ToU16(|Utf8(name)|));
    var t := fs.lastModified(path);
    if Stamped(rev, path) then EntryInfo(name, path, h.(lastModDate := DosDate(t), lastModTime := DosTime(t)))
    else EntryInfo(name, path, h)
  }

  /** A new entry of a libzip packer carries a time stamp exactly when it is
      a folder; one of the newest packer exactly when it is a file. */
  lemma NewInfoStamp(rev: Revision, name: string, path: string, fs: FileSystem)
    ensures var h := NewInfo(rev, name, path, fs).header;
      var t := fs.lastModified(path);
      && h.fileName == Utf8(name) && h.compMethod == COMPRESS_STORED && h.bitFlags == NEW_HEADER.bitFlags
      && (rev == Libzip && path != "" ==> h.lastModDate == 0 && h.lastModTime == 0)
      && (rev == Libzip && path == "" ==> h.lastModDate == DosDate(t) && h.lastModTime == DosTime(t))
      && (rev == Newest && path != "" ==> h.lastModDate == DosDate(t) && h.lastModTime == DosTime(t))
      && (rev == Newest && path == "" ==> h.lastModDate == 0 && h.lastModTime == 0)
  {
  }

  /** The list and the map, as values. */
  datatype Queue = Queue(list: seq<EntryInfo>, entries: map<string, string>)

  /** The map key of an entry: its name without the folder's '/'. */
  function KeyOf(info: EntryInfo): string
  {
    if info.path == "" && |info.name| > 0 then info.name[..|info.name| - 1] else info.name
  }

  /** The map the list describes: each entry's key to its source path. */
  function MapOf(list: seq<EntryInfo>): map<string, string>
    decreases |list|
  {
    if list == [] then map[]
    else MapOf(list[..|list| - 1])[KeyOf(list[|list| - 1]) := list[|list| - 1].path]
  }

  /** An entry may join a queue whose map is m: a folder's name ends in '/',
      its key is new, and its parent, when it has one, is a queued folder. */
  predicate Admits(m: map<string, string>, info: EntryInfo)
  {
    var key := KeyOf(info);
    && (info.path == "" ==> |info.name| > 0 && info.name[|info.name| - 1] == '/')
    && key !in m
    && (ParentPath(key) != "" ==> ParentPath(key) in m && m[ParentPath(key)] == "")
  }

  /** Every entry was admitted by the entries before it. */
  predicate Orderly(list: seq<EntryInfo>)
    decreases |list|
  {
    list == [] || (Orderly(list[..|list| - 1]) && Admits(MapOf(list[..|list| - 1]), list[|list| - 1]))
  }

  /** The queue's invariant: the list is orderly and the map is the one it
      describes. */
  predicate Indexed(q: Queue)
  {
    Orderly(q.list) && q.entries == MapOf(q.list)
  }

  /** Appending an admitted entry keeps the queue indexed. */
  lemma Appended(q: Queue, info: EntryInfo)
    requires Indexed(q) && Admits(q.entries, info)
    ensures Indexed(Queue(q.list + [info], q.entries[KeyOf(info) := info.path]))
  {
    var l := q.list + [info];
    assert l[..|l| - 1] == q.list;
  }

  /** On a normalised name, the parent is a single segment, and a name
      without separators has none. */
  lemma ParentShape(rule: PopRule, path: string)
    ensures ParentPath(Normalized(rule, path)) == "" || Segment(ParentPath(Normalized(rule, path)))
    ensures NoSep(path, SEPS) ==> ParentPath(Normalized(rule, path)) == ""
  {
    NormalizedShape(rule, path);
    var parts := Fold(rule, [], Pieces(path, SEPS));
    if parts != [] {
      assert forall k :: 0 <= k < |parts| ==> Segment(parts[k]);
      ParentOfJoin(parts);
    }
    if NoSep(path, SEPS) {
      PiecesNoSep(path, SEPS);
      assert Pieces(path, SEPS) == [path] by {
        OnePiece(path);
      }
      assert Fold(rule, [], [path]) == Step(rule, [], path);
      if parts != [] {
        assert parts == [path];
        ParentOfJoin(parts);
      }
    }
  }

  /** A string without separators is a single piece. */
  lemma {:induction false} OnePiece(s: string)
    requires NoSep(s, SEPS)
    ensures Pieces(s, SEPS) == [s]
  {
    if s != [] {
      OnePiece(s[1..]);
      assert [s[0]] + s[1..] == s;
    }
  }

  /** addFolder as a value: the new queue, or why it was refused. An existing
      folder is success with no change. */
  function FolderAdded(rev: Revision, q: Queue, entryName: string, fs: FileSystem): Result<Queue>
    decreases if NoSep(entryName, SEPS) then 0 else 1
  {
    var name := Normalized(RuleOf(rev), entryName);
    if name == "" then Err(EmptyEntryName)
    else if name in q.entries then
      if q.entries[name] == "" then Ok(q) else Err(SameNameWithFile)
    else
      var parent := ParentPath(name);
      ParentShape(RuleOf(rev), entryName);
      var q1 :- if parent == "" then Ok(q)
                else if FolderAdded(rev, q, parent, fs).Err? then Err(AddParentFolderFail)
                else FolderAdded(rev, q, parent, fs);
      Ok(Queue(q1.list + [NewInfo(rev, name + "/", "", fs)], q1.entries[name := ""]))
  }

  /** The cases of addFolder, one step at a time, for the imperative
      version: each early return, and the queue after the parent. */
  lemma FolderAddedCases(rev: Revision, q: Queue, entryName: string, fs: FileSystem)
    ensures var r := FolderAdded(rev, q, entryName, fs);
      var name := Normalized(RuleOf(rev), entryName);
      var parent := ParentPath(name);
      var info := NewInfo(rev, name + "/", "", fs);
      && (name == "" ==> r == Err(EmptyEntryName))
      && (name != "" && name in q.entries ==> r == if q.entries[name] == "" then Ok(q) else Err(SameNameWithFile))
      && (name != "" && name !in q.entries ==>
            && (parent != "" ==> NoSep(parent, SEPS) && !NoSep(entryName, SEPS))
            && (parent == "" ==> r == Ok(Queue(q.list + [info], q.entries[name := ""])))
            && (parent != "" && FolderAdded(rev, q, parent, fs).Err? ==> r == Err(AddParentFolderFail))
            && (parent != "" && FolderAdded(rev, q, parent, fs).Ok? ==>
                  var q1 := FolderAdded(rev, q, parent, fs).value;
                  r == Ok(Queue(q1.list + [info], q1.entries[name := ""]))))
  {
    ParentShape(RuleOf(rev), entryName);
  }

  /** addFile as a value. */
  function FileAdded(rev: Revision, q: Queue, entryName: string, fileName: string, fs: FileSystem): Result<Queue>
  {
    var name := Normalized(RuleOf(rev), entryName);
    if name == "" then Err(EmptyEntryName)
    else if fileName == "" || !fs.isFile(fileName) then Err(InvalidFileName)
    else if name in q.entries then Err(AlreadyHasEntry)
    else
      var parent := ParentPath(name);
      var q1 :- if parent == "" then Ok(q)
                else if FolderAdded(rev, q, parent, fs).Err? then Err(AddParentFolderFail)
                else FolderAdded(rev, q, parent, fs);
      Ok(Queue(q1.list + [NewInfo(rev, name, fileName, fs)], q1.entries[name := fileName]))
  }

  /** Headers play no part in the queue's invariant: a list with the same
      names and sources is orderly exactly when the first is, and describes
      the same map. */
  lemma {:induction false} SameEntriesIndexed(a: seq<EntryInfo>, b: seq<EntryInfo>)
    requires SameEntries(a, b)
    ensures Orderly(a) <==> Orderly(b)
    ensures MapOf(a) == MapOf(b)
    decreases |a|
  {
    if a != [] {
      var n := |a| - 1;
      assert SameEntries(a[..n], b[..n]);
      SameEntriesIndexed(a[..n], b[..n]);
      assert a[n].name == b[n].name && a[n].path == b[n].path;
      assert KeyOf(a[n]) == KeyOf(b[n]);
      assert Admits(MapOf(a[..n]), a[n]) == Admits(MapOf(b[..n]), b[n]);
    }
  }

  /** q2 holds q's list as a prefix and every mapping of q. */
  predicate Extends(q: Queue, q2: Queue)
  {
    |q.list| <= |q2.list| && q2.list[..|q.list|] == q.list
    && forall k :: k in q.entries ==> k in q2.entries && q2.entries[k] == q.entries[k]
  }

  /** addFolder succeeds unless the name is empty, names a file, or its
      parent folder names a file; a success keeps the queue indexed, only
      appends, adds no key but the name and its parent, and leaves the name
      mapped to a folder. */
  lemma {:induction false} FolderAddedKeeps(rev: Revision, q: Queue, entryName: string, fs: FileSystem)
    requires Indexed(q)
    ensures var r := FolderAdded(rev, q, entryName, fs);
      var name := Normalized(RuleOf(rev), entryName);
      var parent := ParentPath(name);
      && (r.Ok? ==> Indexed(r.value) && Extends(q, r.value)
                    && r.value.entries.Keys <= q.entries.Keys + {name, parent}
                    && name in r.value.entries && r.value.entries[name] == "")
      && (name == "" ==> r == Err(EmptyEntryName))
      && (name != "" && name in q.entries && q.entries[name] != "" ==> r == Err(SameNameWithFile))
      && (name != "" && name in q.entries && q.entries[name] == "" ==> r == Ok(q))
      && (name != "" && name !in q.entries ==>
            (r.Err? <==> parent != "" && parent in q.entries && q.entries[parent] != "")
            && (r.Err? ==> r.error == AddParentFolderFail))
    decreases if NoSep(entryName, SEPS) then 0 else 1, 1
  {
    var name := Normalized(RuleOf(rev), entryName);
    if name != "" && name !in q.entries {
      var parent := ParentPath(name);
      var info := NewInfo(rev, name + "/", "", fs);
      assert KeyOf(info) == name by {
        assert (name + "/")[..|name|] == name;
      }
      ParentShape(RuleOf(rev), entryName);
      if parent == "" {
        assert FolderAdded(rev, q, entryName, fs) == Ok(Queue(q.list + [info], q.entries[name := ""]));
        Grown(q, q, info);
      } else {
        FolderUnderParent(rev, q, entryName, fs);
        var p := FolderAdded(rev, q, parent, fs);
        if p.Ok? {
          Grown(q, p.value, info);
        }
      }
    }
  }

  /** FolderAddedKeeps where the new folder has a parent: the parent is
      added first, and fails exactly when it names a file. */
  lemma {:induction false} FolderUnderParent(rev: Revision, q: Queue, entryName: string, fs: FileSystem)
    requires Indexed(q)
    requires var name := Normalized(RuleOf(rev), entryName);
      name != "" && name !in q.entries && ParentPath(name) != ""
    ensures var r := FolderAdded(rev, q, entryName, fs);
      var name := Normalized(RuleOf(rev), entryName);
      var parent := ParentPath(name);
      var p := FolderAdded(rev, q, parent, fs);
      var info := NewInfo(rev, name + "/", "", fs);
      && KeyOf(info) == name && NoSep(parent, SEPS) && !NoSep(entryName, SEPS)
      && (p.Err? <==> parent in q.entries && q.entries[parent] != "")
      && (p.Err? ==> r == Err(AddParentFolderFail))
      && (p.Ok? ==> r == Ok(Queue(p.value.list + [info], p.value.entries[name := ""]))
                    && Indexed(p.value) && Extends(q, p.value) && p.value.entries.Keys <= q.entries.Keys + {parent}
                    && Admits(p.value.entries, info))
    decreases if NoSep(entryName, SEPS) then 0 else 1, 0
  {
    var name := Normalized(RuleOf(rev), entryName);
    var parent := ParentPath(name);
    var info := NewInfo(rev, name + "/", "", fs);
    assert KeyOf(info) == name by {
      assert (name + "/")[..|name|] == name;
    }
    ParentShape(RuleOf(rev), entryName);
    FolderAddedKeeps(rev, q, parent, fs);
    NormalizedSegment(RuleOf(rev), parent);
    assert |parent| < |name| && ParentPath(parent) == "";
    FolderAddedCases(rev, q, parent, fs);
  }

  /** addFile fails on an empty name, then on a source that is not a file,
      then on a name already queued (file or folder), then exactly when the
      parent names a file; a success keeps the queue indexed, only appends,
      adds no key but the name and its parent, maps the name to the source,
      and ends the list with the new file's entry. */
  lemma FileAddedKeeps(rev: Revision, q: Queue, entryName: string, fileName: string, fs: FileSystem)
    requires Indexed(q)
    ensures var r := FileAdded(rev, q, entryName, fileName, fs);
      var name := Normalized(RuleOf(rev), entryName);
      var parent := ParentPath(name);
      var valid := fileName != "" && fs.isFile(fileName);
      && (r.Ok? ==> Indexed(r.value) && Extends(q, r.value)
                    && r.value.entries.Keys <= q.entries.Keys + {name, parent}
                    && name in r.value.entries && r.value.entries[name] == fileName
                    && r.value.list[|r.value.list| - 1] == NewInfo(rev, name, fileName, fs))
      && (name == "" ==> r == Err(EmptyEntryName))
      && (name != "" && !valid ==> r == Err(InvalidFileName))
      && (name != "" && valid && name in q.entries ==> r == Err(AlreadyHasEntry))
      && (name != "" && valid && name !in q.entries ==>
            (r.Err? <==> parent != "" && parent in q.entries && q.entries[parent] != "")
            && (r.Err? ==> r.error == AddParentFolderFail))
  {
    var name := Normalized(RuleOf(rev), entryName);
    if name != "" && fileName != "" && fs.isFile(fileName) && name !in q.entries {
      FileAddedQueued(rev, q, entryName, fileName, fs);
    }
  }

  /** FileAddedKeeps for a nonempty new name and a real source file. */
  lemma FileAddedQueued(rev: Revision, q: Queue, entryName: string, fileName: string, fs: FileSystem)
    requires Indexed(q)
    requires var name := Normalized(RuleOf(rev), entryName);
      name != "" && fileName != "" && fs.isFile(fileName) && name !in q.entries
    ensures var r := FileAdded(rev, q, entryName, fileName, fs);
      var name := Normalized(RuleOf(rev), entryName);
      var parent := ParentPath(name);
      && (r.Ok? ==> Indexed(r.value) && Extends(q, r.value)
                    && r.value.entries.Keys <= q.entries.Keys + {name, parent}
                    && name in r.value.entries && r.value.entries[name] == fileName
                    && r.value.list[|r.value.list| - 1] == NewInfo(rev, name, fileName, fs))
      && (r.Err? <==> parent != "" && parent in q.entries && q.entries[parent] != "")
      && (r.Err? ==> r.error == AddParentFolderFail)
  {
    var name := Normalized(RuleOf(rev), entryName);
    ParentShape(RuleOf(rev), entryName);
    if ParentPath(name) == "" {
      FileAtTop(rev, q, entryName, fileName, fs);
    } else {
      FileUnderParent(rev, q, entryName, fileName, fs);
      FileBesideParent(rev, q, entryName, fileName, fs);
    }
  }

  /** FileAddedQueued where the name has no parent folder. */
  lemma FileAtTop(rev: Revision, q: Queue, entryName: string, fileName: string, fs: FileSystem)
    requires Indexed(q)
    requires var name := Normalized(RuleOf(rev), entryName);
      name != "" && fileName != "" && fs.isFile(fileName) && name !in q.entries && ParentPath(name) == ""
    ensures var name := Normalized(RuleOf(rev), entryName);
      var info := NewInfo(rev, name, fileName, fs);
      var q2 := Queue(q.list + [info], q.entries[name := fileName]);
      && FileAdded(rev, q, entryName, fileName, fs) == Ok(q2)
      && Indexed(q2) && Extends(q, q2) && q2.entries.Keys == q.entries.Keys + {name}
      && q2.entries[name] == fileName && q2.list[|q2.list| - 1] == info
  {
    var name := Normalized(RuleOf(rev), entryName);
    var info := NewInfo(rev, name, fileName, fs);
    assert KeyOf(info) == name;
    FileUnderFolder(rev, q, q, info, fileName);
  }

  /** FileAddedQueued where the parent folder went in. */
  lemma FileBesideParent(rev: Revision, q: Queue, entryName: string, fileName: string, fs: FileSystem)
    requires Indexed(q)
    requires var name := Normalized(RuleOf(rev), entryName);
      var parent := ParentPath(name);
      var p := FolderAdded(rev, q, parent, fs);
      && name != "" && fileName != "" && parent != ""
      && (p.Ok? ==> Indexed(p.value) && Extends(q, p.value) && p.value.entries.Keys <= q.entries.Keys + {parent}
                    && Admits(p.value.entries, NewInfo(rev, name, fileName, fs)))
    ensures var name := Normalized(RuleOf(rev), entryName);
      var parent := ParentPath(name);
      var p := FolderAdded(rev, q, parent, fs);
      var info := NewInfo(rev, name, fileName, fs);
      p.Ok? ==>
        var q2 := Queue(p.value.list + [info], p.value.entries[name := fileName]);
        && Indexed(q2) && Extends(q, q2) && q2.entries.Keys <= q.entries.Keys + {name, parent}
        && name in q2.entries && q2.entries[name] == fileName && q2.list[|q2.list| - 1] == info
  {
    var name := Normalized(RuleOf(rev), entryName);
    var parent := ParentPath(name);
    var p := FolderAdded(rev, q, parent, fs);
    var info := NewInfo(rev, name, fileName, fs);
    assert KeyOf(info) == name;
    if p.Ok? {
      FileUnderFolder(rev, q, p.value, info, fileName);
    }
  }

  /** FileAddedQueued where the name has a parent folder. */
  lemma FileUnderParent(rev: Revision, q: Queue, entryName: string, fileName: string, fs: FileSystem)
    requires Indexed(q)
    requires var name := Normalized(RuleOf(rev), entryName);
      name != "" && fileName != "" && fs.isFile(fileName) && name !in q.entries && ParentPath(name) != ""
    ensures var r := FileAdded(rev, q, entryName, fileName, fs);
      var name := Normalized(RuleOf(rev), entryName);
      var parent := ParentPath(name);
      var p := FolderAdded(rev, q, parent, fs);
      && (p.Err? <==> parent in q.entries && q.entries[parent] != "")
      && (p.Err? ==> r == Err(AddParentFolderFail))
      && (p.Ok? ==> r == Ok(Queue(p.value.list + [NewInfo(rev, name, fileName, fs)], p.value.entries[name := fileName]))
                    && Indexed(p.value) && Extends(q, p.value) && p.value.entries.Keys <= q.entries.Keys + {parent}
                    && Admits(p.value.entries, NewInfo(rev, name, fileName, fs)))
  {
    var name := Normalized(RuleOf(rev), entryName);
    var parent := ParentPath(name);
    var info := NewInfo(rev, name, fileName, fs);
    assert KeyOf(info) == name;
    var p := FolderAdded(rev, q, parent, fs);
    ParentShape(RuleOf(rev), entryName);
    FolderAddedKeeps(rev, q, parent, fs);
    NormalizedSegment(RuleOf(rev), parent);
    assert |parent| < |name| && ParentPath(parent) == "";
    FolderAddedCases(rev, q, parent, fs);
  }

  /** addFile past its early returns, for a new name and a real source:
      `added` says whether the parent folder went in (true when there is
      none) and q1 is the queue after it; the result fails exactly when the
      parent did, and otherwise appends the file's entry to q1 and is
      indexed. */
  lemma FileStep(rev: Revision, q: Queue, q1: Queue, entryName: string, fileName: string, fs: FileSystem, added: bool)
    requires Indexed(q)
    requires var name := Normalized(RuleOf(rev), entryName);
      name != "" && fileName != "" && fs.isFile(fileName) && name !in q.entries
    requires var parent := ParentPath(Normalized(RuleOf(rev), entryName));
      && (parent == "" ==> added && q1 == q)
      && (parent != "" ==> added == FolderAdded(rev, q, parent, fs).Ok?
                           && (added ==> q1 == FolderAdded(rev, q, parent, fs).value))
    ensures var name := Normalized(RuleOf(rev), entryName);
      var r := FileAdded(rev, q, entryName, fileName, fs);
      var q2 := Queue(q1.list + [NewInfo(rev, name, fileName, fs)], q1.entries[name := fileName]);
      r.Ok? == added && (added ==> r.value == q2 && Indexed(q2))
  {
    FileAddedQueued(rev, q, entryName, fileName, fs);
    var name := Normalized(RuleOf(rev), entryName);
    if ParentPath(name) != "" {
      FileUnderParent(rev, q, entryName, fileName, fs);
    } else {
      assert FileAdded(rev, q, entryName, fileName, fs)
          == Ok(Queue(q.list + [NewInfo(rev, name, fileName, fs)], q.entries[name := fileName]));
    }
  }

  /** A file appended after its parent folder was queued. */
  lemma FileUnderFolder(rev: Revision, q: Queue, q1: Queue, info: EntryInfo, fileName: string)
    requires Indexed(q1) && Extends(q, q1) && Admits(q1.entries, info) && info.path == fileName
    ensures var q2 := Queue(q1.list + [info], q1.entries[KeyOf(info) := fileName]);
      && Indexed(q2) && Extends(q, q2) && q2.entries.Keys == q1.entries.Keys + {KeyOf(info)}
      && q2.entries[KeyOf(info)] == fileName && q2.list[|q2.list| - 1] == info
  {
    Grown(q, q1, info);
  }

  /** Appending an admitted entry to a queue that extends q. */
  lemma Grown(q: Queue, q1: Queue, info: EntryInfo)
    requires Indexed(q1) && Extends(q, q1) && Admits(q1.entries, info)
    ensures var q2 := Queue(q1.list + [info], q1.entries[KeyOf(info) := info.path]);
      Indexed(q2) && Extends(q, q2)
  {
    Appended(q1, info);
    var l := q1.list + [info];
    assert l[..|q.list|] == q1.list[..|q.list|];
  }

  /** A parent segment normalises to itself. */
  lemma NormalizedSegment(rule: PopRule, p: string)
    requires Segment(p)
    ensures Normalized(rule, p) == p
  {
    OnePiece(p);
    assert Fold(rule, [], [p]) == Step(rule, [], p);
  }

  // ---------------------------------------------------------------------------
  // packTo, as values
  // ---------------------------------------------------------------------------

  /** The bytes of the password or the comment: in the default charset for
      the newest packer, in UTF-8 for libzip. */
  function TextBytes(rev: Revision, charset: Charset, text: string): seq<byte>
  {
    if rev == Newest then charset(text) else Utf8(text)
  }

  /** A header and the bytes that are to follow it. */
  datatype Stage = Stage(header: Header, payload: seq<byte>)

  /** The CRC and both sizes of the source bytes, then the DEFLATE choice:
      the deflated bytes replace the source when it is not empty and they
      are shorter, both lengths taken as Java ints. */
  function Compress(h: Header, data: seq<byte>, deflate: seq<byte> -> seq<byte>): Stage
  {
    var length := IntCast(|data|);
    var h1 := h.(crc := PKWare.CrcOf(data), compSize := ToU32(length), uncompSize := ToU32(length));
    var packed := deflate(data);
    if length > 0 && IntCast(|packed|) < length
    then Stage(h1.(compMethod := COMPRESS_FLATE, compSize := ToU32(IntCast(|packed|))), packed)
    else Stage(h1, data)
  }

  /** For data and deflated data under 2 GiB, the payload is the source or
      the deflated bytes, whichever the method field says, never longer than
      the source; the sizes are the payload's and the source's lengths and
      the CRC is the source's. */
  lemma CompressChoice(h: Header, data: seq<byte>, deflate: seq<byte> -> seq<byte>)
    requires |data| < 0x8000_0000 && |deflate(data)| < 0x8000_0000
    ensures var r := Compress(h, data, deflate);
      && r.header == h.(crc := r.header.crc, compSize := r.header.compSize,
                        uncompSize := r.header.uncompSize, compMethod := r.header.compMethod)
      && r.header.crc == PKWare.CrcOf(data)
      && Signed32(r.header.uncompSize) == |data| && Signed32(r.header.compSize) == |r.payload| <= |data|
      && (0 < |data| && |deflate(data)| < |data| ==> r.payload == deflate(data) && r.header.compMethod == COMPRESS_FLATE)
      && (!(0 < |data| && |deflate(data)| < |data|) ==> r.payload == data && r.header.compMethod == h.compMethod)
  {
    SmallU32(|data|);
    SmallU32(|deflate(data)|);
  }

  /** The encryption stage: the 12-byte header (random bytes, then the check
      byte from the time field) and the payload, encrypted under the
      password; the encryption bit is ored into the flags and the compressed
      size becomes the encrypted length. */
  function Seal(s: Stage, pw: seq<byte>, salt: Salt): Stage
  {
    var raw := salt[..CryptoStreams.HEADER_LEN - 1] + [TimeCheck(s.header)];
    var sealed := PKWare.Encrypt(PKWare.PKWARE, PKWare.Seeded(PKWare.PKWARE, pw), raw + s.payload);
    Stage(s.header.(bitFlags := WithEncMethod(s.header.bitFlags, ENCRYPT_PKWARE),
                    compSize := ToU32(IntCast(|sealed|))), sealed)
  }

  /** The sealed payload is 12 bytes longer, its size field says so, and the
      same password decrypts it back to the 12-byte header, whose last byte
      is the sealed header's time check, followed by the payload. */
  lemma SealOpens(s: Stage, pw: seq<byte>, salt: Salt)
    requires |s.payload| + CryptoStreams.HEADER_LEN < 0x8000_0000
    ensures var r := Seal(s, pw, salt);
      var plain := PKWare.Decrypt(PKWare.PKWARE, PKWare.Seeded(PKWare.PKWARE, pw), r.payload);
      && |r.payload| == CryptoStreams.HEADER_LEN + |s.payload| && Signed32(r.header.compSize) == |r.payload|
      && plain[CryptoStreams.HEADER_LEN..] == s.payload
      && CryptoStreams.CheckByte(PKWare.PKWARE, pw, r.payload) == TimeCheck(r.header)
      && r.header.lastModTime == s.header.lastModTime
  {
    var raw := salt[..CryptoStreams.HEADER_LEN - 1] + [TimeCheck(s.header)];
    CryptoStreams.DecryptsEncryptedEntry(PKWare.PKWARE, pw, raw, s.payload);
    SmallU32(CryptoStreams.HEADER_LEN + |s.payload|);
  }

  /** An entry whose header carries the sealed flags and time, read over the
      sealed payload with the same non-empty password, passes every
      decryption check of the reader: the packer's encryption is the one
      the reader undoes. */
  lemma SealedEntryDecrypts(e: Entries.Entry, s: Stage, pw: seq<byte>, salt: Salt,
                            file: seq<byte>, start: nat, end: nat)
    requires |s.payload| + CryptoStreams.HEADER_LEN < 0x8000_0000 && Bit(s.header.bitFlags as nat, 6) == 0
    requires e.header.bitFlags == Seal(s, pw, salt).header.bitFlags && e.header.lastModTime == s.header.lastModTime
    requires pw != [] && start <= end <= |file| && file[start..end] == Seal(s, pw, salt).payload
    ensures Reader.DecryptCheck(file, e, pw, start, end) == Ok(true)
  {
    SealOpens(s, pw, salt);
    Entries.PackerEncryptionReadsBack(e, s.header.bitFlags);
  }

  /** Whether packTo seals the drained file stream rather than the source.
      The libzip packer measures the deflated length by reading the file's
      buffered stream through a deflater to its end; when the deflation is
      not shorter it keeps that buffered stream, and the encryption stream
      built over it never rewinds it, so only the 12-byte header is sealed.
      The newest packer's encryption stream restarts its base first. Without
      a password the buffered stream is rewound before it is copied. */
  predicate Drained(rev: Revision, data: seq<byte>, deflate: seq<byte> -> seq<byte>)
  {
    rev == Libzip && IntCast(|data|) > 0 && !(IntCast(|deflate(data)|) < IntCast(|data|))
  }

  /** A file's header and payload: Compress, then, when the password string
      is not empty, Seal over what the stream then yields: the payload, or
      nothing once it has been drained. */
  function StageOf(rev: Revision, h: Header, data: seq<byte>, password: string, pw: seq<byte>,
                   deflate: seq<byte> -> seq<byte>, salt: Salt): Stage
  {
    var c := Compress(h, data, deflate);
    if password == "" then c
    else if Drained(rev, data, deflate) then Seal(c.(payload := []), pw, salt)
    else Seal(c, pw, salt)
  }

  /** Source bytes, and their deflation, small enough that every length and
      offset packTo computes from them fits a Java int. */
  predicate Modest(data: seq<byte>, deflate: seq<byte> -> seq<byte>)
  {
    |data| + CryptoStreams.HEADER_LEN < 0x8000_0000 && |deflate(data)| + CryptoStreams.HEADER_LEN < 0x8000_0000
  }

  /** For modest data, the compressed size field is the payload's length;
      the header keeps its signature, offset, name, extra field, comment and
      time; and the payload is, without a password, the source or its
      deflation as the method field says, and with one, the encryption
      under the password of a 12-byte header ending in the time check
      followed by that, except that a drained libzip stream leaves nothing
      behind the header. */
  lemma StageFits(rev: Revision, h: Header, data: seq<byte>, password: string, pw: seq<byte>,
                  deflate: seq<byte> -> seq<byte>, salt: Salt)
    requires Modest(data, deflate)
    ensures var s := StageOf(rev, h, data, password, pw, deflate, salt);
      var c := Compress(h, data, deflate);
      var plain := PKWare.Decrypt(PKWare.PKWARE, PKWare.Seeded(PKWare.PKWARE, pw), s.payload);
      && Signed32(s.header.compSize) == |s.payload| < 0x8000_0000
      && s.header == h.(crc := s.header.crc, compSize := s.header.compSize, uncompSize := s.header.uncompSize,
                        compMethod := s.header.compMethod, bitFlags := s.header.bitFlags)
      && s.header.crc == c.header.crc && s.header.uncompSize == c.header.uncompSize
      && s.header.compMethod == c.header.compMethod
      && (password == "" ==> s == c && s.header.bitFlags == h.bitFlags)
      && (password != "" ==>
            && |s.payload| >= CryptoStreams.HEADER_LEN
            && CryptoStreams.CheckByte(PKWare.PKWARE, pw, s.payload) == TimeCheck(s.header))
      && (password != "" && !Drained(rev, data, deflate) ==> plain[CryptoStreams.HEADER_LEN..] == c.payload)
      && (password != "" && Drained(rev, data, deflate) ==> plain[CryptoStreams.HEADER_LEN..] == [])
  {
    CompressChoice(h, data, deflate);
    if password != "" {
      var c := Compress(h, data, deflate);
      if Drained(rev, data, deflate) {
        SealOpens(c.(payload := []), pw, salt);
      } else {
        SealOpens(c, pw, salt);
      }
    }
  }

  /** As written, libzip's packTo loses a file it encrypts without
      compressing: for a non-empty source whose deflation is not shorter,
      the entry says the file has the source's length and CRC and stores
      12 bytes, which decrypt to the check header and nothing more; the
      newest packer stores the 12 bytes and the whole source behind them. */
  lemma LibzipSealDropsData(h: Header, data: seq<byte>, password: string, pw: seq<byte>,
                            deflate: seq<byte> -> seq<byte>, salt: Salt)
    requires Modest(data, deflate) && 0 < |data| <= |deflate(data)| && password != ""
    ensures var s := StageOf(Libzip, h, data, password, pw, deflate, salt);
      && Signed32(s.header.compSize) == |s.payload| == CryptoStreams.HEADER_LEN
      && Signed32(s.header.uncompSize) == |data| && s.header.crc == PKWare.CrcOf(data)
      && PKWare.Decrypt(PKWare.PKWARE, PKWare.Seeded(PKWare.PKWARE, pw), s.payload)[CryptoStreams.HEADER_LEN..] == []
    ensures var n := StageOf(Newest, h, data, password, pw, deflate, salt);
      && Signed32(n.header.compSize) == |n.payload| == CryptoStreams.HEADER_LEN + |data|
      && PKWare.Decrypt(PKWare.PKWARE, PKWare.Seeded(PKWare.PKWARE, pw), n.payload)[CryptoStreams.HEADER_LEN..] == data
  {
    SmallU32(|data|);
    SmallU32(|deflate(data)|);
    assert Drained(Libzip, data, deflate) && !Drained(Newest, data, deflate);
    CompressChoice(h, data, deflate);
    var c := Compress(h, data, deflate);
    SealOpens(c.(payload := []), pw, salt);
    SealOpens(c, pw, salt);
  }

  /** What one pass of the first loop leaves: the entry's header as updated,
      and the bytes written or the error writeTo threw. */
  datatype Packed = Packed(header: Header, written: Result<seq<byte>>)

  /** One pass of the first loop for an entry at the given stream offset:
      the header is signed local and given the offset; a folder writes its
      header alone; a file goes through StageOf,
      then its header is written, followed by its payload when the
      compressed size is positive as an int. */
  function PackEntry(rev: Revision, info: EntryInfo, offset: int, password: string, pw: seq<byte>, fs: FileSystem,
                     deflate: seq<byte> -> seq<byte>, salt: Salt): Packed
  {
    var h := info.header.(sign := LOCAL_MAGIC, localOffset := ToU32(offset));
    if info.path == "" then Packed(h, Write(h, false))
    else
      var s := StageOf(rev, h, fs.contents(info.path), password, pw, deflate, salt);
      var head := Write(s.header, false);
      if head.Err? then Packed(s.header, head)
      else Packed(s.header, Ok(head.value + (if Signed32(s.header.compSize) > 0 then s.payload else [])))
  }

  /** How far streamOffset moves past an entry: the header's byteSize, then
      for a file its compressed size when that is positive, each an int sum. */
  function Advance(offset: int, info: EntryInfo, h: Header): int
  {
    var o := Reader.IntAdd(offset, ByteSize(h, false));
    if info.path != "" && Signed32(h.compSize) > 0 then Reader.IntAdd(o, Signed32(h.compSize)) else o
  }

  /** A loop over the first entries: the list with their headers updated,
      the bytes written, the int the loop sums, and how it ended. */
  datatype Run = Run(list: seq<EntryInfo>, bytes: seq<byte>, total: int, outcome: Outcome)

  /** The same entries, in the same order, with other headers. */
  predicate SameEntries(a: seq<EntryInfo>, b: seq<EntryInfo>)
  {
    |a| == |b| && forall k :: 0 <= k < |a| ==> a[k].name == b[k].name && a[k].path == b[k].path
  }

  /** The first loop over the first n entries; the entry k draws its random
      encryption header from tools.salt(k). A failure ends the loop with the
      failing entry's header already updated. */
  function LocalRun(rev: Revision, list: seq<EntryInfo>, n: nat, password: string, pw: seq<byte>, fs: FileSystem,
                    tools: Tools): (r: Run)
    requires n <= |list|
    ensures SameEntries(list, r.list) && r.list[n..] == list[n..]
    decreases n, 2
  {
    if n == 0 then Run(list, [], 0, Pass) else LocalNext(rev, list, n, password, pw, fs, tools)
  }

  /** A pass-through that keeps the pass itself two calls away from
      LocalRun, so that a proof about the loop does not unfold the header
      writer unless it asks for the pass. */
  function LocalNext(rev: Revision, list: seq<EntryInfo>, n: nat, password: string, pw: seq<byte>, fs: FileSystem,
                     tools: Tools): (r: Run)
    requires 0 < n <= |list|
    ensures SameEntries(list, r.list) && r.list[n..] == list[n..]
    decreases n, 1
  {
    LocalStep(rev, list, n, password, pw, fs, tools)
  }

  /** The pass over entry n - 1, after the loop over the entries before it. */
  function LocalStep(rev: Revision, list: seq<EntryInfo>, n: nat, password: string, pw: seq<byte>, fs: FileSystem,
                     tools: Tools): (r: Run)
    requires 0 < n <= |list|
    ensures SameEntries(list, r.list) && r.list[n..] == list[n..]
    decreases n, 0
  {
    var r := LocalRun(rev, list, n - 1, password, pw, fs, tools);
    if r.outcome.Fail? then r
    else
      var info := r.list[n - 1];
      var p := PackEntry(rev, info, r.total, password, pw, fs, tools.deflate, tools.salt(n - 1));
      var list' := r.list[n - 1 := info.(header := p.header)];
      if p.written.Err? then Run(list', r.bytes, r.total, Fail(p.written.error))
      else Run(list', r.bytes + p.written.value, Advance(r.total, info, p.header), Pass)
  }

  /** The second loop over the first n entries: each header signed central
      and written; the total is dirSize. */
  function CentralRun(list: seq<EntryInfo>, n: nat): (r: Run)
    requires n <= |list|
    ensures SameEntries(list, r.list) && r.list[n..] == list[n..]
    decreases n, 2
  {
    if n == 0 then Run(list, [], 0, Pass) else CentralNext(list, n)
  }

  function CentralNext(list: seq<EntryInfo>, n: nat): (r: Run)
    requires 0 < n <= |list|
    ensures SameEntries(list, r.list) && r.list[n..] == list[n..]
    decreases n, 1
  {
    CentralStep(list, n)
  }

  function CentralStep(list: seq<EntryInfo>, n: nat): (r: Run)
    requires 0 < n <= |list|
    ensures SameEntries(list, r.list) && r.list[n..] == list[n..]
    decreases n, 0
  {
    var r := CentralRun(list, n - 1);
    if r.outcome.Fail? then r
    else
      var h := r.list[n - 1].header.(sign := CENTRAL_MAGIC);
      var list' := r.list[n - 1 := r.list[n - 1].(header := h)];
      var w := Write(h, true);
      if w.Err? then Run(list', r.bytes, r.total, Fail(w.error))
      else Run(list', r.bytes + w.value, Reader.IntAdd(r.total, ByteSize(h, true)), Pass)
  }

  /** A loop that got through n entries got through n - 1, and extends its
      bytes and its headers. */
  predicate Extended(c: Run, b: Run, n: nat)
    requires 0 < n <= |c.list| && |c.list| == |b.list|
  {
    c.outcome.Pass? && |c.bytes| <= |b.bytes| && b.bytes[..|c.bytes|] == c.bytes && b.list[..n - 1] == c.list[..n - 1]
  }

  lemma LocalStepExtends(rev: Revision, list: seq<EntryInfo>, n: nat, password: string, pw: seq<byte>, fs: FileSystem,
                         tools: Tools)
    requires 0 < n <= |list| && LocalRun(rev, list, n, password, pw, fs, tools).outcome.Pass?
    ensures Extended(LocalRun(rev, list, n - 1, password, pw, fs, tools), LocalRun(rev, list, n, password, pw, fs, tools), n)
  {
    assert LocalRun(rev, list, n, password, pw, fs, tools) == LocalStep(rev, list, n, password, pw, fs, tools);
  }

  /** The pass itself, for a loop that got through entry n - 1. */
  lemma LocalStepOf(rev: Revision, list: seq<EntryInfo>, n: nat, password: string, pw: seq<byte>, fs: FileSystem,
                    tools: Tools)
    requires 0 < n <= |list| && LocalRun(rev, list, n, password, pw, fs, tools).outcome.Pass?
    ensures var c := LocalRun(rev, list, n - 1, password, pw, fs, tools);
      var p := PackEntry(rev, list[n - 1], c.total, password, pw, fs, tools.deflate, tools.salt(n - 1));
      && c.outcome.Pass? && c.list[n - 1] == list[n - 1] && p.written.Ok?
      && LocalRun(rev, list, n, password, pw, fs, tools)
         == Run(c.list[n - 1 := list[n - 1].(header := p.header)], c.bytes + p.written.value,
                Advance(c.total, list[n - 1], p.header), Pass)
  {
    assert LocalRun(rev, list, n, password, pw, fs, tools) == LocalStep(rev, list, n, password, pw, fs, tools);
  }

  /** The same, for the pass over entry k. */
  lemma LocalStepAt(rev: Revision, list: seq<EntryInfo>, k: nat, password: string, pw: seq<byte>, fs: FileSystem,
                    tools: Tools)
    requires k < |list| && LocalRun(rev, list, k + 1, password, pw, fs, tools).outcome.Pass?
    ensures var c := LocalRun(rev, list, k, password, pw, fs, tools);
      var p := PackEntry(rev, list[k], c.total, password, pw, fs, tools.deflate, tools.salt(k));
      && c.outcome.Pass? && c.list[k] == list[k] && p.written.Ok?
      && LocalRun(rev, list, k + 1, password, pw, fs, tools)
         == Run(c.list[k := list[k].(header := p.header)], c.bytes + p.written.value,
                Advance(c.total, list[k], p.header), Pass)
  {
    LocalStepOf(rev, list, k + 1, password, pw, fs, tools);
  }

  lemma CentralStepExtends(list: seq<EntryInfo>, n: nat)
    requires 0 < n <= |list| && CentralRun(list, n).outcome.Pass?
    ensures Extended(CentralRun(list, n - 1), CentralRun(list, n), n)
  {
    assert CentralRun(list, n) == CentralStep(list, n);
  }

  /** The end record packTo builds: a new record after setEntryCount,
      setDirRange and setComment. */
  function EndRecord(count: int, offset: int, size: int, comment: seq<byte>): Eocd.Record
  {
    Eocd.SetCommentBytes(Eocd.NEW_RECORD.(entryNum := ToU16(count), diskEntryNum := ToU16(count),
                                          dirOffset := ToU32(offset), dirSize := ToU32(size)), comment)
  }

  /** The end record class each packer uses: the newest one, or the util one
      of libzip, which validates before writing. */
  function EndRevision(rev: Revision): Eocd.Revision
  {
    if rev == Newest then Eocd.Newest else Eocd.Validating
  }

  /** `new byte[dirEnd.byteSize()]`, writeTo into it, then the whole array:
      a negative size, a failed check or an overflowing put is an error and
      nothing is written; otherwise the puts, then the array's untouched
      zeros. */
  function EndBytes(rev: Revision, e: Eocd.Record): (r: Result<seq<byte>>)
    ensures r.Ok? ==> |r.value| == Eocd.RevByteSize(e, EndRevision(rev))
    ensures rev == Newest && r.Err? ==> r.error == BufferOverflow
  {
    var room := Eocd.RevByteSize(e, EndRevision(rev));
    if room < 0 then Err(NegativeLength)
    else
      var plan :- Eocd.WritePlan(e, room, EndRevision(rev));
      var w := Eocd.PutAll(plan, room);
      if !w.complete then Err(BufferOverflow)
      else Ok(w.bytes + seq(room - |w.bytes|, _ => 0))
  }

  /** How packTo ends: it returns its boolean, or an exception it does not
      catch reaches its caller. */
  datatype Verdict = Returned(ok: bool) | Threw(error: Error)

  /** Whether packTo catches an error. The newest packer catches
      GsZipException, which every check raises, but not the
      BufferOverflowException of a put. libzip catches only IOException: its
      util records raise their checks with Preconditions.checkState, an
      IllegalStateException, a negative end record size is a
      NegativeArraySizeException and an overflowing put a
      BufferOverflowException, so every error escapes. */
  predicate Caught(rev: Revision, e: Error)
  {
    rev == Newest && e != BufferOverflow
  }

  /** The end of packTo on an error: false when it is caught, the error
      itself when it escapes. */
  function Stopped(rev: Revision, e: Error): Verdict
  {
    if Caught(rev, e) then Returned(false) else Threw(e)
  }

  /** What packTo leaves: the entries with their headers as the loops left
      them, the bytes the stream received, and how it ended. */
  datatype Output = Output(list: seq<EntryInfo>, bytes: seq<byte>, verdict: Verdict)

  /** packTo(stream, password): the first loop, the second loop, then the
      end record with the entry count, the directory's offset and size, and
      the comment. The newest packer lets only a BufferOverflowException
      escape, and libzip, whose only catch is for IOException, never
      returns false here. */
  function Pack(rev: Revision, list: seq<EntryInfo>, password: string, charset: Charset, comment: string,
                fs: FileSystem, tools: Tools): (r: Output)
    ensures rev == Newest && r.verdict.Threw? ==> r.verdict.error == BufferOverflow
    ensures rev == Libzip ==> r.verdict != Returned(false)
  {
    var local := LocalRun(rev, list, |list|, password, TextBytes(rev, charset, password), fs, tools);
    if local.outcome.Fail? then Output(local.list, local.bytes, Stopped(rev, local.outcome.error))
    else
      var central := CentralRun(local.list, |list|);
      if central.outcome.Fail? then Output(central.list, local.bytes + central.bytes, Stopped(rev, central.outcome.error))
      else
        var e := EndRecord(|list|, local.total, central.total, TextBytes(rev, charset, comment));
        var end := EndBytes(rev, e);
        if end.Err? then Output(central.list, local.bytes + central.bytes, Stopped(rev, end.error))
        else Output(central.list, local.bytes + central.bytes + end.value, Returned(true))
  }

  // ---------------------------------------------------------------------------
  // The layout of the output
  // ---------------------------------------------------------------------------

  /** The headers as the queue builds them: consistent lengths and no comment. */
  predicate Shaped(list: seq<EntryInfo>)
  {
    forall k :: 0 <= k < |list| ==> Consistent(list[k].header) && list[k].header.commentLen == 0
  }

  /** Every source file of the list is modest. */
  predicate Sources(list: seq<EntryInfo>, fs: FileSystem, deflate: seq<byte> -> seq<byte>)
  {
    forall k :: 0 <= k < |list| && list[k].path != "" ==> Modest(fs.contents(list[k].path), deflate)
  }

  /** One pass writes the local header, byteSize bytes, then for a file
      its compressed size's worth; the header keeps its shape, is signed
      local and records the offset the pass started at. */
  lemma PackEntryLayout(rev: Revision, info: EntryInfo, offset: int, password: string, pw: seq<byte>, fs: FileSystem,
                        deflate: seq<byte> -> seq<byte>, salt: Salt)
    requires Consistent(info.header) && info.header.commentLen == 0
    requires info.path != "" ==> Modest(fs.contents(info.path), deflate)
    requires PackEntry(rev, info, offset, password, pw, fs, deflate, salt).written.Ok?
    ensures var p := PackEntry(rev, info, offset, password, pw, fs, deflate, salt);
      && Consistent(p.header) && p.header.commentLen == 0 && p.header.sign == LOCAL_MAGIC
      && p.header.localOffset == ToU32(offset)
      && Write(p.header, false).Ok? && |Write(p.header, false).value| == ByteSize(p.header, false)
      && p.written.value == Write(p.header, false).value + p.written.value[ByteSize(p.header, false)..]
      && |p.written.value| == ByteSize(p.header, false) + (if info.path == "" then 0 else Signed32(p.header.compSize))
  {
    var p := PackEntry(rev, info, offset, password, pw, fs, deflate, salt);
    var h := info.header.(sign := LOCAL_MAGIC, localOffset := ToU32(offset));
    if info.path != "" {
      StageFits(rev, h, fs.contents(info.path), password, pw, deflate, salt);
    }
    WriteSize(p.header, false);
    var w := Write(p.header, false).value;
    assert p.written.value == w + p.written.value[|w|..];
  }

  /** While the bytes stay under 2 GiB, the offset the header records reads
      back as the offset the pass started at, and streamOffset moves by what
      was written. */
  lemma PackEntryAdvance(rev: Revision, info: EntryInfo, offset: int, password: string, pw: seq<byte>, fs: FileSystem,
                         deflate: seq<byte> -> seq<byte>, salt: Salt)
    requires Consistent(info.header) && info.header.commentLen == 0
    requires info.path != "" ==> Modest(fs.contents(info.path), deflate)
    requires PackEntry(rev, info, offset, password, pw, fs, deflate, salt).written.Ok?
    requires 0 <= offset && offset + |PackEntry(rev, info, offset, password, pw, fs, deflate, salt).written.value| < 0x8000_0000
    ensures var p := PackEntry(rev, info, offset, password, pw, fs, deflate, salt);
      && Signed32(p.header.localOffset) == offset
      && Advance(offset, info, p.header) == offset + |p.written.value|
  {
    PackEntryLayout(rev, info, offset, password, pw, fs, deflate, salt);
    SmallU32(offset);
  }

  /** What one pass appends after earlier bytes: the header as writeTo
      writes it, then the rest. */
  lemma PackEntryBytes(rev: Revision, info: EntryInfo, offset: int, password: string, pw: seq<byte>, fs: FileSystem,
                       deflate: seq<byte> -> seq<byte>, salt: Salt, before: seq<byte>)
    requires Consistent(info.header) && info.header.commentLen == 0
    requires info.path != "" ==> Modest(fs.contents(info.path), deflate)
    requires PackEntry(rev, info, offset, password, pw, fs, deflate, salt).written.Ok?
    ensures var p := PackEntry(rev, info, offset, password, pw, fs, deflate, salt);
      var b := before + p.written.value;
      && Write(p.header, false).Ok? && |before| + ByteSize(p.header, false) <= |b|
      && |b| == |before| + ByteSize(p.header, false) + (if info.path == "" then 0 else Signed32(p.header.compSize))
      && b == before + Write(p.header, false).value + b[|before| + ByteSize(p.header, false)..]
  {
    var p := PackEntry(rev, info, offset, password, pw, fs, deflate, salt);
    PackEntryLayout(rev, info, offset, password, pw, fs, deflate, salt);
    var w := Write(p.header, false).value;
    Prefixed(before, w, p.written.value);
  }

  /** Bytes that begin with w, appended after others, hold w right after
      those others. */
  lemma Prefixed(before: seq<byte>, w: seq<byte>, s: seq<byte>)
    requires |w| <= |s| && s == w + s[|w|..]
    ensures before + s == before + w + (before + s)[|before| + |w|..]
  {
    assert (before + s)[|before| + |w|..] == s[|w|..];
  }

  /** For a file, what one pass writes after the header is the payload of
      the file's stage. */
  lemma PackEntryPayload(rev: Revision, info: EntryInfo, offset: int, password: string, pw: seq<byte>, fs: FileSystem,
                         deflate: seq<byte> -> seq<byte>, salt: Salt, before: seq<byte>)
    requires Consistent(info.header) && info.header.commentLen == 0
    requires info.path != "" && Modest(fs.contents(info.path), deflate)
    requires PackEntry(rev, info, offset, password, pw, fs, deflate, salt).written.Ok?
    ensures var p := PackEntry(rev, info, offset, password, pw, fs, deflate, salt);
      && 0 <= ByteSize(p.header, false) <= |p.written.value|
      && (before + p.written.value)[|before| + ByteSize(p.header, false)..]
         == StageOf(rev, info.header.(sign := LOCAL_MAGIC, localOffset := ToU32(offset)),
                    fs.contents(info.path), password, pw, deflate, salt).payload
  {
    var p := PackEntry(rev, info, offset, password, pw, fs, deflate, salt);
    StageFits(rev, info.header.(sign := LOCAL_MAGIC, localOffset := ToU32(offset)), fs.contents(info.path),
              password, pw, deflate, salt);
    WriteSize(p.header, false);
    var w := Write(p.header, false).value;
    assert p.written.value[|w|..] == StageOf(rev, info.header.(sign := LOCAL_MAGIC, localOffset := ToU32(offset)),
                    fs.contents(info.path), password, pw, deflate, salt).payload;
    DropAfter(before, p.written.value, |w|);
  }

  /** A run that gets through n entries got through every shorter prefix,
      whose bytes it extends and whose headers it keeps. */
  lemma {:induction false} LocalRunKeeps(rev: Revision, list: seq<EntryInfo>, m: nat, n: nat, password: string, pw: seq<byte>,
                                         fs: FileSystem, tools: Tools)
    requires m <= n <= |list| && LocalRun(rev, list, n, password, pw, fs, tools).outcome.Pass?
    ensures var a := LocalRun(rev, list, m, password, pw, fs, tools);
      var b := LocalRun(rev, list, n, password, pw, fs, tools);
      && a.outcome.Pass? && |a.bytes| <= |b.bytes| && b.bytes[..|a.bytes|] == a.bytes
      && b.list[..m] == a.list[..m]
    decreases n
  {
    if m < n {
      LocalStepExtends(rev, list, n, password, pw, fs, tools);
      LocalRunKeeps(rev, list, m, n - 1, password, pw, fs, tools);
      var a := LocalRun(rev, list, m, password, pw, fs, tools);
      var c := LocalRun(rev, list, n - 1, password, pw, fs, tools);
      var b := LocalRun(rev, list, n, password, pw, fs, tools);
      assert b.bytes[..|a.bytes|] == c.bytes[..|a.bytes|];
      assert b.list[..m] == c.list[..m];
    }
  }

  /** A first loop that stopped at an entry stays stopped: later passes
      change nothing. */
  lemma {:induction false} LocalFailStays(rev: Revision, list: seq<EntryInfo>, m: nat, n: nat, password: string, pw: seq<byte>,
                                          fs: FileSystem, tools: Tools)
    requires m <= n <= |list| && LocalRun(rev, list, m, password, pw, fs, tools).outcome.Fail?
    ensures LocalRun(rev, list, n, password, pw, fs, tools) == LocalRun(rev, list, m, password, pw, fs, tools)
    decreases n
  {
    if m < n {
      LocalFailStays(rev, list, m, n - 1, password, pw, fs, tools);
      assert LocalRun(rev, list, n, password, pw, fs, tools) == LocalStep(rev, list, n, password, pw, fs, tools);
    }
  }

  /** The pass over entry n - 1 of the first loop, whatever its outcome. */
  lemma LocalRunUnfolds(rev: Revision, list: seq<EntryInfo>, n: nat, password: string, pw: seq<byte>, fs: FileSystem,
                        tools: Tools)
    requires 0 < n <= |list|
    ensures LocalRun(rev, list, n, password, pw, fs, tools) == LocalStep(rev, list, n, password, pw, fs, tools)
  {
  }

  /** While the output stays under 2 GiB, streamOffset is the number of
      bytes written so far, and the headers keep their shape. */
  lemma {:induction false} LocalRunOffset(rev: Revision, list: seq<EntryInfo>, n: nat, password: string, pw: seq<byte>,
                                          fs: FileSystem, tools: Tools)
    requires n <= |list| && Shaped(list) && Sources(list, fs, tools.deflate)
    requires LocalRun(rev, list, n, password, pw, fs, tools).outcome.Pass?
    requires |LocalRun(rev, list, n, password, pw, fs, tools).bytes| < 0x8000_0000
    ensures LocalRun(rev, list, n, password, pw, fs, tools).total == |LocalRun(rev, list, n, password, pw, fs, tools).bytes|
    ensures Shaped(LocalRun(rev, list, n, password, pw, fs, tools).list)
    decreases n
  {
    if n > 0 {
      var r := LocalRun(rev, list, n - 1, password, pw, fs, tools);
      LocalStepOf(rev, list, n, password, pw, fs, tools);
      LocalRunOffset(rev, list, n - 1, password, pw, fs, tools);
      PackEntryLayout(rev, list[n - 1], r.total, password, pw, fs, tools.deflate, tools.salt(n - 1));
      PackEntryAdvance(rev, list[n - 1], r.total, password, pw, fs, tools.deflate, tools.salt(n - 1));
    }
  }

  /** The pass over entry k starts where the bytes before it end, and
      leaves a header that records that offset and writes as byteSize
      bytes. */
  lemma PassHeader(rev: Revision, list: seq<EntryInfo>, k: nat, password: string, pw: seq<byte>, fs: FileSystem,
                   tools: Tools, h: Header)
    requires k < |list| && Shaped(list) && Sources(list, fs, tools.deflate)
    requires LocalRun(rev, list, k + 1, password, pw, fs, tools).outcome.Pass?
    requires |LocalRun(rev, list, k + 1, password, pw, fs, tools).bytes| < 0x8000_0000
    requires h == LocalRun(rev, list, k + 1, password, pw, fs, tools).list[k].header
    ensures var c := LocalRun(rev, list, k, password, pw, fs, tools);
      && c.outcome.Pass? && c.total == |c.bytes|
      && Consistent(h) && h.commentLen == 0 && h.sign == LOCAL_MAGIC
      && h.localOffset == ToU32(c.total) && Signed32(h.localOffset) == |c.bytes|
      && Write(h, false).Ok? && |Write(h, false).value| == ByteSize(h, false)
  {
    var c := LocalRun(rev, list, k, password, pw, fs, tools);
    LocalStepAt(rev, list, k, password, pw, fs, tools);
    LocalRunOffset(rev, list, k, password, pw, fs, tools);
    PackEntryLayout(rev, list[k], c.total, password, pw, fs, tools.deflate, tools.salt(k));
    PackEntryAdvance(rev, list[k], c.total, password, pw, fs, tools.deflate, tools.salt(k));
  }

  /** The offset the k-th header records is where the bytes before it end. */
  lemma PassOffset(rev: Revision, list: seq<EntryInfo>, k: nat, password: string, pw: seq<byte>, fs: FileSystem,
                   tools: Tools, h: Header)
    requires k < |list| && Shaped(list) && Sources(list, fs, tools.deflate)
    requires LocalRun(rev, list, k + 1, password, pw, fs, tools).outcome.Pass?
    requires |LocalRun(rev, list, k + 1, password, pw, fs, tools).bytes| < 0x8000_0000
    requires h == LocalRun(rev, list, k + 1, password, pw, fs, tools).list[k].header
    ensures Signed32(h.localOffset) == |LocalRun(rev, list, k, password, pw, fs, tools).bytes|
  {
    PassHeader(rev, list, k, password, pw, fs, tools, h);
  }

  /** The pass over entry k as it lies in the bytes: its local header, then
      for a file as many bytes as the compressed size says. */
  lemma PassLayout(rev: Revision, list: seq<EntryInfo>, k: nat, password: string, pw: seq<byte>, fs: FileSystem,
                   tools: Tools)
    requires k < |list| && Shaped(list) && Sources(list, fs, tools.deflate)
    requires LocalRun(rev, list, k + 1, password, pw, fs, tools).outcome.Pass?
    ensures var c := LocalRun(rev, list, k, password, pw, fs, tools);
      var b := LocalRun(rev, list, k + 1, password, pw, fs, tools);
      var h := b.list[k].header;
      && Write(h, false).Ok? && |c.bytes| + |Write(h, false).value| <= |b.bytes|
      && b.bytes == c.bytes + Write(h, false).value + b.bytes[|c.bytes| + |Write(h, false).value|..]
  {
    var c := LocalRun(rev, list, k, password, pw, fs, tools);
    LocalStepAt(rev, list, k, password, pw, fs, tools);
    PackEntryBytes(rev, list[k], c.total, password, pw, fs, tools.deflate, tools.salt(k), c.bytes);
  }

  /** The pass over entry k writes byteSize bytes, plus for a file the
      compressed size. */
  lemma PassLength(rev: Revision, list: seq<EntryInfo>, k: nat, password: string, pw: seq<byte>, fs: FileSystem,
                   tools: Tools, h: Header)
    requires k < |list| && Shaped(list) && Sources(list, fs, tools.deflate)
    requires LocalRun(rev, list, k + 1, password, pw, fs, tools).outcome.Pass?
    requires h == LocalRun(rev, list, k + 1, password, pw, fs, tools).list[k].header
    ensures var c := LocalRun(rev, list, k, password, pw, fs, tools);
      var b := LocalRun(rev, list, k + 1, password, pw, fs, tools);
      && 0 <= ByteSize(h, false) && |c.bytes| + ByteSize(h, false) <= |b.bytes|
      && |b.bytes| == |c.bytes| + ByteSize(h, false) + (if list[k].path == "" then 0 else Signed32(h.compSize))
  {
    var c := LocalRun(rev, list, k, password, pw, fs, tools);
    LocalStepAt(rev, list, k, password, pw, fs, tools);
    PackEntryLayout(rev, list[k], c.total, password, pw, fs, tools.deflate, tools.salt(k));
    PackEntryBytes(rev, list[k], c.total, password, pw, fs, tools.deflate, tools.salt(k), c.bytes);
  }

  /** For a file, the bytes after the local header of the pass over entry
      k are its payload: the source or its deflation, encrypted when there
      is a password. */
  lemma PassData(rev: Revision, list: seq<EntryInfo>, k: nat, password: string, pw: seq<byte>, fs: FileSystem,
                 tools: Tools, h: Header)
    requires k < |list| && Shaped(list) && Sources(list, fs, tools.deflate) && list[k].path != ""
    requires LocalRun(rev, list, k + 1, password, pw, fs, tools).outcome.Pass?
    requires h == LocalRun(rev, list, k + 1, password, pw, fs, tools).list[k].header
    ensures var c := LocalRun(rev, list, k, password, pw, fs, tools);
      var b := LocalRun(rev, list, k + 1, password, pw, fs, tools);
      && 0 <= ByteSize(h, false) && |c.bytes| + ByteSize(h, false) <= |b.bytes|
      && b.bytes[|c.bytes| + ByteSize(h, false)..]
         == StageOf(rev, list[k].header.(sign := LOCAL_MAGIC, localOffset := h.localOffset),
                    fs.contents(list[k].path), password, pw, tools.deflate, tools.salt(k)).payload
  {
    var c := LocalRun(rev, list, k, password, pw, fs, tools);
    LocalStepAt(rev, list, k, password, pw, fs, tools);
    PackEntryLayout(rev, list[k], c.total, password, pw, fs, tools.deflate, tools.salt(k));
    PackEntryPayload(rev, list[k], c.total, password, pw, fs, tools.deflate, tools.salt(k), c.bytes);
  }

  /** Dropping past a prefix drops within what follows it. */
  lemma DropAfter(c: seq<byte>, w: seq<byte>, k: int)
    requires 0 <= k <= |w|
    ensures (c + w)[|c| + k..] == w[k..]
  {
  }

  /** What follows offset d in b, which reappears in r from offset at on,
      lies in r after d. */
  lemma SliceChain(r: seq<byte>, b: seq<byte>, at: nat, d: nat)
    requires at <= d <= |b| <= |r| && r[at..|b|] == b[at..]
    ensures r[d..|b|] == b[d..]
  {
    assert r[d..|b|] == r[at..|b|][d - at..];
  }

  /** Bytes c + w + more that reappear in r from offset |c| on leave w at
      that offset of r. */
  lemma Spliced(r: seq<byte>, b: seq<byte>, c: seq<byte>, w: seq<byte>)
    requires |c| + |w| <= |b| <= |r| && r[|c|..|b|] == b[|c|..] && b == c + w + b[|c| + |w|..]
    ensures r[|c|..] == w + (b[|c| + |w|..] + r[|b|..])
  {
    assert r[|c|..] == r[|c|..|b|] + r[|b|..];
  }

  /** The bytes of the k-th pass lie in the output at the offset the loop
      had reached, and the k-th header in the list is the one it left. */
  lemma PassAt(rev: Revision, list: seq<EntryInfo>, n: nat, k: nat, password: string, pw: seq<byte>,
               fs: FileSystem, tools: Tools)
    requires k < n <= |list| && LocalRun(rev, list, n, password, pw, fs, tools).outcome.Pass?
    ensures var r := LocalRun(rev, list, n, password, pw, fs, tools);
      var a := LocalRun(rev, list, k, password, pw, fs, tools);
      var b := LocalRun(rev, list, k + 1, password, pw, fs, tools);
      && b.outcome.Pass? && |a.bytes| <= |b.bytes| <= |r.bytes| && r.list[k] == b.list[k]
      && r.bytes[|a.bytes|..|b.bytes|] == b.bytes[|a.bytes|..]
  {
    var r := LocalRun(rev, list, n, password, pw, fs, tools);
    LocalRunKeeps(rev, list, k + 1, n, password, pw, fs, tools);
    LocalStepExtends(rev, list, k + 1, password, pw, fs, tools);
    assert r.list[k] == r.list[..k + 1][k];
  }

  /** Where the k-th local header lies: at the offset its header records,
      which is the length of what the entries before it wrote; it reads back
      there as written. */
  lemma LocalHeaderAt(rev: Revision, list: seq<EntryInfo>, n: nat, k: nat, password: string, pw: seq<byte>,
                      fs: FileSystem, tools: Tools)
    requires k < n <= |list| && Shaped(list) && Sources(list, fs, tools.deflate)
    requires LocalRun(rev, list, n, password, pw, fs, tools).outcome.Pass?
    requires |LocalRun(rev, list, n, password, pw, fs, tools).bytes| < 0x8000_0000
    ensures var r := LocalRun(rev, list, n, password, pw, fs, tools);
      var h := r.list[k].header;
      var at := Signed32(h.localOffset);
      && at == |LocalRun(rev, list, k, password, pw, fs, tools).bytes| <= |r.bytes|
      && Write(h, false).Ok? && Parse(r.bytes[at..], false) == Ok(View(h, false))
  {
    var r := LocalRun(rev, list, n, password, pw, fs, tools);
    var b := LocalRun(rev, list, k + 1, password, pw, fs, tools);
    var at := |LocalRun(rev, list, k, password, pw, fs, tools).bytes|;
    PassAt(rev, list, n, k, password, pw, fs, tools);
    PassHeader(rev, list, k, password, pw, fs, tools, b.list[k].header);
    PassLayout(rev, list, k, password, pw, fs, tools);
    LocalParsesBehind(r.bytes, b.bytes, LocalRun(rev, list, k, password, pw, fs, tools).bytes, b.list[k].header);
  }

  /** A local header written after bytes c, in bytes b that reappear in r
      from that offset on, reads back in r there. */
  lemma LocalParsesBehind(r: seq<byte>, b: seq<byte>, c: seq<byte>, h: Header)
    requires Consistent(h) && h.commentLen == 0 && Write(h, false).Ok?
    requires |c| + |Write(h, false).value| <= |b| <= |r| && r[|c|..|b|] == b[|c|..]
    requires b == c + Write(h, false).value + b[|c| + |Write(h, false).value|..]
    ensures Parse(r[|c|..], false) == Ok(View(h, false))
  {
    var w := Write(h, false).value;
    Spliced(r, b, c, w);
    WriteParse(h, false, b[|c| + |w|..] + r[|b|..]);
  }

  /** For a file, the compressed size's worth of bytes after its local
      header are its payload: the source or its deflation, encrypted when
      there is a password. */
  lemma LocalDataAt(rev: Revision, list: seq<EntryInfo>, n: nat, k: nat, password: string, pw: seq<byte>,
                    fs: FileSystem, tools: Tools)
    requires k < n <= |list| && Shaped(list) && Sources(list, fs, tools.deflate) && list[k].path != ""
    requires LocalRun(rev, list, n, password, pw, fs, tools).outcome.Pass?
    requires |LocalRun(rev, list, n, password, pw, fs, tools).bytes| < 0x8000_0000
    ensures var r := LocalRun(rev, list, n, password, pw, fs, tools);
      var h := r.list[k].header;
      var at := Signed32(h.localOffset);
      var data := at + ByteSize(h, false);
      && 0 <= at <= data <= data + Signed32(h.compSize) <= |r.bytes|
      && r.bytes[data..data + Signed32(h.compSize)]
         == StageOf(rev, list[k].header.(sign := LOCAL_MAGIC, localOffset := h.localOffset),
                    fs.contents(list[k].path), password, pw, tools.deflate, tools.salt(k)).payload
  {
    var r := LocalRun(rev, list, n, password, pw, fs, tools);
    var b := LocalRun(rev, list, k + 1, password, pw, fs, tools);
    var c := LocalRun(rev, list, k, password, pw, fs, tools);
    var h := r.list[k].header;
    var data := Signed32(h.localOffset) + ByteSize(h, false);
    LocalSliceAt(rev, list, n, k, password, pw, fs, tools);
    PassData(rev, list, k, password, pw, fs, tools, h);
    SameSlice(r.bytes[data..data + Signed32(h.compSize)], b.bytes[|c.bytes| + ByteSize(h, false)..],
              StageOf(rev, list[k].header.(sign := LOCAL_MAGIC, localOffset := h.localOffset),
                      fs.contents(list[k].path), password, pw, tools.deflate, tools.salt(k)).payload);
  }

  /** Two equalities in a row. */
  lemma SameSlice(x: seq<byte>, y: seq<byte>, p: seq<byte>)
    requires x == y && y == p
    ensures x == p
  {
  }

  /** For a file, the compressed size's worth of bytes after its local
      header are the bytes its own pass wrote after the header, and that pass
      left the header the list holds. */
  lemma LocalSliceAt(rev: Revision, list: seq<EntryInfo>, n: nat, k: nat, password: string, pw: seq<byte>,
                     fs: FileSystem, tools: Tools)
    requires k < n <= |list| && Shaped(list) && Sources(list, fs, tools.deflate) && list[k].path != ""
    requires LocalRun(rev, list, n, password, pw, fs, tools).outcome.Pass?
    requires |LocalRun(rev, list, n, password, pw, fs, tools).bytes| < 0x8000_0000
    ensures var r := LocalRun(rev, list, n, password, pw, fs, tools);
      var b := LocalRun(rev, list, k + 1, password, pw, fs, tools);
      var c := LocalRun(rev, list, k, password, pw, fs, tools);
      var h := r.list[k].header;
      var at := Signed32(h.localOffset);
      var data := at + ByteSize(h, false);
      && b.outcome.Pass? && at == |c.bytes| && b.list[k] == r.list[k]
      && 0 <= at <= data <= data + Signed32(h.compSize) <= |r.bytes|
      && |c.bytes| + ByteSize(h, false) <= |b.bytes|
      && r.bytes[data..data + Signed32(h.compSize)] == b.bytes[|c.bytes| + ByteSize(h, false)..]
  {
    var r := LocalRun(rev, list, n, password, pw, fs, tools);
    var b := LocalRun(rev, list, k + 1, password, pw, fs, tools);
    var c := LocalRun(rev, list, k, password, pw, fs, tools);
    var h := r.list[k].header;
    PassAt(rev, list, n, k, password, pw, fs, tools);
    PassOffset(rev, list, k, password, pw, fs, tools, h);
    PassLength(rev, list, k, password, pw, fs, tools, h);
    DataSlice(r.bytes, b.bytes, |c.bytes|, ByteSize(h, false), Signed32(h.compSize));
  }

  /** Bytes b that reappear in r from offset at on, and that end size bytes
      after a header of hs bytes, hold those bytes in r there too. */
  lemma DataSlice(r: seq<byte>, b: seq<byte>, at: nat, hs: nat, size: int)
    requires at + hs <= |b| <= |r| && r[at..|b|] == b[at..]
    requires |b| == at + hs + size
    ensures 0 <= size && at + hs + size <= |r| && r[at + hs..at + hs + size] == b[at + hs..]
  {
    SliceChain(r, b, at, at + hs);
  }

  // ---------------------------------------------------------------------------
  // The central directory the second loop writes
  // ---------------------------------------------------------------------------

  /** The central header of an entry: its header after the first loop,
      signed central. */
  function CentralOf(info: EntryInfo): Header
  {
    info.header.(sign := CENTRAL_MAGIC)
  }

  /** The pass itself, for a second loop that got through entry n - 1. */
  lemma CentralStepOf(list: seq<EntryInfo>, n: nat)
    requires 0 < n <= |list| && CentralRun(list, n).outcome.Pass?
    ensures var c := CentralRun(list, n - 1);
      var h := CentralOf(list[n - 1]);
      && c.outcome.Pass? && c.list[n - 1] == list[n - 1] && Write(h, true).Ok?
      && CentralRun(list, n)
         == Run(c.list[n - 1 := list[n - 1].(header := h)], c.bytes + Write(h, true).value,
                Reader.IntAdd(c.total, ByteSize(h, true)), Pass)
  {
    assert CentralRun(list, n) == CentralStep(list, n);
  }

  /** A second loop that gets through n entries got through every shorter
      prefix, whose bytes it extends and whose headers it keeps. */
  lemma {:induction false} CentralRunKeeps(list: seq<EntryInfo>, m: nat, n: nat)
    requires m <= n <= |list| && CentralRun(list, n).outcome.Pass?
    ensures var a := CentralRun(list, m);
      var b := CentralRun(list, n);
      && a.outcome.Pass? && |a.bytes| <= |b.bytes| && b.bytes[..|a.bytes|] == a.bytes
      && b.list[..m] == a.list[..m]
    decreases n
  {
    if m < n {
      CentralStepExtends(list, n);
      CentralRunKeeps(list, m, n - 1);
      var a := CentralRun(list, m);
      var c := CentralRun(list, n - 1);
      var b := CentralRun(list, n);
      assert b.bytes[..|a.bytes|] == c.bytes[..|a.bytes|];
      assert b.list[..m] == c.list[..m];
    }
  }

  /** A second loop that stopped at an entry stays stopped. */
  lemma {:induction false} CentralFailStays(list: seq<EntryInfo>, m: nat, n: nat)
    requires m <= n <= |list| && CentralRun(list, m).outcome.Fail?
    ensures CentralRun(list, n) == CentralRun(list, m)
    decreases n
  {
    if m < n {
      CentralFailStays(list, m, n - 1);
      assert CentralRun(list, n) == CentralStep(list, n);
    }
  }

  /** While the directory stays under 2 GiB, dirSize is the number of bytes
      the second loop wrote. */
  lemma {:induction false} CentralRunSize(list: seq<EntryInfo>, n: nat)
    requires n <= |list| && Shaped(list) && CentralRun(list, n).outcome.Pass?
    requires |CentralRun(list, n).bytes| < 0x8000_0000
    ensures CentralRun(list, n).total == |CentralRun(list, n).bytes|
    decreases n
  {
    if n > 0 {
      CentralStepOf(list, n);
      CentralRunSize(list, n - 1);
      WriteSize(CentralOf(list[n - 1]), true);
    }
  }

  /** The second loop leaves each entry's header signed central. */
  lemma CentralHeaderOf(list: seq<EntryInfo>, n: nat, k: nat)
    requires k < n <= |list| && CentralRun(list, n).outcome.Pass?
    ensures CentralRun(list, n).list[k].header == CentralOf(list[k])
  {
    var r := CentralRun(list, n);
    CentralRunKeeps(list, k + 1, n);
    CentralStepOf(list, k + 1);
    assert r.list[k] == r.list[..k + 1][k];
  }

  /** A central header written after bytes c reads back there, whatever
      follows it; x is those bytes from there on. */
  lemma CentralParsesBehind(r: seq<byte>, c: seq<byte>, h: Header, rest: seq<byte>, x: seq<byte>)
    requires Consistent(h) && Write(h, true).Ok?
    requires |c + Write(h, true).value| <= |r| && r[..|c + Write(h, true).value|] == c + Write(h, true).value
    requires x == r[|c|..] + rest
    ensures Parse(x, true) == Ok(h)
  {
    var w := Write(h, true).value;
    Behind(r, c, w, rest);
    WriteParse(h, true, r[|c| + |w|..] + rest);
  }

  /** Bytes that begin with c + w hold w after c, followed by the rest. */
  lemma Behind(r: seq<byte>, c: seq<byte>, w: seq<byte>, rest: seq<byte>)
    requires |c| + |w| <= |r| && r[..|c + w|] == c + w
    ensures r[|c|..] + rest == w + (r[|c| + |w|..] + rest)
  {
    assert r[|c|..] == r[|c|..|c| + |w|] + r[|c| + |w|..];
    assert r[|c|..|c| + |w|] == (c + w)[|c|..];
  }

  // ---------------------------------------------------------------------------
  // The end record and the whole output
  // ---------------------------------------------------------------------------

  /** For fewer than 32768 entries and a comment under 32768 bytes, the end
      record is valid and holds the count, the directory's range and the
      comment. */
  lemma EndRecordHolds(count: int, offset: int, size: int, comment: seq<byte>)
    requires 0 <= count < 0x8000 && |comment| < 0x8000
    ensures var e := EndRecord(count, offset, size, comment);
      && Eocd.Valid(e) && Eocd.CheckValid(e).Pass? && e.commentLen == ToU16(|comment|)
      && Eocd.EntryCount(e) == count && Eocd.DirOffset(e) == offset % 0x1_0000_0000
      && Eocd.DirSize(e) == size % 0x1_0000_0000 && e.comment == comment
  {
    SmallU16(|comment|);
    SmallU16(count);
    Eocd.BuiltRecordReadsBack(count, offset, size, comment, []);
  }

  /** Both revisions then write the record exactly, with no padding. */
  lemma EndBytesEncode(rev: Revision, count: int, offset: int, size: int, comment: seq<byte>)
    requires 0 <= count < 0x8000 && |comment| < 0x8000
    ensures EndBytes(rev, EndRecord(count, offset, size, comment)) == Ok(Eocd.Encode(EndRecord(count, offset, size, comment)))
  {
    var e := EndRecord(count, offset, size, comment);
    EndRecordHolds(count, offset, size, comment);
    var room := Eocd.BASE_SIZE + |comment|;
    if rev == Newest {
      Eocd.ByteSizeOfComment(e);
      Eocd.WriteThenRead(e, room);
    } else {
      SmallU16(|comment|);
      Eocd.UtilWriteFits(e, room);
    }
    assert Eocd.Encode(e) + seq(0, _ => 0) == Eocd.Encode(e);
  }

  /** The newest packer's end record write fails exactly when the comment
      has 65514 bytes or more: the masked byteSize then sizes the array below
      the record, the check against that same size passes, and the comment's
      put overflows. */
  lemma EndBytesNewest(count: int, offset: int, size: int, comment: seq<byte>)
    ensures var r := EndBytes(Newest, EndRecord(count, offset, size, comment));
      r.Err? <==> |comment| >= 0x1_0000 - Eocd.BASE_SIZE
  {
    var e := EndRecord(count, offset, size, comment);
    if |comment| < 0x1_0000 - Eocd.BASE_SIZE {
      Eocd.ByteSizeOfComment(e);
      Eocd.WriteThenRead(e, Eocd.ByteSize(e));
    } else {
      Eocd.WriteOverflows(e, Eocd.ByteSize(e));
    }
  }

  /** The libzip packer's end record write, for a comment the short length
      field holds: a comment of 32768 bytes or more makes byteSize negative,
      so the array cannot be allocated; otherwise checkValid refuses an entry
      count that is negative as a short; otherwise the record is written
      exactly. */
  lemma EndBytesLibzip(count: int, offset: int, size: int, comment: seq<byte>)
    requires |comment| < 0x1_0000 - Eocd.BASE_SIZE
    ensures var e := EndRecord(count, offset, size, comment);
      EndBytes(Libzip, e)
        == if 0x8000 <= |comment| then Err(NegativeLength)
           else if 0x8000 <= count % 0x1_0000 then Err(ErrorEntryNumber)
           else Ok(Eocd.Encode(e))
  {
    var e := EndRecord(count, offset, size, comment);
    ModOf(|comment|, 0x1_0000, 0, |comment|);
    if |comment| < 0x8000 && count % 0x1_0000 < 0x8000 {
      Eocd.UtilWriteFits(e, Eocd.BASE_SIZE + |comment|);
      assert Eocd.Encode(e) + seq(0, _ => 0) == Eocd.Encode(e);
    }
  }

  /** How packTo ends once both loops have passed: the newest packer returns
      true unless the comment has 65514 bytes or more, when the
      BufferOverflowException escapes; libzip throws on a comment of 32768
      bytes or more, then on 32768 to 65535 entries (modulo 65536), and
      otherwise returns true. */
  lemma PackEndVerdict(rev: Revision, list: seq<EntryInfo>, password: string, charset: Charset, comment: string,
                       fs: FileSystem, tools: Tools)
    requires var l := LocalRun(rev, list, |list|, password, TextBytes(rev, charset, password), fs, tools);
      l.outcome.Pass? && CentralRun(l.list, |list|).outcome.Pass?
    ensures var n := |TextBytes(rev, charset, comment)|;
      var v := Pack(rev, list, password, charset, comment, fs, tools).verdict;
      && (rev == Newest ==> v == if n < 0x1_0000 - Eocd.BASE_SIZE then Returned(true) else Threw(BufferOverflow))
      && (rev == Libzip && n < 0x1_0000 - Eocd.BASE_SIZE ==>
            v == if 0x8000 <= n then Threw(NegativeLength)
                 else if 0x8000 <= |list| % 0x1_0000 then Threw(ErrorEntryNumber)
                 else Returned(true))
  {
    var l := LocalRun(rev, list, |list|, password, TextBytes(rev, charset, password), fs, tools);
    var c := CentralRun(l.list, |list|);
    var t := TextBytes(rev, charset, comment);
    if rev == Newest {
      EndBytesNewest(|list|, l.total, c.total, t);
    } else if |t| < 0x1_0000 - Eocd.BASE_SIZE {
      EndBytesLibzip(|list|, l.total, c.total, t);
    }
  }

  /** What a successful packTo wrote: the first loop's bytes, the central
      directory, then the end record with the entry count, the directory's
      offset and size as byte counts, and the comment. */
  lemma PackParts(rev: Revision, list: seq<EntryInfo>, password: string, charset: Charset, comment: string,
                  fs: FileSystem, tools: Tools)
    requires Shaped(list) && Sources(list, fs, tools.deflate)
    requires |list| < 0x8000 && |TextBytes(rev, charset, comment)| < 0x8000
    requires Pack(rev, list, password, charset, comment, fs, tools).verdict == Returned(true)
    requires |Pack(rev, list, password, charset, comment, fs, tools).bytes| < 0x8000_0000
    ensures var l := LocalRun(rev, list, |list|, password, TextBytes(rev, charset, password), fs, tools);
      var c := CentralRun(l.list, |list|);
      var e := EndRecord(|list|, |l.bytes|, |c.bytes|, TextBytes(rev, charset, comment));
      && l.outcome.Pass? && c.outcome.Pass? && Shaped(l.list)
      && Pack(rev, list, password, charset, comment, fs, tools) == Output(c.list, l.bytes + c.bytes + Eocd.Encode(e), Returned(true))
      && Eocd.Valid(e) && Eocd.EntryCount(e) == |list| && Eocd.DirOffset(e) == |l.bytes|
      && Eocd.DirSize(e) == |c.bytes| && e.comment == TextBytes(rev, charset, comment)
  {
    var pw := TextBytes(rev, charset, password);
    var l := LocalRun(rev, list, |list|, password, pw, fs, tools);
    var c := CentralRun(l.list, |list|);
    LocalRunOffset(rev, list, |list|, password, pw, fs, tools);
    CentralRunSize(l.list, |list|);
    EndBytesEncode(rev, |list|, |l.bytes|, |c.bytes|, TextBytes(rev, charset, comment));
    EndRecordHolds(|list|, |l.bytes|, |c.bytes|, TextBytes(rev, charset, comment));
    ModOf(|l.bytes|, 0x1_0000_0000, 0, |l.bytes|);
    ModOf(|c.bytes|, 0x1_0000_0000, 0, |c.bytes|);
  }

  /** In what a successful packTo wrote, the k-th local header lies at the
      offset its entry records, which is where the entries before it end,
      and reads back there. */
  lemma PackLocalAt(rev: Revision, list: seq<EntryInfo>, password: string, charset: Charset, comment: string,
                    fs: FileSystem, tools: Tools, k: nat)
    requires Shaped(list) && Sources(list, fs, tools.deflate) && k < |list|
    requires |list| < 0x8000 && |TextBytes(rev, charset, comment)| < 0x8000
    requires Pack(rev, list, password, charset, comment, fs, tools).verdict == Returned(true)
    requires |Pack(rev, list, password, charset, comment, fs, tools).bytes| < 0x8000_0000
    ensures var pw := TextBytes(rev, charset, password);
      var l := LocalRun(rev, list, |list|, password, pw, fs, tools);
      var out := Pack(rev, list, password, charset, comment, fs, tools).bytes;
      var h := l.list[k].header;
      var at := Signed32(h.localOffset);
      && at == |LocalRun(rev, list, k, password, pw, fs, tools).bytes| <= |out|
      && Parse(out[at..], false) == Ok(View(h, false))
  {
    var pw := TextBytes(rev, charset, password);
    var l := LocalRun(rev, list, |list|, password, pw, fs, tools);
    var c := CentralRun(l.list, |list|);
    PackParts(rev, list, password, charset, comment, fs, tools);
    LocalHeaderAt(rev, list, |list|, k, password, pw, fs, tools);
    ParseInFront(l.bytes, c.bytes, Eocd.Encode(EndRecord(|list|, |l.bytes|, |c.bytes|, TextBytes(rev, charset, comment))),
                 Signed32(l.list[k].header.localOffset), false);
  }

  /** A header that reads in a, from offset at, reads the same in a + b + d. */
  lemma ParseInFront(a: seq<byte>, b: seq<byte>, d: seq<byte>, at: nat, central: bool)
    requires at <= |a| && Parse(a[at..], central).Ok?
    ensures at <= |a + b + d| && Parse((a + b + d)[at..], central) == Parse(a[at..], central)
  {
    assert (a + b + d)[at..] == a[at..] + (b + d);
    ParsePrefix(a[at..], b + d, central);
  }

  /** For a file, in output that begins with the first loop's bytes (as
      PackParts shows what packTo wrote does), the compressed size's worth of
      bytes after its local header are its payload: the source or its
      deflation, encrypted when there is a password. */
  lemma PackedDataAt(rev: Revision, out: seq<byte>, list: seq<EntryInfo>, k: nat, password: string, pw: seq<byte>, fs: FileSystem,
                  tools: Tools, b: seq<byte>, d: seq<byte>)
    requires Shaped(list) && Sources(list, fs, tools.deflate) && k < |list| && list[k].path != ""
    requires LocalRun(rev, list, |list|, password, pw, fs, tools).outcome.Pass?
    requires |LocalRun(rev, list, |list|, password, pw, fs, tools).bytes| < 0x8000_0000
    requires out == LocalRun(rev, list, |list|, password, pw, fs, tools).bytes + b + d
    ensures var l := LocalRun(rev, list, |list|, password, pw, fs, tools);
      var h := l.list[k].header;
      var data := Signed32(h.localOffset) + ByteSize(h, false);
      && 0 <= Signed32(h.localOffset) <= data <= data + Signed32(h.compSize) <= |l.bytes| <= |out|
      && out[data..data + Signed32(h.compSize)]
         == StageOf(rev, list[k].header.(sign := LOCAL_MAGIC, localOffset := h.localOffset),
                    fs.contents(list[k].path), password, pw, tools.deflate, tools.salt(k)).payload
  {
    var l := LocalRun(rev, list, |list|, password, pw, fs, tools);
    var h := l.list[k].header;
    var data := Signed32(h.localOffset) + ByteSize(h, false);
    LocalDataAt(rev, list, |list|, k, password, pw, fs, tools);
    SliceInFront(out, l.bytes, b, d, data, data + Signed32(h.compSize),
                 StageOf(rev, list[k].header.(sign := LOCAL_MAGIC, localOffset := h.localOffset),
                         fs.contents(list[k].path), password, pw, tools.deflate, tools.salt(k)).payload);
  }

  /** A slice of a is the same slice of a + b + d. */
  lemma SliceInFront(out: seq<byte>, a: seq<byte>, b: seq<byte>, d: seq<byte>, i: nat, j: nat, p: seq<byte>)
    requires i <= j <= |a| && out == a + b + d && a[i..j] == p
    ensures out[i..j] == p
  {
    assert out[i..j] == a[i..j];
  }

  /** In output that holds the second loop's bytes between any bytes a and d
      (as PackParts shows what packTo wrote does, with a the first loop's
      bytes), the k-th central header lies where a and the central headers
      before it end, and reads back as the k-th entry's header signed
      central. */
  lemma PackedCentralAt(out: seq<byte>, a: seq<byte>, list: seq<EntryInfo>, n: nat, k: nat, d: seq<byte>)
    requires k < n <= |list| && Shaped(list) && CentralRun(list, n).outcome.Pass?
    requires out == a + CentralRun(list, n).bytes + d
    ensures var at := |a| + |CentralRun(list, k).bytes|;
      at <= |out| && Parse(out[at..], true) == Ok(CentralOf(list[k]))
  {
    var r := CentralRun(list, n);
    var c := CentralRun(list, k);
    CentralPrefixAt(list, n, k);
    DropInMiddle(a, r.bytes, d, |c.bytes|);
    CentralParsesBehind(r.bytes, c.bytes, CentralOf(list[k]), d, out[|a| + |c.bytes|..]);
  }

  /** The first k + 1 central headers of a pass begin with the first k and
      then the k-th written. */
  lemma CentralPrefixAt(list: seq<EntryInfo>, n: nat, k: nat)
    requires k < n <= |list| && Shaped(list) && CentralRun(list, n).outcome.Pass?
    ensures var c := CentralRun(list, k).bytes;
      var r := CentralRun(list, n).bytes;
      var h := CentralOf(list[k]);
      && Consistent(h) && Write(h, true).Ok?
      && |c + Write(h, true).value| <= |r| && r[..|c + Write(h, true).value|] == c + Write(h, true).value
  {
    var c := CentralRun(list, k).bytes;
    var h := CentralOf(list[k]);
    CentralRunKeeps(list, k + 1, n);
    CentralStepOf(list, k + 1);
    assert CentralRun(list, k + 1).bytes == c + Write(h, true).value;
    assert Consistent(list[k].header);
  }

  /** Dropping a and part of b from a + b + d. */
  lemma DropInMiddle(a: seq<byte>, b: seq<byte>, d: seq<byte>, i: nat)
    requires i <= |b|
    ensures (a + b + d)[|a| + i..] == b[i..] + d
  {
  }

  /** No signature starts inside the record past its first byte, where the
      backward scan would meet it before the record's own. */
  predicate Scannable(e: Eocd.Record)
  {
    forall j: nat :: 0 < j <= |e.comment| && j + 4 <= |Eocd.Encode(e)| ==> !Reader.MagicAt(Eocd.Encode(e), j)
  }

  /** A signature read behind a prefix is the one read without it. */
  lemma MagicBehind(prefix: seq<byte>, x: seq<byte>, j: nat)
    requires j + 4 <= |x|
    ensures Reader.MagicAt(prefix + x, |prefix| + j) == Reader.MagicAt(x, j)
  {
    var b := prefix + x;
    assert b[|prefix| + j] == x[j] && b[|prefix| + j + 1] == x[j + 1];
    assert b[|prefix| + j + 2] == x[j + 2] && b[|prefix| + j + 3] == x[j + 3];
  }

  /** The reader's backward scan finds the end record packTo wrote, and it
      reads back with the entry count, the directory's offset and size and
      the comment. */
  lemma PackDirEnd(rev: Revision, list: seq<EntryInfo>, password: string, charset: Charset, comment: string,
                   fs: FileSystem, tools: Tools)
    requires Shaped(list) && Sources(list, fs, tools.deflate)
    requires |list| < 0x8000 && |TextBytes(rev, charset, comment)| < 0x8000
    requires Pack(rev, list, password, charset, comment, fs, tools).verdict == Returned(true)
    requires |Pack(rev, list, password, charset, comment, fs, tools).bytes| < 0x8000_0000
    requires var l := LocalRun(rev, list, |list|, password, TextBytes(rev, charset, password), fs, tools);
      Scannable(EndRecord(|list|, |l.bytes|, |CentralRun(l.list, |list|).bytes|, TextBytes(rev, charset, comment)))
    ensures var l := LocalRun(rev, list, |list|, password, TextBytes(rev, charset, password), fs, tools);
      var c := CentralRun(l.list, |list|);
      Reader.DirEndOf(Pack(rev, list, password, charset, comment, fs, tools).bytes)
        == Ok(EndRecord(|list|, |l.bytes|, |c.bytes|, TextBytes(rev, charset, comment)))
  {
    PackParts(rev, list, password, charset, comment, fs, tools);
    RunDirEnd(rev, list, password, charset, comment, fs, tools);
  }

  /** The same on the two runs' bytes followed by the encoded record. */
  lemma RunDirEnd(rev: Revision, list: seq<EntryInfo>, password: string, charset: Charset, comment: string,
                  fs: FileSystem, tools: Tools)
    requires |list| < 0x8000 && |TextBytes(rev, charset, comment)| < 0x8000
    requires var l := LocalRun(rev, list, |list|, password, TextBytes(rev, charset, password), fs, tools);
      Scannable(EndRecord(|list|, |l.bytes|, |CentralRun(l.list, |list|).bytes|, TextBytes(rev, charset, comment)))
    ensures var l := LocalRun(rev, list, |list|, password, TextBytes(rev, charset, password), fs, tools);
      var c := CentralRun(l.list, |list|);
      var e := EndRecord(|list|, |l.bytes|, |c.bytes|, TextBytes(rev, charset, comment));
      Reader.DirEndOf(l.bytes + c.bytes + Eocd.Encode(e)) == Ok(e)
  {
    var l := LocalRun(rev, list, |list|, password, TextBytes(rev, charset, password), fs, tools);
    var c := CentralRun(l.list, |list|);
    EndRecordHolds(|list|, |l.bytes|, |c.bytes|, TextBytes(rev, charset, comment));
    DirEndBehind(l.bytes + c.bytes, EndRecord(|list|, |l.bytes|, |c.bytes|, TextBytes(rev, charset, comment)));
  }

  /** A valid, scannable record written after any bytes is the one the
      reader finds. */
  lemma DirEndBehind(prefix: seq<byte>, e: Eocd.Record)
    requires Eocd.Valid(e) && Scannable(e)
    ensures Reader.EocdOffset(prefix + Eocd.Encode(e)) == Ok(|prefix|)
    ensures Reader.DirEndOf(prefix + Eocd.Encode(e)) == Ok(e)
  {
    forall p: nat | |prefix| < p <= |prefix| + |e.comment|
      ensures !Reader.MagicAt(prefix + Eocd.Encode(e), p)
    {
      MagicBehind(prefix, Eocd.Encode(e), p - |prefix|);
    }
    Reader.WrittenDirEndFound(prefix, e);
  }
}
