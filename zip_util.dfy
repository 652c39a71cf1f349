/** GsZipUtil: entry-name paths and two passes over a restartable stream.

    A path is split into pieces at every separator, as String.split does
    before it drops trailing empty pieces (which the loops skip anyway). The
    pieces go through a stack: empty and "." pieces are skipped, ".." pops,
    anything else is pushed; the survivors are joined with '/'. The newest
    revision lets ".." pop whatever is on top, so a ".." survives only as
    the first segment; the earlier one never lets ".." pop another "..", so
    leading ".." runs survive. */
module ZipUtil {
  import opened ZipCommon
  import opened Streams
  import PKWare

  /** The separators of normalizePath: '/' and '\'. */
  const SEPS: set<char> := {'/', '\\'}

  predicate NoSep(p: string, seps: set<char>)
  {
    forall i :: 0 <= i < |p| ==> p[i] !in seps
  }

  /** The pieces between separators, empty ones included. */
  function Pieces(s: string, seps: set<char>): (r: seq<string>)
    ensures |r| >= 1
  {
    if s == [] then [[]]
    else
      var rest := Pieces(s[1..], seps);
      if s[0] in seps then [[]] + rest else [[s[0]] + rest[0]] + rest[1..]
  }

  /** String.join("/", parts). */
  function Join(parts: seq<string>): string
  {
    if |parts| == 0 then []
    else if |parts| == 1 then parts[0]
    else parts[0] + "/" + Join(parts[1..])
  }

  lemma {:induction false} PiecesNoSep(s: string, seps: set<char>)
    ensures forall k :: 0 <= k < |Pieces(s, seps)| ==> NoSep(Pieces(s, seps)[k], seps)
  {
    if s != [] {
      PiecesNoSep(s[1..], seps);
    }
  }

  /** A separator-free prefix glues onto the first piece of what follows. */
  lemma {:induction false} PiecesPrefix(a: string, s: string, seps: set<char>)
    requires NoSep(a, seps)
    ensures Pieces(a + s, seps) == [a + Pieces(s, seps)[0]] + Pieces(s, seps)[1..]
  {
    if a != [] {
      assert (a + s)[1..] == a[1..] + s;
      PiecesPrefix(a[1..], s, seps);
      assert [a[0]] + (a[1..] + Pieces(s, seps)[0]) == a + Pieces(s, seps)[0];
    } else {
      var p := Pieces(s, seps);
      assert a + s == s && a + p[0] == p[0];
      assert p == [p[0]] + p[1..];
    }
  }

  /** Splitting undoes joining, for pieces without separators. */
  lemma {:induction false} PiecesJoin(parts: seq<string>, seps: set<char>)
    requires parts != [] && '/' in seps
    requires forall k :: 0 <= k < |parts| ==> NoSep(parts[k], seps)
    ensures Pieces(Join(parts), seps) == parts
  {
    if |parts| == 1 {
      PiecesPrefix(parts[0], [], seps);
      assert parts[0] + [] == parts[0];
    } else {
      var rest := Join(parts[1..]);
      PiecesJoin(parts[1..], seps);
      assert Pieces("/" + rest, seps) == [[]] + Pieces(rest, seps);
      assert parts[0] + "/" + rest == parts[0] + ("/" + rest);
      PiecesPrefix(parts[0], "/" + rest, seps);
      assert parts[0] + [] == parts[0];
    }
  }

  // ---------------------------------------------------------------------------
  // The segment stack
  // ---------------------------------------------------------------------------

  /** When ".." may pop: the newest revision pops any segment, the earlier
      getCanonicalPath only one that is not ".." itself. */
  datatype PopRule = PopAny | PopNamed

  /** One turn of the loop over the pieces. */
  function Step(rule: PopRule, stack: seq<string>, part: string): seq<string>
  {
    if part == "" || part == "." then stack
    else if part == ".." && stack != [] && (rule == PopAny || stack[|stack| - 1] != "..")
    then stack[..|stack| - 1]
    else stack + [part]
  }

  /** The loop over the remaining pieces, from a stack. */
  function Fold(rule: PopRule, stack: seq<string>, parts: seq<string>): seq<string>
    decreases |parts|
  {
    if parts == [] then stack else Fold(rule, Step(rule, stack, parts[0]), parts[1..])
  }

  /** normalizePath (and getCanonicalPath) of a revision, as one expression. */
  function Normalized(rule: PopRule, path: string): string
  {
    Join(Fold(rule, [], Pieces(path, SEPS)))
  }

  /** A segment that survives: not empty, not ".", no separator. */
  predicate Segment(p: string)
  {
    p != "" && p != "." && NoSep(p, SEPS)
  }

  /** What the stack can hold: segments, with ".." only first under PopAny
      and only in a leading run under PopNamed. */
  predicate Kept(rule: PopRule, parts: seq<string>)
  {
    && (forall i :: 0 <= i < |parts| ==> Segment(parts[i]))
    && (forall i :: 0 <= i < |parts| && parts[i] == ".." ==>
          if rule == PopAny then i == 0 else forall j :: 0 <= j < i ==> parts[j] == "..")
  }

  lemma {:induction false} FoldKept(rule: PopRule, stack: seq<string>, parts: seq<string>)
    requires Kept(rule, stack)
    requires forall k :: 0 <= k < |parts| ==> NoSep(parts[k], SEPS)
    ensures Kept(rule, Fold(rule, stack, parts))
    decreases |parts|
  {
    if parts != [] {
      var next := Step(rule, stack, parts[0]);
      assert Kept(rule, next) by {
        if next == stack + [parts[0]] && parts[0] == ".." && rule == PopNamed && stack != [] {
          assert stack[|stack| - 1] == "..";
        }
      }
      FoldKept(rule, next, parts[1..]);
    }
  }

  /** A stack that already holds only kept segments passes through the loop
      unchanged. */
  lemma {:induction false} FoldKeptId(rule: PopRule, stack: seq<string>, parts: seq<string>)
    requires Kept(rule, stack + parts)
    ensures Fold(rule, stack, parts) == stack + parts
    decreases |parts|
  {
    if parts != [] {
      var all := stack + parts;
      assert all[|stack|] == parts[0];
      if parts[0] == ".." && stack != [] {
        if rule == PopAny {
          assert false;
        } else {
          assert all[|stack| - 1] == stack[|stack| - 1];
        }
      }
      assert Step(rule, stack, parts[0]) == stack + [parts[0]];
      assert (stack + [parts[0]]) + parts[1..] == all;
      FoldKeptId(rule, stack + [parts[0]], parts[1..]);
    }
  }

  /** The result is made of kept segments joined by single slashes: it has
      no leading, trailing or doubled '/', no "." and no empty segment. */
  lemma NormalizedShape(rule: PopRule, path: string)
    ensures var parts := Fold(rule, [], Pieces(path, SEPS));
      Kept(rule, parts) && Normalized(rule, path) == Join(parts)
      && (parts != [] ==> Pieces(Normalized(rule, path), SEPS) == parts)
  {
    PiecesNoSep(path, SEPS);
    var parts := Fold(rule, [], Pieces(path, SEPS));
    FoldKept(rule, [], Pieces(path, SEPS));
    if parts != [] {
      PiecesJoin(parts, SEPS);
    }
  }

  /** Normalising twice gives what normalising once gives. */
  lemma NormalizedIdempotent(rule: PopRule, path: string)
    ensures Normalized(rule, Normalized(rule, path)) == Normalized(rule, path)
  {
    NormalizedShape(rule, path);
    var parts := Fold(rule, [], Pieces(path, SEPS));
    if parts == [] {
      assert Pieces([], SEPS) == [[]];
      assert Fold(rule, [], [[]]) == Fold(rule, [], []) == [];
    } else {
      FoldKeptId(rule, [], parts);
      assert [] + parts == parts;
    }
  }

  lemma {:induction false} ExamplePieces()
    ensures Pieces("a//b/../c", SEPS) == ["a", "", "b", "..", "c"]
  {
    var parts := ["a", "", "b", "..", "c"];
    assert parts[1..] == ["", "b", "..", "c"] && parts[1..][1..] == ["b", "..", "c"];
    assert parts[1..][1..][1..] == ["..", "c"] && parts[1..][1..][1..][1..] == ["c"];
    assert Join(["..", "c"]) == "../c";
    assert Join(["b", "..", "c"]) == "b/../c";
    assert Join(["", "b", "..", "c"]) == "/b/../c";
    assert Join(parts) == "a//b/../c";
    PiecesJoin(parts, SEPS);
  }

  lemma {:induction false} ExampleFold()
    ensures Fold(PopAny, [], ["a", "", "b", "..", "c"]) == ["a", "c"]
    ensures Join(["a", "c"]) == "a/c"
  {
    assert ["a", "c"][1..] == ["c"];
    var parts := ["a", "", "b", "..", "c"];
    assert parts[1..] == ["", "b", "..", "c"];
    assert Fold(PopAny, ["a"], ["c"]) == ["a", "c"];
    assert Fold(PopAny, ["a", "b"], ["..", "c"]) == ["a", "c"];
    assert Fold(PopAny, ["a"], ["b", "..", "c"]) == ["a", "c"];
    assert Fold(PopAny, ["a"], ["", "b", "..", "c"]) == ["a", "c"];
  }

  /** A doubled slash is dropped and ".." removes the segment before it. */
  lemma NormalizedExample()
    ensures Normalized(PopAny, "a//b/../c") == "a/c"
  {
    ExamplePieces();
    ExampleFold();
    assert Normalized(PopAny, "a//b/../c") == Join(Fold(PopAny, [], ["a", "", "b", "..", "c"]));
  }

  /** The two rules part on a leading ".." run: the newest lets the second
      ".." pop the first, the earlier keeps both. */
  lemma DotDotRules()
    ensures Normalized(PopAny, "../../a") == "a"
    ensures Normalized(PopNamed, "../../a") == "../../a"
  {
    var parts := ["..", "..", "a"];
    assert parts[1..] == ["..", "a"] && parts[1..][1..] == ["a"];
    assert Join(["..", "a"]) == "../a";
    assert Join(parts) == "../../a";
    PiecesJoin(parts, SEPS);
    assert Fold(PopAny, [".."], ["..", "a"]) == ["a"];
    assert Fold(PopAny, [], parts) == ["a"];
    assert Fold(PopNamed, ["..", ".."], ["a"]) == parts;
    assert Fold(PopNamed, [".."], ["..", "a"]) == parts;
    assert Fold(PopNamed, [], parts) == parts;
  }

  // ---------------------------------------------------------------------------
  // The loops as the source runs them
  // ---------------------------------------------------------------------------

  /** normalizePath: the stack loop over the pieces of the path. */
  method NormalizePath(path: string) returns (r: string)
    ensures r == Normalized(PopAny, path)
  {
    var pieces := Pieces(path, SEPS);
    var parts: seq<string> := [];
    var i := 0;
    while i < |pieces|
      invariant i <= |pieces|
      invariant Fold(PopAny, parts, pieces[i..]) == Fold(PopAny, [], pieces)
    {
      var part := pieces[i];
      assert pieces[i..][1..] == pieces[i + 1..];
      i := i + 1;
      if part == "" {
        continue;
      }
      if part == "." {
        continue;
      }
      if part == ".." {
        if parts != [] {
          parts := parts[..|parts| - 1];
          continue;
        }
      }
      parts := parts + [part];
    }
    r := Join(parts);
  }

  /** getCanonicalPath of the newest revision: the same loop, line for line,
      so the same result for every path. */
  method GetCanonicalPath(path: string) returns (r: string)
    ensures r == Normalized(PopAny, path)
  {
    r := NormalizePath(path);
  }

  /** "/" before each part: the earlier revision's StringBuilder. */
  function Slashed(parts: seq<string>): string
  {
    if parts == [] then [] else "/" + (parts[0] + Slashed(parts[1..]))
  }

  /** Dropping the first character of the builder gives the joined parts. */
  lemma {:induction false} SlashedJoin(parts: seq<string>)
    requires parts != []
    ensures Slashed(parts) == "/" + Join(parts)
  {
    if |parts| > 1 {
      SlashedJoin(parts[1..]);
      var j := Join(parts[1..]);
      assert parts[0] + ("/" + j) == (parts[0] + "/") + j;
    } else {
      assert Slashed(parts[1..]) == [];
      assert parts[0] + [] == parts[0];
    }
  }

  lemma {:induction false} SlashedSnoc(parts: seq<string>, p: string)
    ensures Slashed(parts + [p]) == Slashed(parts) + ("/" + p)
  {
    if parts != [] {
      assert (parts + [p])[1..] == parts[1..] + [p];
      assert (parts + [p])[0] == parts[0];
      SlashedSnoc(parts[1..], p);
      var t := Slashed(parts[1..]);
      assert parts[0] + (t + ("/" + p)) == (parts[0] + t) + ("/" + p);
      assert "/" + ((parts[0] + t) + ("/" + p)) == ("/" + (parts[0] + t)) + ("/" + p);
    } else {
      assert [p][1..] == [];
      assert p + [] == p;
      assert [] + [p] == [p];
    }
  }

  /** getCanonicalPath of the earlier revision: the stack loop with the peek
      rule, then "/" + part for every part and the first character dropped,
      or "" for an empty stack. */
  method LegacyCanonicalPath(path: string) returns (r: string)
    ensures r == Normalized(PopNamed, path)
  {
    var pieces := Pieces(path, SEPS);
    var parts: seq<string> := [];
    var i := 0;
    while i < |pieces|
      invariant i <= |pieces|
      invariant Fold(PopNamed, parts, pieces[i..]) == Fold(PopNamed, [], pieces)
    {
      var part := pieces[i];
      assert pieces[i..][1..] == pieces[i + 1..];
      i := i + 1;
      if part == "" {
        continue;
      }
      if part == "." {
        continue;
      }
      if part == ".." {
        if parts != [] && parts[|parts| - 1] != ".." {
          parts := parts[..|parts| - 1];
          continue;
        }
      }
      parts := parts + [part];
    }
    if parts == [] {
      return "";
    }
    var builder: string := "";
    var k := 0;
    while k < |parts|
      invariant k <= |parts|
      invariant builder == Slashed(parts[..k])
    {
      SlashedSnoc(parts[..k], parts[k]);
      assert parts[..k + 1] == parts[..k] + [parts[k]];
      assert builder + "/" + parts[k] == builder + ("/" + parts[k]);
      builder := builder + "/" + parts[k];
      k := k + 1;
    }
    assert parts[..k] == parts;
    SlashedJoin(parts);
    r := builder[1..];
    assert r == Join(parts);
  }

  // ---------------------------------------------------------------------------
  // getParentPath
  // ---------------------------------------------------------------------------

  /** String.indexOf: the first position of c, or -1. */
  function IndexOf(s: string, c: char): (r: int)
    ensures -1 <= r < |s|
    ensures r == -1 <==> c !in s
    ensures r >= 0 ==> s[r] == c && c !in s[..r]
  {
    if s == [] then -1
    else if s[0] == c then 0
    else
      var i := IndexOf(s[1..], c);
      if i < 0 then -1
      else
        assert s[..i + 1] == [s[0]] + s[1..][..i];
        i + 1
  }

  /** getParentPath: the text before the first '/', or "" without one. */
  function ParentPath(path: string): (r: string)
    ensures '/' !in r
    ensures '/' in path ==> |r| < |path| && path[..|r| + 1] == r + "/"
    ensures '/' !in path ==> r == ""
  {
    var i := IndexOf(path, '/');
    if i < 0 then "" else path[..i]
  }

  lemma {:induction false} IndexOfAfter(a: string, rest: string, c: char)
    requires c !in a
    ensures IndexOf(a + [c] + rest, c) == |a|
  {
    if a != [] {
      assert (a + [c] + rest)[1..] == a[1..] + [c] + rest;
      IndexOfAfter(a[1..], rest, c);
    } else {
      assert a + [c] + rest == [c] + rest;
    }
  }

  /** On a normalised name, the parent is the first segment, not the
      immediate parent: "a/b/c" gives "a". */
  lemma ParentOfJoin(parts: seq<string>)
    requires |parts| >= 1 && forall k :: 0 <= k < |parts| ==> NoSep(parts[k], SEPS)
    ensures ParentPath(Join(parts)) == if |parts| >= 2 then parts[0] else ""
  {
    var s := Join(parts);
    assert NoSep(parts[0], SEPS);
    assert '/' !in parts[0] by {
      forall i | 0 <= i < |parts[0]|
        ensures parts[0][i] != '/'
      {
        assert parts[0][i] !in SEPS;
      }
    }
    if |parts| >= 2 {
      assert s == parts[0] + ['/'] + Join(parts[1..]);
      IndexOfAfter(parts[0], Join(parts[1..]), '/');
      assert s[..|parts[0]|] == parts[0];
    }
  }

  // ---------------------------------------------------------------------------
  // calcStreamLength and calcStreamCRC over a range view
  // ---------------------------------------------------------------------------

  const BUFFER_SIZE: nat := 1024

  /** InputStream.skip, which the stream does not override: reads into a
      scratch buffer until n bytes are skipped or a read returns -1; a read
      that throws ends the skip with its error. */
  method Skip(s: SubInputStream, n: nat) returns (r: Result<int>)
    requires s.Valid()
    modifies s
    ensures s.Valid() && s.closed == old(s.closed)
    ensures n == 0 ==> r == Ok(0) && s.offset == old(s.offset)
    ensures n > 0 && old(s.closed) ==> r == Err(StreamClosed)
    ensures n > 0 && !old(s.closed) && old(s.Span()) < 0 ==> r == Err(IndexOutOfRange)
    ensures n > 0 && !old(s.closed) && old(s.Span()) >= 0 ==> r == Ok(Min(n, old(s.Span())))
    ensures r.Ok? ==> s.offset == old(s.offset) + r.value
    ensures r.Err? ==> s.offset == old(s.offset)
    ensures old(s.Span()) >= 0 ==> 0 <= s.Span() == old(s.Span()) - (s.offset - old(s.offset))
  {
    if n == 0 {
      return Ok(0);
    }
    var size := Min(2048, n);
    var scratch := new byte[size];
    var remaining := n;
    while remaining > 0
      invariant s.Valid() && s.closed == old(s.closed)
      invariant 0 <= remaining <= n && s.offset == old(s.offset) + (n - remaining)
      invariant remaining < n ==> !s.closed && old(s.Span()) >= 0
      invariant old(s.Span()) >= 0 ==> 0 <= s.Span() == old(s.Span()) - (n - remaining)
      decreases remaining
    {
      var nr :- s.Read(scratch, 0, Min(size, remaining));
      if nr < 0 {
        break;
      }
      remaining := remaining - nr;
    }
    r := Ok(n - remaining);
  }

  /** calcStreamLength: restart, then add up skips of BUFFER_SIZE until one
      skips nothing; the long total is cast to an int. The skips reach
      (int)(end - start) bytes, or the first one throws when that is
      negative. */
  method CalcStreamLength(s: SubInputStream) returns (r: Result<int>)
    requires s.Valid()
    modifies s
    ensures s.Valid()
    ensures old(s.closed) ==> r == Err(StreamClosed)
    ensures !old(s.closed) && s.Overlong() ==> r == Err(IndexOutOfRange)
    ensures !old(s.closed) && !s.Overlong() ==>
              r == Ok(IntCast(s.end - s.start)) && s.offset == s.start + IntCast(s.end - s.start)
    ensures !old(s.closed) && s.end - s.start < 0x8000_0000 ==> r == Ok(s.end - s.start) && s.offset == s.end
  {
    var ok := s.Restart();
    if ok.Fail? {
      return Err(ok.error);
    }
    ghost var whole := IntCast(s.end - s.start);
    var length := 0;
    while true
      invariant s.Valid() && !s.closed
      invariant length == s.offset - s.start
      invariant whole < 0 ==> s.offset == s.start && s.Span() == whole
      invariant whole >= 0 ==> 0 <= s.Span() == whole - length
      decreases s.end - s.offset
    {
      var count :- Skip(s, BUFFER_SIZE);
      if count <= 0 {
        break;
      }
      length := length + count;
    }
    r := Ok(Signed32(ToU32(length)));
  }

  /** Feeding the next chunk of the range extends the register's run. */
  lemma CrcExtend(file: seq<byte>, start: nat, mid: nat, end: nat, chunk: seq<byte>)
    requires start <= mid <= end <= |file| && chunk == file[mid..end]
    ensures PKWare.CrcRun(PKWare.CrcRun(0xFFFF_FFFF, file[start..mid]), chunk)
            == PKWare.CrcRun(0xFFFF_FFFF, file[start..end])
  {
    PKWare.CrcRunAppend(0xFFFF_FFFF, file[start..mid], chunk);
    assert file[start..mid] + chunk == file[start..end];
  }

  /** One chunk a read delivered, fed to the register, extends the run over
      the range by those bytes. */
  lemma ChunkStep(b: array<byte>, count: nat, file: seq<byte>, start: nat, before: nat, crc: u32)
    requires count <= b.Length && start <= before && before + count <= |file|
    requires forall j :: 0 <= j < count ==> b[j] == file[before + j]
    requires crc == PKWare.CrcRun(0xFFFF_FFFF, file[start..before])
    ensures PKWare.CrcRun(crc, b[..count]) == PKWare.CrcRun(0xFFFF_FFFF, file[start..before + count])
  {
    assert b[..count] == file[before..before + count];
    CrcExtend(file, start, before, before + count, b[..count]);
  }

  /** calcStreamCRC: restart, then feed every chunk a read returns to CRC-32;
      the value is the CRC-32 of what the reads deliver, which is the whole
      range below 2 GiB. A read that throws ends the call with its error. */
  method CalcStreamCrc(s: SubInputStream) returns (r: Result<u32>)
    requires s.Valid()
    modifies s
    ensures s.Valid()
    ensures old(s.closed) ==> r == Err(StreamClosed)
    ensures !old(s.closed) && s.Overlong() ==> r == Err(IndexOutOfRange)
    ensures !old(s.closed) && !s.Overlong() ==> r == Ok(PKWare.CrcOf(s.FromStart()))
    ensures !old(s.closed) && s.end - s.start < 0x8000_0000 ==> r == Ok(PKWare.CrcOf(s.file[s.start..s.end]))
  {
    var ok := s.Restart();
    if ok.Fail? {
      return Err(ok.error);
    }
    var crc :- CrcRest(s);
    r := Ok(PKWare.CrcValue(crc));
  }

  /** The loop of calcStreamCRC: reads of BUFFER_SIZE until one returns
      -1, each chunk fed to the register; the register has then run over
      everything the reads delivered. */
  method CrcRest(s: SubInputStream) returns (r: Result<u32>)
    requires s.Valid() && !s.closed
    modifies s
    ensures s.Valid()
    ensures old(s.Span()) < 0 ==> r == Err(IndexOutOfRange)
    ensures old(s.Span()) >= 0 ==> r == Ok(PKWare.CrcRun(0xFFFF_FFFF, old(s.Remaining())))
  {
    var buffer := new byte[BUFFER_SIZE];
    var crc: u32 := 0xFFFF_FFFF;
    while true
      invariant s.Valid() && !s.closed && old(s.offset) <= s.offset
      invariant crc == PKWare.CrcRun(0xFFFF_FFFF, s.file[old(s.offset)..s.offset])
      invariant old(s.Span()) < 0 ==> s.offset == old(s.offset)
      invariant old(s.Span()) >= 0 ==> 0 <= s.Span() == old(s.Span()) - (s.offset - old(s.offset))
      decreases s.end - s.offset
    {
      ghost var before := s.offset;
      var count :- s.Read(buffer, 0, buffer.Length);
      if count <= 0 {
        break;
      }
      ChunkStep(buffer, count, s.file, old(s.offset), before, crc);
      crc := PKWare.CrcRun(crc, buffer[..count]);
    }
    assert s.file[old(s.offset)..s.offset] == old(s.Remaining());
    r := Ok(crc);
  }

  // ---------------------------------------------------------------------------
  // getStreamLength and getStreamCRC of the libzip revision, over a marked
  // stream
  // ---------------------------------------------------------------------------

  /** The BufferedInputStream the libzip packer wraps around each source and
      marks at its first byte with an unbounded read limit, so that reset()
      always goes back there. A read or a skip delivers all that is asked
      for, up to the end of the data. */
  class MarkedStream {
    const data: seq<byte>
    var pos: nat

    predicate Valid()
      reads this
    {
      pos <= |data|
    }

    constructor(data: seq<byte>)
      ensures Valid() && this.data == data && pos == 0
    {
      this.data := data;
      pos := 0;
    }

    /** reset: back to the mark. */
    method Reset()
      modifies this
      ensures Valid() && pos == 0
    {
      pos := 0;
    }

    /** read(b): nothing for an empty array, -1 at the end, otherwise as
        many of the next bytes as fit. */
    method Read(b: array<byte>) returns (r: int)
      requires Valid()
      modifies this, b
      ensures Valid()
      ensures b.Length == 0 ==> r == 0 && pos == old(pos)
      ensures b.Length > 0 && old(pos) == |data| ==> r == -1 && pos == old(pos)
      ensures b.Length > 0 && old(pos) < |data| ==> r == Min(b.Length, |data| - old(pos)) && pos == old(pos) + r
      ensures forall j :: 0 <= j < r ==> b[j] == data[old(pos) + j]
    {
      if b.Length == 0 {
        return 0;
      }
      if pos == |data| {
        return -1;
      }
      r := Min(b.Length, |data| - pos);
      CopyInto(data, pos, r, b, 0);
      pos := pos + r;
    }

    /** skip(n): nothing for a count that is not positive, otherwise as far
        as the count or the end allows. */
    method Skip(n: int) returns (r: int)
      requires Valid()
      modifies this
      ensures Valid()
      ensures r == (if n <= 0 then 0 else Min(n, |data| - old(pos))) && pos == old(pos) + r
    {
      r := if n <= 0 then 0 else Min(n, |data| - pos);
      pos := pos + r;
    }
  }

  /** Adding to a wrapped int wraps the sum: the int accumulator of
      getStreamLength holds the cast of the true total at every step. */
  lemma IntCastAdd(total: nat, count: nat)
    ensures IntCast(IntCast(total) + count) == IntCast(total + count)
  {
  }

  /** getStreamLength: reset, add up skips of 1024 in an int until one
      skips nothing, reset again; the length is the data's, wrapped to an
      int, and the stream is back at its mark. */
  method GetStreamLength(s: MarkedStream) returns (r: int)
    requires s.Valid()
    modifies s
    ensures s.Valid() && s.pos == 0
    ensures r == IntCast(|s.data|)
    ensures |s.data| < 0x8000_0000 ==> r == |s.data|
  {
    s.Reset();
    var length := 0;
    while true
      invariant s.Valid() && length == IntCast(s.pos)
      decreases |s.data| - s.pos
    {
      var count := s.Skip(BUFFER_SIZE);
      if count <= 0 {
        break;
      }
      IntCastAdd(s.pos - count, count);
      length := IntCast(length + count);
    }
    s.Reset();
    r := length;
  }

  /** getStreamCRC: reset, feed every chunk a read returns to CRC-32, reset
      again; the value is the CRC-32 of the whole data. */
  method GetStreamCrc(s: MarkedStream) returns (r: u32)
    requires s.Valid()
    modifies s
    ensures s.Valid() && s.pos == 0
    ensures r == PKWare.CrcOf(s.data)
  {
    var buffer := new byte[BUFFER_SIZE];
    var crc: u32 := 0xFFFF_FFFF;
    s.Reset();
    while true
      invariant s.Valid() && crc == PKWare.CrcRun(0xFFFF_FFFF, s.data[0..s.pos])
      decreases |s.data| - s.pos
    {
      ghost var before := s.pos;
      var count := s.Read(buffer);
      if count <= 0 {
        break;
      }
      ChunkStep(buffer, count, s.data, 0, before, crc);
      crc := PKWare.CrcRun(crc, buffer[..count]);
    }
    assert s.data[0..|s.data|] == s.data;
    s.Reset();
    r := PKWare.CrcValue(crc);
  }
}
