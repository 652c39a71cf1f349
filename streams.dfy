/** The restartable byte-stream pipeline, part one: the base stream with its
    closed flag, the range view over the archive file (the base of every entry
    stream), and the older range view with a resizable end.

    The archive file is a byte sequence that nothing in the pipeline changes; a
    positioned file read is a copy out of it. Java's bulk read
    `read(b, off, len)` becomes a method that writes into an `array<byte>` and
    returns the Java count (-1 for end of stream), or the error the source
    throws. */
module Streams {
  import opened ZipCommon

  /** System.arraycopy, and a positioned file read: src[from..from+count] lands
      at off, the rest of b is untouched. */
  method CopyInto(src: seq<byte>, from: nat, count: nat, b: array<byte>, off: nat)
    requires from + count <= |src| && off + count <= b.Length
    modifies b
    ensures forall j :: off <= j < off + count ==> b[j] == src[from + j - off]
    ensures forall j :: 0 <= j < b.Length && !(off <= j < off + count) ==> b[j] == old(b[j])
  {
    var i := 0;
    while i < count
      invariant 0 <= i <= count
      invariant forall j :: off <= j < off + i ==> b[j] == src[from + j - off]
      invariant forall j :: 0 <= j < b.Length && !(off <= j < off + i) ==> b[j] == old(b[j])
    {
      b[off + i] := src[from + i];
      i := i + 1;
    }
  }

  /** read() of the libzip range stream and of the decrypt streams that
      return the byte as it is: the next delivered byte as a signed Java
      byte, or -1 past the end. */
  function SignedByteAt(s: seq<byte>, pos: nat): int
  {
    if pos < |s| then Signed8(s[pos]) else -1
  }

  /** read() as the newest streams write it, with `& 0xFF`: the next
      delivered byte as 0..255, or -1 past the end. */
  function UnsignedByteAt(s: seq<byte>, pos: nat): int
  {
    if pos < |s| then s[pos] as int else -1
  }

  /** The signed read answers -1, the end-of-stream value, both past the end
      and on a delivered 0xFF; so a stream holding the single byte 0xFF
      reads like an empty one. */
  lemma SignedByteAtLosesFF(s: seq<byte>, pos: nat)
    ensures SignedByteAt(s, pos) == -1 <==> pos >= |s| || s[pos] == 0xFF
    ensures SignedByteAt([0xFF], 0) == SignedByteAt([], 0)
  {
    assert SignedByteAt([0xFF], 0) == Signed8(0xFF) == -1;
  }

  /** The unsigned read answers -1 exactly past the end, and otherwise gives
      back the delivered byte. */
  lemma UnsignedByteAtEnds(s: seq<byte>, pos: nat)
    ensures UnsignedByteAt(s, pos) == -1 <==> pos >= |s|
    ensures pos < |s| ==> 0 <= UnsignedByteAt(s, pos) < 0x100 && UnsignedByteAt(s, pos) as byte == s[pos]
  {
  }

  /** GsZipInputStream: every stream starts open; after close, each call that
      checks ensureOpen fails. Its own bulk read and restart always fail. */
  class ZipInputStream {
    var closed: bool

    constructor ()
      ensures !closed
    {
      closed := false;
    }

    method Close()
      modifies this
      ensures closed
    {
      closed := true;
    }

    method EnsureOpen() returns (r: Outcome)
      ensures r.Pass? <==> !closed
      ensures r.Fail? ==> r.error == StreamClosed
    {
      r := Check(!closed, StreamClosed);
    }

    /** The base bulk read must be overridden: it fails whatever the state. */
    method Read(b: array<byte>, off: nat, len: nat) returns (r: Result<int>)
      ensures r == Err(ReadNotOverridden)
    {
      r := Err(ReadNotOverridden);
    }

    /** The single-byte read checks the closed flag, then goes through the bulk read. */
    method ReadByte() returns (r: Result<int>)
      ensures r.Err?
      ensures r.error == (if closed then StreamClosed else ReadNotOverridden)
    {
      var open := EnsureOpen();
      if open.Fail? {
        return Err(open.error);
      }
      var buffer := new byte[1];
      r := Read(buffer, 0, 1);
    }

    method Restart() returns (r: Outcome)
      ensures r == Fail(RestartNotSupported)
    {
      r := Fail(RestartNotSupported);
    }
  }

  /** Dropping c bytes of a slice is slicing c bytes later. */
  lemma SliceTail(s: seq<byte>, a: nat, b: nat, c: nat)
    requires a + c <= b <= |s|
    ensures s[a..b][c..] == s[a + c..b]
  {
  }

  /** SubInputStream (and the earlier SubStream, which is the same class): the
      bytes [start, end) of the file, with a cursor that stays in [start, end]. */
  class SubInputStream {
    const file: seq<byte>
    const start: nat
    const end: nat
    var offset: nat
    var closed: bool

    ghost predicate Valid()
      reads this
    {
      start <= offset <= end <= |file|
    }

    /** A range whose length, cast to an int, is negative: the first read
        after a restart throws. Below 2 GiB a range never is. */
    predicate Overlong()
    {
      IntCast(end - start) < 0
    }

    /** What reads deliver after a restart: the first (int)(end - start)
        bytes of the range, which is all of it below 2 GiB. */
    ghost function FromStart(): (r: seq<byte>)
      requires start <= end <= |file|
      ensures end - start < 0x8000_0000 ==> r == file[start..end]
    {
      if Overlong() then [] else file[start..start + IntCast(end - start)]
    }

    /** The cursor is where reads from start leave it: at start while the
        first read would throw, otherwise inside FromStart() with the rest
        of it still to come. */
    ghost predicate OnTrack()
      reads this
      requires Valid()
    {
      if Overlong() then offset == start
      else offset - start <= IntCast(end - start)
    }

    /** On track, the count a read may ask for is what is left of
        FromStart(), and negative exactly when the range is overlong. */
    lemma SpanOnTrack()
      requires Valid() && OnTrack()
      ensures Overlong() ==> Span() < 0
      ensures !Overlong() ==> Span() == |FromStart()| - (offset - start)
    {
      if !Overlong() {
        IntCastShift(end - start, offset - start);
      }
    }

    /** Java's `(int)(end - offset)`: the count a read may ask the file
        for. It is the distance to end while that is below 2 GiB; a longer
        distance keeps only its low 32 bits, read as a signed int. */
    function Span(): int
      reads this
    {
      IntCast(end - offset)
    }

    /** What reads from the cursor deliver before they report the end: the
        next Span() bytes. A negative Span() delivers nothing, since every
        read then throws. */
    ghost function Remaining(): (r: seq<byte>)
      reads this
      requires Valid()
      ensures end - offset < 0x8000_0000 ==> r == file[offset..end]
    {
      RemainingAt(offset)
    }

    /** Remaining() with the cursor at o. */
    ghost function RemainingAt(o: nat): seq<byte>
      requires start <= o <= end <= |file|
    {
      if IntCast(end - o) < 0 then [] else file[o..o + IntCast(end - o)]
    }

    /** Reads that move the cursor from o to p, no further than the count
        a read at o may ask for, leave what was left at o less the bytes
        they delivered. */
    lemma RemainingMoved(o: nat, p: nat)
      requires start <= o <= p <= end <= |file| && p - o <= IntCast(end - o)
      ensures RemainingAt(p) == RemainingAt(o)[p - o..]
      ensures IntCast(end - p) == IntCast(end - o) - (p - o)
    {
      var k := IntCast(end - o);
      IntCastShift(end - o, p - o);
      assert p + IntCast(end - p) == o + k;
      SliceTail(file, o, o + k, p - o);
    }

    constructor Init(file: seq<byte>, start: nat, end: nat)
      requires start <= end <= |file|
      ensures Valid() && !closed
      ensures this.file == file && this.start == start && this.end == end && offset == start
    {
      this.file := file;
      this.start := start;
      this.end := end;
      offset := start;
      closed := false;
    }

    /** The three-argument constructor: start must not pass end, end must not
        pass the end of the file. */
    static method Create(file: seq<byte>, start: nat, end: nat) returns (r: Result<SubInputStream>)
      ensures r.Ok? <==> start <= end <= |file|
      ensures r.Err? ==> r.error == (if start > end then StartAfterEnd else EndAfterFileLength)
      ensures r.Ok? ==> fresh(r.value) && r.value.Valid() && !r.value.closed
      ensures r.Ok? ==> r.value.file == file && r.value.start == start && r.value.end == end
      ensures r.Ok? ==> r.value.offset == start
    {
      var ok := Check(start <= end, StartAfterEnd);
      if ok.Fail? {
        return Err(ok.error);
      }
      ok := Check(end <= |file|, EndAfterFileLength);
      if ok.Fail? {
        return Err(ok.error);
      }
      var s := new SubInputStream.Init(file, start, end);
      r := Ok(s);
    }

    /** The two-argument constructor: the view runs to the end of the file. */
    static method CreateFrom(file: seq<byte>, start: nat) returns (r: Result<SubInputStream>)
      ensures r.Ok? <==> start <= |file|
      ensures r.Err? ==> r.error == StartAfterEnd
      ensures r.Ok? ==> fresh(r.value) && r.value.Valid() && !r.value.closed
      ensures r.Ok? ==> r.value.file == file && r.value.start == start && r.value.end == |file|
      ensures r.Ok? ==> r.value.offset == start
    {
      r := Create(file, start, |file|);
    }

    method Close()
      modifies this
      ensures closed && offset == old(offset)
    {
      closed := true;
    }

    /** 1 while bytes remain before end, else 0. */
    method Available() returns (r: Result<int>)
      requires Valid()
      ensures closed ==> r == Err(StreamClosed)
      ensures !closed ==> r.Ok? && (r.value == 1 <==> offset < end) && (r.value == 0 <==> offset == end)
    {
      if closed {
        return Err(StreamClosed);
      }
      r := Ok(if offset < end then 1 else 0);
    }

    /** Bulk read: nothing for len 0; otherwise min(len, (int)(end - offset))
        is asked of the file. A negative count makes the file read throw, a
        zero count (the end, or a distance that is a multiple of 4 GiB) reads
        as -1, and a positive one copies that many bytes and moves the
        cursor by them. */
    method Read(b: array<byte>, off: nat, len: nat) returns (r: Result<int>)
      requires Valid() && off + len <= b.Length
      modifies this, b
      ensures Valid() && closed == old(closed)
      ensures r == if old(closed) then Err(StreamClosed)
                   else if len == 0 then Ok(0)
                   else if old(Span()) < 0 then Err(IndexOutOfRange)
                   else if old(Span()) == 0 then Ok(-1)
                   else Ok(Min(len, old(Span())))
      ensures offset == old(offset) + (if r.Ok? && r.value > 0 then r.value else 0)
      ensures old(Span()) >= 0 ==> 0 <= Span() == old(Span()) - (offset - old(offset))
      ensures old(OnTrack()) ==> OnTrack()
      ensures forall j :: off <= j < off + offset - old(offset) ==> b[j] == file[old(offset) + j - off]
      ensures forall j :: 0 <= j < b.Length && !(off <= j < off + offset - old(offset)) ==> b[j] == old(b[j])
    {
      if OnTrack() {
        SpanOnTrack();
      }
      if closed {
        return Err(StreamClosed);
      }
      if len == 0 {
        return Ok(0);
      }
      if offset >= end {
        return Ok(-1);
      }
      var count := Min(len, IntCast(end - offset));
      if count < 0 {
        return Err(IndexOutOfRange);
      }
      if count == 0 {
        return Ok(-1);
      }
      Deliver(b, off, count);
      r := Ok(count);
    }

    /** The copy at the heart of a read: count bytes from the cursor into b
        at off, and the cursor moved past them. */
    method Deliver(b: array<byte>, off: nat, count: nat)
      requires Valid() && 0 < count <= Span() && off + count <= b.Length
      modifies this, b
      ensures Valid() && closed == old(closed) && offset == old(offset) + count
      ensures Span() == old(Span()) - count
      ensures old(OnTrack()) ==> OnTrack()
      ensures forall j :: off <= j < off + count ==> b[j] == file[old(offset) + j - off]
      ensures forall j :: 0 <= j < b.Length && !(off <= j < off + count) ==> b[j] == old(b[j])
    {
      IntCastShift(end - offset, count);
      CopyInto(file, offset, count, b, off);
      offset := offset + count;
    }

    /** GsZipInputStream.read(): a one-byte read, whose byte comes back as
        0..255, or -1 when the read finds the end. */
    method ReadByte() returns (r: Result<int>)
      requires Valid()
      modifies this
      ensures Valid() && closed == old(closed)
      ensures old(closed) ==> r == Err(StreamClosed)
      ensures !old(closed) && old(Span()) < 0 ==> r == Err(IndexOutOfRange)
      ensures !old(closed) && old(Span()) == 0 ==> r == Ok(-1)
      ensures !old(closed) && old(Span()) > 0 ==> r == Ok(file[old(offset)] as int) && offset == old(offset) + 1
      ensures !(r.Ok? && r.value != -1) ==> offset == old(offset)
    {
      if closed {
        return Err(StreamClosed);
      }
      var buffer := new byte[1];
      var count :- Read(buffer, 0, 1);
      r := Ok(if count > 0 then buffer[0] as int else -1);
    }

    /** Back to the first byte of the range. */
    method Restart() returns (r: Outcome)
      requires Valid()
      modifies this
      ensures Valid() && closed == old(closed)
      ensures r.Pass? <==> !closed
      ensures r.Fail? ==> r.error == StreamClosed && offset == old(offset)
      ensures r.Pass? ==> offset == start && Span() == IntCast(end - start) && OnTrack() && Remaining() == FromStart()
      ensures r.Pass? ==> (Span() < 0 <==> Overlong()) && (!Overlong() ==> Span() == |FromStart()|)
    {
      if closed {
        return Fail(StreamClosed);
      }
      offset := start;
      r := Pass;
    }
  }

  /** The earlier GsZipSubStream: no closed flag and no restart; the end can be
      moved with ResetSize, and both bounds are checked strictly, so the last
      byte of the file is never inside a view. Cursor and end are Java ints:
      skip and resetSize move them without a check, so they can leave the
      range, and the next read then fails or finds the file's end. */
  class LegacySubStream {
    const file: seq<byte>
    var offset: int
    var endOffset: int

    ghost predicate Valid()
      reads this
    {
      JavaInt(offset) && JavaInt(endOffset)
    }

    constructor Init(file: seq<byte>, offset: int, endOffset: int)
      requires JavaInt(offset) && JavaInt(endOffset)
      ensures Valid()
      ensures this.file == file && this.offset == offset && this.endOffset == endOffset
    {
      this.file := file;
      this.offset := offset;
      this.endOffset := endOffset;
    }

    /** offset < endOffset ("Error length") and endOffset < file length
        ("Error end offset"), both strict. */
    static method Create(file: seq<byte>, offset: int, endOffset: int) returns (r: Result<LegacySubStream>)
      requires JavaInt(offset) && JavaInt(endOffset)
      ensures r.Ok? <==> offset < endOffset < |file|
      ensures r.Err? ==> r.error == (if offset >= endOffset then ErrorLength else ErrorEndOffset)
      ensures r.Ok? ==> fresh(r.value) && r.value.Valid() && r.value.file == file
      ensures r.Ok? ==> r.value.offset == offset && r.value.endOffset == endOffset
    {
      var ok := Check(offset < endOffset, ErrorLength);
      if ok.Fail? {
        return Err(ok.error);
      }
      ok := Check(endOffset < |file|, ErrorEndOffset);
      if ok.Fail? {
        return Err(ok.error);
      }
      var s := new LegacySubStream.Init(file, offset, endOffset);
      r := Ok(s);
    }

    /** The one-offset constructor passes `(int) file.length()` as the end,
        which the strict check rejects for every file shorter than 2 GiB. */
    static method CreateFrom(file: seq<byte>, offset: int) returns (r: Result<LegacySubStream>)
      requires JavaInt(offset)
      ensures r.Ok? <==> offset < IntCast(|file|) < |file|
      ensures |file| < 0x8000_0000 ==> r == Err(if offset >= |file| then ErrorLength else ErrorEndOffset)
      ensures r.Ok? ==> fresh(r.value) && r.value.Valid() && r.value.file == file
      ensures r.Ok? ==> r.value.offset == offset && r.value.endOffset == IntCast(|file|)
    {
      r := Create(file, offset, IntCast(|file|));
    }

    /** The end moves to offset + size, an int sum, before the check, so a
        failed call still moves it. */
    method ResetSize(size: int) returns (r: Outcome)
      requires Valid() && JavaInt(size)
      modifies this
      ensures Valid() && offset == old(offset) && endOffset == IntCast(offset + size)
      ensures JavaInt(offset + size) ==> endOffset == offset + size
      ensures r.Pass? <==> endOffset < |file|
      ensures r.Fail? ==> r.error == ErrorEndOffset
    {
      endOffset := IntCast(offset + size);
      r := Check(endOffset < |file|, ErrorEndOffset);
    }

    method Available() returns (r: int)
      requires Valid()
      ensures r == 1 <==> offset < endOffset
      ensures r == 0 <==> offset >= endOffset
    {
      r := if offset < endOffset then 1 else 0;
    }

    /** The count is clamped to endOffset - offset, an int difference; the
        seek refuses a negative cursor, the file read a negative count, and
        a read past the file's end gives -1. Nothing read gives -1, also for
        a zero count. Inside the range this is a plain clamped copy. */
    method Read(b: array<byte>, off: nat, len: nat) returns (r: Result<int>)
      requires Valid() && off + len <= b.Length
      modifies this, b
      ensures Valid() && endOffset == old(endOffset)
      ensures old(offset) < 0 ==> r == Err(NegativeOffset)
      ensures 0 <= old(offset) ==>
        var n := Min(len, IntCast(endOffset - old(offset)));
        && (n < 0 ==> r == Err(IndexOutOfRange))
        && (0 <= n ==> r.Ok? && (r.value == -1 <==> n == 0 || old(offset) >= |file|))
        && (r.Ok? && r.value != -1 ==> r.value == Min(n, |file| - old(offset)))
      ensures 0 <= old(offset) <= endOffset < |file| ==>
        r == Ok(if len == 0 || old(offset) == endOffset then -1 else Min(len, endOffset - old(offset)))
      ensures r.Ok? && r.value != -1 ==> offset == IntCast(old(offset) + r.value)
      ensures !(r.Ok? && r.value != -1) ==> offset == old(offset)
      ensures r.Ok? && r.value != -1 ==>
        forall j :: off <= j < off + r.value ==> b[j] == file[old(offset) + j - off]
      ensures forall j :: 0 <= j < b.Length && !(r.Ok? && r.value != -1 && off <= j < off + r.value) ==> b[j] == old(b[j])
    {
      if offset < 0 {
        return Err(NegativeOffset);
      }
      var n := Min(len, IntCast(endOffset - offset));
      if n < 0 {
        return Err(IndexOutOfRange);
      }
      var count := if offset < |file| then Min(n, |file| - offset) else 0;
      if count > 0 {
        CopyInto(file, offset, count, b, off);
        offset := IntCast(offset + count);
        r := Ok(count);
      } else {
        r := Ok(-1);
      }
    }

    /** The single-byte read returns the byte as a signed Java byte, and
        passes on the bulk read's failure. */
    method ReadByte() returns (r: Result<int>)
      requires Valid()
      modifies this
      ensures Valid() && endOffset == old(endOffset)
      ensures old(offset) < 0 ==> r == Err(NegativeOffset)
      ensures 0 <= old(offset) <= endOffset < |file| ==> r == Ok(SignedByteAt(file[..endOffset], old(offset)))
      ensures 0 <= old(offset) <= endOffset < |file| ==> (r.value == -1 <==> old(offset) == endOffset || file[old(offset)] == 0xFF)
      ensures 0 <= old(offset) < endOffset < |file| ==> offset == old(offset) + 1
      ensures old(offset) == endOffset ==> offset == old(offset)
    {
      var buffer := new byte[1];
      var count := Read(buffer, 0, 1);
      if count.Err? {
        return Err(count.error);
      }
      r := Ok(if count.value > 0 then Signed8(buffer[0]) else -1);
    }

    /** skip(long): the count is min(n, endOffset - offset), the cursor moves
        by it as an int, without a check, and the count is returned. Inside
        the range a count n >= 0 stops at the end; a negative one moves the
        cursor back, even before the start or below 0. */
    method Skip(n: int) returns (r: int)
      requires Valid() && -0x8000_0000_0000_0000 <= n < 0x8000_0000_0000_0000
      modifies this
      ensures Valid() && endOffset == old(endOffset)
      ensures r == Min(n, IntCast(endOffset - old(offset))) && offset == IntCast(old(offset) + r)
      ensures 0 <= old(offset) <= endOffset && n >= 0 ==> 0 <= r <= n && old(offset) <= offset <= endOffset
      ensures n < 0 && 0 <= old(offset) <= endOffset && JavaInt(old(offset) + n) ==> r == n && offset == old(offset) + n
    {
      r := Min(n, IntCast(endOffset - offset));
      offset := IntCast(offset + r);
    }
  }
}
