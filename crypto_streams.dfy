/** The restartable byte-stream pipeline, part two: the PKWARE encrypting and
    decrypting wrappers around a range view, and the observable differences of
    their older, non-restartable revisions.

    Each wrapper owns a key object and is proved against the byte-sequence
    cipher of module PKWare, for whatever cipher its key runs: what a read
    delivers is a stretch of one fixed sequence (`Output()`), determined by the
    password, the header bytes and the base range alone. The 11 random header
    bytes of the encrypting stream are a parameter. */
module CryptoStreams {
  import opened ZipCommon
  import opened PKWare
  import opened Streams

  /** Length of the encryption header. */
  const HEADER_LEN: nat := 12

  /** key.update for each byte of s, in order. */
  method Feed(key: PKWareKey, s: seq<byte>)
    modifies key
    ensures key.State() == Run(key.cipher, old(key.State()), s)
  {
    ghost var k0 := key.State();
    var i := 0;
    while i < |s|
      invariant 0 <= i <= |s|
      invariant key.State() == KeysAt(key.cipher, k0, s, i)
    {
      key.Update(s[i]);
      i := i + 1;
    }
    EncryptByIndex(key.cipher, k0, s);
  }

  /** One step of the encrypting loop: b[j] ^= cryptByte, then update with the
      original byte. */
  method EncryptAt(key: PKWareKey, b: array<byte>, j: nat)
    requires j < b.Length
    modifies key, b
    ensures key.State() == Step(key.cipher, old(key.State()), old(b[j]))
    ensures b[j] == Xor(old(b[j]), Pad(key.cipher, old(key.State())))
    ensures forall k :: 0 <= k < b.Length && k != j ==> b[k] == old(b[k])
  {
    var c := b[j];
    var pad := key.CryptByte();
    b[j] := Xor(c, pad);
    key.Update(c);
  }

  /** One step of the decrypting loop: b[j] ^= cryptByte, then update with the
      decrypted byte. */
  method DecryptAt(key: PKWareKey, b: array<byte>, j: nat)
    requires j < b.Length
    modifies key, b
    ensures b[j] == Xor(old(b[j]), Pad(key.cipher, old(key.State())))
    ensures key.State() == Step(key.cipher, old(key.State()), b[j])
    ensures forall k :: 0 <= k < b.Length && k != j ==> b[k] == old(b[k])
  {
    var pad := key.CryptByte();
    b[j] := Xor(b[j], pad);
    key.Update(b[j]);
  }

  /** The encrypting loop over b[off..off+n], which holds bytes at..at+n of the
      plaintext s; the key holds the registers after the first at bytes of s.
      Afterwards b holds those bytes encrypted, and the key the registers after
      at + n bytes. */
  method EncryptInPlace(key: PKWareKey, b: array<byte>, off: nat, n: nat,
                        ghost s: seq<byte>, ghost k0: Keys, ghost at: nat)
    requires off + n <= b.Length && at + n <= |s|
    requires forall j :: off <= j < off + n ==> b[j] == s[at + j - off]
    requires key.State() == KeysAt(key.cipher, k0, s, at)
    modifies key, b
    ensures key.State() == KeysAt(key.cipher, k0, s, at + n)
    ensures forall j {:trigger b[j]} :: off <= j < off + n ==> b[j] == Encrypt(key.cipher, k0, s)[at + j - off]
    ensures forall j :: 0 <= j < b.Length && !(off <= j < off + n) ==> b[j] == old(b[j])
  {
    var i := off;
    while i < off + n
      invariant off <= i <= off + n
      invariant key.State() == KeysAt(key.cipher, k0, s, at + i - off)
      invariant forall j {:trigger b[j]} :: off <= j < i ==>
                  b[j] == Xor(s[at + j - off], Pad(key.cipher, KeysAt(key.cipher, k0, s, at + j - off)))
      invariant forall j :: 0 <= j < b.Length && !(off <= j < i) ==> b[j] == old(b[j])
    {
      EncryptAt(key, b, i);
      i := i + 1;
    }
    EncryptByIndex(key.cipher, k0, s);
  }

  /** The decrypting loop over b[off..off+n], which holds bytes at..at+n of the
      ciphertext c. */
  method DecryptInPlace(key: PKWareKey, b: array<byte>, off: nat, n: nat,
                        ghost c: seq<byte>, ghost k0: Keys, ghost at: nat)
    requires off + n <= b.Length && at + n <= |c|
    requires forall j :: off <= j < off + n ==> b[j] == c[at + j - off]
    requires key.State() == DecryptKeysAt(key.cipher, k0, c, at)
    modifies key, b
    ensures key.State() == DecryptKeysAt(key.cipher, k0, c, at + n)
    ensures forall j {:trigger b[j]} :: off <= j < off + n ==> b[j] == Decrypt(key.cipher, k0, c)[at + j - off]
    ensures forall j :: 0 <= j < b.Length && !(off <= j < off + n) ==> b[j] == old(b[j])
  {
    var i := off;
    while i < off + n
      invariant off <= i <= off + n
      invariant key.State() == DecryptKeysAt(key.cipher, k0, c, at + i - off)
      invariant forall j {:trigger b[j]} :: off <= j < i ==>
                  b[j] == Xor(c[at + j - off], Pad(key.cipher, DecryptKeysAt(key.cipher, k0, c, at + j - off)))
      invariant forall j :: 0 <= j < b.Length && !(off <= j < i) ==> b[j] == old(b[j])
    {
      DecryptAt(key, b, i);
      i := i + 1;
    }
    DecryptByIndex(key.cipher, k0, c);
  }

  /** The encrypted header is the start of the encryption of header and body,
      and the registers after the header are the ones encrypting the body starts
      from. */
  lemma HeaderFirst(f: Cipher, seed: Keys, rawHeader: seq<byte>, body: seq<byte>)
    ensures forall i {:trigger Encrypt(f, seed, rawHeader)[i]} :: 0 <= i < |rawHeader| ==> Encrypt(f, seed, rawHeader + body)[i] == Encrypt(f, seed, rawHeader)[i]
    ensures KeysAt(f, seed, rawHeader + body, |rawHeader|) == Run(f, seed, rawHeader)
  {
    EncryptAppend(f, seed, rawHeader, body);
    KeysAtRun(f, seed, rawHeader + body, |rawHeader|);
    assert (rawHeader + body)[..|rawHeader|] == rawHeader;
  }

  /** Bytes a read copied from the file, past the header, are the bytes of
      header + body at the same place. */
  lemma PlainAt(file: seq<byte>, start: nat, rawHeader: seq<byte>, body: seq<byte>,
                b: array<byte>, off: nat, n: nat, at: nat)
    requires |rawHeader| <= at && at - |rawHeader| + n <= |body| && start + |body| <= |file|
    requires body == file[start..start + |body|]
    requires off + n <= b.Length
    requires forall j :: off <= j < off + n ==> b[j] == file[start + at - |rawHeader| + j - off]
    ensures forall j :: off <= j < off + n ==> b[j] == (rawHeader + body)[at + j - off]
  {
  }

  /** A read of a base whose window length is a valid count and whose
      cursor follows the reads from its start: it cannot throw, and delivers
      -1 at the end, otherwise the next bytes, at most len of them. */
  method TrackedRead(base: SubInputStream, b: array<byte>, off: nat, len: nat) returns (n: int)
    requires base.Valid() && !base.closed && base.OnTrack() && !base.Overlong() && off + len <= b.Length
    modifies base, b
    ensures base.Valid() && !base.closed && base.OnTrack() && old(base.offset) <= base.offset
    ensures n == if len == 0 then 0 else if old(base.Span()) == 0 then -1 else Min(len, old(base.Span()))
    ensures n >= 0 ==> base.offset == old(base.offset) + n
    ensures n < 0 ==> base.offset == old(base.offset)
    ensures forall j :: off <= j < off + n ==> b[j] == base.file[old(base.offset) + j - off]
    ensures forall j :: 0 <= j < b.Length && !(off <= j < off + n) ==> b[j] == old(b[j])
  {
    base.SpanOnTrack();
    ghost var from := base.offset;
    var r := base.Read(b, off, len);
    assert r.Ok?;
    n := r.value;
    assert n >= 0 ==> base.offset == from + n;
  }

  /** The same for a read with nothing in front of the window's bytes. */
  lemma BodyAt(file: seq<byte>, start: nat, body: seq<byte>, b: array<byte>, off: nat, n: nat, at: nat)
    requires at + n <= |body| && start + |body| <= |file| && body == file[start..start + |body|]
    requires off + n <= b.Length
    requires forall j :: off <= j < off + n ==> b[j] == file[start + at + j - off]
    ensures forall j :: off <= j < off + n ==> b[j] == body[at + j - off]
  {
  }

  /** PKWareEncryptInputStream (newest and libzip revisions): the encrypted
      header, then the base bytes encrypted. */
  class PKWareEncryptInputStream {
    const base: SubInputStream
    const password: seq<byte>
    const key: PKWareKey
    const rawHeader: seq<byte>
    var header: seq<byte>
    var headerPos: nat
    var closed: bool

    /** The registers after reset and the password. */
    ghost function Seed(): Keys
    {
      Seeded(key.cipher, password)
    }

    /** The bytes the cipher consumes: the plaintext header, then what the
        base delivers from its start. */
    ghost function Plain(): seq<byte>
      requires base.start <= base.end <= |base.file|
    {
      rawHeader + base.FromStart()
    }

    /** Everything the stream delivers between a restart and the end. */
    ghost function Output(): seq<byte>
      requires base.start <= base.end <= |base.file|
    {
      Encrypt(key.cipher, Seed(), Plain())
    }

    /** How many bytes of Output() have been delivered. */
    ghost function Position(): nat
      reads this, base
      requires base.Valid()
    {
      if headerPos < HEADER_LEN then headerPos else HEADER_LEN + base.offset - base.start
    }

    ghost predicate Wired()
      reads this, base
    {
      base.Valid() && |rawHeader| == HEADER_LEN && (!closed ==> !base.closed)
    }

    /** The header is the encrypted plaintext header; while it is being served
        the base has not moved; the key holds the registers after the plaintext
        header and the base bytes read so far. */
    ghost predicate Valid()
      reads this, base, key
    {
      Wired() && headerPos <= HEADER_LEN
      && header == Encrypt(key.cipher, Seed(), rawHeader)
      && (headerPos < HEADER_LEN ==> base.offset == base.start)
      && base.OnTrack()
      && key.State() == KeysAt(key.cipher, Seed(), Plain(), HEADER_LEN + base.offset - base.start)
    }

    /** The header is out and the base's first read throws: so does every
        further read of this stream. */
    ghost predicate Stuck()
      reads this
    {
      headerPos == HEADER_LEN && base.Overlong()
    }

    constructor Init(base: SubInputStream, password: seq<byte>, checkByte: byte, random: seq<byte>)
      requires base.Valid() && !base.closed && |random| == HEADER_LEN
      modifies base
      ensures Valid() && !closed && Position() == 0
      ensures this.base == base && this.password == password && fresh(key) && key.cipher == PKWARE
      ensures rawHeader == random[..HEADER_LEN - 1] + [checkByte]
    {
      this.base := base;
      this.password := password;
      key := new PKWareKey();
      rawHeader := random[..HEADER_LEN - 1] + [checkByte];
      header := [];
      headerPos := 0;
      closed := false;
      new;
      var _ := Restart();
    }

    /** The constructor: random supplies the header bytes, whose last one is
        replaced by the check byte. It fails only through restart, when the
        base is closed. */
    static method Create(base: SubInputStream, password: seq<byte>, checkByte: byte, random: seq<byte>)
      returns (r: Result<PKWareEncryptInputStream>)
      requires base.Valid() && |random| == HEADER_LEN
      modifies base
      ensures r.Ok? <==> !base.closed
      ensures r.Err? ==> r.error == StreamClosed
      ensures r.Ok? ==> fresh(r.value.key) && r.value.Valid() && !r.value.closed && r.value.Position() == 0
      ensures r.Ok? ==> r.value.base == base && r.value.password == password && r.value.key.cipher == PKWARE
      ensures r.Ok? ==> r.value.rawHeader == random[..HEADER_LEN - 1] + [checkByte]
    {
      if base.closed {
        return Err(StreamClosed);
      }
      var s := new PKWareEncryptInputStream.Init(base, password, checkByte, random);
      r := Ok(s);
    }

    /** header[i] = rawHeader[i] ^ cryptByte, then update with rawHeader[i]. */
    method EncryptHeader()
      requires |rawHeader| == HEADER_LEN
      modifies key, this
      ensures header == Encrypt(key.cipher, old(key.State()), rawHeader)
      ensures key.State() == Run(key.cipher, old(key.State()), rawHeader)
      ensures headerPos == old(headerPos) && closed == old(closed)
    {
      ghost var k0 := key.State();
      var buffer := new byte[HEADER_LEN];
      var i := 0;
      while i < HEADER_LEN
        invariant 0 <= i <= HEADER_LEN
        invariant key.State() == KeysAt(key.cipher, k0, rawHeader, i)
        modifies key, buffer
        invariant forall j {:trigger buffer[j]} :: 0 <= j < i ==> buffer[j] == Xor(rawHeader[j], Pad(key.cipher, KeysAt(key.cipher, k0, rawHeader, j)))
      {
        var pad := key.CryptByte();
        buffer[i] := Xor(rawHeader[i], pad);
        key.Update(rawHeader[i]);
        i := i + 1;
      }
      header := buffer[..];
      EncryptByIndex(key.cipher, k0, rawHeader);
      assert forall j | 0 <= j < HEADER_LEN :: header[j] == buffer[j];
    }

    /** Back to the first header byte: base restarted, key reset and fed the
        password, header re-encrypted from the same plaintext header. */
    method Restart() returns (r: Outcome)
      requires Wired()
      modifies this, base, key
      ensures Wired() && closed == old(closed)
      ensures r.Pass? <==> !closed
      ensures r.Fail? ==> r.error == StreamClosed
      ensures r.Pass? ==> Valid() && Position() == 0
      ensures old(Valid()) ==> Valid()
    {
      if closed {
        return Fail(StreamClosed);
      }
      var _ := base.Restart();
      key.Reset();
      headerPos := 0;
      Feed(key, password);
      EncryptHeader();
      HeaderFirst(key.cipher, Seed(), rawHeader, base.FromStart());
      r := Pass;
    }

    method Close()
      requires Valid()
      modifies this, base
      ensures Valid() && closed && base.closed
    {
      base.Close();
      closed := true;
    }

    /** 1 while header bytes remain, else what the base reports: 1 whenever
        bytes remain, and exactly then below 2 GiB. */
    method Available() returns (r: Result<int>)
      requires Valid()
      ensures closed ==> r == Err(StreamClosed)
      ensures !closed ==> r.Ok? && (r.value == 0 || r.value == 1) && (Position() < |Output()| ==> r.value == 1)
      ensures !closed && base.end - base.start < 0x8000_0000 ==>
                (r.value == 1 <==> Position() < |Output()|) && (r.value == 0 <==> Position() == |Output()|)
    {
      if closed {
        return Err(StreamClosed);
      }
      if headerPos < HEADER_LEN {
        return Ok(1);
      }
      r := base.Available();
    }

    /** A read serves header bytes only, until the header is out; after that,
        base bytes encrypted. Either way it delivers the next bytes of
        Output(), unless the base read throws. */
    method Read(b: array<byte>, off: nat, len: nat) returns (r: Result<int>)
      requires Valid() && off + len <= b.Length
      modifies this, base, key, b
      ensures Valid() && closed == old(closed)
      ensures old(closed) ==> r == Err(StreamClosed)
      ensures !old(closed) && len > 0 && old(Stuck()) ==> r == Err(IndexOutOfRange)
      ensures !old(closed) && !(len > 0 && old(Stuck())) ==> r.Ok?
      ensures !old(closed) && len > 0 && !old(Stuck()) && old(Position()) == |Output()| ==> r.value == -1
      ensures !old(closed) && (len == 0 || old(Position()) < |Output()|) ==>
                r.value == Min(len, (if old(Position()) < HEADER_LEN then HEADER_LEN else |Output()|)
                                    - old(Position()))
      ensures r.Ok? && r.value >= 0 ==> Position() == old(Position()) + r.value
      ensures !(r.Ok? && r.value >= 0) ==> Position() == old(Position())
      ensures forall j :: off <= j < off + Position() - old(Position()) ==> b[j] == Output()[old(Position()) + j - off]
      ensures forall j :: 0 <= j < b.Length && !(off <= j < off + Position() - old(Position())) ==> b[j] == old(b[j])
      ensures old(headerPos) < HEADER_LEN ==> base.offset == old(base.offset)
    {
      if closed {
        return Err(StreamClosed);
      }
      if len == 0 {
        return Ok(0);
      }
      if headerPos < HEADER_LEN {
        var count := ReadHeader(b, off, len);
        return Ok(count);
      }
      r := ReadBody(b, off, len);
    }

    /** The header branch of read: the next header bytes, at most len of them. */
    method ReadHeader(b: array<byte>, off: nat, len: nat) returns (count: nat)
      requires Valid() && !closed && 0 < len && off + len <= b.Length && headerPos < HEADER_LEN
      modifies this, b
      ensures Valid() && !closed
      ensures count == Min(HEADER_LEN - old(headerPos), len) && Position() == old(Position()) + count
      ensures forall j :: off <= j < off + count ==> b[j] == Output()[old(Position()) + j - off]
      ensures forall j :: 0 <= j < b.Length && !(off <= j < off + count) ==> b[j] == old(b[j])
    {
      count := Min(HEADER_LEN - headerPos, len);
      HeaderFirst(key.cipher, Seed(), rawHeader, base.FromStart());
      CopyInto(header, headerPos, count, b, off);
      headerPos := headerPos + count;
    }

    /** Past the header, what is left of Output() is what the base has left
        to deliver. */
    lemma BodyLeft()
      requires Wired() && headerPos == HEADER_LEN && base.OnTrack()
      ensures !base.Overlong() ==> |Output()| - Position() == base.Span()
      ensures base.Overlong() ==> |Output()| == Position()
    {
      base.SpanOnTrack();
    }

    /** The body branch of read: one base read, its bytes encrypted in place. */
    method ReadBody(b: array<byte>, off: nat, len: nat) returns (r: Result<int>)
      requires Valid() && !closed && 0 < len && off + len <= b.Length && headerPos == HEADER_LEN
      modifies base, key, b
      ensures Valid()
      ensures base.Overlong() ==> r == Err(IndexOutOfRange)
      ensures !base.Overlong() && old(Position()) == |Output()| ==> r == Ok(-1)
      ensures old(Position()) < |Output()| ==> r == Ok(Min(len, |Output()| - old(Position())))
      ensures Position() == old(Position()) + (if r.Ok? && r.value >= 0 then r.value else 0)
      ensures forall j :: off <= j < off + Position() - old(Position()) ==> b[j] == Output()[old(Position()) + j - off]
      ensures forall j :: 0 <= j < b.Length && !(off <= j < off + Position() - old(Position())) ==> b[j] == old(b[j])
    {
      BodyLeft();
      if base.Overlong() {
        r := base.Read(b, off, len);
      } else {
        r := ReadTracked(b, off, len);
      }
    }

    /** The body branch on a base whose length is a valid count: the base
        read cannot throw. */
    method ReadTracked(b: array<byte>, off: nat, len: nat) returns (r: Result<int>)
      requires Valid() && !closed && 0 < len && off + len <= b.Length && headerPos == HEADER_LEN
      requires !base.Overlong()
      modifies base, key, b
      ensures Valid() && r.Ok?
      ensures old(Position()) == |Output()| ==> r.value == -1
      ensures old(Position()) < |Output()| ==> r.value == Min(len, |Output()| - old(Position()))
      ensures Position() == old(Position()) + (if r.value >= 0 then r.value else 0)
      ensures forall j :: off <= j < off + Position() - old(Position()) ==> b[j] == Output()[old(Position()) + j - off]
      ensures forall j :: 0 <= j < b.Length && !(off <= j < off + Position() - old(Position())) ==> b[j] == old(b[j])
    {
      ghost var at := Position();
      var n := ReadPlain(b, off, len);
      if n > 0 {
        EncryptChunk(b, off, n, at);
      }
      r := Ok(n);
    }

    /** The base read of the body branch: it delivers what is left of
        Output(), at most len bytes, still as the plaintext the cipher
        consumes there; the key has not moved yet. */
    method ReadPlain(b: array<byte>, off: nat, len: nat) returns (n: int)
      requires Wired() && !closed && 0 < len && off + len <= b.Length && headerPos == HEADER_LEN
      requires base.OnTrack() && !base.Overlong()
      modifies base, b
      ensures Wired() && base.OnTrack()
      ensures old(Position()) == |Output()| ==> n == -1
      ensures old(Position()) < |Output()| ==> n == Min(len, |Output()| - old(Position()))
      ensures Position() == old(Position()) + (if n >= 0 then n else 0)
      ensures forall j :: off <= j < off + n ==> b[j] == Plain()[old(Position()) + j - off]
      ensures forall j :: 0 <= j < b.Length && !(off <= j < off + n) ==> b[j] == old(b[j])
    {
      ghost var from := base.offset;
      BodyLeft();
      n := TrackedRead(base, b, off, len);
      if n > 0 {
        ChunkIsPlain(b, off, n, from);
      }
    }

    /** The bytes one base read delivered from `from` on are the plaintext
        the cipher consumes there, behind the plaintext header. */
    lemma ChunkIsPlain(b: array<byte>, off: nat, n: nat, from: nat)
      requires Wired() && base.OnTrack() && base.start <= from && from + n == base.offset
      requires off + n <= b.Length
      requires forall j :: off <= j < off + n ==> b[j] == base.file[from + j - off]
      ensures forall j :: off <= j < off + n ==> b[j] == Plain()[HEADER_LEN + from - base.start + j - off]
    {
      PlainAt(base.file, base.start, rawHeader, base.FromStart(), b, off, n, HEADER_LEN + from - base.start);
    }

    /** The plaintext bytes one base read delivered, at position `at` of the
        stream, encrypted in place: they become the matching bytes of
        Output(), and the key moves past them. */
    method EncryptChunk(b: array<byte>, off: nat, n: nat, ghost at: nat)
      requires Wired() && !closed && headerPos == HEADER_LEN && header == Encrypt(key.cipher, Seed(), rawHeader)
      requires base.OnTrack() && at + n == HEADER_LEN + base.offset - base.start
      requires off + n <= b.Length
      requires forall j :: off <= j < off + n ==> b[j] == Plain()[at + j - off]
      requires key.State() == KeysAt(key.cipher, Seed(), Plain(), at)
      modifies key, b
      ensures Valid()
      ensures forall j :: off <= j < off + n ==> b[j] == Output()[at + j - off]
      ensures forall j :: 0 <= j < b.Length && !(off <= j < off + n) ==> b[j] == old(b[j])
    {
      ghost var plain := Plain();
      ghost var out := Output();
      assert out == Encrypt(key.cipher, Seed(), plain);
      EncryptInPlace(key, b, off, n, plain, Seed(), at);
      KeyCaughtUp();
      assert forall j :: off <= j < off + n ==> b[j] == out[at + j - off];
    }

    /** Once the key has consumed the plaintext up to the base cursor, the
        stream is back in a valid state. */
    lemma KeyCaughtUp()
      requires Wired() && headerPos == HEADER_LEN && header == Encrypt(key.cipher, Seed(), rawHeader)
      requires base.OnTrack() && key.State() == KeysAt(key.cipher, Seed(), Plain(), HEADER_LEN + base.offset - base.start)
      ensures Valid()
    {
    }

    /** GsZipInputStream.read() on this stream: the next byte of Output() as
        0..255, or -1 at the end, unless the base read throws. */
    method ReadByte() returns (r: Result<int>)
      requires Valid()
      modifies this, base, key
      ensures Valid() && closed == old(closed)
      ensures old(closed) ==> r == Err(StreamClosed)
      ensures !old(closed) && old(Stuck()) ==> r == Err(IndexOutOfRange)
      ensures !old(closed) && !old(Stuck()) ==> r == Ok(UnsignedByteAt(Output(), old(Position())))
      ensures !old(closed) && !old(Stuck()) ==> (r.value == -1 <==> old(Position()) == |Output()|)
      ensures r.Ok? && r.value != -1 ==>
                r.value == Output()[old(Position())] as int && Position() == old(Position()) + 1
    {
      if closed {
        return Err(StreamClosed);
      }
      var buffer := new byte[1];
      var count :- Read(buffer, 0, 1);
      r := Ok(if count > 0 then buffer[0] as int else -1);
    }
  }

  /** PKWareDecryptInputStream (newest and libzip revisions): consumes and
      checks the 12-byte header, then delivers the base bytes decrypted. */
  class PKWareDecryptInputStream {
    const base: SubInputStream
    const password: seq<byte>
    const key: PKWareKey
    var header: seq<byte>
    var closed: bool

    ghost function Seed(): Keys
    {
      Seeded(key.cipher, password)
    }

    /** What the base delivers from its start. */
    ghost function Input(): seq<byte>
      requires base.start <= base.end <= |base.file|
    {
      base.FromStart()
    }

    /** The decryption of the whole base range: the header, then the data. */
    ghost function Plain(): seq<byte>
      requires base.start <= base.end <= |base.file|
    {
      Decrypt(key.cipher, Seed(), Input())
    }

    ghost function Output(): seq<byte>
      requires base.start <= base.end <= |base.file| && |base.FromStart()| >= HEADER_LEN
    {
      Plain()[HEADER_LEN..]
    }

    ghost function Position(): int
      reads base
    {
      base.offset - base.start - HEADER_LEN
    }

    ghost predicate Wired()
      reads this, base
    {
      base.Valid() && (!closed ==> !base.closed)
    }

    /** The header has been read and decrypted; the key holds the registers
        after the plaintext of everything read from the base. */
    ghost predicate Valid()
      reads this, base, key
    {
      Wired() && base.start + HEADER_LEN <= base.offset && base.OnTrack()
      && header == Plain()[..HEADER_LEN]
      && key.State() == DecryptKeysAt(key.cipher, Seed(), Input(), base.offset - base.start)
    }

    constructor Init(base: SubInputStream, password: seq<byte>)
      requires base.Valid() && !base.closed
      ensures Wired() && !closed
      ensures this.base == base && this.password == password && fresh(key) && key.cipher == PKWARE
    {
      this.base := base;
      this.password := password;
      key := new PKWareKey();
      header := [];
      closed := false;
    }

    /** The constructor: restart (which reads the header) and then the check
        byte test against the CRC and time check values. */
    static method Create(base: SubInputStream, password: seq<byte>, timeCheck: byte, crcCheck: byte)
      returns (r: Result<PKWareDecryptInputStream>)
      requires base.Valid()
      modifies base
      ensures base.closed == old(base.closed)
      ensures base.closed ==> r == Err(StreamClosed)
      ensures !base.closed && base.Overlong() ==> r == Err(IndexOutOfRange)
      ensures !base.closed && !base.Overlong() && |base.FromStart()| < HEADER_LEN ==> r == Err(ReadHeaderFailed)
      ensures r.Ok? ==> fresh(r.value) && r.value.base == base && r.value.password == password && fresh(r.value.key)
      ensures r.Ok? ==> r.value.key.cipher == PKWARE && r.value.Valid() && r.value.Position() == 0
      ensures r.Ok? ==> r.value.header[HEADER_LEN - 1] in {timeCheck, crcCheck}
      ensures !base.closed && |base.FromStart()| >= HEADER_LEN ==>
                (r.Ok? <==> CheckByte(PKWARE, password, base.FromStart()) in {timeCheck, crcCheck})
      ensures r.Err? && !base.closed && |base.FromStart()| >= HEADER_LEN ==> r.error == CheckByteMismatch
    {
      if base.closed {
        return Err(StreamClosed);
      }
      var s := new PKWareDecryptInputStream.Init(base, password);
      var ok := s.Restart();
      if ok.Fail? {
        return Err(ok.error);
      }
      CheckByteOfHeader(PKWARE, password, s.Input());
      var checkByte := s.header[HEADER_LEN - 1];
      ok := Check(checkByte == crcCheck || checkByte == timeCheck, CheckByteMismatch);
      if ok.Fail? {
        return Err(ok.error);
      }
      r := Ok(s);
    }

    /** Base restarted, key reset and fed the password, then one base read of
        12 bytes, decrypted in place into the header; a base read that throws
        ends the restart with its error. */
    method Restart() returns (r: Outcome)
      requires Wired()
      modifies this, base, key
      ensures Wired() && closed == old(closed)
      ensures r.Pass? <==> !closed && |base.FromStart()| >= HEADER_LEN
      ensures r.Fail? ==> r.error == (if closed then StreamClosed
                                      else if base.Overlong() then IndexOutOfRange
                                      else ReadHeaderFailed)
      ensures r.Pass? ==> Valid() && Position() == 0
      ensures old(Valid()) ==> Valid()
    {
      if closed {
        return Fail(StreamClosed);
      }
      var _ := base.Restart();
      key.Reset();
      Feed(key, password);
      var buffer := new byte[HEADER_LEN];
      var count := ReadHeaderBytes(buffer);
      if count.Err? {
        return Fail(count.error);
      }
      if count.value != HEADER_LEN {
        return Fail(ReadHeaderFailed);
      }
      AcceptHeader(buffer);
      r := Pass;
    }

    /** The base read of restart, from the base's start into a 12-byte
        buffer: it throws exactly when the window length is not a valid
        count, and fills the buffer exactly when the window holds 12 bytes. */
    method ReadHeaderBytes(buffer: array<byte>) returns (count: Result<int>)
      requires Wired() && !closed && base.offset == base.start && base.OnTrack() && buffer.Length == HEADER_LEN
      modifies base, buffer
      ensures Wired() && base.OnTrack()
      ensures count.Err? <==> base.Overlong()
      ensures count.Err? ==> count.error == IndexOutOfRange
      ensures count.Ok? ==> (count.value == HEADER_LEN <==> |base.FromStart()| >= HEADER_LEN)
      ensures count.Ok? && count.value == HEADER_LEN ==> base.offset == base.start + HEADER_LEN
      ensures count.Ok? && count.value == HEADER_LEN ==>
                forall j :: 0 <= j < HEADER_LEN ==> buffer[j] == base.file[base.start + j]
    {
      base.SpanOnTrack();
      count := base.Read(buffer, 0, HEADER_LEN);
      assert count.Err? ==> base.Overlong();
      assert count.Ok? && count.value == HEADER_LEN ==> base.offset == base.start + HEADER_LEN;
    }

    /** The 12 bytes at the start of the base, decrypted in place and kept as
        the header. */
    method AcceptHeader(buffer: array<byte>)
      requires Wired() && !closed && base.offset == base.start + HEADER_LEN && base.OnTrack()
      requires buffer.Length == HEADER_LEN
      requires forall j :: 0 <= j < HEADER_LEN ==> buffer[j] == base.file[base.start + j]
      requires key.State() == Seed()
      modifies this, key, buffer
      ensures Valid() && Position() == 0 && closed == old(closed)
    {
      BodyAt(base.file, base.start, Input(), buffer, 0, HEADER_LEN, 0);
      DecryptInPlace(key, buffer, 0, HEADER_LEN, Input(), Seed(), 0);
      header := buffer[..];
      assert header == Plain()[..HEADER_LEN];
    }

    method Close()
      requires Valid()
      modifies this, base
      ensures Valid() && closed && base.closed
    {
      base.Close();
      closed := true;
    }

    /** What the base reports: 1 whenever bytes remain, and exactly then
        below 2 GiB. */
    method Available() returns (r: Result<int>)
      requires Valid()
      ensures closed ==> r == Err(StreamClosed)
      ensures !closed ==> r.Ok? && (r.value == 0 || r.value == 1) && (Position() < |Output()| ==> r.value == 1)
      ensures !closed && base.end - base.start < 0x8000_0000 ==>
                (r.value == 1 <==> Position() < |Output()|) && (r.value == 0 <==> Position() == |Output()|)
    {
      if closed {
        return Err(StreamClosed);
      }
      r := base.Available();
    }

    /** The base's count is passed through; the bytes it read are decrypted in
        place, so the read delivers the next bytes of Output(). */
    method Read(b: array<byte>, off: nat, len: nat) returns (r: Result<int>)
      requires Valid() && off + len <= b.Length
      modifies base, key, b
      ensures Valid()
      ensures old(closed) ==> r == Err(StreamClosed)
      ensures !old(closed) ==> r.Ok?
      ensures !old(closed) && len > 0 && old(Position()) == |Output()| ==> r.value == -1
      ensures !old(closed) && (len == 0 || old(Position()) < |Output()|) ==>
                r.value == Min(len, |Output()| - old(Position()))
      ensures r.Ok? && r.value >= 0 ==> Position() == old(Position()) + r.value
      ensures !(r.Ok? && r.value >= 0) ==> Position() == old(Position())
      ensures forall j :: off <= j < off + Position() - old(Position()) ==> b[j] == Output()[old(Position()) + j - off]
      ensures forall j :: 0 <= j < b.Length && !(off <= j < off + Position() - old(Position())) ==> b[j] == old(b[j])
    {
      if closed {
        return Err(StreamClosed);
      }
      ghost var from := base.offset;
      DataLeft();
      var count := TrackedRead(base, b, off, len);
      if count > 0 {
        DecryptChunk(b, off, count, from);
      }
      r := Ok(count);
    }

    /** What is left of Output() is what the base has left to deliver. */
    lemma DataLeft()
      requires Valid()
      ensures !base.Overlong() && |Output()| - Position() == base.Span()
    {
      base.SpanOnTrack();
    }

    /** The bytes one base read delivered from `from` on, decrypted in place:
        they become the matching bytes of Output(), and the key moves past
        them. */
    method DecryptChunk(b: array<byte>, off: nat, n: nat, ghost from: nat)
      requires Wired() && !closed && base.start + HEADER_LEN <= from && from + n == base.offset
      requires base.OnTrack() && header == Plain()[..HEADER_LEN]
      requires off + n <= b.Length
      requires forall j :: off <= j < off + n ==> b[j] == base.file[from + j - off]
      requires key.State() == DecryptKeysAt(key.cipher, Seed(), Input(), from - base.start)
      modifies key, b
      ensures Valid()
      ensures forall j :: off <= j < off + n ==> b[j] == Output()[from - base.start - HEADER_LEN + j - off]
      ensures forall j :: 0 <= j < b.Length && !(off <= j < off + n) ==> b[j] == old(b[j])
    {
      var at := from - base.start;
      BodyAt(base.file, base.start, Input(), b, off, n, at);
      DecryptInPlace(key, b, off, n, Input(), Seed(), at);
    }

    /** GsZipInputStream.read() on this stream: the next byte of Output() as
        0..255, or -1 at the end. */
    method ReadByte() returns (r: Result<int>)
      requires Valid()
      modifies base, key
      ensures Valid()
      ensures old(closed) ==> r == Err(StreamClosed)
      ensures !old(closed) ==> r == Ok(UnsignedByteAt(Output(), old(Position())))
      ensures !old(closed) ==> r.Ok? && (r.value == -1 <==> old(Position()) == |Output()|)
      ensures r.Ok? && r.value != -1 ==>
                r.value == Output()[old(Position())] as int && Position() == old(Position()) + 1
    {
      if closed {
        return Err(StreamClosed);
      }
      var buffer := new byte[1];
      var count := Read(buffer, 0, 1);
      r := Ok(if count.value > 0 then buffer[0] as int else -1);
    }
  }

  /** The last decrypted header byte, the one compared with the check values. */
  function CheckByte(f: Cipher, password: seq<byte>, input: seq<byte>): byte
    requires |input| >= HEADER_LEN
  {
    Decrypt(f, Seeded(f, password), input[..HEADER_LEN])[HEADER_LEN - 1]
  }

  /** The check byte is byte 11 of the decryption of the whole entry. */
  lemma CheckByteOfHeader(f: Cipher, password: seq<byte>, input: seq<byte>)
    requires |input| >= HEADER_LEN
    ensures CheckByte(f, password, input) == Decrypt(f, Seeded(f, password), input)[HEADER_LEN - 1]
  {
    DecryptSlice(f, Seeded(f, password), input, HEADER_LEN, HEADER_LEN);
  }

  /** Encrypt then decrypt under one password: the decrypting side reads back the
      plaintext header, so its check byte is the one the encrypting side put
      last, and delivers exactly the encrypting side's input. */
  lemma {:induction false} DecryptsEncryptedEntry(f: Cipher, password: seq<byte>, rawHeader: seq<byte>, body: seq<byte>)
    requires |rawHeader| == HEADER_LEN
    ensures var c := Encrypt(f, Seeded(f, password), rawHeader + body);
            var p := Decrypt(f, Seeded(f, password), c);
            |c| == HEADER_LEN + |body| && p[HEADER_LEN..] == body && p[..HEADER_LEN] == rawHeader
            && CheckByte(f, password, c) == rawHeader[HEADER_LEN - 1]
  {
    var seed := Seeded(f, password);
    var c := Encrypt(f, seed, rawHeader + body);
    DecryptEncrypt(f, seed, rawHeader + body);
    DecryptSlice(f, seed, c, HEADER_LEN, HEADER_LEN);
  }

  // ---------------------------------------------------------------------------
  // Older, non-restartable revisions
  // ---------------------------------------------------------------------------

  /** The one-shot decrypt streams (libzip GsZipPKWareDecryptStream and its util
      and gszip/gszip revisions) do their whole work in the constructor: seed
      the key with the password, read 12 header bytes with one read, decrypt
      them and compare the last with the check values. The util and gszip/gszip
      revisions first reject an empty password. On success the result is the
      key state with which the data decryption starts. */
  function OneShotOpen(rejectEmpty: bool, f: Cipher, password: seq<byte>, input: seq<byte>,
                       timeCheck: byte, crcCheck: byte): (r: Result<Keys>)
    ensures r.Err? && r.error == EmptyPassword <==> rejectEmpty && |password| == 0
    ensures r.Err? && r.error == ReadHeaderFailed <==> !(rejectEmpty && |password| == 0) && |input| < HEADER_LEN
    ensures r.Ok? ==> |input| >= HEADER_LEN && CheckByte(f, password, input) in {timeCheck, crcCheck}
    ensures r.Ok? ==> r.value == Run(f, Seeded(f, password), Decrypt(f, Seeded(f, password), input[..HEADER_LEN]))
  {
    if rejectEmpty && |password| == 0 then Err(EmptyPassword)
    else if |input| < HEADER_LEN then Err(ReadHeaderFailed)
    else
      var h := Decrypt(f, Seeded(f, password), input[..HEADER_LEN]);
      if h[HEADER_LEN - 1] != crcCheck && h[HEADER_LEN - 1] != timeCheck then Err(CheckByteMismatch)
      else Ok(Run(f, Seeded(f, password), h))
  }

  /** A one-shot decrypt stream opened on an encrypted entry whose check byte is
      one of the check values succeeds, and decrypting the rest from the state
      it returns gives back the entry's data: the one-shot and the restartable
      readers agree. */
  lemma {:induction false} OneShotOpenDecrypts(rejectEmpty: bool, f: Cipher, password: seq<byte>,
                                               rawHeader: seq<byte>, body: seq<byte>, timeCheck: byte, crcCheck: byte)
    requires |rawHeader| == HEADER_LEN && rawHeader[HEADER_LEN - 1] in {timeCheck, crcCheck}
    requires !rejectEmpty || |password| > 0
    ensures var c := Encrypt(f, Seeded(f, password), rawHeader + body);
            var r := OneShotOpen(rejectEmpty, f, password, c, timeCheck, crcCheck);
            r.Ok? && Decrypt(f, r.value, c[HEADER_LEN..]) == body
  {
    var seed := Seeded(f, password);
    var c := Encrypt(f, seed, rawHeader + body);
    DecryptsEncryptedEntry(f, password, rawHeader, body);
    DecryptSlice(f, seed, c, HEADER_LEN, |c|);
    assert c[HEADER_LEN..|c|] == c[HEADER_LEN..];
    assert Decrypt(f, seed, c)[HEADER_LEN..|c|] == body;
  }

  /** What a one-shot encrypt stream's constructor leaves: the encrypted
      header it serves first, and the registers the body's encryption
      continues from. */
  datatype HeaderStart = HeaderStart(header: seq<byte>, keys: Keys)

  /** The one-shot encrypt streams (libzip GsZipPKWareEncryptStream and util
      GsZipPkwareEncryptStream) encrypt the header once, in the constructor:
      the key is seeded with the password, the 12 header bytes are random with
      the last replaced by the check byte, and each is encrypted as the key is
      updated with it; the util revision first rejects an empty password.
      Decrypting the header gives back the random bytes and the check byte,
      and the registers after it are those the plaintext header leaves. */
  function OneShotEncryptHeader(rejectEmpty: bool, f: Cipher, password: seq<byte>, checkByte: byte,
                                random: seq<byte>): (r: Result<HeaderStart>)
    requires |random| == HEADER_LEN
    ensures r.Ok? <==> !rejectEmpty || |password| > 0
    ensures r.Err? ==> r.error == EmptyPassword
    ensures r.Ok? ==>
      var plain := Decrypt(f, Seeded(f, password), r.value.header);
      && |r.value.header| == HEADER_LEN
      && plain[..HEADER_LEN - 1] == random[..HEADER_LEN - 1]
      && CheckByte(f, password, r.value.header) == plain[HEADER_LEN - 1] == checkByte
      && r.value.keys == Run(f, Seeded(f, password), plain)
  {
    if rejectEmpty && |password| == 0 then Err(EmptyPassword)
    else
      var plain := random[..HEADER_LEN - 1] + [checkByte];
      var header := Encrypt(f, Seeded(f, password), plain);
      DecryptEncrypt(f, Seeded(f, password), plain);
      assert header[..HEADER_LEN] == header;
      Ok(HeaderStart(header, Run(f, Seeded(f, password), plain)))
  }

  /** What a one-shot encrypt stream delivers, its header and then the body
      encrypted from the registers the header leaves, is what a one-shot
      decrypt stream opens when the check byte is one of its check values: it
      starts the body from the same registers and gives back the body. */
  lemma {:induction false} OneShotEncryptOpens(rejectEmpty: bool, rejectEmptyOpen: bool, f: Cipher,
                                               password: seq<byte>, checkByte: byte, random: seq<byte>,
                                               body: seq<byte>, timeCheck: byte, crcCheck: byte)
    requires |random| == HEADER_LEN && OneShotEncryptHeader(rejectEmpty, f, password, checkByte, random).Ok?
    requires checkByte in {timeCheck, crcCheck} && (!rejectEmptyOpen || |password| > 0)
    ensures var h := OneShotEncryptHeader(rejectEmpty, f, password, checkByte, random).value;
      var c := h.header + Encrypt(f, h.keys, body);
      && OneShotOpen(rejectEmptyOpen, f, password, c, timeCheck, crcCheck) == Ok(h.keys)
      && Decrypt(f, h.keys, c[HEADER_LEN..]) == body
  {
    var seed := Seeded(f, password);
    var plain := random[..HEADER_LEN - 1] + [checkByte];
    var h := OneShotEncryptHeader(rejectEmpty, f, password, checkByte, random).value;
    EncryptAppend(f, seed, plain, body);
    var c := h.header + Encrypt(f, h.keys, body);
    assert c == Encrypt(f, seed, plain + body);
    OneShotOpenDecrypts(rejectEmptyOpen, f, password, plain, body, timeCheck, crcCheck);
    assert c[..HEADER_LEN] == h.header;
    DecryptEncrypt(f, seed, plain);
  }

  /** available() of libzip GsZipPKWareEncryptStream: the remaining header length
      while header bytes remain, then the base's. */
  function AvailableHeaderFirst(headerPos: nat, baseAvailable: nat): (r: nat)
    requires headerPos <= HEADER_LEN
    ensures r == 0 <==> headerPos == HEADER_LEN && baseAvailable == 0
    ensures headerPos < HEADER_LEN ==> r == HEADER_LEN - headerPos
  {
    if headerPos < HEADER_LEN then HEADER_LEN - headerPos else baseAvailable
  }

  /** available() of util GsZipPkwareEncryptStream: remaining header length plus
      the base's. */
  function AvailableSum(headerPos: nat, baseAvailable: nat): (r: nat)
    requires headerPos <= HEADER_LEN
    ensures r == 0 <==> headerPos == HEADER_LEN && baseAvailable == 0
    ensures r >= AvailableHeaderFirst(headerPos, baseAvailable)
  {
    HEADER_LEN - headerPos + baseAvailable
  }

}
