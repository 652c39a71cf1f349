/** Shared vocabulary of the archive engine: the error kinds the engine reports,
    failure-compatible result types, bytes and the unsigned 16/32-bit field types,
    bitwise operations on them, the little-endian field codecs used by every ZIP
    record, and the Java signed views (byte, short, int) that the source applies
    to those fields. Bytes and fields are bounded integers; the bitwise operations
    are defined bit by bit. */
module ZipCommon {

  /** One constructor per distinct failure the engine raises; the comment gives the
      condition that raises it. */
  datatype Error =
    | StreamClosed            // a call on a stream after close
    | RestartNotSupported     // restart on a stream that cannot restart
    | ReadNotOverridden       // bulk read on the plain base stream
    | StartAfterEnd           // range view with start > end
    | EndAfterFileLength      // range view whose end lies beyond the file
    | ErrorLength             // older range view whose start is not before its end
    | ErrorEndOffset          // older range view whose end is not before the file's end
    | ReadHeaderFailed        // fewer than 12 encryption-header bytes
    | CheckByteMismatch       // decrypted check byte matches neither check value
    | EmptyPassword           // cipher stream built with an empty password
    | ReadFail                // a record is cut short
    | ErrorSign               // wrong record signature
    | EmptyFileName           // header without a file name
    | ErrorEncoding           // header to write without the UTF-8 flag
    | ErrorCompressMethod     // header to write with a method other than 0 or 8
    | NotEnoughLength         // byte array shorter than the record
    | DiskNumberNotZero
    | StartDiskNumberNotZero
    | EntryNumberMismatch     // the two entry counts of the EOCD record differ
    | ErrorEntryNumber        // negative entry count (older EOCD codecs)
    | FileTooShort            // archive shorter than an EOCD record
    | CentralDirNotFound      // no EOCD signature in the scan window
    | HeaderMismatch          // local header disagrees with the central header
    | NeedPassword            // encrypted entry and no password set
    | EncryptNotSupported
    | CompressNotSupported
    | IndexOutOfRange         // a list index outside the list, or a read asked for a negative length
    | AddingChildForFile      // tree insertion below a file node
    | EntryAlreadyExists      // tree insertion on a node that already has an entry
    | EmptyEntryName
    | InvalidFileName         // packer source that is not a regular file
    | AlreadyHasEntry
    | FileAlreadyExists       // packing onto an existing output path
    | NegativeLength          // a 16-bit length field that Java reads as a negative short
    | BufferUnderflow         // an extra-field record that runs past the end of the field
    | BufferOverflow          // an EOCD comment that does not fit the target array
    | NegativeOffset          // a file position that Java holds as a negative int
    | SameNameWithFile        // packer folder whose name is already taken by a file
    | AddParentFolderFail     // packer entry whose parent folder cannot be added

  datatype Result<+T> = Ok(value: T) | Err(error: Error) {
    predicate IsFailure() { Err? }
    function PropagateFailure<U>(): Result<U> requires Err? { Err(error) }
    function Extract(): T requires Ok? { value }
  }

  datatype Outcome = Pass | Fail(error: Error) {
    predicate IsFailure() { Fail? }
    function PropagateFailure<U>(): Result<U> requires Fail? { Err(error) }
  }

  datatype Option<+T> = None | Some(value: T)

  function Min(a: int, b: int): int
  {
    if a < b then a else b
  }

  /** GsZipUtil.check: fail with the given error exactly when the state is false. */
  function Check(state: bool, e: Error): (r: Outcome)
    ensures r.Pass? <==> state
    ensures r.Fail? ==> r.error == e
  {
    if state then Pass else Fail(e)
  }

  // ---------------------------------------------------------------------------
  // Bytes and unsigned fields
  // ---------------------------------------------------------------------------

  newtype byte = b: int | 0 <= b < 0x100
  newtype u16 = x: int | 0 <= x < 0x1_0000
  newtype u32 = x: int | 0 <= x < 0x1_0000_0000

  function Pow2(n: nat): (r: nat)
    ensures r >= 1
  {
    if n == 0 then 1 else 2 * Pow2(n - 1)
  }

  lemma Pow2Sixteen()
    ensures Pow2(16) == 0x1_0000
  {
    assert Pow2(8) == 0x100;
    assert Pow2(12) == 0x1000;
  }

  /** The low n bits of a. */
  function LowBits(a: nat, n: nat): nat
  {
    if n == 0 then 0 else a % 2 + 2 * LowBits(a / 2, n - 1)
  }

  /** Bitwise exclusive or of the low n bits of a and b. */
  function XorBits(a: nat, b: nat, n: nat): nat
  {
    if n == 0 then 0 else (a + b) % 2 + 2 * XorBits(a / 2, b / 2, n - 1)
  }

  /** Bitwise and of the low n bits of a and b. */
  function AndBits(a: nat, b: nat, n: nat): (r: nat)
    ensures r < Pow2(n)
  {
    if n == 0 then 0
    else (if a % 2 == 1 && b % 2 == 1 then 1 else 0) + 2 * AndBits(a / 2, b / 2, n - 1)
  }

  /** Bitwise or of the low n bits of a and b. */
  function OrBits(a: nat, b: nat, n: nat): (r: nat)
    ensures r < Pow2(n)
  {
    if n == 0 then 0
    else (if a % 2 == 1 || b % 2 == 1 then 1 else 0) + 2 * OrBits(a / 2, b / 2, n - 1)
  }

  lemma {:induction false} LowBitsId(a: nat, n: nat)
    requires a < Pow2(n)
    ensures LowBits(a, n) == a
  {
    if n > 0 {
      LowBitsId(a / 2, n - 1);
    }
  }

  lemma ParityTwice(a: nat, s: nat, x: nat)
    requires x % 2 == (a + s) % 2
    ensures (x + s) % 2 == a % 2
  {
  }

  lemma XorBitsStep(a: nat, s: nat, n: nat)
    requires n > 0
    ensures XorBits(a, s, n) % 2 == (a + s) % 2
    ensures XorBits(a, s, n) / 2 == XorBits(a / 2, s / 2, n - 1)
  {
  }

  /** XOR with the same mask twice leaves the low n bits. */
  lemma {:induction false} XorBitsTwice(a: nat, s: nat, n: nat)
    ensures XorBits(XorBits(a, s, n), s, n) == LowBits(a, n)
  {
    if n > 0 {
      var x := XorBits(a, s, n);
      XorBitsStep(a, s, n);
      ParityTwice(a, s, x);
      XorBitsTwice(a / 2, s / 2, n - 1);
    }
  }

  /** Or with zero keeps the low bits. */
  lemma {:induction false} OrBitsZero(a: nat, n: nat)
    ensures OrBits(a, 0, n) == LowBits(a, n)
  {
    if n > 0 {
      OrBitsZero(a / 2, n - 1);
    }
  }

  /** a << k on a non-negative value, without overflow. */
  function ShiftLeft(a: nat, k: nat): nat
  {
    if k == 0 then a else 2 * ShiftLeft(a, k - 1)
  }

  /** Or of a value shifted left by k with a value below 2^k is their sum: the
      bit fields do not overlap. */
  lemma {:induction false} OrBitsDisjoint(m: nat, b: nat, k: nat, n: nat)
    requires b < Pow2(k)
    ensures OrBits(ShiftLeft(m, k), b, n) == LowBits(ShiftLeft(m, k) + b, n)
  {
    if n > 0 {
      if k == 0 {
        OrBitsZero(m, n);
      } else {
        var h := ShiftLeft(m, k - 1);
        var a := ShiftLeft(m, k);
        assert a % 2 == 0 && a / 2 == h;
        assert (a + b) % 2 == b % 2 && (a + b) / 2 == h + b / 2;
        OrBitsDisjoint(m, b / 2, k - 1, n - 1);
      }
    }
  }

  /** Bit k of a. */
  function Bit(a: nat, k: nat): (r: nat)
    ensures r < 2
  {
    if k == 0 then a % 2 else Bit(a / 2, k - 1)
  }

  lemma {:induction false} AndBitsZero(a: nat, n: nat)
    ensures AndBits(a, 0, n) == 0
  {
    if n > 0 {
      AndBitsZero(a / 2, n - 1);
    }
  }

  /** A bit of an or is set when it is set in either operand. */
  lemma {:induction false} OrBitsBit(a: nat, b: nat, n: nat, k: nat)
    requires k < n
    ensures Bit(OrBits(a, b, n), k) == if Bit(a, k) == 1 || Bit(b, k) == 1 then 1 else 0
  {
    if k > 0 {
      OrBitsBit(a / 2, b / 2, n - 1, k - 1);
    }
  }

  /** Masking with a single bit keeps exactly that bit. */
  lemma {:induction false} AndBitsPow(a: nat, k: nat, n: nat)
    requires k < n
    ensures AndBits(a, Pow2(k), n) == if Bit(a, k) == 1 then Pow2(k) else 0
  {
    if k == 0 {
      AndBitsZero(a / 2, n - 1);
    } else {
      AndBitsPow(a / 2, k - 1, n - 1);
      assert Pow2(k) % 2 == 0 && Pow2(k) / 2 == Pow2(k - 1);
    }
  }

  /** Division with remainder determines the remainder. */
  lemma ModOf(a: nat, m: nat, q: nat, r: nat)
    requires a == m * q + r && r < m
    ensures a % m == r && a / m == q
  {
    var q2 := a / m;
    var r2 := a % m;
    assert a == m * q2 + r2;
    if q > q2 {
      MulAtLeast(m, q - q2);
      Distribute(m, q2, q - q2);
      assert false;
    } else if q < q2 {
      MulAtLeast(m, q2 - q);
      Distribute(m, q, q2 - q);
      assert false;
    }
  }

  lemma Distribute(m: nat, a: nat, d: nat)
    ensures m * (a + d) == m * a + m * d
  {
  }

  lemma MulAtLeast(m: nat, x: nat)
    requires x >= 1
    ensures m * x >= m
  {
  }

  lemma HalfSplit(a: nat, p: nat)
    requires p > 0
    ensures a % 2 + 2 * ((a / 2) % p) == a % (2 * p)
  {
    var h := a / 2;
    var q := h / p;
    assert h == p * q + h % p;
    assert (2 * p) * q == 2 * (p * q);
    ModOf(a, 2 * p, q, 2 * (h % p) + a % 2);
  }

  /** The low n bits of a are a modulo 2^n. */
  lemma {:induction false} LowBitsMod(a: nat, n: nat)
    ensures LowBits(a, n) == a % Pow2(n)
  {
    if n > 0 {
      LowBitsMod(a / 2, n - 1);
      var p := Pow2(n - 1);
      HalfSplit(a, p);
      assert Pow2(n) == 2 * p;
    }
  }

  lemma {:induction false} ShiftLeftAdd(a: nat, j: nat, i: nat)
    ensures ShiftLeft(a, j + i) == ShiftLeft(ShiftLeft(a, j), i)
  {
    if i > 0 {
      ShiftLeftAdd(a, j, i - 1);
    }
  }

  lemma {:induction false} Pow2Add5(j: nat)
    ensures Pow2(j + 5) == 32 * Pow2(j)
  {
    if j == 0 {
      assert Pow2(5) == 32;
    } else {
      Pow2Add5(j - 1);
    }
  }

  lemma ShiftLeftFive(a: nat)
    ensures ShiftLeft(a, 4) == 16 * a && ShiftLeft(a, 5) == 32 * a && ShiftLeft(a, 6) == 64 * a
  {
    assert ShiftLeft(a, 1) == 2 * a;
    assert ShiftLeft(a, 2) == 4 * a;
    assert ShiftLeft(a, 3) == 8 * a;
    assert ShiftLeft(a, 4) == 16 * a;
  }

  /** Three bit fields packed as Java does, `(x << (j + 5)) | (y << 5) | z`
      cut to 16 bits: when the fields do not overlap the or is a sum. */
  lemma PackFields(x: nat, y: nat, z: nat, j: nat)
    requires y < Pow2(j) && z < 32
    ensures OrBits(OrBits(ShiftLeft(x, j + 5), ShiftLeft(y, 5), 16), z, 16)
            == (32 * (ShiftLeft(x, j) + y) + z) % 0x1_0000
  {
    var xy := ShiftLeft(x, j) + y;
    var low := xy % 2048;
    PackHigh(x, y, j);
    assert OrBits(ShiftLeft(x, j + 5), ShiftLeft(y, 5), 16) == ShiftLeft(low, 5);
    PackLow(low, z);
    ModOf(32 * xy + z, 0x1_0000, xy / 2048, 32 * low + z);
  }

  /** The two high fields: `(x << (j + 5)) | (y << 5)` cut to 16 bits. */
  lemma PackHigh(x: nat, y: nat, j: nat)
    requires y < Pow2(j)
    ensures OrBits(ShiftLeft(x, j + 5), ShiftLeft(y, 5), 16) == ShiftLeft((ShiftLeft(x, j) + y) % 2048, 5)
  {
    var big := ShiftLeft(x, j);
    var xy := big + y;
    var low := xy % 2048;
    ShiftLeftAdd(x, j, 5);
    ShiftLeftFive(big);
    ShiftLeftFive(y);
    ShiftLeftFive(low);
    assert ShiftLeft(x, j + 5) + ShiftLeft(y, 5) == 32 * xy;
    Pow2Add5(j);
    OrBitsDisjoint(x, ShiftLeft(y, 5), j + 5, 16);
    Pow2Sixteen();
    LowBitsMod(32 * xy, 16);
    ModOf(32 * xy, 0x1_0000, xy / 2048, 32 * low);
  }

  /** The low field: `(low << 5) | z` for z below 32, with no overflow. */
  lemma PackLow(low: nat, z: nat)
    requires low < 2048 && z < 32
    ensures OrBits(ShiftLeft(low, 5), z, 16) == 32 * low + z
  {
    ShiftLeftFive(low);
    assert Pow2(5) == 32;
    OrBitsDisjoint(low, z, 5, 16);
    Pow2Sixteen();
    LowBitsId(32 * low + z, 16);
  }

  /** Every bit set in either operand is set in the or. */
  lemma {:induction false} OrBitsKeeps(a: nat, b: nat, n: nat)
    ensures AndBits(OrBits(a, b, n), a, n) == LowBits(a, n)
    ensures AndBits(OrBits(a, b, n), b, n) == LowBits(b, n)
  {
    if n > 0 {
      var o := OrBits(a, b, n);
      var bit := if a % 2 == 1 || b % 2 == 1 then 1 else 0;
      assert o == bit + 2 * OrBits(a / 2, b / 2, n - 1);
      assert o % 2 == bit && o / 2 == OrBits(a / 2, b / 2, n - 1);
      OrBitsKeeps(a / 2, b / 2, n - 1);
    }
  }

  /** Java's byte XOR, as used to mask every cipher byte. */
  function Xor(a: byte, b: byte): byte
  {
    XorBitsBound(a as nat, b as nat, 8);
    assert Pow2(8) == 0x100;
    XorBits(a as nat, b as nat, 8) as byte
  }

  lemma {:induction false} XorBitsBound(a: nat, b: nat, n: nat)
    ensures XorBits(a, b, n) < Pow2(n)
  {
    if n > 0 {
      XorBitsBound(a / 2, b / 2, n - 1);
    }
  }

  /** Masking twice with the same keystream byte restores the byte. */
  lemma XorTwice(x: byte, s: byte)
    ensures Xor(Xor(x, s), s) == x
  {
    assert Pow2(8) == 0x100;
    XorBitsTwice(x as nat, s as nat, 8);
    LowBitsId(x as nat, 8);
  }

  // ---------------------------------------------------------------------------
  // Little-endian field codecs (ByteBuffer with ByteOrder.LITTLE_ENDIAN)
  // ---------------------------------------------------------------------------

  function Le16(x: u16): (r: seq<byte>)
    ensures |r| == 2
    ensures r[0] as int + 0x100 * r[1] as int == x as int
  {
    [(x % 0x100) as byte, (x / 0x100) as byte]
  }

  function Le32(x: u32): (r: seq<byte>)
    ensures |r| == 4
    ensures r[0] as int + 0x100 * r[1] as int + 0x1_0000 * (r[2] as int + 0x100 * r[3] as int) == x as int
  {
    Le16((x % 0x1_0000) as u16) + Le16((x / 0x1_0000) as u16)
  }

  function GetLe16(s: seq<byte>, i: int): u16
    requires 0 <= i && i + 2 <= |s|
  {
    (s[i] as int + 0x100 * s[i + 1] as int) as u16
  }

  function GetLe32(s: seq<byte>, i: int): u32
    requires 0 <= i && i + 4 <= |s|
  {
    (GetLe16(s, i) as int + 0x1_0000 * GetLe16(s, i + 2) as int) as u32
  }

  /** Reading back a written 16-bit field gives the field, wherever it sits. */
  lemma Le16RoundTrip(x: u16, pre: seq<byte>, post: seq<byte>)
    ensures GetLe16(pre + Le16(x) + post, |pre|) == x
  {
    var s := pre + Le16(x) + post;
    assert s[|pre|] == Le16(x)[0] && s[|pre| + 1] == Le16(x)[1];
  }

  /** A 16-bit field read inside x reads the same with bytes around x. */
  lemma GetLe16Shift(pre: seq<byte>, x: seq<byte>, post: seq<byte>, i: nat)
    requires i + 2 <= |x|
    ensures GetLe16(pre + x + post, |pre| + i) == GetLe16(x, i)
  {
    var s := pre + x + post;
    assert s[|pre| + i] == x[i] && s[|pre| + i + 1] == x[i + 1];
  }

  /** The same for a 32-bit field. */
  lemma GetLe32Shift(pre: seq<byte>, x: seq<byte>, post: seq<byte>, i: nat)
    requires i + 4 <= |x|
    ensures GetLe32(pre + x + post, |pre| + i) == GetLe32(x, i)
  {
    GetLe16Shift(pre, x, post, i);
    GetLe16Shift(pre, x, post, i + 2);
  }

  /** A 16-bit field read inside x reads the same with bytes after x. */
  lemma GetLe16Front(x: seq<byte>, post: seq<byte>, i: nat)
    requires i + 2 <= |x|
    ensures GetLe16(x + post, i) == GetLe16(x, i)
  {
    assert (x + post)[i] == x[i] && (x + post)[i + 1] == x[i + 1];
  }

  /** The same for a 32-bit field. */
  lemma GetLe32Front(x: seq<byte>, post: seq<byte>, i: nat)
    requires i + 4 <= |x|
    ensures GetLe32(x + post, i) == GetLe32(x, i)
  {
    GetLe16Front(x, post, i);
    GetLe16Front(x, post, i + 2);
  }

  /** Reading back a written 32-bit field gives the field, wherever it sits. */
  lemma Le32RoundTrip(x: u32, pre: seq<byte>, post: seq<byte>)
    ensures GetLe32(pre + Le32(x) + post, |pre|) == x
  {
    var lo, hi := (x % 0x1_0000) as u16, (x / 0x1_0000) as u16;
    assert pre + Le32(x) + post == pre + Le16(lo) + (Le16(hi) + post);
    assert pre + Le32(x) + post == (pre + Le16(lo)) + Le16(hi) + post;
    Le16RoundTrip(lo, pre, Le16(hi) + post);
    Le16RoundTrip(hi, pre + Le16(lo), post);
  }

  /** Writing back a read 16-bit field gives the bytes it was read from. */
  lemma Le16OfGet(s: seq<byte>, i: nat)
    requires i + 2 <= |s|
    ensures Le16(GetLe16(s, i)) == s[i..i + 2]
  {
  }

  /** Writing back a read 32-bit field gives the bytes it was read from. */
  lemma Le32OfGet(s: seq<byte>, i: nat)
    requires i + 4 <= |s|
    ensures Le32(GetLe32(s, i)) == s[i..i + 4]
  {
    var x := GetLe32(s, i);
    assert (x % 0x1_0000) as u16 == GetLe16(s, i);
    assert (x / 0x1_0000) as u16 == GetLe16(s, i + 2);
    Le16OfGet(s, i);
    Le16OfGet(s, i + 2);
  }

  // ---------------------------------------------------------------------------
  // Java integer views
  // ---------------------------------------------------------------------------

  /** A Java byte read as a signed value. */
  function Signed8(b: byte): (r: int)
    ensures -0x80 <= r < 0x80
    ensures r == b as int || r == b as int - 0x100
  {
    if b < 0x80 then b as int else b as int - 0x100
  }

  /** A Java short read as a signed value. */
  function Signed16(x: u16): (r: int)
    ensures -0x8000 <= r < 0x8000
    ensures r == x as int || r == x as int - 0x1_0000
  {
    if x < 0x8000 then x as int else x as int - 0x1_0000
  }

  /** A Java int read as a signed value. */
  function Signed32(x: u32): (r: int)
    ensures -0x8000_0000 <= r < 0x8000_0000
    ensures r == x as int || r == x as int - 0x1_0000_0000
  {
    if x < 0x8000_0000 then x as int else x as int - 0x1_0000_0000
  }

  /** The narrowing casts (short) and (int): keep the low bits of any integer. */
  function ToU16(n: int): u16
  {
    (n % 0x1_0000) as u16
  }

  /** A count under 0x8000 survives the cast to a short and back. */
  lemma SmallU16(n: int)
    requires 0 <= n < 0x8000
    ensures ToU16(n) as int == n && Signed16(ToU16(n)) == n
  {
    ModOf(n, 0x1_0000, 0, n);
  }

  /** A length under 2^31 survives the cast to an int field and back. */
  lemma SmallU32(n: int)
    requires 0 <= n < 0x8000_0000
    ensures ToU32(n) as int == n && Signed32(ToU32(n)) == n
  {
    ModOf(n, 0x1_0000_0000, 0, n);
  }

  function ToU32(n: int): u32
  {
    (n % 0x1_0000_0000) as u32
  }

  /** A value a Java int can hold. */
  predicate JavaInt(n: int)
  {
    -0x8000_0000 <= n < 0x8000_0000
  }

  /** The cast (int) of a long: its low 32 bits read as a signed int. A
      value an int holds is kept; one of 2^31 or more never is. */
  function IntCast(n: int): (r: int)
    ensures JavaInt(r)
    ensures JavaInt(n) ==> r == n
    ensures 0x8000_0000 <= n ==> r < n
  {
    Signed32(ToU32(n))
  }

  /** Taking c off a long whose int cast is at least c takes c off the cast:
      the low 32 bits move together with the value. */
  lemma IntCastShift(n: int, c: int)
    requires 0 <= c <= IntCast(n)
    ensures IntCast(n - c) == IntCast(n) - c
  {
    var q := n / 0x1_0000_0000;
    assert n == q * 0x1_0000_0000 + n % 0x1_0000_0000;
    assert n - c == q * 0x1_0000_0000 + (n % 0x1_0000_0000 - c);
  }

  // ---------------------------------------------------------------------------
  // UTF-8 (String.getBytes(StandardCharsets.UTF_8))
  // ---------------------------------------------------------------------------

  /** The one to four bytes of a code point: the leading byte holds the high
      bits after its length marker, each continuation byte six more bits. */
  function Utf8Char(c: char): (r: seq<byte>)
    ensures 1 <= |r| <= 4
  {
    var n := c as int;
    if n < 0x80 then [n as byte]
    else if n < 0x800 then [(0xC0 + n / 0x40) as byte, (0x80 + n % 0x40) as byte]
    else if n < 0x1_0000 then
      [(0xE0 + n / 0x1000) as byte, (0x80 + n / 0x40 % 0x40) as byte, (0x80 + n % 0x40) as byte]
    else
      [(0xF0 + n / 0x4_0000) as byte, (0x80 + n / 0x1000 % 0x40) as byte,
       (0x80 + n / 0x40 % 0x40) as byte, (0x80 + n % 0x40) as byte]
  }

  /** A string's UTF-8 bytes: at least one byte per character, so only the
      empty string encodes to nothing. */
  function Utf8(s: string): (r: seq<byte>)
    ensures |s| <= |r| <= 4 * |s|
  {
    if s == [] then [] else Utf8Char(s[0]) + Utf8(s[1..])
  }

  /** `new byte[n]`: n zero bytes. */
  function Zeros(n: nat): (r: seq<byte>)
    ensures |r| == n && forall i :: 0 <= i < n ==> r[i] == 0
  {
    seq(n, _ => 0)
  }

  /** An array of n bytes after one read that delivered only the bytes of
      `got`: those first, zeros after. */
  function Filled(got: seq<byte>, n: nat): (r: seq<byte>)
    ensures |r| == n
    ensures n <= |got| ==> r == got[..n]
  {
    if n <= |got| then got[..n] else got + Zeros(n - |got|)
  }

  /** Sum of a sequence of naturals, used for running offsets and sizes. */
  function Sum(s: seq<nat>): nat
  {
    if s == [] then 0 else Sum(s[..|s| - 1]) + s[|s| - 1]
  }
}
