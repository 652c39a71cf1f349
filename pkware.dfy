/** The traditional PKWARE stream cipher of section 6.1 of the PKWARE APPNOTE.TXT
    (ZIP File Format Specification): three 32-bit registers, a table-driven
    reflected CRC-32 step with polynomial 0xEDB88320, a linear-congruential step and
    a keystream byte. The registers hold 32-bit values (`u32`); their arithmetic
    is Java int arithmetic, i.e. modulo 2^32, computed on bv32.

    The byte-sequence view of the cipher (registers after a byte sequence,
    encryption, decryption) is stated for any `Cipher`, a pair of register update
    and keystream byte; `PKWARE` is the pair defined here, and every key object
    carries it. */
module PKWare {
  import opened ZipCommon

  const KEY0: u32 := 0x12345678
  const KEY1: u32 := 0x23456789
  const KEY2: u32 := 0x34567890
  const UPDATE: bv32 := 134775813
  const CRC_POLY: bv32 := 0xEDB88320

  // ---------------------------------------------------------------------------
  // CRC-32 table
  // ---------------------------------------------------------------------------

  /** One reflected CRC step: shift right, XOR the polynomial when the low bit was 1. */
  function CrcShift(r: bv32): bv32
  {
    if r & 1 == 1 then (r >> 1) ^ CRC_POLY else r >> 1
  }

  /** n reflected CRC steps. */
  function CrcShifts(r: bv32, n: nat): bv32
  {
    if n == 0 then r else CrcShift(CrcShifts(r, n - 1))
  }

  /** Entry i of CRC_TABLE: i run through eight reflected steps. */
  function CrcTable(i: bv8): bv32
  {
    CrcShifts(i as bv32, 8)
  }

  /** The inner loop of the static initialiser: eight reflected steps on i. */
  method TableEntry(i: bv8) returns (r: bv32)
    ensures r == CrcTable(i)
  {
    r := i as bv32;
    var j := 0;
    while j < 8
      invariant 0 <= j <= 8
      invariant r == CrcShifts(i as bv32, j)
    {
      if r & 1 == 1 {
        r := (r >> 1) ^ CRC_POLY;
      } else {
        r := r >> 1;
      }
      j := j + 1;
    }
  }

  /** The static initialiser that fills CRC_TABLE. */
  method BuildCrcTable() returns (table: array<bv32>)
    ensures table.Length == 256
    ensures forall i :: 0 <= i < 256 ==> table[i] == CrcTable(i as bv8)
  {
    table := new bv32[256];
    var i := 0;
    while i < 256
      invariant 0 <= i <= 256
      invariant forall k :: 0 <= k < i ==> table[k] == CrcTable(k as bv8)
    {
      table[i] := TableEntry(i as bv8);
      i := i + 1;
    }
  }

  /** The byte step crc32(old, c) = (old >>> 8) ^ CRC_TABLE[(old ^ c) & 0xFF].
      The source XORs the sign-extended byte, but the mask keeps only its low
      8 bits, so the unsigned byte gives the same index. */
  function Crc32(oldCrc: bv32, c: byte): bv32
  {
    (oldCrc >> 8) ^ CrcTable(((oldCrc ^ (c as bv32)) & 0xFF) as bv8)
  }

  // ---------------------------------------------------------------------------
  // The three key registers
  // ---------------------------------------------------------------------------

  datatype Keys = Keys(k0: u32, k1: u32, k2: u32)

  /** The register values set by the constructor and by reset. */
  const INITIAL: Keys := Keys(KEY0, KEY1, KEY2)

  /** update(c): key0 := crc32(key0, c); key1 := (key1 + (key0 & 0xFF)) * 134775813 + 1;
      key2 := crc32(key2, key1 >>> 24), each step using the value just computed. */
  function UpdateKeys(k: Keys, c: byte): Keys
  {
    var k0 := Crc32(k.k0 as bv32, c);
    var k1 := (k.k1 as bv32 + (k0 & 0xFF)) * UPDATE + 1;
    var k2 := Crc32(k.k2 as bv32, ((k1 >> 24) & 0xFF) as byte);
    Keys(k0 as u32, k1 as u32, k2 as u32)
  }

  /** cryptByte: bits 8..15 of t * (t ^ 1) with t = key2 | 2. */
  function StreamByte(k: Keys): byte
  {
    var t := k.k2 as bv32 | 2;
    (((t * (t ^ 1)) >> 8) & 0xFF) as byte
  }

  // ---------------------------------------------------------------------------
  // Whole-buffer CRC-32 (the value java.util.zip.CRC32 computes), from the same table
  // ---------------------------------------------------------------------------

  /** The table step on a register held as a number, as CRC32.update keeps it. */
  function CrcByte(crc: u32, c: byte): u32
  {
    var v := Crc32(crc as bv32, c);
    v as u32
  }

  /** The register after feeding s, byte by byte. The step sits two calls
      below the run (CrcNext, CrcStep), so a proof that only mentions runs
      does not unfold the table arithmetic. */
  function CrcRun(crc: u32, s: seq<byte>): u32
    decreases |s|, 2
  {
    if s == [] then crc else CrcNext(crc, s)
  }

  function CrcNext(crc: u32, s: seq<byte>): u32
    requires s != []
    decreases |s|, 1
  {
    CrcStep(crc, s)
  }

  function CrcStep(crc: u32, s: seq<byte>): u32
    requires s != []
    decreases |s|, 0
  {
    CrcRun(CrcByte(crc, s[0]), s[1..])
  }

  /** CRC-32 of a byte sequence: register preset to all ones, result complemented. */
  function CrcOf(s: seq<byte>): u32
  {
    CrcValue(CrcRun(0xFFFF_FFFF, s))
  }

  /** The value a CRC-32 register stands for: its complement, all 32 bits
      flipped. */
  function CrcValue(reg: u32): u32
  {
    0xFFFF_FFFF - reg
  }

  /** The register after a concatenation is the register after the second part,
      started from the register the first part left: CRC-32 can be fed piecewise. */
  lemma {:induction false} CrcRunAppend(crc: u32, a: seq<byte>, b: seq<byte>)
    ensures CrcRun(crc, a + b) == CrcRun(CrcRun(crc, a), b)
    decreases |a|
  {
    if a == [] {
      assert a + b == b;
    } else {
      assert (a + b)[1..] == a[1..] + b;
      assert CrcRun(crc, a + b) == CrcStep(crc, a + b);
      assert CrcRun(crc, a) == CrcStep(crc, a);
      CrcRunAppend(CrcByte(crc, a[0]), a[1..], b);
    }
  }

  // ---------------------------------------------------------------------------
  // The cipher on byte sequences, for any register update and keystream byte
  // ---------------------------------------------------------------------------

  datatype Cipher = Cipher(update: (Keys, byte) -> Keys, pad: Keys -> byte)

  /** The registers after one more byte. */
  function Step(f: Cipher, k: Keys, x: byte): Keys
  {
    f.update(k, x)
  }

  /** The keystream byte of the registers. */
  function Pad(f: Cipher, k: Keys): byte
  {
    f.pad(k)
  }

  /** The traditional PKWARE cipher. */
  const PKWARE: Cipher := Cipher(UpdateKeys, StreamByte)

  /** The registers after feeding the bytes of s, in order, to update. */
  function Run(f: Cipher, k: Keys, s: seq<byte>): Keys
    decreases |s|, 1
  {
    if s == [] then k else RunNext(f, k, s)
  }

  /** The first byte of a non-empty run, kept one call away from Run so that
      a proof about a run does not unfold the register update unless it asks
      for a step. */
  function RunNext(f: Cipher, k: Keys, s: seq<byte>): Keys
    requires s != []
    decreases |s|, 0
  {
    Run(f, Step(f, k, s[0]), s[1..])
  }

  /** The registers after reset followed by feeding the password. */
  function Seeded(f: Cipher, password: seq<byte>): Keys
  {
    Run(f, INITIAL, password)
  }

  /** Encryption: each byte is XORed with the keystream byte, then the registers
      advance with the plaintext byte. */
  function Encrypt(f: Cipher, k: Keys, p: seq<byte>): (c: seq<byte>)
    ensures |c| == |p|
    decreases |p|, 1
  {
    if p == [] then [] else EncryptNext(f, k, p)
  }

  /** The first byte of a non-empty encryption and the rest, one call away
      from Encrypt as RunNext is from Run. */
  function EncryptNext(f: Cipher, k: Keys, p: seq<byte>): (c: seq<byte>)
    requires p != []
    ensures |c| == |p|
    decreases |p|, 0
  {
    [Xor(p[0], Pad(f, k))] + Encrypt(f, Step(f, k, p[0]), p[1..])
  }

  /** Decryption: each byte is XORed with the keystream byte, then the registers
      advance with the decrypted byte. */
  function Decrypt(f: Cipher, k: Keys, c: seq<byte>): (p: seq<byte>)
    ensures |p| == |c|
    decreases |c|, 1
  {
    if c == [] then [] else DecryptNext(f, k, c)
  }

  /** The first byte of a non-empty decryption and the rest. */
  function DecryptNext(f: Cipher, k: Keys, c: seq<byte>): (p: seq<byte>)
    requires c != []
    ensures |p| == |c|
    decreases |c|, 0
  {
    var x := Xor(c[0], Pad(f, k));
    [x] + Decrypt(f, Step(f, k, x), c[1..])
  }

  /** Feeding a concatenation is feeding the parts one after the other. */
  lemma {:induction false} RunAppend(f: Cipher, k: Keys, a: seq<byte>, b: seq<byte>)
    ensures Run(f, k, a + b) == Run(f, Run(f, k, a), b)
    decreases |a|
  {
    if a == [] {
      assert a + b == b;
    } else {
      assert (a + b)[1..] == a[1..] + b;
      RunAppend(f, Step(f, k, a[0]), a[1..], b);
    }
  }

  /** Encrypting in two pieces, the second under the registers the first left. */
  lemma {:induction false} EncryptAppend(f: Cipher, k: Keys, a: seq<byte>, b: seq<byte>)
    ensures Encrypt(f, k, a + b) == Encrypt(f, k, a) + Encrypt(f, Run(f, k, a), b)
    decreases |a|
  {
    if a == [] {
      assert a + b == b;
    } else {
      assert (a + b)[1..] == a[1..] + b;
      EncryptAppend(f, Step(f, k, a[0]), a[1..], b);
    }
  }

  /** Decrypting in two pieces, the second under the registers the first left. */
  lemma {:induction false} DecryptAppend(f: Cipher, k: Keys, a: seq<byte>, b: seq<byte>)
    ensures Decrypt(f, k, a + b) == Decrypt(f, k, a) + Decrypt(f, Run(f, k, Decrypt(f, k, a)), b)
    decreases |a|
  {
    if a == [] {
      assert a + b == b;
    } else {
      assert (a + b)[1..] == a[1..] + b;
      var x := Xor(a[0], Pad(f, k));
      DecryptAppend(f, Step(f, k, x), a[1..], b);
    }
  }

  /** One more byte: the keystream byte is the one the registers give after the prefix. */
  lemma EncryptSnoc(f: Cipher, k: Keys, a: seq<byte>, x: byte)
    ensures Encrypt(f, k, a + [x]) == Encrypt(f, k, a) + [Xor(x, Pad(f, Run(f, k, a)))]
    ensures Run(f, k, a + [x]) == Step(f, Run(f, k, a), x)
  {
    EncryptAppend(f, k, a, [x]);
    RunAppend(f, k, a, [x]);
    var k' := Run(f, k, a);
    assert Encrypt(f, k', [x]) == [Xor(x, Pad(f, k'))] + Encrypt(f, Step(f, k', x), []);
    assert Run(f, k', [x]) == Run(f, Step(f, k', x), []);
  }

  lemma DecryptSnoc(f: Cipher, k: Keys, a: seq<byte>, x: byte)
    ensures Decrypt(f, k, a + [x])
         == Decrypt(f, k, a) + [Xor(x, Pad(f, Run(f, k, Decrypt(f, k, a))))]
  {
    DecryptAppend(f, k, a, [x]);
    var k' := Run(f, k, Decrypt(f, k, a));
    var y := Xor(x, Pad(f, k'));
    assert Decrypt(f, k', [x]) == [y] + Decrypt(f, Step(f, k', y), []);
  }

  /** Feeding one more byte is one more update. */
  lemma RunSnoc(f: Cipher, k: Keys, a: seq<byte>, x: byte)
    ensures Run(f, k, a + [x]) == Step(f, Run(f, k, a), x)
  {
    RunAppend(f, k, a, [x]);
    assert [x][1..] == [];
    assert Run(f, Run(f, k, a), [x]) == RunNext(f, Run(f, k, a), [x]);
  }

  /** Any stretch of an encryption is the encryption of that stretch under the
      registers the bytes before it leave. */
  lemma EncryptSlice(f: Cipher, k: Keys, s: seq<byte>, i: nat, j: nat)
    requires i <= j <= |s|
    ensures Encrypt(f, k, s)[i..j] == Encrypt(f, Run(f, k, s[..i]), s[i..j])
  {
    assert s == s[..i] + (s[i..j] + s[j..]);
    EncryptAppend(f, k, s[..i], s[i..j] + s[j..]);
    EncryptAppend(f, Run(f, k, s[..i]), s[i..j], s[j..]);
  }

  /** Any stretch of a decryption is the decryption of that stretch under the
      registers the plaintext before it leaves. */
  lemma DecryptSlice(f: Cipher, k: Keys, s: seq<byte>, i: nat, j: nat)
    requires i <= j <= |s|
    ensures Decrypt(f, k, s)[i..j] == Decrypt(f, Run(f, k, Decrypt(f, k, s[..i])), s[i..j])
    ensures Decrypt(f, k, s)[..i] == Decrypt(f, k, s[..i])
  {
    assert s == s[..i] + (s[i..j] + s[j..]);
    DecryptAppend(f, k, s[..i], s[i..j] + s[j..]);
    DecryptAppend(f, Run(f, k, Decrypt(f, k, s[..i])), s[i..j], s[j..]);
  }

  /** Byte i of an encryption: byte i of the plaintext masked with the keystream
      byte of the registers the bytes before it leave. */
  lemma EncryptIndex(f: Cipher, k: Keys, s: seq<byte>, i: nat)
    requires i < |s|
    ensures Encrypt(f, k, s)[i] == Xor(s[i], Pad(f, Run(f, k, s[..i])))
    ensures Run(f, k, s[..i + 1]) == Step(f, Run(f, k, s[..i]), s[i])
  {
    var k' := Run(f, k, s[..i]);
    EncryptSlice(f, k, s, i, i + 1);
    assert s[i..i + 1] == [s[i]];
    assert Encrypt(f, k', [s[i]]) == [Xor(s[i], Pad(f, k'))] + Encrypt(f, Step(f, k', s[i]), []);
    assert Encrypt(f, k, s)[i] == Encrypt(f, k, s)[i..i + 1][0];
    assert s[..i + 1] == s[..i] + [s[i]];
    RunSnoc(f, k, s[..i], s[i]);
  }

  /** Byte i of a decryption: byte i of the ciphertext masked with the keystream
      byte of the registers the plaintext before it leaves. */
  lemma DecryptIndex(f: Cipher, k: Keys, s: seq<byte>, i: nat)
    requires i < |s|
    ensures Decrypt(f, k, s)[i] == Xor(s[i], Pad(f, Run(f, k, Decrypt(f, k, s)[..i])))
    ensures Run(f, k, Decrypt(f, k, s)[..i + 1]) == Step(f, Run(f, k, Decrypt(f, k, s)[..i]), Decrypt(f, k, s)[i])
  {
    var d := Decrypt(f, k, s);
    DecryptSlice(f, k, s, i, i + 1);
    assert d[..i + 1] == d[..i] + [d[i]];
    RunSnoc(f, k, d[..i], d[i]);
    var k' := Run(f, k, d[..i]);
    var y := Xor(s[i], Pad(f, k'));
    assert Decrypt(f, k', s[i..i + 1]) == [y] + Decrypt(f, Step(f, k', y), []);
  }

  // ---------------------------------------------------------------------------
  // The same cipher, byte by byte: what a loop over a buffer maintains
  // ---------------------------------------------------------------------------

  /** The registers after the first i bytes of s. */
  function KeysAt(f: Cipher, k: Keys, s: seq<byte>, i: nat): Keys
    requires i <= |s|
  {
    if i == 0 then k else Step(f, KeysAt(f, k, s, i - 1), s[i - 1])
  }

  /** The registers while decrypting c, after the first i bytes: each step feeds
      the byte just decrypted. */
  function DecryptKeysAt(f: Cipher, k: Keys, c: seq<byte>, i: nat): Keys
    requires i <= |c|
  {
    if i == 0 then k
    else
      var d := DecryptKeysAt(f, k, c, i - 1);
      Step(f, d, Xor(c[i - 1], Pad(f, d)))
  }

  lemma {:induction false} KeysAtRun(f: Cipher, k: Keys, s: seq<byte>, i: nat)
    requires i <= |s|
    ensures KeysAt(f, k, s, i) == Run(f, k, s[..i])
  {
    if i == 0 {
      assert s[..0] == [];
    } else {
      KeysAtRun(f, k, s, i - 1);
      assert s[..i] == s[..i - 1] + [s[i - 1]];
      RunSnoc(f, k, s[..i - 1], s[i - 1]);
    }
  }

  lemma {:induction false} DecryptKeysAtRun(f: Cipher, k: Keys, c: seq<byte>, i: nat)
    requires i <= |c|
    ensures DecryptKeysAt(f, k, c, i) == Run(f, k, Decrypt(f, k, c)[..i])
  {
    if i == 0 {
      assert Decrypt(f, k, c)[..0] == [];
    } else {
      DecryptKeysAtRun(f, k, c, i - 1);
      DecryptIndex(f, k, c, i - 1);
    }
  }

  /** Encryption byte by byte: byte i is byte i of the plaintext masked with the
      keystream byte of the registers after the bytes before it. */
  lemma EncryptByIndex(f: Cipher, k: Keys, s: seq<byte>)
    ensures forall i {:trigger Encrypt(f, k, s)[i]} :: 0 <= i < |s| ==> Encrypt(f, k, s)[i] == Xor(s[i], Pad(f, KeysAt(f, k, s, i)))
    ensures KeysAt(f, k, s, |s|) == Run(f, k, s)
  {
    forall i | 0 <= i < |s|
      ensures Encrypt(f, k, s)[i] == Xor(s[i], Pad(f, KeysAt(f, k, s, i)))
    {
      EncryptIndex(f, k, s, i);
      KeysAtRun(f, k, s, i);
    }
    KeysAtRun(f, k, s, |s|);
    assert s[..|s|] == s;
  }

  /** Decryption byte by byte. */
  lemma DecryptByIndex(f: Cipher, k: Keys, c: seq<byte>)
    ensures forall i {:trigger Decrypt(f, k, c)[i]} :: 0 <= i < |c| ==> Decrypt(f, k, c)[i] == Xor(c[i], Pad(f, DecryptKeysAt(f, k, c, i)))
    ensures DecryptKeysAt(f, k, c, |c|) == Run(f, k, Decrypt(f, k, c))
  {
    forall i | 0 <= i < |c|
      ensures Decrypt(f, k, c)[i] == Xor(c[i], Pad(f, DecryptKeysAt(f, k, c, i)))
    {
      DecryptIndex(f, k, c, i);
      DecryptKeysAtRun(f, k, c, i);
    }
    DecryptKeysAtRun(f, k, c, |c|);
    assert Decrypt(f, k, c)[..|c|] == Decrypt(f, k, c);
  }

  /** The registers after i bytes depend on those i bytes only. */
  lemma {:induction false} KeysAtPrefix(f: Cipher, k: Keys, s: seq<byte>, t: seq<byte>, i: nat)
    requires i <= |s| && i <= |t|
    requires forall j :: 0 <= j < i ==> s[j] == t[j]
    ensures KeysAt(f, k, s, i) == KeysAt(f, k, t, i)
  {
    if i > 0 {
      KeysAtPrefix(f, k, s, t, i - 1);
    }
  }

  lemma {:induction false} DecryptKeysAtPrefix(f: Cipher, k: Keys, s: seq<byte>, t: seq<byte>, i: nat)
    requires i <= |s| && i <= |t|
    requires forall j :: 0 <= j < i ==> s[j] == t[j]
    ensures DecryptKeysAt(f, k, s, i) == DecryptKeysAt(f, k, t, i)
  {
    if i > 0 {
      DecryptKeysAtPrefix(f, k, s, t, i - 1);
    }
  }

  /** Decrypting what was encrypted under the same registers gives the plaintext. */
  lemma {:induction false} DecryptEncrypt(f: Cipher, k: Keys, p: seq<byte>)
    ensures Decrypt(f, k, Encrypt(f, k, p)) == p
    decreases |p|
  {
    if p != [] {
      XorTwice(p[0], Pad(f, k));
      DecryptEncrypt(f, Step(f, k, p[0]), p[1..]);
    }
  }

  /** Encrypting what was decrypted under the same registers gives the ciphertext. */
  lemma {:induction false} EncryptDecrypt(f: Cipher, k: Keys, c: seq<byte>)
    ensures Encrypt(f, k, Decrypt(f, k, c)) == c
    decreases |c|
  {
    if c != [] {
      var x := Xor(c[0], Pad(f, k));
      XorTwice(c[0], Pad(f, k));
      EncryptDecrypt(f, Step(f, k, x), c[1..]);
    }
  }

  /** Decryption feeds the registers the plaintext, as encryption does: after
      decrypting an encryption both sides hold the same registers. */
  lemma DecryptEncryptKeys(f: Cipher, k: Keys, p: seq<byte>)
    ensures Run(f, k, Decrypt(f, k, Encrypt(f, k, p))) == Run(f, k, p)
  {
    DecryptEncrypt(f, k, p);
  }

  // ---------------------------------------------------------------------------
  // The key object
  // ---------------------------------------------------------------------------

  /** PKWareKey: the three registers as mutable fields, and the cipher they run
      (fixed to PKWARE by the constructor). The older GsZipPKWareKey is the same
      object without Reset, so each of its instances is single-use. */
  class PKWareKey {
    const cipher: Cipher
    var key0: u32
    var key1: u32
    var key2: u32

    function State(): Keys
      reads this
    {
      Keys(key0, key1, key2)
    }

    constructor ()
      ensures cipher == PKWARE
      ensures State() == INITIAL
    {
      cipher := PKWARE;
      key0, key1, key2 := KEY0, KEY1, KEY2;
    }

    /** Whatever was fed before, the registers restart from the constants. */
    method Reset()
      modifies this
      ensures State() == INITIAL
    {
      key0 := KEY0;
      key1 := KEY1;
      key2 := KEY2;
    }

    method Update(c: byte)
      modifies this
      ensures State() == Step(cipher, old(State()), c)
    {
      var next := Step(cipher, State(), c);
      key0, key1, key2 := next.k0, next.k1, next.k2;
    }

    /** The keystream byte; it reads the registers and changes none of them. */
    method CryptByte() returns (b: byte)
      ensures b == Pad(cipher, State())
    {
      b := Pad(cipher, State());
    }
  }
}
