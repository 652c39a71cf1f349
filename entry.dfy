/** GsZipEntry: a read-only view of one central directory header, with the
    name decoded and the time converted once, at construction. */
module Entries {
  import opened ZipCommon
  import opened Headers

  datatype CompressMethod = Stored | Flate | UnsupportedCompression
  datatype EncryptMethod = NoEncryption | PkwareEncryption | UnsupportedEncryption

  /** index is the position in the central directory; name is the text the
      header's resolved name bytes decode to, and time its DOS date and time
      as calendar fields. */
  datatype Entry = Entry(index: int, header: Header, name: string, time: DateTime)

  /** The constructor. Charset decoding is not modelled: `decode` turns the
      bytes getFileName resolves, tagged UTF-8 or the caller's charset, into
      text. A malformed extra field makes getFileName, and so the
      constructor, throw. */
  function NewEntry(index: int, h: Header, decode: NameBytes -> string): (r: Result<Entry>)
    ensures r.Ok? <==> FileName(h).Ok?
    ensures r.Err? ==> r.error == FileName(h).error
    ensures r.Ok? ==> r.value.index == index && r.value.header == h
                      && r.value.name == decode(FileName(h).value)
                      && r.value.time == FromDos(h.lastModDate, h.lastModTime)
  {
    var n :- FileName(h);
    Ok(Entry(index, h, decode(n), FromDos(h.lastModDate, h.lastModTime)))
  }

  predicate EndsWithSlash(s: string)
  {
    |s| > 0 && s[|s| - 1] == '/'
  }

  /** isFile: everything but a name ending in '/' with no data. */
  predicate IsFile(e: Entry)
  {
    !(EndsWithSlash(e.name) && e.header.uncompSize == 0)
  }

  /** getEncryptMethod: the value of the two encryption bits. */
  function EncryptMethodOf(e: Entry): (r: EncryptMethod)
    ensures r == NoEncryption <==> !HasFlag(e.header, FLAG_ENCRYPTED) && !HasFlag(e.header, FLAG_STRONG_ENCRYPTION)
    ensures r == PkwareEncryption <==> HasFlag(e.header, FLAG_ENCRYPTED) && !HasFlag(e.header, FLAG_STRONG_ENCRYPTION)
    ensures r == UnsupportedEncryption <==> HasFlag(e.header, FLAG_STRONG_ENCRYPTION)
  {
    EncMethodBits(e.header);
    var m := EncMethod(e.header);
    if m == ENCRYPT_NONE then NoEncryption
    else if m == ENCRYPT_PKWARE then PkwareEncryption
    else UnsupportedEncryption
  }

  /** isEncrypted: either encryption bit is set. */
  predicate IsEncrypted(e: Entry)
  {
    EncryptMethodOf(e) != NoEncryption
  }

  lemma IsEncryptedBits(e: Entry)
    ensures IsEncrypted(e) <==> HasFlag(e.header, FLAG_ENCRYPTED) || HasFlag(e.header, FLAG_STRONG_ENCRYPTION)
  {
  }

  /** getCompressMethod: 0 is stored, 8 deflated, every other method is not
      supported. */
  function CompressMethodOf(e: Entry): (r: CompressMethod)
    ensures r == Stored <==> e.header.compMethod == COMPRESS_STORED
    ensures r == Flate <==> e.header.compMethod == COMPRESS_FLATE
  {
    if e.header.compMethod == COMPRESS_STORED then Stored
    else if e.header.compMethod == COMPRESS_FLATE then Flate
    else UnsupportedCompression
  }

  /** isCompressed: anything but stored, so an unsupported method counts as
      compressed. */
  predicate IsCompressed(e: Entry)
  {
    CompressMethodOf(e) != Stored
  }

  /** setEncMethod(ENCRYPT_PKWARE), as the packer calls it for a password,
      makes the entry read back as PKWARE-encrypted whenever the strong
      encryption bit was clear, as it is in a new header. */
  lemma PackerEncryptionReadsBack(e: Entry, flags: u16)
    requires e.header.bitFlags == WithEncMethod(flags, ENCRYPT_PKWARE) && Bit(flags as nat, 6) == 0
    ensures EncryptMethodOf(e) == PkwareEncryption && IsEncrypted(e)
  {
    Pow2Sixteen();
    OrBitsBit(flags as nat, 1, 16, 0);
    OrBitsBit(flags as nat, 1, 16, 6);
    BitsOfOne();
    EncMethodBits(e.header);
  }

  /** ENCRYPT_PKWARE has bit 0 and not bit 6. */
  lemma BitsOfOne()
    ensures Bit(1, 0) == 1
    ensures Bit(1, 6) == 0
  {
    assert Bit(1, 0) == 1 % 2 == 1;
    assert Bit(1, 6) == Bit(0, 5) == Bit(0, 4) == Bit(0, 3) == Bit(0, 2) == Bit(0, 1) == Bit(0, 0) == 0;
  }

  /** A new header, which the packer leaves unencrypted without a password,
      reads back as not encrypted. */
  lemma PlainHeaderNotEncrypted(e: Entry)
    requires e.header.bitFlags == NEW_HEADER.bitFlags
    ensures EncryptMethodOf(e) == NoEncryption && !IsEncrypted(e)
  {
    EncMethodBits(e.header);
  }
}
