// Sealing and checking UEFI table headers (bootloader/gnu-efi/lib/crc.c:70-198; the
// header layout is that of section 4.2 of the UEFI Specification).
module TableHeaders {
  import opened Crcs

  const SIZE_OFFSET: nat := 12
  const CRC_OFFSET: nat := 16
  const HEADER_BYTES: nat := 24

  /** The bytes of a UINT32, lowest first. */
  function WordBytes(w: bv32): (b: Bytes)
    ensures |b| == 4
  {
    [(w & 0xff) as bv8, ((w >> 8) & 0xff) as bv8, ((w >> 16) & 0xff) as bv8, ((w >> 24) & 0xff) as bv8]
  }

  function WordOf(b0: bv8, b1: bv8, b2: bv8, b3: bv8): bv32 {
    (b0 as bv32) | ((b1 as bv32) << 8) | ((b2 as bv32) << 16) | ((b3 as bv32) << 24)
  }

  function WordAt(s: Bytes, i: nat): bv32
    requires i + 4 <= |s|
  {
    WordOf(s[i], s[i + 1], s[i + 2], s[i + 3])
  }

  lemma WordRoundTrip(w: bv32)
    ensures WordAt(WordBytes(w), 0) == w
  {
  }

  /** The header with its CRC32 field replaced. */
  function WithCrc(s: Bytes, w: bv32): (t: Bytes)
    requires |s| >= HEADER_BYTES
    ensures |t| == |s|
  {
    s[..CRC_OFFSET] + WordBytes(w) + s[CRC_OFFSET + 4..]
  }

  /** Hdr->HeaderSize */
  function HeaderSize(s: Bytes): nat
    requires |s| >= HEADER_BYTES
  {
    WordAt(s, SIZE_OFFSET) as int
  }

  /** The CRC of the first `size` bytes with the field cleared. */
  function HeaderCrc(s: Bytes, size: nat): bv32
    requires HEADER_BYTES <= |s| && size <= |s|
  {
    Crc(WithCrc(s, 0)[..size])
  }

  function Sealed(s: Bytes, size: nat): (t: Bytes)
    requires HEADER_BYTES <= |s| && size <= |s|
    ensures |t| == |s|
  {
    WithCrc(s, HeaderCrc(s, size))
  }

  /** The sizes that are not turned away before a byte is read. */
  predicate Accepts(maxSize: nat, size: nat) {
    size != 0 && !(maxSize != 0 && size > maxSize)
  }

  /** What CheckCrcAltSize answers; only an accepted size has to lie inside the memory. */
  predicate Passes(s: Bytes, maxSize: nat, size: nat)
    requires HEADER_BYTES <= |s| && (Accepts(maxSize, size) ==> size <= |s|)
  {
    Accepts(maxSize, size) && WordAt(s, CRC_OFFSET) == HeaderCrc(s, size)
  }

  lemma FieldOf(s: Bytes, w: bv32)
    requires |s| >= HEADER_BYTES
    ensures WordAt(WithCrc(s, w), CRC_OFFSET) == w
  {
    WordRoundTrip(w);
    hide WordBytes, WordOf;
    var t := WithCrc(s, w);
    assert t[CRC_OFFSET] == WordBytes(w)[0] && t[CRC_OFFSET + 1] == WordBytes(w)[1];
    assert t[CRC_OFFSET + 2] == WordBytes(w)[2] && t[CRC_OFFSET + 3] == WordBytes(w)[3];
  }

  lemma WithCrcTwice(s: Bytes, v: bv32, w: bv32)
    requires |s| >= HEADER_BYTES
    ensures WithCrc(WithCrc(s, v), w) == WithCrc(s, w)
  {
    hide WordBytes;
    var t := WithCrc(s, v);
    assert t[..CRC_OFFSET] == s[..CRC_OFFSET] && t[CRC_OFFSET + 4..] == s[CRC_OFFSET + 4..];
  }

  /** A sealed header passes for every size that is not zero and within the limit, and for no other. */
  lemma SealedPasses(s: Bytes, maxSize: nat, size: nat)
    requires HEADER_BYTES <= |s| && size <= |s|
    ensures Passes(Sealed(s, size), maxSize, size) <==> size != 0 && (maxSize == 0 || size <= maxSize)
  {
    hide WordAt, WithCrc, Crc;
    FieldOf(s, HeaderCrc(s, size));
    WithCrcTwice(s, HeaderCrc(s, size), 0);
  }

  /** Sealing leaves the header's own size field, so SetCrc followed by CheckCrc succeeds. */
  lemma SealedHeaderPasses(s: Bytes, maxSize: nat)
    requires HEADER_BYTES <= |s| && HeaderSize(s) <= |s|
    ensures var t := Sealed(s, HeaderSize(s));
      && HeaderSize(t) == HeaderSize(s)
      && (Passes(t, maxSize, HeaderSize(t)) <==> HeaderSize(s) != 0 && (maxSize == 0 || HeaderSize(s) <= maxSize))
  {
    SealedPasses(s, maxSize, HeaderSize(s));
    hide WordOf, WordBytes, Crc;
    var t := Sealed(s, HeaderSize(s));
    assert t[SIZE_OFFSET] == s[SIZE_OFFSET] && t[SIZE_OFFSET + 1] == s[SIZE_OFFSET + 1];
    assert t[SIZE_OFFSET + 2] == s[SIZE_OFFSET + 2] && t[SIZE_OFFSET + 3] == s[SIZE_OFFSET + 3];
  }

  /** Sealing a sealed header again changes nothing. */
  lemma SealIdempotent(s: Bytes, size: nat)
    requires HEADER_BYTES <= |s| && size <= |s|
    ensures Sealed(Sealed(s, size), size) == Sealed(s, size)
  {
    hide WordAt, WithCrc, Crc;
    WithCrcTwice(s, HeaderCrc(s, size), 0);
    WithCrcTwice(s, HeaderCrc(s, size), HeaderCrc(s, size));
  }

  /** Clearing the field keeps the differences outside it. */
  lemma ClearedDiffers(s: Bytes, t: Bytes, size: nat, k: nat)
    requires HEADER_BYTES <= |s| == |t| && size <= |s| && k <= size
    requires s[CRC_OFFSET..CRC_OFFSET + 4] == t[CRC_OFFSET..CRC_OFFSET + 4]
    requires s[..k] == t[..k] && (k + 4 <= size ==> s[k + 4..size] == t[k + 4..size])
    ensures var (x, y) := (WithCrc(s, 0)[..size], WithCrc(t, 0)[..size]);
      && x[..k] == y[..k] && (k + 4 <= size ==> x[k + 4..] == y[k + 4..])
      && (x == y <==> s[..size] == t[..size])
  {
    hide WordBytes;
    var (x, y) := (WithCrc(s, 0)[..size], WithCrc(t, 0)[..size]);
    forall i | 0 <= i < size
      ensures x[i] == y[i] <==> s[i] == t[i]
    {
      if CRC_OFFSET <= i < CRC_OFFSET + 4 {
        assert s[i] == s[CRC_OFFSET..CRC_OFFSET + 4][i - CRC_OFFSET];
        assert t[i] == t[CRC_OFFSET..CRC_OFFSET + 4][i - CRC_OFFSET];
      }
    }
    forall i | 0 <= i < k
      ensures x[i] == y[i]
    {
      assert s[..k][i] == t[..k][i];
    }
    if k + 4 <= size {
      forall i | k + 4 <= i < size
        ensures x[i] == y[i]
      {
        assert s[k + 4..size][i - k - 4] == t[k + 4..size][i - k - 4];
      }
    }
    if s[..size] == t[..size] {
      forall i | 0 <= i < size
        ensures x[i] == y[i]
      {
        assert s[..size][i] == t[..size][i];
      }
    }
    if x == y {
      forall i | 0 <= i < size
        ensures s[i] == t[i]
      {
        assert x[i] == y[i];
      }
    }
  }

  /**
   * A sealed header that is altered afterwards, inside four consecutive bytes and
   * outside the CRC32 field, still passes exactly when the covered bytes are unchanged.
   */
  lemma TamperingDetected(s: Bytes, t: Bytes, maxSize: nat, size: nat, k: nat)
    requires HEADER_BYTES <= |s| == |t| && k <= size <= |s|
    requires size != 0 && (maxSize == 0 || size <= maxSize)
    requires var sealed := Sealed(s, size);
      && sealed[CRC_OFFSET..CRC_OFFSET + 4] == t[CRC_OFFSET..CRC_OFFSET + 4]
      && sealed[..k] == t[..k] && (k + 4 <= size ==> sealed[k + 4..size] == t[k + 4..size])
    ensures Passes(t, maxSize, size) <==> t[..size] == Sealed(s, size)[..size]
  {
    hide Crc, Sealed, WithCrc;
    var sealed := Sealed(s, size);
    SealedPasses(s, maxSize, size);
    ClearedDiffers(sealed, t, size, k);
    SameField(sealed, t);
    var (x, y) := (WithCrc(sealed, 0)[..size], WithCrc(t, 0)[..size]);
    if x != y {
      CrcDetectsFourBytes(x, y, k);
    }
  }

  lemma SameField(s: Bytes, t: Bytes)
    requires HEADER_BYTES <= |s| == |t|
    requires s[CRC_OFFSET..CRC_OFFSET + 4] == t[CRC_OFFSET..CRC_OFFSET + 4]
    ensures WordAt(s, CRC_OFFSET) == WordAt(t, CRC_OFFSET)
  {
    hide WordOf;
    var (x, y) := (s[CRC_OFFSET..CRC_OFFSET + 4], t[CRC_OFFSET..CRC_OFFSET + 4]);
    assert x[0] == y[0] && x[1] == y[1] && x[2] == y[2] && x[3] == y[3];
  }

  // ----- where the fields are

  /**
   * The CRC field is the four bytes from 16 on, lowest first; sealing puts there the CRC
   * of the bytes asked for, taken with zeros in the field, and changes no other byte.
   */
  lemma SealedLayout(s: Bytes, size: nat)
    requires 24 <= |s| && size <= |s|
    ensures var t := Sealed(s, size);
      && t[..16] == s[..16] && t[20..] == s[20..]
      && t[16..20] == LowestFirst(Crc((s[..16] + [0, 0, 0, 0] + s[20..])[..size]))
  {
    hide Crc;
    ZeroWord();
    BytesAreLowestFirst(HeaderCrc(s, size));
  }

  lemma ZeroWord()
    ensures WordBytes(0) == [0, 0, 0, 0]
  {
  }

  lemma BytesAreLowestFirst(w: bv32)
    ensures WordBytes(w) == LowestFirst(w)
  {
  }

  /** The header's own size is the word whose bytes, lowest first, stand from 12 on. */
  lemma SizeLayout(s: Bytes, w: bv32)
    requires 24 <= |s| && s[12..16] == LowestFirst(w)
    ensures HeaderSize(s) == w as int
  {
    hide WordOf, LowestFirst, WordBytes;
    BytesAreLowestFirst(w);
    WordRoundTrip(w);
    assert s[12] == s[12..16][0] && s[13] == s[12..16][1] && s[14] == s[12..16][2] && s[15] == s[12..16][3];
  }

  // ----- the code, on the header in memory

  class TableHeader {
    const bytes: array<bv8>

    constructor (bytes: array<bv8>)
      requires bytes.Length >= HEADER_BYTES
      ensures this.bytes == bytes
    {
      this.bytes := bytes;
    }

    /** Hdr->CRC32 = w */
    method StoreCrc(w: bv32)
      requires bytes.Length >= HEADER_BYTES
      modifies bytes
      ensures bytes[..] == WithCrc(old(bytes[..]), w)
    {
      hide WordBytes;
      var b := WordBytes(w);
      bytes[CRC_OFFSET] := b[0];
      bytes[CRC_OFFSET + 1] := b[1];
      bytes[CRC_OFFSET + 2] := b[2];
      bytes[CRC_OFFSET + 3] := b[3];
    }

    /** SetCrcAltSize. */
    method SetCrcAltSize(size: nat)
      requires bytes.Length >= HEADER_BYTES && size <= bytes.Length
      modifies bytes
      ensures bytes[..] == Sealed(old(bytes[..]), size)
    {
      hide WithCrc, Crc;
      ghost var s := bytes[..];
      StoreCrc(0);
      var crc := CalculateCrc(bytes[..size]);
      assert bytes[..size] == bytes[..][..size];
      WithCrcTwice(s, 0, crc);
      StoreCrc(crc);
    }

    /** CheckCrcAltSize: the field is cleared for the computation and put back. */
    method CheckCrcAltSize(maxSize: nat, size: nat) returns (ok: bool)
      requires bytes.Length >= HEADER_BYTES && (Accepts(maxSize, size) ==> size <= bytes.Length)
      modifies bytes
      ensures bytes[..] == old(bytes[..])
      ensures ok == Passes(old(bytes[..]), maxSize, size)
    {
      hide WithCrc, Crc, WordAt;
      ghost var s := bytes[..];
      if size == 0 {
        return false;
      }
      if maxSize != 0 && size > maxSize {
        return false;
      }
      var orgCrc := LoadWord(CRC_OFFSET);
      StoreCrc(0);
      var crc := CalculateCrc(bytes[..size]);
      assert bytes[..size] == bytes[..][..size];
      StoreCrc(orgCrc);
      WithCrcTwice(s, 0, orgCrc);
      PutBack(s);
      ok := orgCrc == crc;
    }

    /** SetCrc. */
    method SetCrc()
      requires bytes.Length >= HEADER_BYTES && HeaderSize(bytes[..]) <= bytes.Length
      modifies bytes
      ensures bytes[..] == Sealed(old(bytes[..]), HeaderSize(old(bytes[..])))
    {
      hide WordAt, Sealed;
      var size := LoadWord(SIZE_OFFSET);
      SetCrcAltSize(size as int);
    }

    /** CheckCrc. */
    method CheckCrc(maxSize: nat) returns (ok: bool)
      requires bytes.Length >= HEADER_BYTES
      requires Accepts(maxSize, HeaderSize(bytes[..])) ==> HeaderSize(bytes[..]) <= bytes.Length
      modifies bytes
      ensures bytes[..] == old(bytes[..])
      ensures ok == Passes(old(bytes[..]), maxSize, HeaderSize(old(bytes[..])))
    {
      hide WordAt, Passes;
      var size := LoadWord(SIZE_OFFSET);
      ok := CheckCrcAltSize(maxSize, size as int);
    }

    method LoadWord(i: nat) returns (w: bv32)
      requires i + 4 <= bytes.Length
      ensures w == WordAt(bytes[..], i)
    {
      hide WordOf;
      w := WordOf(bytes[i], bytes[i + 1], bytes[i + 2], bytes[i + 3]);
    }
  }

  lemma PutBack(s: Bytes)
    requires |s| >= HEADER_BYTES
    ensures WithCrc(s, WordAt(s, CRC_OFFSET)) == s
  {
    BytesOfWord(s[CRC_OFFSET], s[CRC_OFFSET + 1], s[CRC_OFFSET + 2], s[CRC_OFFSET + 3]);
    hide WordBytes, WordOf;
    assert s == s[..CRC_OFFSET] + [s[CRC_OFFSET], s[CRC_OFFSET + 1], s[CRC_OFFSET + 2], s[CRC_OFFSET + 3]]
      + s[CRC_OFFSET + 4..];
  }

  lemma BytesOfWord(b0: bv8, b1: bv8, b2: bv8, b3: bv8)
    ensures WordBytes(WordOf(b0, b1, b2, b3)) == [b0, b1, b2, b3]
  {
  }
}
