// Text in memory and the length scan (rizzos/lib/stb_sprintf.h:309-347).
module StbScans {
  import opened Bits
  import opened StbWords

  /**
   * Readable memory: bytes from the address `at` up to the end of an aligned word.  A
   * word read may look past a closing NUL, but not past the end of its word.
   */
  datatype Block = Block(bytes: seq<Byte>, at: nat) {
    predicate Aligned() {
      (at + |bytes|) % 4 == 0
    }

    predicate AlignedAt(i: nat) {
      (at + i) % 4 == 0
    }

    /** Four bytes read at once from an aligned address. */
    function WordAt(i: nat): (v: nat)
      requires i + 4 <= |bytes|
      ensures v < WORD_LIMIT
    {
      ZeroMarkMeaning(bytes[i], bytes[i + 1], bytes[i + 2], bytes[i + 3]);
      Word(bytes[i], bytes[i + 1], bytes[i + 2], bytes[i + 3])
    }
  }

  /** At an aligned address short of the end a whole word can be read; the end is aligned. */
  lemma WholeWord(b: Block, i: nat)
    requires b.Aligned() && i <= |b.bytes|
    ensures b.AlignedAt(i) && i < |b.bytes| ==> i + 4 <= |b.bytes| && b.AlignedAt(i + 4)
    ensures i == |b.bytes| ==> b.AlignedAt(i)
  {
  }

  lemma WordIs(b: Block, i: nat)
    requires i + 4 <= |b.bytes|
    ensures b.WordAt(i) == Word(b.bytes[i], b.bytes[i + 1], b.bytes[i + 2], b.bytes[i + 3])
  {
  }

  /** Short of the limit and of a NUL there is something left to read. */
  lemma MoreToRead(s: seq<Byte>, limit: nat, i: nat)
    requires 0 in s || limit <= |s|
    requires i < limit && i <= |s| && forall k :: 0 <= k < i ==> s[k] != 0
    ensures i < |s|
  {
  }

  /** The length of a string, but at most limit. */
  ghost predicate IsLength(s: seq<Byte>, limit: nat, n: nat) {
    n <= limit && n <= |s| && (forall k :: 0 <= k < n ==> s[k] != 0) && (n < limit ==> n < |s| && s[n] == 0)
  }

  lemma LengthUnique(s: seq<Byte>, limit: nat, n: nat, m: nat)
    requires IsLength(s, limit, n) && IsLength(s, limit, m)
    ensures n == m
  {
  }

  /** That length, as a function. */
  function Length(s: seq<Byte>, limit: nat): (n: nat)
    requires 0 in s || limit <= |s|
    ensures IsLength(s, limit, n)
  {
    if limit == 0 || s[0] == 0 then 0 else 1 + Length(s[1..], limit - 1)
  }

  /** stbsp__strlen_limited. */
  method StrlenLimited(s: Block, limit: nat) returns (n: nat)
    requires s.Aligned() && (0 in s.bytes || limit <= |s.bytes|)
    ensures IsLength(s.bytes, limit, n)
  {
    hide ZeroMark, Word, Block.Aligned, Block.AlignedAt, Block.WordAt;
    var sn, left := 0, limit;
    while true
      invariant sn <= |s.bytes| && left == limit - sn && 0 <= left
      invariant forall k :: 0 <= k < sn ==> s.bytes[k] != 0
      decreases left
    {
      WholeWord(s, sn);
      if s.AlignedAt(sn) {
        break;
      }
      if left == 0 || s.bytes[sn] == 0 {
        return sn;
      }
      sn, left := sn + 1, left - 1;
    }
    while left >= 4
      invariant sn <= |s.bytes| && left == limit - sn && 0 <= left && s.AlignedAt(sn)
      invariant forall k :: 0 <= k < sn ==> s.bytes[k] != 0
      decreases left
    {
      MoreToRead(s.bytes, limit, sn);
      WholeWord(s, sn);
      WordIs(s, sn);
      ZeroMarkMeaning(s.bytes[sn], s.bytes[sn + 1], s.bytes[sn + 2], s.bytes[sn + 3]);
      if ZeroMark(s.WordAt(sn)) != 0 {
        break;
      }
      sn, left := sn + 4, left - 4;
    }
    if left != 0 {
      MoreToRead(s.bytes, limit, sn);
    }
    while left != 0 && s.bytes[sn] != 0
      invariant left != 0 ==> sn < |s.bytes|
      invariant sn <= |s.bytes| && left == limit - sn && 0 <= left
      invariant forall k :: 0 <= k < sn ==> s.bytes[k] != 0
      decreases left
    {
      sn, left := sn + 1, left - 1;
      if left != 0 {
        MoreToRead(s.bytes, limit, sn);
      }
    }
    return sn;
  }
}
