/** Bytes, little-endian numbers and overwriting part of a buffer. */
module Bytes {
  type Byte = n: int | 0 <= n < 256

  function Pow256(k: nat): (p: nat)
    ensures p > 0
  {
    if k == 0 then 1 else 256 * Pow256(k - 1)
  }

  /** The k lowest bytes of n, least significant first. */
  function Le(n: nat, k: nat): (b: seq<Byte>)
    ensures |b| == k
  {
    if k == 0 then [] else [n % 256] + Le(n / 256, k - 1)
  }

  function Read(b: seq<Byte>): nat
  {
    if b == [] then 0 else b[0] + 256 * Read(b[1..])
  }

  lemma {:induction false} ReadLe(n: nat, k: nat)
    requires n < Pow256(k)
    ensures Read(Le(n, k)) == n
  {
    if k > 0 {
      ReadLe(n / 256, k - 1);
      assert Le(n, k)[1..] == Le(n / 256, k - 1);
    }
  }

  lemma {:induction false} ReadBound(b: seq<Byte>)
    ensures Read(b) < Pow256(|b|)
  {
    if b != [] { ReadBound(b[1..]); }
  }

  lemma {:induction false} ReadInjective(a: seq<Byte>, b: seq<Byte>)
    requires |a| == |b| && Read(a) == Read(b)
    ensures a == b
  {
    if a != [] {
      assert a[0] == Read(a) % 256 && b[0] == Read(b) % 256;
      ReadInjective(a[1..], b[1..]);
      assert a == [a[0]] + a[1..] && b == [b[0]] + b[1..];
    }
  }

  lemma PowersOf256()
    ensures Pow256(2) == 0x1_0000 && Pow256(4) == 0x1_0000_0000 && Pow256(8) == 0x1_0000_0000_0000_0000
  {
  }

  function Zeros(n: nat): (z: seq<Byte>)
    ensures |z| == n && forall i :: 0 <= i < n ==> z[i] == 0
  {
    seq(n, i => 0)
  }

  /** The buffer with some bytes overwritten. */
  function Splice(b: seq<Byte>, at: nat, data: seq<Byte>): (r: seq<Byte>)
    requires at + |data| <= |b|
    ensures |r| == |b|
  {
    b[..at] + data + b[at + |data|..]
  }

  lemma SpliceAt(b: seq<Byte>, at: nat, data: seq<Byte>, i: nat)
    requires at + |data| <= |b| && i < |b|
    ensures Splice(b, at, data)[i] == if at <= i < at + |data| then data[i - at] else b[i]
  {
  }

  lemma SpliceHit(b: seq<Byte>, at: nat, data: seq<Byte>)
    requires at + |data| <= |b|
    ensures Splice(b, at, data)[at..at + |data|] == data
  {
  }

  lemma SpliceMiss(b: seq<Byte>, at: nat, data: seq<Byte>, lo: nat, hi: nat)
    requires at + |data| <= |b| && lo <= hi <= |b| && (hi <= at || at + |data| <= lo)
    ensures Splice(b, at, data)[lo..hi] == b[lo..hi]
  {
  }

  lemma SpliceTwice(b: seq<Byte>, at: nat, data: seq<Byte>, more: seq<Byte>)
    requires at + |data| <= |b| && |more| == |data|
    ensures Splice(Splice(b, at, data), at, more) == Splice(b, at, more)
  {
  }

  lemma SpliceCommutes(b: seq<Byte>, at: nat, data: seq<Byte>, other: nat, more: seq<Byte>)
    requires at + |data| <= other && other + |more| <= |b|
    ensures Splice(Splice(b, at, data), other, more) == Splice(Splice(b, other, more), at, data)
  {
  }
}

/**
 * The info block that makes the kernel of a guest use DAX: struct nd_pfn_sb with its checksum.
 */
module InfoBlocks {
  import opened Bytes
  import opened Fletcher

  const BLOCK: nat := 4096
  const VERSION_MINOR_AT: nat := 54
  const DATAOFF_AT: nat := 56
  const MODE_AT: nat := 72
  const ALIGN_AT: nat := 84
  const CHECKSUM_AT: nat := 4088

  const PFN_MODE_RAM: nat := 1

  /** "NVDIMM_PFN_INFO" and the terminating zero. */
  function Signature(): (s: seq<Byte>)
    ensures |s| == 16
  {
    [0x4e, 0x56, 0x44, 0x49, 0x4d, 0x4d, 0x5f, 0x50, 0x46, 0x4e, 0x5f, 0x49, 0x4e, 0x46, 0x4f, 0]
  }

  function WordAt(b: seq<Byte>, i: nat): Word
    requires 4 * i + 4 <= |b|
  {
    ReadBound(b[4 * i..4 * i + 4]);
    PowersOf256();
    Read(b[4 * i..4 * i + 4])
  }

  /** A buffer as little-endian words of four bytes. */
  function Words(b: seq<Byte>): (w: seq<Word>)
    ensures |w| == |b| / 4 && forall i :: 0 <= i < |w| ==> w[i] == WordAt(b, i)
  {
    seq(|b| / 4, i requires 0 <= i < |b| / 4 => WordAt(b, i))
  }

  /** The checksum of a block with its checksum field taken as zero. */
  function SbChecksum(b: seq<Byte>): nat
    requires |b| == BLOCK
  {
    Checksum(Words(Splice(b, CHECKSUM_AT, Zeros(8))))
  }

  /** What the kernel tests before it accepts a block. */
  predicate Verifies(b: seq<Byte>)
    requires |b| == BLOCK
  {
    Read(b[CHECKSUM_AT..]) == SbChecksum(b)
  }

  /** Overwrites part of a buffer in place. */
  method Put(a: array<Byte>, at: nat, data: seq<Byte>)
    requires at + |data| <= a.Length
    modifies a
    ensures a[..] == Splice(old(a[..]), at, data)
  {
    for i := 0 to |data|
      invariant forall j :: 0 <= j < a.Length ==> a[j] == if at <= j < at + i then data[j - at] else old(a[j])
    {
      a[at + i] := data[i];
    }
    SameAsSplice(old(a[..]), a[..], at, data);
  }

  lemma SameAsSplice(b: seq<Byte>, c: seq<Byte>, at: nat, data: seq<Byte>)
    requires at + |data| <= |b| == |c|
    requires forall j :: 0 <= j < |b| ==> c[j] == if at <= j < at + |data| then data[j - at] else b[j]
    ensures c == Splice(b, at, data)
  {
  }

  /** nd_sb_checksum: clears the field, computes the sum, and puts the field back. */
  method NdSbChecksum(a: array<Byte>) returns (sum: nat)
    requires a.Length == BLOCK
    modifies a
    ensures a[..] == old(a[..]) && sum == SbChecksum(a[..]) < M2
  {
    var save := a[CHECKSUM_AT..];
    Put(a, CHECKSUM_AT, Zeros(8));
    sum := Fletcher64(Words(a[..]));
    Put(a, CHECKSUM_AT, save);
    SpliceTwice(old(a[..]), CHECKSUM_AT, Zeros(8), save);
    assert Splice(old(a[..]), CHECKSUM_AT, save) == old(a[..]);
  }

  /** The block without its checksum; the arguments are truncated to 32 bits on their way into C. */
  function Fields(dataOffset: nat, alignment: nat): (b: seq<Byte>)
    ensures |b| == BLOCK
  {
    var b0 := Splice(Zeros(BLOCK), 0, Signature());
    var b1 := Splice(b0, MODE_AT, Le(PFN_MODE_RAM, 4));
    var b2 := Splice(b1, ALIGN_AT, Le(alignment % M, 4));
    var b3 := Splice(b2, DATAOFF_AT, Le(dataOffset % M, 8));
    Splice(b3, VERSION_MINOR_AT, Le(2, 2))
  }

  function InfoBlock(dataOffset: nat, alignment: nat): (b: seq<Byte>)
    ensures |b| == BLOCK
  {
    Splice(Fields(dataOffset, alignment), CHECKSUM_AT, Le(SbChecksum(Fields(dataOffset, alignment)), 8))
  }

  /** nsdax: fills the buffer field by field and stores the checksum last. */
  method Nsdax(a: array<Byte>, dataOffset: nat, alignment: nat)
    requires a.Length == BLOCK
    modifies a
    ensures a[..] == InfoBlock(dataOffset, alignment)
  {
    Put(a, 0, Zeros(BLOCK));
    assert a[..] == Zeros(BLOCK);
    Put(a, 0, Signature());
    Put(a, MODE_AT, Le(PFN_MODE_RAM, 4));
    Put(a, ALIGN_AT, Le(alignment % M, 4));
    Put(a, DATAOFF_AT, Le(dataOffset % M, 8));
    Put(a, VERSION_MINOR_AT, Le(2, 2));
    var sum := NdSbChecksum(a);
    Put(a, CHECKSUM_AT, Le(sum, 8));
  }

  /** Overwriting the checksum field does not change the checksum. */
  lemma ChecksumIgnoresItsField(b: seq<Byte>, field: seq<Byte>)
    requires |b| == BLOCK && |field| == 8
    ensures SbChecksum(Splice(b, CHECKSUM_AT, field)) == SbChecksum(b)
    ensures Splice(b, CHECKSUM_AT, field)[CHECKSUM_AT..] == field
  {
    SpliceTwice(b, CHECKSUM_AT, field, Zeros(8));
  }

  /** The block that nsdax builds passes the test of the kernel. */
  lemma NsdaxVerifies(dataOffset: nat, alignment: nat)
    ensures Verifies(InfoBlock(dataOffset, alignment))
  {
    var b := Fields(dataOffset, alignment);
    var sum := SbChecksum(b);
    PowersOf256();
    ReadLe(sum, 8);
    ChecksumIgnoresItsField(b, Le(sum, 8));
  }

  lemma FieldsReadBack(dataOffset: nat, alignment: nat)
    ensures var b := Fields(dataOffset, alignment);
            && b[0..16] == Signature()
            && b[VERSION_MINOR_AT..VERSION_MINOR_AT + 2] == Le(2, 2)
            && b[DATAOFF_AT..DATAOFF_AT + 8] == Le(dataOffset % M, 8)
            && b[MODE_AT..MODE_AT + 4] == Le(PFN_MODE_RAM, 4)
            && b[ALIGN_AT..ALIGN_AT + 4] == Le(alignment % M, 4)
  {
    var (version, offset, align, mode) := (Le(2, 2), Le(dataOffset % M, 8), Le(alignment % M, 4), Le(PFN_MODE_RAM, 4));
    var b0 := Splice(Zeros(BLOCK), 0, Signature());
    var b1 := Splice(b0, MODE_AT, mode);
    var b2 := Splice(b1, ALIGN_AT, align);
    var b3 := Splice(b2, DATAOFF_AT, offset);
    SpliceHit(Zeros(BLOCK), 0, Signature());
    SpliceMiss(b0, MODE_AT, mode, 0, 16);
    SpliceMiss(b1, ALIGN_AT, align, 0, 16);
    SpliceMiss(b2, DATAOFF_AT, offset, 0, 16);
    SpliceMiss(b3, VERSION_MINOR_AT, version, 0, 16);
    SpliceHit(b0, MODE_AT, mode);
    SpliceMiss(b1, ALIGN_AT, align, MODE_AT, MODE_AT + 4);
    SpliceMiss(b2, DATAOFF_AT, offset, MODE_AT, MODE_AT + 4);
    SpliceMiss(b3, VERSION_MINOR_AT, version, MODE_AT, MODE_AT + 4);
    SpliceHit(b1, ALIGN_AT, align);
    SpliceMiss(b2, DATAOFF_AT, offset, ALIGN_AT, ALIGN_AT + 4);
    SpliceMiss(b3, VERSION_MINOR_AT, version, ALIGN_AT, ALIGN_AT + 4);
    SpliceHit(b2, DATAOFF_AT, offset);
    SpliceMiss(b3, VERSION_MINOR_AT, version, DATAOFF_AT, DATAOFF_AT + 8);
    SpliceHit(b3, VERSION_MINOR_AT, version);
  }

  /**
   * The widths of the fields of struct nd_pfn_sb in their order: signature, uuid, parent_uuid, flags, version_major,
   * version_minor, dataoff, npfns, mode, start_pad, end_trunc, align, padding and checksum. There are no gaps.
   */
  const WIDTHS: seq<nat> := [16, 16, 16, 4, 2, 2, 8, 8, 4, 4, 4, 4, 4000, 8]

  function OffsetOf(field: nat): nat
    requires field <= |WIDTHS|
  {
    if field == 0 then 0 else OffsetOf(field - 1) + WIDTHS[field - 1]
  }

  lemma Offsets()
    ensures OffsetOf(1) == 16 && OffsetOf(2) == 32 && OffsetOf(3) == 48 && OffsetOf(4) == 52
    ensures OffsetOf(5) == VERSION_MINOR_AT && OffsetOf(6) == DATAOFF_AT && OffsetOf(7) == 64
    ensures OffsetOf(8) == MODE_AT && OffsetOf(9) == 76 && OffsetOf(10) == 80 && OffsetOf(11) == ALIGN_AT
    ensures OffsetOf(12) == 88 && OffsetOf(13) == CHECKSUM_AT && OffsetOf(14) == BLOCK
  {
    assert OffsetOf(3) == OffsetOf(2) + 16 && OffsetOf(6) == OffsetOf(5) + 2 && OffsetOf(9) == OffsetOf(8) + 4;
    assert OffsetOf(12) == OffsetOf(11) + 4;
  }

  /** The bytes of one field. */
  function Part(b: seq<Byte>, field: nat): seq<Byte>
    requires |b| == BLOCK && field < |WIDTHS|
  {
    Ascending(field, |WIDTHS|);
    Offsets();
    b[OffsetOf(field)..OffsetOf(field + 1)]
  }

  lemma {:induction false} Ascending(i: nat, j: nat)
    requires i <= j <= |WIDTHS|
    ensures OffsetOf(i) <= OffsetOf(j) && (i < j ==> OffsetOf(i + 1) <= OffsetOf(j))
  {
    if i < j { Ascending(i, j - 1); }
  }

  /** A position outside of the fields that are set. */
  predicate Unset(p: nat)
  {
    && 16 <= p < CHECKSUM_AT && !(VERSION_MINOR_AT <= p < VERSION_MINOR_AT + 2)
    && !(DATAOFF_AT <= p < DATAOFF_AT + 8) && !(MODE_AT <= p < MODE_AT + 4) && !(ALIGN_AT <= p < ALIGN_AT + 4)
  }

  lemma UnsetIsZero(dataOffset: nat, alignment: nat, p: nat)
    requires Unset(p)
    ensures InfoBlock(dataOffset, alignment)[p] == 0
  {
    var b0 := Splice(Zeros(BLOCK), 0, Signature());
    var b1 := Splice(b0, MODE_AT, Le(PFN_MODE_RAM, 4));
    var b2 := Splice(b1, ALIGN_AT, Le(alignment % M, 4));
    var b3 := Splice(b2, DATAOFF_AT, Le(dataOffset % M, 8));
    SpliceAt(Zeros(BLOCK), 0, Signature(), p);
    SpliceAt(b0, MODE_AT, Le(PFN_MODE_RAM, 4), p);
    SpliceAt(b1, ALIGN_AT, Le(alignment % M, 4), p);
    SpliceAt(b2, DATAOFF_AT, Le(dataOffset % M, 8), p);
    SpliceAt(b3, VERSION_MINOR_AT, Le(2, 2), p);
    var f := Fields(dataOffset, alignment);
    SpliceAt(f, CHECKSUM_AT, Le(SbChecksum(f), 8), p);
  }

  const SIGNATURE_TEXT := "NVDIMM_PFN_INFO"

  lemma SignatureIsText()
    ensures |SIGNATURE_TEXT| == 15 && Signature()[15] == 0
    ensures forall i :: 0 <= i < 15 ==> Signature()[i] == SIGNATURE_TEXT[i] as int
  {
  }

  lemma SetFieldsReadBack(dataOffset: nat, alignment: nat)
    ensures var b := InfoBlock(dataOffset, alignment);
            && b[0..16] == Signature()
            && Read(b[VERSION_MINOR_AT..VERSION_MINOR_AT + 2]) == 2
            && Read(b[DATAOFF_AT..DATAOFF_AT + 8]) == dataOffset % M
            && Read(b[MODE_AT..MODE_AT + 4]) == PFN_MODE_RAM
            && Read(b[ALIGN_AT..ALIGN_AT + 4]) == alignment % M
  {
    var f := Fields(dataOffset, alignment);
    var sum := Le(SbChecksum(f), 8);
    FieldsReadBack(dataOffset, alignment);
    SpliceMiss(f, CHECKSUM_AT, sum, 0, 16);
    SpliceMiss(f, CHECKSUM_AT, sum, VERSION_MINOR_AT, VERSION_MINOR_AT + 2);
    SpliceMiss(f, CHECKSUM_AT, sum, DATAOFF_AT, DATAOFF_AT + 8);
    SpliceMiss(f, CHECKSUM_AT, sum, MODE_AT, MODE_AT + 4);
    SpliceMiss(f, CHECKSUM_AT, sum, ALIGN_AT, ALIGN_AT + 4);
    PowersOf256();
    ReadLe(2, 2);
    ReadLe(dataOffset % M, 8);
    ReadLe(PFN_MODE_RAM, 4);
    ReadLe(alignment % M, 4);
  }

  /** The fields that nsdax leaves alone. */
  predicate IsBlankField(field: nat)
  {
    field in {1, 2, 3, 4, 7, 9, 10, 12}
  }

  lemma BlankFieldIsUnset(field: nat, p: nat)
    requires IsBlankField(field) && OffsetOf(field) <= p < OffsetOf(field + 1)
    ensures Unset(p)
  {
    Offsets();
  }

  /**
   * The fields can be read where struct nd_pfn_sb has them: no field overwrites another one, and those that are not
   * set are zero.
   */
  lemma InfoBlockLayout(dataOffset: nat, alignment: nat)
    ensures var b := InfoBlock(dataOffset, alignment);
            && (forall i :: 0 <= i < 15 ==> b[i] == SIGNATURE_TEXT[i] as int) && b[15] == 0
            && Read(Part(b, 5)) == 2 && Read(Part(b, 6)) == dataOffset % M
            && Read(Part(b, 8)) == 1 && Read(Part(b, 11)) == alignment % M
            && forall field, i :: IsBlankField(field) && 0 <= i < |Part(b, field)| ==> Part(b, field)[i] == 0
  {
    var b := InfoBlock(dataOffset, alignment);
    Offsets();
    SetFieldsReadBack(dataOffset, alignment);
    SignatureIsText();
    forall i | 0 <= i < 16 ensures b[i] == Signature()[i] { assert b[i] == b[0..16][i]; }
    forall field, i | IsBlankField(field) && 0 <= i < |Part(b, field)| ensures Part(b, field)[i] == 0 {
      BlankFieldIsUnset(field, OffsetOf(field) + i);
      UnsetIsZero(dataOffset, alignment, OffsetOf(field) + i);
    }
  }

  lemma WordAtOfSplice(b: seq<Byte>, i: nat, data: seq<Byte>, k: nat)
    requires |data| == 4 && 4 * i + 4 <= |b| && 4 * k + 4 <= |b|
    ensures WordAt(Splice(b, 4 * i, data), k) == if k == i then Read(data) else WordAt(b, k)
  {
    if k == i {
      SpliceHit(b, 4 * i, data);
    } else {
      SpliceMiss(b, 4 * i, data, 4 * k, 4 * k + 4);
    }
  }

  /** Overwriting one aligned group of four bytes replaces one word. */
  lemma WordsOfSplice(b: seq<Byte>, i: nat, data: seq<Byte>)
    requires |data| == 4 && 4 * i + 4 <= |b|
    ensures Read(data) < M && Words(Splice(b, 4 * i, data)) == Words(b)[i := Read(data)]
  {
    WordAtOfSplice(b, i, data, i);
    var x: Word := WordAt(Splice(b, 4 * i, data), i);
    var v := Words(Splice(b, 4 * i, data));
    var w := Words(b)[i := x];
    forall k | 0 <= k < |w| ensures v[k] == w[k] {
      WordAtOfSplice(b, i, data, k);
    }
    assert v == w;
  }

  lemma DamagedChecksum(b: seq<Byte>, i: nat, data: seq<Byte>)
    requires |b| == BLOCK && |data| == 4 && 4 * i < CHECKSUM_AT && data != b[4 * i..4 * i + 4]
    ensures SbChecksum(Splice(b, 4 * i, data)) != SbChecksum(b)
  {
    var z := Splice(b, CHECKSUM_AT, Zeros(8));
    SpliceCommutes(b, 4 * i, data, CHECKSUM_AT, Zeros(8));
    SpliceMiss(b, CHECKSUM_AT, Zeros(8), 4 * i, 4 * i + 4);
    WordsOfSplice(z, i, data);
    if Read(data) == WordAt(z, i) { ReadInjective(data, z[4 * i..4 * i + 4]); }
    var x: Word := Read(data);
    SingleWordChangeIsDetected(Words(z), i, x);
  }

  /** In a block that passes the test, changing any one word, including half of the checksum, makes it fail. */
  lemma DamagedWordIsDetected(b: seq<Byte>, i: nat, data: seq<Byte>)
    requires |b| == BLOCK && Verifies(b)
    requires |data| == 4 && 4 * i + 4 <= BLOCK && data != b[4 * i..4 * i + 4]
    ensures !Verifies(Splice(b, 4 * i, data))
  {
    var c := Splice(b, 4 * i, data);
    if 4 * i < CHECKSUM_AT {
      SpliceMiss(b, 4 * i, data, CHECKSUM_AT, BLOCK);
      assert c[CHECKSUM_AT..] == c[CHECKSUM_AT..BLOCK] == b[CHECKSUM_AT..];
      DamagedChecksum(b, i, data);
    } else {
      SpliceMiss(b, 4 * i, data, 0, CHECKSUM_AT);
      SpliceHit(b, 4 * i, data);
      OnlyTheFieldChanged(b, c);
    }
  }

  lemma OnlyTheFieldChanged(b: seq<Byte>, c: seq<Byte>)
    requires |b| == |c| == BLOCK && b[..CHECKSUM_AT] == c[..CHECKSUM_AT] && b != c && Verifies(b)
    ensures !Verifies(c)
  {
    assert b == b[..CHECKSUM_AT] + b[CHECKSUM_AT..] && c == c[..CHECKSUM_AT] + c[CHECKSUM_AT..];
    assert c == Splice(b, CHECKSUM_AT, c[CHECKSUM_AT..]);
    ChecksumIgnoresItsField(b, c[CHECKSUM_AT..]);
    if Verifies(c) { ReadInjective(b[CHECKSUM_AT..], c[CHECKSUM_AT..]); }
  }
}

