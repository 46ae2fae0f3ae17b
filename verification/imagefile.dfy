/**
 * Building an image file: the search for the largest file, the sparse copy and the final layout.
 */
module ImageFiles {
  import opened Outcomes
  import opened Bytes
  import opened Extents
  import InfoBlocks

  const DAX_ALIGNMENT: nat := 0x20_0000
  const DAX_HEADER_OFFSET: nat := 4096
  const HEADER_SIZE: nat := DAX_ALIGNMENT
  const IO_CHUNK_SIZE: nat := 256 * 1024 * 1024

  function RoundedUp(size: nat): (r: nat)
    ensures r % 0x20_0000 == 0 && size <= r < size + 0x20_0000
  {
    (size + 0x1f_ffff) / 0x20_0000 * 0x20_0000
  }

  // ---------------------------------------------------------------------------------------------
  // The search for the largest file

  /** What happens when a file is resized and its space allocated; only a lack of space makes the search go on. */
  datatype Attempt = Fits | NoSpace | Broken

  function NextOverhead(overhead: nat): nat
  {
    if overhead < 64 then overhead * 2 else overhead + 64
  }

  function Rest(bfree: nat, bsize: nat, overhead: nat): nat
    requires overhead < bfree
  {
    (bfree - overhead) * bsize
  }

  /** The file size that leaves a number of blocks unused. */
  function SizeFor(bfree: nat, bsize: nat, overhead: nat): nat
  {
    if overhead >= bfree then 0 else RoundedUp(Rest(bfree, bsize, overhead))
  }

  /** The overhead at which the search stops. */
  function Search(bfree: nat, bsize: nat, attempt: nat -> Attempt, overhead: nat): Option<nat>
    requires overhead > 0
    decreases bfree - overhead
  {
    if overhead >= bfree then None else
      var size := SizeFor(bfree, bsize, overhead);
      if size == 0 || attempt(size) == Broken then None
      else if attempt(size) == Fits then Some(overhead)
      else Search(bfree, bsize, attempt, NextOverhead(overhead))
  }

  /** allocateFile with size 0. */
  method LargestFile(bfree: nat, bsize: nat, attempt: nat -> Attempt) returns (r: Option<nat>)
    ensures match Search(bfree, bsize, attempt, 1)
            case None => r == None
            case Some(overhead) => r == Some(SizeFor(bfree, bsize, overhead))
  {
    var blockOverhead := 1;
    while blockOverhead < bfree
      invariant blockOverhead > 0
      invariant Search(bfree, bsize, attempt, 1) == Search(bfree, bsize, attempt, blockOverhead)
      decreases bfree - blockOverhead
    {
      var size := Rest(bfree, bsize, blockOverhead);
      size := RoundedUp(size);
      if size == 0 { break; }
      var outcome := attempt(size);
      if outcome == Fits { return Some(size); }
      if outcome == Broken { return None; }
      if blockOverhead < 64 {
        blockOverhead := blockOverhead * 2;
      } else {
        blockOverhead := blockOverhead + 64;
      }
    }
    return None;
  }

  /** Whatever the search finds fits, and is a positive multiple of 2 MiB. */
  lemma {:induction false} FoundSizeFits(bfree: nat, bsize: nat, attempt: nat -> Attempt, from: nat)
    requires from > 0
    ensures match Search(bfree, bsize, attempt, from)
            case None => true
            case Some(o) =>
              && 0 < o < bfree && attempt(SizeFor(bfree, bsize, o)) == Fits
              && SizeFor(bfree, bsize, o) >= HEADER_SIZE && SizeFor(bfree, bsize, o) % 0x20_0000 == 0
    decreases bfree - from
  {
    if from < bfree { FoundSizeFits(bfree, bsize, attempt, NextOverhead(from)); }
  }

  /** The overheads that are tried, beginning with this one. */
  function Tried(from: nat, n: nat): nat
    decreases n
  {
    if n == 0 then from else Tried(NextOverhead(from), n - 1)
  }

  /** The sizes for the first n overheads do not fit for want of space. */
  ghost predicate NoneFits(bfree: nat, bsize: nat, attempt: nat -> Attempt, from: nat, n: nat)
  {
    forall m :: 0 <= m < n ==> Tried(from, m) < bfree && attempt(SizeFor(bfree, bsize, Tried(from, m))) == NoSpace
  }

  /** The search ends at the first overhead that is not just a matter of space, and succeeds if its size fits. */
  lemma {:induction false} SearchEndsAtFirst(bfree: nat, bsize: nat, attempt: nat -> Attempt, from: nat)
    returns (n: nat)
    requires from > 0
    ensures bsize == 0 ==> Search(bfree, bsize, attempt, from) == None
    ensures NoneFits(bfree, bsize, attempt, from, n)
    ensures bsize > 0 ==>
            var o := Tried(from, n);
            if o < bfree && attempt(SizeFor(bfree, bsize, o)) == Fits
            then Search(bfree, bsize, attempt, from) == Some(o)
            else Search(bfree, bsize, attempt, from) == None
                 && (o >= bfree || attempt(SizeFor(bfree, bsize, o)) == Broken)
    decreases bfree - from
  {
    n := 0;
    if from < bfree {
      RestPositive(bfree, bsize, from);
      if bsize > 0 && attempt(SizeFor(bfree, bsize, from)) == NoSpace {
        var k := SearchEndsAtFirst(bfree, bsize, attempt, NextOverhead(from));
        n := k + 1;
        forall m | 0 <= m < n
          ensures Tried(from, m) < bfree && attempt(SizeFor(bfree, bsize, Tried(from, m))) == NoSpace
        {
          if m > 0 { assert Tried(from, m) == Tried(NextOverhead(from), m - 1); }
        }
      }
    }
  }

  ghost predicate Feasible(bfree: nat, bsize: nat, attempt: nat -> Attempt, overhead: nat)
  {
    0 < overhead < bfree && SizeFor(bfree, bsize, overhead) > 0 && attempt(SizeFor(bfree, bsize, overhead)) == Fits
  }

  /** A smaller file fits wherever a larger one does, and nothing but space is ever missing. */
  ghost predicate DownwardClosed(attempt: nat -> Attempt)
  {
    && (forall n :: attempt(n) != Broken)
    && forall m, n :: m <= n && attempt(n) == Fits ==> attempt(m) == Fits
  }

  lemma RestShrinks(bfree: nat, bsize: nat, o: nat, p: nat)
    requires o <= p < bfree
    ensures Rest(bfree, bsize, p) <= Rest(bfree, bsize, o)
  {
  }

  lemma RoundedUpMonotone(m: nat, n: nat)
    requires m <= n
    ensures RoundedUp(m) <= RoundedUp(n)
  {
  }

  lemma SizeForShrinks(bfree: nat, bsize: nat, o: nat, p: nat)
    requires o <= p < bfree
    ensures SizeFor(bfree, bsize, p) <= SizeFor(bfree, bsize, o)
  {
    RestShrinks(bfree, bsize, o, p);
    RoundedUpMonotone(Rest(bfree, bsize, p), Rest(bfree, bsize, o));
  }

  lemma RestPositive(bfree: nat, bsize: nat, o: nat)
    requires o < bfree
    ensures Rest(bfree, bsize, o) > 0 <==> bsize > 0
  {
    var n := bfree - o;
    if bsize > 0 { assert n * bsize == bsize + (n - 1) * bsize; }
  }

  lemma {:induction false} SearchFrom(bfree: nat, bsize: nat, attempt: nat -> Attempt, from: nat, best: nat)
    requires DownwardClosed(attempt) && Feasible(bfree, bsize, attempt, best) && 0 < from < best + 64
    ensures match Search(bfree, bsize, attempt, from)
            case Some(o) => o < best + 64
            case None => bfree < best + 64
    decreases bfree - from
  {
    if from < bfree {
      if best <= from {
        SizeForShrinks(bfree, bsize, best, from);
        RestPositive(bfree, bsize, best);
        RestPositive(bfree, bsize, from);
      } else {
        SizeForShrinks(bfree, bsize, from, best);
        if attempt(SizeFor(bfree, bsize, from)) != Fits {
          SearchFrom(bfree, bsize, attempt, NextOverhead(from), best);
        }
      }
    }
  }

  /**
   * When smaller files always fit if larger ones do, the overhead found is less than 64 blocks above any feasible
   * one, and nothing is found only if every feasible overhead is within 64 blocks of the free space.
   */
  lemma SearchIsNearlyOptimal(bfree: nat, bsize: nat, attempt: nat -> Attempt, best: nat)
    requires DownwardClosed(attempt) && Feasible(bfree, bsize, attempt, best)
    ensures match Search(bfree, bsize, attempt, 1)
            case Some(o) => o < best + 64
            case None => bfree < best + 64
  {
    SearchFrom(bfree, bsize, attempt, 1, best);
  }

  // ---------------------------------------------------------------------------------------------
  // The sparse copy

  /** A file that is read beyond its end has zeros there. */
  function At(b: seq<Byte>, p: nat): Byte
  {
    if p < |b| then b[p] else 0
  }

  /** Writing at an offset changes only that range; a gap behind the old end becomes zero. */
  ghost predicate Written(before: seq<Byte>, after: seq<Byte>, at: nat, data: seq<Byte>)
  {
    && |after| == (if data != [] && at + |data| > |before| then at + |data| else |before|)
    && forall p: nat :: At(after, p) == if at <= p < at + |data| then data[p - at] else At(before, p)
  }

  class File {
    var data: seq<Byte>

    constructor (size: nat)
      ensures data == Zeros(size)
    {
      data := Zeros(size);
    }

    method Truncate(size: nat)
      modifies this
      ensures |data| == size && forall p: nat :: p < size ==> At(data, p) == At(old(data), p)
    {
      data := if size < |data| then data[..size] else data + Zeros(size - |data|);
    }

    method Write(at: nat, bytes: seq<Byte>)
      modifies this
      ensures Written(old(data), data, at, bytes)
    {
      if bytes == [] { return; }
      if at + |bytes| > |data| { Truncate(at + |bytes|); }
      ghost var padded := data;
      forall p: nat
        ensures At(Splice(padded, at, bytes), p) == if at <= p < at + |bytes| then bytes[p - at] else At(padded, p)
      {
        if p < |padded| { SpliceAt(padded, at, bytes, p); }
      }
      data := Splice(data, at, bytes);
    }
  }

  /** The bytes of a range, none for a negative size. */
  function Range(src: seq<Byte>, skip: nat, size: int): (r: seq<Byte>)
    requires size <= 0 || skip + size <= |src|
    ensures |r| == (if size <= 0 then 0 else size) && forall i :: 0 <= i < |r| ==> r[i] == src[skip + i]
  {
    if size <= 0 then [] else src[skip..skip + size]
  }

  lemma ChunkWritten(a: seq<Byte>, b: seq<Byte>, c: seq<Byte>, seek: nat, src: seq<Byte>, skip: nat, done: nat,
        current: nat)
    requires skip + done + current <= |src|
    requires Written(a, b, seek, Range(src, skip, done)) && Written(b, c, seek + done, Range(src, skip + done, current))
    ensures Written(a, c, seek, Range(src, skip, done + current))
  {
  }

  /** copyRange: copies chunk by chunk. A range beyond the end of the source is an error, a negative size is none. */
  method CopyRange(src: seq<Byte>, to: File, skip: nat, seek: nat, size: int) returns (ok: bool)
    modifies to
    ensures ok <==> size <= 0 || skip + size <= |src|
    ensures ok ==> Written(old(to.data), to.data, seek, Range(src, skip, size))
  {
    var remaining := size;
    var done := 0;
    while remaining > 0
      invariant done >= 0 && done + remaining == size && (remaining >= 0 || done == 0)
      invariant done == 0 || skip + done <= |src|
      invariant Written(old(to.data), to.data, seek, Range(src, skip, done))
      decreases remaining
    {
      var current := if remaining > IO_CHUNK_SIZE then IO_CHUNK_SIZE else remaining;
      if skip + done + current > |src| { return false; }
      ghost var before := to.data;
      to.Write(seek + done, Range(src, skip + done, current));
      ChunkWritten(old(to.data), before, to.data, seek, src, skip, done, current);
      done := done + current;
      remaining := remaining - current;
    }
    return true;
  }

  /** Every byte comes from the source where an extent covers it and is untouched elsewhere. */
  ghost predicate Copied(src: seq<Byte>, before: seq<Byte>, after: seq<Byte>, extents: seq<Extent>, seek: nat)
  {
    && |before| <= |after| && (|after| == |before| || |after| <= seek + |src|)
    && forall p: nat ::
         At(after, p) == if seek <= p < seek + |src| && Covered(extents, p - seek) then src[p - seek] else At(before, p)
  }

  lemma CoveredByOneMore(extents: seq<Extent>, e: Extent, i: nat)
    ensures Covered(extents + [e], i) <==> Covered(extents, i) || In(e, i)
  {
    var more := extents + [e];
    if Covered(extents, i) {
      var k :| 0 <= k < |extents| && In(extents[k], i);
      assert In(more[k], i);
    }
    if In(e, i) { assert In(more[|extents|], i); }
  }

  lemma CopiedOneMore(src: seq<Byte>, a: seq<Byte>, b: seq<Byte>, c: seq<Byte>, extents: seq<Extent>, e: Extent,
        seek: nat, length: int)
    requires Copied(src, a, b, extents, seek)
    requires length == if End(e) <= |src| then e.length else |src| - e.logical
    requires Written(b, c, seek + e.logical, Range(src, e.logical, length))
    ensures Copied(src, a, c, extents + [e], seek)
  {
    forall p: nat
      ensures At(c, p) == if seek <= p < seek + |src| && Covered(extents + [e],
              p - seek) then src[p - seek] else At(a, p)
    {
      assert At(b, p) == if seek <= p < seek + |src| && Covered(extents, p - seek) then src[p - seek] else At(a, p);
      if seek <= p { CoveredByOneMore(extents, e, p - seek); }
    }
  }

  /** dd: never fails because of extents that stretch beyond the end of the file or start there. */
  method Dd(src: seq<Byte>, to: File, extents: seq<Extent>, seek: nat) returns (ok: bool)
    modifies to
    ensures ok && Copied(src, old(to.data), to.data, extents, seek)
  {
    for i := 0 to |extents|
      invariant Copied(src, old(to.data), to.data, extents[..i], seek)
    {
      ghost var before := to.data;
      var length := extents[i].length;
      var remaining := |src| - extents[i].logical;
      if length > remaining { length := remaining; }
      ok := CopyRange(src, to, extents[i].logical, seek + extents[i].logical, length);
      if !ok { return false; }
      CopiedOneMore(src, old(to.data), before, to.data, extents[..i], extents[i], seek, length);
      assert extents[..i + 1] == extents[..i] + [extents[i]];
    }
    assert extents[..|extents|] == extents;
    return true;
  }

  /**
   * The sparse copy leaves the same bytes as the full copy if and only if the target already holds
   * what the extents leave out.
   */
  lemma SparseIsFullIff(src: seq<Byte>, target: seq<Byte>, extents: seq<Extent>, seek: nat, sparse: seq<Byte>,
        full: seq<Byte>)
    requires Copied(src, target, sparse, extents, seek) && Written(target, full, seek, src)
    ensures (forall p: nat :: At(sparse, p) == At(full, p))
            <==> forall i: nat :: i < |src| && !Covered(extents, i) ==> src[i] == At(target, seek + i)
  {
  }

  /** The extents leave out nothing but zeros. */
  ghost predicate Cover(src: seq<Byte>, extents: seq<Extent>)
  {
    forall i :: 0 <= i < |src| && src[i] != 0 ==> Covered(extents, i)
  }

  /** With a zeroed target range that is long enough the sparse copy is the full copy. */
  lemma SparseRefinesFull(src: seq<Byte>, target: seq<Byte>, extents: seq<Extent>, seek: nat, sparse: seq<Byte>)
    requires Copied(src, target, sparse, extents, seek) && Cover(src, extents) && seek + |src| <= |target|
    requires forall p: nat :: seek <= p < seek + |src| ==> At(target, p) == 0
    ensures Written(target, sparse, seek, src)
  {
  }

  /** Without sparse mode, dd uses a single extent for the whole file. */
  lemma OneExtentIsFull(src: seq<Byte>, target: seq<Byte>, seek: nat, after: seq<Byte>)
    requires Copied(src, target, after, [Extent(0, 0, |src|)], seek) && seek + |src| <= |target|
    ensures Written(target, after, seek, src)
  {
    var e := Extent(0, 0, |src|);
    forall p: nat ensures At(after, p) == if seek <= p < seek + |src| then src[p - seek] else At(target, p) {
      if seek <= p < seek + |src| { assert In([e][0], p - seek); }
    }
  }

  /** The extents found by seeking for data leave out nothing but zeros, if all other bytes count as data. */
  lemma DataExtentsCover(src: seq<Byte>, data: seq<bool>, extents: seq<Extent>)
    requires |data| == |src| && (forall i :: 0 <= i < |src| && src[i] != 0 ==> data[i])
    requires CoverData(extents, data, |data|)
    ensures Cover(src, extents)
  {
  }

  // ---------------------------------------------------------------------------------------------
  // The layout

  function Info(): (b: seq<Byte>)
    ensures |b| == 4096
  {
    InfoBlocks.InfoBlock(HEADER_SIZE, DAX_ALIGNMENT)
  }

  /** The info block tells the kernel where the filesystem begins and how it is aligned: at 2 MiB, for both. */
  lemma InfoPointsAtFilesystem()
    ensures Read(InfoBlocks.Part(Info(), 6)) == 0x20_0000 && Read(InfoBlocks.Part(Info(), 11)) == 0x20_0000
    ensures InfoBlocks.Verifies(Info())
  {
    InfoBlocks.InfoBlockLayout(HEADER_SIZE, DAX_ALIGNMENT);
    InfoBlocks.NsdaxVerifies(HEADER_SIZE, DAX_ALIGNMENT);
  }

  /** What belongs at a position: boot record, info block, filesystem, zeros everywhere else. */
  function Expected(size: nat, mbr: seq<Byte>, fs: seq<Byte>, p: nat): Byte
  {
    if p < 512 then At(mbr, p)
    else if 0x1000 <= p < 0x2000 then Info()[p - 0x1000]
    else if 0x20_0000 <= p < size then At(fs, p - 0x20_0000)
    else 0
  }

  /** The boot record fits into one sector, and the extents of both files leave out nothing but zeros. */
  ghost predicate Inputs(mbr: seq<Byte>, fs: seq<Byte>, extents: seq<Byte> -> seq<Extent>)
  {
    Cover(mbr, extents(mbr)) && Cover(fs, extents(fs)) && forall i :: 512 <= i < |mbr| ==> mbr[i] == 0
  }

  /** Writing the boot record, the info block and the filesystem in this order puts each in its place. */
  lemma LayersInPlace(size: nat, mbr: seq<Byte>, fs: seq<Byte>, a: seq<Byte>, b: seq<Byte>, c: seq<Byte>,
        d: seq<Byte>, extents: seq<Byte> -> seq<Extent>)
    requires HEADER_SIZE <= size && |mbr| == size && |fs| == size - HEADER_SIZE && Inputs(mbr, fs, extents)
    requires a == Zeros(size) && Copied(mbr, a, b, extents(mbr), 0)
    requires Written(b, c, DAX_HEADER_OFFSET, Info()) && Copied(fs, c, d, extents(fs), HEADER_SIZE)
    ensures |d| == size && forall p: nat :: At(d, p) == Expected(size, mbr, fs, p)
  {
    SparseRefinesFull(mbr, a, extents(mbr), 0, b);
    forall p: nat | HEADER_SIZE <= p < size ensures At(c, p) == 0 {
      assert At(b, p) == mbr[p];
    }
    SparseRefinesFull(fs, c, extents(fs), HEADER_SIZE, d);
    forall p: nat ensures At(d, p) == Expected(size, mbr, fs, p) {
      assert At(d, p) == if HEADER_SIZE <= p < size then fs[p - HEADER_SIZE] else At(c, p);
      assert At(b, p) == At(mbr, p);
    }
  }

  /**
   * The part of Create that fills the image file: the boot record ends up at its start, the info block at 4 KiB and
   * the whole filesystem at 2 MiB. Nothing overwrites anything else and the rest, including the padding, is zero.
   */
  method Fill(file: File, mbr: seq<Byte>, fs: seq<Byte>, extents: seq<Byte> -> seq<Extent>) returns (ok: bool)
    requires file.data == Zeros(|file.data|) && |mbr| == |file.data| && |fs| + HEADER_SIZE == |file.data|
    modifies file
    ensures ok && |file.data| == RoundedUp(|mbr|)
    ensures Inputs(mbr, fs, extents) ==> forall p: nat :: At(file.data, p) == Expected(|mbr|, mbr, fs, p)
  {
    ghost var a := file.data;
    ok := Dd(mbr, file, extents(mbr), 0);
    if !ok { return false; }
    ghost var b := file.data;
    file.Write(DAX_HEADER_OFFSET, Info());
    ghost var c := file.data;
    ok := Dd(fs, file, extents(fs), HEADER_SIZE);
    if !ok { return false; }
    ghost var d := file.data;
    if Inputs(mbr, fs, extents) { LayersInPlace(|mbr|, mbr, fs, a, b, c, d, extents); }
    file.Truncate(RoundedUp(|mbr|));
    assert Inputs(mbr, fs, extents) ==> forall p: nat :: At(file.data, p) == At(d, p);
  }

  /** parted and mkfs: the boot record for a size and a filesystem image of a size, or nothing when the tool fails. */
  datatype Tools = Tools(mbr: nat -> Option<seq<Byte>>, mkfs: nat -> Option<seq<Byte>>,
                         extents: seq<Byte> -> seq<Extent>)

  /** Both tools keep the size of the file that they are given. */
  ghost predicate KeepSizes(tools: Tools)
  {
    && (forall n :: tools.mbr(n).Some? ==> |tools.mbr(n).value| == n)
    && forall n :: tools.mkfs(n).Some? ==> |tools.mkfs(n).value| == n
  }

  /** The size that Create settles for. */
  function Chosen(size: nat, bfree: nat, bsize: nat, attempt: nat -> Attempt): (n: Option<nat>)
    ensures n.Some? ==> n.value >= HEADER_SIZE
  {
    if size == 0 then
      var o := Search(bfree, bsize, attempt, 1);
      FoundSizeFits(bfree, bsize, attempt, 1);
      if o.Some? then Some(SizeFor(bfree, bsize, o.value)) else None
    else if size <= HEADER_SIZE || attempt(size) != Fits then None
    else Some(size)
  }

  /** A size that was asked for is taken or refused; otherwise the search decides, if it finds anything. */
  lemma ChosenIsAsked(size: nat, bfree: nat, bsize: nat, attempt: nat -> Attempt)
    ensures size > 0 ==>
              Chosen(size, bfree, bsize, attempt)
              == if size > 0x20_0000 && attempt(size) == Fits then Some(size) else None
    ensures size == 0 && Chosen(size, bfree, bsize, attempt).Some? ==>
              var n := Chosen(size, bfree, bsize, attempt).value;
              attempt(n) == Fits && n % 0x20_0000 == 0 && n > 0
  {
    FoundSizeFits(bfree, bsize, attempt, 1);
  }

  /** Create: fails exactly when there is no room or one of the tools fails, otherwise the layout is complete. */
  method Create(size: nat, bfree: nat, bsize: nat, attempt: nat -> Attempt,
        tools: Tools) returns (image: Option<seq<Byte>>)
    requires KeepSizes(tools)
    ensures var n := Chosen(size, bfree, bsize, attempt);
            && (image.Some? <==> n.Some? && tools.mbr(n.value).Some? && tools.mkfs(n.value - HEADER_SIZE).Some?)
            && (image.Some? ==> |image.value| == RoundedUp(n.value) && (size > 0 ==> size == n.value))
            && (image.Some? ==>
                  var mbr, fs := tools.mbr(n.value).value, tools.mkfs(n.value - HEADER_SIZE).value;
                  Inputs(mbr, fs, tools.extents)
                  ==> forall p: nat :: At(image.value, p) == Expected(n.value, mbr, fs, p))
  {
    var room: Option<nat>;
    if size != 0 && size <= HEADER_SIZE { return None; }
    if size == 0 {
      room := LargestFile(bfree, bsize, attempt);
    } else {
      room := if attempt(size) == Fits then Some(size) else None;
    }
    if room.None? { return None; }
    assert room == Chosen(size, bfree, bsize, attempt);
    var mbr := tools.mbr(room.value);
    if mbr.None? { return None; }
    var fs := tools.mkfs(room.value - HEADER_SIZE);
    if fs.None? { return None; }
    var file := new File(room.value);
    var ok := Fill(file, mbr.value, fs.value, tools.extents);
    if !ok { return None; }
    return Some(file.data);
  }
}

