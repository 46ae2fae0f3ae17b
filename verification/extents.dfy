/**
 * Finding out which parts of a file hold data: block map to extents, and seeking for data and holes.
 */
module Extents {
  import opened Outcomes

  /** A range of a file and where it is on the disk. */
  datatype Extent = Extent(logical: nat, physical: nat, length: nat)

  function End(e: Extent): nat
  {
    e.logical + e.length
  }

  /** The block that follows the extent on the disk. */
  function Next(e: Extent): nat
  {
    e.physical + e.length
  }

  predicate In(e: Extent, i: nat)
  {
    e.logical <= i < End(e)
  }

  /** The end of the last extent. */
  function Reach(runs: seq<Extent>): nat
  {
    if runs == [] then 0 else End(runs[|runs| - 1])
  }

  /** What the extents say about a block of the file: its place on the disk, 0 for a hole. */
  function Lookup(runs: seq<Extent>, i: nat): nat
  {
    if runs == [] then 0 else
      var e := runs[|runs| - 1];
      if In(e, i) then e.physical + (i - e.logical) else Lookup(runs[..|runs| - 1], i)
  }

  /** The extents of a block map, built block by block. */
  function Encode(blocks: seq<nat>): seq<Extent>
  {
    if blocks == [] then [] else
      var n := |blocks| - 1;
      Extended(Encode(blocks[..n]), n, blocks[n])
  }

  /** One more block at index i: a hole, a continuation of the last extent, or a new extent. */
  function Extended(runs: seq<Extent>, i: nat, block: nat): seq<Extent>
  {
    if block == 0 then runs
    else if runs != [] && Reach(runs) == i && Next(runs[|runs| - 1]) == block
    then runs[|runs| - 1 := runs[|runs| - 1].(length := runs[|runs| - 1].length + 1)]
    else runs + [Extent(i, block, 1)]
  }

  function InBytes(blocks: nat, bsz: nat): nat
  {
    blocks * bsz
  }

  function Scaled(runs: seq<Extent>, bsz: nat): seq<Extent>
  {
    seq(|runs|, i requires 0 <= i < |runs| => Scale(runs[i], bsz))
  }

  function Scale(e: Extent, bsz: nat): Extent
  {
    Extent(InBytes(e.logical, bsz), InBytes(e.physical, bsz), InBytes(e.length, bsz))
  }

  lemma EncodeStep(blocks: seq<nat>, i: nat)
    requires i < |blocks|
    ensures Encode(blocks[..i + 1]) == Extended(Encode(blocks[..i]), i, blocks[i])
  {
    assert blocks[..i + 1][..i] == blocks[..i];
  }

  /** What FibmapExtents has stored so far and the extent that it has not stored yet, if there is one. */
  ghost predicate Pending(runs: seq<Extent>, done: seq<Extent>, e: Extent, length: nat, physical: nat, i: nat, bsz: nat)
  {
    if physical == 0 then
      length == 0 && done == Scaled(runs, bsz) && (runs == [] || Reach(runs) < i)
    else
      && length > 0 && Unstored(runs, length, physical, i)
      && done + [e.(length := InBytes(length, bsz))] == Scaled(runs, bsz)
  }

  predicate Unstored(runs: seq<Extent>, length: nat, physical: nat, i: nat)
  {
    runs != [] && runs[|runs| - 1].length == length && Reach(runs) == i && Next(runs[|runs| - 1]) == physical
  }

  lemma ContinuePending(runs: seq<Extent>, done: seq<Extent>, e: Extent, length: nat, physical: nat, i: nat, bsz: nat)
    requires Pending(runs, done, e, length, physical, i, bsz) && physical != 0
    ensures Pending(Extended(runs, i, physical), done, e, length + 1, physical + 1, i + 1, bsz)
  {
    var more := Extended(runs, i, physical);
    var n := |runs| - 1;
    assert Scaled(runs, bsz)[n] == e.(length := InBytes(length, bsz));
    var stored := done + [e.(length := InBytes(length + 1, bsz))];
    assert |done| == n;
    forall k | 0 <= k <= n ensures stored[k] == Scaled(more, bsz)[k] {
      if k < n { assert (done + [e.(length := InBytes(length, bsz))])[k] == Scaled(runs, bsz)[k]; }
    }
    assert stored == Scaled(more, bsz);
  }

  lemma NewPending(runs: seq<Extent>, i: nat, block: nat, bsz: nat)
    requires block != 0 && (runs == [] || Reach(runs) < i || Next(runs[|runs| - 1]) != block)
    ensures Pending(Extended(runs, i, block), Scaled(runs, bsz), Extent(InBytes(i, bsz), InBytes(block, bsz), 0), 1,
            block + 1, i + 1, bsz)
  {
  }

  lemma HolePending(runs: seq<Extent>, e: Extent, i: nat, bsz: nat)
    requires Reach(runs) <= i
    ensures Pending(Extended(runs, i, 0), Scaled(runs, bsz), e, 0, 0, i + 1, bsz)
  {
  }

  function SeenAt(answer: Option<nat>, i: nat): nat
  {
    match answer
    case Some(block) => block
    case None => i
  }

  /** A call for one block answers with its place on the disk; one that fails leaves the index that was passed in. */
  function Seen(answers: seq<Option<nat>>): seq<nat>
  {
    seq(|answers|, i requires 0 <= i < |answers| => SeenAt(answers[i], i))
  }

  /**
   * FibmapExtents for the block size and a place on the disk per block, where 0 stands for a hole. Only the error of
   * the last call is returned.
   */
  method FibmapExtents(blockSize: Option<nat>, answers: seq<Option<nat>>) returns (result: seq<Extent>, ok: bool)
    ensures ok <==> blockSize.Some? && (answers == [] || answers[|answers| - 1].Some?)
    ensures blockSize.Some? ==> result == Scaled(Encode(Seen(answers)), blockSize.value)
    ensures blockSize.Some? && blockSize.value > 0 ==> Describes(result, Seen(answers), blockSize.value)
  {
    if blockSize.None? { return [], false; }
    result, ok := FindRuns(blockSize.value, answers);
    if blockSize.value > 0 { ScaledDescribes(Seen(answers), blockSize.value); }
  }

  /** The loop of FibmapExtents. */
  method FindRuns(bsz: nat, answers: seq<Option<nat>>) returns (result: seq<Extent>, ok: bool)
    ensures ok <==> answers == [] || answers[|answers| - 1].Some?
    ensures result == Scaled(Encode(Seen(answers)), bsz)
  {
    result, ok := [], true;
    ghost var blocks := Seen(answers);
    var physical: nat, length: nat := 0, 0;
    var e := Extent(0, 0, 0);
    ghost var runs: seq<Extent> := [];
    for i := 0 to |answers|
      invariant ok <==> i == 0 || answers[i - 1].Some?
      invariant runs == Encode(blocks[..i]) && Pending(runs, result, e, length, physical, i, bsz)
    {
      EncodeStep(blocks, i);
      var block := SeenAt(answers[i], i);
      ok := answers[i].Some?;
      if block == 0 && physical == 0 {
        HolePending(runs, e, i, bsz);
      } else if block == 0 {
        HolePending(runs, e, i, bsz);
        result := result + [e.(length := InBytes(length, bsz))];
        length, physical := 0, 0;
      } else if block == physical {
        ContinuePending(runs, result, e, length, physical, i, bsz);
        length, physical := length + 1, physical + 1;
      } else {
        NewPending(runs, i, block, bsz);
        if physical != 0 {
          result := result + [e.(length := InBytes(length, bsz))];
        }
        e := Extent(InBytes(i, bsz), InBytes(block, bsz), 0);
        length, physical := 1, block + 1;
      }
      runs := Extended(runs, i, block);
    }
    assert blocks[..|blocks|] == blocks;
    if length > 0 {
      result := result + [e.(length := InBytes(length, bsz))];
    }
  }

  /** Sorted, disjoint and maximal: touching extents are not contiguous on the disk. */
  ghost predicate Canonical(runs: seq<Extent>)
  {
    && (forall k :: 0 <= k < |runs| ==> runs[k].length > 0 && runs[k].physical > 0)
    && forall k :: 0 < k < |runs| ==> Follows(runs[k - 1], runs[k])
  }

  predicate Follows(e: Extent, f: Extent)
  {
    End(e) <= f.logical && (End(e) == f.logical ==> Next(e) != f.physical)
  }

  lemma {:induction false} BeyondReach(runs: seq<Extent>, i: nat)
    requires Canonical(runs) && Reach(runs) <= i
    ensures Lookup(runs, i) == 0
  {
    if runs != [] {
      var init := runs[..|runs| - 1];
      if init != [] { assert Follows(runs[|runs| - 2], runs[|runs| - 1]); }
      BeyondReach(init, i);
    }
  }

  lemma InitReach(runs: seq<Extent>)
    requires Canonical(runs) && runs != []
    ensures Canonical(runs[..|runs| - 1]) && Reach(runs[..|runs| - 1]) <= runs[|runs| - 1].logical
  {
  }

  lemma AppendedLookup(runs: seq<Extent>, e: Extent, k: nat)
    ensures Lookup(runs + [e], k) == if In(e, k) then e.physical + (k - e.logical) else Lookup(runs, k)
  {
  }

  lemma ExtendedLookup(runs: seq<Extent>, i: nat, block: nat, k: nat)
    requires Canonical(runs) && Reach(runs) <= i
    ensures Lookup(Extended(runs, i, block), k) == if k == i then block else Lookup(runs, k)
  {
    var more := Extended(runs, i, block);
    BeyondReach(runs, i);
    if |more| > |runs| {
      AppendedLookup(runs, Extent(i, block, 1), k);
    } else if block != 0 {
      var init := runs[..|runs| - 1];
      var e := runs[|runs| - 1];
      AppendedLookup(init, e, k);
      AppendedLookup(init, e.(length := e.length + 1), k);
      assert runs == init + [e] && more == init + [e.(length := e.length + 1)];
    }
  }

  lemma ExtendedCanonical(runs: seq<Extent>, i: nat, block: nat)
    requires Canonical(runs) && Reach(runs) <= i
    ensures Canonical(Extended(runs, i, block)) && Reach(Extended(runs, i, block)) <= i + 1
  {
  }

  lemma {:induction false} EncodeIsCanonical(blocks: seq<nat>)
    ensures Canonical(Encode(blocks)) && Reach(Encode(blocks)) <= |blocks|
  {
    if blocks != [] {
      var n := |blocks| - 1;
      EncodeIsCanonical(blocks[..n]);
      ExtendedCanonical(Encode(blocks[..n]), n, blocks[n]);
    }
  }

  /** Nothing is lost: the extents give back every block of the map, and nothing beyond it. */
  lemma {:induction false} EncodeIsLossless(blocks: seq<nat>, k: nat)
    ensures Lookup(Encode(blocks), k) == if k < |blocks| then blocks[k] else 0
  {
    if blocks != [] {
      var n := |blocks| - 1;
      EncodeIsLossless(blocks[..n], k);
      EncodeIsCanonical(blocks[..n]);
      ExtendedLookup(Encode(blocks[..n]), n, blocks[n], k);
    }
  }

  lemma {:induction false} BelowReach(runs: seq<Extent>, k: nat)
    requires Canonical(runs) && k < |runs|
    ensures End(runs[k]) <= Reach(runs)
  {
    if k < |runs| - 1 {
      BelowReach(runs[..|runs| - 1], k);
      InitReach(runs);
    }
  }

  /** Any extent with the block tells where it is, so it does not matter which one is asked. */
  lemma {:induction false} LookupIn(runs: seq<Extent>, k: nat, i: nat)
    requires Canonical(runs) && k < |runs| && In(runs[k], i)
    ensures Lookup(runs, i) == runs[k].physical + (i - runs[k].logical) > 0
  {
    if k < |runs| - 1 {
      InitReach(runs);
      BelowReach(runs[..|runs| - 1], k);
      LookupIn(runs[..|runs| - 1], k, i);
    }
  }

  lemma {:induction false} LookupCovered(runs: seq<Extent>, i: nat)
    requires Lookup(runs, i) != 0
    ensures Covered(runs, i)
  {
    var n := |runs| - 1;
    if !In(runs[n], i) {
      LookupCovered(runs[..n], i);
      var k :| 0 <= k < n && In(runs[..n][k], i);
      assert In(runs[k], i);
    }
  }

  lemma ByteInBlock(bsz: nat, p: nat)
    requires bsz > 0
    ensures InBytes(p / bsz, bsz) + p % bsz == p
  {
  }

  lemma InBytesMonotone(a: nat, b: nat, bsz: nat)
    requires a <= b
    ensures InBytes(a, bsz) <= InBytes(b, bsz)
  {
    InBytesAdds(a, b - a, bsz);
  }

  lemma BlockOfByte(a: nat, bsz: nat, p: nat)
    requires bsz > 0
    ensures InBytes(a, bsz) <= p <==> a <= p / bsz
  {
    var q := p / bsz;
    ByteInBlock(bsz, p);
    if a <= q {
      InBytesMonotone(a, q, bsz);
    } else {
      InBytesMonotone(q + 1, a, bsz);
      InBytesAdds(q, 1, bsz);
    }
  }

  lemma InBytesAdds(a: nat, b: nat, bsz: nat)
    ensures InBytes(a + b, bsz) == InBytes(a, bsz) + InBytes(b, bsz)
  {
  }

  /** A byte is in a scaled extent exactly when its block is in the extent, and keeps its place in the block. */
  lemma ScaledByte(e: Extent, bsz: nat, p: nat)
    requires bsz > 0
    ensures In(Scale(e, bsz), p) <==> In(e, p / bsz)
    ensures In(e, p / bsz) ==>
              Scale(e, bsz).physical + (p - Scale(e, bsz).logical)
              == InBytes(e.physical + (p / bsz - e.logical), bsz) + p % bsz
  {
    BlockOfByte(e.logical, bsz, p);
    BlockOfByte(End(e), bsz, p);
    ByteInBlock(bsz, p);
    InBytesAdds(e.logical, e.length, bsz);
    if In(e, p / bsz) {
      InBytesAdds(e.logical, p / bsz - e.logical, bsz);
      InBytesAdds(e.physical, p / bsz - e.logical, bsz);
    }
  }

  /** The extents say of this byte what the block map says: where it is on the disk, or that there is none. */
  ghost predicate ByteIsRight(extents: seq<Extent>, blocks: seq<nat>, bsz: nat, p: nat)
    requires bsz > 0
  {
    && (Covered(extents, p) <==> p / bsz < |blocks| && blocks[p / bsz] != 0)
    && forall k :: 0 <= k < |extents| && In(extents[k], p) ==>
         p / bsz < |blocks| && extents[k].physical + (p - extents[k].logical) == blocks[p / bsz] * bsz + p % bsz
  }

  /** Byte ranges that are sorted, disjoint and not empty, and are right about every byte. */
  ghost predicate Describes(extents: seq<Extent>, blocks: seq<nat>, bsz: nat)
    requires bsz > 0
  {
    && (forall p: nat :: ByteIsRight(extents, blocks, bsz, p))
    && (forall k :: 0 <= k < |extents| ==> extents[k].length > 0)
    && forall k :: 0 < k < |extents| ==> End(extents[k - 1]) <= extents[k].logical
  }

  lemma ScaledIsRight(blocks: seq<nat>, bsz: nat, p: nat)
    requires bsz > 0
    ensures ByteIsRight(Scaled(Encode(blocks), bsz), blocks, bsz, p)
  {
    var runs := Encode(blocks);
    var extents := Scaled(runs, bsz);
    EncodeIsLossless(blocks, p / bsz);
    EncodeIsCanonical(blocks);
    forall k | 0 <= k < |runs|
      ensures In(extents[k], p) <==> In(runs[k], p / bsz)
      ensures In(extents[k], p) ==>
                p / bsz < |blocks| && blocks[p / bsz] != 0
                && extents[k].physical + (p - extents[k].logical) == blocks[p / bsz] * bsz + p % bsz
    {
      ScaledByte(runs[k], bsz, p);
      if In(runs[k], p / bsz) { LookupIn(runs, k, p / bsz); }
    }
    if p / bsz < |blocks| && blocks[p / bsz] != 0 {
      LookupCovered(runs, p / bsz);
      var k :| 0 <= k < |runs| && In(runs[k], p / bsz);
      assert In(extents[k], p);
    }
  }

  lemma ScaledIsSorted(e: Extent, f: Extent, bsz: nat)
    requires bsz > 0 && End(e) <= f.logical && e.length > 0
    ensures End(Scale(e, bsz)) <= Scale(f, bsz).logical && Scale(e, bsz).length > 0
  {
    InBytesAdds(e.logical, e.length, bsz);
    InBytesAdds(End(e), f.logical - End(e), bsz);
    InBytesAdds(1, e.length - 1, bsz);
  }

  /** In bytes, the extents of a block map say about every byte of the file where it is on the disk. */
  lemma ScaledDescribes(blocks: seq<nat>, bsz: nat)
    requires bsz > 0
    ensures Describes(Scaled(Encode(blocks), bsz), blocks, bsz)
  {
    var runs := Encode(blocks);
    EncodeIsCanonical(blocks);
    forall p: nat ensures ByteIsRight(Scaled(runs, bsz), blocks, bsz, p) { ScaledIsRight(blocks, bsz, p); }
    forall k | 0 <= k < |runs|
      ensures Scale(runs[k], bsz).length > 0
      ensures k > 0 ==> End(Scale(runs[k - 1], bsz)) <= Scale(runs[k], bsz).logical
    {
      InBytesAdds(1, runs[k].length - 1, bsz);
      if k > 0 {
        assert Follows(runs[k - 1], runs[k]);
        ScaledIsSorted(runs[k - 1], runs[k], bsz);
      }
    }
  }

  ghost predicate SameBlocks(x: seq<Extent>, y: seq<Extent>)
  {
    forall i: nat :: Lookup(x, i) == Lookup(y, i)
  }

  /** With calls that fail on the way, the extents are right exactly when those blocks are where their index says. */
  lemma RightIffFailuresAreHarmless(blocks: seq<nat>, answers: seq<Option<nat>>)
    requires |answers| == |blocks|
    requires forall i :: 0 <= i < |blocks| && answers[i].Some? ==> answers[i].value == blocks[i]
    ensures SameBlocks(Encode(Seen(answers)), Encode(blocks))
            <==> forall i :: 0 <= i < |blocks| && answers[i].None? ==> blocks[i] == i
  {
    var seen := Seen(answers);
    forall k: nat
      ensures Lookup(Encode(seen), k) == if k < |seen| then seen[k] else 0
      ensures Lookup(Encode(blocks), k) == if k < |blocks| then blocks[k] else 0
    {
      EncodeIsLossless(seen, k);
      EncodeIsLossless(blocks, k);
    }
    if SameBlocks(Encode(seen), Encode(blocks)) {
      forall i | 0 <= i < |blocks| && answers[i].None? ensures blocks[i] == i {
        assert Lookup(Encode(seen), i) == Lookup(Encode(blocks), i);
      }
    }
  }

  lemma LastBlock(x: seq<Extent>)
    requires Canonical(x) && x != []
    ensures Lookup(x, Reach(x) - 1) > 0
  {
  }

  lemma SameReach(x: seq<Extent>, y: seq<Extent>)
    requires Canonical(x) && Canonical(y) && SameBlocks(x, y) && x != []
    ensures y != [] && Reach(x) == Reach(y)
  {
    LastBlock(x);
    if Reach(y) < Reach(x) { BeyondReach(y, Reach(x) - 1); }
    if Reach(x) < Reach(y) {
      LastBlock(y);
      BeyondReach(x, Reach(y) - 1);
    }
  }

  /** The block before the last extent does not belong to the same contiguous range. */
  lemma NotSplit(y: seq<Extent>)
    requires Canonical(y) && y != []
    ensures var f := y[|y| - 1];
            f.logical > 0 && f.physical > 1 ==> Lookup(y, f.logical - 1) != f.physical - 1
  {
    var f := y[|y| - 1];
    var init := y[..|y| - 1];
    InitReach(y);
    if 0 < f.logical {
      if Reach(init) < f.logical {
        BeyondReach(init, f.logical - 1);
      } else {
        assert Follows(y[|y| - 2], f);
      }
    }
  }

  /** The last extents start at the same block, because neither list splits a contiguous range. */
  lemma SameStart(x: seq<Extent>, y: seq<Extent>)
    requires Canonical(x) && Canonical(y) && SameBlocks(x, y) && x != [] && y != [] && Reach(x) == Reach(y)
    ensures x[|x| - 1].logical >= y[|y| - 1].logical
  {
    var (e, f) := (x[|x| - 1], y[|y| - 1]);
    assert Lookup(x, Reach(x) - 1) == Lookup(y, Reach(x) - 1);
    assert Next(e) == Next(f);
    if e.logical < f.logical {
      assert Lookup(x, f.logical - 1) == f.physical - 1 > 0;
      NotSplit(y);
    }
  }

  /** Only one sorted, disjoint and maximal list of extents describes a block map. */
  lemma {:induction false} CanonicalIsUnique(x: seq<Extent>, y: seq<Extent>)
    requires Canonical(x) && Canonical(y) && SameBlocks(x, y)
    ensures x == y
    decreases |x|
  {
    if x == [] {
      if y != [] { LastBlock(y); }
    } else {
      SameReach(x, y);
      SameStart(x, y);
      SameStart(y, x);
      var (p, q) := (x[..|x| - 1], y[..|y| - 1]);
      assert Lookup(x, Reach(x) - 1) == Lookup(y, Reach(x) - 1);
      assert x[|x| - 1] == y[|y| - 1];
      InitReach(x);
      InitReach(y);
      forall i: nat ensures Lookup(p, i) == Lookup(q, i) {
        if i >= x[|x| - 1].logical {
          BeyondReach(p, i);
          BeyondReach(q, i);
        } else {
          assert Lookup(x, i) == Lookup(y, i);
        }
      }
      CanonicalIsUnique(p, q);
      assert x == p + [x[|x| - 1]] && y == q + [y[|y| - 1]];
    }
  }

  /** lseek with SEEK_DATA: the next position that holds data, an error if there is none. */
  function SeekData(data: seq<bool>, from: nat): (r: Option<nat>)
    ensures r.Some? ==> from <= r.value < |data| && data[r.value] && forall p :: from <= p < r.value ==> !data[p]
    ensures r.None? ==> forall p :: from <= p < |data| ==> !data[p]
    decreases |data| - from
  {
    if from >= |data| then None else if data[from] then Some(from) else SeekData(data, from + 1)
  }

  /** lseek with SEEK_HOLE: the next hole or the end of the file, an error from the end on. */
  function SeekHole(data: seq<bool>, from: nat): (r: Option<nat>)
    ensures r.None? <==> from >= |data|
    ensures r.Some? ==> from <= r.value <= |data| && (r.value < |data| ==> !data[r.value])
                        && forall p :: from <= p < r.value ==> data[p]
    decreases |data| - from
  {
    if from >= |data| then None
    else if !data[from] then Some(from)
    else if from + 1 == |data| then Some(|data|)
    else SeekHole(data, from + 1)
  }

  /** Seek reports position 0 when it fails. */
  function Position(r: Option<nat>): nat
  {
    if r.Some? then r.value else 0
  }

  /** Offsets and lengths in turn, read as extents. */
  function Pairs(offsets: seq<nat>): (r: seq<Extent>)
    ensures |r| == |offsets| / 2
    ensures forall k :: 0 <= k < |r| ==> r[k] == Extent(offsets[2 * k], 0, offsets[2 * k + 1])
  {
    seq(|offsets| / 2, k requires 0 <= k < |offsets| / 2 => Extent(offsets[2 * k], 0, offsets[2 * k + 1]))
  }

  ghost predicate Covered(extents: seq<Extent>, p: nat)
  {
    exists k :: 0 <= k < |extents| && In(extents[k], p)
  }

  /** The extents cover exactly the data below a bound, with a hole between any two of them. */
  ghost predicate CoverData(extents: seq<Extent>, data: seq<bool>, bound: nat)
  {
    && (forall p :: 0 <= p < |data| && p < bound ==> (data[p] <==> Covered(extents, p)))
    && (forall k :: 0 <= k < |extents|
          ==> extents[k].length > 0 && End(extents[k]) <= |data| && End(extents[k]) <= bound)
    && forall k :: 0 < k < |extents| ==> End(extents[k - 1]) < extents[k].logical
  }

  lemma PairsExtend(offsets: seq<nat>, data: nat, length: nat)
    requires |offsets| % 2 == 0
    ensures Pairs(offsets + [data, length]) == Pairs(offsets) + [Extent(data, 0, length)]
  {
  }

  lemma CoverMore(extents: seq<Extent>, data: seq<bool>, bound: nat, from: nat, to: nat)
    requires CoverData(extents, data, bound) && bound <= from < to <= |data|
    requires forall p :: bound <= p < from ==> !data[p]
    requires forall p :: from <= p < to ==> data[p]
    requires extents == [] || End(extents[|extents| - 1]) < from
    ensures CoverData(extents + [Extent(from, 0, to - from)], data, to)
  {
    var more := extents + [Extent(from, 0, to - from)];
    forall p | 0 <= p < |data| && p < to ensures data[p] <==> Covered(more, p) {
      if Covered(extents, p) {
        var k :| 0 <= k < |extents| && In(extents[k], p);
        assert In(more[k], p);
      }
      if from <= p { assert In(more[|extents|], p); }
    }
    forall k | 0 < k < |more| ensures End(more[k - 1]) < more[k].logical {
      if k < |extents| { assert more[k - 1] == extents[k - 1] && more[k] == extents[k]; }
    }
  }

  lemma CoverRest(extents: seq<Extent>, data: seq<bool>, bound: nat)
    requires CoverData(extents, data, bound)
    requires forall p :: bound <= p < |data| ==> !data[p]
    ensures CoverData(extents, data, |data|)
  {
  }

  /** SeekDataHole: also ends for a file without any data, where the failing seek reports position 0. */
  method SeekDataHole(file: seq<bool>) returns (datahole: seq<nat>)
    ensures |datahole| % 2 == 0 && CoverData(Pairs(datahole), file, |file|)
  {
    var data, hole := 0, 0;
    datahole := [];
    while true
      invariant |datahole| % 2 == 0 && hole <= |file| && CoverData(Pairs(datahole), file, hole)
      invariant datahole == [] ==> hole == 0
      invariant datahole != [] ==> 0 < hole && Reach(Pairs(datahole)) == hole && (hole < |file| ==> !file[hole])
      decreases |file| - hole
    {
      ghost var last := hole;
      data := Position(SeekData(file, hole));
      if data >= hole {
        hole := Position(SeekHole(file, data));
        if hole > data {
          PairsExtend(datahole, data, hole - data);
          CoverMore(Pairs(datahole), file, last, data, hole);
          datahole := datahole + [data, hole - data];
          continue;
        }
      }
      CoverRest(Pairs(datahole), file, last);
      break;
    }
  }

  /** The fallback of getAllExtents: the extents cover exactly the data of the file. */
  method DataExtents(file: seq<bool>) returns (extents: seq<Extent>)
    ensures CoverData(extents, file, |file|)
  {
    var offsets := SeekDataHole(file);
    extents := [];
    var i := 0;
    while i + 1 < |offsets|
      invariant 0 <= i <= |offsets| && i % 2 == 0 && extents == Pairs(offsets[..i])
    {
      PairsExtend(offsets[..i], offsets[i], offsets[i + 1]);
      assert offsets[..i + 2] == offsets[..i] + [offsets[i], offsets[i + 1]];
      extents := extents + [Extent(offsets[i], 0, offsets[i + 1])];
      i := i + 2;
    }
    assert offsets[..i] == offsets;
  }
}

