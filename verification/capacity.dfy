/**
 * Free space, the reported maximum volume size and the choice of a volume group or region,
 * in LVM mode and in direct mode.
 */
module Capacity {
  import opened Outcomes
  import opened Alignment

  const LVM_ALIGN: nat := 4 * 1024 * 1024

  /** What a volume group, or a region in direct mode, offers: its largest free extent and its unit of allocation. */
  datatype Extent = Extent(free: nat, align: nat)

  type Pool = e: Extent | e.free < U64 && 0 < e.align < U64 witness Extent(0, 1)

  function Down(size: nat, align: nat): nat
    requires align > 0
  {
    size / align * align
  }

  /** The size that is really allocated for a request. */
  function Actual(size: nat, align: nat): nat
    requires align > 0
  {
    RoundUp(size, align)
  }

  predicate Fits(size: nat, p: Pool)
  {
    Actual(size, p.align) <= p.free
  }

  /** Rounding this request up exceeds 64 bits. */
  predicate Overflows(size: nat, p: Pool)
  {
    Up(size, p.align) >= U64
  }

  /** LVM rounds with a different formula, in machine arithmetic again. */
  function LvmActual(size: nat): nat
  {
    var actual := Wrap(size + LVM_ALIGN - 1) / LVM_ALIGN * LVM_ALIGN;
    if actual == 0 then LVM_ALIGN else actual
  }

  lemma LvmFormula(size: nat)
    ensures (size + 0x3f_ffff) / 0x40_0000 * 0x40_0000 ==
            if size % 0x40_0000 == 0 then size else (size / 0x40_0000 + 1) * 0x40_0000
  {
  }

  lemma LvmUnits(size: nat)
    ensures Wrap(size + LVM_ALIGN - 1) / LVM_ALIGN * LVM_ALIGN == Wrap(size + 0x3f_ffff) / 0x40_0000 * 0x40_0000
    ensures Up(size, LVM_ALIGN)
            == if size == 0 || size % 0x40_0000 != 0 then (size / 0x40_0000 + 1) * 0x40_0000 else size
  {
  }

  /** Both formulas agree on all sizes that leave room for rounding; above that LVM falls back to one unit. */
  lemma LvmActualIsUp(size: nat)
    requires size < U64
    ensures size + LVM_ALIGN - 1 < U64 ==> LvmActual(size) == Up(size, LVM_ALIGN) == Actual(size, LVM_ALIGN)
    ensures size + LVM_ALIGN - 1 >= U64 ==> LvmActual(size) == LVM_ALIGN && Up(size, LVM_ALIGN) >= U64
  {
    LvmFormula(size);
    LvmUnits(size);
  }

  /** One pool: a positive size that does not overflow fits exactly when it is at most the free extent rounded down. */
  lemma FitsIffBelowFree(size: nat, p: Pool)
    requires size > 0 && p.align > 0
    ensures !Overflows(size, p) ==> (Fits(size, p) <==> size <= Down(p.free, p.align))
    ensures Overflows(size, p) ==> size > Down(p.free, p.align)
  {
    var d := Down(p.free, p.align);
    FloorMul(p.free, p.align);
    UpCovers(size, p.align);
    if size <= d {
      assert d == p.align * (p.free / p.align);
      UpIsLeast(size, p.align, d);
    } else if Up(size, p.align) <= p.free {
      UpBelowDown(size, p);
    }
  }

  lemma UpBelowDown(size: nat, p: Pool)
    requires Up(size, p.align) <= p.free
    ensures Up(size, p.align) <= Down(p.free, p.align)
  {
    UpCovers(size, p.align);
    var k: int :| Up(size, p.align) == p.align * k;
    FloorMul(p.free, p.align);
    var q := p.free / p.align;
    if k > q { MulMono(p.align, q + 1, k); Distrib(p.align, q, 1); }
    MulMono(p.align, k, q);
  }

  /** The largest rounded-down free extent, zero without any. */
  ghost predicate IsMaxVolumeSize(pools: seq<Pool>, max: nat)
  {
    && (forall i :: 0 <= i < |pools| ==> Down(pools[i].free, pools[i].align) <= max)
    && (max == 0 || exists i :: 0 <= i < |pools| && Down(pools[i].free, pools[i].align) == max)
  }

  /** GetCapacity in direct mode: rounds down for each region, then takes the maximum. */
  method DirectMaxVolumeSize(pools: seq<Pool>) returns (max: nat)
    ensures IsMaxVolumeSize(pools, max)
  {
    max := 0;
    for i := 0 to |pools|
      invariant IsMaxVolumeSize(pools[..i], max)
    {
      var maxVolumeSize := pools[i].free / pools[i].align * pools[i].align;
      MaxExtends(pools, i, max, if maxVolumeSize > max then maxVolumeSize else max);
      if maxVolumeSize > max {
        max := maxVolumeSize;
      }
    }
    assert pools[..|pools|] == pools;
  }

  lemma MaxExtends(pools: seq<Pool>, i: nat, max: nat, next: nat)
    requires i < |pools| && IsMaxVolumeSize(pools[..i], max)
    requires next == if Down(pools[i].free, pools[i].align) > max then Down(pools[i].free, pools[i].align) else max
    ensures IsMaxVolumeSize(pools[..i + 1], next)
  {
  }

  predicate RoundedDown(size: nat)
  {
    size % 0x40_0000 == 0
  }

  /** A rounded size is not lost by rounding down something larger. */
  lemma RoundsDown(free: nat, max: nat)
    requires RoundedDown(max)
    ensures RoundedDown(Down(free, LVM_ALIGN)) && (max < free ==> max <= Down(free, LVM_ALIGN)) && (free <= max ==>
            Down(free, LVM_ALIGN) <= max)
  {
  }

  /**
   * GetCapacity in LVM mode compares the unrounded free space with the rounded maximum found so far.
   * That makes no difference.
   */
  method LvmMaxVolumeSize(frees: seq<nat>) returns (max: nat)
    requires forall i :: 0 <= i < |frees| ==> frees[i] < U64
    ensures IsMaxVolumeSize(LvmPools(frees), max)
  {
    var pools := LvmPools(frees);
    max := 0;
    for i := 0 to |frees|
      invariant IsMaxVolumeSize(pools[..i], max) && RoundedDown(max)
    {
      RoundsDown(frees[i], max);
      var rounded := Down(frees[i], LVM_ALIGN);
      MaxExtends(pools, i, max, if rounded > max then rounded else max);
      if frees[i] > max {
        max := rounded;
      }
    }
    assert pools[..|pools|] == pools;
  }

  function LvmPools(frees: seq<nat>): (pools: seq<Pool>)
    requires forall i :: 0 <= i < |frees| ==> frees[i] < U64
    ensures |pools| == |frees| && forall i :: 0 <= i < |frees| ==> pools[i] == Extent(frees[i], LVM_ALIGN)
  {
    seq(|frees|, i requires 0 <= i < |frees| => Extent(frees[i], LVM_ALIGN))
  }

  ghost predicate SomeFits(size: nat, pools: seq<Pool>)
  {
    exists i :: 0 <= i < |pools| && Fits(size, pools[i])
  }

  /** A region that accepts a request only because rounding it up wrapped around. */
  predicate Fooled(size: nat, p: Pool)
  {
    Overflows(size, p) && Fits(size, p)
  }

  /** The largest multiple of the unit that fits 64 bits. */
  function Largest(p: Pool): nat
  {
    Down(U64 - 1, p.align)
  }

  /** The request is above that multiple, and what the next multiple wraps around to is free. */
  predicate Wraps(size: nat, p: Pool)
  {
    size > Largest(p) && Largest(p) + p.align - U64 <= p.free
  }

  /** A size above the largest multiple is rounded up to the next one. */
  lemma UpAboveLargest(size: nat, p: Pool)
    requires Largest(p) < size < U64
    ensures Up(size, p.align) == Largest(p) + p.align >= U64
  {
    var q := (U64 - 1) / p.align;
    FloorMul(U64 - 1, p.align);
    UpCovers(size, p.align);
    var k: int :| Up(size, p.align) == p.align * k;
    Distrib(p.align, q, 1);
    assert Largest(p) == p.align * q;
    UpIsLeast(size, p.align, p.align * (q + 1));
    if k <= q { MulMono(p.align, k, q); }
    MulMono(p.align, q + 1, k);
  }

  lemma UpBelowLargest(size: nat, p: Pool)
    requires 0 < size <= Largest(p)
    ensures Up(size, p.align) < U64
  {
    FloorMul(U64 - 1, p.align);
    assert Largest(p) == p.align * ((U64 - 1) / p.align);
    UpIsLeast(size, p.align, Largest(p));
  }

  /** Which requests fool a region, in terms of the request and the region alone. */
  lemma FooledIffWraps(size: nat, p: Pool)
    requires 0 < size < U64
    ensures Fooled(size, p) <==> Wraps(size, p)
  {
    if size <= Largest(p) {
      UpBelowLargest(size, p);
    } else {
      UpAboveLargest(size, p);
      FloorMul(U64 - 1, p.align);
      assert Actual(size, p.align) == Largest(p) + p.align - U64;
    }
  }

  /**
   * The reported maximum is exact in direct mode although reporting rounds down and allocation rounds up,
   * each with the unit of its region: a positive size is accepted by some region if and only if it is at most
   * the maximum. The only exceptions are larger sizes whose rounding wraps around to something free in a region.
   */
  lemma DirectMaxIsExactUnlessFooled(pools: seq<Pool>, max: nat, size: nat)
    requires IsMaxVolumeSize(pools, max) && 0 < size < U64
    ensures (SomeFits(size, pools) <==> size <= max) <==>
            (size <= max || forall i :: 0 <= i < |pools| ==> !Wraps(size, pools[i]))
  {
    forall i | 0 <= i < |pools|
      ensures Fits(size, pools[i]) <==> size <= Down(pools[i].free, pools[i].align) || Wraps(size, pools[i])
    {
      FitsIffBelowFree(size, pools[i]);
      FooledIffWraps(size, pools[i]);
    }
    if size <= max {
      var i :| 0 <= i < |pools| && Down(pools[i].free, pools[i].align) == max;
      assert Fits(size, pools[i]);
    }
  }

  /** A request close to the largest integer fools every region whose unit is a power of two. */
  lemma HugeRequestFools(size: nat, p: Pool)
    requires U64 % p.align == 0 && U64 - p.align < size < U64
    ensures Fooled(size, p)
  {
    var n := U64 / p.align;
    assert U64 == p.align * n;
    FloorMul(U64 - 1, p.align);
    var q := (U64 - 1) / p.align;
    if q >= n { MulMono(p.align, n, q); }
    if q + 1 < n { MulMono(p.align, q + 2, n); Distrib(p.align, q, 2); }
    assert q + 1 == n;
    Distrib(p.align, q, 1);
    FooledIffWraps(size, p);
  }

  ghost predicate SomeGroupFits(size: nat, frees: seq<nat>)
  {
    exists i :: 0 <= i < |frees| && LvmActual(size) <= frees[i]
  }

  /**
   * In LVM mode the same holds exactly for the sizes that leave room for rounding: larger ones wrap around to one
   * unit, which then fits wherever there is one, unless no group has even that.
   */
  lemma LvmMaxIsExactUnlessWrapping(frees: seq<nat>, max: nat, size: nat)
    requires forall i :: 0 <= i < |frees| ==> frees[i] < U64
    requires IsMaxVolumeSize(LvmPools(frees), max) && 0 < size < U64
    ensures (SomeGroupFits(size, frees) <==> size <= max) <==> (size + LVM_ALIGN - 1 < U64 || max == 0)
  {
    var pools := LvmPools(frees);
    LvmActualIsUp(size);
    if size + LVM_ALIGN - 1 < U64 {
      DirectMaxIsExactUnlessFooled(pools, max, size);
      assert forall i :: 0 <= i < |frees| ==> (Fits(size, pools[i]) <==> LvmActual(size) <= frees[i]);
    } else {
      WrappedFits(frees, max);
      MaxBelow(pools, max, size);
    }
  }

  lemma MaxBelow(pools: seq<Pool>, max: nat, size: nat)
    requires IsMaxVolumeSize(pools, max) && 0 < size
    requires forall i :: 0 <= i < |pools| ==> Overflows(size, pools[i])
    ensures max < size
  {
    if max > 0 {
      var i :| 0 <= i < |pools| && Down(pools[i].free, pools[i].align) == max;
      FitsIffBelowFree(size, pools[i]);
    }
  }

  lemma WrappedFits(frees: seq<nat>, max: nat)
    requires forall i :: 0 <= i < |frees| ==> frees[i] < U64
    requires IsMaxVolumeSize(LvmPools(frees), max)
    ensures (exists i :: 0 <= i < |frees| && LVM_ALIGN <= frees[i]) <==> max > 0
  {
  }

  /** The loop of CreateDevice: the first volume group with enough space. */
  method FirstFit(frees: seq<nat>, actual: nat) returns (hit: Option<nat>)
    ensures hit.Some? ==> hit.value < |frees| && actual <= frees[hit.value] && forall j :: 0 <= j < hit.value ==>
            frees[j] < actual
    ensures hit.None? ==> forall j :: 0 <= j < |frees| ==> frees[j] < actual
  {
    for i := 0 to |frees|
      invariant forall j :: 0 <= j < i ==> frees[j] < actual
    {
      if frees[i] >= actual {
        return Some(i);
      }
    }
    return None;
  }

  /** ndctl.CreateNamespace: the first region, bus by bus, that accepts the request. */
  method FirstRegion(buses: seq<seq<Pool>>, size: nat) returns (hit: Option<(nat, nat)>)
    ensures hit.Some? ==> hit.value.0 < |buses| && hit.value.1 < |buses[hit.value.0]| && Fits(size,
            buses[hit.value.0][hit.value.1])
    ensures hit.Some? ==> (forall b :: 0 <= b < hit.value.0 ==> !SomeFits(size, buses[b]))
                          && forall i :: 0 <= i < hit.value.1 ==> !Fits(size, buses[hit.value.0][i])
    ensures hit.None? ==> forall b :: 0 <= b < |buses| ==> !SomeFits(size, buses[b])
  {
    for b := 0 to |buses|
      invariant forall c :: 0 <= c < b ==> !SomeFits(size, buses[c])
    {
      for i := 0 to |buses[b]|
        invariant forall j :: 0 <= j < i ==> !Fits(size, buses[b][j])
      {
        if Fits(size, buses[b][i]) {
          return Some((b, i));
        }
      }
    }
    return None;
  }
}

