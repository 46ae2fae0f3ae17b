/**
 * Alignment arithmetic on unsigned 64-bit integers: greatest common divisor, least common
 * multiple, and the sizes of namespaces derived from them.
 */
module Alignment {
  const U64: nat := 0x1_0000_0000_0000_0000

  /** What the machine keeps of a result. */
  function Wrap(n: nat): (r: nat)
    ensures r < U64 && (n < U64 ==> r == n) && (n >= U64 ==> r <= n - U64)
  {
    n % U64
  }

  // ------------------------------------------------- small algebraic steps

  lemma Assoc(a: int, b: int, c: int)
    ensures (a * b) * c == a * (b * c)
  {
  }

  lemma Distrib(a: int, b: int, c: int)
    ensures a * (b + c) == a * b + a * c
  {
  }

  ghost predicate Divides(d: int, n: int)
  {
    exists k: int :: n == d * k
  }

  lemma DividesScaled(d: int, n: int, c: int)
    requires Divides(d, n)
    ensures Divides(d, n * c)
  {
    var k: int :| n == d * k;
    Assoc(d, k, c);
    assert n * c == d * (k * c);
  }

  lemma DividesSum(d: int, m: int, n: int)
    requires Divides(d, m) && Divides(d, n)
    ensures Divides(d, m + n)
  {
    var k: int :| m == d * k;
    var l: int :| n == d * l;
    Distrib(d, k, l);
    assert m + n == d * (k + l);
  }

  lemma PositiveFactors(d: nat, k: int)
    requires d * k > 0
    ensures d > 0 && k > 0
  {
  }

  lemma AtLeastOnce(d: nat, k: int)
    requires k >= 1
    ensures d <= d * k
  {
  }

  lemma DivisorIsSmaller(d: nat, n: nat)
    requires Divides(d, n) && n > 0
    ensures 0 < d <= n
  {
  }

  lemma SameQuotient(g: nat, q: int, r: nat, k: int)
    requires g * q + r == g * k && r < g
    ensures q == k && r == 0
  {
    Distrib(g, k, -q);
    if k - q >= 1 { AtLeastOnce(g, k - q); }
    if q - k >= 1 { AtLeastOnce(g, q - k); Distrib(g, q, -k); }
  }

  lemma ExactQuotient(n: int, g: nat, k: int)
    requires g > 0 && n == g * k
    ensures n / g == k && n % g == 0
  {
    SameQuotient(g, n / g, n % g, k);
  }

  lemma FloorMul(n: nat, g: nat)
    requires g > 0
    ensures n / g * g <= n < n / g * g + g
  {
  }

  // ------------------------------------------------- greatest common divisor

  function Gcd(a: nat, b: nat): nat
    decreases b
  {
    if b == 0 then a else Gcd(b, a % b)
  }

  /** Euclid's loop. */
  method ComputeGcd(a: nat, b: nat) returns (g: nat)
    ensures g == Gcd(a, b)
  {
    var x, y := a, b;
    while y != 0
      invariant Gcd(x, y) == Gcd(a, b)
      decreases y
    {
      x, y := y, x % y;
    }
    g := x;
  }

  /** The greatest common divisor is a combination of the two numbers. */
  lemma {:induction false} Bezout(a: nat, b: nat) returns (s: int, t: int)
    ensures Gcd(a, b) == a * s + b * t
    decreases b
  {
    if b == 0 {
      s, t := 1, 0;
    } else {
      var x, y := Bezout(b, a % b);
      s, t := y, x - (a / b) * y;
      BezoutStep(a, b, a / b, a % b, x, y);
    }
  }

  lemma BezoutStep(a: int, b: int, q: int, r: int, x: int, y: int)
    requires a == b * q + r
    ensures b * x + r * y == a * y + b * (x - q * y)
  {
  }

  lemma {:induction false} GcdDivides(a: nat, b: nat)
    ensures Divides(Gcd(a, b), a) && Divides(Gcd(a, b), b)
    ensures a > 0 || b > 0 ==> Gcd(a, b) > 0
    decreases b
  {
    var g := Gcd(a, b);
    if b == 0 {
      assert a == g * 1 && b == g * 0;
    } else {
      GcdDivides(b, a % b);
      DividesScaled(g, b, a / b);
      DividesSum(g, b * (a / b), a % b);
    }
  }

  /** Euclid's loop finds the greatest common divisor: it divides both, and every common divisor divides it. */
  lemma GcdIsGreatest(a: nat, b: nat, d: nat)
    requires Divides(d, a) && Divides(d, b)
    ensures Divides(Gcd(a, b), a) && Divides(Gcd(a, b), b)
    ensures Divides(d, Gcd(a, b))
    ensures a > 0 || b > 0 ==> d <= Gcd(a, b)
  {
    GcdDivides(a, b);
    var s, t := Bezout(a, b);
    DividesScaled(d, a, s);
    DividesScaled(d, b, t);
    DividesSum(d, a * s, b * t);
    if a > 0 || b > 0 { DivisorIsSmaller(d, Gcd(a, b)); }
  }

  // --------------------------------------------------- least common multiple

  /** LCM, in machine arithmetic. */
  function Lcm(a: nat, b: nat): nat
    requires Gcd(a, b) > 0
  {
    Wrap(a * b) / Gcd(a, b)
  }

  /** Without overflow: a multiple of both, and a divisor of every other one. */
  lemma LcmIsLeast(a: nat, b: nat, m: nat)
    requires a > 0 && b > 0 && a * b < U64
    ensures Gcd(a, b) > 0 && Lcm(a, b) > 0
    ensures Divides(a, Lcm(a, b)) && Divides(b, Lcm(a, b))
    ensures Divides(a, m) && Divides(b, m) ==> Divides(Lcm(a, b), m)
    ensures Divides(a, m) && Divides(b, m) && m > 0 ==> Lcm(a, b) <= m
  {
    GcdDivides(a, b);
    var g := Gcd(a, b);
    var x: int :| a == g * x;
    var y: int :| b == g * y;
    Assoc(g, x, b);
    ExactQuotient(a * b, g, x * b);
    var l := Lcm(a, b);
    assert l == x * b;
    LcmIsMultiple(a, b, g, x, y, l);
    PositiveFactors(g, l);
    if Divides(a, m) && Divides(b, m) {
      LcmDivides(a, b, g, l, m);
      if m > 0 { DivisorIsSmaller(l, m); }
    }
  }

  lemma LcmIsMultiple(a: int, b: int, g: int, x: int, y: int, l: int)
    requires a == g * x && b == g * y && l == x * b
    ensures Divides(a, l) && Divides(b, l)
    ensures g * l == a * b
  {
    Assoc(x, g, y);
    assert l == (x * g) * y;
    assert l == a * y;
    assert l == b * x;
    Assoc(g, x, b);
  }

  lemma LcmDivides(a: nat, b: nat, g: nat, l: nat, m: nat)
    requires g == Gcd(a, b) && g > 0 && g * l == a * b
    requires Divides(a, m) && Divides(b, m)
    ensures Divides(l, m)
  {
    var s, t := Bezout(a, b);
    var x: int :| m == a * x;
    var y: int :| m == b * y;
    LcmCombination(a, b, g, l, m, s, t, x, y);
    assert m == l * (y * s + x * t);
  }

  lemma LcmCombination(a: int, b: int, g: nat, l: int, m: int, s: int, t: int, x: int, y: int)
    requires g == a * s + b * t && g > 0 && g * l == a * b && m == a * x && m == b * y
    ensures m == l * (y * s + x * t)
  {
  }

  /** In machine arithmetic the result is right exactly when the product of the two numbers fits. */
  lemma LcmExactIffProductFits(a: nat, b: nat)
    requires a > 0 && b > 0
    ensures Gcd(a, b) > 0
    ensures Lcm(a, b) * Gcd(a, b) == a * b <==> a * b < U64
  {
    GcdDivides(a, b);
    var g := Gcd(a, b);
    var x: int :| a == g * x;
    Assoc(g, x, b);
    if a * b < U64 {
      ExactQuotient(a * b, g, x * b);
    } else {
      var w := Wrap(a * b);
      FloorMul(w, g);
    }
  }

  // ---------------------------------------------------------- namespace sizes

  const MIB: nat := 1024 * 1024

  /** The part of a region that decides about sizes. */
  datatype Region = Region(interleave: nat, fsdaxAlign: nat, rawAlign: nat)

  function RegionAlign(r: Region): nat
  {
    if r.rawAlign <= 1 then 96 * MIB else r.rawAlign
  }

  function NamespaceAlign(r: Region): nat
  {
    Wrap(r.fsdaxAlign * r.interleave)
  }

  /** No product of alignments exceeds 64 bits, and the hardware reports positive values. */
  predicate Ordinary(r: Region)
  {
    && r.interleave > 0 && r.fsdaxAlign > 0
    && r.fsdaxAlign * r.interleave < U64
    && r.fsdaxAlign * r.interleave * RegionAlign(r) < U64
  }

  function CalculateAlignment(r: Region): nat
    requires Gcd(NamespaceAlign(r), RegionAlign(r)) > 0
  {
    Lcm(NamespaceAlign(r), RegionAlign(r))
  }

  /** A size satisfies both alignments of the region, where one that is not reported counts as 96 MiB. */
  ghost predicate Aligned(r: Region, size: int)
  {
    Divides(r.fsdaxAlign * r.interleave, size) && Divides(if r.rawAlign <= 1 then 0x600_0000 else r.rawAlign, size)
  }

  /** The alignment is the least positive size that satisfies both; a size satisfies both iff it is a multiple of it. */
  lemma AlignmentIsLeast(r: Region, size: nat)
    requires Ordinary(r)
    ensures Gcd(NamespaceAlign(r), RegionAlign(r)) > 0 && CalculateAlignment(r) > 0
    ensures Aligned(r, CalculateAlignment(r))
    ensures Aligned(r, size) <==> Divides(CalculateAlignment(r), size)
    ensures Aligned(r, size) && size > 0 ==> CalculateAlignment(r) <= size
  {
    var n := r.fsdaxAlign * r.interleave;
    PositiveProduct(r.fsdaxAlign, r.interleave);
    LcmIsLeast(n, RegionAlign(r), size);
    var l := Lcm(n, RegionAlign(r));
    if Divides(l, size) {
      DividesTransitive(n, l, size);
      DividesTransitive(RegionAlign(r), l, size);
    }
  }

  lemma PositiveProduct(a: nat, b: nat)
    requires a > 0 && b > 0
    ensures a * b > 0
  {
  }

  lemma DividesTransitive(a: int, b: int, c: int)
    requires Divides(a, b) && Divides(b, c)
    ensures Divides(a, c)
  {
    var k: int :| c == b * k;
    DividesScaled(a, b, k);
  }

  /** The size rounded up to the alignment, at least one unit of it, without regard to the width of integers. */
  function Up(size: nat, align: nat): nat
    requires align > 0
  {
    if size == 0 || size % align != 0 then (size / align + 1) * align else size
  }

  /** The rounding in CreateNamespace, in machine arithmetic. */
  function RoundUp(size: nat, align: nat): nat
    requires align > 0
  {
    Wrap(Up(size, align))
  }

  lemma MulMono(a: nat, m: int, n: int)
    requires m <= n
    ensures a * m <= a * n
  {
  }

  lemma UpCovers(size: nat, align: nat)
    requires align > 0
    ensures 0 < Up(size, align) && size <= Up(size, align) <= size + align && Divides(align, Up(size, align))
    ensures size > 0 ==> Up(size, align) < size + align
  {
    FloorMul(size, align);
    var q := size / align;
    Distrib(align, q, 1);
    if size == 0 || size % align != 0 {
      assert Up(size, align) == align * (q + 1);
    } else {
      assert Up(size, align) == align * q;
    }
  }

  /** Rounding up gives the least positive multiple of the alignment that covers the request. */
  lemma UpIsLeast(size: nat, align: nat, other: nat)
    requires align > 0 && Divides(align, other) && other > 0 && size <= other
    ensures Up(size, align) <= other
  {
    var k: int :| other == align * k;
    FloorMul(size, align);
    var q := size / align;
    PositiveFactors(align, k);
    if size == 0 || size % align != 0 {
      if k <= q { MulMono(align, k, q); }
      MulMono(align, q + 1, k);
    }
  }

  /** The size that CreateNamespace chooses is the least positive one that meets both alignments and the request. */
  lemma NamespaceSizeIsLeast(r: Region, size: nat, other: nat)
    requires Ordinary(r)
    ensures Gcd(NamespaceAlign(r), RegionAlign(r)) > 0 && CalculateAlignment(r) > 0
    ensures var chosen := Up(size, CalculateAlignment(r));
            && 0 < chosen && size <= chosen && Aligned(r, chosen)
            && (Aligned(r, other) && other > 0 && size <= other ==> chosen <= other)
            && (RoundUp(size, CalculateAlignment(r)) == chosen <==> chosen < U64)
  {
    AlignmentIsLeast(r, other);
    var a := CalculateAlignment(r);
    UpCovers(size, a);
    AlignmentIsLeast(r, Up(size, a));
    if Aligned(r, other) && other > 0 && size <= other { UpIsLeast(size, a, other); }
  }
}

