/**
 * The Fletcher-64 checksum of the kernel's namespace info blocks.
 */
module Fletcher {
  const M: nat := 0x1_0000_0000
  const M2: nat := 0x1_0000_0000_0000_0000

  type Word = n: int | 0 <= n < 0x1_0000_0000

  /** The plain sum of the first k words. */
  function Sum(w: seq<Word>, k: nat): nat
    requires k <= |w|
  {
    if k == 0 then 0 else Sum(w, k - 1) + w[k - 1]
  }

  /** The sum of the first k words where word i has weight n - i. */
  function Weighted(w: seq<Word>, n: int, k: nat): int
    requires k <= |w|
  {
    if k == 0 then 0 else Weighted(w, n, k - 1) + (n - (k - 1)) * w[k - 1]
  }

  /** The upper half holds the weighted sum, the lower half the plain sum, both modulo 2^32. */
  function Checksum(w: seq<Word>): nat
  {
    Weighted(w, |w|, |w|) % M * M + Sum(w, |w|) % M
  }

  lemma {:induction false} WeightShift(w: seq<Word>, n: int, k: nat)
    requires k <= |w|
    ensures Weighted(w, n + 1, k) == Weighted(w, n, k) + Sum(w, k)
  {
    if k > 0 {
      WeightShift(w, n, k - 1);
      assert (n + 1 - (k - 1)) * w[k - 1] == (n - (k - 1)) * w[k - 1] + w[k - 1];
    }
  }

  /** Adding in machine arithmetic of 32 or 64 bits does not disturb the value modulo 2^32. */
  lemma ModAdd(a: int, b: int, c: int)
    requires a % 0x1_0000_0000 == b % 0x1_0000_0000
    ensures (a + c) % 0x1_0000_0000 == (b + c) % 0x1_0000_0000
  {
  }

  lemma ModModAdd(a: int, c: int)
    ensures (a + c % 0x1_0000_0000) % 0x1_0000_0000 == (a + c) % 0x1_0000_0000
  {
  }

  lemma ModOfWrap(a: nat)
    ensures a % 0x1_0000_0000_0000_0000 % 0x1_0000_0000 == a % 0x1_0000_0000
  {
  }

  /** nd_fletcher64: the accumulator loop computes the closed form. */
  method Fletcher64(w: seq<Word>) returns (c: nat)
    ensures c == Checksum(w) < M2
  {
    var lo32: nat, hi32: nat := 0, 0;
    for i := 0 to |w|
      invariant lo32 == Sum(w, i) % M
      invariant hi32 < M2 && hi32 % M == Weighted(w, i, i) % M
    {
      WeightShift(w, i, i);
      var sum := Sum(w, i + 1);
      assert Weighted(w, i + 1, i + 1) == Weighted(w, i, i) + sum;
      ModModAdd(w[i], Sum(w, i));
      lo32 := (lo32 + w[i]) % M;
      assert lo32 == sum % M;
      ModAdd(hi32, Weighted(w, i, i), lo32);
      ModModAdd(Weighted(w, i, i), sum);
      ModOfWrap(hi32 + lo32);
      hi32 := (hi32 + lo32) % M2;
    }
    // The shift drops the upper half of the 64-bit accumulator.
    c := hi32 % M * M + lo32;
  }

  lemma SameHalves(w: seq<Word>, v: seq<Word>)
    ensures Checksum(w) == Checksum(v) <==>
            Weighted(w, |w|, |w|) % M == Weighted(v, |v|, |v|) % M && Sum(w, |w|) % M == Sum(v, |v|) % M
  {
  }

  lemma {:induction false} SumOfPrefix(w: seq<Word>, x: Word, k: nat)
    requires k <= |w|
    ensures Sum(w + [x], k) == Sum(w, k)
  {
    if k > 0 { SumOfPrefix(w, x, k - 1); }
  }

  lemma {:induction false} WeightedOfPrefix(w: seq<Word>, x: Word, n: int, k: nat)
    requires k <= |w|
    ensures Weighted(w + [x], n, k) == Weighted(w, n, k)
  {
    if k > 0 { WeightedOfPrefix(w, x, n, k - 1); }
  }

  /**
   * What the kernel defines: the checksum of nothing is zero, and one more word is added to the lower half, whose new
   * value is then added to the upper half, each modulo 2^32.
   */
  lemma ChecksumIsFletcher(w: seq<Word>, x: Word)
    ensures Checksum([]) == 0
    ensures var (c, d) := (Checksum(w), Checksum(w + [x]));
            d % 0x1_0000_0000 == (c % 0x1_0000_0000 + x) % 0x1_0000_0000
            && d / 0x1_0000_0000 == (c / 0x1_0000_0000 + d % 0x1_0000_0000) % 0x1_0000_0000
  {
    var n := |w|;
    var v := w + [x];
    SumOfPrefix(w, x, n);
    WeightedOfPrefix(w, x, n + 1, n);
    WeightShift(w, n, n);
    Halves(Weighted(w, n, n), Sum(w, n));
    Halves(Weighted(v, n + 1, n + 1), Sum(v, n + 1));
    assert Sum(v, n + 1) == Sum(w, n) + x;
    assert Weighted(v, n + 1, n + 1) == Weighted(w, n, n) + Sum(v, n + 1);
    ModModAdd(x, Sum(w, n));
    Both(Weighted(w, n, n), Sum(v, n + 1));
  }

  lemma Halves(hi: int, lo: int)
    ensures (hi % M * M + lo % M) / 0x1_0000_0000 == hi % 0x1_0000_0000
    ensures (hi % M * M + lo % M) % 0x1_0000_0000 == lo % 0x1_0000_0000
  {
  }

  lemma Both(a: int, b: int)
    ensures (a % 0x1_0000_0000 + b % 0x1_0000_0000) % 0x1_0000_0000 == (a + b) % 0x1_0000_0000
  {
  }

  lemma {:induction false} SumUpdated(w: seq<Word>, i: nat, x: Word, k: nat)
    requires i < |w| && k <= |w|
    ensures Sum(w[i := x], k) == Sum(w, k) + if i < k then x - w[i] else 0
  {
    if k > 0 { SumUpdated(w, i, x, k - 1); }
  }

  lemma {:induction false} WeightedUpdated(w: seq<Word>, i: nat, x: Word, n: int, k: nat)
    requires i < |w| && k <= |w|
    ensures Weighted(w[i := x], n, k) == Weighted(w, n, k) + if i < k then (n - i) * (x - w[i]) else 0
  {
    if k > 0 {
      WeightedUpdated(w, i, x, n, k - 1);
      if i == k - 1 {
        assert (n - i) * x == (n - i) * w[i] + (n - i) * (x - w[i]);
      }
    }
  }

  lemma Congruent(a: int, b: int)
    ensures a % 0x1_0000_0000 == b % 0x1_0000_0000 <==> (a - b) % 0x1_0000_0000 == 0
  {
  }

  /** Every change of a single word is detected. */
  lemma SingleWordChangeIsDetected(w: seq<Word>, i: nat, x: Word)
    requires i < |w| && x != w[i]
    ensures Checksum(w[i := x]) != Checksum(w)
  {
    SumUpdated(w, i, x, |w|);
    SameHalves(w[i := x], w);
    Congruent(Sum(w[i := x], |w|), Sum(w, |w|));
  }

  function Swapped(w: seq<Word>, i: nat, j: nat): seq<Word>
    requires i < j < |w|
  {
    w[i := w[j]][j := w[i]]
  }

  /** Exchanging two words is missed if and only if their distance times their difference vanishes modulo 2^32. */
  lemma SwapIsMissedIff(w: seq<Word>, i: nat, j: nat)
    requires i < j < |w|
    ensures Checksum(Swapped(w, i, j)) == Checksum(w) <==> ((j - i) * (w[j] as int - w[i])) % M == 0
  {
    var n := |w|;
    var one := w[i := w[j]];
    SumUpdated(w, i, w[j], n);
    SumUpdated(one, j, w[i], n);
    WeightedUpdated(w, i, w[j], n, n);
    WeightedUpdated(one, j, w[i], n, n);
    var d := w[j] as int - w[i];
    assert one[j] == w[j];
    assert (n - i) * d + (n - j) * (w[i] as int - w[j]) == (j - i) * d by { SwapAlgebra(n, i, j, d); }
    var v := Swapped(w, i, j);
    assert Weighted(v, n, n) == Weighted(w, n, n) + (j - i) * d;
    SameHalves(v, w);
    Congruent(Weighted(v, n, n), Weighted(w, n, n));
  }

  lemma SwapAlgebra(n: int, i: int, j: int, d: int)
    ensures (n - i) * d + (n - j) * -d == (j - i) * d
  {
  }

  /** So exchanging two different words next to each other is always detected. */
  lemma AdjacentSwapIsDetected(w: seq<Word>, i: nat)
    requires i + 1 < |w| && w[i] != w[i + 1]
    ensures Checksum(Swapped(w, i, i + 1)) != Checksum(w)
  {
    SwapIsMissedIff(w, i, i + 1);
    var d := w[i + 1] as int - w[i];
    assert (i + 1 - i) * d == d;
    Congruent(w[i + 1], w[i]);
  }

  /** But within an info block of 1024 words there are exchanges that no checksum notices. */
  lemma DistantSwapIsMissed(w: seq<Word>, i: nat)
    requires i + 512 < |w| && w[i + 512] as int == w[i] as int + 0x80_0000
    ensures Checksum(Swapped(w, i, i + 512)) == Checksum(w)
  {
    SwapIsMissedIff(w, i, i + 512);
  }
}

