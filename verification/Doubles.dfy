/** Rounding to double precision on whole numbers, and the share of a disk the config script computes with it. */
module Doubles {

  function Pow2(k: nat): (p: nat)
    ensures p > 0
  {
    if k == 0 then 1 else 2 * Pow2(k - 1)
  }

  /** The number of binary digits. */
  function Bits(n: nat): nat {
    if n == 0 then 0 else 1 + Bits(n / 2)
  }

  const PRECISION: nat := 53

  /** The distance of neighbouring doubles around n, which have 53 binary digits. */
  function Ulp(n: nat): (u: nat)
    ensures u > 0
  {
    if Bits(n) <= PRECISION then 1 else Pow2(Bits(n) - PRECISION)
  }

  /** The multiple of u nearest to n; of two equally near ones the even one. */
  function RoundTo(n: nat, u: nat): (m: nat)
    requires u > 0
  {
    var q, r := n / u, n % u;
    if 2 * r < u || (2 * r == u && q % 2 == 0) then Times(q, u) else Times(q + 1, u)
  }

  function Times(a: nat, b: nat): nat {
    a * b
  }

  /** The double nearest to n, ties to an even significand. */
  function Nearest(n: nat): nat {
    RoundTo(n, Ulp(n))
  }

  /** The significand of the double nearest to 0.8, whose exponent is -52. */
  const FOUR_FIFTHS: nat := 3602879701896397
  const TWO_82: nat := 0x4_0000_0000_0000_0000_0000

  /**
   * int(total / 2**30 * 0.8): division by a power of two only rounds `total`, and the product is
   * rounded again. All numbers are scaled by 2^82, which does not change any rounding.
   */
  function ShareInGiB(total: nat): nat {
    Nearest(Nearest(total) * FOUR_FIFTHS) / TWO_82
  }

  lemma {:induction false} PowSum(j: nat, k: nat)
    ensures Pow2(j + k) == Pow2(j) * Pow2(k)
  {
    if j > 0 {
      PowSum(j - 1, k);
      assert Pow2(j + k) == 2 * Pow2(j - 1 + k);
    }
  }

  lemma {:induction false} PowGrows(j: nat, k: nat)
    requires j <= k
    ensures Pow2(j) <= Pow2(k)
  {
    if j < k {
      PowGrows(j, k - 1);
    }
  }

  lemma {:induction false} BitsBound(n: nat)
    ensures n < Pow2(Bits(n)) && (if n == 0 then Bits(n) == 0 else Bits(n) > 0 && Pow2(Bits(n) - 1) <= n)
  {
    if n > 0 {
      BitsBound(n / 2);
      assert n / 2 == 0 ==> Bits(n / 2) == 0;
    }
  }

  /** The bounds determine the number of digits. */
  lemma BitsAre(n: nat, k: nat)
    requires k > 0 && Pow2(k - 1) <= n < Pow2(k)
    ensures Bits(n) == k
  {
    BitsBound(n);
    if Bits(n) < k {
      PowGrows(Bits(n), k - 1);
    }
    if Bits(n) > k {
      PowGrows(k, Bits(n) - 1);
    }
    hide Pow2, Bits;
  }

  lemma SmallIsExact(n: nat)
    requires n < Pow2(PRECISION)
    ensures Nearest(n) == n
  {
    hide Pow2, Bits;
    BitsBound(n);
    if Bits(n) > PRECISION {
      PowGrows(PRECISION, Bits(n) - 1);
    }
    assert n / 1 == n && n % 1 == 0;
  }

  /** Rounding moves n by at most half of u. */
  lemma RoundToIsNear(n: nat, u: nat)
    requires u > 0
    ensures var m := RoundTo(n, u); 2 * n <= 2 * m + u && 2 * m <= 2 * n + u && m >= Times(n / u, u)
  {
    assert n == n / u * u + n % u;
    assert (n / u + 1) * u == n / u * u + u;
  }

  /** That is at most one part in 2^53. */
  lemma NearestIsClose(n: nat)
    ensures Pow2(PRECISION) * Nearest(n) <= Pow2(PRECISION) * n + n
  {
    hide Pow2, Bits, RoundTo;
    if Bits(n) <= PRECISION {
      BitsBound(n);
      PowGrows(Bits(n), PRECISION);
      SmallIsExact(n);
    } else {
      var u, half := Ulp(n), Pow2(PRECISION - 1);
      BitsBound(n);
      PowSum(Bits(n) - PRECISION, PRECISION - 1);
      assert Bits(n) - PRECISION + (PRECISION - 1) == Bits(n) - 1;
      RoundToIsNear(n, u);
      PowSum(1, PRECISION - 1);
      assert Pow2(1) == 2 by { OneIsTwo(); }
      HalfAPart(n, Nearest(n), u, half);
    }
  }

  lemma OneIsTwo()
    ensures Pow2(1) == 2
  {
  }

  lemma HalfAPart(n: nat, m: nat, u: nat, half: nat)
    requires 2 * m <= 2 * n + u && u * half <= n
    ensures 2 * half * m <= 2 * half * n + n
  {
    assert half * (2 * m) <= half * (2 * n + u);
  }

  /** A multiple of a power of two that is no less than the distance of neighbours is not rounded past. */
  lemma MultipleIsKept(n: nat, k: nat, e: nat)
    requires k * Pow2(e) <= n && Bits(n) <= PRECISION + e
    ensures k * Pow2(e) <= Nearest(n)
  {
    hide Pow2, Bits, RoundTo;
    var u := Ulp(n);
    RoundToIsNear(n, u);
    if Bits(n) <= PRECISION {
      BitsBound(n);
      PowGrows(Bits(n), PRECISION);
      SmallIsExact(n);
    } else {
      var d := Bits(n) - PRECISION;
      PowSum(e - d, d);
      MultipleBelow(n, u, k, Pow2(e - d));
    }
  }

  lemma MultipleBelow(n: nat, u: nat, k: nat, w: nat)
    requires u > 0 && k * (w * u) <= n
    ensures k * (w * u) <= Times(n / u, u)
  {
    var q, r, j := n / u, n % u, k * w;
    assert n == q * u + r && j * u == k * (w * u);
    if j > q {
      Scaled(q + 1, j, u);
    } else {
      Scaled(j, q, u);
    }
  }

  lemma Scaled(a: nat, b: nat, u: nat)
    requires a <= b
    ensures a * u <= b * u
  {
  }

  // The share of a disk

  /** Four fifths in whole GiB, by integer arithmetic. */
  function WholeShare(total: nat): nat {
    total * 4 / (5 * 1024 * 1024 * 1024)
  }

  function Remainder(total: nat): (r: nat)
    ensures total * 4 == 5368709120 * WholeShare(total) + r && r <= 5368709119
  {
    total * 4 % (5 * 1024 * 1024 * 1024)
  }

  const TWO_52: nat := 4503599627370496
  const TWO_53: nat := 9007199254740992

  lemma PowersAre()
    ensures Pow2(PRECISION) == TWO_53 && Pow2(82) == TWO_82
  {
    hide Pow2;
    SmallPowers();
    PowSum(26, 26);
    PowSum(1, 52);
    PowSum(29, 53);
  }

  lemma SmallPowers()
    ensures Pow2(1) == 2 && Pow2(26) == 67108864 && Pow2(29) == 536870912
  {
    assert Pow2(8) == 256;
    assert Pow2(16) == 65536;
    assert Pow2(24) == 16777216;
  }

  /** The exact product, between n and n + 1 times 2^82 with room for its rounding. */
  lemma ProductBounds(total: nat, n: nat, r: nat, p: nat)
    requires total * 4 == 5368709120 * n + r && r <= 5368709119 && total <= 1_125_899_906_842_624
    requires p == total * FOUR_FIFTHS
    ensures p < TWO_53 * TWO_82 && n * TWO_82 <= p && TWO_53 * p + p < TWO_53 * ((n + 1) * TWO_82)
  {
    assert 5 * p == TWO_52 * (total * 4) + total;
  }

  /** Up to a pebibyte the doubles give four fifths in whole GiB. */
  lemma ShareIsFourFifths(total: nat)
    requires total <= 1_125_899_906_842_624
    ensures ShareInGiB(total) == WholeShare(total)
  {
    var n, r, p := WholeShare(total), Remainder(total), total * FOUR_FIFTHS;
    hide Pow2, Bits, Nearest, WholeShare;
    PowersAre();
    SmallIsExact(total);
    ProductBounds(total, n, r, p);
    NearestIsClose(p);
    PowSum(PRECISION, 82);
    BitsAtMost(p, PRECISION + 82);
    MultipleIsKept(p, n, 82);
    QuotientIs(Nearest(p), n);
  }

  lemma BitsAtMost(n: nat, k: nat)
    requires n < Pow2(k)
    ensures Bits(n) <= k
  {
    hide Pow2, Bits;
    BitsBound(n);
    if Bits(n) > k {
      PowGrows(k, Bits(n) - 1);
    }
  }

  lemma QuotientIs(m: nat, n: nat)
    requires n * TWO_82 <= m < (n + 1) * TWO_82
    ensures m / TWO_82 == n
  {
  }

  const LARGE_DISK: nat := 7411383486382079
  const LARGE_PRODUCT: nat := 26702323126056144282320815469363

  lemma LargePowers()
    ensures Pow2(52) == TWO_52 && Pow2(104) == TWO_52 * TWO_52 && Pow2(105) == TWO_53 * TWO_52
  {
    hide Pow2;
    PowersAre();
    PowSum(52, 52);
    PowSum(53, 52);
    PowSum(1, 52);
    assert Pow2(1) == 2 by { SmallPowers(); }
  }

  lemma LargeIsRounded()
    ensures RoundTo(LARGE_PRODUCT, TWO_52) == 5929106789105664 * TWO_52
  {
    assert LARGE_PRODUCT == 5929106789105663 * TWO_52 + 2382996622750515;
    DivisionIs(LARGE_PRODUCT, TWO_52, 5929106789105663, 2382996622750515);
  }

  lemma DivisionIs(n: nat, u: nat, q: nat, r: nat)
    requires n == q * u + r && r < u
    ensures n / u == q && n % u == r
  {
    var a, b := n / u, n % u;
    assert n == a * u + b;
    if a > q {
      Scaled(q + 1, a, u);
    }
    if a < q {
      Scaled(a + 1, q, u);
    }
  }

  /** Far beyond that, on some disks, the product rounds up to the next GiB. */
  lemma LargeDiskRoundsUp()
    ensures ShareInGiB(LARGE_DISK) == 5521911 && WholeShare(LARGE_DISK) == 5521910
  {
    hide Pow2, Bits, RoundTo;
    PowersAre();
    LargePowers();
    SmallIsExact(LARGE_DISK);
    assert LARGE_DISK * FOUR_FIFTHS == LARGE_PRODUCT;
    BitsAre(LARGE_PRODUCT, 105);
    LargeIsRounded();
    assert Ulp(LARGE_PRODUCT) == TWO_52;
    assert Nearest(LARGE_PRODUCT) == 5929106789105664 * TWO_52;
    QuotientIs(Nearest(LARGE_PRODUCT), 5521911);
  }

  // Exactly which disks

  /** Whether rounding to a multiple of u reaches the multiple g * u above. */
  lemma ReachesIff(n: nat, u: nat, g: nat)
    requires u > 0 && n < Times(g, u)
    ensures RoundTo(n, u) <= Times(g, u)
    ensures var gap := 2 * (Times(g, u) - n);
      RoundTo(n, u) == Times(g, u) <==> gap < u || (gap == u && g % 2 == 0)
  {
    var q, r := n / u, n % u;
    assert n == Times(q, u) + r;
    assert Times(q + 1, u) == Times(q, u) + u;
    if q >= g {
      Scaled(g, q, u);
    } else if q + 1 < g {
      Scaled(q + 2, g, u);
      assert Times(q + 2, u) == Times(q + 1, u) + u;
    }
    hide Times;
  }

  /** What the product lacks to the next GiB, five times over, and twice the scale. */
  function GapToNext(total: nat): int {
    TWO_53 * (5368709120 - Remainder(total)) - 2 * total
  }

  function Quotient(a: nat, u: nat): nat
    requires u > 0
  {
    a / u
  }

  /**
   * The gap is at most half the distance u of neighbouring doubles; when it is exactly half, the next
   * GiB has to be an even number of them.
   */
  predicate RoundsUp(total: nat) {
    var u := Ulp(total * FOUR_FIFTHS);
    || GapToNext(total) < 5 * u
    || (GapToNext(total) == 5 * u && Quotient(Times(WholeShare(total) + 1, TWO_82), u) % 2 == 0)
  }

  lemma GapIs(total: nat, n: nat, r: nat, p: nat)
    requires total * 4 == 5368709120 * n + r && r <= 5368709119 && total < TWO_53 && p == total * FOUR_FIFTHS
    ensures n * TWO_82 <= p < TWO_53 * TWO_82
    ensures 5 * 2 * ((n + 1) * TWO_82 - p) == TWO_53 * (5368709120 - r) - 2 * total
  {
    assert 5 * p == TWO_52 * (total * 4) + total;
  }

  /** The distance of neighbours divides every whole number of GiB. */
  lemma UlpDivides(n: nat, k: nat) returns (g: nat)
    requires Bits(n) <= PRECISION + 82
    ensures Times(k, TWO_82) == Times(g, Ulp(n)) && Quotient(Times(k, TWO_82), Ulp(n)) == g
  {
    hide Pow2, Bits;
    PowersAre();
    var d := if Bits(n) <= PRECISION then 0 else Bits(n) - PRECISION;
    PowSum(82 - d, d);
    assert Ulp(n) == Pow2(d) by { PowOfNothing(); }
    g := k * Pow2(82 - d);
    Associates(k, Pow2(82 - d), Ulp(n));
    ExactQuotient(g, Ulp(n));
  }

  lemma PowOfNothing()
    ensures Pow2(0) == 1
  {
  }

  lemma Associates(a: nat, b: nat, c: nat)
    ensures a * (b * c) == (a * b) * c
  {
  }

  lemma ExactQuotient(g: nat, u: nat)
    requires u > 0
    ensures Quotient(Times(g, u), u) == g
  {
    DivisionIs(g * u, u, g, 0);
  }

  /**
   * Of a disk of less than eight pebibytes the share is four fifths in whole GiB exactly if the product
   * does not round up; if it does, it is one GiB more.
   */
  lemma ShareIsFourFifthsIff(total: nat)
    requires total < TWO_53
    ensures ShareInGiB(total) == WholeShare(total) + if RoundsUp(total) then 1 else 0
  {
    hide Pow2, Bits, RoundTo, Times, WholeShare, Quotient, Ulp;
    var n, r, p := WholeShare(total), Remainder(total), total * FOUR_FIFTHS;
    var u := Ulp(p);
    PowersAre();
    SmallIsExact(total);
    GapIs(total, n, r, p);
    PowSum(PRECISION, 82);
    BitsAtMost(p, PRECISION + 82);
    var g := UlpDivides(p, n + 1);
    TimesIs(n + 1, TWO_82);
    MultipleIsKept(p, n, 82);
    if p < (n + 1) * TWO_82 {
      ReachesIff(p, u, g);
      if RoundsUp(total) {
        QuotientIs(Nearest(p), n + 1);
      } else {
        QuotientIs(Nearest(p), n);
      }
    } else {
      MultipleIsKept(p, n + 1, 82);
      NearestIsClose(p);
      TwoFurther(total, n, r, p);
      QuotientIs(Nearest(p), n + 1);
    }
  }

  lemma TimesIs(a: nat, b: nat)
    ensures Times(a, b) == a * b
  {
  }

  lemma TwoFurther(total: nat, n: nat, r: nat, p: nat)
    requires total * 4 == 5368709120 * n + r && r <= 5368709119 && total < TWO_53 && p == total * FOUR_FIFTHS
    ensures TWO_53 * p + p < TWO_53 * ((n + 2) * TWO_82)
  {
    assert 5 * p == TWO_52 * (total * 4) + total;
  }
}
