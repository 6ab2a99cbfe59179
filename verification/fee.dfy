/**
 The fee paid with every chunk write. `request` computes it on the effective size
 `fileSize / n` with floating-point division; here the size stays an exact pair
 (file size, divisor n) and the fee is an integer quotient.
 */
module Fee {
  import opened Arith

  /** Effective sizes up to 24 KiB minus 326 bytes are written free. */
  const FreeCeiling: nat := 24 * 1024 - 326
  /** Bytes added to the size before it is divided into fee units. */
  const Overhead: nat := 326
  /** One fee unit per 24 KiB. */
  const FeeUnit: nat := 1024 * 24
  /** `parseEther` scales a whole number of ether to wei. */
  const WeiPerEther: nat := 1_000_000_000_000_000_000

  lemma DivMono(a: nat, b: nat, d: nat)
    requires d > 0 && a <= b
    ensures a / d <= b / d
  {
    DivBounds(a, d);
    DivBounds(b, d);
    if a / d > b / d {
      assert (b / d + 1) * d <= (a / d) * d by {
        MulLe(b / d + 1, a / d, d);
      }
      assert false;
    }
  }

  /**
   The fee, in whole ether, for a chunk of an upload of `fileSize` bytes split
   `divisor` ways: free up to the ceiling, then one unit per started 24 KiB of
   effective size plus overhead, rounded down.
   */
  function ChunkCost(fileSize: nat, divisor: nat): (cost: nat)
    requires divisor >= 1
    ensures cost == 0 <==> fileSize <= FreeCeiling * divisor
  {
    if fileSize > FreeCeiling * divisor then
      var n := fileSize + Overhead * divisor;
      var d := FeeUnit * divisor;
      DivBounds(n, d);
      n / d
    else
      0
  }

  /**
   Above the ceiling the fee is the number of whole fee units in the effective
   size plus overhead: cost <= (size / divisor + 326) / 24576 < cost + 1.
   */
  lemma ChunkCostIsFloor(fileSize: nat, divisor: nat)
    requires divisor >= 1 && fileSize > FreeCeiling * divisor
    ensures var cost := ChunkCost(fileSize, divisor);
      cost * (FeeUnit * divisor) <= fileSize + Overhead * divisor < (cost + 1) * (FeeUnit * divisor)
  {
    DivBounds(fileSize + Overhead * divisor, FeeUnit * divisor);
  }

  /**
   The fee as `request` writes it, on an exact real effective size:
   0 up to the ceiling, else floor((size + 326) / 1024 / 24).
   */
  function RealCost(size: real): (cost: int)
    ensures cost == 0 <==> size <= FreeCeiling as real
    ensures size > FreeCeiling as real ==>
      cost >= 1 && cost as real <= (size + 326.0) / 24576.0 < cost as real + 1.0
  {
    if size > FreeCeiling as real then ((size + 326.0) / 1024.0 / 24.0).Floor else 0
  }

  lemma RealMulLe(a: real, b: real, p: real)
    requires p >= 0.0 && a <= b
    ensures a * p <= b * p
  {
  }

  /** A positive factor can be cancelled from both sides of a comparison. */
  lemma RealCancel(a: real, b: real, p: real)
    requires p > 0.0
    ensures a * p < b * p ==> a < b
    ensures a * p == b * p ==> a == b
  {
    if a * p < b * p && a >= b {
      RealMulLe(b, a, p);
    }
  }

  /** Casting to real commutes with multiplication. */
  lemma CastMul(a: int, b: int)
    ensures (a as real) * (b as real) == (a * b) as real
  {
  }

  lemma RealMulLt(a: real, b: real, p: real)
    requires p > 0.0 && a < b
    ensures a * p < b * p
  {
    assert (b - a) * p > 0.0;
    assert b * p - a * p == (b - a) * p;
  }

  /** Comparing a quotient x / d with y is comparing x with y * d. */
  lemma QuotientCompare(x: real, y: real, d: real)
    requires d > 0.0
    ensures y < x / d <==> y * d < x
    ensures x / d < y <==> x < y * d
  {
    var q := x / d;
    assert q * d == x;
    RealCancel(y, q, d);
    RealCancel(q, y, d);
    if y < q {
      RealMulLt(y, q, d);
    } else if q < y {
      RealMulLt(q, y, d);
    }
  }

  /** The floor of an exact quotient is the integer quotient. */
  lemma FloorOfQuotient(n: nat, d: nat)
    requires d > 0
    ensures (n as real / d as real).Floor == n / d
  {
    var c := n / d;
    DivBounds(n, d);
    CastMul(c, d);
    CastMul(c + 1, d);
    // c * d <= n < (c + 1) * d, so c <= n / d < c + 1
    QuotientCompare(n as real, c as real, d as real);
    QuotientCompare(n as real, (c + 1) as real, d as real);
  }

  /** floor((size / divisor + 326) / 1024 / 24) is one exact quotient. */
  lemma EffectiveQuotient(fileSize: nat, divisor: nat)
    requires divisor >= 1
    ensures (fileSize as real / divisor as real + 326.0) / 1024.0 / 24.0
         == (fileSize + Overhead * divisor) as real / (FeeUnit * divisor) as real
  {
    var d := divisor as real;
    var s := fileSize as real / d;
    assert s * d == fileSize as real;
    var left := (s + 326.0) / 1024.0 / 24.0;
    assert left * 24576.0 == s + 326.0;
    var num := (fileSize + Overhead * divisor) as real;
    var den := (FeeUnit * divisor) as real;
    assert den == 24576.0 * d;
    assert num == (s + 326.0) * d;
    var right := num / den;
    assert right * den == num;
    assert (right * 24576.0) * d == (left * 24576.0) * d;
    RealCancel(right * 24576.0, left * 24576.0, d);
  }

  /** The integer test against the ceiling is the real test on size / divisor. */
  lemma AboveCeiling(fileSize: nat, divisor: nat)
    requires divisor >= 1
    ensures fileSize > FreeCeiling * divisor <==> fileSize as real / divisor as real > FreeCeiling as real
  {
    CastMul(FreeCeiling, divisor);
    QuotientCompare(fileSize as real, FreeCeiling as real, divisor as real);
  }

  /** The integer reformulation agrees with the real formula on size / divisor. */
  lemma CostMatchesRealFormula(fileSize: nat, divisor: nat)
    requires divisor >= 1
    ensures ChunkCost(fileSize, divisor) == RealCost(fileSize as real / divisor as real)
  {
    AboveCeiling(fileSize, divisor);
    if fileSize > FreeCeiling * divisor {
      EffectiveQuotient(fileSize, divisor);
      FloorOfQuotient(fileSize + Overhead * divisor, FeeUnit * divisor);
    }
  }

  /** A larger upload never pays less per chunk for the same divisor. */
  lemma CostMonotone(a: nat, b: nat, divisor: nat)
    requires divisor >= 1 && a <= b
    ensures ChunkCost(a, divisor) <= ChunkCost(b, divisor)
  {
    if a > FreeCeiling * divisor {
      DivMono(a + Overhead * divisor, b + Overhead * divisor, FeeUnit * divisor);
    }
  }

  /** The real formula is a non-decreasing step function of the effective size. */
  lemma RealCostMonotone(s1: real, s2: real)
    requires s1 <= s2
    ensures 0 <= RealCost(s1) <= RealCost(s2)
  {
  }

  /** Comparing effective sizes compares fees, whatever the two divisors are. */
  lemma CostMonotoneInEffectiveSize(a: nat, d1: nat, b: nat, d2: nat)
    requires d1 >= 1 && d2 >= 1
    requires a as real / d1 as real <= b as real / d2 as real
    ensures ChunkCost(a, d1) <= ChunkCost(b, d2)
  {
    CostMatchesRealFormula(a, d1);
    CostMatchesRealFormula(b, d2);
    RealCostMonotone(a as real / d1 as real, b as real / d2 as real);
  }

  /** The value sent with a write: the whole-ether fee expressed in wei. */
  function WeiValue(cost: nat): (wei: nat)
    ensures wei % WeiPerEther == 0 && wei / WeiPerEther == cost
  {
    cost * WeiPerEther
  }
}
