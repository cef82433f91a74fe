/** The integer part of variant 2's square root (`cryptonight/src/hash_v2.rs`). */
module IntegerMath {

  const U32: nat := 0x1_0000_0000
  const U64: nat := 0x1_0000_0000_0000_0000

  type u64 = x: nat | x < U64

  function WrappingAdd64(a: u64, b: u64): u64 {
    if a + b < U64 then a + b else a + b - U64
  }

  function WrappingSub64(a: u64, b: u64): u64 {
    if a >= b then a - b else a - b + U64
  }

  /** What a 64-bit multiplication or shift keeps of its exact result. */
  function Truncate(x: nat): u64 {
    x % U64
  }

  // ----- The square root -----

  /**
    `r = floor(2 * sqrt(2^64 + n) - 2^33)`: the largest `r` with `(r + 2^33)^2 <= 4 * (2^64 + n)`,
    where `(r + 2^33)^2 == r * r + 2^34 * r + 2^66`.
  */
  predicate IsRoot(n: nat, r: nat) {
    Square(r) <= 4 * n < Square(r + 1)
  }

  /** `(r + 2^33)^2 - 2^66`. */
  function Square(r: nat): nat {
    r * r + 0x4_0000_0000 * r
  }

  /** The fix-up of lines 68-83, given the floating-point estimate `c`. */
  function FixUp(n: u64, c: u64): u64 {
    var half, lsb := c / 2, c % 2;
    var r2 := WrappingAdd64(Truncate(half * (half + lsb)), Truncate(c * U32));
    var lowered := if WrappingAdd64(r2, lsb) > n then WrappingSub64(c, 1) else c;
    if WrappingAdd64(r2, U32) < WrappingSub64(n, half) then WrappingAdd64(lowered, 1) else lowered
  }

  /** The same computation over the integers, without any wrapping. */
  function PlainFixUp(n: nat, c: nat): int {
    var half, lsb := c / 2, c % 2;
    var r2 := half * (half + lsb) + c * U32;
    c - (if r2 + lsb > n then 1 else 0) + (if r2 + U32 < n - half then 1 else 0)
  }

  const MAX_ESTIMATE: nat := 3_558_067_407

  lemma SquareGrows(a: nat, b: nat)
    requires a < b
    ensures Square(a) < Square(b)
  {
    assert a * a <= a * b;
    assert a * b <= b * b;
  }

  lemma RootUnique(n: nat, r: nat, s: nat)
    requires IsRoot(n, r) && IsRoot(n, s)
    ensures r == s
  {
    if r < s && r + 1 < s { SquareGrows(r + 1, s); }
    if s < r && s + 1 < r { SquareGrows(s + 1, r); }
  }

  /** `r2` is a quarter of the square of the estimate, rounded down. */
  lemma QuarterSquare(c: nat)
    ensures var half, lsb := c / 2, c % 2;
            4 * (half * (half + lsb) + c * U32) + lsb == Square(c)
  {
    var half, lsb := c / 2, c % 2;
    if lsb == 0 {
      assert c == 2 * half && c * c == 4 * (half * half);
    } else {
      assert c == 2 * half + 1 && c * c == 4 * (half * (half + 1)) + 1;
    }
  }

  /** Each test compares `4 * n` with the square of the estimate or of its successor. */
  lemma TestsAreExact(n: nat, c: nat)
    ensures var half, lsb := c / 2, c % 2;
            var r2 := half * (half + lsb) + c * U32;
            && (r2 + lsb > n <==> Square(c) > 4 * n)
            && (r2 + U32 < n - half <==> Square(c + 1) <= 4 * n)
  {
    QuarterSquare(c);
    assert Square(c + 1) == Square(c) + 2 * c + 1 + 0x4_0000_0000;
  }

  /** Over the integers the fix-up is right exactly for estimates within one of the root. */
  lemma PlainFixUpExactly(n: nat, c: nat, r: nat)
    requires IsRoot(n, r)
    ensures PlainFixUp(n, c) == r <==> r - 1 <= c <= r + 1
  {
    TestsAreExact(n, c);
    if c < r { SquareGrows(c, r); if c + 1 < r { SquareGrows(c + 1, r); } }
    if c > r { if c > r + 1 { SquareGrows(r + 1, c); } SquareGrows(r + 1, c + 1); }
  }

  /** No operation wraps for an admissible estimate within one of the root. */
  lemma NothingWraps(n: u64, c: nat, r: nat)
    requires IsRoot(n, r) && r - 1 <= c <= r + 1 && c <= MAX_ESTIMATE
    ensures c < U64
    ensures var half, lsb := c / 2, c % 2;
            var r2 := half * (half + lsb) + c * U32;
            && half * (half + lsb) < U64 && c * U32 < U64
            && r2 + lsb < U64 && r2 + U32 < U64
            && half <= n
            && (r2 + lsb > n ==> c >= 1)
  {
    var half, lsb := c / 2, c % 2;
    var r2 := half * (half + lsb) + c * U32;
    QuarterSquare(c);
    if c < MAX_ESTIMATE { SquareGrows(c, MAX_ESTIMATE); }
    assert Square(MAX_ESTIMATE) < 4 * (U64 - U32);
    assert 0x4_0000_0000 * r <= 4 * n;
  }

  lemma FixUpIsRoot(n: u64, c: u64, r: nat)
    requires IsRoot(n, r) && r - 1 <= c <= r + 1 && c <= MAX_ESTIMATE
    ensures FixUp(n, c) == r
  {
    NothingWraps(n, c, r);
    PlainFixUpExactly(n, c, r);
    TruncateSmall(c / 2 * (c / 2 + c % 2));
    TruncateSmall(c * U32);
  }

  /** Every 64-bit input has a root, and it is an admissible estimate. */
  lemma RootExists(n: u64) returns (r: nat)
    ensures IsRoot(n, r) && r <= MAX_ESTIMATE
  {
    r := 0;
    while Square(r + 1) <= 4 * n
      invariant Square(r) <= 4 * n
      invariant r <= MAX_ESTIMATE
      decreases MAX_ESTIMATE - r
    {
      assert r < MAX_ESTIMATE;
      r := r + 1;
    }
  }

  /** The fix-up moves an estimate by at most one, so it cannot repair one that is further off. */
  lemma FarEstimateFails(n: u64, c: u64, r: nat)
    requires r <= MAX_ESTIMATE && !(r - 1 <= c <= r + 1)
    ensures FixUp(n, c) == r ==> r == 0 && c == U64 - 1
  {}

  /** At the top of the range the square wraps and the estimate stays where it is. */
  lemma TopEstimateFails(n: u64)
    ensures IsRoot(n, 0) ==> FixUp(n, U64 - 1) != 0
  {
    var c := U64 - 1;
    assert c / 2 == 0x7FFF_FFFF_FFFF_FFFF && c % 2 == 1;
    assert (c / 2) * (c / 2 + 1) == 0x3FFF_FFFF_FFFF_FFFF * U64 + 0x8000_0000_0000_0000;
    assert c * U32 == 0xFFFF_FFFF * U64 + 0xFFFF_FFFF_0000_0000;
  }

  /** One above the largest admissible estimate the square wraps, and the correction goes the wrong way. */
  lemma LargeEstimateFails(n: u64, r: nat)
    requires IsRoot(n, r) && r == MAX_ESTIMATE
    ensures FixUp(n, MAX_ESTIMATE + 1) != r
  {}

  /**
    For every input and every 64-bit estimate, the wrapping fix-up returns the root exactly when the
    estimate is within one of it and is at most 3558067407.
  */
  lemma FixUpExactly(n: u64, c: u64, r: nat)
    requires IsRoot(n, r)
    ensures FixUp(n, c) == r <==> r - 1 <= c <= r + 1 && c <= MAX_ESTIMATE
  {
    var s := RootExists(n);
    RootUnique(n, r, s);
    if !(r - 1 <= c <= r + 1) {
      FarEstimateFails(n, c, r);
      TopEstimateFails(n);
    } else if c <= MAX_ESTIMATE {
      FixUpIsRoot(n, c, r);
    } else {
      LargeEstimateFails(n, r);
    }
  }

  /** The fix-up as the source performs it, on a local variable. */
  method Sqrt(sqrtInput: u64, estimate: u64, ghost root: nat) returns (sqrtResult: u64)
    requires IsRoot(sqrtInput, root)
    ensures sqrtResult == FixUp(sqrtInput, estimate)
    ensures sqrtResult == root <==> root - 1 <= estimate <= root + 1 && estimate <= MAX_ESTIMATE
  {
    sqrtResult := estimate;
    var sqrtDiv2, lsb := sqrtResult / 2, sqrtResult % 2;
    var r2 := WrappingAdd64(Truncate(sqrtDiv2 * (sqrtDiv2 + lsb)), Truncate(sqrtResult * U32));
    if WrappingAdd64(r2, lsb) > sqrtInput {
      sqrtResult := WrappingSub64(sqrtResult, 1);
    }
    if WrappingAdd64(r2, U32) < WrappingSub64(sqrtInput, sqrtDiv2) {
      sqrtResult := WrappingAdd64(sqrtResult, 1);
    }
    FixUpExactly(sqrtInput, estimate, root);
  }

  lemma TruncateSmall(x: nat)
    requires x < U64
    ensures Truncate(x) == x
  {}
}
