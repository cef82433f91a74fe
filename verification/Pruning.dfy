/** Monero's pruning stripes (`pruning/src/lib.rs`): closed-form jumps against a search over heights. */
module Pruning {
  import opened Wrappers

  const STRIPE_SIZE: nat := 4096
  const TIP_BLOCKS: nat := 5500
  const MAX_BLOCK_HEIGHT: nat := 500_000_000

  datatype Error =
    | LogStripesOutOfRange
    | StripeOutOfRange
    | BlockHeightTooLarge
    | BlockChainHeightTooLarge
    | CalculatedHeightSmallerThanEnteredBlock

  datatype Result<+T> = Ok(value: T) | Err(error: Error)

  /** `1 << log`, for the eight logarithms a seed can have. */
  function Stripes(log: nat): (n: nat)
    ensures n in {1, 2, 4, 8, 16, 32, 64, 128}
    ensures log > 0 <==> n > 1
  {
    if log == 0 then 1 else if log == 1 then 2 else if log == 2 then 4 else if log == 3 then 8
    else if log == 4 then 16 else if log == 5 then 32 else if log == 6 then 64 else 128
  }

  /** A power of two: 1 at first, and doubled by every step. */
  lemma StripesDouble(log: nat)
    requires log < 7
    ensures Stripes(0) == 1 && Stripes(log + 1) == 2 * Stripes(log)
  {}

  datatype Seed = Seed(logStripes: nat, stripe: nat) {

    predicate Valid() {
      logStripes <= 7 && 1 <= stripe <= Stripes(logStripes)
    }

    predicate HasFullBlock(height: nat, chainHeight: nat) {
      match BlockStripe(height, chainHeight, logStripes)
      case Some(s) => stripe == s
      case None => true
    }
  }

  function New(stripe: nat, logStripes: nat): Result<Seed> {
    if logStripes > 7 then Err(LogStripesOutOfRange)
    else if !(stripe > 0 && stripe <= Stripes(logStripes)) then Err(StripeOutOfRange)
    else Ok(Seed(logStripes, stripe))
  }

  /** A seed comes out exactly for at most 7 log stripes and a stripe among them, and is valid. */
  lemma NewExactly(stripe: nat, logStripes: nat)
    ensures New(stripe, logStripes) == Ok(Seed(logStripes, stripe)) <==> Seed(logStripes, stripe).Valid()
    ensures New(stripe, logStripes) == Err(LogStripesOutOfRange) <==> logStripes > 7
    ensures New(stripe, logStripes) == Err(StripeOutOfRange) <==> logStripes <= 7 && !Seed(logStripes, stripe).Valid()
  {}

  /** The stripe that keeps a block, or none for the tip blocks every peer keeps. */
  function BlockStripe(height: nat, chainHeight: nat, logStripes: nat): Option<nat> {
    if height + TIP_BLOCKS >= chainHeight then None
    else Some(height / STRIPE_SIZE % Stripes(logStripes) + 1)
  }

  // ----- Compressed seeds -----

  function Compress(s: Seed): nat
    requires s.Valid()
  {
    s.logStripes * 128 + (s.stripe - 1)
  }

  function Decompress(seed: nat): Result<Option<Seed>> {
    if seed == 0 then Ok(None)
    else
      var log := seed / 128 % 8;
      var stripe := 1 + seed % 128;
      if stripe > Stripes(log) then Err(StripeOutOfRange) else Ok(Some(Seed(log, stripe)))
  }

  /** A seed survives the round trip exactly when it has two stripes or more; else its bits mean "not pruned". */
  lemma CompressThenDecompress(s: Seed)
    requires s.Valid()
    ensures Decompress(Compress(s)) == Ok(Some(s)) <==> s.logStripes >= 1
    ensures s.logStripes == 0 ==> Decompress(Compress(s)) == Ok(None)
  {
    var seed := Compress(s);
    assert seed / 128 == s.logStripes && seed % 128 == s.stripe - 1;
  }

  /** Decompression gives valid seeds only, and loses exactly the bits above the tenth. */
  lemma DecompressThenCompress(seed: nat)
    ensures Decompress(seed) == Ok(None) <==> seed == 0
    ensures Decompress(seed).Ok? && Decompress(seed).value.Some? ==>
              var s := Decompress(seed).value.value;
              s.Valid() && Compress(s) == seed % 1024
  {
    TenBits(seed, seed / 1024, seed % 1024 / 128, seed % 128);
  }

  lemma TenBits(seed: nat, above: nat, log: nat, low: nat)
    requires above == seed / 1024 && log == seed % 1024 / 128 && low == seed % 128
    ensures seed % 1024 == log * 128 + low && log <= 7
    ensures seed / 128 % 8 == log
  {
    assert seed == above * 1024 + seed % 1024;
    assert seed / 128 == above * 8 + log;
  }

  // ----- The next block a peer keeps -----

  /** The height at which the peer's stripe next starts, seen from a block of another stripe. */
  function NextStart(s: Seed, height: nat, blockStripe: nat): nat
    requires s.stripe >= 1
  {
    var n := Stripes(s.logStripes);
    var cycles := height / STRIPE_SIZE / n;
    var start := cycles + if s.stripe > blockStripe then 0 else 1;
    start * (STRIPE_SIZE * n) + (s.stripe - 1) * STRIPE_SIZE
  }

  /** The peer's stripe covers the height, tip blocks aside. */
  predicate InStripe(s: Seed, height: nat) {
    height / STRIPE_SIZE % Stripes(s.logStripes) + 1 == s.stripe
  }

  function NextUnpruned(s: Seed, height: nat, chainHeight: nat): Result<nat>
    requires s.Valid()
  {
    if height > MAX_BLOCK_HEIGHT || height > chainHeight then Err(BlockHeightTooLarge)
    else if chainHeight > MAX_BLOCK_HEIGHT then Err(BlockChainHeightTooLarge)
    else if height + TIP_BLOCKS >= chainHeight then Ok(height)
    else
      var stripe := BlockStripe(height, chainHeight, s.logStripes).value;
      if s.stripe == stripe then Ok(height)
      else
        Clamped(NextStart(s, height, stripe), height, chainHeight)
  }

  /** The last step of the jump: no further than the first tip block. */
  function Clamped(calculated: nat, height: nat, chainHeight: nat): Result<nat> {
    if calculated + TIP_BLOCKS > chainHeight then Ok(if chainHeight >= TIP_BLOCKS then chainHeight - TIP_BLOCKS else 0)
    else if calculated < height then Err(CalculatedHeightSmallerThanEnteredBlock)
    else Ok(calculated)
  }

  lemma ClampedIs(calculated: nat, height: nat, chainHeight: nat)
    requires height <= calculated && height + TIP_BLOCKS < chainHeight
    ensures Clamped(calculated, height, chainHeight) == Ok(Earlier(calculated, chainHeight - TIP_BLOCKS))
  {}

  function Earlier(a: nat, b: nat): nat {
    if a <= b then a else b
  }

  /** `x` is the least height from `height` on that the peer keeps. */
  predicate IsNextKept(s: Seed, height: nat, chainHeight: nat, x: nat) {
    && height <= x
    && s.HasFullBlock(x, chainHeight)
    && forall y :: height <= y < x ==> !s.HasFullBlock(y, chainHeight)
  }

  lemma DivMod(c: nat, n: nat, r: nat)
    requires n in {1, 2, 4, 8, 16, 32, 64, 128} && r < n
    ensures (c * n + r) / n == c && (c * n + r) % n == r
  {
    if n == 1 {} else if n == 2 {} else if n == 4 {} else if n == 8 {}
    else if n == 16 {} else if n == 32 {} else if n == 64 {} else {}
  }

  /** Stripe numbers repeat with period `n`: `p` stays short of the next place equal to `s`. */
  lemma NotYet(c: nat, b: nat, n: nat, s: nat, p: nat)
    requires n in {1, 2, 4, 8, 16, 32, 64, 128} && s < n && b < n && b != s
    requires c * n + b <= p && if s > b then p < c * n + s else p < (c + 1) * n + s
    ensures p % n != s
  {
    assert (c + 1) * n == c * n + n;
    if p < (c + 1) * n {
      DivMod(c, n, p - c * n);
    } else {
      DivMod(c + 1, n, p - (c + 1) * n);
    }
  }

  /** From stripe index `q` the next one equal to `s` is `target`. */
  lemma NextCycle(q: nat, n: nat, s: nat, target: nat)
    requires n in {1, 2, 4, 8, 16, 32, 64, 128} && s < n && q % n != s
    requires target == (q / n + if s > q % n then 0 else 1) * n + s
    ensures q < target && target % n == s
    ensures forall p :: q <= p < target ==> p % n != s
  {
    var c, b := q / n, q % n;
    assert q == c * n + b;
    assert (c + 1) * n == c * n + n;
    DivMod(if s > b then c else c + 1, n, s);
    forall p | q <= p < target
      ensures p % n != s
    {
      NotYet(c, b, n, s, p);
    }
  }

  /** Stripe `target` starts at height `target * 4096`. */
  lemma StripeStart(target: nat, y: nat)
    ensures y / STRIPE_SIZE < target <==> y < target * STRIPE_SIZE
    ensures target * STRIPE_SIZE / STRIPE_SIZE == target
  {}

  lemma Distribute(start: nat, n: nat, k: nat)
    ensures start * (STRIPE_SIZE * n) + k * STRIPE_SIZE == (start * n + k) * STRIPE_SIZE
  {}

  /** The jump in stripe indices, as heights. */
  lemma JumpInHeights(s: Seed, height: nat, target: nat, y: nat)
    requires s.Valid() && height <= y < target * STRIPE_SIZE
    requires forall p :: height / STRIPE_SIZE <= p < target ==> p % Stripes(s.logStripes) != s.stripe - 1
    ensures !InStripe(s, y)
  {
    StripeStart(target, y);
    assert height / STRIPE_SIZE <= y / STRIPE_SIZE < target;
  }

  lemma NextStartIsNext(s: Seed, height: nat)
    requires s.Valid() && !InStripe(s, height)
    ensures var x := NextStart(s, height, height / STRIPE_SIZE % Stripes(s.logStripes) + 1);
            && height < x && InStripe(s, x)
            && forall y :: height <= y < x ==> !InStripe(s, y)
  {
    var n, q := Stripes(s.logStripes), height / STRIPE_SIZE;
    var start := q / n + if s.stripe > q % n + 1 then 0 else 1;
    var target := start * n + (s.stripe - 1);
    Distribute(start, n, s.stripe - 1);
    NextCycle(q, n, s.stripe - 1, target);
    StripeStart(target, height);
    forall y: nat | height <= y < target * STRIPE_SIZE
      ensures !InStripe(s, y)
    {
      JumpInHeights(s, height, target, y);
    }
  }

  /** The closed form is the search: the least kept height, and the last error cannot occur. */
  lemma NextUnprunedIsSearch(s: Seed, height: nat, chainHeight: nat)
    requires s.Valid() && height <= chainHeight <= MAX_BLOCK_HEIGHT
    ensures var r := NextUnpruned(s, height, chainHeight);
            r.Ok? && IsNextKept(s, height, chainHeight, r.value)
  {
    if height + TIP_BLOCKS < chainHeight && !InStripe(s, height) {
      NextStartIsNext(s, height);
      forall y: nat | y + TIP_BLOCKS < chainHeight
        ensures s.HasFullBlock(y, chainHeight) <==> InStripe(s, y)
      {}
    }
  }

  lemma NextUnprunedErrors(s: Seed, height: nat, chainHeight: nat)
    requires s.Valid()
    ensures NextUnpruned(s, height, chainHeight) == Err(BlockHeightTooLarge)
            <==> height > MAX_BLOCK_HEIGHT || height > chainHeight
    ensures NextUnpruned(s, height, chainHeight) == Err(BlockChainHeightTooLarge)
            <==> height <= MAX_BLOCK_HEIGHT && height <= chainHeight && chainHeight > MAX_BLOCK_HEIGHT
  {
    if height <= chainHeight <= MAX_BLOCK_HEIGHT {
      NextUnprunedIsSearch(s, height, chainHeight);
    }
  }

  // ----- The next block a peer prunes -----

  function NextPruned(s: Seed, height: nat, chainHeight: nat): Result<Option<nat>>
    requires s.Valid()
  {
    if height + TIP_BLOCKS >= chainHeight then Ok(None)
    else if s.stripe != BlockStripe(height, chainHeight, s.logStripes).value then Ok(Some(height))
    else
      match NextUnpruned(NextStripe(s), height, chainHeight)
      case Err(e) => Err(e)
      case Ok(calculated) =>
        if calculated + TIP_BLOCKS > chainHeight then Ok(None) else Ok(Some(calculated))
  }

  /** Where the stripe that covers `height` ends. */
  function StripeEnd(height: nat): nat {
    (height / STRIPE_SIZE + 1) * STRIPE_SIZE
  }

  /** The stripe after the own one, on the same number of stripes. */
  function NextStripe(s: Seed): Seed {
    Seed(s.logStripes, 1 + s.stripe % Stripes(s.logStripes))
  }

  lemma NextStripeIs(s: Seed)
    requires s.Valid() && s.logStripes >= 1
    ensures NextStripe(s).Valid()
    ensures NextStripe(s).stripe == if s.stripe < Stripes(s.logStripes) then s.stripe + 1 else 1
  {
    Wraps(Stripes(s.logStripes), s.stripe);
  }

  lemma Wraps(n: nat, r: nat)
    requires n in {1, 2, 4, 8, 16, 32, 64, 128} && r <= n
    ensures r % n == if r < n then r else 0
  {
    if n == 1 {} else if n == 2 {} else if n == 4 {} else if n == 8 {}
    else if n == 16 {} else if n == 32 {} else if n == 64 {} else {}
  }

  /** Seen from index `q` of the own stripe, the next stripe starts at index `q + 1`. */
  lemma NextStripeStartsNext(s: Seed, height: nat)
    requires s.Valid() && s.logStripes >= 1 && InStripe(s, height)
    ensures NextStart(NextStripe(s), height, s.stripe) == StripeEnd(height)
    ensures (height / STRIPE_SIZE + 1) % Stripes(s.logStripes) + 1 == NextStripe(s).stripe
  {
    var n, q := Stripes(s.logStripes), height / STRIPE_SIZE;
    var c, b := q / n, q % n;
    NextStripeIs(s);
    assert q == c * n + b;
    if b + 1 < n {
      Distribute(c, n, b + 1);
      DivMod(c, n, b + 1);
    } else {
      assert (c + 1) * n == c * n + n;
      Distribute(c + 1, n, 0);
      DivMod(c + 1, n, 0);
    }
  }

  lemma WithinStripe(height: nat, y: nat)
    requires height <= y < StripeEnd(height)
    ensures y / STRIPE_SIZE == height / STRIPE_SIZE
  {
    StripeStart(height / STRIPE_SIZE + 1, y);
  }

  /** From a kept block the next stripe's jump lands at the end of the own stripe. */
  lemma NextStripeStartsAtEnd(s: Seed, height: nat)
    requires s.Valid() && s.logStripes >= 1 && InStripe(s, height)
    ensures NextStripe(s).Valid() && !InStripe(NextStripe(s), height)
    ensures NextStart(NextStripe(s), height, s.stripe) == StripeEnd(height)
    ensures !InStripe(s, StripeEnd(height))
    ensures forall y :: height <= y < StripeEnd(height) ==> InStripe(s, y)
  {
    NextStripeIs(s);
    NextStripeStartsNext(s, height);
    StripeStart(height / STRIPE_SIZE + 1, StripeEnd(height));
    forall y: nat | height <= y < StripeEnd(height)
      ensures InStripe(s, y)
    {
      WithinStripe(height, y);
    }
  }

  /** From a kept block the code asks for the next stripe's first block, and gets the end of its own stripe. */
  lemma JumpToEnd(s: Seed, height: nat, chainHeight: nat)
    requires s.Valid() && s.logStripes >= 1 && InStripe(s, height)
    requires height + TIP_BLOCKS < chainHeight <= MAX_BLOCK_HEIGHT
    ensures NextStripe(s).Valid()
    ensures NextUnpruned(NextStripe(s), height, chainHeight) == Ok(Earlier(StripeEnd(height), chainHeight - TIP_BLOCKS))
  {
    NextStripeStartsAtEnd(s, height);
    ClampedIs(StripeEnd(height), height, chainHeight);
  }

  /** What the function returns, for every valid seed and every pair of heights. */
  function ExpectedPruned(s: Seed, height: nat, chainHeight: nat): Result<Option<nat>> {
    if height + TIP_BLOCKS >= chainHeight then Ok(None)
    else if !InStripe(s, height) then Ok(Some(height))
    else if height > MAX_BLOCK_HEIGHT then Err(BlockHeightTooLarge)
    else if chainHeight > MAX_BLOCK_HEIGHT then Err(BlockChainHeightTooLarge)
    else if s.logStripes == 0 then Ok(Some(height))
    else Ok(Some(Earlier(StripeEnd(height), chainHeight - TIP_BLOCKS)))
  }

  lemma NextPrunedExactly(s: Seed, height: nat, chainHeight: nat)
    requires s.Valid()
    ensures NextPruned(s, height, chainHeight) == ExpectedPruned(s, height, chainHeight)
  {
    if height + TIP_BLOCKS < chainHeight && InStripe(s, height) {
      if chainHeight > MAX_BLOCK_HEIGHT {
        NextUnprunedErrors(NextStripe(s), height, chainHeight);
      } else if s.logStripes >= 1 {
        JumpToEnd(s, height, chainHeight);
      }
    }
  }

  /** `x` is the least height from `height` on that the peer prunes. */
  predicate IsNextPruned(s: Seed, height: nat, chainHeight: nat, x: nat) {
    && height <= x
    && !s.HasFullBlock(x, chainHeight)
    && forall y :: height <= y < x ==> s.HasFullBlock(y, chainHeight)
  }

  ghost predicate NothingPruned(s: Seed, height: nat, chainHeight: nat) {
    forall y :: height <= y < chainHeight ==> s.HasFullBlock(y, chainHeight)
  }

  /** For more than one stripe: no height for tip blocks; otherwise every block before `x` is kept, and
      `x` is the least pruned height if there is one and else the first tip height. */
  lemma NextPrunedMeaning(s: Seed, height: nat, chainHeight: nat)
    requires s.Valid() && s.logStripes >= 1 && height <= chainHeight <= MAX_BLOCK_HEIGHT
    ensures var r := NextPruned(s, height, chainHeight);
            && r.Ok?
            && (r.value == None <==> height + TIP_BLOCKS >= chainHeight)
            && (r.value.Some? ==>
                  var x := r.value.value;
                  && (forall y :: height <= y < x ==> s.HasFullBlock(y, chainHeight))
                  && (IsNextPruned(s, height, chainHeight, x)
                      || (x == chainHeight - TIP_BLOCKS && NothingPruned(s, height, chainHeight))))
  {
    NextPrunedExactly(s, height, chainHeight);
    if height + TIP_BLOCKS < chainHeight && InStripe(s, height) {
      KeptToEnd(s, height, chainHeight);
    }
  }

  /** From a kept block, everything to the end of its stripe is kept, and the stripe after it is not. */
  lemma KeptToEnd(s: Seed, height: nat, chainHeight: nat)
    requires s.Valid() && s.logStripes >= 1 && InStripe(s, height)
    ensures forall y :: height <= y < StripeEnd(height) ==> s.HasFullBlock(y, chainHeight)
    ensures s.HasFullBlock(StripeEnd(height), chainHeight) <==> StripeEnd(height) + TIP_BLOCKS >= chainHeight
    ensures height < StripeEnd(height)
  {
    NextStripeStartsAtEnd(s, height);
  }

  /** The heights the documentation promises a height for, and not an error. */
  predicate InRange(height: nat, chainHeight: nat) {
    height <= chainHeight <= MAX_BLOCK_HEIGHT
  }

  /** The documented meaning: an error for heights out of range; else the least pruned height, or none. */
  ghost predicate AsDocumented(s: Seed, height: nat, chainHeight: nat, r: Result<Option<nat>>) {
    match r
    case Err(_) => !InRange(height, chainHeight)
    case Ok(None) => InRange(height, chainHeight) && NothingPruned(s, height, chainHeight)
    case Ok(Some(x)) => InRange(height, chainHeight) && IsNextPruned(s, height, chainHeight, x)
  }

  /**
    When the code does what is documented, for every pair of heights. Heights out of range give the
    promised error exactly when they get as far as the jump: a kept block below the tip. Heights in
    range give the right height exactly when the block is in the tip, is pruned itself, or lies in a
    stripe that ends before the tip and is not the only one.
  */
  lemma DocumentedExactlyWhen(s: Seed, height: nat, chainHeight: nat)
    requires s.Valid()
    ensures AsDocumented(s, height, chainHeight, NextPruned(s, height, chainHeight)) <==>
            if InRange(height, chainHeight) then
              || height + TIP_BLOCKS >= chainHeight
              || !InStripe(s, height)
              || (s.logStripes >= 1 && StripeEnd(height) + TIP_BLOCKS < chainHeight)
            else
              height + TIP_BLOCKS < chainHeight && InStripe(s, height)
  {
    NextPrunedExactly(s, height, chainHeight);
    if InRange(height, chainHeight) && height + TIP_BLOCKS < chainHeight && InStripe(s, height) && s.logStripes >= 1 {
      KeptToEnd(s, height, chainHeight);
    }
  }

  /** An error comes back exactly for a kept block below the tip of a chain that is too high. */
  lemma NextPrunedErrors(s: Seed, height: nat, chainHeight: nat)
    requires s.Valid()
    ensures NextPruned(s, height, chainHeight).Err? <==>
            chainHeight > MAX_BLOCK_HEIGHT && height + TIP_BLOCKS < chainHeight && InStripe(s, height)
  {
    NextPrunedExactly(s, height, chainHeight);
  }

  /** In range, a height that is kept is given as pruned: the stripe ends inside the tip. */
  lemma KeptBlockGiven()
    ensures NextPruned(Seed(3, 1), 0, 9_000) == Ok(Some(3_500))
    ensures Seed(3, 1).HasFullBlock(3_500, 9_000)
    ensures !AsDocumented(Seed(3, 1), 0, 9_000, NextPruned(Seed(3, 1), 0, 9_000))
  {}

  /** Out of range, a block above its own chain and a chain that is too high pass without an error. */
  lemma ErrorNotGiven()
    ensures NextPruned(Seed(3, 1), 10, 5) == Ok(None)
    ensures NextPruned(Seed(3, 2), 0, MAX_BLOCK_HEIGHT + 10_000) == Ok(Some(0))
    ensures !AsDocumented(Seed(3, 1), 10, 5, Ok(None))
    ensures !AsDocumented(Seed(3, 2), 0, MAX_BLOCK_HEIGHT + 10_000, Ok(Some(0)))
  {}
}
