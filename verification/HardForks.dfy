/** Hard forks 1 to 16 and the block time each aims for. */
module HardForks {
  type HardFork = v: nat | 1 <= v <= 16 witness 1

  function BlockTime(hf: HardFork): nat {
    if hf == 1 then 60 else 120
  }
}
