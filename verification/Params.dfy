// Consensus and policy constants (netcoin/params.py).
module Params {
  const COIN := 100_000_000
  const MAX_MONEY := 132_500_000 * COIN
  const INITIAL_SUBSIDY := 50 * COIN

  const REWARD_REDUCTION_INTERVAL := 265_000
  const REWARD_SCHEDULE_ACTIVATION_HEIGHT := 4_200

  const LEGACY_ACTIVATION_HEIGHT := 1_000
  const LEGACY_YEAR_BLOCKS := 720
  const LEGACY_BASE_SUBSIDY := 15 * COIN
  const LEGACY_SEED_BLOCKS := 10
  const LEGACY_SAMPLE_SIZE := 100
  const LEGACY_EVEN_THRESHOLD := 40
  const LEGACY_DRY_YEAR_LIMIT := 3

  const DIFFICULTY_ADJUSTMENT_INTERVAL := 30
  const SPACING_V2_ACTIVATION_HEIGHT := 5_010
  const TARGET_SPACING_SECONDS := 120
  const TARGET_SPACING_V2_SECONDS := 300
  const INITIAL_BITS := 0x207F_FFFF
  const POW_LIMIT_BITS := 0x207F_FFFF

  const COINBASE_MATURITY := 100
  const LOCKTIME_THRESHOLD := 500_000_000
  const SEQUENCE_FINAL := 0xFFFF_FFFF
  const MAX_FUTURE_SECONDS := 2 * 60 * 60
  const MTP_ACTIVATION_HEIGHT := 1_000_000
  const MAX_BLOCK_WEIGHT := 4_000_000

  const MIN_RELAY_FEE_PER_KB := 1000
  const DUST_THRESHOLD := 546
  const MAX_STANDARD_TX_INPUTS := 1000
  const MAX_STANDARD_TX_WEIGHT := 1_000_000
  const MAX_ORPHANS := 2000

  function TargetSpacingAt(height: int): nat {
    if height >= SPACING_V2_ACTIVATION_HEIGHT then TARGET_SPACING_V2_SECONDS else TARGET_SPACING_SECONDS
  }

  function TargetTimespanAt(height: int): nat {
    TargetSpacingAt(height) * DIFFICULTY_ADJUSTMENT_INTERVAL
  }

  function MinDifficultyGapAt(height: int): nat {
    2 * TargetSpacingAt(height)
  }
}
