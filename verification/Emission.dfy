// The reward schedule (netcoin/emission.py): the deterministic 10% reductions, the supply
// cap they add up to, and the legacy random window that is kept for old blocks.
module Emission {
  import opened Params

  predicate IsActive(height: nat) {
    height >= REWARD_SCHEDULE_ACTIVATION_HEIGHT
  }

  predicate IsLegacyWindow(height: nat) {
    LEGACY_ACTIVATION_HEIGHT <= height < REWARD_SCHEDULE_ACTIVATION_HEIGHT
  }

  // One reward event: multiply by 9/10 and drop the fraction of a satoshi.
  function Reduce(subsidy: nat): nat {
    subsidy * 9 / 10
  }

  function AfterReductions(subsidy: nat, events: nat): nat {
    if events == 0 then subsidy else Reduce(AfterReductions(subsidy, events - 1))
  }

  function EpochSubsidy(epoch: nat): nat {
    AfterReductions(INITIAL_SUBSIDY, epoch)
  }

  function ScheduledSubsidy(height: nat): nat {
    EpochSubsidy(height / REWARD_REDUCTION_INTERVAL)
  }

  method EmissionSubsidy(height: nat) returns (subsidy: nat)
    ensures subsidy == ScheduledSubsidy(height)
  {
    subsidy := INITIAL_SUBSIDY;
    for i := 0 to height / REWARD_REDUCTION_INTERVAL
      invariant subsidy == EpochSubsidy(i)
    {
      subsidy := subsidy * 9 / 10;
    }
  }

  // What every block from a fresh epoch with reward `subsidy` onward can mint.
  function CapFrom(subsidy: nat): nat {
    if subsidy == 0 then 0 else subsidy * REWARD_REDUCTION_INTERVAL + CapFrom(Reduce(subsidy))
  }

  const EMISSION_CAP := CapFrom(INITIAL_SUBSIDY)

  method TotalEmissionCapSats() returns (total: nat)
    ensures total == EMISSION_CAP
  {
    var subsidy: nat := INITIAL_SUBSIDY;
    total := 0;
    while subsidy > 0
      invariant total + CapFrom(subsidy) == EMISSION_CAP
      decreases subsidy
    {
      total := total + subsidy * REWARD_REDUCTION_INTERVAL;
      subsidy := subsidy * 9 / 10;
    }
  }

  // Sum of the scheduled subsidies of heights 0 .. blocks - 1.
  ghost function ScheduledSum(blocks: nat): nat {
    if blocks == 0 then 0 else ScheduledSum(blocks - 1) + ScheduledSubsidy(blocks - 1)
  }

  // ---- the supply cap ----

  // A geometric series: each event keeps at most nine tenths of the reward.
  lemma {:induction false} CapIsAtMostTenEpochs(subsidy: nat)
    ensures CapFrom(subsidy) <= 10 * subsidy * REWARD_REDUCTION_INTERVAL
    decreases subsidy
  {
    if subsidy > 0 {
      CapIsAtMostTenEpochs(Reduce(subsidy));
      assert 10 * Reduce(subsidy) <= 9 * subsidy;
    }
  }

  lemma CapIsWithinMaxMoney()
    ensures EMISSION_CAP <= MAX_MONEY
  {
    CapIsAtMostTenEpochs(INITIAL_SUBSIDY);
  }

  // What is minted so far plus what the rest of the schedule may still mint is exactly the
  // cap, `done` blocks into `epoch`.
  lemma {:induction false} SumPlusRemainderIsCap(epoch: nat, done: nat)
    requires done <= REWARD_REDUCTION_INTERVAL
    ensures ScheduledSum(epoch * REWARD_REDUCTION_INTERVAL + done) + CapFrom(EpochSubsidy(epoch))
         == EMISSION_CAP + done * EpochSubsidy(epoch)
    decreases epoch, done
  {
    var s := EpochSubsidy(epoch);
    if done > 0 {
      SumPlusRemainderIsCap(epoch, done - 1);
      assert done * s == (done - 1) * s + s;
      assert (epoch * REWARD_REDUCTION_INTERVAL + (done - 1)) / REWARD_REDUCTION_INTERVAL == epoch;
    } else if epoch > 0 {
      SumPlusRemainderIsCap(epoch - 1, REWARD_REDUCTION_INTERVAL);
      assert s == Reduce(EpochSubsidy(epoch - 1));
    }
  }

  // The schedule in figures: fifty coins for the first 265000 heights, and nine tenths, rounded
  // down to a satoshi, after every 265000 more.
  lemma ScheduleInFigures(height: nat)
    ensures height < 265_000 ==> ScheduledSubsidy(height) == 5_000_000_000
    ensures var now, later := ScheduledSubsidy(height), ScheduledSubsidy(height + 265_000);
            10 * later <= 9 * now < 10 * later + 10
  {
    assert (height + 265_000) / 265_000 == height / 265_000 + 1;
  }

  // No number of blocks mints more than the advertised cap.
  lemma ScheduledSumIsWithinCap(blocks: nat)
    ensures ScheduledSum(blocks) <= EMISSION_CAP
  {
    var epoch, done := blocks / REWARD_REDUCTION_INTERVAL, blocks % REWARD_REDUCTION_INTERVAL;
    SumPlusRemainderIsCap(epoch, done);
    TimesIsMonotone(done, REWARD_REDUCTION_INTERVAL, EpochSubsidy(epoch));
  }

  lemma TimesIsMonotone(a: nat, b: nat, factor: nat)
    requires a <= b
    ensures a * factor <= b * factor
  {
  }

  // ---- the legacy random window ----

  // The two SHA-256 uses of the window, left abstract: the seed of a year's opening block
  // hashes, and the n-th draw from a seed.
  datatype Draws = Draws(seed: seq<nat> -> nat, draw: (nat, nat) -> nat)

  function YearStart(year: int): int {
    LEGACY_ACTIVATION_HEIGHT + year * LEGACY_YEAR_BLOCKS
  }

  // Draw n of `year` looks at one block of the year before.
  function SampledHeight(d: Draws, year: nat, seed: nat, n: nat): (h: nat)
    requires year >= 1
    ensures YearStart(year - 1) <= h < YearStart(year)
  {
    YearStart(year - 1) + d.draw(seed, n) % LEGACY_YEAR_BLOCKS
  }

  predicate SeedKnown(year: nat, hashes: seq<nat>) {
    YearStart(year) + LEGACY_SEED_BLOCKS <= |hashes|
  }

  function YearSeed(d: Draws, year: nat, hashes: seq<nat>): nat
    requires SeedKnown(year, hashes)
  {
    d.seed(hashes[YearStart(year)..YearStart(year) + LEGACY_SEED_BLOCKS])
  }

  function EvenCount(d: Draws, year: nat, hashes: seq<nat>, samples: nat): nat
    requires year >= 1 && SeedKnown(year, hashes)
  {
    if samples == 0 then 0
    else
      EvenCount(d, year, hashes, samples - 1) +
      (if hashes[SampledHeight(d, year, YearSeed(d, year, hashes), samples - 1)] % 2 == 0 then 1 else 0)
  }

  predicate CutInYear(d: Draws, year: nat, hashes: seq<nat>, history: seq<bool>)
    requires year >= 1 && SeedKnown(year, hashes)
  {
    || EvenCount(d, year, hashes, LEGACY_SAMPLE_SIZE) >= LEGACY_EVEN_THRESHOLD
    || (|history| >= LEGACY_DRY_YEAR_LIMIT && true !in history[|history| - LEGACY_DRY_YEAR_LIMIT..])
  }

  function CutHistory(d: Draws, years: nat, hashes: seq<nat>): (history: seq<bool>)
    requires years >= 1 ==> SeedKnown(years, hashes)
    ensures |history| == years
  {
    if years == 0 then []
    else
      var earlier := CutHistory(d, years - 1, hashes);
      earlier + [CutInYear(d, years, hashes, earlier)]
  }

  function Cuts(history: seq<bool>): nat {
    if history == [] then 0
    else Cuts(history[..|history| - 1]) + (if history[|history| - 1] then 1 else 0)
  }

  // The last year whose cut is settled at `height`.
  function SettledYear(height: nat): nat
    requires IsLegacyWindow(height)
  {
    var year := (height - LEGACY_ACTIVATION_HEIGHT) / LEGACY_YEAR_BLOCKS;
    var within := (height - LEGACY_ACTIVATION_HEIGHT) % LEGACY_YEAR_BLOCKS;
    if year == 0 then 0 else if within < LEGACY_SEED_BLOCKS then year - 1 else year
  }

  // `hashes[h]` is the hash of the block at height h. The subsidy of `height` is defined
  // from hashes of strictly earlier heights alone.
  function LegacySubsidy(d: Draws, height: nat, hashes: seq<nat>): nat
    requires IsLegacyWindow(height) && height <= |hashes|
  {
    AfterReductions(LEGACY_BASE_SUBSIDY, Cuts(CutHistory(d, SettledYear(height), hashes)))
  }

  method LegacySampledEvenCount(d: Draws, year: nat, hashes: seq<nat>) returns (even: nat)
    requires year >= 1 && SeedKnown(year, hashes)
    ensures even == EvenCount(d, year, hashes, LEGACY_SAMPLE_SIZE)
  {
    var seed := YearSeed(d, year, hashes);
    even := 0;
    for n := 0 to LEGACY_SAMPLE_SIZE
      invariant even == EvenCount(d, year, hashes, n)
    {
      if hashes[SampledHeight(d, year, seed, n)] % 2 == 0 {
        even := even + 1;
      }
    }
  }

  method LegacyCutForYear(d: Draws, year: nat, hashes: seq<nat>, history: seq<bool>) returns (cut: bool)
    requires year >= 1 && SeedKnown(year, hashes)
    ensures cut == CutInYear(d, year, hashes, history)
  {
    hide EvenCount;
    var even := LegacySampledEvenCount(d, year, hashes);
    if even >= LEGACY_EVEN_THRESHOLD {
      return true;
    }
    cut := |history| >= LEGACY_DRY_YEAR_LIMIT && true !in history[|history| - LEGACY_DRY_YEAR_LIMIT..];
  }

  method LegacyCutHistory(d: Draws, years: nat, hashes: seq<nat>) returns (history: seq<bool>)
    requires years >= 1 ==> SeedKnown(years, hashes)
    ensures history == CutHistory(d, years, hashes)
  {
    hide CutInYear;
    history := [];
    for year := 1 to years + 1
      invariant history == CutHistory(d, year - 1, hashes)
    {
      var cut := LegacyCutForYear(d, year, hashes, history);
      history := history + [cut];
    }
  }

  // ---- what the window pays ----

  // The draws of a year that hit a block with an even hash.
  ghost function EvenDraws(d: Draws, year: nat, hashes: seq<nat>, samples: nat): set<nat>
    requires year >= 1 && SeedKnown(year, hashes)
  {
    var seed := d.seed(hashes[YearStart(year)..YearStart(year) + 10]);
    set n | 0 <= n < samples && hashes[YearStart(year - 1) + d.draw(seed, n) % 720] % 2 == 0
  }

  lemma {:induction false} EvenCountExactly(d: Draws, year: nat, hashes: seq<nat>, samples: nat)
    requires year >= 1 && SeedKnown(year, hashes)
    ensures EvenCount(d, year, hashes, samples) == |EvenDraws(d, year, hashes, samples)|
  {
    if samples == 0 {
      assert EvenDraws(d, year, hashes, 0) == {};
    } else {
      hide EvenDraws, YearStart;
      EvenCountExactly(d, year, hashes, samples - 1);
      OneMoreDraw(d, year, hashes, samples - 1);
    }
  }

  lemma OneMoreDraw(d: Draws, year: nat, hashes: seq<nat>, n: nat)
    requires year >= 1 && SeedKnown(year, hashes)
    ensures n !in EvenDraws(d, year, hashes, n)
    ensures EvenDraws(d, year, hashes, n + 1) == EvenDraws(d, year, hashes, n) +
            if hashes[SampledHeight(d, year, YearSeed(d, year, hashes), n)] % 2 == 0 then {n} else {}
  {
  }

  // Year y is cut exactly when forty of its hundred draws are even, or the three years before it
  // were not cut.
  lemma {:induction false} HistoryExactly(d: Draws, years: nat, hashes: seq<nat>, y: nat)
    requires 1 <= y <= years && SeedKnown(years, hashes)
    ensures SeedKnown(y, hashes)
    ensures var history := CutHistory(d, years, hashes);
            history[y - 1] <==>
              || |EvenDraws(d, y, hashes, 100)| >= 40
              || (y >= 4 && !history[y - 2] && !history[y - 3] && !history[y - 4])
  {
    hide EvenCount, EvenDraws, CutHistory, CutInYear, YearStart;
    HistoryStep(d, years, hashes);
    if y < years {
      HistoryExactly(d, years - 1, hashes, y);
    } else {
      CutExactly(d, y, hashes, CutHistory(d, years - 1, hashes));
    }
  }

  lemma HistoryStep(d: Draws, years: nat, hashes: seq<nat>)
    requires years >= 1 && SeedKnown(years, hashes)
    ensures SeedKnown(years - 1, hashes)
    ensures var earlier := CutHistory(d, years - 1, hashes);
            CutHistory(d, years, hashes) == earlier + [CutInYear(d, years, hashes, earlier)]
  {
    hide CutInYear;
  }

  lemma CutExactly(d: Draws, year: nat, hashes: seq<nat>, history: seq<bool>)
    requires year >= 1 && SeedKnown(year, hashes)
    ensures CutInYear(d, year, hashes, history) <==>
              || |EvenDraws(d, year, hashes, 100)| >= 40
              || (|history| >= 3 && !history[|history| - 1] && !history[|history| - 2] && !history[|history| - 3])
  {
    EvenCountExactly(d, year, hashes, 100);
    LastThreeDry(history);
    hide EvenCount, EvenDraws;
  }

  lemma LastThreeDry(history: seq<bool>)
    ensures |history| >= 3 && true !in history[|history| - 3..] <==>
            |history| >= 3 && !history[|history| - 1] && !history[|history| - 2] && !history[|history| - 3]
  {
    if |history| >= 3 {
      var n := |history|;
      assert history[n - 3..] == [history[n - 3], history[n - 2], history[n - 1]];
    }
  }

  // So no four years in a row go without a cut.
  lemma FourYearsHaveACut(d: Draws, years: nat, hashes: seq<nat>, y: nat)
    requires 4 <= y <= years && SeedKnown(years, hashes)
    ensures var history := CutHistory(d, years, hashes);
            history[y - 1] || history[y - 2] || history[y - 3] || history[y - 4]
  {
    HistoryExactly(d, years, hashes, y);
    hide EvenDraws;
  }

  // A year is settled once its ten opening blocks are there.
  lemma SettledYearExactly(height: nat, year: nat)
    requires IsLegacyWindow(height) && year >= 1
    ensures year <= SettledYear(height) <==> 1_000 + 720 * year + 10 <= height
  {
  }

  lemma {:induction false} CutsExactly(history: seq<bool>)
    ensures Cuts(history) == |set i | 0 <= i < |history| && history[i]|
  {
    var cuts := set i | 0 <= i < |history| && history[i];
    if history == [] {
      assert cuts == {};
    } else {
      var n, prefix := |history| - 1, history[..|history| - 1];
      CutsExactly(prefix);
      var earlier := set i | 0 <= i < n && prefix[i];
      assert cuts == if history[n] then earlier + {n} else earlier;
    }
  }

  // In the window every block pays fifteen coins less one tenth, rounded down, for each settled
  // year that was cut.
  lemma WindowPays(d: Draws, height: nat, hashes: seq<nat>)
    requires 1_000 <= height < 4_200 && height <= |hashes|
    ensures var years := SettledYear(height);
            && (years >= 1 ==> SeedKnown(years, hashes))
            && var history := CutHistory(d, years, hashes);
               Subsidy(d, height, hashes)
                 == AfterReductions(1_500_000_000, |set i | 0 <= i < |history| && history[i]|)
  {
    CutsExactly(CutHistory(d, SettledYear(height), hashes));
    hide CutHistory, Cuts;
  }

  lemma ReductionsInFigures(subsidy: nat, events: nat)
    ensures AfterReductions(subsidy, 0) == subsidy
    ensures var now, later := AfterReductions(subsidy, events), AfterReductions(subsidy, events + 1);
            10 * later <= 9 * now < 10 * later + 10
  {
  }

  // The subsidy rule that validation applies at every height.
  function Subsidy(d: Draws, height: nat, hashes: seq<nat>): nat
    requires height <= |hashes|
  {
    if IsActive(height) then ScheduledSubsidy(height)
    else if IsLegacyWindow(height) then LegacySubsidy(d, height, hashes)
    else INITIAL_SUBSIDY
  }

  // Outside the window the subsidy is fifty coins before it and the schedule's after it.
  lemma SubsidyOutsideWindow(d: Draws, height: nat, hashes: seq<nat>)
    requires height <= |hashes|
    ensures height < 1_000 ==> Subsidy(d, height, hashes) == 5_000_000_000
    ensures height >= 4_200 ==> Subsidy(d, height, hashes) == ScheduledSubsidy(height)
  {
  }

  // Later hashes are never read: two chains that agree below `height` pay the same there.
  lemma SubsidyReadsOnlyEarlierHashes(d: Draws, height: nat, h1: seq<nat>, h2: seq<nat>)
    requires height <= |h1| && height <= |h2|
    requires h1[..height] == h2[..height]
    ensures Subsidy(d, height, h1) == Subsidy(d, height, h2)
  {
    if IsLegacyWindow(height) {
      HistoryReadsOnlyEarlierHashes(d, SettledYear(height), height, h1, h2);
    }
  }

  lemma {:induction false} HistoryReadsOnlyEarlierHashes(d: Draws, years: nat, height: nat, h1: seq<nat>, h2: seq<nat>)
    requires height <= |h1| && height <= |h2|
    requires h1[..height] == h2[..height]
    requires years >= 1 ==> SeedKnown(years, h1[..height])
    ensures CutHistory(d, years, h1) == CutHistory(d, years, h2)
  {
    if years >= 1 {
      HistoryReadsOnlyEarlierHashes(d, years - 1, height, h1, h2);
      EvenCountReadsOnlyEarlierHashes(d, years, height, h1, h2, LEGACY_SAMPLE_SIZE);
    }
  }

  lemma SamePrefixSameHash(h1: seq<nat>, h2: seq<nat>, height: nat, h: nat)
    requires height <= |h1| && height <= |h2| && h1[..height] == h2[..height] && h < height
    ensures h1[h] == h2[h]
  {
    assert h1[h] == h1[..height][h] == h2[..height][h] == h2[h];
  }

  lemma SliceOfPrefix(s: seq<nat>, height: nat, lo: nat, hi: nat)
    requires lo <= hi <= height <= |s|
    ensures s[lo..hi] == s[..height][lo..hi]
  {
  }

  lemma SamePrefixSameSeed(d: Draws, year: nat, height: nat, h1: seq<nat>, h2: seq<nat>)
    requires height <= |h1| && height <= |h2|
    requires h1[..height] == h2[..height] && SeedKnown(year, h1[..height])
    ensures YearSeed(d, year, h1) == YearSeed(d, year, h2)
  {
    var lo, hi := YearStart(year), YearStart(year) + LEGACY_SEED_BLOCKS;
    SliceOfPrefix(h1, height, lo, hi);
    SliceOfPrefix(h2, height, lo, hi);
  }

  lemma {:induction false} EvenCountReadsOnlyEarlierHashes(d: Draws, year: nat, height: nat, h1: seq<nat>, h2: seq<nat>,
                                                           samples: nat)
    requires year >= 1 && height <= |h1| && height <= |h2|
    requires h1[..height] == h2[..height] && SeedKnown(year, h1[..height])
    ensures EvenCount(d, year, h1, samples) == EvenCount(d, year, h2, samples)
  {
    if samples > 0 {
      EvenCountReadsOnlyEarlierHashes(d, year, height, h1, h2, samples - 1);
      SamePrefixSameSeed(d, year, height, h1, h2);
      hide YearSeed, SampledHeight;
      SamePrefixSameHash(h1, h2, height, SampledHeight(d, year, YearSeed(d, year, h1), samples - 1));
    }
  }

  lemma {:induction false} ReductionsOnlyReduce(subsidy: nat, events: nat)
    ensures AfterReductions(subsidy, events) <= subsidy
  {
    if events > 0 {
      ReductionsOnlyReduce(subsidy, events - 1);
    }
  }

  // At every height, legacy window included, the rule pays at most the public schedule.
  lemma SubsidyIsAtMostScheduled(d: Draws, height: nat, hashes: seq<nat>)
    requires height <= |hashes|
    ensures Subsidy(d, height, hashes) <= ScheduledSubsidy(height)
  {
    if !IsActive(height) {
      assert height / REWARD_REDUCTION_INTERVAL == 0;
      if IsLegacyWindow(height) {
        ReductionsOnlyReduce(LEGACY_BASE_SUBSIDY, Cuts(CutHistory(d, SettledYear(height), hashes)));
      }
    }
  }
}
