/**
 * The BC1 quality factors handed to the rgbcx encoder. The encoder's option word
 * mixes single-bit flags with an endpoint-search-rounds field; the model keeps the
 * set of flags and the rounds apart, so no bit positions are needed.
 */
module Rgbcx {
  datatype Bc1Flag =
    | TwoLeastSquaresPasses
    | UseFasterMSEEval
    | UseFullMSEEval
    | UseLikelyTotalOrderings
    | Use6PowerIters
    | Iterative
    | TryAllInitialEndpoints
    | Use3ColorBlocks
    | Use3ColorBlocksForBlackPixels

  /** Flags plus the value stored in the endpoint-search-rounds field (0 when absent). */
  datatype Options = Options(flags: set<Bc1Flag>, searchRounds: nat)

  datatype FactorValues = FactorValues(options: Options, totalOrderings4: nat, totalOrderings3: nat)

  /** rgbcx::MAX_TOTAL_ORDERINGS4 */
  const MaxTotalOrderings4: nat := 128

  /** The bit-or of a single flag into an option word. */
  function AddFlag(o: Options, f: Bc1Flag): (r: Options)
    ensures r.flags == o.flags + {f} && r.searchRounds == o.searchRounds
  {
    o.(flags := o.flags + {f})
  }

  /** The option sets shared by every generation of the tables. */
  const Level1Options: Options := Options({TwoLeastSquaresPasses}, 0)
  const Level2Options: Options := Options({TwoLeastSquaresPasses, UseFasterMSEEval, UseLikelyTotalOrderings}, 0)
  const Level3Options: Options := Options({TwoLeastSquaresPasses, UseLikelyTotalOrderings}, 0)
  const Level5Options: Options :=
    Options({TwoLeastSquaresPasses, UseFullMSEEval, UseLikelyTotalOrderings, Use6PowerIters, TryAllInitialEndpoints}, 32)
  const Level6Options: Options :=
    Options({TwoLeastSquaresPasses, UseFullMSEEval, UseLikelyTotalOrderings, Use6PowerIters, Iterative, TryAllInitialEndpoints}, 256)

  const Level5Orderings4: nat := ((32 + MaxTotalOrderings4) / 2 + 32) / 2

  /** Both 3-color flags, as the fixed-table generations add them. */
  function With3Color(o: Options): (r: Options)
    ensures r.flags == o.flags + {Use3ColorBlocks, Use3ColorBlocksForBlackPixels}
    ensures r.searchRounds == o.searchRounds
  {
    AddFlag(AddFlag(o, Use3ColorBlocks), Use3ColorBlocksForBlackPixels)
  }
}

/** The todds quality tables, computed from a level in 0..7 and the alpha-black switch. */
module ToddsRgbcx {
  import opened Rgbcx
  import opened Util

  function QualityFlags(level: U32): (r: Options)
    ensures TwoLeastSquaresPasses in r.flags
    ensures Use3ColorBlocks !in r.flags && Use3ColorBlocksForBlackPixels !in r.flags
    ensures (level == 3 || level == 4) ==> r == Level3Options
    ensures !(1 <= level <= 5) ==> r == Level6Options
  {
    match level
    case 1 => Level1Options
    case 2 => Level2Options
    case 3 => Level3Options
    case 4 => Level3Options
    case 5 => Level5Options
    case _ => Level6Options
  }

  function QualityTotalOrderings4(level: U32): (r: nat)
    ensures 1 <= r <= MaxTotalOrderings4
    ensures !(1 <= level <= 5) ==> r == MaxTotalOrderings4
  {
    match level
    case 1 => 1
    case 2 => 1
    case 3 => 11
    case 4 => 32
    case 5 => Level5Orderings4
    case _ => MaxTotalOrderings4
  }

  function QualityTotalOrderings3(level: U32): (r: nat)
    ensures 1 <= r <= 32
    ensures !(1 <= level <= 3) ==> r == 32
  {
    match level
    case 1 => 1
    case 2 => 1
    case 3 => 3
    case _ => 32
  }

  /** Higher levels never search fewer orderings, up to the highest named level. */
  lemma OrderingsMonotone(a: U32, b: U32)
    requires 1 <= a <= b <= 7
    ensures QualityTotalOrderings4(a) <= QualityTotalOrderings4(b)
    ensures QualityTotalOrderings3(a) <= QualityTotalOrderings3(b)
  {
  }

  function FromQualityLevel(level: U32, alphaBlack: bool): (r: FactorValues)
    ensures Use3ColorBlocks in r.options.flags <==> level > 1
    ensures Use3ColorBlocksForBlackPixels in r.options.flags <==> level > 1 && alphaBlack
    ensures r.options.flags - {Use3ColorBlocks, Use3ColorBlocksForBlackPixels} == QualityFlags(level).flags
    ensures r.options.searchRounds == QualityFlags(level).searchRounds
    ensures r.totalOrderings4 == QualityTotalOrderings4(level)
    ensures r.totalOrderings3 == QualityTotalOrderings3(level)
  {
    var base := QualityFlags(level);
    var with3 := if level > 1 then AddFlag(base, Use3ColorBlocks) else base;
    var flags := if level > 1 && alphaBlack then AddFlag(with3, Use3ColorBlocksForBlackPixels) else with3;
    FactorValues(flags, QualityTotalOrderings4(level), QualityTotalOrderings3(level))
  }

  /** Levels 6 and 7 give the same factors. */
  lemma Levels6And7Agree(alphaBlack: bool)
    ensures FromQualityLevel(6, alphaBlack) == FromQualityLevel(7, alphaBlack)
  {
  }

  /** Level 0 (and every level above 7) uses the slowest option set and orderings, but
    * without the 3-color flags, because those are added only above level 1. */
  lemma LevelZeroIsSlowestWithout3Color(alphaBlack: bool)
    ensures FromQualityLevel(0, alphaBlack).options == Level6Options
    ensures FromQualityLevel(0, alphaBlack).totalOrderings4 == MaxTotalOrderings4
    ensures FromQualityLevel(0, alphaBlack).totalOrderings3 == 32
  {
  }
}

/** The fixed table of the todds generation of the rgbcx headers (levels 1..7). */
module RgbcxTodds {
  import opened Rgbcx
  import opened Util

  function FromQualityLevel(level: U32): (r: FactorValues)
    requires 1 <= level <= 7
    ensures level == 1 ==> r == FactorValues(Options({TwoLeastSquaresPasses}, 0), 1, 1)
    ensures level >= 2 ==> Use3ColorBlocks in r.options.flags && Use3ColorBlocksForBlackPixels in r.options.flags
  {
    match level
    case 1 => FactorValues(Level1Options, 1, 1)
    case 2 => FactorValues(With3Color(Level2Options), 1, 1)
    case 3 => FactorValues(With3Color(Level3Options), 11, 3)
    case 4 => FactorValues(With3Color(Level3Options), 32, 32)
    case 5 => FactorValues(With3Color(Level5Options), Level5Orderings4, 32)
    case _ => FactorValues(With3Color(Level6Options), MaxTotalOrderings4, 32)
  }

  lemma Levels6And7Agree()
    ensures FromQualityLevel(6) == FromQualityLevel(7)
  {
  }
}

/** The fixed table of the png2dds generation, indexed by rgbcx's own levels 3, 6, …, 18. */
module RgbcxPng2dds {
  import opened Rgbcx
  import opened Util

  predicate IsTableLevel(level: U32)
  {
    3 <= level <= 18 && level % 3 == 0
  }

  function FromQualityLevel(level: U32): (r: FactorValues)
    requires IsTableLevel(level)
    ensures level <= 6 ==> r.totalOrderings4 == 1 && r.totalOrderings3 == 1
    ensures level == 18 ==> r.totalOrderings4 == MaxTotalOrderings4 && r.totalOrderings3 == 32
  {
    match level
    case 3 => FactorValues(Level1Options, 1, 1)
    case 6 => FactorValues(With3Color(Level2Options), 1, 1)
    case 9 => FactorValues(With3Color(Level3Options), 11, 3)
    case 12 => FactorValues(With3Color(Level3Options), 32, 32)
    case 15 => FactorValues(With3Color(Level5Options), Level5Orderings4, 32)
    case _ => FactorValues(With3Color(Level6Options), MaxTotalOrderings4, 32)
  }
}

/** The three generations of the tables describe the same factors. */
module RgbcxGenerations {
  import opened Rgbcx
  import ToddsRgbcx
  import RgbcxTodds
  import RgbcxPng2dds

  /** The computed todds table with alpha-black set equals the fixed todds table. */
  lemma ComputedEqualsFixedTable(level: nat)
    requires 1 <= level <= 7
    ensures ToddsRgbcx.FromQualityLevel(level, true) == RgbcxTodds.FromQualityLevel(level)
  {
  }

  /** png2dds level 3k is todds level k. */
  lemma Png2ddsLevelsAreTriples(k: nat)
    requires 1 <= k <= 6
    ensures RgbcxPng2dds.FromQualityLevel(3 * k) == RgbcxTodds.FromQualityLevel(k)
  {
  }
}
