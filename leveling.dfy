/**
 * The levelling arithmetic of the progression ledger. The source runs two
 * small loops inline (a level-up loop after a reward and a level-down loop
 * after a reversal); here each loop is a method proved against a closed form,
 * and the closed forms are characterised by their contracts.
 */
module Leveling {

  /** Experience needed per level: level L ends at L * ExperiencePerLevel. */
  const ExperiencePerLevel: int := 1000

  /**
   * The level that a character with `experience` points has when levels are
   * derived from experience alone: level L covers [(L-1)*1000, L*1000).
   */
  function LevelForExperience(experience: int): (level: int)
    requires experience >= 0
    ensures level >= 1
    ensures (level - 1) * ExperiencePerLevel <= experience < level * ExperiencePerLevel
  {
    experience / ExperiencePerLevel + 1
  }

  /**
   * The level after the level-up loop: the least level not below `level`
   * whose threshold `newLevel * 1000` exceeds `experience`.
   */
  function LevelAfterGain(level: int, experience: int): (r: int)
    ensures r >= level
    ensures experience < r * ExperiencePerLevel
    ensures r == level || (r - 1) * ExperiencePerLevel <= experience
  {
    var derived := experience / ExperiencePerLevel + 1;
    if derived > level then derived else level
  }

  /**
   * The level after the level-down loop: the greatest level not above
   * `level` that is 1 or whose floor `(newLevel - 1) * 1000` is reached.
   */
  function LevelAfterLoss(level: int, experience: int): (r: int)
    ensures r <= level
    ensures level >= 1 ==> r >= 1
    ensures r <= 1 || (r - 1) * ExperiencePerLevel <= experience
    ensures r == level || (r >= 1 && experience < r * ExperiencePerLevel)
  {
    var derived := experience / ExperiencePerLevel + 1;
    if level <= 1 || derived >= level then level
    else if derived >= 1 then derived
    else 1
  }

  /** The level-up loop: `while (Experience >= Level * 1000) Level++`. */
  method RaiseLevel(level: int, experience: int) returns (newLevel: int)
    ensures newLevel == LevelAfterGain(level, experience)
  {
    newLevel := level;
    while experience >= newLevel * ExperiencePerLevel
      invariant newLevel >= level
      invariant newLevel == level || (newLevel - 1) * ExperiencePerLevel <= experience
      decreases experience - newLevel * ExperiencePerLevel
    {
      newLevel := newLevel + 1;
    }
  }

  /** The level-down loop: `while (Experience < (Level-1) * 1000 && Level > 1) Level--`. */
  method LowerLevel(level: int, experience: int) returns (newLevel: int)
    ensures newLevel == LevelAfterLoss(level, experience)
  {
    newLevel := level;
    while experience < (newLevel - 1) * ExperiencePerLevel && newLevel > 1
      invariant newLevel <= level
      invariant newLevel == level || (newLevel >= 1 && experience < newLevel * ExperiencePerLevel)
      decreases newLevel
    {
      newLevel := newLevel - 1;
    }
  }

  /** From level 1, experience 0, 999, 1000, 1999, 2000 gives level 1, 1, 2, 2, 3. */
  lemma LevelBoundaries()
    ensures LevelAfterGain(1, 0) == 1 && LevelAfterGain(1, 999) == 1
    ensures LevelAfterGain(1, 1000) == 2 && LevelAfterGain(1, 1999) == 2
    ensures LevelAfterGain(1, 2000) == 3
  {
  }

  /**
   * A level derived from experience stays derived after a non-negative gain:
   * the level-up loop then computes exactly LevelForExperience.
   */
  lemma GainKeepsLevelDerived(experience: int, gain: int)
    requires experience >= 0 && gain >= 0
    ensures LevelAfterGain(LevelForExperience(experience), experience + gain)
            == LevelForExperience(experience + gain)
  {
  }

  /**
   * A level derived from experience stays derived after the experience drops
   * to any non-negative amount: the level-down loop computes LevelForExperience.
   */
  lemma LossKeepsLevelDerived(experience: int, remaining: int)
    requires 0 <= remaining <= experience
    ensures LevelAfterLoss(LevelForExperience(experience), remaining)
            == LevelForExperience(remaining)
  {
  }
}
