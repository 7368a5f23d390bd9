/**
 * The character view the services return (the CharacterDTO), with health
 * and attack power derived from the level at read time, never stored.
 */
module Views {
  import opened Wrappers
  import opened Models

  const HealthPerLevel: int := 10
  const AttackPowerPerLevel: int := 2

  datatype CharacterView = CharacterView(
    characterId: int,
    name: string,
    characterClass: string,
    imageUrl: Option<string>,
    baseStrength: int,
    baseAgility: int,
    baseIntelligence: int,
    baseHealth: int,
    health: int,
    baseAttackPower: int,
    attackPower: int,
    level: int,
    experience: int,
    gold: int,
    isAssociatedWithUser: bool,
    isSelected: bool)

  /** Health = BaseHealth + Level * 10 and AttackPower = BaseAttackPower + Level * 2. */
  predicate StatsDerived(v: CharacterView)
  {
    && v.health == v.baseHealth + v.level * HealthPerLevel
    && v.attackPower == v.baseAttackPower + v.level * AttackPowerPerLevel
  }

  /** The view carries the catalog character's key, name, class, image and base stats unchanged. */
  predicate ShowsCatalogFields(v: CharacterView, c: Character)
  {
    && v.characterId == c.characterId && v.name == c.name && v.characterClass == c.characterClass
    && v.imageUrl == c.imageUrl
    && v.baseStrength == c.baseStrength && v.baseAgility == c.baseAgility
    && v.baseIntelligence == c.baseIntelligence
    && v.baseHealth == c.baseHealth && v.baseAttackPower == c.baseAttackPower
  }

  /** The view of a character the user owns, carrying the row's progression. */
  function OwnedView(c: Character, uc: UserCharacter): (v: CharacterView)
    ensures ShowsCatalogFields(v, c) && StatsDerived(v)
    ensures v.health == c.baseHealth + uc.level * HealthPerLevel
    ensures v.attackPower == c.baseAttackPower + uc.level * AttackPowerPerLevel
    ensures v.level == uc.level && v.experience == uc.experience && v.gold == uc.gold
    ensures v.isAssociatedWithUser && v.isSelected == uc.isSelected
  {
    CharacterView(c.characterId, c.name, c.characterClass, c.imageUrl,
                  c.baseStrength, c.baseAgility, c.baseIntelligence,
                  c.baseHealth, c.baseHealth + uc.level * HealthPerLevel,
                  c.baseAttackPower, c.baseAttackPower + uc.level * AttackPowerPerLevel,
                  uc.level, uc.experience, uc.gold, true, uc.isSelected)
  }

  /**
   * The view of a character the user does not own: the source writes the
   * level-1 stats out as BaseHealth + 10 and BaseAttackPower + 2.
   */
  function UnownedView(c: Character): (v: CharacterView)
    ensures ShowsCatalogFields(v, c) && StatsDerived(v)
    ensures v.level == 1 && v.experience == 0 && v.gold == 0
    ensures v.health == c.baseHealth + HealthPerLevel && v.attackPower == c.baseAttackPower + AttackPowerPerLevel
    ensures !v.isAssociatedWithUser && !v.isSelected
  {
    CharacterView(c.characterId, c.name, c.characterClass, c.imageUrl,
                  c.baseStrength, c.baseAgility, c.baseIntelligence,
                  c.baseHealth, c.baseHealth + 10,
                  c.baseAttackPower, c.baseAttackPower + 2,
                  1, 0, 0, false, false)
  }

  /**
   * The hard-coded level-1 view of an unowned character is exactly the view
   * of a freshly created row, apart from the association flag.
   */
  lemma UnownedViewIsNewRowView(c: Character, userId: string)
    ensures UnownedView(c)
            == OwnedView(c, NewUserCharacter(userId, c.characterId, false)).(isAssociatedWithUser := false)
  {
  }

  /** Each level adds 10 health and 2 attack power. */
  lemma StatsGrowWithLevel(c: Character, uc: UserCharacter, uc': UserCharacter)
    requires uc'.level > uc.level
    ensures OwnedView(c, uc').health - OwnedView(c, uc).health == (uc'.level - uc.level) * HealthPerLevel
    ensures OwnedView(c, uc').attackPower - OwnedView(c, uc).attackPower
            == (uc'.level - uc.level) * AttackPowerPerLevel
  {
  }
}
