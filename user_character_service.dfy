/**
 * Services/Implementations/UserCharacterService.cs: selection with input
 * validation, the character views with per-user progression, and the
 * progression update that nothing in the core calls.
 */
module UserCharacterService {
  import opened Wrappers
  import opened Models
  import opened Leveling
  import opened Progression
  import opened Views
  import opened Selection

  /** Char.IsWhiteSpace: the Unicode White_Space characters. */
  predicate IsWhiteSpace(ch: char)
  {
    var n := ch as int;
    || 0x09 <= n <= 0x0D || n == 0x20 || n == 0x85 || n == 0xA0 || n == 0x1680
    || 0x2000 <= n <= 0x200A || n == 0x2028 || n == 0x2029 || n == 0x202F || n == 0x205F || n == 0x3000
  }

  /** String.IsNullOrWhiteSpace on a non-null string: empty or only white space. */
  predicate IsBlank(s: string)
  {
    forall i | 0 <= i < |s| :: IsWhiteSpace(s[i])
  }

  /**
   * Selects `characterId` for `userId`: rejects a blank user id, a
   * non-positive character id, an unknown user and an unknown character,
   * writing nothing; otherwise runs the selection transaction.
   */
  method SelectCharacter(db: Store, userId: string, characterId: int) returns (ok: bool)
    requires db.Valid()
    modifies db`userCharacters
    ensures db.Valid()
    ensures old(Balanced(db)) ==> Balanced(db)
    ensures ok <==> !IsBlank(userId) && characterId > 0 && userId in db.users && InCatalog(db.characters, characterId)
    ensures !ok ==> unchanged(db)
    ensures ok ==> db.userCharacters == SelectOnly(WithRow(old(db.userCharacters), db.characters, userId, characterId),
                                                   userId, characterId)
    ensures ok ==> Owns(db.userCharacters, userId, characterId)
    ensures ok ==> forall i | 0 <= i < |db.userCharacters| && db.userCharacters[i].userId == userId ::
                     db.userCharacters[i].isSelected <==> db.userCharacters[i].characterId == characterId
  {
    if IsBlank(userId) || characterId <= 0 {
      return false;
    }
    if userId !in db.users || FindCharacter(db.characters, characterId).None? {
      return false;
    }
    var t := ApplySelection(db, userId, characterId);
    ok := true;
  }

  /**
   * The character with the user's progression: the row's level, experience
   * and gold when the user owns it, else the catalog character at level 1
   * with nothing earned; None when neither exists. The view's IsSelected
   * is never set here.
   */
  function CharacterWithProgression(catalog: seq<Character>, rows: seq<UserCharacter>, characterId: int,
                                    userId: string): (r: Option<CharacterView>)
    requires RowsWellFormed(rows, catalog)
    ensures r.None? <==> !Owns(rows, userId, characterId) && !InCatalog(catalog, characterId)
    ensures r.Some? ==> r.value.characterId == characterId && StatsDerived(r.value) && !r.value.isSelected
    ensures r.Some? ==> (r.value.isAssociatedWithUser <==> Owns(rows, userId, characterId))
    ensures Owns(rows, userId, characterId) ==>
              var uc := rows[FindRow(rows, userId, characterId).value];
              r.Some? && r.value.level == uc.level && r.value.experience == uc.experience && r.value.gold == uc.gold
    ensures !Owns(rows, userId, characterId) && r.Some? ==>
              r.value.level == 1 && r.value.experience == 0 && r.value.gold == 0
    ensures r.Some? ==> InCatalog(catalog, characterId)
                        && ShowsCatalogFields(r.value, CharacterOf(catalog, characterId))
  {
    match FindRow(rows, userId, characterId)
    case Some(i) => Some(OwnedView(CharacterOf(catalog, characterId), rows[i]).(isSelected := false))
    case None =>
      if InCatalog(catalog, characterId) then Some(UnownedView(CharacterOf(catalog, characterId))) else None
  }

  /**
   * Reading a character's progression before or after the row is lazily
   * created gives the same view, apart from the association flag.
   */
  lemma ProgressionSurvivesGetOrCreate(catalog: seq<Character>, rows: seq<UserCharacter>, characterId: int,
                                       userId: string)
    requires RowsWellFormed(rows, catalog)
    ensures RowsWellFormed(WithRow(rows, catalog, userId, characterId), catalog)
    ensures var before := CharacterWithProgression(catalog, rows, characterId, userId);
            var after := CharacterWithProgression(catalog, WithRow(rows, catalog, userId, characterId),
                                                  characterId, userId);
            && (before.None? <==> after.None?)
            && (before.Some? ==> after.value == before.value.(isAssociatedWithUser := true))
  {
    if !Owns(rows, userId, characterId) && InCatalog(catalog, characterId) {
      var c := CharacterOf(catalog, characterId);
      var uc := NewUserCharacter(userId, characterId, false);
      var rows' := rows + [uc];
      assert rows' == WithRow(rows, catalog, userId, characterId);
      AppendKeepsOwnership(rows, uc, []);
      assert forall m | 0 <= m < |rows| :: rows'[m] == rows[m];
      assert FindRow(rows', userId, characterId) == Some(|rows|);
      assert CharacterWithProgression(catalog, rows, characterId, userId) == Some(UnownedView(c));
      assert CharacterWithProgression(catalog, rows', characterId, userId) == Some(OwnedView(c, uc));
      UnownedViewIsNewRowView(c, userId);
    }
  }

  /**
   * The user's first row marked selected, viewed with its progression; None
   * when the user has no selected row. The view's IsSelected is never set here.
   */
  function SelectedCharacter(catalog: seq<Character>, rows: seq<UserCharacter>, userId: string)
    : (r: Option<CharacterView>)
    requires RowsWellFormed(rows, catalog)
    ensures r.None? <==> forall i | 0 <= i < |rows| :: !(rows[i].userId == userId && rows[i].isSelected)
    ensures r.Some? ==>
              var i := FindSelected(rows, userId).value;
              && rows[i].userId == userId && rows[i].isSelected
              && ShowsCatalogFields(r.value, CharacterOf(catalog, rows[i].characterId))
              && r.value.level == rows[i].level && r.value.experience == rows[i].experience
              && r.value.gold == rows[i].gold
    ensures r.Some? ==> r.value.isAssociatedWithUser && !r.value.isSelected && StatsDerived(r.value)
  {
    match FindSelected(rows, userId)
    case None => None
    case Some(i) => Some(OwnedView(CharacterOf(catalog, rows[i].characterId), rows[i]).(isSelected := false))
  }

  /** After a successful selection, the selected character is the one chosen, with its progression. */
  lemma SelectThenSelectedCharacter(rows: seq<UserCharacter>, catalog: seq<Character>,
                                    completions: seq<QuestCompletion>, nextId: int, userId: string, characterId: int)
    requires TablesValid(rows, catalog, completions, nextId) && InCatalog(catalog, characterId)
    ensures Owns(WithRow(rows, catalog, userId, characterId), userId, characterId)
    ensures var base := WithRow(rows, catalog, userId, characterId);
            var after := SelectOnly(base, userId, characterId);
            RowsWellFormed(after, catalog)
            && var r := SelectedCharacter(catalog, after, userId);
               var uc := base[FindRow(base, userId, characterId).value];
               r.Some? && r.value.characterId == characterId
               && r.value.level == uc.level && r.value.experience == uc.experience && r.value.gold == uc.gold
  {
    SelectKeepsTables(rows, catalog, completions, nextId, userId, characterId);
    var base := WithRow(rows, catalog, userId, characterId);
    var after := SelectOnly(base, userId, characterId);
    var t := FindRow(base, userId, characterId).value;
    assert after[t].isSelected;
    var s := FindSelected(after, userId).value;
    assert after[s].characterId == characterId;
    assert s == t;
  }

  /** The views of the user's rows. */
  function CharactersOfUser(catalog: seq<Character>, rows: seq<UserCharacter>, userId: string)
    : (r: seq<CharacterView>)
    requires RowsWellFormed(rows, catalog)
    ensures |r| <= |rows|
    ensures forall v | v in r :: exists i | 0 <= i < |rows| ::
              rows[i].userId == userId && v == OwnedView(CharacterOf(catalog, rows[i].characterId), rows[i])
    ensures forall i | 0 <= i < |rows| && rows[i].userId == userId ::
              OwnedView(CharacterOf(catalog, rows[i].characterId), rows[i]) in r
  {
    var mine := Filter(rows, (uc: UserCharacter) => uc.userId == userId);
    forall j | 0 <= j < |mine| ensures mine[j] in rows && mine[j].userId == userId {
      assert mine[j] in mine;
    }
    var r := seq(|mine|, j requires 0 <= j < |mine| => OwnedView(CharacterOf(catalog, mine[j].characterId), mine[j]));
    assert forall i | 0 <= i < |rows| && rows[i].userId == userId ::
      OwnedView(CharacterOf(catalog, rows[i].characterId), rows[i]) in r by {
      forall i | 0 <= i < |rows| && rows[i].userId == userId
        ensures OwnedView(CharacterOf(catalog, rows[i].characterId), rows[i]) in r
      {
        assert rows[i] in mine;
        var j :| 0 <= j < |mine| && mine[j] == rows[i];
        assert r[j] == OwnedView(CharacterOf(catalog, rows[i].characterId), rows[i]);
      }
    }
    r
  }

  /** The level-1 views of the catalog characters the user does not own. */
  function UnownedCharacters(catalog: seq<Character>, rows: seq<UserCharacter>, userId: string)
    : (r: seq<CharacterView>)
    ensures |r| <= |catalog|
    ensures forall v | v in r :: exists j | 0 <= j < |catalog| ::
              !Owns(rows, userId, catalog[j].characterId) && v == UnownedView(catalog[j])
    ensures forall j | 0 <= j < |catalog| && !Owns(rows, userId, catalog[j].characterId) ::
              UnownedView(catalog[j]) in r
  {
    var others := Filter(catalog, (c: Character) => !Owns(rows, userId, c.characterId));
    forall j | 0 <= j < |others| ensures others[j] in catalog && !Owns(rows, userId, others[j].characterId) {
      assert others[j] in others;
    }
    var r := seq(|others|, j requires 0 <= j < |others| => UnownedView(others[j]));
    assert forall j | 0 <= j < |catalog| && !Owns(rows, userId, catalog[j].characterId) ::
      UnownedView(catalog[j]) in r by {
      forall j | 0 <= j < |catalog| && !Owns(rows, userId, catalog[j].characterId)
        ensures UnownedView(catalog[j]) in r
      {
        assert catalog[j] in others;
        var m :| 0 <= m < |others| && others[m] == catalog[j];
        assert r[m] == UnownedView(catalog[j]);
      }
    }
    r
  }

  /**
   * One view per row of the user, and, since (UserId, CharacterId) is the
   * table's key, no character twice.
   */
  lemma CharactersOfUserOnePerRow(catalog: seq<Character>, rows: seq<UserCharacter>, userId: string)
    requires RowsWellFormed(rows, catalog)
    ensures |CharactersOfUser(catalog, rows, userId)| == |Filter(rows, (uc: UserCharacter) => uc.userId == userId)|
    ensures RowKeysUnique(rows) ==>
              var r := CharactersOfUser(catalog, rows, userId);
              forall a, b | 0 <= a < b < |r| :: r[a].characterId != r[b].characterId
  {
    var r := CharactersOfUser(catalog, rows, userId);
    var mine := Filter(rows, (uc: UserCharacter) => uc.userId == userId);
    if RowKeysUnique(rows) {
      var key := (uc: UserCharacter) => (uc.userId, uc.characterId);
      assert KeysDistinct(rows, key);
      FilterKeepsKeysDistinct(rows, (uc: UserCharacter) => uc.userId == userId, key);
      forall a, b | 0 <= a < b < |r| ensures r[a].characterId != r[b].characterId {
        assert mine[a] in mine && mine[b] in mine;
        assert key(mine[a]) != key(mine[b]);
      }
    }
  }

  /** One view per unowned catalog character, and, since CharacterId is the catalog's key, no character twice. */
  lemma UnownedCharactersOnePerCharacter(catalog: seq<Character>, rows: seq<UserCharacter>, userId: string)
    ensures |UnownedCharacters(catalog, rows, userId)| ==
            |Filter(catalog, (c: Character) => !Owns(rows, userId, c.characterId))|
    ensures CatalogKeysUnique(catalog) ==>
              var r := UnownedCharacters(catalog, rows, userId);
              forall a, b | 0 <= a < b < |r| :: r[a].characterId != r[b].characterId
  {
    var r := UnownedCharacters(catalog, rows, userId);
    var others := Filter(catalog, (c: Character) => !Owns(rows, userId, c.characterId));
    if CatalogKeysUnique(catalog) {
      var key := (c: Character) => c.characterId;
      assert KeysDistinct(catalog, key);
      FilterKeepsKeysDistinct(catalog, (c: Character) => !Owns(rows, userId, c.characterId), key);
      forall a, b | 0 <= a < b < |r| ensures r[a].characterId != r[b].characterId {
        assert key(others[a]) != key(others[b]);
      }
    }
  }

  /** Every view in either part is associated with the user exactly when the user owns its character. */
  lemma AvailablePartsAssociation(catalog: seq<Character>, rows: seq<UserCharacter>, userId: string)
    requires RowsWellFormed(rows, catalog)
    ensures forall v | v in CharactersOfUser(catalog, rows, userId) + UnownedCharacters(catalog, rows, userId) ::
              StatsDerived(v) && (v.isAssociatedWithUser <==> Owns(rows, userId, v.characterId))
    ensures forall v | v in CharactersOfUser(catalog, rows, userId) + UnownedCharacters(catalog, rows, userId)
                       && !v.isAssociatedWithUser ::
              v.level == 1 && v.experience == 0 && v.gold == 0 && !v.isSelected
    ensures forall v, w | v in CharactersOfUser(catalog, rows, userId) && w in UnownedCharacters(catalog, rows, userId) ::
              v.characterId != w.characterId
    ensures forall v | v in CharactersOfUser(catalog, rows, userId) + UnownedCharacters(catalog, rows, userId) ::
              exists j | 0 <= j < |catalog| :: ShowsCatalogFields(v, catalog[j])
    ensures forall v | v in CharactersOfUser(catalog, rows, userId) + UnownedCharacters(catalog, rows, userId)
                       && v.isAssociatedWithUser ::
              exists i | 0 <= i < |rows| ::
                rows[i].userId == userId && v == OwnedView(CharacterOf(catalog, rows[i].characterId), rows[i])
  {
    var owned := CharactersOfUser(catalog, rows, userId);
    var others := UnownedCharacters(catalog, rows, userId);
    forall v | v in owned + others
      ensures StatsDerived(v) && (v.isAssociatedWithUser <==> Owns(rows, userId, v.characterId))
      ensures exists j | 0 <= j < |catalog| :: ShowsCatalogFields(v, catalog[j])
    {
      if v in owned {
        var i :| 0 <= i < |rows| && rows[i].userId == userId
                 && v == OwnedView(CharacterOf(catalog, rows[i].characterId), rows[i]);
        var c := CharacterOf(catalog, rows[i].characterId);
        var j :| 0 <= j < |catalog| && catalog[j] == c;
        assert ShowsCatalogFields(v, catalog[j]);
      } else {
        var j :| 0 <= j < |catalog| && !Owns(rows, userId, catalog[j].characterId) && v == UnownedView(catalog[j]);
        assert ShowsCatalogFields(v, catalog[j]);
      }
    }
  }

  /** Every catalog character has a view in one of the parts. */
  lemma AvailablePartsCoverCatalog(catalog: seq<Character>, rows: seq<UserCharacter>, userId: string)
    requires RowsWellFormed(rows, catalog)
    ensures forall j | 0 <= j < |catalog| ::
              exists v | v in CharactersOfUser(catalog, rows, userId) + UnownedCharacters(catalog, rows, userId) ::
                v.characterId == catalog[j].characterId
  {
    var all := CharactersOfUser(catalog, rows, userId) + UnownedCharacters(catalog, rows, userId);
    forall j | 0 <= j < |catalog| ensures exists v | v in all :: v.characterId == catalog[j].characterId {
      var id := catalog[j].characterId;
      if Owns(rows, userId, id) {
        var i :| 0 <= i < |rows| && rows[i].userId == userId && rows[i].characterId == id;
        assert OwnedView(CharacterOf(catalog, rows[i].characterId), rows[i]) in all;
      } else {
        assert UnownedView(catalog[j]) in all;
      }
    }
  }

  /**
   * Every catalog character, the user's own with their progression first,
   * then the rest at level 1. A view is associated with the user exactly
   * when the user owns that character.
   */
  function AvailableCharacters(catalog: seq<Character>, rows: seq<UserCharacter>, userId: string)
    : (r: seq<CharacterView>)
    requires RowsWellFormed(rows, catalog)
    ensures forall v | v in r :: StatsDerived(v) && (v.isAssociatedWithUser <==> Owns(rows, userId, v.characterId))
    ensures forall v | v in r && !v.isAssociatedWithUser ::
              v.level == 1 && v.experience == 0 && v.gold == 0 && !v.isSelected
    ensures forall j | 0 <= j < |catalog| :: exists v | v in r :: v.characterId == catalog[j].characterId
    ensures forall v | v in r :: exists j | 0 <= j < |catalog| :: ShowsCatalogFields(v, catalog[j])
    ensures forall v | v in r && v.isAssociatedWithUser :: exists i | 0 <= i < |rows| ::
              rows[i].userId == userId && v == OwnedView(CharacterOf(catalog, rows[i].characterId), rows[i])
  {
    AvailablePartsAssociation(catalog, rows, userId);
    AvailablePartsCoverCatalog(catalog, rows, userId);
    CharactersOfUser(catalog, rows, userId) + UnownedCharacters(catalog, rows, userId)
  }

  /**
   * The available characters list the owned views first and the unowned
   * ones after: each of the user's rows with its progression, and each
   * catalog character the user does not own at level 1.
   */
  lemma AvailableCharactersOrdered(catalog: seq<Character>, rows: seq<UserCharacter>, userId: string)
    requires RowsWellFormed(rows, catalog)
    ensures var all := AvailableCharacters(catalog, rows, userId);
            forall a, b | 0 <= a < b < |all| && all[b].isAssociatedWithUser :: all[a].isAssociatedWithUser
    ensures forall i | 0 <= i < |rows| && rows[i].userId == userId ::
              OwnedView(CharacterOf(catalog, rows[i].characterId), rows[i]) in AvailableCharacters(catalog, rows, userId)
    ensures forall j | 0 <= j < |catalog| && !Owns(rows, userId, catalog[j].characterId) ::
              UnownedView(catalog[j]) in AvailableCharacters(catalog, rows, userId)
  {
    var owned := CharactersOfUser(catalog, rows, userId);
    var others := UnownedCharacters(catalog, rows, userId);
    var all := owned + others;
    assert all == AvailableCharacters(catalog, rows, userId);
    forall a, b | 0 <= a < b < |all| && all[b].isAssociatedWithUser ensures all[a].isAssociatedWithUser {
      assert all[a] == owned[a];
      assert owned[a] in owned;
    }
  }

  /** With the tables' keys unique, the available characters name no character twice. */
  lemma AvailableCharactersOnePerCharacter(catalog: seq<Character>, rows: seq<UserCharacter>, userId: string)
    requires RowsWellFormed(rows, catalog)
    requires RowKeysUnique(rows) && CatalogKeysUnique(catalog)
    ensures var all := AvailableCharacters(catalog, rows, userId);
            forall a, b | 0 <= a < b < |all| :: all[a].characterId != all[b].characterId
  {
    var owned := CharactersOfUser(catalog, rows, userId);
    var others := UnownedCharacters(catalog, rows, userId);
    var all := owned + others;
    assert all == AvailableCharacters(catalog, rows, userId);
    CharactersOfUserOnePerRow(catalog, rows, userId);
    UnownedCharactersOnePerCharacter(catalog, rows, userId);
    AvailablePartsAssociation(catalog, rows, userId);
    forall a, b | 0 <= a < b < |all| ensures all[a].characterId != all[b].characterId {
      if b < |owned| {
        assert all[a] == owned[a] && all[b] == owned[b];
      } else if a >= |owned| {
        assert all[a] == others[a - |owned|] && all[b] == others[b - |owned|];
      } else {
        assert all[a] == owned[a] && owned[a] in owned;
        assert all[b] == others[b - |owned|] && others[b - |owned|] in others;
      }
    }
  }

  /**
   * Adds experience and gold to an owned row and runs the level-up loop;
   * (false, false, 0) when the user does not own the character.
   */
  method UpdateCharacterProgression(db: Store, userId: string, characterId: int, experienceGained: int,
                                    goldGained: int)
    returns (success: bool, leveledUp: bool, newLevel: int)
    requires db.Valid()
    modifies db`userCharacters
    ensures db.Valid()
    ensures success <==> Owns(old(db.userCharacters), userId, characterId)
    ensures !success ==> !leveledUp && newLevel == 0 && unchanged(db)
    ensures success ==>
              var i := FindRow(old(db.userCharacters), userId, characterId).value;
              var granted := Grant(old(db.userCharacters)[i], experienceGained, goldGained);
              && db.userCharacters == old(db.userCharacters)[i := granted]
              && newLevel == granted.level
              && (leveledUp <==> granted.level > old(db.userCharacters)[i].level)
  {
    var row := FindRow(db.userCharacters, userId, characterId);
    if row.None? {
      return false, false, 0;
    }
    var i := row.value;
    var uc := db.userCharacters[i];
    var experience := uc.experience + experienceGained;
    var gold := uc.gold + goldGained;
    var oldLevel := uc.level;
    newLevel := RaiseLevel(oldLevel, experience);
    leveledUp := newLevel > oldLevel;
    var updated := uc.(experience := experience, gold := gold, level := newLevel);
    UpdateRowKeepsTables(db.userCharacters, db.characters, db.questCompletions, db.nextCompletionId, i, updated);
    db.userCharacters := db.userCharacters[i := updated];
    success := true;
  }
}
