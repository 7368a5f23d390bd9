/**
 * Controllers/UserCharacterController.cs: the admin listing of every row,
 * the selected-character read that repairs a missing selection, and the
 * selection endpoint. The caller's identity is already resolved to a user id.
 */
module UserCharacterController {
  import opened Wrappers
  import opened Models
  import opened Progression
  import opened Selection

  /** One row of the admin listing. */
  datatype RowEntry = RowEntry(
    userId: string,
    characterId: int,
    characterName: string,
    characterClass: string,
    level: int,
    experience: int,
    gold: int)

  /** The character body both selection endpoints answer with; a missing image is "". */
  datatype SelectionView = SelectionView(
    characterId: int,
    name: string,
    characterClass: string,
    level: int,
    experience: int,
    gold: int,
    imageUrl: string)

  datatype SelectOutcome = BadRequest(message: string) | NotFound(message: string) | Selected(view: SelectionView)

  datatype SelectedOutcome = SelectedNotFound(message: string) | Found(view: SelectionView)

  /** The view of a row together with its catalog character. */
  function ViewOf(c: Character, uc: UserCharacter): (v: SelectionView)
    ensures v.characterId == uc.characterId && v.name == c.name && v.characterClass == c.characterClass
    ensures v.level == uc.level && v.experience == uc.experience && v.gold == uc.gold
    ensures c.imageUrl.Some? ==> v.imageUrl == c.imageUrl.value
    ensures c.imageUrl.None? ==> v.imageUrl == ""
  {
    SelectionView(uc.characterId, c.name, c.characterClass, uc.level, uc.experience, uc.gold,
                  match c.imageUrl case Some(url) => url case None => "")
  }

  /** GetUserCharacters: one entry per row, in table order, with the catalog character's name and class. */
  function RowEntries(catalog: seq<Character>, rows: seq<UserCharacter>): (r: seq<RowEntry>)
    requires RowsWellFormed(rows, catalog)
    ensures |r| == |rows|
    ensures forall i | 0 <= i < |rows| ::
              && r[i].userId == rows[i].userId && r[i].characterId == rows[i].characterId
              && r[i].characterName == CharacterOf(catalog, rows[i].characterId).name
              && r[i].characterClass == CharacterOf(catalog, rows[i].characterId).characterClass
              && r[i].level == rows[i].level && r[i].experience == rows[i].experience && r[i].gold == rows[i].gold
  {
    seq(|rows|, i requires 0 <= i < |rows| =>
      var c := CharacterOf(catalog, rows[i].characterId);
      RowEntry(rows[i].userId, rows[i].characterId, c.name, c.characterClass,
               rows[i].level, rows[i].experience, rows[i].gold))
  }

  /**
   * GetSelectedCharacter: the user's first selected row. When the user has
   * rows but none is selected, the first is marked selected and returned;
   * when the user has none, not found.
   */
  method GetSelectedCharacter(db: Store, userId: string) returns (r: SelectedOutcome)
    requires db.Valid()
    modifies db`userCharacters
    ensures db.Valid()
    ensures old(Balanced(db)) ==> Balanced(db)
    ensures userId !in db.users ==> r == SelectedNotFound("User not found in database") && unchanged(db)
    ensures userId in db.users && FindSelected(old(db.userCharacters), userId).Some? ==>
              unchanged(db)
              && var uc := db.userCharacters[FindSelected(db.userCharacters, userId).value];
                 r == Found(ViewOf(CharacterOf(db.characters, uc.characterId), uc))
    ensures userId in db.users && FindSelected(old(db.userCharacters), userId).None? ==>
              match FindOwned(old(db.userCharacters), userId)
              case None => r == SelectedNotFound("No character found for this user") && unchanged(db)
              case Some(j) =>
                var uc := old(db.userCharacters)[j].(isSelected := true);
                && db.userCharacters == old(db.userCharacters)[j := uc]
                && r == Found(ViewOf(CharacterOf(db.characters, uc.characterId), uc))
    ensures r.Found? ==> var s := FindSelected(db.userCharacters, userId);
              && s.Some?
              && r.view.characterId == db.userCharacters[s.value].characterId
              && forall i | 0 <= i < |db.userCharacters| && db.userCharacters[i].userId == userId
                   && db.userCharacters[i].isSelected :: i == s.value
  {
    if userId !in db.users {
      r := SelectedNotFound("User not found in database");
    } else if FindSelected(db.userCharacters, userId).Some? {
      var uc := db.userCharacters[FindSelected(db.userCharacters, userId).value];
      r := Found(ViewOf(CharacterOf(db.characters, uc.characterId), uc));
    } else if FindOwned(db.userCharacters, userId).None? {
      r := SelectedNotFound("No character found for this user");
    } else {
      r := MarkFirstSelected(db, userId);
    }
  }

  /** The repair: the user's first row, none of the user's rows being selected, is marked selected. */
  method MarkFirstSelected(db: Store, userId: string) returns (r: SelectedOutcome)
    requires db.Valid() && FindSelected(db.userCharacters, userId).None? && FindOwned(db.userCharacters, userId).Some?
    modifies db`userCharacters
    ensures db.Valid()
    ensures old(Balanced(db)) ==> Balanced(db)
    ensures var j := FindOwned(old(db.userCharacters), userId).value;
            var uc := old(db.userCharacters)[j].(isSelected := true);
            && db.userCharacters == old(db.userCharacters)[j := uc]
            && r == Found(ViewOf(CharacterOf(db.characters, uc.characterId), uc))
            && FindSelected(db.userCharacters, userId) == Some(j)
            && forall i | 0 <= i < |db.userCharacters| && db.userCharacters[i].userId == userId ::
                 db.userCharacters[i].isSelected <==> i == j
  {
    var j := FindOwned(db.userCharacters, userId).value;
    var uc := db.userCharacters[j].(isSelected := true);
    MarkUnselectedKeepsTables(db.userCharacters, db.characters, db.questCompletions, db.nextCompletionId, j);
    db.userCharacters := db.userCharacters[j := uc];
    assert db.userCharacters[j].userId == userId && db.userCharacters[j].isSelected;
    r := Found(ViewOf(CharacterOf(db.characters, uc.characterId), uc));
  }

  /**
   * SelectCharacter: rejects a missing or non-positive character id, then an
   * unknown user, then an unknown character, writing nothing; otherwise runs
   * the selection transaction and answers with the target row's view.
   */
  method SelectCharacter(db: Store, userId: string, request: Option<int>) returns (r: SelectOutcome)
    requires db.Valid()
    modifies db`userCharacters
    ensures db.Valid()
    ensures old(Balanced(db)) ==> Balanced(db)
    ensures request.None? || request.value <= 0 ==> r == BadRequest("Invalid character ID") && unchanged(db)
    ensures request.Some? && request.value > 0 && userId !in db.users ==>
              r == NotFound("User not found in database") && unchanged(db)
    ensures request.Some? && request.value > 0 && userId in db.users && !InCatalog(db.characters, request.value) ==>
              r == NotFound("Character not found") && unchanged(db)
    ensures r.Selected? <==> request.Some? && request.value > 0 && userId in db.users
                             && InCatalog(db.characters, request.value)
    ensures r.Selected? ==>
              var characterId := request.value;
              var base := WithRow(old(db.userCharacters), db.characters, userId, characterId);
              && Owns(base, userId, characterId)
              && db.userCharacters == SelectOnly(base, userId, characterId)
              && var uc := base[FindRow(base, userId, characterId).value];
                 r.view == ViewOf(CharacterOf(db.characters, characterId), uc.(isSelected := true))
  {
    if request.None? || request.value <= 0 {
      r := BadRequest("Invalid character ID");
    } else if userId !in db.users {
      r := NotFound("User not found in database");
    } else if FindCharacter(db.characters, request.value).None? {
      r := NotFound("Character not found");
    } else {
      var characterId := request.value;
      var t := ApplySelection(db, userId, characterId);
      r := Selected(ViewOf(CharacterOf(db.characters, characterId), db.userCharacters[t]));
    }
  }
}
