/**
 * Services/Implementations/CharacterService.cs: the catalog operations that
 * guard the ledger — the in-use guard on delete, the field copy on update
 * and the null check on create.
 */
module CharacterService {
  import opened Wrappers
  import opened Models

  /** Some user-character row references the character. */
  predicate InUse(rows: seq<UserCharacter>, characterId: int)
  {
    exists i | 0 <= i < |rows| :: rows[i].characterId == characterId
  }

  datatype CreateOutcome = ArgumentNull | Created(character: Character)

  /** Removing catalog entry `k`, which no row references, keeps the catalog keys and every row's foreign key. */
  lemma RemoveCharacterKeepsCatalog(catalog: seq<Character>, nextId: int, rows: seq<UserCharacter>, k: nat)
    requires CatalogValid(catalog, nextId) && RowsWellFormed(rows, catalog) && k < |catalog|
    requires !InUse(rows, catalog[k].characterId)
    ensures CatalogValid(catalog[..k] + catalog[k + 1..], nextId)
    ensures RowsWellFormed(rows, catalog[..k] + catalog[k + 1..])
  {
    var catalog' := catalog[..k] + catalog[k + 1..];
    assert forall j | 0 <= j < |catalog'| :: catalog'[j] == catalog[if j < k then j else j + 1];
    forall i | 0 <= i < |rows| ensures InCatalog(catalog', rows[i].characterId) {
      assert InCatalog(catalog, rows[i].characterId);
      var j :| 0 <= j < |catalog| && catalog[j].characterId == rows[i].characterId;
      assert catalog'[if j < k then j else j - 1] == catalog[j];
    }
  }

  /** Removing catalog entry `k` removes exactly the characters with its key, given unique keys. */
  lemma RemoveCharacterRemovesExactly(catalog: seq<Character>, k: nat)
    requires CatalogKeysUnique(catalog) && k < |catalog|
    ensures !InCatalog(catalog[..k] + catalog[k + 1..], catalog[k].characterId)
    ensures forall c :: c in catalog[..k] + catalog[k + 1..] <==> c in catalog && c.characterId != catalog[k].characterId
  {
    var catalog' := catalog[..k] + catalog[k + 1..];
    assert forall j | 0 <= j < |catalog'| :: catalog'[j] == catalog[if j < k then j else j + 1];
    forall c ensures c in catalog' <==> c in catalog && c.characterId != catalog[k].characterId {
      if c in catalog && c.characterId != catalog[k].characterId {
        var j :| 0 <= j < |catalog| && catalog[j] == c;
        assert catalog'[if j < k then j else j - 1] == c;
      }
    }
  }

  /** Appending a character with the next identity value keeps the catalog keys and every foreign key. */
  lemma AppendCharacterKeepsCatalog(catalog: seq<Character>, nextId: int, rows: seq<UserCharacter>, c: Character)
    requires CatalogValid(catalog, nextId) && RowsWellFormed(rows, catalog) && c.characterId == nextId
    ensures CatalogValid(catalog + [c], nextId + 1) && RowsWellFormed(rows, catalog + [c])
  {
    forall i | 0 <= i < |rows| ensures InCatalog(catalog + [c], rows[i].characterId) {
      assert InCatalog(catalog, rows[i].characterId);
      var j :| 0 <= j < |catalog| && catalog[j].characterId == rows[i].characterId;
      assert (catalog + [c])[j] == catalog[j];
    }
  }

  /** Replacing a catalog entry by one with the same key keeps the catalog keys and every foreign key. */
  lemma ReplaceCharacterKeepsCatalog(catalog: seq<Character>, nextId: int, rows: seq<UserCharacter>, k: nat,
                                     c: Character)
    requires CatalogValid(catalog, nextId) && RowsWellFormed(rows, catalog) && k < |catalog|
    requires c.characterId == catalog[k].characterId
    ensures CatalogValid(catalog[k := c], nextId) && RowsWellFormed(rows, catalog[k := c])
  {
    forall i | 0 <= i < |rows| ensures InCatalog(catalog[k := c], rows[i].characterId) {
      assert InCatalog(catalog, rows[i].characterId);
      var j :| 0 <= j < |catalog| && catalog[j].characterId == rows[i].characterId;
      assert catalog[k := c][j].characterId == catalog[j].characterId;
    }
  }

  /**
   * Deletes a catalog character: false, removing nothing, when the id is
   * unknown or any user-character row references it; otherwise exactly
   * that character is removed.
   */
  method DeleteCharacter(db: Store, id: int) returns (ok: bool)
    requires db.Valid()
    modifies db`characters
    ensures db.Valid()
    ensures ok <==> InCatalog(old(db.characters), id) && !InUse(db.userCharacters, id)
    ensures !ok ==> unchanged(db)
    ensures ok ==> |db.characters| == |old(db.characters)| - 1
    ensures ok ==> !InCatalog(db.characters, id)
    ensures ok ==> forall c :: c in db.characters <==> c in old(db.characters) && c.characterId != id
  {
    var found := FindCharacter(db.characters, id);
    if found.None? {
      return false;
    }
    if FirstIndex(db.userCharacters, (uc: UserCharacter) => uc.characterId == id).Some? {
      return false;
    }
    var k := found.value;
    var catalog' := db.characters[..k] + db.characters[k + 1..];
    RemoveCharacterKeepsCatalog(db.characters, db.nextCharacterId, db.userCharacters, k);
    RemoveCharacterRemovesExactly(db.characters, k);
    db.characters := catalog';
    ok := true;
  }

  /**
   * Adds a catalog character; the database assigns its identity value.
   * A null argument is rejected and nothing is added.
   */
  method CreateCharacter(db: Store, character: Option<Character>) returns (r: CreateOutcome)
    requires db.Valid()
    modifies db`characters, db`nextCharacterId
    ensures db.Valid()
    ensures character.None? ==> r == ArgumentNull && unchanged(db)
    ensures character.Some? ==>
              && r == Created(character.value.(characterId := old(db.nextCharacterId)))
              && db.characters == old(db.characters) + [r.character]
              && db.nextCharacterId == old(db.nextCharacterId) + 1
    ensures r.Created? ==> forall i | 0 <= i < |old(db.characters)| ::
              old(db.characters)[i].characterId != r.character.characterId
  {
    if character.None? {
      return ArgumentNull;
    }
    var created := character.value.(characterId := db.nextCharacterId);
    var catalog := db.characters + [created];
    AppendCharacterKeepsCatalog(db.characters, db.nextCharacterId, db.userCharacters, created);
    db.characters := catalog;
    db.nextCharacterId := db.nextCharacterId + 1;
    r := Created(created);
  }

  /** The stored character with every field but the key taken from the update. */
  function CopyBaseFields(existing: Character, update: Character): (r: Character)
    ensures r.characterId == existing.characterId
    ensures r.(characterId := update.characterId) == update
  {
    Character(existing.characterId, update.name, update.characterClass, update.imageUrl,
              update.baseStrength, update.baseAgility, update.baseIntelligence,
              update.baseHealth, update.baseAttackPower)
  }

  /**
   * Overwrites the name, class, image and the five base stats of the
   * character with this id, returning it; None, changing nothing, for an
   * unknown id.
   */
  method UpdateCharacter(db: Store, id: int, character: Character) returns (r: Option<Character>)
    requires db.Valid()
    modifies db`characters
    ensures db.Valid()
    ensures r.None? <==> !InCatalog(old(db.characters), id)
    ensures r.None? ==> unchanged(db)
    ensures r.Some? ==>
              var k := FindCharacter(old(db.characters), id).value;
              && db.characters == old(db.characters)[k := CopyBaseFields(old(db.characters)[k], character)]
              && r.value == db.characters[k] && r.value.characterId == id
  {
    var found := FindCharacter(db.characters, id);
    if found.None? {
      return None;
    }
    var k := found.value;
    var updated := CopyBaseFields(db.characters[k], character);
    var catalog := db.characters[k := updated];
    ReplaceCharacterKeepsCatalog(db.characters, db.nextCharacterId, db.userCharacters, k, updated);
    db.characters := catalog;
    r := Some(updated);
  }
}
