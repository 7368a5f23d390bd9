/**
 * The selection state machine shared by the selection endpoints: the target
 * row becomes the user's only selected row, and the deselection loop that
 * clears the user's other rows.
 */
module Selection {
  import opened Wrappers
  import opened Models
  import opened Progression

  /**
   * The row table after `userId` selects `characterId`: the user's rows are
   * selected exactly when they are the target, other users' rows are untouched.
   */
  function SelectOnly(rows: seq<UserCharacter>, userId: string, characterId: int): (r: seq<UserCharacter>)
    ensures SameProgress(rows, r)
    ensures forall i | 0 <= i < |rows| && rows[i].userId != userId :: r[i] == rows[i]
    ensures forall i | 0 <= i < |rows| && rows[i].userId == userId ::
              r[i].isSelected <==> rows[i].characterId == characterId
  {
    seq(|rows|, i requires 0 <= i < |rows| =>
      if rows[i].userId == userId then rows[i].(isSelected := rows[i].characterId == characterId)
      else rows[i])
  }

  /**
   * When the pair is owned and keys are unique, the target row is the one and
   * only selected row of the user afterwards, and no user has two selected rows.
   */
  lemma SoleSelection(rows: seq<UserCharacter>, userId: string, characterId: int)
    requires RowKeysUnique(rows) && AtMostOneSelected(rows) && Owns(rows, userId, characterId)
    ensures var r := SelectOnly(rows, userId, characterId);
            var t := FindRow(rows, userId, characterId).value;
            forall i | 0 <= i < |r| :: (r[i].userId == userId && r[i].isSelected) <==> i == t
    ensures AtMostOneSelected(SelectOnly(rows, userId, characterId))
  {
  }

  /**
   * The loop that clears IsSelected on every other row of the user; rows of
   * other users and the target row are left as they are.
   */
  method DeselectOthers(db: Store, userId: string, characterId: int)
    modifies db`userCharacters
    ensures |db.userCharacters| == |old(db.userCharacters)|
    ensures forall i | 0 <= i < |db.userCharacters| ::
              db.userCharacters[i] ==
                var uc := old(db.userCharacters)[i];
                if uc.userId == userId && uc.characterId != characterId then uc.(isSelected := false) else uc
  {
    var i := 0;
    while i < |db.userCharacters|
      invariant 0 <= i <= |db.userCharacters| == |old(db.userCharacters)|
      invariant forall j | 0 <= j < i ::
                  db.userCharacters[j] ==
                    var uc := old(db.userCharacters)[j];
                    if uc.userId == userId && uc.characterId != characterId then uc.(isSelected := false) else uc
      invariant forall j | i <= j < |db.userCharacters| :: db.userCharacters[j] == old(db.userCharacters)[j]
    {
      var uc := db.userCharacters[i];
      if uc.userId == userId && uc.characterId != characterId {
        db.userCharacters := db.userCharacters[i := uc.(isSelected := false)];
      }
      i := i + 1;
    }
  }

  /**
   * Marking the target selected and then clearing the user's other rows
   * yields SelectOnly, provided the target row exists.
   */
  lemma MarkThenDeselectIsSelectOnly(rows: seq<UserCharacter>, t: nat, userId: string, characterId: int,
                                     result: seq<UserCharacter>)
    requires RowKeysUnique(rows)
    requires t < |rows| && rows[t].userId == userId && rows[t].characterId == characterId
    requires |result| == |rows|
    requires forall i | 0 <= i < |result| ::
               result[i] ==
                 var uc := rows[t := rows[t].(isSelected := true)][i];
                 if uc.userId == userId && uc.characterId != characterId then uc.(isSelected := false) else uc
    ensures result == SelectOnly(rows, userId, characterId)
  {
    var expected := SelectOnly(rows, userId, characterId);
    forall i | 0 <= i < |result| ensures result[i] == expected[i] {
      if i != t && rows[i].userId == userId {
        assert rows[i].characterId != characterId;
      }
    }
  }

  /**
   * Selecting a catalog character (creating the row when missing) keeps the
   * table invariants and the ledger, and the target is the user's only
   * selected row afterwards.
   */
  lemma SelectKeepsTables(rows: seq<UserCharacter>, catalog: seq<Character>,
                          completions: seq<QuestCompletion>, nextId: int, userId: string, characterId: int)
    requires TablesValid(rows, catalog, completions, nextId) && InCatalog(catalog, characterId)
    ensures RowKeysUnique(WithRow(rows, catalog, userId, characterId))
    ensures Owns(WithRow(rows, catalog, userId, characterId), userId, characterId)
    ensures TablesValid(SelectOnly(WithRow(rows, catalog, userId, characterId), userId, characterId),
                        catalog, completions, nextId)
    ensures LedgerBalanced(rows, completions) ==>
              LedgerBalanced(SelectOnly(WithRow(rows, catalog, userId, characterId), userId, characterId),
                             completions)
  {
    var base := WithRow(rows, catalog, userId, characterId);
    if !Owns(rows, userId, characterId) {
      var uc := NewUserCharacter(userId, characterId, false);
      AppendRowKeepsTables(rows, catalog, completions, nextId, uc);
      AppendKeepsOwnership(rows, uc, completions);
      if LedgerBalanced(rows, completions) {
        NewRowKeepsLedgerBalanced(rows, completions, userId, characterId, false);
      }
    }
    var r := SelectOnly(base, userId, characterId);
    SoleSelection(base, userId, characterId);
    SameKeysKeepOwnership(base, r, completions);
    if LedgerBalanced(base, completions) {
      SameProgressKeepsLedgerBalanced(base, r, completions);
    }
  }

  /**
   * The transaction both selection endpoints run once their checks pass:
   * create the row selected, or mark the existing one, then clear the
   * user's other rows. Returns the index of the target row.
   */
  method ApplySelection(db: Store, userId: string, characterId: int) returns (t: nat)
    requires db.Valid() && InCatalog(db.characters, characterId)
    modifies db`userCharacters
    ensures db.Valid()
    ensures old(Balanced(db)) ==> Balanced(db)
    ensures db.userCharacters == SelectOnly(WithRow(old(db.userCharacters), db.characters, userId, characterId),
                                            userId, characterId)
    ensures t < |db.userCharacters| && db.userCharacters[t].userId == userId
            && db.userCharacters[t].characterId == characterId && db.userCharacters[t].isSelected
    ensures var base := WithRow(old(db.userCharacters), db.characters, userId, characterId);
            FindRow(base, userId, characterId) == Some(t) && db.userCharacters[t] == base[t].(isSelected := true)
  {
    var rows := db.userCharacters;
    ghost var base := WithRow(rows, db.characters, userId, characterId);
    SelectKeepsTables(rows, db.characters, db.questCompletions, db.nextCompletionId, userId, characterId);
    t := MarkTarget(db, userId, characterId);
    DeselectOthers(db, userId, characterId);
    MarkThenDeselectIsSelectOnly(base, t, userId, characterId, db.userCharacters);
  }

  /**
   * The first save of the selection: the target row is created selected,
   * or the existing one is marked selected. Returns its index.
   */
  method MarkTarget(db: Store, userId: string, characterId: int) returns (t: nat)
    requires InCatalog(db.characters, characterId)
    modifies db`userCharacters
    ensures var base := WithRow(old(db.userCharacters), db.characters, userId, characterId);
            && FindRow(base, userId, characterId) == Some(t)
            && db.userCharacters == base[t := base[t].(isSelected := true)]
  {
    var rows := db.userCharacters;
    WithRowFindsRow(rows, db.characters, userId, characterId);
    var row := FindRow(rows, userId, characterId);
    if row.None? {
      t := |rows|;
      db.userCharacters := rows + [NewUserCharacter(userId, characterId, true)];
    } else {
      t := row.value;
      db.userCharacters := rows[t := rows[t].(isSelected := true)];
    }
  }

  /**
   * Marking one row selected, for a user who has no selected row, keeps
   * the table invariants and the ledger.
   */
  lemma MarkUnselectedKeepsTables(rows: seq<UserCharacter>, catalog: seq<Character>,
                                  completions: seq<QuestCompletion>, nextId: int, j: nat)
    requires TablesValid(rows, catalog, completions, nextId) && j < |rows|
    requires forall i | 0 <= i < |rows| :: !(rows[i].userId == rows[j].userId && rows[i].isSelected)
    ensures TablesValid(rows[j := rows[j].(isSelected := true)], catalog, completions, nextId)
    ensures LedgerBalanced(rows, completions) ==>
              LedgerBalanced(rows[j := rows[j].(isSelected := true)], completions)
  {
    var rows' := rows[j := rows[j].(isSelected := true)];
    SameKeysKeepOwnership(rows, rows', completions);
    assert SameProgress(rows, rows');
    if LedgerBalanced(rows, completions) {
      SameProgressKeepsLedgerBalanced(rows, rows', completions);
    }
  }

  /**
   * The target row after a selection: a new row starts at level 1 with no
   * experience or gold, an owned row keeps its progression; either way it
   * is selected.
   */
  lemma SelectedRowProgress(rows: seq<UserCharacter>, catalog: seq<Character>, userId: string, characterId: int)
    requires RowKeysUnique(rows) && InCatalog(catalog, characterId)
    ensures Owns(SelectOnly(WithRow(rows, catalog, userId, characterId), userId, characterId), userId, characterId)
    ensures var after := SelectOnly(WithRow(rows, catalog, userId, characterId), userId, characterId);
            var uc := after[FindRow(after, userId, characterId).value];
            if Owns(rows, userId, characterId)
            then uc == rows[FindRow(rows, userId, characterId).value].(isSelected := true)
            else uc == NewUserCharacter(userId, characterId, true)
  {
    var base := WithRow(rows, catalog, userId, characterId);
    var after := SelectOnly(base, userId, characterId);
    if !Owns(rows, userId, characterId) {
      AppendKeepsOwnership(rows, NewUserCharacter(userId, characterId, false), []);
    }
    var t := FindRow(base, userId, characterId).value;
    assert after[t].userId == userId && after[t].characterId == characterId;
    var s := FindRow(after, userId, characterId).value;
    assert s == t by {
      assert base[s].userId == userId && base[s].characterId == characterId;
      if s < t {
        assert false;
      }
    }
    if Owns(rows, userId, characterId) {
      assert base == rows;
    } else {
      assert forall m | 0 <= m < |rows| :: base[m] == rows[m];
      assert t == |rows|;
    }
  }
}
