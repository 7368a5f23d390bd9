/**
 * Controllers/QuestController.cs: get-or-create of a user's character row,
 * quest attempts that append to the completion ledger and grant rewards,
 * the compensating delete of a completion, and the completion queries.
 */
module QuestController {
  import opened Wrappers
  import opened Models
  import opened Leveling
  import opened Progression

  /** The body of a quest attempt request. */
  datatype QuestAttempt = QuestAttempt(questId: int, characterId: int)

  /** The responses of the attempt endpoint. */
  datatype AttemptOutcome =
    | BadRequest(message: string)
    | NotFound(message: string)
      /** The soft failure: answered with Success = false and the required level. */
    | LevelTooLow(requiredLevel: int)
    | Completed(experienceGained: int, goldGained: int, levelUp: bool, newLevel: int,
                alreadyCompleted: bool)

  /** The responses of the completion delete endpoint. */
  datatype DeleteOutcome = Deleted | DeleteNotFound(message: string)

  /** A completion as listed to its owner. */
  datatype CompletionEntry = CompletionEntry(
    id: int,
    questId: int,
    characterId: int,
    characterName: string,
    completedOn: int,
    experienceGained: int,
    goldGained: int)

  /** One character's completion of a quest, as the status endpoint lists it. */
  datatype CharacterCompletion = CharacterCompletion(characterId: int, characterName: string, completedOn: int)

  datatype QuestStatus = QuestStatus(
    questId: int,
    title: string,
    isCompleted: bool,
    completedByCharacters: seq<CharacterCompletion>)

  /** The user already has a completion of this quest with this character. */
  predicate HasCompleted(completions: seq<QuestCompletion>, questId: int, characterId: int, userId: string)
  {
    exists k | 0 <= k < |completions| ::
      completions[k].questId == questId && completions[k].characterId == characterId
      && completions[k].userId == userId
  }

  /** The tables an attempt or a completion delete writes. */
  datatype Ledger = Ledger(rows: seq<UserCharacter>, completions: seq<QuestCompletion>, nextCompletionId: int)

  function LedgerOf(db: Store): Ledger
    reads db
  {
    Ledger(db.userCharacters, db.questCompletions, db.nextCompletionId)
  }

  /**
   * The answer to a quest attempt and the ledger it leaves. The checks fail
   * fast in order and write nothing, except that the level gate follows the
   * get-or-create and keeps a row it created. A completed attempt appends
   * one completion with the next identity value and grants its rewards to
   * the attempting row, whatever completions exist already.
   */
  function Attempt(quests: map<int, Quest>, catalog: seq<Character>, l: Ledger, userId: string,
                   model: Option<QuestAttempt>, now: int): (res: (AttemptOutcome, Ledger))
    ensures res.0.BadRequest? || res.0.NotFound? ==> res.1 == l
    ensures model.None? || model.value.questId <= 0 || model.value.characterId <= 0 ==> res.0.BadRequest?
    ensures model.Some? && model.value.questId > 0 && model.value.characterId > 0 && model.value.questId !in quests ==>
              res.0.NotFound?
    ensures !res.0.Completed? ==> res.1.completions == l.completions && res.1.nextCompletionId == l.nextCompletionId
    ensures res.0.LevelTooLow? || res.0.Completed? ==>
              && model.Some? && model.value.questId in quests
              && var before := WithRow(l.rows, catalog, userId, model.value.characterId);
                 && Owns(before, userId, model.value.characterId)
                 && (res.0.LevelTooLow? <==>
                       before[FindRow(before, userId, model.value.characterId).value].level
                       < quests[model.value.questId].requiredLevel)
    ensures res.0.LevelTooLow? ==> res.1.rows == WithRow(l.rows, catalog, userId, model.value.characterId)
    ensures res.0.Completed? ==>
              var quest := quests[model.value.questId];
              && res.1.completions == l.completions +
                   [QuestCompletion(l.nextCompletionId, model.value.questId, model.value.characterId, userId, now,
                                    quest.experienceReward, quest.goldReward)]
              && res.1.nextCompletionId == l.nextCompletionId + 1
              && res.0.experienceGained == quest.experienceReward && res.0.goldGained == quest.goldReward
              && res.0.alreadyCompleted == HasCompleted(l.completions, model.value.questId, model.value.characterId, userId)
  {
    if model.None? || model.value.questId <= 0 || model.value.characterId <= 0 then
      (BadRequest("Invalid quest or character ID"), l)
    else if model.value.questId !in quests then
      (NotFound("Quest not found"), l)
    else
      KnownQuestAttempt(quests, catalog, l, userId, model.value.questId, model.value.characterId, now)
  }

  /** An attempt past the request and quest checks: get-or-create, the level gate, the grant. */
  function KnownQuestAttempt(quests: map<int, Quest>, catalog: seq<Character>, l: Ledger, userId: string,
                             questId: int, characterId: int, now: int): (res: (AttemptOutcome, Ledger))
    requires questId in quests
    ensures !res.0.NotFound?
    ensures res.0.BadRequest? <==> !Owns(l.rows, userId, characterId) && !InCatalog(catalog, characterId)
    ensures res.0.BadRequest? ==> res.1 == l
    ensures !res.0.Completed? ==> res.1.completions == l.completions && res.1.nextCompletionId == l.nextCompletionId
  {
    var quest := quests[questId];
    var rows := WithRow(l.rows, catalog, userId, characterId);
    match FindRow(rows, userId, characterId)
    case None => (BadRequest("Character not found"), l)
    case Some(i) =>
      if rows[i].level < quest.requiredLevel then
        (LevelTooLow(quest.requiredLevel), l.(rows := rows))
      else
        var granted := Grant(rows[i], quest.experienceReward, quest.goldReward);
        var completion := QuestCompletion(l.nextCompletionId, questId, characterId, userId, now,
                                          quest.experienceReward, quest.goldReward);
        (Completed(quest.experienceReward, quest.goldReward, granted.level > rows[i].level, granted.level,
                   HasCompleted(l.completions, questId, characterId, userId)),
         Ledger(rows[i := granted], l.completions + [completion], l.nextCompletionId + 1))
  }

  /**
   * A completed attempt changes only the attempting row: its experience and
   * gold grow by the quest's rewards, its level is raised to the one the
   * new experience reaches (never lowered), and LevelUp reports whether it
   * rose.
   */
  lemma AttemptGrantsRewards(quests: map<int, Quest>, catalog: seq<Character>, l: Ledger, userId: string,
                             model: Option<QuestAttempt>, now: int)
    requires Attempt(quests, catalog, l, userId, model, now).0.Completed?
    ensures var res := Attempt(quests, catalog, l, userId, model, now);
            var quest := quests[model.value.questId];
            var before := WithRow(l.rows, catalog, userId, model.value.characterId);
            && FindRow(before, userId, model.value.characterId).Some?
            && var j := FindRow(before, userId, model.value.characterId).value;
               res.1.rows == before[j := Grant(before[j], quest.experienceReward, quest.goldReward)]
    ensures var res := Attempt(quests, catalog, l, userId, model, now);
            var quest := quests[model.value.questId];
            var before := WithRow(l.rows, catalog, userId, model.value.characterId);
            var j := FindRow(before, userId, model.value.characterId).value;
            var after := res.1.rows[j];
            && (forall m | 0 <= m < |before| && m != j :: res.1.rows[m] == before[m])
            && after.userId == userId && after.characterId == model.value.characterId
            && after.isSelected == before[j].isSelected
            && after.experience == before[j].experience + quest.experienceReward
            && after.gold == before[j].gold + quest.goldReward
            && after.level >= before[j].level && after.experience < after.level * ExperiencePerLevel
            && (after.level == before[j].level || (after.level - 1) * ExperiencePerLevel <= after.experience)
            && res.0.newLevel == after.level
            && (res.0.levelUp <==> after.level > before[j].level)
  {
    var res := Attempt(quests, catalog, l, userId, model, now);
    var quest := quests[model.value.questId];
    var before := WithRow(l.rows, catalog, userId, model.value.characterId);
    var j := FindRow(before, userId, model.value.characterId).value;
    var after := res.1.rows[j];
    assert after == Grant(before[j], quest.experienceReward, quest.goldReward);
  }

  /**
   * The answer to a completion delete and the ledger it leaves: not found,
   * writing nothing, unless a completion has this id and belongs to the
   * caller; otherwise that completion is removed and, when the caller still
   * has the row it was earned with, its gains are reverted on that row.
   */
  function DeleteCompletion(l: Ledger, userId: string, completionId: int): (res: (DeleteOutcome, Ledger))
    ensures res.1.nextCompletionId == l.nextCompletionId
    ensures res.0.DeleteNotFound? <==>
              forall k | 0 <= k < |l.completions| ::
                !(l.completions[k].id == completionId && l.completions[k].userId == userId)
    ensures res.0.DeleteNotFound? ==> res.1 == l
    ensures res.0.Deleted? ==>
              var k := FindCompletion(l.completions, completionId, userId).value;
              var qc := l.completions[k];
              && res.1.completions == l.completions[..k] + l.completions[k + 1..]
              && |res.1.rows| == |l.rows|
              && (!Owns(l.rows, userId, qc.characterId) ==> res.1.rows == l.rows)
              && (Owns(l.rows, userId, qc.characterId) ==>
                    var i := FindRow(l.rows, userId, qc.characterId).value;
                    && res.1.rows[i] == Revert(l.rows[i], qc.experienceGained, qc.goldGained)
                    && forall m | 0 <= m < |l.rows| && m != i :: res.1.rows[m] == l.rows[m])
  {
    match FindCompletion(l.completions, completionId, userId)
    case None => (DeleteNotFound("Quest completion record not found or does not belong to you."), l)
    case Some(k) =>
      var qc := l.completions[k];
      var rows := match FindRow(l.rows, userId, qc.characterId)
        case None => l.rows
        case Some(i) => l.rows[i := Revert(l.rows[i], qc.experienceGained, qc.goldGained)];
      (Deleted, l.(rows := rows, completions := l.completions[..k] + l.completions[k + 1..]))
  }

  /**
   * Attempting the same quest again right after a completed attempt is
   * completed again, reports the earlier completion and grants the rewards
   * a second time: nothing is deduplicated.
   */
  lemma RepeatAttemptGrantsAgain(quests: map<int, Quest>, catalog: seq<Character>, l: Ledger, userId: string,
                                 model: Option<QuestAttempt>, now: int, later: int)
    requires Attempt(quests, catalog, l, userId, model, now).0.Completed?
    ensures var first := Attempt(quests, catalog, l, userId, model, now);
            var second := Attempt(quests, catalog, first.1, userId, model, later);
            var quest := quests[model.value.questId];
            var before := WithRow(l.rows, catalog, userId, model.value.characterId);
            var j := FindRow(before, userId, model.value.characterId).value;
            && second.0.Completed? && second.0.alreadyCompleted
            && |second.1.completions| == |l.completions| + 2
            && second.1.rows[j].experience == before[j].experience + 2 * quest.experienceReward
            && second.1.rows[j].gold == before[j].gold + 2 * quest.goldReward
  {
    var first := Attempt(quests, catalog, l, userId, model, now);
    var questId, characterId := model.value.questId, model.value.characterId;
    var before := WithRow(l.rows, catalog, userId, characterId);
    var j := FindRow(before, userId, characterId).value;
    assert SameKeys(before, first.1.rows);
    SameKeysSameRow(before, first.1.rows, userId, characterId);
    assert WithRow(first.1.rows, catalog, userId, characterId) == first.1.rows;
    assert first.1.completions[|l.completions|].questId == questId;
    assert HasCompleted(first.1.completions, questId, characterId, userId);
  }

  /**
   * Deleting the completion an attempt just recorded undoes the attempt:
   * the completions are as before and the row's experience, gold and level
   * are restored, provided completion ids are fresh, rewards are
   * non-negative and, when the attempted row already existed, its level is
   * the one its experience determines and its gold is not negative.
   * Only a row the attempt created stays, at level 1 with nothing earned.
   */
  lemma AttemptThenDeleteRestores(quests: map<int, Quest>, catalog: seq<Character>, l: Ledger, userId: string,
                                  model: Option<QuestAttempt>, now: int)
    requires CompletionIdsFresh(l.completions, l.nextCompletionId) && RewardsNonNegative(quests)
    requires Attempt(quests, catalog, l, userId, model, now).0.Completed?
    requires Owns(l.rows, userId, model.value.characterId) ==>
               var uc := l.rows[FindRow(l.rows, userId, model.value.characterId).value];
               LevelDerived(uc) && uc.gold >= 0
    ensures DeleteCompletion(Attempt(quests, catalog, l, userId, model, now).1, userId, l.nextCompletionId)
            == (Deleted, Ledger(WithRow(l.rows, catalog, userId, model.value.characterId), l.completions,
                                l.nextCompletionId + 1))
  {
    var after := Attempt(quests, catalog, l, userId, model, now).1;
    var questId, characterId := model.value.questId, model.value.characterId;
    var quest := quests[questId];
    var before := WithRow(l.rows, catalog, userId, characterId);
    AttemptGrantsRewards(quests, catalog, l, userId, model, now);
    var j := FindRow(before, userId, characterId).value;
    var qc := QuestCompletion(l.nextCompletionId, questId, characterId, userId, now,
                              quest.experienceReward, quest.goldReward);
    AppendedCompletionIsFound(l.completions, qc);
    assert SameKeys(before, after.rows);
    SameKeysSameRow(before, after.rows, userId, characterId);
    assert LevelDerived(before[j]) && before[j].gold >= 0 by {
      if !Owns(l.rows, userId, characterId) {
        assert before[j] == NewUserCharacter(userId, characterId, false);
      }
    }
    GrantThenRevert(before[j], quest.experienceReward, quest.goldReward);
    assert after.rows[j := before[j]] == before;
  }

  /** A completion appended with a fresh id is the one a delete by that id and its owner finds. */
  lemma AppendedCompletionIsFound(completions: seq<QuestCompletion>, qc: QuestCompletion)
    requires forall k | 0 <= k < |completions| :: completions[k].id < qc.id
    ensures FindCompletion(completions + [qc], qc.id, qc.userId) == Some(|completions|)
    ensures (completions + [qc])[..|completions|] + (completions + [qc])[|completions| + 1..] == completions
  {
    var all := completions + [qc];
    assert all[|completions|] == qc;
    assert forall m | 0 <= m < |completions| :: all[m] == completions[m];
    assert all[..|completions|] == completions;
  }

  /**
   * An attempt keeps every row's experience and gold equal to the sum its
   * completions granted (and its level derived from the experience),
   * provided the catalog's rewards are non-negative.
   */
  lemma AttemptKeepsLedgerBalanced(quests: map<int, Quest>, catalog: seq<Character>, l: Ledger, userId: string,
                                   model: Option<QuestAttempt>, now: int)
    requires TablesValid(l.rows, catalog, l.completions, l.nextCompletionId)
    requires LedgerBalanced(l.rows, l.completions) && RewardsNonNegative(quests)
    ensures var res := Attempt(quests, catalog, l, userId, model, now).1;
            LedgerBalanced(res.rows, res.completions)
  {
    var res := Attempt(quests, catalog, l, userId, model, now);
    if res.0.LevelTooLow? || res.0.Completed? {
      var characterId := model.value.characterId;
      var before := WithRow(l.rows, catalog, userId, characterId);
      if !Owns(l.rows, userId, characterId) {
        var uc := NewUserCharacter(userId, characterId, false);
        NewRowKeepsLedgerBalanced(l.rows, l.completions, userId, characterId, false);
        AppendRowKeepsTables(l.rows, catalog, l.completions, l.nextCompletionId, uc);
      }
      if res.0.Completed? {
        var quest := quests[model.value.questId];
        var j := FindRow(before, userId, characterId).value;
        var qc := QuestCompletion(l.nextCompletionId, model.value.questId, characterId, userId, now,
                                  quest.experienceReward, quest.goldReward);
        GrantKeepsLedgerBalanced(before, l.completions, j, qc);
        assert res.1.rows == before[j := Grant(before[j], quest.experienceReward, quest.goldReward)];
      }
    }
  }

  /**
   * Deleting a completion keeps the ledger balanced: the reverted gains are
   * exactly the removed completion's.
   */
  lemma DeleteKeepsLedgerBalanced(l: Ledger, userId: string, completionId: int)
    requires LedgerBalanced(l.rows, l.completions) && RowKeysUnique(l.rows)
    requires CompletionsOwned(l.completions, l.rows)
    ensures var res := DeleteCompletion(l, userId, completionId).1;
            LedgerBalanced(res.rows, res.completions)
  {
    var found := FindCompletion(l.completions, completionId, userId);
    if found.Some? {
      var k := found.value;
      var qc := l.completions[k];
      var i := FindRow(l.rows, userId, qc.characterId).value;
      RevertKeepsLedgerBalanced(l.rows, l.completions, i, k);
    }
  }

  /**
   * Returns the (userId, characterId) row, creating it with Level 1,
   * Experience 0 and Gold 0 when the catalog has the character; returns
   * None, writing nothing, when it does not.
   */
  method GetOrCreateUserCharacter(db: Store, userId: string, characterId: int) returns (row: Option<nat>)
    requires db.Valid()
    modifies db`userCharacters
    ensures db.Valid()
    ensures db.userCharacters == WithRow(old(db.userCharacters), db.characters, userId, characterId)
    ensures row == FindRow(db.userCharacters, userId, characterId)
  {
    var rows := db.userCharacters;
    WithRowFindsRow(rows, db.characters, userId, characterId);
    row := FindRow(rows, userId, characterId);
    if row.None? && FindCharacter(db.characters, characterId).Some? {
      var uc := NewUserCharacter(userId, characterId, false);
      AppendRowKeepsTables(rows, db.characters, db.questCompletions, db.nextCompletionId, uc);
      db.userCharacters := rows + [uc];
      row := Some(|rows|);
    }
  }

  /**
   * The success path of an attempt, as one save: append the completion
   * with the next identity value, add the rewards to row `i` and run the
   * level-up loop.
   */
  method RecordCompletion(db: Store, userId: string, quest: Quest, i: nat, now: int)
    returns (leveledUp: bool, newLevel: int)
    requires db.Valid() && quest.id in db.quests && db.quests[quest.id] == quest
    requires i < |db.userCharacters| && db.userCharacters[i].userId == userId
    modifies db`userCharacters, db`questCompletions, db`nextCompletionId
    ensures db.Valid()
    ensures var granted := Grant(old(db.userCharacters)[i], quest.experienceReward, quest.goldReward);
            && db.userCharacters == old(db.userCharacters)[i := granted]
            && newLevel == granted.level
            && (leveledUp <==> granted.level > old(db.userCharacters)[i].level)
    ensures db.questCompletions == old(db.questCompletions) +
              [QuestCompletion(old(db.nextCompletionId), quest.id, old(db.userCharacters)[i].characterId, userId,
                               now, quest.experienceReward, quest.goldReward)]
    ensures db.nextCompletionId == old(db.nextCompletionId) + 1
  {
    var uc := db.userCharacters[i];
    var completion := QuestCompletion(db.nextCompletionId, quest.id, uc.characterId, userId, now,
                                      quest.experienceReward, quest.goldReward);
    var experience := uc.experience + quest.experienceReward;
    var gold := uc.gold + quest.goldReward;
    var oldLevel := uc.level;
    newLevel := RaiseLevel(oldLevel, experience);
    leveledUp := newLevel > oldLevel;

    var updated := uc.(experience := experience, gold := gold, level := newLevel);
    assert updated == Grant(uc, completion.experienceGained, completion.goldGained);
    var rows := db.userCharacters;
    var completions := db.questCompletions;
    UpdateRowKeepsTables(rows, db.characters, completions, db.nextCompletionId, i, updated);
    assert Owns(rows[i := updated], userId, uc.characterId) by {
      assert rows[i := updated][i].userId == userId && rows[i := updated][i].characterId == uc.characterId;
    }
    AppendCompletionKeepsTables(rows[i := updated], db.characters, completions, db.nextCompletionId, completion);
    db.userCharacters := rows[i := updated];
    db.questCompletions := completions + [completion];
    db.nextCompletionId := db.nextCompletionId + 1;
  }

  /**
   * A quest attempt. Fail-fast checks in order: the request's ids, the
   * quest, the character (get-or-create); then the level gate, a soft
   * failure. Otherwise one completion row is appended, the rewards are added
   * and the level-up loop runs. Repeats are not deduplicated.
   */
  method AttemptQuest(db: Store, userId: string, model: Option<QuestAttempt>, now: int)
    returns (r: AttemptOutcome)
    requires db.Valid()
    modifies db`userCharacters, db`questCompletions, db`nextCompletionId
    ensures db.Valid()
    ensures (r, LedgerOf(db)) == Attempt(db.quests, db.characters, old(LedgerOf(db)), userId, model, now)
  {
    if model.None? || model.value.questId <= 0 || model.value.characterId <= 0 {
      return BadRequest("Invalid quest or character ID");
    }
    if model.value.questId !in db.quests {
      return NotFound("Quest not found");
    }
    r := AttemptKnownQuest(db, userId, model.value.questId, model.value.characterId, now);
  }

  /** The attempt once the request and the quest have passed their checks. */
  method AttemptKnownQuest(db: Store, userId: string, questId: int, characterId: int, now: int)
    returns (r: AttemptOutcome)
    requires db.Valid() && questId in db.quests
    modifies db`userCharacters, db`questCompletions, db`nextCompletionId
    ensures db.Valid()
    ensures (r, LedgerOf(db)) ==
            KnownQuestAttempt(db.quests, db.characters, old(LedgerOf(db)), userId, questId, characterId, now)
  {
    ghost var l := LedgerOf(db);
    var row := GetOrCreateUserCharacter(db, userId, characterId);
    if row.None? {
      return BadRequest("Character not found");
    }
    KnownQuestAttemptAfterGetOrCreate(db.quests, db.characters, l, userId, questId, characterId, now);
    r := GateAndRecord(db, userId, questId, characterId, now);
  }

  /** Past get-or-create the attempt goes on from the rows it left, which it leaves alone. */
  lemma KnownQuestAttemptAfterGetOrCreate(quests: map<int, Quest>, catalog: seq<Character>, l: Ledger,
                                          userId: string, questId: int, characterId: int, now: int)
    requires questId in quests && Owns(WithRow(l.rows, catalog, userId, characterId), userId, characterId)
    ensures var l' := l.(rows := WithRow(l.rows, catalog, userId, characterId));
            KnownQuestAttempt(quests, catalog, l', userId, questId, characterId, now)
            == KnownQuestAttempt(quests, catalog, l, userId, questId, characterId, now)
  {
    var rows := WithRow(l.rows, catalog, userId, characterId);
    assert WithRow(rows, catalog, userId, characterId) == rows;
  }

  /** The level gate and, past it, the recorded completion, once the row exists. */
  method GateAndRecord(db: Store, userId: string, questId: int, characterId: int, now: int)
    returns (r: AttemptOutcome)
    requires db.Valid() && questId in db.quests && Owns(db.userCharacters, userId, characterId)
    modifies db`userCharacters, db`questCompletions, db`nextCompletionId
    ensures db.Valid()
    ensures (r, LedgerOf(db)) ==
            KnownQuestAttempt(db.quests, db.characters, old(LedgerOf(db)), userId, questId, characterId, now)
  {
    var quest := db.quests[questId];
    var i := FindRow(db.userCharacters, userId, characterId).value;
    var uc := db.userCharacters[i];
    if uc.level < quest.requiredLevel {
      return LevelTooLow(quest.requiredLevel);
    }
    var alreadyCompleted := HasCompleted(db.questCompletions, questId, characterId, userId);
    var leveledUp, newLevel := RecordCompletion(db, userId, quest, i, now);
    r := Completed(quest.experienceReward, quest.goldReward, leveledUp, newLevel, alreadyCompleted);
  }

  /**
   * The compensating delete of one of the caller's completions: subtract its
   * gains from the row (floored at 0), run the level-down loop, delete the
   * completion. A completion of another user is reported as not found.
   */
  method DeleteQuestCompletion(db: Store, userId: string, completionId: int) returns (r: DeleteOutcome)
    requires db.Valid()
    modifies db`userCharacters, db`questCompletions
    ensures db.Valid()
    ensures (r, LedgerOf(db)) == DeleteCompletion(old(LedgerOf(db)), userId, completionId)
  {
    ghost var l := LedgerOf(db);
    var found := FindCompletion(db.questCompletions, completionId, userId);
    if found.None? {
      r := DeleteNotFound("Quest completion record not found or does not belong to you.");
    } else {
      var k := found.value;
      var completion := db.questCompletions[k];
      var row := FindRow(db.userCharacters, userId, completion.characterId);
      if row.Some? {
        RevertGains(db, row.value, completion);
      }
      assert db.userCharacters == DeleteCompletion(l, userId, completionId).1.rows;
      RemoveCompletion(db, k);
      r := Deleted;
    }
  }

  /** Deletes completion `k`. */
  method RemoveCompletion(db: Store, k: nat)
    requires db.Valid() && k < |db.questCompletions|
    modifies db`questCompletions
    ensures db.Valid()
    ensures db.questCompletions == old(db.questCompletions)[..k] + old(db.questCompletions)[k + 1..]
  {
    var completions := db.questCompletions;
    RemoveCompletionKeepsTables(db.userCharacters, db.characters, completions, db.nextCompletionId, k);
    db.questCompletions := completions[..k] + completions[k + 1..];
  }

  /**
   * Subtracts a completion's gains from row `i`, each floored at 0, and runs
   * the level-down loop.
   */
  method RevertGains(db: Store, i: nat, completion: QuestCompletion)
    requires db.Valid() && i < |db.userCharacters|
    modifies db`userCharacters
    ensures db.Valid()
    ensures db.userCharacters == old(db.userCharacters)[i := Revert(old(db.userCharacters)[i],
                                                                     completion.experienceGained,
                                                                     completion.goldGained)]
  {
    var uc := db.userCharacters[i];
    var experience := Max0(uc.experience - completion.experienceGained);
    var gold := Max0(uc.gold - completion.goldGained);
    var level := LowerLevel(uc.level, experience);
    var updated := uc.(experience := experience, gold := gold, level := level);
    assert updated == Revert(uc, completion.experienceGained, completion.goldGained);
    UpdateRowKeepsTables(db.userCharacters, db.characters, db.questCompletions, db.nextCompletionId, i, updated);
    db.userCharacters := db.userCharacters[i := updated];
  }

  /** The completions `keep` selects, with their character's name. */
  function CompletionEntries(catalog: seq<Character>, completions: seq<QuestCompletion>,
                             keep: QuestCompletion -> bool): (r: seq<CompletionEntry>)
    requires forall k | 0 <= k < |completions| :: InCatalog(catalog, completions[k].characterId)
    ensures |r| <= |completions|
    ensures forall e | e in r :: exists k | 0 <= k < |completions| ::
              keep(completions[k]) && e == EntryOf(catalog, completions[k])
    ensures forall k | 0 <= k < |completions| && keep(completions[k]) ::
              EntryOf(catalog, completions[k]) in r
  {
    var kept := Filter(completions, keep);
    assert forall j | 0 <= j < |kept| :: kept[j] in completions && keep(kept[j]);
    var r := seq(|kept|, j requires 0 <= j < |kept| => EntryOf(catalog, kept[j]));
    assert forall k | 0 <= k < |completions| && keep(completions[k]) :: EntryOf(catalog, completions[k]) in r by {
      forall k | 0 <= k < |completions| && keep(completions[k]) ensures EntryOf(catalog, completions[k]) in r {
        assert completions[k] in kept;
        var j :| 0 <= j < |kept| && kept[j] == completions[k];
        assert r[j] == EntryOf(catalog, completions[k]);
      }
    }
    r
  }

  /**
   * One entry per kept completion, the j-th from the j-th completion that
   * `keep` selects; with distinct completion ids, no id is listed twice.
   */
  lemma CompletionEntriesOnePerCompletion(catalog: seq<Character>, completions: seq<QuestCompletion>,
                                          keep: QuestCompletion -> bool)
    requires forall k | 0 <= k < |completions| :: InCatalog(catalog, completions[k].characterId)
    ensures var r := CompletionEntries(catalog, completions, keep);
            && |r| == |Filter(completions, keep)|
            && forall j | 0 <= j < |r| :: r[j].id == Filter(completions, keep)[j].id
    ensures (forall a, b | 0 <= a < b < |completions| :: completions[a].id != completions[b].id) ==>
              var r := CompletionEntries(catalog, completions, keep);
              forall a, b | 0 <= a < b < |r| :: r[a].id != r[b].id
  {
    var r := CompletionEntries(catalog, completions, keep);
    var kept := Filter(completions, keep);
    if forall a, b | 0 <= a < b < |completions| :: completions[a].id != completions[b].id {
      FilterKeepsKeysDistinct(completions, keep, (qc: QuestCompletion) => qc.id);
      forall a, b | 0 <= a < b < |r| ensures r[a].id != r[b].id {
        assert r[a].id == kept[a].id && r[b].id == kept[b].id;
      }
    }
  }

  function EntryOf(catalog: seq<Character>, qc: QuestCompletion): CompletionEntry
    requires InCatalog(catalog, qc.characterId)
  {
    CompletionEntry(qc.id, qc.questId, qc.characterId, CharacterOf(catalog, qc.characterId).name,
                    qc.completedOn, qc.experienceGained, qc.goldGained)
  }

  /** GetCompletedQuests: exactly the caller's completions, with every user's others left out. */
  function CompletedQuests(catalog: seq<Character>, completions: seq<QuestCompletion>, userId: string)
    : (r: seq<CompletionEntry>)
    requires forall k | 0 <= k < |completions| :: InCatalog(catalog, completions[k].characterId)
    ensures forall e | e in r :: exists k | 0 <= k < |completions| ::
              completions[k].userId == userId && e == EntryOf(catalog, completions[k])
    ensures forall k | 0 <= k < |completions| && completions[k].userId == userId ::
              EntryOf(catalog, completions[k]) in r
    ensures (forall a, b | 0 <= a < b < |completions| :: completions[a].id != completions[b].id) ==>
              forall a, b | 0 <= a < b < |r| :: r[a].id != r[b].id
  {
    var mine := (qc: QuestCompletion) => qc.userId == userId;
    CompletionEntriesOnePerCompletion(catalog, completions, mine);
    CompletionEntries(catalog, completions, mine)
  }

  /**
   * GetCharacterCompletedQuests: get-or-create the row (a write even on this
   * read endpoint), then the caller's completions with that character.
   */
  method GetCharacterCompletedQuests(db: Store, userId: string, characterId: int)
    returns (r: Option<seq<CompletionEntry>>)
    requires db.Valid()
    modifies db`userCharacters
    ensures db.Valid()
    ensures db.userCharacters == WithRow(old(db.userCharacters), db.characters, userId, characterId)
    ensures r.None? <==> !Owns(old(db.userCharacters), userId, characterId) && !InCatalog(db.characters, characterId)
    ensures forall k | 0 <= k < |db.questCompletions| :: InCatalog(db.characters, db.questCompletions[k].characterId)
    ensures r.Some? ==> forall e | e in r.value :: exists k | 0 <= k < |db.questCompletions| ::
              && db.questCompletions[k].userId == userId && db.questCompletions[k].characterId == characterId
              && e == EntryOf(db.characters, db.questCompletions[k])
    ensures r.Some? ==> forall k | 0 <= k < |db.questCompletions| ::
              db.questCompletions[k].userId == userId && db.questCompletions[k].characterId == characterId ==>
              EntryOf(db.characters, db.questCompletions[k]) in r.value
    ensures r.Some? ==> forall a, b | 0 <= a < b < |r.value| :: r.value[a].id != r.value[b].id
  {
    var row := GetOrCreateUserCharacter(db, userId, characterId);
    CompletionsReferenceCatalog(db);
    if row.None? {
      r := None;
    } else {
      var mine := (qc: QuestCompletion) => qc.characterId == characterId && qc.userId == userId;
      assert CompletionIdsFresh(db.questCompletions, db.nextCompletionId);
      CompletionEntriesOnePerCompletion(db.characters, db.questCompletions, mine);
      r := Some(CompletionEntries(db.characters, db.questCompletions, mine));
    }
  }

  /** In a valid store every completion's character is in the catalog. */
  lemma CompletionsReferenceCatalog(db: Store)
    requires db.Valid()
    ensures forall k | 0 <= k < |db.questCompletions| :: InCatalog(db.characters, db.questCompletions[k].characterId)
  {
    forall k | 0 <= k < |db.questCompletions|
      ensures InCatalog(db.characters, db.questCompletions[k].characterId)
    {
      var qc := db.questCompletions[k];
      assert Owns(db.userCharacters, qc.userId, qc.characterId);
      var i :| 0 <= i < |db.userCharacters| && db.userCharacters[i].userId == qc.userId
               && db.userCharacters[i].characterId == qc.characterId;
    }
  }

  /** The completions `keep` selects, as the characters that completed them. */
  function CharacterCompletions(catalog: seq<Character>, completions: seq<QuestCompletion>,
                                keep: QuestCompletion -> bool): (r: seq<CharacterCompletion>)
    requires forall k | 0 <= k < |completions| :: InCatalog(catalog, completions[k].characterId)
    ensures |r| <= |completions|
    ensures forall e | e in r :: exists k | 0 <= k < |completions| ::
              keep(completions[k]) && e == CharacterCompletionOf(catalog, completions[k])
    ensures forall k | 0 <= k < |completions| && keep(completions[k]) ::
              CharacterCompletionOf(catalog, completions[k]) in r
  {
    var kept := Filter(completions, keep);
    assert forall j | 0 <= j < |kept| :: kept[j] in completions && keep(kept[j]);
    var r := seq(|kept|, j requires 0 <= j < |kept| => CharacterCompletionOf(catalog, kept[j]));
    assert forall k | 0 <= k < |completions| && keep(completions[k]) ::
      CharacterCompletionOf(catalog, completions[k]) in r by {
      forall k | 0 <= k < |completions| && keep(completions[k])
        ensures CharacterCompletionOf(catalog, completions[k]) in r
      {
        assert completions[k] in kept;
        var j :| 0 <= j < |kept| && kept[j] == completions[k];
        assert r[j] == CharacterCompletionOf(catalog, completions[k]);
      }
    }
    r
  }

  /**
   * Entry j comes from the j-th completion `keep` selects, so each kept
   * completion is listed exactly as often as the table holds it.
   */
  lemma CharacterCompletionsOnePerCompletion(catalog: seq<Character>, completions: seq<QuestCompletion>,
                                             keep: QuestCompletion -> bool)
    requires forall k | 0 <= k < |completions| :: InCatalog(catalog, completions[k].characterId)
    ensures var r := CharacterCompletions(catalog, completions, keep);
            var kept := Filter(completions, keep);
            && |r| == |kept|
            && forall j | 0 <= j < |r| :: kept[j] in completions && r[j] == CharacterCompletionOf(catalog, kept[j])
  {
    var kept := Filter(completions, keep);
    forall j | 0 <= j < |kept| ensures kept[j] in completions {
      assert kept[j] in kept;
    }
  }

  function CharacterCompletionOf(catalog: seq<Character>, qc: QuestCompletion): CharacterCompletion
    requires InCatalog(catalog, qc.characterId)
  {
    CharacterCompletion(qc.characterId, CharacterOf(catalog, qc.characterId).name, qc.completedOn)
  }

  /**
   * GetQuestStatus: not found for an unknown quest; otherwise whether the
   * user completed it with any character, and by which characters.
   */
  function QuestStatusOf(quests: map<int, Quest>, catalog: seq<Character>, completions: seq<QuestCompletion>,
                         userId: string, questId: int): (r: Option<QuestStatus>)
    requires forall k | 0 <= k < |completions| :: InCatalog(catalog, completions[k].characterId)
    ensures r.None? <==> questId !in quests
    ensures r.Some? ==> r.value.questId == questId && r.value.title == quests[questId].title
    ensures r.Some? ==> (r.value.isCompleted <==> exists k | 0 <= k < |completions| ::
                           completions[k].questId == questId && completions[k].userId == userId)
    ensures r.Some? ==> (r.value.isCompleted <==> |r.value.completedByCharacters| > 0)
    ensures r.Some? ==> forall k | 0 <= k < |completions| ::
              completions[k].questId == questId && completions[k].userId == userId ==>
              CharacterCompletionOf(catalog, completions[k]) in r.value.completedByCharacters
    ensures r.Some? ==> forall e | e in r.value.completedByCharacters :: exists k | 0 <= k < |completions| ::
              && completions[k].questId == questId && completions[k].userId == userId
              && e == CharacterCompletionOf(catalog, completions[k])
    ensures r.Some? ==>
              var kept := Filter(completions, (qc: QuestCompletion) => qc.questId == questId && qc.userId == userId);
              && |r.value.completedByCharacters| == |kept|
              && forall j | 0 <= j < |kept| ::
                   kept[j] in completions && r.value.completedByCharacters[j] == CharacterCompletionOf(catalog, kept[j])
  {
    if questId !in quests then None
    else
      var mine := (qc: QuestCompletion) => qc.questId == questId && qc.userId == userId;
      var byCharacters := CharacterCompletions(catalog, completions, mine);
      CharacterCompletionsOnePerCompletion(catalog, completions, mine);
      var isCompleted := exists k | 0 <= k < |completions| ::
        completions[k].questId == questId && completions[k].userId == userId;
      assert |byCharacters| > 0 ==> isCompleted by {
        if |byCharacters| > 0 {
          assert byCharacters[0] in byCharacters;
        }
      }
      Some(QuestStatus(questId, quests[questId].title, isCompleted, byCharacters))
  }
}
