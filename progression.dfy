/**
 * What a quest reward and its reversal do to one user-character row, and the
 * ledger view of a row: its experience and gold as the sums of the rewards
 * recorded in its completion rows.
 */
module Progression {
  import opened Models
  import opened Leveling

  /** `Math.Max(0, x)`: the floor the reversal applies to experience and gold. */
  function Max0(x: int): int
  {
    if x < 0 then 0 else x
  }

  /** A successful attempt: add the rewards, then run the level-up loop. */
  function Grant(uc: UserCharacter, experienceGained: int, goldGained: int): UserCharacter
  {
    var experience := uc.experience + experienceGained;
    uc.(experience := experience, gold := uc.gold + goldGained,
        level := LevelAfterGain(uc.level, experience))
  }

  /** A reversal: subtract the recorded gains with a floor of 0, then run the level-down loop. */
  function Revert(uc: UserCharacter, experienceGained: int, goldGained: int): UserCharacter
  {
    var experience := Max0(uc.experience - experienceGained);
    uc.(experience := experience, gold := Max0(uc.gold - goldGained),
        level := LevelAfterLoss(uc.level, experience))
  }

  /** The row's level is the one its experience alone determines. */
  predicate LevelDerived(uc: UserCharacter)
  {
    uc.experience >= 0 && uc.level == LevelForExperience(uc.experience)
  }

  /**
   * Granting rewards and reversing them, with nothing in between, restores
   * experience and gold exactly; when the level was derived from the
   * experience, the whole row is restored.
   */
  lemma GrantThenRevert(uc: UserCharacter, experienceGained: int, goldGained: int)
    requires uc.experience >= 0 && uc.gold >= 0
    requires experienceGained >= 0 && goldGained >= 0
    ensures Revert(Grant(uc, experienceGained, goldGained), experienceGained, goldGained).experience == uc.experience
    ensures Revert(Grant(uc, experienceGained, goldGained), experienceGained, goldGained).gold == uc.gold
    ensures LevelDerived(uc) ==> Revert(Grant(uc, experienceGained, goldGained), experienceGained, goldGained) == uc
  {
    if LevelDerived(uc) {
      GainKeepsLevelDerived(uc.experience, experienceGained);
      LossKeepsLevelDerived(uc.experience + experienceGained, uc.experience);
    }
  }

  /**
   * Reversing more than the row holds clamps at 0 (lossy, by design), and
   * then the level falls back to 1.
   */
  lemma RevertClamps(uc: UserCharacter, experienceGained: int, goldGained: int)
    requires uc.level >= 1
    ensures uc.experience <= experienceGained ==>
              Revert(uc, experienceGained, goldGained).experience == 0
              && Revert(uc, experienceGained, goldGained).level == 1
    ensures uc.gold <= goldGained ==> Revert(uc, experienceGained, goldGained).gold == 0
    ensures Revert(uc, experienceGained, goldGained).experience >= 0
    ensures Revert(uc, experienceGained, goldGained).gold >= 0
  {
  }

  /** Two grants in a row equal one grant of the combined rewards: no reward is deduplicated. */
  lemma GrantsAccumulate(uc: UserCharacter, x1: int, g1: int, x2: int, g2: int)
    requires x2 >= 0
    ensures Grant(Grant(uc, x1, g1), x2, g2) == Grant(uc, x1 + x2, g1 + g2)
  {
  }

  /** A grant of non-negative experience keeps the level derived. */
  lemma GrantKeepsLevelDerived(uc: UserCharacter, experienceGained: int, goldGained: int)
    requires LevelDerived(uc) && experienceGained >= 0
    ensures LevelDerived(Grant(uc, experienceGained, goldGained))
  {
    GainKeepsLevelDerived(uc.experience, experienceGained);
  }

  /** A reversal of non-negative experience keeps the level derived. */
  lemma RevertKeepsLevelDerived(uc: UserCharacter, experienceGained: int, goldGained: int)
    requires LevelDerived(uc) && experienceGained >= 0
    ensures LevelDerived(Revert(uc, experienceGained, goldGained))
  {
    LossKeepsLevelDerived(uc.experience, Max0(uc.experience - experienceGained));
  }

  // ---- The ledger ----

  /** The sum of `f` over the completion rows, in table order. */
  function SumOf(completions: seq<QuestCompletion>, f: QuestCompletion -> int): int
  {
    if |completions| == 0 then 0
    else SumOf(completions[..|completions| - 1], f) + f(completions[|completions| - 1])
  }

  /** The experience the ledger records for one (user, character) pair. */
  function ExperienceLedger(completions: seq<QuestCompletion>, userId: string, characterId: int): int
  {
    SumOf(completions, (qc: QuestCompletion) =>
      if qc.userId == userId && qc.characterId == characterId then qc.experienceGained else 0)
  }

  /** The gold the ledger records for one (user, character) pair. */
  function GoldLedger(completions: seq<QuestCompletion>, userId: string, characterId: int): int
  {
    SumOf(completions, (qc: QuestCompletion) =>
      if qc.userId == userId && qc.characterId == characterId then qc.goldGained else 0)
  }

  lemma SumOfAppend(completions: seq<QuestCompletion>, f: QuestCompletion -> int, qc: QuestCompletion)
    ensures SumOf(completions + [qc], f) == SumOf(completions, f) + f(qc)
  {
    assert (completions + [qc])[..|completions|] == completions;
  }

  /** Removing the completion at `k` takes exactly its own term out of the sum. */
  lemma {:induction false} SumOfRemove(completions: seq<QuestCompletion>, f: QuestCompletion -> int, k: nat)
    requires k < |completions|
    ensures SumOf(completions[..k] + completions[k + 1..], f) == SumOf(completions, f) - f(completions[k])
    decreases |completions|
  {
    var n := |completions| - 1;
    var rest := completions[..k] + completions[k + 1..];
    if k == n {
      assert rest == completions[..n];
    } else {
      var init := completions[..n];
      SumOfRemove(init, f, k);
      assert rest[..|rest| - 1] == init[..k] + init[k + 1..];
      assert rest[|rest| - 1] == completions[n];
    }
  }

  /** A sum of terms that are all zero is zero. */
  lemma {:induction false} SumOfZero(completions: seq<QuestCompletion>, f: QuestCompletion -> int)
    requires forall k | 0 <= k < |completions| :: f(completions[k]) == 0
    ensures SumOf(completions, f) == 0
    decreases |completions|
  {
    if |completions| > 0 {
      SumOfZero(completions[..|completions| - 1], f);
    }
  }

  /** A sum of non-negative terms is at least each of its terms. */
  lemma {:induction false} SumOfCovers(completions: seq<QuestCompletion>, f: QuestCompletion -> int, k: nat)
    requires forall j | 0 <= j < |completions| :: f(completions[j]) >= 0
    requires k < |completions|
    ensures SumOf(completions, f) >= f(completions[k])
    decreases |completions|
  {
    var n := |completions| - 1;
    if k < n {
      SumOfCovers(completions[..n], f, k);
      SumOfNonNegative(completions[..n], f);
    } else {
      SumOfNonNegative(completions[..n], f);
    }
  }

  lemma {:induction false} SumOfNonNegative(completions: seq<QuestCompletion>, f: QuestCompletion -> int)
    requires forall j | 0 <= j < |completions| :: f(completions[j]) >= 0
    ensures SumOf(completions, f) >= 0
    decreases |completions|
  {
    if |completions| > 0 {
      SumOfNonNegative(completions[..|completions| - 1], f);
    }
  }

  /**
   * The ledger is the source of truth: every recorded gain is non-negative,
   * and each row's experience and gold are the sums of its completions'
   * gains, with the level derived from the experience.
   */
  ghost predicate LedgerBalanced(rows: seq<UserCharacter>, completions: seq<QuestCompletion>)
  {
    && (forall k | 0 <= k < |completions| ::
          completions[k].experienceGained >= 0 && completions[k].goldGained >= 0)
    && (forall i | 0 <= i < |rows| ::
          && rows[i].experience == ExperienceLedger(completions, rows[i].userId, rows[i].characterId)
          && rows[i].gold == GoldLedger(completions, rows[i].userId, rows[i].characterId)
          && LevelDerived(rows[i]))
  }

  /** A new row for a pair without completions starts balanced. */
  lemma NewRowKeepsLedgerBalanced(rows: seq<UserCharacter>, completions: seq<QuestCompletion>,
                                  userId: string, characterId: int, isSelected: bool)
    requires LedgerBalanced(rows, completions)
    requires CompletionsOwned(completions, rows) && !Owns(rows, userId, characterId)
    ensures LedgerBalanced(rows + [NewUserCharacter(userId, characterId, isSelected)], completions)
  {
    var f := (qc: QuestCompletion) =>
      if qc.userId == userId && qc.characterId == characterId then qc.experienceGained else 0;
    var g := (qc: QuestCompletion) =>
      if qc.userId == userId && qc.characterId == characterId then qc.goldGained else 0;
    forall k | 0 <= k < |completions|
      ensures f(completions[k]) == 0 && g(completions[k]) == 0
    {
      assert Owns(rows, completions[k].userId, completions[k].characterId);
    }
    SumOfZero(completions, f);
    SumOfZero(completions, g);
  }

  /** Recording a completion for row `i` and granting its rewards keeps the ledger balanced. */
  lemma GrantKeepsLedgerBalanced(rows: seq<UserCharacter>, completions: seq<QuestCompletion>,
                                 i: nat, qc: QuestCompletion)
    requires LedgerBalanced(rows, completions) && RowKeysUnique(rows)
    requires i < |rows| && qc.userId == rows[i].userId && qc.characterId == rows[i].characterId
    requires qc.experienceGained >= 0 && qc.goldGained >= 0
    ensures LedgerBalanced(rows[i := Grant(rows[i], qc.experienceGained, qc.goldGained)], completions + [qc])
  {
    var rows' := rows[i := Grant(rows[i], qc.experienceGained, qc.goldGained)];
    var completions' := completions + [qc];
    forall j | 0 <= j < |rows'|
      ensures rows'[j].experience == ExperienceLedger(completions', rows'[j].userId, rows'[j].characterId)
      ensures rows'[j].gold == GoldLedger(completions', rows'[j].userId, rows'[j].characterId)
      ensures LevelDerived(rows'[j])
    {
      var u, c := rows[j].userId, rows[j].characterId;
      SumOfAppend(completions, (q: QuestCompletion) =>
        if q.userId == u && q.characterId == c then q.experienceGained else 0, qc);
      SumOfAppend(completions, (q: QuestCompletion) =>
        if q.userId == u && q.characterId == c then q.goldGained else 0, qc);
      if j == i {
        GrantKeepsLevelDerived(rows[i], qc.experienceGained, qc.goldGained);
      }
    }
  }

  /**
   * Deleting completion `k` and reverting its gains on its row `i` keeps the
   * ledger balanced; the floor at 0 never bites on a balanced ledger.
   */
  lemma RevertKeepsLedgerBalanced(rows: seq<UserCharacter>, completions: seq<QuestCompletion>,
                                  i: nat, k: nat)
    requires LedgerBalanced(rows, completions) && RowKeysUnique(rows)
    requires i < |rows| && k < |completions|
    requires completions[k].userId == rows[i].userId && completions[k].characterId == rows[i].characterId
    ensures rows[i].experience >= completions[k].experienceGained && rows[i].gold >= completions[k].goldGained
    ensures LedgerBalanced(rows[i := Revert(rows[i], completions[k].experienceGained, completions[k].goldGained)],
                           completions[..k] + completions[k + 1..])
  {
    var qc := completions[k];
    var rows' := rows[i := Revert(rows[i], qc.experienceGained, qc.goldGained)];
    var completions' := completions[..k] + completions[k + 1..];
    forall j | 0 <= j < |completions'|
      ensures completions'[j].experienceGained >= 0 && completions'[j].goldGained >= 0
    {
      assert completions'[j] in completions;
    }
    forall j | 0 <= j < |rows'|
      ensures rows'[j].experience == ExperienceLedger(completions', rows'[j].userId, rows'[j].characterId)
      ensures rows'[j].gold == GoldLedger(completions', rows'[j].userId, rows'[j].characterId)
      ensures LevelDerived(rows'[j])
    {
      var u, c := rows[j].userId, rows[j].characterId;
      var f := (q: QuestCompletion) => if q.userId == u && q.characterId == c then q.experienceGained else 0;
      var g := (q: QuestCompletion) => if q.userId == u && q.characterId == c then q.goldGained else 0;
      SumOfRemove(completions, f, k);
      SumOfRemove(completions, g, k);
      if j == i {
        SumOfCovers(completions, f, k);
        SumOfCovers(completions, g, k);
        RevertKeepsLevelDerived(rows[i], qc.experienceGained, qc.goldGained);
      }
    }
    var f := (q: QuestCompletion) =>
      if q.userId == rows[i].userId && q.characterId == rows[i].characterId then q.experienceGained else 0;
    var g := (q: QuestCompletion) =>
      if q.userId == rows[i].userId && q.characterId == rows[i].characterId then q.goldGained else 0;
    SumOfCovers(completions, f, k);
    SumOfCovers(completions, g, k);
  }

  /** Changing only selection flags keeps the ledger balanced. */
  lemma SameProgressKeepsLedgerBalanced(rows: seq<UserCharacter>, rows': seq<UserCharacter>,
                                        completions: seq<QuestCompletion>)
    requires SameProgress(rows, rows') && LedgerBalanced(rows, completions)
    ensures LedgerBalanced(rows', completions)
  {
    forall i | 0 <= i < |rows'|
      ensures rows'[i].experience == ExperienceLedger(completions, rows'[i].userId, rows'[i].characterId)
      ensures rows'[i].gold == GoldLedger(completions, rows'[i].userId, rows'[i].characterId)
      ensures LevelDerived(rows'[i])
    {
      assert rows'[i] == rows[i].(isSelected := rows'[i].isSelected);
    }
  }

  /** Every catalog quest rewards non-negative experience and gold. */
  ghost predicate RewardsNonNegative(quests: map<int, Quest>)
  {
    forall id | id in quests :: quests[id].experienceReward >= 0 && quests[id].goldReward >= 0
  }

  /** The store's ledger is balanced and the catalog only grants non-negative rewards. */
  ghost predicate Balanced(db: Store)
    reads db
  {
    LedgerBalanced(db.userCharacters, db.questCompletions) && RewardsNonNegative(db.quests)
  }
}
