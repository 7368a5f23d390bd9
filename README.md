# ReemRPG progression ledger, modelled in Dafny

ReemRPG is an ASP.NET Core game backend. This project models its per-player
progression ledger. The ledger is spread over four tables:

- the character catalog;
- the quest catalog;
- the user-character rows, keyed by (UserId, CharacterId), each carrying
  Level, Experience, Gold and IsSelected;
- the quest-completion rows, each recording the experience and gold one
  attempt granted.

The database is the class `Models.Store`. Each table is a field: a `seq` for
the characters, user-character rows and completions, and a `map` keyed by id
for the quests. Each endpoint is one atomic `method` that `modifies` the
tables it writes. `Store.Valid()` is the invariant every endpoint keeps:

- catalog keys are unique and below the next identity value;
- (UserId, CharacterId) is unique across rows;
- every row references a catalog character and has level at least 1;
- each user has at most one selected row;
- every completion belongs to an existing row and has an id below the next
  identity value.

The files follow the source:

- `leveling.dfy`: the level-up and level-down loops, as methods proved equal
  to closed forms.
- `progression.dfy`: what a reward and its reversal do to one row, and the
  ledger view. The ledger view says that a row's experience and gold are the
  sums of its completions' gains, with the level the experience determines.
- `selection.dfy`: the selection transaction shared by both selection
  endpoints.
- `views.dfy`: the derived stats shown to a player.
- `quest_controller.dfy`, `user_character_service.dfy`,
  `user_character_controller.dfy`, `character_service.dfy`: one module per
  core source file.

The quest endpoints are proved against pure functions of the ledger tables.
`QuestController.Attempt` and `QuestController.DeleteCompletion` are the
answer and the tables each endpoint leaves. The properties are then proved
about those functions:

- rewards are granted exactly;
- a repeat attempt is granted again;
- grant-then-delete restores the row;
- the ledger stays balanced.

The model follows the code in these points:

- Get-or-create during a quest attempt always inserts the row unselected,
  even for the player's first character.
- `GetSelectedCharacterAsync` and `GetCharacterWithProgressionAsync` never
  set IsSelected in the view they return.
- A user may end up with no selected row. For example, an attempt creates
  the first row unselected. `GetSelectedCharacter` in the controller repairs
  this on read.
- `Data/ApplicationContext.cs` declares no `QuestCompletions` set although
  the controllers query one. The model assumes the completion table exists.

## Model

| member | source | states |
|---|---|---|
| Leveling.LevelForExperience | Controllers/QuestController.cs:403-407 | the level of a character whose level is derived from experience alone: at least 1, and experience lies in [(L-1)*1000, L*1000) |
| Leveling.LevelAfterGain | Controllers/QuestController.cs:403-409 | the level after the level-up loop never decreases, its threshold exceeds the experience, and it rose only as far as the experience reaches |
| Leveling.LevelAfterLoss | Controllers/QuestController.cs:509-513 | the level after the level-down loop never increases and never goes below 1; the experience reaches its floor unless it is 1; it is unchanged unless the experience falls below the new level's threshold |
| Leveling.RaiseLevel | Controllers/QuestController.cs:403-407 | the `while (Experience >= Level*1000) Level++` loop computes LevelAfterGain |
| Leveling.LowerLevel | Controllers/QuestController.cs:509-513 | the `while (Experience < (Level-1)*1000 && Level > 1) Level--` loop computes LevelAfterLoss |
| Leveling.LevelBoundaries | Controllers/QuestController.cs:403-407 | from level 1, experience 0, 999, 1000, 1999 and 2000 gives level 1, 1, 2, 2 and 3 |
| Leveling.GainKeepsLevelDerived | Controllers/QuestController.cs:399-407 | after a non-negative gain, the level-up loop from the derived level gives the level derived from the new experience |
| Leveling.LossKeepsLevelDerived | Controllers/QuestController.cs:501-513 | after the experience drops to any non-negative amount, the level-down loop gives the level derived from the remaining experience |
| Models.FirstIndex | Controllers/QuestController.cs:44-48 | `FirstOrDefault`: the first index whose element satisfies the predicate, or none when no element does |
| Models.Filter | Controllers/QuestController.cs:110-111 | `Where`: exactly the elements satisfying the predicate, never more than the input |
| Models.FilterCounts | Controllers/QuestController.cs:110-111 | `Where` keeps each selected element exactly as often as the input holds it, and no other element |
| Models.FilterKeepsKeysDistinct | Controllers/QuestController.cs:110-111 | when no two input elements share a key, no two kept elements do |
| Models.FindRow | Controllers/QuestController.cs:44-48 | the (user, character) row is found exactly when the user owns the pair, and it is the first such row |
| Models.FindSelected | Controllers/UserCharacterController.cs:94-96 | the user's first selected row; none exactly when no row of the user is selected |
| Models.FindOwned | Controllers/UserCharacterController.cs:104-106 | the user's first row; none exactly when the user has no row |
| Models.FindCharacter | Controllers/QuestController.cs:53-55 | a catalog entry with that key, found exactly when the catalog has the character |
| Models.FindCompletion | Controllers/QuestController.cs:484-485 | a completion whose Id and UserId both match; none exactly when there is no such completion |
| Models.WithRow | Controllers/QuestController.cs:44-80 | get-or-create: afterwards the pair is owned exactly when it was owned before or the catalog has the character; the table is unchanged when the pair is already owned or the catalog lacks the character; for an unowned catalog character, the added row is the unselected default row with Level 1, Experience 0 and Gold 0 |
| Models.WithRowFindsRow | Controllers/QuestController.cs:44-82 | get-or-create returns the existing row, else the appended row, else nothing |
| Models.CharacterOf | Controllers/QuestController.cs:45 | the catalog record a foreign key refers to |
| Models.SameKeysKeepOwnership | Data/ApplicationContext.cs:24-25 | rewriting rows without touching their keys keeps key uniqueness, ownership and the ownership of every completion |
| Models.SameKeysSameRow | Data/ApplicationContext.cs:24-25 | rewriting rows without touching their keys finds the same row for every key |
| Models.AppendKeepsOwnership | Controllers/QuestController.cs:76-77 | appending a row keeps every existing ownership and adds the new one |
| Models.RemoveCompletionKeepsInvariants | Controllers/QuestController.cs:516-517 | deleting a completion keeps every other completion owned and its id fresh |
| Models.UpdateRowKeepsTables | Controllers/QuestController.cs:399-407 | rewriting a row's progress in place keeps the table invariants |
| Models.AppendCompletionKeepsTables | Controllers/QuestController.cs:388-412 | appending a completion for an owned row, with the next identity value, keeps the table invariants |
| Models.RemoveCompletionKeepsTables | Controllers/QuestController.cs:516-517 | deleting a completion keeps the table invariants |
| Models.AppendRowKeepsTables | Controllers/QuestController.cs:66-77 | appending an unselected level-1 row for a new key of a catalog character keeps the table invariants |
| Models.Store.constructor | Data/ApplicationContext.cs:24-30 | an empty database with its users and quests is valid |
| Progression.GrantThenRevert | Controllers/QuestController.cs:399-400 | granting rewards and reversing them with nothing in between restores experience and gold; when the level was derived, it restores the whole row |
| Progression.RevertClamps | Controllers/QuestController.cs:501-507 | reversing more than the row holds floors experience and gold at 0, and the level then falls to 1 |
| Progression.GrantsAccumulate | Controllers/QuestController.cs:399-407 | two grants equal one grant of the combined rewards, so nothing is deduplicated |
| Progression.GrantKeepsLevelDerived | Controllers/QuestController.cs:399-407 | a non-negative grant keeps the level derived from the experience |
| Progression.RevertKeepsLevelDerived | Controllers/QuestController.cs:501-513 | a reversal keeps the level derived from the experience |
| Progression.SumOfAppend | Controllers/QuestController.cs:412 | the ledger sum over an appended completion adds that completion's share |
| Progression.SumOfRemove | Controllers/QuestController.cs:517 | the ledger sum without completion k drops exactly that completion's share |
| Progression.SumOfZero | Controllers/QuestController.cs:66-73 | a ledger sum where every completion's share is 0 is 0 |
| Progression.SumOfCovers | Controllers/QuestController.cs:501-507 | with non-negative shares, the sum covers any single completion's share |
| Progression.SumOfNonNegative | Controllers/QuestController.cs:501-507 | with non-negative shares, the sum is non-negative |
| Progression.NewRowKeepsLedgerBalanced | Controllers/QuestController.cs:66-77 | a new row at level 1 with nothing earned, for a pair without completions, keeps every row equal to its completions' sums |
| Progression.GrantKeepsLedgerBalanced | Controllers/QuestController.cs:388-412 | recording a completion and granting its rewards to its row keeps every row equal to its completions' sums, with its level derived |
| Progression.RevertKeepsLedgerBalanced | Controllers/QuestController.cs:498-517 | on a balanced ledger the 0 floor never bites; reverting a completion's gains and deleting it keeps the ledger balanced |
| Progression.SameProgressKeepsLedgerBalanced | Controllers/UserCharacterController.cs:244-255 | changing only selection flags keeps the ledger balanced |
| Views.OwnedView | Services/Implementations/UserCharacterService.cs:155-172 | an owned character's view carries the catalog character's key, name, class, image and base stats; Health = its BaseHealth + row Level*10 and AttackPower = its BaseAttackPower + row Level*2; level, experience, gold and IsSelected come from the row; it is associated with the user |
| Views.UnownedView | Services/Implementations/UserCharacterService.cs:134-152 | an unowned character's view carries the catalog character's key, name, class, image and base stats, at Level 1 with Experience 0 and Gold 0; Health = BaseHealth + 10 and AttackPower = BaseAttackPower + 2; it is neither associated nor selected |
| Views.UnownedViewIsNewRowView | Services/Implementations/UserCharacterService.cs:134-152 | the hard-coded level-1 view equals the view of a freshly created row, except for the association flag |
| Views.StatsGrowWithLevel | Services/Implementations/UserCharacterService.cs:165-167 | each level adds 10 health and 2 attack power |
| Selection.SelectOnly | Services/Implementations/UserCharacterService.cs:64-92 | after the selection, the user's rows are selected exactly when they are the target, other users' rows are untouched, and no progression changes |
| Selection.SoleSelection | Services/Implementations/UserCharacterService.cs:64-92 | for an owned pair, the target is the user's one and only selected row, and no user has two selected rows |
| Selection.DeselectOthers | Controllers/UserCharacterController.cs:248-255 | the loop clears IsSelected on every other row of the user and leaves the target and other users' rows as they were |
| Selection.MarkThenDeselectIsSelectOnly | Controllers/UserCharacterController.cs:221-255 | marking the target selected and then clearing the user's other rows yields SelectOnly |
| Selection.SelectKeepsTables | Controllers/UserCharacterController.cs:221-255 | selecting a catalog character keeps the table invariants and the ledger, and the target is then owned |
| Selection.ApplySelection | Controllers/UserCharacterController.cs:221-258 | the transaction leaves SelectOnly of the rows after get-or-create; the target row existed or was created, and it is returned selected with its progression |
| Selection.MarkTarget | Controllers/UserCharacterController.cs:224-245 | the target row is created selected, or the existing one is marked selected, with nothing else changed |
| Selection.MarkUnselectedKeepsTables | Controllers/UserCharacterController.cs:112-118 | marking one row selected, for a user without a selected row, keeps the table invariants and the ledger |
| Selection.SelectedRowProgress | Services/Implementations/UserCharacterService.cs:64-82 | after a selection the target row is selected; a new row has Level 1, Experience 0 and Gold 0, and an owned row keeps its progression |
| QuestController.Attempt | Controllers/QuestController.cs:333-439 | bad ids and an unknown quest write nothing; the level gate holds exactly when the row's level is below RequiredLevel, and it adds no completion; a completed attempt appends one completion with the caller, the quest's rewards and the next id; AlreadyCompleted reports an earlier completion |
| QuestController.KnownQuestAttempt | Controllers/QuestController.cs:360-426 | the character check fails exactly when the user does not own the character and the catalog lacks it, and then nothing is written |
| QuestController.AttemptGrantsRewards | Controllers/QuestController.cs:399-422 | a completed attempt changes only the attempting row: experience and gold grow by the rewards, the level is raised as the loop raises it, and LevelUp holds exactly when it rose |
| QuestController.DeleteCompletion | Controllers/QuestController.cs:484-520 | not found, writing nothing, exactly when no completion has that Id and UserId; otherwise that completion is removed, its gains are reverted on the caller's row when one exists, and other rows stay unchanged |
| QuestController.RepeatAttemptGrantsAgain | Controllers/QuestController.cs:381-400 | a repeat attempt is completed again, reports AlreadyCompleted, adds a second completion and grants the rewards twice |
| QuestController.AttemptThenDeleteRestores | Controllers/QuestController.cs:388-517 | deleting the completion an attempt just recorded restores the completions and the row, given fresh ids, non-negative rewards, and an attempted row (if it already existed) whose level is derived and whose gold is non-negative |
| QuestController.AppendedCompletionIsFound | Controllers/QuestController.cs:484-485 | a completion appended with a fresh id is the one a delete by that id and owner finds |
| QuestController.AttemptKeepsLedgerBalanced | Controllers/QuestController.cs:333-439 | every attempt keeps each row's experience and gold equal to its completions' sums, provided rewards are non-negative |
| QuestController.DeleteKeepsLedgerBalanced | Controllers/QuestController.cs:473-527 | every completion delete keeps the ledger balanced |
| QuestController.GetOrCreateUserCharacter | Controllers/QuestController.cs:41-83 | the rows become WithRow of the old rows: an existing row is returned unchanged; a missing catalog character gives none and no insert; otherwise exactly one level-1 row is inserted |
| QuestController.RecordCompletion | Controllers/QuestController.cs:380-412 | the success path appends the completion with the next id and the rewards, and grants them to the row with the level-up loop |
| QuestController.AttemptQuest | Controllers/QuestController.cs:333-439 | the endpoint's answer and tables are those of Attempt, and the store stays valid |
| QuestController.AttemptKnownQuest | Controllers/QuestController.cs:360-426 | past the id and quest checks, the answer and tables are those of KnownQuestAttempt |
| QuestController.KnownQuestAttemptAfterGetOrCreate | Controllers/QuestController.cs:361 | once get-or-create has run, the attempt continues from the rows it left |
| QuestController.GateAndRecord | Controllers/QuestController.cs:370-426 | the level gate, then the recorded completion, agree with KnownQuestAttempt |
| QuestController.DeleteQuestCompletion | Controllers/QuestController.cs:473-527 | the endpoint's answer and tables are those of DeleteCompletion, and the store stays valid |
| QuestController.RemoveCompletion | Controllers/QuestController.cs:516-517 | exactly completion k is removed |
| QuestController.RevertGains | Controllers/QuestController.cs:498-513 | the row's gains are subtracted with a 0 floor, and the level-down loop runs |
| QuestController.CompletionEntries | Controllers/QuestController.cs:110-124 | every completion the filter keeps is listed, and nothing else |
| QuestController.CompletionEntriesOnePerCompletion | Controllers/QuestController.cs:110-124 | one entry per kept completion, the j-th carrying the j-th kept completion's id; with distinct completion ids, no id is listed twice |
| QuestController.CompletedQuests | Controllers/QuestController.cs:95-133 | exactly the caller's completions, with their character's name; with distinct completion ids (the table's key), each is listed once |
| QuestController.GetCharacterCompletedQuests | Controllers/QuestController.cs:136-183 | get-or-create runs first, a write; not found exactly when the character is neither owned nor in the catalog; otherwise each of the caller's completions with that character is listed as its full entry (id, quest, character name, date, gains), nothing else is listed, and no id is listed twice |
| QuestController.CompletionsReferenceCatalog | Controllers/QuestController.cs:112-119 | in a valid store, every completion's character is in the catalog |
| QuestController.CharacterCompletions | Controllers/QuestController.cs:233-243 | every completion the filter keeps is listed as (character, character name, date), and nothing else |
| QuestController.CharacterCompletionsOnePerCompletion | Controllers/QuestController.cs:233-243 | one entry per kept completion: the j-th entry is the j-th kept completion's (character, character name, date), so each completion is listed exactly as often as the table holds it |
| QuestController.QuestStatusOf | Controllers/QuestController.cs:210-262 | not found exactly for an unknown quest; IsCompleted holds exactly when the caller has a completion of it, which is exactly when the character list is non-empty; the list holds exactly the caller's completions of the quest, one entry per completion, the j-th from the j-th such completion |
| UserCharacterService.SelectCharacter | Services/Implementations/UserCharacterService.cs:26-115 | returns false, writing nothing, for a blank user id, a non-positive character id, an unknown user or an unknown character; otherwise the target is the user's only selected row and other users' rows are untouched |
| UserCharacterService.CharacterWithProgression | Services/Implementations/UserCharacterService.cs:118-173 | none exactly when the character is neither owned nor in the catalog; otherwise the view shows the catalog character's fields, with Health and AttackPower derived from its base stats and the level; an owned character carries the row's progression, and an unowned one is at level 1 with nothing earned; IsSelected is never set |
| UserCharacterService.ProgressionSurvivesGetOrCreate | Services/Implementations/UserCharacterService.cs:118-173 | reading a character's progression before or after its row is lazily created gives the same view, except for the association flag |
| UserCharacterService.SelectedCharacter | Services/Implementations/UserCharacterService.cs:176-206 | none exactly when the user has no selected row; otherwise the view of the user's first selected row, showing its catalog character's fields, the row's progression and the derived stats, without a write |
| UserCharacterService.SelectThenSelectedCharacter | Services/Implementations/UserCharacterService.cs:26-206 | after a successful selection, the selected character is the one chosen, with its progression |
| UserCharacterService.CharactersOfUser | Services/Implementations/UserCharacterService.cs:209-238 | exactly the views of the user's rows, with their progression |
| UserCharacterService.UnownedCharacters | Services/Implementations/UserCharacterService.cs:312-335 | exactly the level-1 views of the catalog characters the user does not own |
| UserCharacterService.CharactersOfUserOnePerRow | Services/Implementations/UserCharacterService.cs:209-238 | one view per row of the user; with the composite key unique, no character is listed twice |
| UserCharacterService.UnownedCharactersOnePerCharacter | Services/Implementations/UserCharacterService.cs:312-335 | one view per unowned catalog character; with the catalog key unique, no character is listed twice |
| UserCharacterService.AvailablePartsAssociation | Services/Implementations/UserCharacterService.cs:279-337 | a view is associated exactly when the user owns its character; the unowned part is at level 1 and not selected; no character id appears in both parts; every view shows some catalog character's fields; every associated view is the owned view of one of the user's rows |
| UserCharacterService.AvailablePartsCoverCatalog | Services/Implementations/UserCharacterService.cs:279-337 | every catalog character has a view in one of the parts |
| UserCharacterService.AvailableCharacters | Services/Implementations/UserCharacterService.cs:279-337 | every view shows a catalog character's fields with derived stats; association matches ownership; unassociated views are at level 1 with nothing earned and unselected; every associated view is the owned view of one of the user's rows, with its progression; the whole catalog is covered |
| UserCharacterService.AvailableCharactersOrdered | Services/Implementations/UserCharacterService.cs:279-337 | the owned views come before the unowned ones; each of the user's rows appears as its owned view, and each unowned catalog character as its level-1 view |
| UserCharacterService.AvailableCharactersOnePerCharacter | Services/Implementations/UserCharacterService.cs:279-337 | with both tables' keys unique, no character is listed twice |
| UserCharacterService.UpdateCharacterProgression | Services/Implementations/UserCharacterService.cs:241-276 | (false, false, 0), writing nothing, when the user does not own the character; otherwise the gains are added, the level-up loop runs, and LeveledUp holds exactly when the level rose |
| UserCharacterController.ViewOf | Controllers/UserCharacterController.cs:128-137 | the response carries the row's level, experience and gold and the catalog name and class; a missing image becomes "" |
| UserCharacterController.RowEntries | Controllers/UserCharacterController.cs:40-57 | exactly one entry per row, in order, with its keys, character name and class, level, experience and gold |
| UserCharacterController.GetSelectedCharacter | Controllers/UserCharacterController.cs:62-170 | an unknown user is not found; an existing selection is returned without a write; otherwise the user's first row is marked selected and returned, or not found when the user has no rows; afterwards the returned row is the user's only selected one |
| UserCharacterController.MarkFirstSelected | Controllers/UserCharacterController.cs:102-118 | the user's first row becomes selected, and it is then the user's only selected row |
| UserCharacterController.SelectCharacter | Controllers/UserCharacterController.cs:176-299 | a missing or non-positive id is a bad request, and an unknown user or character is not found, each writing nothing; otherwise the rows become SelectOnly of the rows after get-or-create, and the response echoes the target row's progression |
| CharacterService.RemoveCharacterKeepsCatalog | Services/Implementations/CharacterService.cs:64-72 | removing a character no row references keeps the catalog keys and every row's foreign key |
| CharacterService.RemoveCharacterRemovesExactly | Services/Implementations/CharacterService.cs:72 | removing a catalog entry removes exactly the characters with its key |
| CharacterService.AppendCharacterKeepsCatalog | Services/Implementations/CharacterService.cs:91-92 | adding a character with the next identity value keeps the catalog valid |
| CharacterService.ReplaceCharacterKeepsCatalog | Services/Implementations/CharacterService.cs:110-120 | overwriting a character with the same key keeps the catalog valid |
| CharacterService.DeleteCharacter | Services/Implementations/CharacterService.cs:53-82 | true exactly when the id is in the catalog and no row references it; false writes nothing; true removes exactly that character |
| CharacterService.CreateCharacter | Services/Implementations/CharacterService.cs:84-97 | a null argument adds nothing; otherwise one character is appended with a fresh identity value |
| CharacterService.CopyBaseFields | Services/Implementations/CharacterService.cs:111-118 | the stored key is kept, and every other field comes from the update |
| CharacterService.UpdateCharacter | Services/Implementations/CharacterService.cs:100-123 | none, writing nothing, exactly for an unknown id; otherwise only that character changes, to CopyBaseFields of it |

## Left out

- CompletionEntries: its own contract gives membership in both directions; the count (one entry per kept completion) and the distinct ids are stated in CompletionEntriesOnePerCompletion, to keep each proof small.
- CharacterCompletions: its own contract gives membership in both directions; the one-entry-per-completion correspondence is stated in CharacterCompletionsOnePerCompletion, for the same reason.
- CharactersOfUser: its own contract gives membership in both directions; one view per row and no repeated character are stated in CharactersOfUserOnePerRow.
- UnownedCharacters: its own contract gives membership in both directions; one view per character and no repeated character are stated in UnownedCharactersOnePerCharacter.
- AvailableCharacters: that no character is listed twice is stated in AvailableCharactersOnePerCharacter, and the owned-first order in AvailableCharactersOrdered.

- Authentication and identity: claim extraction, the Unauthorized answers and the user lookup by Id or Email. The caller's user id is a parameter, already resolved.
- QuestController.GetOrCreateUserCharacter: the model performs the intended insert of the new row. The source also sets the row's `Character` navigation to the catalog entity it loaded with `AsNoTracking()` (Controllers/QuestController.cs:53-55, 73) before `Add` (line 76). Entity Framework may then treat that character as a new entity and insert it again under its existing key, which fails on save. The callers would then answer 500 from their catch blocks with no row created. The model does not capture this effect of the navigation assignment.
- Logging, e-mail, hosting and the exception middleware. Caught exceptions and the 500 answers are not modelled, because the model has no failing I/O.
- Database transactions, rollback and concurrent first-contact races. Each endpoint is one atomic method, and the composite key is a uniqueness invariant.
- `DateTime.UtcNow` is the opaque `now` parameter.
- Identity columns are the counters `nextCharacterId` and `nextCompletionId`.
- CharacterService.CreateCharacter: the model always assigns the next identity value and ignores a caller-supplied CharacterId. The source passes the client's entity straight to the repository. A non-zero key is then inserted as given, and a duplicate key throws an exception that nothing catches. Neither the explicit key nor that exception is modelled.
- Models.FindOwned: `FirstOrDefaultAsync` without `OrderBy` returns whichever row the database yields first. The model uses table (sequence) order in place of that unspecified SQL order, for the row the selected-character repair promotes and for every other first-match lookup.
- Null strings and null records, apart from the null request and the null argument the source checks for.
- `GetAllCharactersAsync`, `AddCharacterAsync` and `UpdateCharacterSimpleAsync` are plain repository calls with no rule of their own.
- The `CharacterQuests` navigation, `Quest.Repeatable` (never consulted) and `Quest.ItemRewardId` (never granted).
- The dual casing of the DTOs and of `SelectCharacterRequest`, and the DTO classes themselves beyond the fields the model returns.
- Leveling.RaiseLevel: Experience and Gold are unbounded integers, so the model does not capture 32-bit overflow of `Experience += reward` or of `Level * 1000`.
- QuestController.AttemptQuest: its contract does not mention the balanced ledger. That property is proved about the specification function it equals, in QuestController.AttemptKeepsLedgerBalanced.
- QuestController.DeleteQuestCompletion: its contract does not mention the balanced ledger. That property is proved about the specification function it equals, in QuestController.DeleteKeepsLedgerBalanced.
- UserCharacterService.UpdateCharacterProgression: it adds gains without recording a completion row, so it breaks the balanced ledger. Its contract promises the table invariants and the new row, and says nothing about ledger balance.
