/**
 * The four tables the progression ledger reads and writes (characters,
 * quests, user-character rows keyed by (UserId, CharacterId), quest
 * completions), the lookups the controllers and services run against them,
 * and the invariant the database keeps over them.
 */
module Models {
  import opened Wrappers

  /** A catalog character: a template with base stats (Models/Character.cs). */
  datatype Character = Character(
    characterId: int,
    name: string,
    characterClass: string,
    imageUrl: Option<string>,
    baseStrength: int,
    baseAgility: int,
    baseIntelligence: int,
    baseHealth: int,
    baseAttackPower: int)

  /** A catalog quest (Models/Quest.cs). `repeatable` is stored but never consulted. */
  datatype Quest = Quest(
    id: int,
    title: string,
    description: string,
    requiredLevel: int,
    experienceReward: int,
    goldReward: int,
    itemRewardId: Option<int>,
    repeatable: bool)

  /**
   * A player's progression with one character, keyed by (userId, characterId).
   * The fields beyond the key are those the migrations add to the table.
   */
  datatype UserCharacter = UserCharacter(
    userId: string,
    characterId: int,
    level: int,
    experience: int,
    gold: int,
    isSelected: bool)

  /** One ledger entry: a successful quest attempt and the rewards it granted. */
  datatype QuestCompletion = QuestCompletion(
    id: int,
    questId: int,
    characterId: int,
    userId: string,
    completedOn: int,
    experienceGained: int,
    goldGained: int)

  /** A freshly created association: level 1, no experience and no gold. */
  function NewUserCharacter(userId: string, characterId: int, isSelected: bool): UserCharacter
  {
    UserCharacter(userId, characterId, 1, 0, 0, isSelected)
  }

  /** The index of the first element of `s` satisfying `p`, as `FirstOrDefault` finds it. */
  function FirstIndex<T>(s: seq<T>, p: T -> bool): (r: Option<nat>)
    ensures r.Some? ==> r.value < |s| && p(s[r.value])
    ensures r.Some? ==> forall j :: 0 <= j < r.value ==> !p(s[j])
    ensures r.None? ==> forall j :: 0 <= j < |s| ==> !p(s[j])
  {
    if |s| == 0 then None
    else if p(s[0]) then Some(0)
    else match FirstIndex(s[1..], p)
      case None => None
      case Some(k) => Some(k + 1)
  }

  /** The elements of `s` satisfying `p`, as `Where` keeps them. */
  function Filter<T(!new)>(s: seq<T>, p: T -> bool): (r: seq<T>)
    ensures |r| <= |s|
    ensures forall x :: x in r <==> x in s && p(x)
  {
    if |s| == 0 then []
    else
      var rest := Filter(s[1..], p);
      assert s == [s[0]] + s[1..];
      if p(s[0]) then [s[0]] + rest else rest
  }

  /** Filtering keeps each selected element exactly as often as `s` holds it, and drops the rest. */
  lemma {:induction false} FilterCounts<T(!new)>(s: seq<T>, p: T -> bool)
    ensures forall x :: multiset(Filter(s, p))[x] == if p(x) then multiset(s)[x] else 0
  {
    if |s| > 0 {
      FilterCounts(s[1..], p);
      assert s == [s[0]] + s[1..];
      assert multiset(s) == multiset{s[0]} + multiset(s[1..]);
      if p(s[0]) {
        assert Filter(s, p) == [s[0]] + Filter(s[1..], p);
        assert multiset(Filter(s, p)) == multiset{s[0]} + multiset(Filter(s[1..], p));
      } else {
        assert Filter(s, p) == Filter(s[1..], p);
      }
    }
  }

  /** No two elements of `s` share a key. */
  ghost predicate KeysDistinct<T, K>(s: seq<T>, key: T -> K)
  {
    forall a, b | 0 <= a < b < |s| :: key(s[a]) != key(s[b])
  }

  /** Filtering keeps the keys of a sequence distinct. */
  lemma {:induction false} FilterKeepsKeysDistinct<T(!new), K>(s: seq<T>, p: T -> bool, key: T -> K)
    requires KeysDistinct(s, key)
    ensures KeysDistinct(Filter(s, p), key)
  {
    if |s| > 0 {
      var tail := s[1..];
      forall a, b | 0 <= a < b < |tail| ensures key(tail[a]) != key(tail[b]) {
        assert tail[a] == s[a + 1] && tail[b] == s[b + 1];
      }
      FilterKeepsKeysDistinct(tail, p, key);
      var rest := Filter(tail, p);
      if p(s[0]) {
        forall y | y in rest ensures key(s[0]) != key(y) {
          var m :| 0 <= m < |tail| && tail[m] == y;
          assert s[m + 1] == y;
        }
        PrependKeepsKeysDistinct(s[0], rest, key);
        assert Filter(s, p) == [s[0]] + rest;
      } else {
        assert Filter(s, p) == rest;
      }
    }
  }

  /** Prepending an element whose key is new keeps the keys distinct. */
  lemma PrependKeepsKeysDistinct<T, K>(x: T, rest: seq<T>, key: T -> K)
    requires KeysDistinct(rest, key)
    requires forall y | y in rest :: key(x) != key(y)
    ensures KeysDistinct([x] + rest, key)
  {
    var r := [x] + rest;
    forall a, b | 0 <= a < b < |r| ensures key(r[a]) != key(r[b]) {
      assert r[b] == rest[b - 1] && rest[b - 1] in rest;
      if a > 0 {
        assert r[a] == rest[a - 1];
      }
    }
  }

  /** The user has a row for this character. */
  predicate Owns(rows: seq<UserCharacter>, userId: string, characterId: int)
  {
    exists i | 0 <= i < |rows| :: rows[i].userId == userId && rows[i].characterId == characterId
  }

  /** The catalog holds a character with this id. */
  predicate InCatalog(catalog: seq<Character>, characterId: int)
  {
    exists i | 0 <= i < |catalog| :: catalog[i].characterId == characterId
  }

  /** The (userId, characterId) row. */
  function FindRow(rows: seq<UserCharacter>, userId: string, characterId: int): (r: Option<nat>)
    ensures r.None? <==> !Owns(rows, userId, characterId)
    ensures r.Some? ==> r.value < |rows| && rows[r.value].userId == userId
                        && rows[r.value].characterId == characterId
    ensures r.Some? ==> forall j :: 0 <= j < r.value ==>
                          !(rows[j].userId == userId && rows[j].characterId == characterId)
  {
    FirstIndex(rows, (uc: UserCharacter) => uc.userId == userId && uc.characterId == characterId)
  }

  /** The user's first row that is marked selected. */
  function FindSelected(rows: seq<UserCharacter>, userId: string): (r: Option<nat>)
    ensures r.None? <==> forall i :: 0 <= i < |rows| ==> !(rows[i].userId == userId && rows[i].isSelected)
    ensures r.Some? ==> r.value < |rows| && rows[r.value].userId == userId && rows[r.value].isSelected
  {
    FirstIndex(rows, (uc: UserCharacter) => uc.userId == userId && uc.isSelected)
  }

  /** The user's first row, selected or not. */
  function FindOwned(rows: seq<UserCharacter>, userId: string): (r: Option<nat>)
    ensures r.None? <==> forall i :: 0 <= i < |rows| ==> rows[i].userId != userId
    ensures r.Some? ==> r.value < |rows| && rows[r.value].userId == userId
    ensures r.Some? ==> forall j :: 0 <= j < r.value ==> rows[j].userId != userId
  {
    FirstIndex(rows, (uc: UserCharacter) => uc.userId == userId)
  }

  /** The catalog entry with this primary key. */
  function FindCharacter(catalog: seq<Character>, characterId: int): (r: Option<nat>)
    ensures r.None? <==> !InCatalog(catalog, characterId)
    ensures r.Some? ==> r.value < |catalog| && catalog[r.value].characterId == characterId
  {
    FirstIndex(catalog, (c: Character) => c.characterId == characterId)
  }

  /** The completion with this id, provided it belongs to `userId`. */
  function FindCompletion(completions: seq<QuestCompletion>, completionId: int, userId: string): (r: Option<nat>)
    ensures r.None? <==> forall k :: 0 <= k < |completions| ==>
                           !(completions[k].id == completionId && completions[k].userId == userId)
    ensures r.Some? ==> r.value < |completions| && completions[r.value].id == completionId
                        && completions[r.value].userId == userId
  {
    FirstIndex(completions, (qc: QuestCompletion) => qc.id == completionId && qc.userId == userId)
  }

  /**
   * The rows after get-or-create: unchanged when the pair is already owned
   * or the catalog lacks the character, else one default row appended.
   */
  function WithRow(rows: seq<UserCharacter>, catalog: seq<Character>, userId: string, characterId: int)
    : (r: seq<UserCharacter>)
    ensures Owns(r, userId, characterId) <==> Owns(rows, userId, characterId) || InCatalog(catalog, characterId)
    ensures |rows| <= |r| <= |rows| + 1 && r[..|rows|] == rows
    ensures Owns(rows, userId, characterId) || !InCatalog(catalog, characterId) ==> r == rows
    ensures !Owns(rows, userId, characterId) && InCatalog(catalog, characterId) ==>
              r == rows + [NewUserCharacter(userId, characterId, false)]
  {
    if Owns(rows, userId, characterId) || !InCatalog(catalog, characterId) then rows
    else
      var r := rows + [NewUserCharacter(userId, characterId, false)];
      assert r[|rows|].userId == userId && r[|rows|].characterId == characterId;
      r
  }

  /** Get-or-create finds the existing row, else the row it appended, else nothing. */
  lemma WithRowFindsRow(rows: seq<UserCharacter>, catalog: seq<Character>, userId: string, characterId: int)
    ensures FindRow(WithRow(rows, catalog, userId, characterId), userId, characterId) ==
            if Owns(rows, userId, characterId) then FindRow(rows, userId, characterId)
            else if InCatalog(catalog, characterId) then Some(|rows|)
            else None
  {
    if !Owns(rows, userId, characterId) && InCatalog(catalog, characterId) {
      var all := WithRow(rows, catalog, userId, characterId);
      assert forall m | 0 <= m < |rows| :: all[m] == rows[m];
      assert all[|rows|].userId == userId && all[|rows|].characterId == characterId;
    }
  }

  /** The catalog record a row or completion refers to (its foreign key). */
  function CharacterOf(catalog: seq<Character>, characterId: int): (c: Character)
    requires InCatalog(catalog, characterId)
    ensures c in catalog && c.characterId == characterId
  {
    catalog[FindCharacter(catalog, characterId).value]
  }

  // ---- The database's own guarantees, as predicates over the tables ----

  /** CharacterId is the catalog's primary key. */
  ghost predicate CatalogKeysUnique(catalog: seq<Character>)
  {
    forall i, j | 0 <= i < j < |catalog| :: catalog[i].characterId != catalog[j].characterId
  }

  /** Catalog ids are distinct identity values below the next one to be issued. */
  ghost predicate CatalogValid(catalog: seq<Character>, nextId: int)
  {
    && CatalogKeysUnique(catalog)
    && 0 < nextId
    && (forall i | 0 <= i < |catalog| :: 0 < catalog[i].characterId < nextId)
  }

  /** (UserId, CharacterId) is the composite primary key of the user-character table. */
  ghost predicate RowKeysUnique(rows: seq<UserCharacter>)
  {
    forall i, j | 0 <= i < j < |rows| ::
      rows[i].userId != rows[j].userId || rows[i].characterId != rows[j].characterId
  }

  /** No user has two selected rows. */
  ghost predicate AtMostOneSelected(rows: seq<UserCharacter>)
  {
    forall i, j | 0 <= i < j < |rows| && rows[i].userId == rows[j].userId ::
      !(rows[i].isSelected && rows[j].isSelected)
  }

  /** Every row refers to a catalog character and has a level of at least 1. */
  ghost predicate RowsWellFormed(rows: seq<UserCharacter>, catalog: seq<Character>)
  {
    forall i | 0 <= i < |rows| :: InCatalog(catalog, rows[i].characterId) && rows[i].level >= 1
  }

  /** Every completion belongs to an existing (user, character) row. */
  ghost predicate CompletionsOwned(completions: seq<QuestCompletion>, rows: seq<UserCharacter>)
  {
    forall k | 0 <= k < |completions| :: Owns(rows, completions[k].userId, completions[k].characterId)
  }

  /** Completion ids are distinct identity values below the next one to be issued. */
  ghost predicate CompletionIdsFresh(completions: seq<QuestCompletion>, nextId: int)
  {
    && 0 < nextId
    && (forall k | 0 <= k < |completions| :: 0 < completions[k].id < nextId)
    && (forall i, j | 0 <= i < j < |completions| :: completions[i].id != completions[j].id)
  }

  /** Two versions of the row table that differ at most in IsSelected. */
  ghost predicate SameProgress(rows: seq<UserCharacter>, rows': seq<UserCharacter>)
  {
    |rows| == |rows'|
    && forall i | 0 <= i < |rows| :: rows'[i] == rows[i].(isSelected := rows'[i].isSelected)
  }

  /** Two versions of the row table whose rows keep their keys, in the same order. */
  ghost predicate SameKeys(rows: seq<UserCharacter>, rows': seq<UserCharacter>)
  {
    |rows| == |rows'|
    && forall i | 0 <= i < |rows| ::
         rows'[i].userId == rows[i].userId && rows'[i].characterId == rows[i].characterId
  }

  /** Updating rows in place without touching their keys keeps key uniqueness and ownership. */
  lemma SameKeysKeepOwnership(rows: seq<UserCharacter>, rows': seq<UserCharacter>,
                              completions: seq<QuestCompletion>)
    requires SameKeys(rows, rows')
    ensures RowKeysUnique(rows) ==> RowKeysUnique(rows')
    ensures forall u, c :: Owns(rows, u, c) <==> Owns(rows', u, c)
    ensures CompletionsOwned(completions, rows) ==> CompletionsOwned(completions, rows')
  {
    forall u, c ensures Owns(rows, u, c) <==> Owns(rows', u, c) {
      if Owns(rows, u, c) {
        var i :| 0 <= i < |rows| && rows[i].userId == u && rows[i].characterId == c;
        assert rows'[i].userId == u && rows'[i].characterId == c;
      }
      if Owns(rows', u, c) {
        var i :| 0 <= i < |rows'| && rows'[i].userId == u && rows'[i].characterId == c;
        assert rows[i].userId == u && rows[i].characterId == c;
      }
    }
  }

  /** Rewriting rows in place without touching their keys finds the same row for every key. */
  lemma SameKeysSameRow(rows: seq<UserCharacter>, rows': seq<UserCharacter>, userId: string, characterId: int)
    requires SameKeys(rows, rows')
    ensures FindRow(rows', userId, characterId) == FindRow(rows, userId, characterId)
  {
    SameKeysKeepOwnership(rows, rows', []);
    var a, b := FindRow(rows, userId, characterId), FindRow(rows', userId, characterId);
    if a.Some? {
      assert rows'[a.value].userId == userId && rows'[a.value].characterId == characterId;
      assert rows[b.value].userId == userId && rows[b.value].characterId == characterId;
    }
  }

  /** Appending a row keeps every existing ownership. */
  lemma AppendKeepsOwnership(rows: seq<UserCharacter>, uc: UserCharacter, completions: seq<QuestCompletion>)
    ensures forall u, c :: Owns(rows, u, c) ==> Owns(rows + [uc], u, c)
    ensures Owns(rows + [uc], uc.userId, uc.characterId)
    ensures CompletionsOwned(completions, rows) ==> CompletionsOwned(completions, rows + [uc])
  {
    forall u, c | Owns(rows, u, c) ensures Owns(rows + [uc], u, c) {
      var i :| 0 <= i < |rows| && rows[i].userId == u && rows[i].characterId == c;
      assert (rows + [uc])[i] == rows[i];
    }
    assert (rows + [uc])[|rows|] == uc;
  }

  /** Removing completion `k` keeps ids fresh and every remaining completion owned. */
  lemma RemoveCompletionKeepsInvariants(completions: seq<QuestCompletion>, rows: seq<UserCharacter>,
                                        k: nat, nextId: int)
    requires k < |completions|
    requires CompletionsOwned(completions, rows) && CompletionIdsFresh(completions, nextId)
    ensures CompletionsOwned(completions[..k] + completions[k + 1..], rows)
    ensures CompletionIdsFresh(completions[..k] + completions[k + 1..], nextId)
  {
    var rest := completions[..k] + completions[k + 1..];
    assert forall j | 0 <= j < |rest| :: rest[j] == completions[if j < k then j else j + 1];
  }

  /** The invariants of the user-character and completion tables. */
  ghost predicate TablesValid(rows: seq<UserCharacter>, catalog: seq<Character>,
                              completions: seq<QuestCompletion>, nextCompletionId: int)
  {
    && RowKeysUnique(rows)
    && RowsWellFormed(rows, catalog)
    && AtMostOneSelected(rows)
    && CompletionsOwned(completions, rows)
    && CompletionIdsFresh(completions, nextCompletionId)
  }

  /** Rewriting a row's progress in place keeps the table invariants. */
  lemma UpdateRowKeepsTables(rows: seq<UserCharacter>, catalog: seq<Character>,
                             completions: seq<QuestCompletion>, nextId: int, i: nat, updated: UserCharacter)
    requires TablesValid(rows, catalog, completions, nextId) && i < |rows|
    requires updated.userId == rows[i].userId && updated.characterId == rows[i].characterId
    requires updated.isSelected == rows[i].isSelected && updated.level >= 1
    ensures TablesValid(rows[i := updated], catalog, completions, nextId)
  {
    SameKeysKeepOwnership(rows, rows[i := updated], completions);
  }

  /** Appending a completion for an existing row, with the next identity value, keeps the invariants. */
  lemma AppendCompletionKeepsTables(rows: seq<UserCharacter>, catalog: seq<Character>,
                                    completions: seq<QuestCompletion>, nextId: int, qc: QuestCompletion)
    requires TablesValid(rows, catalog, completions, nextId)
    requires Owns(rows, qc.userId, qc.characterId) && qc.id == nextId
    ensures TablesValid(rows, catalog, completions + [qc], nextId + 1)
  {
  }

  /** Deleting a completion keeps the invariants. */
  lemma RemoveCompletionKeepsTables(rows: seq<UserCharacter>, catalog: seq<Character>,
                                    completions: seq<QuestCompletion>, nextId: int, k: nat)
    requires TablesValid(rows, catalog, completions, nextId) && k < |completions|
    ensures TablesValid(rows, catalog, completions[..k] + completions[k + 1..], nextId)
  {
    RemoveCompletionKeepsInvariants(completions, rows, k, nextId);
  }

  /** Appending an unselected row for a new key of a catalog character keeps the invariants. */
  lemma AppendRowKeepsTables(rows: seq<UserCharacter>, catalog: seq<Character>,
                             completions: seq<QuestCompletion>, nextId: int, uc: UserCharacter)
    requires TablesValid(rows, catalog, completions, nextId)
    requires !Owns(rows, uc.userId, uc.characterId) && InCatalog(catalog, uc.characterId)
    requires uc.level >= 1 && !uc.isSelected
    ensures TablesValid(rows + [uc], catalog, completions, nextId)
  {
    AppendKeepsOwnership(rows, uc, completions);
    var rows' := rows + [uc];
    forall i, j | 0 <= i < j < |rows'|
      ensures rows'[i].userId != rows'[j].userId || rows'[i].characterId != rows'[j].characterId
    {
      if j == |rows| {
        assert rows'[i] == rows[i];
      }
    }
  }

  /**
   * The application database. Each field is a table; every endpoint method
   * is one atomic transaction over them.
   */
  class Store {
    var users: set<string>
    var characters: seq<Character>
    var quests: map<int, Quest>
    var userCharacters: seq<UserCharacter>
    var questCompletions: seq<QuestCompletion>
    /** The next identity value for a new character. */
    var nextCharacterId: int
    /** The next identity value for a new completion. */
    var nextCompletionId: int

    ghost predicate Valid()
      reads this
    {
      && CatalogValid(characters, nextCharacterId)
      && (forall id | id in quests :: quests[id].id == id)
      && TablesValid(userCharacters, characters, questCompletions, nextCompletionId)
    }

    /** A database with registered users and quests and no characters yet. */
    constructor (users: set<string>, quests: map<int, Quest>)
      requires forall id | id in quests :: quests[id].id == id
      ensures Valid()
      ensures this.users == users && this.quests == quests
      ensures characters == [] && userCharacters == [] && questCompletions == []
    {
      this.users := users;
      this.quests := quests;
      characters := [];
      userCharacters := [];
      questCompletions := [];
      nextCharacterId := 1;
      nextCompletionId := 1;
    }
  }
}
