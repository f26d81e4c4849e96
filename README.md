# Game API record tables, modelled in Dafny

The game API keeps two kinds of records, players and enemies, each in a flat
CSV file, plus a second "deleted" CSV file per kind that serves as an
append-only history. Every operation except the history read starts by
reading the whole active file into a list. Create writes the changed list
back. Update and delete write it back only when they find the id, and a
delete that finds it also appends the removed record to the history file.
The three reads write nothing. This project models that in-memory table
logic and proves what each operation does to the two files.

- `models.dfy` (module `Models`): the `Player` and `Enemy` records, the
  `WithId<T>` extension that adds an integer `id` (`PlayerWithID`,
  `EnemyWithID`), and the pydantic `Field` constraints as the predicates
  `ValidPlayer` and `ValidEnemy`. `PlayerErrors` and `EnemyErrors` list the
  fields pydantic would reject. Floats are reals. The enemy's `type` field
  is called `kind` because `type` is a Dafny keyword.
- `tables.dfy` (module `Tables`): the reference definitions the store
  methods are proved against. `NextId` is `max(ids, default=0) + 1`,
  `Lookup` finds the first record with an id, `RemoveId` is the
  order-preserving filter, and `LastMatch` is the record a delete moves to
  the history. It also holds the lemmas about ids (`WellKeyed`: positive and
  distinct) and about what a delete keeps.
- `player_operations.dfy` (module `PlayerOperations`): the class
  `PlayerStore`. Its field `table` is the players file and its field
  `history` is the deleted-players file. It has one method per operation.
  `ReadOne`, `Create`, `Update` and `Delete` loop over the table as the
  source does; `ReadAll`, `ReadDeleted` and `AppendToDeleted` have no loop
  in the source and none here. The module also holds
  the update dict as a `PlayerPatch` of optional fields and the `is_dead`
  codec. The codec writes `str(bool)` and reads back with
  `lower() == 'true'`.
- `enemy_operations.dfy` (module `EnemyOperations`): the same for enemies,
  in the class `EnemyStore`.

A missing file reads as an empty list. So the default constructor of each
store starts with both sequences empty. Building a record from a row raises
unless the row passes validation, so a read of a file fails if any of its
rows is invalid. Each method therefore requires valid rows in the file it
reads, and only there. `ReadAll`, `ReadOne`, `Create`, `Update` and `Delete`
require a valid table. `ReadDeleted` requires a valid history. `AppendToDeleted`
reads nothing and requires nothing. `Create` also requires a valid record,
because its argument is a pydantic model that was validated when it was
built. `Valid()` (both files valid) is what the constructors establish.

`operations/operations_player.py` defines `write_players_to_csv` twice, at
lines 9 and 91. Python keeps the later one, which stores `is_dead` as
`str(bool)`. That is the definition modelled here. The CSV writer would have
stringified the boolean the same way in the earlier one.

Deletion filters out every record with the id. The variable holding the
removed record is overwritten at each match, so only the last match is
appended to the history. When ids are distinct, the moved record is the one
a read returns, and the survivors plus the moved record are exactly the
original records (`DeleteMovesLookedUpRecord`, `DeleteConservesRecords`). Ids
stay distinct because `Create`, `Update` and `Delete` all preserve
`WellKeyed`. If a table already holds duplicate ids, the earlier duplicates
are removed from the table and not moved to the history
(`DuplicateIdDeleteDropsRecord`). The API's own
operations never create such a table.

The history only grows. `Create`, `Update` and a delete of an absent id leave
it unchanged, and a successful delete appends exactly one record to it.

## Model

| member | source | states |
|---|---|---|
| `Models.ValidPlayer` | models.py:5-13 | a player is valid exactly when every field meets its own `Field` declaration: health, regenerate_health, armor, hit_speed >= 0 and speed, jump > 0 |
| `Models.ValidEnemy` | models.py:18-25 | an enemy is valid exactly when every field meets its own `Field` declaration: speed, jump, spawn > 0, hit_speed, health, probability_spawn >= 0, and type of length at least 1 |
| `Models.PlayerFieldsFailing` | models.py:5-13 | of a list of player fields, the result holds exactly those whose constraint the player fails |
| `Models.EnemyFieldsFailing` | models.py:18-25 | of a list of enemy fields, the result holds exactly those whose constraint the enemy fails |
| `Models.PlayerErrors` | models.py:5-13 | a player is rejected exactly when some `Field` constraint fails (health, regenerate_health, armor, hit_speed >= 0; speed, jump > 0), and the error list names exactly the failing fields; `is_dead` is never named |
| `Models.EnemyErrors` | models.py:18-25 | an enemy is rejected exactly when some constraint fails (speed, jump, spawn > 0; hit_speed, health, probability_spawn >= 0; type non-empty), naming exactly the failing fields |
| `Tables.MaxId` | operations/operations_player.py:44 | the maximum of a non-empty id list is at least every id and is one of them |
| `Tables.NextId` | operations/operations_player.py:44 | the new id exceeds every existing id; it is 1 for an empty table and otherwise exactly one more than an existing id |
| `Tables.FirstIndex` | operations/operations_player.py:37-39 | the scan finds nothing exactly when no record has the id; otherwise it finds a matching position with no match before it |
| `Tables.Lookup` | operations/operations_enemy.py:40-43 | the record found is a record of the table with the id and no record before it has the id; nothing is found exactly when no record has the id |
| `Tables.RemoveId` | operations/operations_player.py:67-72 | the survivors of a delete are the table's records without the id, each one still in the table, and no longer than the table |
| `Tables.LastMatch` | operations/operations_player.py:68-70 | the record a delete holds after its scan is the last record with the id, and there is none exactly when no record has the id |
| `Tables.RemoveIdConcat` | operations/operations_enemy.py:73-78 | the filter distributes over concatenation, so the survivors keep their original order |
| `Tables.RemoveIdAbsent` | operations/operations_player.py:68-77 | deleting an id no record carries leaves the table equal to the input |
| `Tables.RemoveIdShrinks` | operations/operations_enemy.py:74-79 | deleting an id some record carries makes the table strictly shorter |
| `Tables.AppendNextKeepsWellKeyed` | operations/operations_player.py:44-46 | appending a record with the next id keeps ids positive and distinct |
| `Tables.ReplaceKeepsWellKeyed` | operations/operations_player.py:53-58 | overwriting a record's fields in place, id kept, keeps ids positive and distinct |
| `Tables.RemoveIdKeepsWellKeyed` | operations/operations_enemy.py:74-80 | the filtered table keeps ids positive and distinct |
| `Tables.DeleteMovesLookedUpRecord` | operations/operations_player.py:64-76 | with distinct ids, the record moved to the history is the record a read of that id returns |
| `Tables.DeleteConservesRecords` | operations/operations_enemy.py:70-83 | with distinct ids, the survivors plus the moved record are, as a multiset, exactly the original table |
| `Tables.DuplicateIdDeleteDropsRecord` | operations/operations_player.py:68-75 | with two records sharing an id, a delete empties the table but moves only the second record, so the first is removed from the table and not moved to the history |
| `PlayerOperations.ApplyPatch` | operations/operations_player.py:55-56 | writing the dict's keys over a valid player leaves it valid exactly when every written value is valid; an empty dict changes nothing; a dict with every key replaces every field |
| `PlayerOperations.PatchProperties` | operations/operations_player.py:55-56 | a full dict is valid exactly when the player it carries is; it replaces whatever it is written over; writing a dict twice equals writing it once |
| `PlayerOperations.ToLower` | operations/operations_player.py:27 | lower-casing keeps the length and lower-cases each character |
| `PlayerOperations.DecodeEncodeIsDead` | operations/operations_player.py:97 | writing `is_dead` as `str(bool)` and reading it back gives the original boolean |
| `PlayerOperations.EncodeIsDead` | operations/operations_player.py:97 | `str(bool)` is the boolean's name, "true" or "false" once lower-cased, with a capital first letter |
| `PlayerOperations.DecodeIsDead` | operations/operations_player.py:27 | a stored `is_dead` reads as true exactly when it is the word "true" in any letter case |
| `PlayerOperations.PlayerStore.constructor` | operations/operations_player.py:16-33 | when the players file and the history file are missing, both read as empty |
| `PlayerOperations.PlayerStore.Load` | operations/operations_player.py:21-30 | files whose rows all validate give a valid store holding exactly those rows |
| `PlayerOperations.PlayerStore.ReadAll` | operations/operations_player.py:16-33 | reading all players returns the table, every record valid; only the players file must hold valid rows |
| `PlayerOperations.PlayerStore.ReadDeleted` | operations/operations_player.py:100-117 | reading the deleted players returns the history, every record valid; only the history file must hold valid rows |
| `PlayerOperations.PlayerStore.ReadOne` | operations/operations_player.py:35-40 | the linear scan returns the first player with the id, or None when there is none |
| `PlayerOperations.PlayerStore.Create` | operations/operations_player.py:42-48 | the player is appended with id `NextId` of the old table and returned; earlier records and the history are unchanged; ids stay distinct and positive |
| `PlayerOperations.PlayerStore.Update` | operations/operations_player.py:50-62 | only the first player with the id changes, and only in the dict's keys; that player is returned; with no such player the result is None and the table is unchanged; the history never changes |
| `PlayerOperations.PlayerStore.Delete` | operations/operations_player.py:64-77 | the table becomes the order-preserving filter without the id and the removed player is appended to the history and returned; with an absent id the result is None and neither file changes |
| `PlayerOperations.PlayerStore.AppendToDeleted` | operations/operations_player.py:81-89 | the player is appended at the end of the history and the players file is untouched |
| `EnemyOperations.ApplyPatch` | operations/operations_enemy.py:60-61 | writing the dict's keys over a valid enemy leaves it valid exactly when every written value is valid; an empty dict changes nothing; a dict with every key replaces every field |
| `EnemyOperations.PatchProperties` | operations/operations_enemy.py:60-61 | a full dict is valid exactly when the enemy it carries is; it replaces whatever it is written over; writing a dict twice equals writing it once |
| `EnemyOperations.EnemyStore.constructor` | operations/operations_enemy.py:19-35 | when the enemies file and the history file are missing, both read as empty |
| `EnemyOperations.EnemyStore.Load` | operations/operations_enemy.py:24-32 | files whose rows all validate give a valid store holding exactly those rows |
| `EnemyOperations.EnemyStore.ReadAll` | operations/operations_enemy.py:19-35 | reading all enemies returns the table, every record valid; only the enemies file must hold valid rows |
| `EnemyOperations.EnemyStore.ReadDeleted` | operations/operations_enemy.py:97-113 | reading the deleted enemies returns the history, every record valid; only the history file must hold valid rows |
| `EnemyOperations.EnemyStore.ReadOne` | operations/operations_enemy.py:38-43 | the linear scan returns the first enemy with the id, or None when there is none |
| `EnemyOperations.EnemyStore.Create` | operations/operations_enemy.py:46-52 | the enemy is appended with id `NextId` of the old table and returned; earlier records and the history are unchanged; ids stay distinct and positive |
| `EnemyOperations.EnemyStore.Update` | operations/operations_enemy.py:55-67 | only the first enemy with the id changes, and only in the dict's keys; that enemy is returned; with no such enemy the result is None and the table is unchanged; the history never changes |
| `EnemyOperations.EnemyStore.Delete` | operations/operations_enemy.py:70-83 | the table becomes the order-preserving filter without the id and the removed enemy is appended to the history and returned; with an absent id the result is None and neither file changes |
| `EnemyOperations.EnemyStore.AppendToDeleted` | operations/operations_enemy.py:86-94 | the enemy is appended at the end of the history and the enemies file is untouched |

## Left out

- File I/O is not modelled: opening files, the CSV reader and writer, writing the header only when the history file is empty, and the file paths. The enemy history path at operations/operations_enemy.py:6 differs from the unused constant at line 8. That only decides which file is touched, so the model does not capture it.
- Parsing and printing of the float columns (`speed`, `jump`, `spawn`, `probability_spawn`) is left out. Floats are modelled as reals, so NaN, infinities and rounding are not captured.
- A row that fails validation makes the read of its file raise. The model does not return that error. Instead, each store method requires valid rows in the file it reads: the table for `ReadAll`, `ReadOne`, `Create`, `Update` and `Delete`, and the history for `ReadDeleted`.
- `PlayerOperations.PlayerStore.AppendToDeleted`: does not model a failing append. The source prints the exception and swallows it, so the delete still reports success while the history is unchanged. The model assumes the append succeeds. The same holds for `EnemyOperations.EnemyStore.AppendToDeleted`.
- The update dict (`PlayerPatch`, `EnemyPatch`) is modelled as optional values for the declared fields only. A dict with an unknown key makes pydantic raise, and a dict with an `id` key would rewrite the id. No caller builds such a dict, because the API passes the fields of a `Player` or an `Enemy`.
- `PlayerOperations.ToLower`: lower-cases only the ASCII letters, while Python's `str.lower` covers all of Unicode. No other character lower-cases to a letter of "true", so reading `is_dead` is unaffected.
- main.py (HTTP routing, sessions, the 404 mapping and its list filters), modelos/player_sql.py and db/init_db.py are not part of this model. They are framework and database glue.
- Concurrent requests are not modelled. The source's read-modify-write has no locking or atomicity.
