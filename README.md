# Game server player-state service, modelled in Dafny

This project models the player-state service of a small game backend (`Node/GameServer.js`).
The service serves five HTTP routes over a relational database with five tables:

- `players`: accounts, credential hashes and the last login time;
- `items`: the item catalog;
- `inventories`: one quantity per (player, item) pair;
- `quests`: the quest catalog;
- `player_quests`: one status and one completion time per (player, quest) pair.

The model replaces the database with in-memory values and the routes with functions and methods.

- `Tables` (`tables.dfy`) is the data model. `players` is a sequence of rows, because the
  login route answers with the first row its query returns. The query has no ORDER BY, so
  SQL leaves that order open; the model takes the sequence order as the query's order. The
  other tables are maps keyed by their primary key; the two composite keys are
  pairs. The catalog columns (name, description, value; title, description, reward_exp,
  reward_item_id) are the ones the game client reads
  (`2024_02_02_Node_Project/Assets/Script/GameDataManager.cs`, lines 15-34). The schema itself
  is not part of this model.
- `Statements` (`statements.dfy`) gives each SQL statement of the routes as a function on the
  table it touches: the credential lookup, the last-login write, the accumulate-or-insert on an
  inventory entry, the status write, and the two inner joins.
- `Handlers` (`handlers.dfy`) gives each route as a function from the database before the
  request to the response and, for the three routes that write, the database after it. The
  two read routes are only these functions, applied to the current state.
- `GameServer` (`server.dfy`) has the class `Server`. It holds the five tables as fields, and
  its methods `Login`, `UpdateQuestStatus` and `AddInventoryItem` update them in place. Each
  method's postcondition equates the new state and the response with the route's function in
  `Handlers`, and also lists the tables that stay the same.
- `Properties` (`properties.dfy`) holds the lemmas about the routes.

Inputs the code gets from outside are parameters:

- `now` is the value of the database's `CURRENT_TIMESTAMP`.
- `failure` stands for the storage engine. It is `None` when every query of a request returns
  normally. It is `Some(message)` when one of them throws. In that case the route answers 500
  with the error's message, and no write of that request takes effect.

The status is an arbitrary string. The one status the code treats specially is the literal
`"완료"` ("completed"); it is the constant `Tables.COMPLETED`. The 401 message `"로그인 실패"`
("login failed") is `Handlers.LOGIN_FAILED`.

Behaviour of the code that the model keeps as it is:

- A status update for a (player, quest) pair with no row changes nothing and still answers
  `success: true` (`Node/GameServer.js`, lines 109-116).
- The status is stored whatever string it is; no value is rejected (lines 104-111).
- The code does no sign check on the quantity (line 125), so a negative quantity is added
  (`Properties.AddAcceptsNegativeQuantity`).
- A failing last-login write makes the whole login answer 500 (lines 44-47 and 54-57).
- The login answers with the row as it was read before the last-login write (lines 40-49), so
  the returned `last_login` is the previous one.
- The server has no route that combines the inventory and quest reads; the game client
  (`GameDataManager.cs`) makes the two requests itself after a login.

## Model

| member | source | states |
|---|---|---|
| `Statements.SelectByCredentials` | Node/GameServer.js:32-35 | the rows returned are exactly the rows whose username and password_hash both equal the given ones, and the first of them is the first matching row of the `players` sequence |
| `Statements.SetLastLogin` | Node/GameServer.js:44-47 | every row with the given player_id gets `now` as last_login and keeps its other columns; every other row is unchanged |
| `Statements.AddQuantity` | Node/GameServer.js:131-152 | after the step the pair has exactly one entry: old quantity plus the added one on a hit, the added quantity on a miss; no other entry changes |
| `Statements.CompletionTime` | Node/GameServer.js:110-111 | the new complete_at is present exactly when the status equals `"완료"`, and then it is `now` |
| `Statements.SetStatus` | Node/GameServer.js:109-112 | an existing row gets the new status and the derived complete_at; no row is created; every other row is unchanged |
| `Statements.InventoryJoin` | Node/GameServer.js:67-70 | a row is returned exactly for each of the player's entries whose item is in the catalog, with the catalog columns and the entry's quantity; at most one row per item |
| `Statements.QuestJoin` | Node/GameServer.js:88-91 | a row is returned exactly for each of the player's quest rows whose quest is in the catalog, with the catalog columns and the status; at most one row per quest |
| `Handlers.Login` | Node/GameServer.js:26-58 | a storage error answers 500 and writes nothing; a success returns a row of `players` with both credentials and writes only its last_login; any other answer writes nothing; only `players` can change |
| `Handlers.GetInventory` | Node/GameServer.js:61-79 | the answer is a 500 exactly on a storage error; otherwise every row returned belongs to one of the player's entries |
| `Handlers.GetQuests` | Node/GameServer.js:82-100 | the answer is a 500 exactly on a storage error; otherwise every row returned belongs to one of the player's quest rows |
| `Handlers.UpdateQuestStatus` | Node/GameServer.js:103-121 | a storage error answers 500 and writes nothing; otherwise the answer is success; only `player_quests` can change, and it gains no row |
| `Handlers.AddInventoryItem` | Node/GameServer.js:124-159 | a storage error answers 500 and writes nothing; otherwise the answer is success and the pair has an entry; only `inventories` can change |
| `GameServer.Server.constructor` | Node/GameServer.js:9-14 | the server works over the database it is given, with player_id a key of `players` |
| `GameServer.Server.Login` | Node/GameServer.js:26-58 | the new tables and the answer are those of `Handlers.Login`; on success exactly the returned row's index gets the new last_login; the other tables are unchanged |
| `GameServer.Server.UpdateQuestStatus` | Node/GameServer.js:103-121 | the new tables and the answer are those of `Handlers.UpdateQuestStatus`; the other four tables are unchanged |
| `GameServer.Server.AddInventoryItem` | Node/GameServer.js:124-159 | the new tables and the answer are those of `Handlers.AddInventoryItem`; the other four tables are unchanged |
| `Properties.LoginSucceedsIffCredentialsMatch` | Node/GameServer.js:32-39 | without a storage error, a login succeeds if and only if some row has exactly the given username and password_hash |
| `Properties.LoginRejectionChangesNothing` | Node/GameServer.js:50-53 | with no matching row the answer is 401, `success: false` with the fixed message, and the database is unchanged |
| `Properties.LoginReturnsFirstMatch` | Node/GameServer.js:39-40 | the returned player is the first matching row in the sequence order of `players` (see "## Left out" on the query order) |
| `Properties.LoginWritesOnlyThatPlayer` | Node/GameServer.js:39-49 | on success, when player_id is a key, the new database is the old one with only that row's last_login set to `now`, and the answer carries the row as read before the write |
| `Properties.LoginKeepsWellFormed` | Node/GameServer.js:44-47 | a login keeps player_id unique in `players` |
| `Properties.LoginAgainSucceeds` | Node/GameServer.js:32-47 | a login changes no credential, so the same credentials succeed again afterwards |
| `Properties.AddToExistingEntryAccumulates` | Node/GameServer.js:138-144 | adding to a pair with an entry sets its quantity to the old quantity plus the given one, with no other change |
| `Properties.AddToNewPairInsertsOneEntry` | Node/GameServer.js:145-152 | adding to a pair without an entry inserts exactly one entry with the given quantity, with no other change |
| `Properties.AddTwiceSums` | Node/GameServer.js:131-152 | adding q1 and then q2 to a pair gives its previous quantity (0 if none) plus q1 plus q2 |
| `Properties.AddKeepsQuantitiesNonNegative` | Node/GameServer.js:125 | with a positive quantity, all-non-negative quantities stay non-negative |
| `Properties.AddAcceptsNegativeQuantity` | Node/GameServer.js:125 | a negative quantity is accepted with success and stored, so quantities can become negative |
| `Properties.AddAllAccumulates` | Node/GameServer.js:131-152 | a run of additions taken one after another raises the pair's quantity by their sum, creates at most that one entry, and changes nothing else |
| `Properties.UnitAddsCount` | Node/GameServer.js:131-152 | N additions of quantity one to a pair with no entry leave quantity N |
| `Properties.StatusUpdateDerivesCompletion` | Node/GameServer.js:109-112 | on an existing row the new status is stored and complete_at becomes `now` for `"완료"`, null otherwise, whatever the row held before; no other row changes |
| `Properties.StatusUpdateOnMissingRowChangesNothing` | Node/GameServer.js:109-116 | for a pair with no row nothing changes and the answer is still `success: true` |
| `Properties.StatusUpdateKeepsCompletionConsistent` | Node/GameServer.js:109-112 | if every row's complete_at is present exactly when its status is `"완료"`, that stays so |
| `Properties.StatusUpdateLastWins` | Node/GameServer.js:109-112 | two updates of one row leave the same database as the second update alone |
| `Properties.InventoryOfPlayerWithoutEntriesIsEmpty` | Node/GameServer.js:67-74 | a player with no entries gets an empty list, not an error |
| `Properties.QuestsOfPlayerWithoutRowsIsEmpty` | Node/GameServer.js:88-95 | a player with no quest rows gets an empty list, not an error |
| `Properties.InventoryAfterAdd` | Node/GameServer.js:67-70 | after an addition of a catalog item the player's inventory shows it with the accumulated quantity and keeps its other rows; other players' inventories are unchanged |
| `Properties.QuestsAfterStatusUpdate` | Node/GameServer.js:88-91 | after a status update of an existing row of a catalog quest the player's quest list shows the new status and keeps its other rows, in both directions; other players' lists are unchanged |
| `Properties.ReadsUnchangedByLogin` | Node/GameServer.js:44-47 | a login changes neither read route's answer |

## Left out

- Express setup, the request-logging middleware, JSON body parsing and the listener
  (`Node/GameServer.js`, lines 1-6, 16-23 and 161-165). These are transport and logging; the
  HTTP codes appear only as results of `StatusCode()`.
- The MySQL pool and its configuration (`Node/GameServer.js`, lines 9-14). The database is
  an in-memory value. A driver exception is the `failure` parameter.
- The check-then-act race in the item route. The lookup (lines 131-134) and the write are
  separate queries. On a pair that already has an entry the write is one increment statement
  (lines 141-143), which the database applies atomically, so concurrent additions all take
  effect. On a pair with no entry, two concurrent requests can both miss in the lookup and
  both insert (lines 148-151); the second insert hits the (player_id, item_id) key, that
  request answers 500 (lines 155-157) and its quantity is not added. The model takes each
  request as one atomic step taken after another, and `Properties.AddAllAccumulates` is about
  that serial order only.
- The order of the rows the login query returns. The query has no ORDER BY (lines 32-35), so
  SQL does not say which matching row is the first one (line 40). The model takes the sequence
  order of `players` as the query's order; `Properties.LoginReturnsFirstMatch` is "first" in
  that order.
- Statements.AddQuantity: quantities are unbounded integers, while the database stores
  `quantity` (lines 142 and 149) in a column of bounded range. A value out of that range is an
  error in MySQL's strict mode, which the route catches and answers 500 (lines 155-157); that
  case is covered by the `failure` outcome. In non-strict mode the value is clamped instead.
  The model also allows an answer with no failure past the column's bound, and does not model
  the clamping.
- String comparison in the database. The model compares usernames, hashes and the status
  literal exactly. MySQL's collation can make these comparisons case- or trailing-space-
  insensitive; that is not modelled.
- Request fields of the wrong type or missing (`undefined` becoming SQL NULL, a path parameter
  compared as a string with an integer column). The model's parameters are typed.
- The order of the rows in the two read answers. The queries have no ORDER BY, so the answers
  are modelled as sets.
- Real clock values. `now` is an opaque integer parameter.
- `Node/Main.js`, a separate hello-world app with constant routes, is not part of this model.
- `GameDataManager.cs`, the Unity client, is not part of this model beyond the catalog
  columns it reads.
