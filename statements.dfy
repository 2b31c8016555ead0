/**
  Each parameterised SQL statement the route handlers issue, as a function on
  the table it reads or writes.
 */
module Statements {
  import opened Tables

  /** The WHERE clause of the login query: both columns equal, exactly. */
  predicate HasCredentials(p: Player, username: string, passwordHash: string)
  {
    p.username == username && p.passwordHash == passwordHash
  }

  /**
    The login query: every column of the `players` rows whose username and
    password_hash equal the given ones, in the sequence order of the rows.
    Exactly the rows that match, and the first of them is the first
    matching row of the sequence.
   */
  function SelectByCredentials(rows: seq<Player>, username: string, passwordHash: string): (r: seq<Player>)
    ensures |r| <= |rows|
    ensures forall p :: p in r ==> p in rows && HasCredentials(p, username, passwordHash)
    ensures forall i :: 0 <= i < |rows| && HasCredentials(rows[i], username, passwordHash) ==> rows[i] in r
    ensures r != [] ==>
      exists i :: 0 <= i < |rows| && rows[i] == r[0] &&
        forall j :: 0 <= j < i ==> !HasCredentials(rows[j], username, passwordHash)
  {
    if rows == [] then []
    else if HasCredentials(rows[0], username, passwordHash) then
      [rows[0]] + SelectByCredentials(rows[1..], username, passwordHash)
    else
      var rest := SelectByCredentials(rows[1..], username, passwordHash);
      assert forall i :: 0 <= i < |rows| - 1 ==> rows[1..][i] == rows[i + 1];
      assert rest != [] ==>
        exists i :: 1 <= i < |rows| && rows[i] == rest[0] &&
          forall j :: 0 <= j < i ==> !HasCredentials(rows[j], username, passwordHash);
      rest
  }

  /**
    The login's write: the current time into last_login of the rows with the
    given player_id. Every row with that id gets `now` as its last login and
    keeps all its other columns; every other row is left as it was.
   */
  function SetLastLogin(rows: seq<Player>, id: PlayerId, now: Timestamp): (r: seq<Player>)
    ensures |r| == |rows|
    ensures forall i :: 0 <= i < |rows| && rows[i].playerId == id ==>
      r[i].lastLogin == Some(now) && r[i] == rows[i].(lastLogin := r[i].lastLogin)
    ensures forall i :: 0 <= i < |rows| && rows[i].playerId != id ==> r[i] == rows[i]
  {
    seq(|rows|, i requires 0 <= i < |rows| =>
      if rows[i].playerId == id then rows[i].(lastLogin := Some(now)) else rows[i])
  }

  /**
    The item handler's lookup of the (player_id, item_id) entry followed by
    either an increment of its quantity (on a hit) or the insertion of a new
    entry with the given quantity (on a miss), taken as one step.

    The pair ends up with exactly one entry holding the old quantity plus the
    added one (the added one alone when it had none); no other entry changes.
   */
  function AddQuantity(entries: map<EntryKey, int>, key: EntryKey, quantity: int): (r: map<EntryKey, int>)
    ensures r.Keys == entries.Keys + {key}
    ensures key in entries ==> r[key] == entries[key] + quantity
    ensures key !in entries ==> r[key] == quantity
    ensures forall k :: k in entries && k != key ==> r[k] == entries[k]
  {
    if key in entries then entries[key := entries[key] + quantity]
    else entries[key := quantity]
  }

  /** The new complete_at of a quest row: the current time for the completed status, null otherwise. */
  function CompletionTime(status: string, now: Timestamp): (r: Option<Timestamp>)
    ensures r.Some? <==> status == COMPLETED
    ensures r.Some? ==> r.value == now
  {
    if status == COMPLETED then Some(now) else None
  }

  /**
    The status handler's single write to the (player_id, quest_id) row of
    `player_quests`: its status and its complete_at. An existing row gets
    the new status and a completion time that depends on the new status
    alone; a missing row is not created; other rows keep theirs.
   */
  function SetStatus(rows: map<ProgressKey, Progress>, key: ProgressKey, status: string, now: Timestamp)
    : (r: map<ProgressKey, Progress>)
    ensures r.Keys == rows.Keys
    ensures key in rows ==> r[key].status == status && r[key].completeAt == CompletionTime(status, now)
    ensures forall k :: k in rows && k != key ==> r[k] == rows[k]
  {
    if key in rows then
      rows[key := rows[key].(status := status, completeAt := CompletionTime(status, now))]
    else
      rows
  }

  /**
    The inventory query: the inner join of the player's `inventories`
    entries with `items` on item_id. One row for each of the player's
    entries whose item is in the catalog, carrying the catalog row and the
    entry's quantity.
   */
  function InventoryJoin(items: map<ItemId, Item>, entries: map<EntryKey, int>, playerId: PlayerId)
    : (r: set<InventoryRow>)
    ensures forall row :: row in r <==>
      row.itemId in items && (playerId, row.itemId) in entries &&
      row.item == items[row.itemId] && row.quantity == entries[(playerId, row.itemId)]
    ensures forall a, b :: a in r && b in r && a.itemId == b.itemId ==> a == b
  {
    set id | id in items.Keys && (playerId, id) in entries ::
      InventoryRow(id, items[id], entries[(playerId, id)])
  }

  /**
    The quest query: the inner join of the player's `player_quests` rows
    with `quests` on quest_id. One row for each of the player's quest rows
    whose quest is in the catalog, carrying the catalog row and the status
    (not the completion time).
   */
  function QuestJoin(quests: map<QuestId, Quest>, progress: map<ProgressKey, Progress>, playerId: PlayerId)
    : (r: set<QuestRow>)
    ensures forall row :: row in r <==>
      row.questId in quests && (playerId, row.questId) in progress &&
      row.quest == quests[row.questId] && row.status == progress[(playerId, row.questId)].status
    ensures forall a, b :: a in r && b in r && a.questId == b.questId ==> a == b
  {
    set id | id in quests.Keys && (playerId, id) in progress ::
      QuestRow(id, quests[id], progress[(playerId, id)].status)
  }
}
