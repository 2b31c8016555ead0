/**
  The relational state of the game server: the five tables the route handlers
  read and write, as in-memory values.
 */
module Tables {

  datatype Option<T> = None | Some(value: T)

  type PlayerId = int
  type ItemId = int
  type QuestId = int

  /** A value of the database's CURRENT_TIMESTAMP; the core only stores it. */
  type Timestamp = int

  /** A row of `players`. */
  datatype Player = Player(
    playerId: PlayerId,
    username: string,
    passwordHash: string,
    level: int,
    lastLogin: Option<Timestamp>)

  /** The non-key columns of an `items` row (the key is item_id). */
  datatype Item = Item(name: string, description: string, value: int)

  /** The non-key columns of a `quests` row (the key is quest_id). */
  datatype Quest = Quest(title: string, description: string, rewardExp: int, rewardItemId: ItemId)

  /** The non-key columns of a `player_quests` row. */
  datatype Progress = Progress(status: string, completeAt: Option<Timestamp>)

  /** The composite key (player_id, item_id) of `inventories`. */
  type EntryKey = (PlayerId, ItemId)

  /** The composite key (player_id, quest_id) of `player_quests`. */
  type ProgressKey = (PlayerId, QuestId)

  /** One row of the inventory join: `i.*` together with `inv.quantity`. */
  datatype InventoryRow = InventoryRow(itemId: ItemId, item: Item, quantity: int)

  /** One row of the quest join: `q.*` together with `pq.status`. */
  datatype QuestRow = QuestRow(questId: QuestId, quest: Quest, status: string)

  /**
    The whole database. `players` is a sequence because the login handler
    takes the first row its query returns; SQL leaves that order open, and
    the model takes the sequence order as the query's order. The other
    tables are keyed by their primary key.
   */
  datatype Tables = Tables(
    players: seq<Player>,
    items: map<ItemId, Item>,
    inventories: map<EntryKey, int>,
    quests: map<QuestId, Quest>,
    playerQuests: map<ProgressKey, Progress>)

  /** The one status literal the server treats specially ("completed"). */
  const COMPLETED: string := "완료"

  /** player_id is the primary key of `players`. */
  predicate PlayerIdsUnique(rows: seq<Player>)
  {
    forall i, j :: 0 <= i < j < |rows| ==> rows[i].playerId != rows[j].playerId
  }

  predicate WellFormed(t: Tables)
  {
    PlayerIdsUnique(t.players)
  }

  /** The quantity of an inventory entry, 0 when the pair has no entry. */
  function QuantityOf(entries: map<EntryKey, int>, key: EntryKey): int
  {
    if key in entries then entries[key] else 0
  }
}
