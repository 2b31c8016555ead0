/**
  What each route of the game server does, as a function of the database
  before the request: the response it sends and, for the three routes that
  write, the database after it.

  `failure` stands for the storage engine: None when every query of the
  request returns normally, Some(message) when one of them throws. A thrown
  query is caught by the handler, which answers 500 with the error's message;
  no statement of such a request takes effect.
 */
module Handlers {
  import opened Tables
  import opened Statements

  /** The message of the 401 answer to a failed login ("login failed"). */
  const LOGIN_FAILED: string := "로그인 실패"

  /** The answer of the login route. */
  datatype LoginResponse =
    | LoggedIn(player: Player)      // 200 {success: true, player}
    | Rejected                      // 401 {success: false, message: LOGIN_FAILED}
    | LoginError(message: string)   // 500 {success: false, message}
  {
    function Success(): bool { LoggedIn? }

    function StatusCode(): int
    {
      match this
      case LoggedIn(_) => 200
      case Rejected => 401
      case LoginError(_) => 500
    }

    function Message(): Option<string>
    {
      match this
      case LoggedIn(_) => None
      case Rejected => Some(LOGIN_FAILED)
      case LoginError(m) => Some(m)
    }
  }

  /** The answer of the two routes that write and report only success. */
  datatype Ack =
    | Done                      // 200 {success: true}
    | Failed(message: string)   // 500 {success: false, message}
  {
    function Success(): bool { Done? }
    function StatusCode(): int { if Done? then 200 else 500 }
  }

  /** The answer of the two read routes: the joined rows, or a 500. */
  datatype Fetched<T> = Rows(rows: set<T>) | FetchFailed(message: string)

  /** Every table other than `players` is the same in both states. */
  predicate OnlyPlayersDiffer(t: Tables, u: Tables)
  {
    u.items == t.items && u.inventories == t.inventories &&
    u.quests == t.quests && u.playerQuests == t.playerQuests
  }

  /**
    POST /login. Looks the credentials up; on a hit, writes `now` into the
    last login of the first matching row's player and answers with that row
    as it was read, before the write; on a miss answers 401 and writes
    nothing.
   */
  function Login(t: Tables, username: string, passwordHash: string, now: Timestamp, failure: Option<string>)
    : (r: (Tables, LoginResponse))
    ensures failure.Some? ==> r == (t, LoginError(failure.value))
    ensures r.1.LoggedIn? ==>
      r.1.player in t.players && HasCredentials(r.1.player, username, passwordHash) &&
      r.0 == t.(players := SetLastLogin(t.players, r.1.player.playerId, now))
    ensures !r.1.LoggedIn? ==> r.0 == t
    ensures OnlyPlayersDiffer(t, r.0)
  {
    if failure.Some? then (t, LoginError(failure.value))
    else
      var found := SelectByCredentials(t.players, username, passwordHash);
      if |found| > 0 then
        (t.(players := SetLastLogin(t.players, found[0].playerId, now)), LoggedIn(found[0]))
      else
        (t, Rejected)
  }

  /** GET /inventory/:playerId: the joined rows, which may be none. */
  function GetInventory(t: Tables, playerId: PlayerId, failure: Option<string>): (r: Fetched<InventoryRow>)
    ensures failure.Some? <==> r.FetchFailed?
    ensures r.Rows? ==> forall row :: row in r.rows ==> (playerId, row.itemId) in t.inventories
  {
    if failure.Some? then FetchFailed(failure.value)
    else Rows(InventoryJoin(t.items, t.inventories, playerId))
  }

  /** GET /quests/:playerId: the joined rows, which may be none. */
  function GetQuests(t: Tables, playerId: PlayerId, failure: Option<string>): (r: Fetched<QuestRow>)
    ensures failure.Some? <==> r.FetchFailed?
    ensures r.Rows? ==> forall row :: row in r.rows ==> (playerId, row.questId) in t.playerQuests
  {
    if failure.Some? then FetchFailed(failure.value)
    else Rows(QuestJoin(t.quests, t.playerQuests, playerId))
  }

  /**
    POST /quests/status. Rewrites the status and completion time of the
    (player, quest) row if there is one, and answers success either way.
   */
  function UpdateQuestStatus(t: Tables, playerId: PlayerId, questId: QuestId, status: string,
                             now: Timestamp, failure: Option<string>)
    : (r: (Tables, Ack))
    ensures failure.Some? ==> r == (t, Failed(failure.value))
    ensures failure.None? ==> r.1 == Done
    ensures r.0 == t.(playerQuests := r.0.playerQuests)
    ensures r.0.playerQuests.Keys == t.playerQuests.Keys
  {
    if failure.Some? then (t, Failed(failure.value))
    else (t.(playerQuests := SetStatus(t.playerQuests, (playerId, questId), status, now)), Done)
  }

  /**
    POST /inventory/add. Adds the quantity to the (player, item) entry,
    creating the entry if the pair has none. The quantity is not checked.
   */
  function AddInventoryItem(t: Tables, playerId: PlayerId, itemId: ItemId, quantity: int,
                            failure: Option<string>)
    : (r: (Tables, Ack))
    ensures failure.Some? ==> r == (t, Failed(failure.value))
    ensures failure.None? ==> r.1 == Done && (playerId, itemId) in r.0.inventories
    ensures r.0 == t.(inventories := r.0.inventories)
  {
    if failure.Some? then (t, Failed(failure.value))
    else (t.(inventories := AddQuantity(t.inventories, (playerId, itemId), quantity)), Done)
  }
}
