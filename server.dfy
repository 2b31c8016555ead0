/**
  The game server as an object holding the five tables, with one method per
  route that writes. Each method changes the tables in place, one statement
  at a time, and its postcondition ties the response and the new tables to
  the route's function in Handlers. The two read routes are the functions
  Handlers.GetInventory and Handlers.GetQuests applied to State().
 */
module GameServer {
  import opened Tables
  import opened Statements
  import opened Handlers

  class Server {
    var players: seq<Player>
    var items: map<ItemId, Item>
    var inventories: map<EntryKey, int>
    var quests: map<QuestId, Quest>
    var playerQuests: map<ProgressKey, Progress>

    /** The database as a value. */
    function State(): Tables
      reads this
    {
      Tables(players, items, inventories, quests, playerQuests)
    }

    ghost predicate Valid()
      reads this
    {
      WellFormed(State())
    }

    /** A server over an existing database. */
    constructor (initial: Tables)
      requires WellFormed(initial)
      ensures Valid() && State() == initial
    {
      players := initial.players;
      items := initial.items;
      inventories := initial.inventories;
      quests := initial.quests;
      playerQuests := initial.playerQuests;
    }

    /** POST /login. */
    method Login(username: string, passwordHash: string, now: Timestamp, failure: Option<string>)
      returns (response: LoginResponse)
      requires Valid()
      modifies this
      ensures Valid()
      ensures (State(), response) == Handlers.Login(old(State()), username, passwordHash, now, failure)
      ensures response.LoggedIn? ==>
        exists i :: 0 <= i < |old(players)| && old(players)[i] == response.player &&
          players == old(players)[i := response.player.(lastLogin := Some(now))]
      ensures !response.LoggedIn? ==> players == old(players)
      ensures items == old(items) && inventories == old(inventories)
      ensures quests == old(quests) && playerQuests == old(playerQuests)
    {
      if failure.Some? {
        response := LoginError(failure.value);
        return;
      }
      var found := SelectByCredentials(players, username, passwordHash);
      if |found| > 0 {
        var player := found[0];
        ghost var i :| 0 <= i < |players| && players[i] == player;
        ghost var before := players;
        players := SetLastLogin(players, player.playerId, now);
        assert players == before[i := player.(lastLogin := Some(now))] by {
          forall j | 0 <= j < |players|
            ensures players[j] == before[i := player.(lastLogin := Some(now))][j]
          {
            if j != i {
              assert before[j].playerId != player.playerId;
            }
          }
        }
        response := LoggedIn(player);
      } else {
        response := Rejected;
      }
    }

    /** POST /quests/status. */
    method UpdateQuestStatus(playerId: PlayerId, questId: QuestId, status: string, now: Timestamp,
                             failure: Option<string>)
      returns (response: Ack)
      requires Valid()
      modifies this
      ensures Valid()
      ensures (State(), response) ==
        Handlers.UpdateQuestStatus(old(State()), playerId, questId, status, now, failure)
      ensures players == old(players) && items == old(items) && inventories == old(inventories)
      ensures quests == old(quests)
    {
      if failure.Some? {
        response := Failed(failure.value);
        return;
      }
      playerQuests := SetStatus(playerQuests, (playerId, questId), status, now);
      response := Done;
    }

    /** POST /inventory/add. */
    method AddInventoryItem(playerId: PlayerId, itemId: ItemId, quantity: int, failure: Option<string>)
      returns (response: Ack)
      requires Valid()
      modifies this
      ensures Valid()
      ensures (State(), response) ==
        Handlers.AddInventoryItem(old(State()), playerId, itemId, quantity, failure)
      ensures players == old(players) && items == old(items)
      ensures quests == old(quests) && playerQuests == old(playerQuests)
    {
      if failure.Some? {
        response := Failed(failure.value);
        return;
      }
      var key := (playerId, itemId);
      if key in inventories {
        inventories := inventories[key := inventories[key] + quantity];
      } else {
        inventories := inventories[key := quantity];
      }
      response := Done;
    }
  }
}
