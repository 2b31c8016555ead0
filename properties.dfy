/**
  Properties of the routes, stated over the functions in Handlers: what a
  login can and cannot return and write, how item additions accumulate, how a
  status update derives the completion time, and what the two read routes
  see after the writes.
 */
module Properties {
  import opened Tables
  import opened Statements
  import opened Handlers

  // ---------------------------------------------------------------- login

  /** A login with no storage error succeeds exactly when some row has both credentials. */
  lemma LoginSucceedsIffCredentialsMatch(t: Tables, username: string, passwordHash: string, now: Timestamp)
    ensures Login(t, username, passwordHash, now, None).1.LoggedIn? <==>
      exists i :: 0 <= i < |t.players| && HasCredentials(t.players[i], username, passwordHash)
  {
    if i :| 0 <= i < |t.players| && HasCredentials(t.players[i], username, passwordHash) {
      assert t.players[i] in SelectByCredentials(t.players, username, passwordHash);
    }
  }

  /** Without a matching row the answer is the generic 401 failure and nothing is written. */
  lemma LoginRejectionChangesNothing(t: Tables, username: string, passwordHash: string, now: Timestamp)
    requires forall i :: 0 <= i < |t.players| ==> !HasCredentials(t.players[i], username, passwordHash)
    ensures Login(t, username, passwordHash, now, None) == (t, Rejected)
    ensures !Rejected.Success() && Rejected.StatusCode() == 401 && Rejected.Message() == Some(LOGIN_FAILED)
  {
    LoginSucceedsIffCredentialsMatch(t, username, passwordHash, now);
  }

  /** The player a login answers with is the first row of the table that matches. */
  lemma LoginReturnsFirstMatch(t: Tables, username: string, passwordHash: string, now: Timestamp)
    requires Login(t, username, passwordHash, now, None).1.LoggedIn?
    ensures var p := Login(t, username, passwordHash, now, None).1.player;
      exists i :: 0 <= i < |t.players| && t.players[i] == p && HasCredentials(p, username, passwordHash) &&
        forall j :: 0 <= j < i ==> !HasCredentials(t.players[j], username, passwordHash)
  {
  }

  /**
    A successful login writes `now` into the last login of the returned
    player's row and of no other row; the answer carries the row as it was
    before that write; no other table changes.
   */
  lemma LoginWritesOnlyThatPlayer(t: Tables, username: string, passwordHash: string, now: Timestamp)
    requires WellFormed(t)
    requires Login(t, username, passwordHash, now, None).1.LoggedIn?
    ensures var (u, resp) := Login(t, username, passwordHash, now, None);
      exists i :: 0 <= i < |t.players| && t.players[i] == resp.player &&
        u == t.(players := t.players[i := resp.player.(lastLogin := Some(now))])
  {
    var (u, resp) := Login(t, username, passwordHash, now, None);
    var p := resp.player;
    var i :| 0 <= i < |t.players| && t.players[i] == p;
    var expected := t.players[i := p.(lastLogin := Some(now))];
    forall j | 0 <= j < |t.players| ensures u.players[j] == expected[j] {
      if j != i {
        assert t.players[j].playerId != p.playerId;
      }
    }
    assert u.players == expected;
  }

  /** A login keeps player_id a key of `players`. */
  lemma LoginKeepsWellFormed(t: Tables, username: string, passwordHash: string, now: Timestamp,
                             failure: Option<string>)
    requires WellFormed(t)
    ensures WellFormed(Login(t, username, passwordHash, now, failure).0)
  {
  }

  /** A login leaves every username and credential hash as it was, so the same credentials log in again. */
  lemma LoginAgainSucceeds(t: Tables, username: string, passwordHash: string, now: Timestamp, later: Timestamp)
    requires Login(t, username, passwordHash, now, None).1.LoggedIn?
    ensures var u := Login(t, username, passwordHash, now, None).0;
      Login(u, username, passwordHash, later, None).1.LoggedIn?
  {
    var u := Login(t, username, passwordHash, now, None).0;
    LoginSucceedsIffCredentialsMatch(t, username, passwordHash, now);
    var i :| 0 <= i < |t.players| && HasCredentials(t.players[i], username, passwordHash);
    assert HasCredentials(u.players[i], username, passwordHash);
    LoginSucceedsIffCredentialsMatch(u, username, passwordHash, later);
  }

  // ------------------------------------------------------------ inventory

  /** Adding to a pair that has an entry sets its quantity to the old one plus the added one. */
  lemma AddToExistingEntryAccumulates(t: Tables, playerId: PlayerId, itemId: ItemId, quantity: int)
    requires (playerId, itemId) in t.inventories
    ensures var u := AddInventoryItem(t, playerId, itemId, quantity, None).0;
      u.inventories == t.inventories[(playerId, itemId) := t.inventories[(playerId, itemId)] + quantity]
  {
  }

  /** Adding to a pair with no entry creates exactly that one entry, with the added quantity. */
  lemma AddToNewPairInsertsOneEntry(t: Tables, playerId: PlayerId, itemId: ItemId, quantity: int)
    requires (playerId, itemId) !in t.inventories
    ensures var u := AddInventoryItem(t, playerId, itemId, quantity, None).0;
      u.inventories == t.inventories[(playerId, itemId) := quantity] &&
      |u.inventories| == |t.inventories| + 1
  {
  }

  /** Two additions to the same pair add up. */
  lemma AddTwiceSums(t: Tables, playerId: PlayerId, itemId: ItemId, q1: int, q2: int)
    ensures var u := AddInventoryItem(AddInventoryItem(t, playerId, itemId, q1, None).0,
                                     playerId, itemId, q2, None).0;
      u.inventories[(playerId, itemId)] == QuantityOf(t.inventories, (playerId, itemId)) + q1 + q2
  {
  }

  predicate QuantitiesNonNegative(entries: map<EntryKey, int>)
  {
    forall k :: k in entries ==> entries[k] >= 0
  }

  /** With a positive quantity, non-negative quantities stay non-negative (the route does no sign check). */
  lemma AddKeepsQuantitiesNonNegative(t: Tables, playerId: PlayerId, itemId: ItemId, quantity: int,
                                      failure: Option<string>)
    requires quantity > 0
    requires QuantitiesNonNegative(t.inventories)
    ensures QuantitiesNonNegative(AddInventoryItem(t, playerId, itemId, quantity, failure).0.inventories)
  {
  }

  /** A negative quantity is accepted and can make a quantity negative. */
  lemma AddAcceptsNegativeQuantity(t: Tables, playerId: PlayerId, itemId: ItemId)
    requires (playerId, itemId) !in t.inventories
    ensures var (u, resp) := AddInventoryItem(t, playerId, itemId, -1, None);
      resp == Done && !QuantitiesNonNegative(u.inventories)
  {
  }

  function Sum(qs: seq<int>): int
  {
    if qs == [] then 0 else qs[0] + Sum(qs[1..])
  }

  /** A run of additions to one pair, each answered without a storage error. */
  function AddAll(t: Tables, playerId: PlayerId, itemId: ItemId, qs: seq<int>): Tables
    decreases |qs|
  {
    if qs == [] then t
    else AddAll(AddInventoryItem(t, playerId, itemId, qs[0], None).0, playerId, itemId, qs[1..])
  }

  /**
    Requests taken one after another lose no addition: the pair's quantity
    grows by the sum of the added quantities, and nothing else changes.
   */
  lemma {:induction false} AddAllAccumulates(t: Tables, playerId: PlayerId, itemId: ItemId, qs: seq<int>)
    ensures var u := AddAll(t, playerId, itemId, qs);
      QuantityOf(u.inventories, (playerId, itemId)) == QuantityOf(t.inventories, (playerId, itemId)) + Sum(qs) &&
      (qs != [] ==> u.inventories.Keys == t.inventories.Keys + {(playerId, itemId)}) &&
      (forall k :: k in t.inventories && k != (playerId, itemId) ==> u.inventories[k] == t.inventories[k]) &&
      u == t.(inventories := u.inventories)
    decreases |qs|
  {
    if qs != [] {
      var t' := AddInventoryItem(t, playerId, itemId, qs[0], None).0;
      AddAllAccumulates(t', playerId, itemId, qs[1..]);
      if qs[1..] == [] {
        assert AddAll(t', playerId, itemId, qs[1..]) == t';
      }
    }
  }

  function Ones(n: nat): (r: seq<int>)
    ensures |r| == n && forall i :: 0 <= i < n ==> r[i] == 1
  {
    if n == 0 then [] else [1] + Ones(n - 1)
  }

  lemma {:induction false} SumOnes(n: nat)
    ensures Sum(Ones(n)) == n
  {
    if n > 0 {
      assert Ones(n)[1..] == Ones(n - 1);
      SumOnes(n - 1);
    }
  }

  /** N additions of one item to a pair that had no entry leave exactly N. */
  lemma UnitAddsCount(t: Tables, playerId: PlayerId, itemId: ItemId, n: nat)
    requires (playerId, itemId) !in t.inventories
    requires n > 0
    ensures var u := AddAll(t, playerId, itemId, Ones(n));
      (playerId, itemId) in u.inventories && u.inventories[(playerId, itemId)] == n
  {
    AddAllAccumulates(t, playerId, itemId, Ones(n));
    SumOnes(n);
  }

  // --------------------------------------------------------------- quests

  /**
    On an existing row a status update stores the status, and the completion
    time is `now` for the completed status and null otherwise, whatever the
    row held before; no other row changes.
   */
  lemma StatusUpdateDerivesCompletion(t: Tables, playerId: PlayerId, questId: QuestId, status: string,
                                      now: Timestamp)
    requires (playerId, questId) in t.playerQuests
    ensures var u := UpdateQuestStatus(t, playerId, questId, status, now, None).0;
      u.playerQuests == t.playerQuests[(playerId, questId) :=
        Progress(status, if status == COMPLETED then Some(now) else None)]
  {
  }

  /** A pair with no row gets none, nothing changes, and the answer is still success. */
  lemma StatusUpdateOnMissingRowChangesNothing(t: Tables, playerId: PlayerId, questId: QuestId,
                                               status: string, now: Timestamp)
    requires (playerId, questId) !in t.playerQuests
    ensures UpdateQuestStatus(t, playerId, questId, status, now, None) == (t, Done)
    ensures Done.Success()
  {
  }

  /** The completion time is present exactly on completed rows. */
  predicate CompletionConsistent(rows: map<ProgressKey, Progress>)
  {
    forall k :: k in rows ==> (rows[k].completeAt.Some? <==> rows[k].status == COMPLETED)
  }

  /** A status update keeps every row's completion time consistent with its status. */
  lemma StatusUpdateKeepsCompletionConsistent(t: Tables, playerId: PlayerId, questId: QuestId,
                                              status: string, now: Timestamp, failure: Option<string>)
    requires CompletionConsistent(t.playerQuests)
    ensures CompletionConsistent(UpdateQuestStatus(t, playerId, questId, status, now, failure).0.playerQuests)
  {
  }

  /** The update is a set, not a step: of two updates of one row only the second shows. */
  lemma StatusUpdateLastWins(t: Tables, playerId: PlayerId, questId: QuestId,
                             s1: string, n1: Timestamp, s2: string, n2: Timestamp)
    ensures UpdateQuestStatus(UpdateQuestStatus(t, playerId, questId, s1, n1, None).0,
                              playerId, questId, s2, n2, None) ==
            UpdateQuestStatus(t, playerId, questId, s2, n2, None)
  {
    var key := (playerId, questId);
    var once := UpdateQuestStatus(t, playerId, questId, s2, n2, None).0;
    var twice := UpdateQuestStatus(UpdateQuestStatus(t, playerId, questId, s1, n1, None).0,
                                   playerId, questId, s2, n2, None).0;
    assert twice.playerQuests.Keys == once.playerQuests.Keys;
    forall k | k in once.playerQuests ensures twice.playerQuests[k] == once.playerQuests[k] {
      if k == key {
        assert twice.playerQuests[k] == Progress(s2, CompletionTime(s2, n2));
      }
    }
    assert twice.playerQuests == once.playerQuests;
  }

  // ---------------------------------------------------------------- reads

  /** A player with no entries gets an empty list, not an error. */
  lemma InventoryOfPlayerWithoutEntriesIsEmpty(t: Tables, playerId: PlayerId)
    requires forall k :: k in t.inventories ==> k.0 != playerId
    ensures GetInventory(t, playerId, None) == Rows({})
  {
  }

  /** A player with no quest rows gets an empty list, not an error. */
  lemma QuestsOfPlayerWithoutRowsIsEmpty(t: Tables, playerId: PlayerId)
    requires forall k :: k in t.playerQuests ==> k.0 != playerId
    ensures GetQuests(t, playerId, None) == Rows({})
  {
  }

  /**
    After an addition of a catalog item the player's inventory shows it with
    the accumulated quantity, keeps every other row, and no other player's
    inventory changes.
   */
  lemma InventoryAfterAdd(t: Tables, playerId: PlayerId, itemId: ItemId, quantity: int, other: PlayerId)
    requires itemId in t.items
    requires other != playerId
    ensures var u := AddInventoryItem(t, playerId, itemId, quantity, None).0;
      var before := InventoryJoin(t.items, t.inventories, playerId);
      var after := InventoryJoin(u.items, u.inventories, playerId);
      InventoryRow(itemId, t.items[itemId], QuantityOf(t.inventories, (playerId, itemId)) + quantity) in after &&
      (forall row :: row in before && row.itemId != itemId ==> row in after) &&
      (forall row :: row in after && row.itemId != itemId ==> row in before) &&
      GetInventory(u, other, None) == GetInventory(t, other, None)
  {
    var u := AddInventoryItem(t, playerId, itemId, quantity, None).0;
    var a := InventoryJoin(t.items, t.inventories, other);
    var b := InventoryJoin(u.items, u.inventories, other);
    forall row | row in b ensures row in a {
      assert (other, row.itemId) != (playerId, itemId);
    }
    assert a == b;
  }

  /**
    After a status update of an existing row of a catalog quest the player's
    quest list shows the new status, keeps every other row, and no other
    player's list changes.
   */
  lemma QuestsAfterStatusUpdate(t: Tables, playerId: PlayerId, questId: QuestId, status: string,
                                now: Timestamp, other: PlayerId)
    requires questId in t.quests && (playerId, questId) in t.playerQuests
    requires other != playerId
    ensures var u := UpdateQuestStatus(t, playerId, questId, status, now, None).0;
      var before := QuestJoin(t.quests, t.playerQuests, playerId);
      var after := QuestJoin(u.quests, u.playerQuests, playerId);
      QuestRow(questId, t.quests[questId], status) in after &&
      (forall row :: row in before && row.questId != questId ==> row in after) &&
      (forall row :: row in after && row.questId != questId ==> row in before) &&
      GetQuests(u, other, None) == GetQuests(t, other, None)
  {
    var u := UpdateQuestStatus(t, playerId, questId, status, now, None).0;
    var a := QuestJoin(t.quests, t.playerQuests, other);
    var b := QuestJoin(u.quests, u.playerQuests, other);
    forall row | row in b ensures row in a {
      assert (other, row.questId) != (playerId, questId);
    }
    assert a == b;
  }

  /** A login writes only last_login, which neither read route returns, so both reads are unchanged by it. */
  lemma ReadsUnchangedByLogin(t: Tables, username: string, passwordHash: string, now: Timestamp,
                              failure: Option<string>, playerId: PlayerId)
    ensures var u := Login(t, username, passwordHash, now, failure).0;
      GetInventory(u, playerId, None) == GetInventory(t, playerId, None) &&
      GetQuests(u, playerId, None) == GetQuests(t, playerId, None)
  {
  }
}
