/**
 * The chat page's handling of server frames: presence frames rebuild the
 * online roster (user id -> username), every other frame is ignored, and the
 * roster shown to the user leaves out the user's own id.
 */
module ChatView {
  import opened Protocol

  /** A JavaScript object key made from a user id: `undefined` becomes the key "undefined". */
  function KeyOf(userId: Option<string>): string
  {
    if userId.Some? then userId.value else "undefined"
  }

  /** The roster: the username stored under each key (`undefined` when the entry had none). */
  type Roster = map<string, Option<string>>

  /**
   * The roster built from a presence list by assigning the entries' keys in
   * list order. Every value it holds is the username of an entry with that key.
   */
  function RosterOf(online: seq<OnlineEntry>): (r: Roster)
    ensures forall k :: k in r ==>
      exists i :: 0 <= i < |online| && KeyOf(online[i].userId) == k && r[k] == online[i].username
    decreases |online|
  {
    if online == [] then map[]
    else
      var n := |online| - 1;
      assert forall i :: 0 <= i < n ==> online[..n][i] == online[i];
      RosterOf(online[..n])[KeyOf(online[n].userId) := online[n].username]
  }

  /** The keys of the presence entries. */
  function KeysOf(online: seq<OnlineEntry>): set<string>
  {
    set i | 0 <= i < |online| :: KeyOf(online[i].userId)
  }

  /** The keys of the roster are exactly the keys of the presence entries; so each appears once. */
  lemma {:induction false} RosterKeys(online: seq<OnlineEntry>)
    ensures RosterOf(online).Keys == KeysOf(online)
    decreases |online|
  {
    if online != [] {
      var n := |online| - 1;
      RosterKeys(online[..n]);
      forall k | k in KeysOf(online)
        ensures k in KeysOf(online[..n]) + {KeyOf(online[n].userId)}
      {
        var i :| 0 <= i < |online| && KeyOf(online[i].userId) == k;
        if i < n {
          assert online[..n][i] == online[i];
        }
      }
      forall k | k in KeysOf(online[..n])
        ensures k in KeysOf(online)
      {
        var i :| 0 <= i < n && KeyOf(online[..n][i].userId) == k;
        assert online[..n][i] == online[i];
      }
    }
  }

  /** The roster has at most one key per presence entry. */
  lemma {:induction false} RosterSize(online: seq<OnlineEntry>)
    ensures |RosterOf(online)| <= |online|
    decreases |online|
  {
    if online != [] {
      RosterSize(online[..|online| - 1]);
    }
  }

  /** Under every key, the roster holds the username of the last entry with that key. */
  lemma {:induction false} RosterLastWins(online: seq<OnlineEntry>, i: nat)
    requires i < |online|
    requires forall j :: i < j < |online| ==> KeyOf(online[j].userId) != KeyOf(online[i].userId)
    ensures KeyOf(online[i].userId) in RosterOf(online)
    ensures RosterOf(online)[KeyOf(online[i].userId)] == online[i].username
    decreases |online|
  {
    var n := |online| - 1;
    var key := KeyOf(online[i].userId);
    assert RosterOf(online) == RosterOf(online[..n])[KeyOf(online[n].userId) := online[n].username];
    if i < n {
      assert online[..n][i] == online[i];
      RosterLastWins(online[..n], i);
      assert KeyOf(online[n].userId) != key;
    }
  }

  /** Several devices of one user collapse into one roster entry, carrying the last device's name. */
  lemma MultiDeviceCollapses(online: seq<OnlineEntry>, userId: string)
    requires |online| > 0
    requires forall i :: 0 <= i < |online| ==> online[i].userId == Some(userId)
    ensures RosterOf(online).Keys == {userId}
    ensures RosterOf(online)[userId] == online[|online| - 1].username
  {
    RosterKeys(online);
    assert forall k :: k in KeysOf(online) ==> k == userId;
    RosterLastWins(online, |online| - 1);
  }

  /** The roster less the user's own id; every other key keeps its username. */
  function ExcludeSelf(roster: Roster, id: string): (shown: Roster)
    ensures shown.Keys == roster.Keys - {id}
    ensures forall k :: k in shown ==> shown[k] == roster[k]
  {
    roster - {id}
  }

  class Chat {
    /** The logged-in user's id, from the user context. */
    const id: string
    /** The `onlinePeople` state. */
    var onlinePeople: Roster

    constructor (id: string)
      ensures this.id == id && onlinePeople == map[]
    {
      this.id := id;
      onlinePeople := map[];
    }

    /**
     * `showOnlinePeople`: a fresh object filled by assigning each entry's
     * username under its user id, in list order, then made the new state.
     * Nothing of the previous roster survives.
     */
    method ShowOnlinePeople(peopleArray: seq<OnlineEntry>)
      modifies this
      ensures onlinePeople == RosterOf(peopleArray)
    {
      var people: Roster := map[];
      var i := 0;
      while i < |peopleArray|
        invariant 0 <= i <= |peopleArray|
        invariant people == RosterOf(peopleArray[..i])
      {
        assert peopleArray[..i + 1][..i] == peopleArray[..i];
        people := people[KeyOf(peopleArray[i].userId) := peopleArray[i].username];
        i := i + 1;
      }
      assert peopleArray[..i] == peopleArray;
      onlinePeople := people;
    }

    /** `handleMessage`: only a frame carrying `online` changes the roster. */
    method HandleMessage(frame: Frame)
      modifies this
      ensures frame.PresenceFrame? ==> onlinePeople == RosterOf(frame.online)
      ensures !frame.PresenceFrame? ==> onlinePeople == old(onlinePeople)
    {
      if frame.PresenceFrame? {
        ShowOnlinePeople(frame.online);
      }
    }

    /** `onlinePeopleExclOurUser`: a copy of the roster with the own id deleted. */
    method OnlinePeopleExclOurUser() returns (shown: Roster)
      ensures shown == ExcludeSelf(onlinePeople, id)
      ensures id !in shown
    {
      shown := onlinePeople;
      shown := shown - {id};
    }
  }
}
