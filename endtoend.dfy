/**
 * Properties that span the server and the browser: what the roster looks
 * like after a presence broadcast, and where a forwarded message can be
 * found again.
 */
module EndToEnd {
  import opened Protocol
  import opened ConnectionHub
  import opened Conversation
  import opened ChatView

  /**
   * A client that receives the presence frame of a registry holds one roster
   * key per distinct user id among the connections, plus the key "undefined"
   * exactly when some connection is anonymous; a user's name is that of its
   * last connection in the registry.
   */
  lemma PresenceRoster(conns: seq<Connection>, i: nat)
    requires i < |conns|
    requires forall j :: i < j < |conns| ==> KeyOf(UserIdOf(conns[j])) != KeyOf(UserIdOf(conns[i]))
    ensures RosterOf(OnlineList(conns)).Keys == set j | 0 <= j < |conns| :: KeyOf(UserIdOf(conns[j]))
    ensures KeyOf(UserIdOf(conns[i])) in RosterOf(OnlineList(conns))
    ensures RosterOf(OnlineList(conns))[KeyOf(UserIdOf(conns[i]))] == EntryOf(conns[i]).username
  {
    var online := OnlineList(conns);
    assert forall j :: 0 <= j < |conns| ==> online[j].userId == UserIdOf(conns[j]);
    RosterKeys(online);
    assert KeysOf(online) == set j | 0 <= j < |conns| :: KeyOf(UserIdOf(conns[j]));
    RosterLastWins(online, i);
  }

  /** An anonymous connection shows up in every roster as the key "undefined" without a name. */
  lemma AnonymousShowsAsUndefined(conns: seq<Connection>, i: nat)
    requires i < |conns| && conns[i].user.None?
    requires forall j :: i < j < |conns| ==> KeyOf(UserIdOf(conns[j])) != "undefined"
    ensures "undefined" in RosterOf(OnlineList(conns))
    ensures RosterOf(OnlineList(conns))["undefined"] == None
  {
    assert KeyOf(UserIdOf(conns[i])) == "undefined";
    PresenceRoster(conns, i);
  }

  /**
   * Every frame the message handler forwards for a message from `me` to `u`
   * names, by its id, the stored record of that very message, and that record
   * is the newest entry of the pair's conversation as queried and as intended.
   */
  lemma ForwardedMessageIsRetrievable(conns: seq<Connection>, store: seq<StoredMessage>,
                                      me: string, u: string, text: string)
    ensures var m := StoredMessage(Some(me), u, text);
      var after := store + [m];
      forall s :: s in Forwards(conns, u, MessageFrame(text, Some(me), u, |store|)) ==>
        s.frame.id < |after| && after[s.frame.id] == m &&
        ConversationBetween(after, me, u)[|ConversationBetween(after, me, u)| - 1] == Stored(s.frame.id, m) &&
        PairConversation(after, me, u)[|PairConversation(after, me, u)| - 1] == Stored(s.frame.id, m)
  {
    var m := StoredMessage(Some(me), u, text);
    PersistedMessageIsListed(store, me, u, text);
    PersistedMessageInPair(store, me, u, text);
    var out := Forwards(conns, u, MessageFrame(text, Some(me), u, |store|));
    forall s | s in out
      ensures s.frame == MessageFrame(text, Some(me), u, |store|)
    {
      var k :| 0 <= k < |out| && out[k] == s;
    }
  }
}
