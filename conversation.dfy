/**
 * The `/messages/:userId` query: the stored messages that belong to the
 * conversation between the requesting user `me` and the user `u`, in
 * ascending creation order (the store's append order).
 */
module Conversation {
  import opened Protocol

  /**
   * The stored messages that `keep` accepts, each paired with its store id,
   * in store order. Every result is really in the store at its id, ids
   * strictly increase, and only accepted messages appear.
   */
  function Select(store: seq<StoredMessage>, keep: StoredMessage -> bool): (r: seq<Stored>)
    ensures forall k :: 0 <= k < |r| ==> r[k].id < |store| && store[r[k].id] == r[k].msg && keep(r[k].msg)
    ensures forall k, l :: 0 <= k < l < |r| ==> r[k].id < r[l].id
    decreases |store|
  {
    if store == [] then []
    else
      var n := |store| - 1;
      var prev := Select(store[..n], keep);
      if keep(store[n]) then prev + [Stored(n, store[n])] else prev
  }

  /** Every accepted message of the store is in the selection. */
  lemma {:induction false} SelectComplete(store: seq<StoredMessage>, keep: StoredMessage -> bool, i: nat)
    requires i < |store| && keep(store[i])
    ensures Stored(i, store[i]) in Select(store, keep)
    decreases |store|
  {
    var n := |store| - 1;
    if i < n {
      SelectComplete(store[..n], keep, i);
    }
  }

  /** Appending to the store appends to the selection when the new message is accepted. */
  lemma SelectAppend(store: seq<StoredMessage>, keep: StoredMessage -> bool, m: StoredMessage)
    ensures Select(store + [m], keep)
      == if keep(m) then Select(store, keep) + [Stored(|store|, m)] else Select(store, keep)
  {
    assert (store + [m])[..|store|] == store;
  }

  /** The query's filter as written: sender in {u, me} and recipient in {u, me}. */
  predicate BetweenAsQueried(m: StoredMessage, me: string, u: string)
  {
    (m.sender == Some(u) || m.sender == Some(me)) && (m.recipient == me || m.recipient == u)
  }

  /**
   * The `/messages/:userId` result as the server computes it: stored
   * messages the filter accepts, at their ids, in ascending id order.
   * `ConversationBetweenExact` adds that none is missing.
   */
  function ConversationBetween(store: seq<StoredMessage>, me: string, u: string): (r: seq<Stored>)
    ensures forall s :: s in r ==> s.id < |store| && store[s.id] == s.msg && BetweenAsQueried(s.msg, me, u)
    ensures forall k, l :: 0 <= k < l < |r| ==> r[k].id < r[l].id
  {
    Select(store, m => BetweenAsQueried(m, me, u))
  }

  /**
   * The query returns exactly the stored messages whose sender and recipient
   * are both in {u, me}, each with its store id, in ascending creation order.
   */
  lemma ConversationBetweenExact(store: seq<StoredMessage>, me: string, u: string)
    ensures var r := ConversationBetween(store, me, u);
      (forall k, l :: 0 <= k < l < |r| ==> r[k].id < r[l].id) &&
      (forall i :: 0 <= i < |store| ==>
        (Stored(i, store[i]) in r <==> BetweenAsQueried(store[i], me, u))) &&
      (forall s :: s in r ==> s.id < |store| && store[s.id] == s.msg)
  {
    var r := ConversationBetween(store, me, u);
    forall i | 0 <= i < |store| && BetweenAsQueried(store[i], me, u)
      ensures Stored(i, store[i]) in r
    {
      SelectComplete(store, m => BetweenAsQueried(m, me, u), i);
    }
  }

  /**
   * A message persisted from `me` to `u` becomes the last entry of their
   * conversation, carrying the id the store gave it.
   */
  lemma PersistedMessageIsListed(store: seq<StoredMessage>, me: string, u: string, text: string)
    ensures var m := StoredMessage(Some(me), u, text);
      ConversationBetween(store + [m], me, u) == ConversationBetween(store, me, u) + [Stored(|store|, m)]
  {
    SelectAppend(store, m => BetweenAsQueried(m, me, u), StoredMessage(Some(me), u, text));
  }

  /**
   * As written, the query also returns the notes `u` sent to itself, although
   * `me` takes no part in them.
   */
  lemma ConversationLeaksOthersNotes()
    ensures var note := StoredMessage(Some("bob"), "bob", "note to self");
      ConversationBetween([note], "alice", "bob") == [Stored(0, note)]
  {
    var note := StoredMessage(Some("bob"), "bob", "note to self");
    SelectAppend([], m => BetweenAsQueried(m, "alice", "bob"), note);
  }

  /** The evidently intended filter: one of the two wrote to the other. */
  predicate BetweenPair(m: StoredMessage, me: string, u: string)
  {
    (m.sender == Some(me) && m.recipient == u) || (m.sender == Some(u) && m.recipient == me)
  }

  /**
   * The conversation between `me` and `u` as the chat intends it: only
   * messages one of them wrote to the other, at their ids, in id order.
   */
  function PairConversation(store: seq<StoredMessage>, me: string, u: string): (r: seq<Stored>)
    ensures forall s :: s in r ==> s.id < |store| && store[s.id] == s.msg && BetweenPair(s.msg, me, u)
    ensures forall k, l :: 0 <= k < l < |r| ==> r[k].id < r[l].id
  {
    Select(store, m => BetweenPair(m, me, u))
  }

  /**
   * The intended conversation holds exactly the messages one of the pair sent
   * to the other, in creation order. It is the written query's result less
   * the self-addressed notes: the two differ only in those.
   */
  lemma PairConversationExact(store: seq<StoredMessage>, me: string, u: string)
    ensures var r := PairConversation(store, me, u);
      (forall k, l :: 0 <= k < l < |r| ==> r[k].id < r[l].id) &&
      (forall i :: 0 <= i < |store| ==>
        (Stored(i, store[i]) in r <==>
          (store[i].sender == Some(me) && store[i].recipient == u) ||
          (store[i].sender == Some(u) && store[i].recipient == me))) &&
      (forall s :: s in r ==> s in ConversationBetween(store, me, u)) &&
      (forall s :: s in ConversationBetween(store, me, u) && s.msg.sender != Some(s.msg.recipient)
        ==> s in r)
  {
    var r := PairConversation(store, me, u);
    var q := ConversationBetween(store, me, u);
    forall i | 0 <= i < |store| && BetweenPair(store[i], me, u)
      ensures Stored(i, store[i]) in r
    {
      SelectComplete(store, m => BetweenPair(m, me, u), i);
    }
    forall s | s in r
      ensures s in q
    {
      SelectComplete(store, m => BetweenAsQueried(m, me, u), s.id);
    }
    forall s | s in q && s.msg.sender != Some(s.msg.recipient)
      ensures s in r
    {
      SelectComplete(store, m => BetweenPair(m, me, u), s.id);
    }
  }

  /** A message persisted from `me` to `u` becomes the last entry of their intended conversation. */
  lemma PersistedMessageInPair(store: seq<StoredMessage>, me: string, u: string, text: string)
    ensures var m := StoredMessage(Some(me), u, text);
      PairConversation(store + [m], me, u) == PairConversation(store, me, u) + [Stored(|store|, m)]
  {
    SelectAppend(store, m => BetweenPair(m, me, u), StoredMessage(Some(me), u, text));
  }
}
