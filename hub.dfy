/**
 * The WebSocket connection hub of the chat server: the registry of open
 * connections (the `ws` server's client set), the identity each connection
 * carries, the append-only message store, and the two handlers that act on
 * them — the connection handler (identify, then broadcast presence) and the
 * message handler (validate, persist, then forward).
 *
 * Each handler invocation is one atomic step; what it sends is returned as an
 * outbox of (target connection, frame) pairs in the order the sends happen.
 */
module ConnectionHub {
  import opened Protocol
  import opened CookieToken

  /**
   * One open WebSocket. `handle` stands for the socket object's own identity;
   * `user` is what the connection handler attached (absent: anonymous);
   * `listening` says whether the handler got as far as registering the
   * message listener.
   */
  datatype Connection = Connection(handle: nat, user: Option<Identity>, listening: bool)

  /** One `send` call: the frame sent to the connection with handle `target`. */
  datatype Send = Send(target: nat, frame: Frame)

  /** `connection.userId`, undefined for an anonymous connection. */
  function UserIdOf(c: Connection): Option<string>
  {
    if c.user.Some? then Some(c.user.value.userId) else None
  }

  /** `{userId: c.userId, username: c.username}`. */
  function EntryOf(c: Connection): OnlineEntry
  {
    if c.user.Some? then OnlineEntry(Some(c.user.value.userId), Some(c.user.value.username))
    else OnlineEntry(None, None)
  }

  /** The presence list `[...wss.clients].map(...)`: one entry per connection, in registry order. */
  function OnlineList(conns: seq<Connection>): (r: seq<OnlineEntry>)
    ensures |r| == |conns|
    ensures forall i :: 0 <= i < |conns| ==> r[i] == EntryOf(conns[i])
    decreases |conns|
  {
    if conns == [] then []
    else OnlineList(conns[..|conns| - 1]) + [EntryOf(conns[|conns| - 1])]
  }

  /** `c.userId === recipient`. */
  predicate Matches(c: Connection, recipient: string)
  {
    UserIdOf(c) == Some(recipient)
  }

  function HandlesOf(conns: seq<Connection>): set<nat>
  {
    set i | 0 <= i < |conns| :: conns[i].handle
  }

  /** The handles of the connections whose user id is `recipient`. */
  function MatchingHandles(conns: seq<Connection>, recipient: string): set<nat>
  {
    set i | 0 <= i < |conns| && Matches(conns[i], recipient) :: conns[i].handle
  }

  /** No two registered connections share a socket. */
  predicate UniqueHandles(conns: seq<Connection>)
  {
    forall i, j :: 0 <= i < j < |conns| ==> conns[i].handle != conns[j].handle
  }

  /** The number of frames the outbox sends to the connection with handle `h`. */
  function SendsTo(out: seq<Send>, h: nat): nat
    decreases |out|
  {
    if out == [] then 0
    else SendsTo(out[..|out| - 1], h) + (if out[|out| - 1].target == h then 1 else 0)
  }

  /** `[...wss.clients].forEach(c => c.send(f))`: the frame sent to each connection in registry order. */
  function Broadcast(conns: seq<Connection>, f: Frame): (r: seq<Send>)
    ensures |r| == |conns|
    ensures forall k :: 0 <= k < |conns| ==> r[k] == Send(conns[k].handle, f)
    decreases |conns|
  {
    if conns == [] then []
    else Broadcast(conns[..|conns| - 1], f) + [Send(conns[|conns| - 1].handle, f)]
  }

  /**
   * `[...wss.clients].filter(c => c.userId === recipient).forEach(c => c.send(f))`:
   * the frame sent to each matching connection in registry order.
   */
  function Forwards(conns: seq<Connection>, recipient: string, f: Frame): (r: seq<Send>)
    ensures |r| <= |conns|
    ensures forall k :: 0 <= k < |r| ==> r[k].frame == f && r[k].target in MatchingHandles(conns, recipient)
    decreases |conns|
  {
    if conns == [] then []
    else
      var n := |conns| - 1;
      var prev := Forwards(conns[..n], recipient, f);
      assert MatchingHandles(conns[..n], recipient) <= MatchingHandles(conns, recipient) by {
        forall i | 0 <= i < n ensures conns[..n][i] == conns[i] { }
      }
      if Matches(conns[n], recipient) then prev + [Send(conns[n].handle, f)] else prev
  }

  /** Every registered connection gets exactly one copy of a broadcast frame, and nobody else gets one. */
  lemma {:induction false} BroadcastReachesEachOnce(conns: seq<Connection>, f: Frame)
    requires UniqueHandles(conns)
    ensures forall h :: SendsTo(Broadcast(conns, f), h) == if h in HandlesOf(conns) then 1 else 0
    decreases |conns|
  {
    if conns != [] {
      var n := |conns| - 1;
      BroadcastReachesEachOnce(conns[..n], f);
      assert HandlesOf(conns) == HandlesOf(conns[..n]) + {conns[n].handle};
      assert conns[n].handle !in HandlesOf(conns[..n]);
      var out := Broadcast(conns, f);
      assert out[..|out| - 1] == Broadcast(conns[..n], f);
    }
  }

  /**
   * The forwarded frame reaches exactly the connections whose user id is the
   * recipient, one copy each; with no such connection nothing is sent.
   */
  lemma {:induction false} ForwardsReachMatchingOnce(conns: seq<Connection>, recipient: string, f: Frame)
    requires UniqueHandles(conns)
    ensures forall h ::
      SendsTo(Forwards(conns, recipient, f), h) == if h in MatchingHandles(conns, recipient) then 1 else 0
    ensures MatchingHandles(conns, recipient) == {} ==> Forwards(conns, recipient, f) == []
    decreases |conns|
  {
    if conns != [] {
      var n := |conns| - 1;
      ForwardsReachMatchingOnce(conns[..n], recipient, f);
      var prev := Forwards(conns[..n], recipient, f);
      var out := Forwards(conns, recipient, f);
      assert conns[n].handle !in MatchingHandles(conns[..n], recipient) by {
        assert conns[n].handle !in HandlesOf(conns[..n]);
      }
      if Matches(conns[n], recipient) {
        assert MatchingHandles(conns, recipient) == MatchingHandles(conns[..n], recipient) + {conns[n].handle};
        assert out[..|out| - 1] == prev;
      } else {
        assert MatchingHandles(conns, recipient) == MatchingHandles(conns[..n], recipient);
      }
      assert Matches(conns[n], recipient) ==> conns[n].handle in MatchingHandles(conns, recipient);
    }
  }

  /**
   * A connection of a user other than the recipient (the sender's own devices
   * included, unless the sender writes to itself) is sent nothing.
   */
  lemma OthersGetNothing(conns: seq<Connection>, recipient: string, f: Frame, i: nat)
    requires UniqueHandles(conns)
    requires i < |conns| && UserIdOf(conns[i]) != Some(recipient)
    ensures SendsTo(Forwards(conns, recipient, f), conns[i].handle) == 0
  {
    ForwardsReachMatchingOnce(conns, recipient, f);
    forall j | 0 <= j < |conns| && Matches(conns[j], recipient)
      ensures conns[j].handle != conns[i].handle
    {
      assert j != i;
    }
  }

  /** What the connection handler makes of the `Cookie` header. */
  datatype Handshake =
    | Anonymous             // no token to verify: the connection stays anonymous
    | Verified(id: Identity) // the token verified: its payload is attached
    | Rejected              // verification failed: the handler throws and stops

  /** The handshake outcome for a cookie header, given the token verifier. */
  function HandshakeOf(verify: string -> Option<Identity>, cookies: Option<string>): Handshake
  {
    match TokenFromCookie(cookies)
    case None => Anonymous
    case Some(token) =>
      match verify(token)
      case Some(id) => Verified(id)
      case None => Rejected
  }

  /**
   * The handshake in terms of the cookie header alone: without a token that
   * `IsTokenOf` describes the connection stays anonymous; with one, that
   * token's verification decides between attaching its payload and stopping.
   */
  lemma HandshakeByToken(verify: string -> Option<Identity>, header: string)
    ensures HandshakeOf(verify, None) == Anonymous
    ensures HandshakeOf(verify, Some(header)).Anonymous? <==> forall t :: !IsTokenOf(header, t)
    ensures forall t :: IsTokenOf(header, t) ==>
      HandshakeOf(verify, Some(header)) == if verify(t).Some? then Verified(verify(t).value) else Rejected
  {
    forall t | IsTokenOf(header, t)
      ensures TokenFromCookie(Some(header)) == Some(t)
    {
      TokenFromCookieComplete(header, t);
    }
    if TokenFromCookie(Some(header)).Some? {
      TokenFromCookieSound(header, TokenFromCookie(Some(header)).value);
    }
  }

  /** The connection record the handler leaves behind for a handshake outcome. */
  function Admitted(h: nat, outcome: Handshake): Connection
  {
    match outcome
    case Anonymous => Connection(h, None, true)
    case Verified(id) => Connection(h, Some(id), true)
    case Rejected => Connection(h, None, false)
  }

  /** The first connection with handle `h`. */
  function Find(conns: seq<Connection>, h: nat): (c: Connection)
    requires h in HandlesOf(conns)
    ensures c in conns && c.handle == h
    decreases |conns|
  {
    if conns[0].handle == h then conns[0]
    else
      assert h in HandlesOf(conns[1..]) by {
        var i :| 0 <= i < |conns| && conns[i].handle == h;
        assert conns[1..][i - 1] == conns[i];
      }
      Find(conns[1..], h)
  }

  /** A connection whose handle is above every registered one keeps the handles unique. */
  lemma FreshHandleKeepsUnique(conns: seq<Connection>, c: Connection, bound: nat)
    requires UniqueHandles(conns) && forall i :: 0 <= i < |conns| ==> conns[i].handle < bound
    requires c.handle == bound
    ensures UniqueHandles(conns + [c]) && c.handle !in HandlesOf(conns)
    ensures forall i :: 0 <= i < |conns + [c]| ==> (conns + [c])[i].handle < bound + 1
  {
  }

  class Hub {
    /** `wss.clients`, in insertion order. */
    var conns: seq<Connection>
    /** The message collection; a message's index is its id and its creation order. */
    var store: seq<StoredMessage>
    /** The handle the next socket gets. */
    var nextHandle: nat
    /** `jwt.verify` with the server's secret: the payload of a valid token, None on error. */
    const verify: string -> Option<Identity>

    ghost predicate Valid()
      reads this
    {
      UniqueHandles(conns) && forall i :: 0 <= i < |conns| ==> conns[i].handle < nextHandle
    }

    /**
     * A server starts with no sockets; the message collection lives in the
     * database and keeps whatever earlier runs stored in it.
     */
    constructor (verify: string -> Option<Identity>, messages: seq<StoredMessage>)
      ensures Valid()
      ensures this.verify == verify && conns == [] && store == messages
    {
      this.verify := verify;
      conns := [];
      store := messages;
      nextHandle := 0;
    }

    /**
     * A new socket opens with the given `Cookie` header. It is already in the
     * registry when the handler runs; the handler attaches the identity of a
     * verified token, registers the message listener and sends every
     * registered connection one presence frame listing every connection. A
     * failed verification throws before the listener and the broadcast.
     */
    method Connect(cookies: Option<string>) returns (h: nat, out: seq<Send>)
      requires Valid()
      modifies this
      ensures Valid()
      ensures h !in HandlesOf(old(conns))
      ensures conns == old(conns) + [Admitted(h, HandshakeOf(verify, cookies))]
      ensures store == old(store)
      ensures out == if HandshakeOf(verify, cookies).Rejected? then []
                     else Broadcast(conns, PresenceFrame(OnlineList(conns)))
    {
      h := nextHandle;
      // The socket is already registered, anonymous, when the handler starts;
      // `Admitted` is its record as the handler leaves it.
      var outcome := Identify(cookies);
      var conn := Admitted(h, outcome);
      FreshHandleKeepsUnique(conns, conn, nextHandle);
      conns := conns + [conn];
      nextHandle := nextHandle + 1;
      out := [];
      if !outcome.Rejected? {
        out := SendToAll(PresenceFrame(OnlineList(conns)));
      }
    }

    /**
     * The cookie part of the connection handler: the token, if there is one,
     * is verified, and a failed verification throws out of the handler
     * (server/index.js:171-199). `HandshakeOf` is its outcome, for contracts.
     */
    method Identify(cookies: Option<string>) returns (outcome: Handshake)
      ensures outcome == HandshakeOf(verify, cookies)
    {
      var token := TokenFromCookie(cookies);
      if token.None? {
        return Anonymous;
      }
      var userData := verify(token.value);
      if userData.None? {
        return Rejected;
      }
      return Verified(userData.value);
    }

    /**
     * The message listener of connection `from` receives `{recipient, text}`.
     * Unless both are present and non-empty nothing happens; otherwise the
     * message is stored with the connection's user id as sender, and then a
     * frame carrying its store id goes to every connection of the recipient.
     */
    method OnMessage(from: nat, recipient: Option<string>, text: Option<string>) returns (out: seq<Send>)
      requires Valid() && from in HandlesOf(conns)
      modifies this
      ensures Valid() && conns == old(conns) && nextHandle == old(nextHandle)
      ensures var c := Find(conns, from);
        if c.listening && Truthy(recipient) && Truthy(text) then
          var m := StoredMessage(UserIdOf(c), recipient.value, text.value);
          store == old(store) + [m] &&
          out == Forwards(conns, recipient.value, MessageFrame(text.value, UserIdOf(c), recipient.value, |old(store)|))
        else
          store == old(store) && out == []
    {
      out := [];
      var c := Find(conns, from);
      if !c.listening || !Truthy(recipient) || !Truthy(text) {
        return;
      }
      var id := |store|;
      store := store + [StoredMessage(UserIdOf(c), recipient.value, text.value)];
      var frame := MessageFrame(text.value, UserIdOf(c), recipient.value, id);
      out := SendToUser(recipient.value, frame);
    }

    /** `[...wss.clients].forEach(client => client.send(f))`. */
    method SendToAll(f: Frame) returns (out: seq<Send>)
      ensures out == Broadcast(conns, f)
    {
      out := [];
      var i := 0;
      while i < |conns|
        invariant 0 <= i <= |conns|
        invariant out == Broadcast(conns[..i], f)
      {
        out := out + [Send(conns[i].handle, f)];
        assert conns[..i + 1][..i] == conns[..i];
        i := i + 1;
      }
      assert conns[..i] == conns;
    }

    /** `[...wss.clients].filter(c => c.userId === recipient).forEach(c => c.send(f))`. */
    method SendToUser(recipient: string, f: Frame) returns (out: seq<Send>)
      ensures out == Forwards(conns, recipient, f)
    {
      out := [];
      var i := 0;
      while i < |conns|
        invariant 0 <= i <= |conns|
        invariant out == Forwards(conns[..i], recipient, f)
      {
        if UserIdOf(conns[i]) == Some(recipient) {
          out := out + [Send(conns[i].handle, f)];
        }
        assert conns[..i + 1][..i] == conns[..i];
        i := i + 1;
      }
      assert conns[..i] == conns;
    }

    /**
     * The `ws` server drops a closed socket from its registry; the handlers
     * have no close listener, so nothing is sent.
     */
    method Drop(h: nat)
      requires Valid()
      modifies this
      ensures Valid() && store == old(store) && nextHandle == old(nextHandle)
      ensures conns == Without(old(conns), h)
    {
      conns := Without(conns, h);
    }
  }

  /** The registry without the connection with handle `h`. */
  function Without(conns: seq<Connection>, h: nat): (r: seq<Connection>)
    ensures forall i :: 0 <= i < |r| ==> r[i] in conns && r[i].handle != h
    ensures forall c :: c in conns && c.handle != h ==> c in r
    ensures UniqueHandles(conns) ==> UniqueHandles(r)
    decreases |conns|
  {
    if conns == [] then []
    else
      var n := |conns| - 1;
      var prev := Without(conns[..n], h);
      if conns[n].handle == h then prev
      else
        assert forall i :: 0 <= i < |prev| ==> prev[i] in conns[..n];
        prev + [conns[n]]
  }
}
