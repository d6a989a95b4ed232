/** Values exchanged between the chat server, its message store and the browser client. */
module Protocol {

  datatype Option<+T> = None | Some(value: T)

  /** The payload of a verified login token: the user's id and display name. */
  datatype Identity = Identity(userId: string, username: string)

  /**
   * One element of a presence frame's `online` list. An anonymous connection
   * has neither field (JavaScript `undefined`), hence the options.
   */
  datatype OnlineEntry = OnlineEntry(userId: Option<string>, username: Option<string>)

  /** A frame the server sends down a WebSocket. */
  datatype Frame =
    | PresenceFrame(online: seq<OnlineEntry>)
    | MessageFrame(text: string, sender: Option<string>, recipient: string, id: nat)

  /** A document of the message collection; `sender` is absent when an anonymous connection sent it. */
  datatype StoredMessage = StoredMessage(sender: Option<string>, recipient: string, text: string)

  /** A stored message together with the id the store gave it; ids grow in creation order. */
  datatype Stored = Stored(id: nat, msg: StoredMessage)

  /** JavaScript truthiness of an optional string: present and not empty. */
  predicate Truthy(s: Option<string>)
  {
    s.Some? && s.value != ""
  }
}
