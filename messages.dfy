/**
 * The values the socket handler produces and the protocol markers it
 * recognises. The marker constants of `ChatRoom` are not part of this
 * model, so they are carried as a value.
 */
module ChatModel {

  /**
   * The three marker tokens: the separator between sender and text of a
   * chat post, and the postfixes the server appends to a name when that
   * user joins or leaves.
   */
  datatype ChatRoom = ChatRoom(messageSeparator: string, joinPostfix: string, leavePostfix: string)
  {
    /** Searching for and splitting at a marker needs it to be non-empty. */
    predicate WellFormed() {
      |messageSeparator| > 0 && |joinPostfix| > 0 && |leavePostfix| > 0
    }
  }

  /**
   * A decoded inbound message: a chat post (`ChatMessage`, whose receive
   * time is not modelled) or a presence notice (`ConnectionMessage`, whose
   * content is the join or leave postfix itself).
   */
  datatype Message =
    | Chat(name: string, content: string)
    | Connection(name: string, content: string)
}
