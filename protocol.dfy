/** What a game asks the server to send: the two calls of the GameServer
    interface, `sendTo(id, message)` and `broadcast(message)`. A game records
    them, in the order it makes them, in its outbox. */
module Protocol {
  datatype Message =
    | SendTo(id: string, text: string)
    | Broadcast(text: string)
}
