/** The values produced by the grammar parser and the event mapper. */
module Events {
  import opened Wire

  /** Origin of a message: a server host, or a user's nick, optional username and host. */
  datatype Prefix =
    | Server(host: seq<byte>)
    | User(nick: seq<byte>, username: Option<seq<byte>>, host: seq<byte>)

  /** One parsed line: optional prefix, command token, middle parameters then the trailing one. */
  datatype RawEvent = RawEvent(prefix: Option<Prefix>, command: seq<byte>, params: seq<seq<byte>>)

  /** The application events this client recognises; anything else is `Unknown`. */
  datatype Event =
    | Ping(server: seq<byte>, server2: Option<seq<byte>>)
    | Unknown

  /** The command name that maps to a `Ping` event. */
  const PingCommand: seq<byte> := "PING"
}
