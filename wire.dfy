/** The WebSocket frames that both ends of the chat exchange. */
module Wire {

  datatype Option<+T> = None | Some(value: T)

  newtype byte = x: int | 0 <= x < 256

  /** A WebSocket message. The server relays every kind verbatim; the client only looks at `Text`. */
  datatype Message =
    | Text(text: string)
    | Binary(data: seq<byte>)
    | Ping(data: seq<byte>)
    | Pong(data: seq<byte>)
    | Close

  /** One item of an inbound WebSocket stream: a message, or a read/protocol error.
      The end of the stream is the end of the sequence of items. */
  datatype Inbound = Received(msg: Message) | Fault
}
