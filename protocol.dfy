/**
 The values exchanged by the chat server: connection handles, rooms, the
 records of the message store, the events a client sends and the events the
 server fans out to a room.
 */
module Protocol {

  datatype Option<T> = None | Some(value: T)

  /** An opaque, process-unique handle for one live websocket. */
  datatype Conn = Socket(handle: nat)

  /** Room names and usernames are client-supplied, unvalidated strings. */
  type Room = string

  /** The textual form of a fresh `uuid4`. */
  type MessageId = string

  /** An ISO-8601 timestamp produced by the server clock; opaque here. */
  type Timestamp = string

  /** Python truthiness of a room value: the empty string is falsy. */
  predicate Truthy(room: Option<Room>)
  {
    room.Some? && room.value != ""
  }

  /** A record of the message store (`manager.messages[message_id]`). */
  datatype StoredMessage =
    | TextRecord(author: string, room: Room, text: string, timestamp: Timestamp)
    | MediaRecord(author: string, room: Room, caption: Option<string>,
                  media: Option<string>, mediaType: Option<string>, timestamp: Timestamp)

  /** The human-readable system notices, reduced to who joined or left. */
  datatype Notice = Joined(who: string) | Left(who: string)

  /** The JSON objects the server sends, one constructor per `type` tag. */
  datatype Outbound =
    | System(notice: Notice, timestamp: Timestamp)
    | Users(names: seq<string>)
    | ChatPosted(messageId: MessageId, username: string, text: string, timestamp: Timestamp)
    | MediaPosted(messageId: MessageId, username: string, caption: Option<string>,
                  media: Option<string>, mediaType: Option<string>, timestamp: Timestamp)
    | MessageDeleted(messageId: MessageId)
    | Typing(username: string)
    | StopTyping
      /** The `chat` event of the store-less variant: no message id. */
    | PlainChat(username: string, text: string, timestamp: Timestamp)

  /** One `send_json` call: the payload and the connection it goes to. */
  datatype Send = Send(to: Conn, payload: Outbound)

  /**
   The JSON objects a client sends after its `join`, by `type` tag. Fields read
   with `data.get` are optional; any other tag (a second `join` included) is
   `Unrecognized` and matches no branch of the handler.
   */
  datatype Request =
    | ChatRequest(text: string)
    | MediaRequest(caption: Option<string>, media: Option<string>, mediaType: Option<string>)
    | DeleteRequest(messageId: Option<MessageId>)
    | TypingRequest
    | StopTypingRequest
    | SwitchRoomRequest(room: Room)
    | Unrecognized

  /**
   What the handler draws from `uuid.uuid4()` and the clock while it handles
   one request: a message id and the timestamps of up to two notices.
   */
  datatype Stamp = Stamp(id: MessageId, first: Timestamp, second: Timestamp)
}
