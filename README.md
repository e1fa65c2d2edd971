# Chatterbox room registry, modelled in Dafny

Chatterbox is a small multi-room chat server. Every browser keeps one
websocket open. The server tracks this in an in-memory `ConnectionManager`:
- `rooms` maps a connection to its room;
- `users` maps a connection to its username;
- `messages` maps a message id to a stored record. Only `backend/main.py`
  has this store.

A connection's handler does three things in turn:
1. It reads a `join`.
2. It loops over client events: `chat`, `media`, `delete_message`,
   `typing`, `stop_typing` and `switch_room`.
3. On disconnect, it removes the connection and tells the room it left.

Every delivery is a broadcast: one payload sent to every connection whose
`rooms` entry equals a given room.

This project models the registry and that handler as imperative Dafny.

- **`Protocol`** (`protocol.dfy`) holds the values:
  - connection handles;
  - stored records;
  - the client requests, one constructor per `type` tag;
  - the server events, also one constructor per `type` tag;
  - `Send`, a single `send_json(to, payload)`.
- **`Membership`** (`membership.dfy`) holds the pure definitions behind a
  broadcast:
  - `Members` lists the connections of a room, in registration order.
  - `Presence` is the presence list of a room.
  - `Fanout` is the outbox of one broadcast.
  - `Without` models `dict.pop` on the order.

  The module also holds the lemmas about how these change when a
  connection registers, moves or leaves.

  Python dicts iterate in insertion order, and reassigning an existing key
  keeps its place. `rooms` and `users` are always filled and emptied
  together, so a single sequence `order` gives the iteration order of both.
  That order fixes the order of the sends and of the presence list.
- **`Registry`** (`registry.dfy`) holds the class `ConnectionManager`:
  - its fields are `order`, `rooms`, `users` and `messages`;
  - its methods are `connect`, `disconnect`, `broadcast` and
    `broadcast_users`. The `broadcast` loop walks `order`.
  - Instead of sending, each method returns its outbox.
  - `Valid()` states the registry invariant: `rooms` and `users` have the
    same keys, and `order` lists each key once.
  - `main.py:7-45` has the same class without the store. This one model
    serves both files.
- **`SessionSteps`** (`session_steps.dfy`) holds the handler steps both
  files share: the join, `typing`, `stop_typing`, `switch_room` and the
  disconnect handler. A `Session` holds the handler's locals `ws`,
  `username` and `room`. `Holds` says that those locals agree with the
  registry.
- **`BackendHandler`** (`backend_handler.dfy`) models the loop of
  `backend/main.py`:
  - `chat` and `media` are stored under a fresh id;
  - `delete_message` is gated on the owner;
  - `Run` is a whole session: join, any sequence of requests, disconnect.
- **`LegacyHandler`** (`legacy_handler.dfy`) models the loop of `main.py`:
  - `chat` has no id and is not stored;
  - `media` and `delete_message` match no branch of the loop, so they are
    ignored.

Some values come from the clock or from `uuid4`: the message id of a post,
and the timestamps of notices and posts. The model takes them as
parameters. A `Stamp` carries what one request draws. The id must not
already be in the store, and the ids of one session must be distinct.

`delete_message` broadcasts the deleted id to the deleter's current room.
That room need not be the one where the message was posted, and the model
keeps that behaviour.

Three helpers are the vocabulary of the rows below:
- `ConnectionManager.Lookup` is `messages.get` (backend/main.py:118).
- `Owns` is the ownership guard of `delete_message` (backend/main.py:121).
- `Truthy` is the `if room:` test of the disconnect handler (backend/main.py:166).

## Model

| member | source | states |
|---|---|---|
| `Membership.Without` | backend/main.py:38-39 | popping `c` keeps exactly the other connections, keeps them distinct, and changes nothing when `c` is absent |
| `Membership.Members` | backend/main.py:43-44 | a connection is listed iff it is registered and its recorded room equals the target; the list has no repeats |
| `Membership.Presence` | backend/main.py:48-51 | the presence list has one name per member, and its k-th name is the username of the k-th member |
| `Membership.Fanout` | backend/main.py:43-45 | one broadcast sends the payload once to each listed connection, in list order |
| `Membership.SilentRoom` | backend/main.py:42-45 | a room that no registered connection is in (unknown or empty) gets no sends |
| `Membership.WithoutKeepsOrder` | backend/main.py:38-39 | after a pop, two remaining connections precede each other exactly when they did before |
| `Membership.MembersKeepOrder` | backend/main.py:43-45 | two members of a room are listed in the order in which they registered |
| `Membership.MembersAgree` | backend/main.py:43-44 | membership depends only on the room entries of the registered connections |
| `Membership.PresenceAgree` | backend/main.py:48-51 | the presence list depends only on the entries of the registered connections |
| `Membership.MembersWithout` | backend/main.py:38-39 | removing a connection from the order removes it, and nothing else, from every room's member list |
| `Membership.MembersExcept` | backend/main.py:146 | changing one connection's room entry changes no room's member list except at that connection |
| `Membership.MembersAfterMove` | backend/main.py:146-160 | after `rooms[ws] = new_room` the old room has lost exactly `ws`, and the new room has gained exactly `ws` |
| `Membership.PresenceAfterRegister` | backend/main.py:26-28 | registering a new connection appends it to its room's members and its username to that room's presence list; other rooms are unchanged |
| `Registry.ConnectionManager.constructor` | backend/main.py:17-20 | a new manager has no rooms, users or messages, and satisfies the registry invariant |
| `Registry.ConnectionManager.Broadcast` | backend/main.py:42-45 | each connection whose recorded room is `room` gets the payload exactly once, in registration order; no other connection gets it |
| `Registry.ConnectionManager.BroadcastUsers` | backend/main.py:47-55 | the presence list goes to exactly the room's members; the k-th recipient's username is the list's k-th name |
| `Registry.ConnectionManager.Announce` | backend/main.py:28-33 | each member gets the presence list, then the system notice |
| `Registry.ConnectionManager.Connect` | backend/main.py:25-33 | `rooms[ws]` and `users[ws]` become the given room and name, all other entries and the store are unchanged, and the invariant holds; a new connection is appended to its room's members and presence list; the new state is announced to the room |
| `Registry.ConnectionManager.Disconnect` | backend/main.py:35-40 | returns the username and room held before, or `(None, None)` for an unknown connection; afterwards `ws` is in neither map, other entries are untouched, and every room has lost exactly `ws` |
| `SessionSteps.Join` | backend/main.py:63-67 | the first message registers a fresh connection; its locals agree with the registry, and it is last in its room's members and presence list |
| `SessionSteps.NotifyTyping` | backend/main.py:128-132 | the session's username goes to exactly the members of its current room |
| `SessionSteps.NotifyStopTyping` | backend/main.py:134-137 | an event without a username goes to exactly the members of the current room |
| `SessionSteps.SwitchRoom` | backend/main.py:139-162 | switching to the current room changes nothing and sends nothing. Otherwise only `rooms[ws]` changes, then the old room and then the new room are announced. The old room's members no longer include the switcher, and the new room's members do; the session's room becomes the new room |
| `SessionSteps.Close` | backend/main.py:164-172 | the connection is removed from both maps. A truthy held room loses exactly that connection and gets its presence list and a "left" notice; otherwise nothing is sent |
| `BackendHandler.PostChat` | backend/main.py:72-90 | the text is stored under the fresh id with the session's username and current room; looking up the id returns that record; the same id and fields go to the room; the registry is unchanged |
| `BackendHandler.PostMedia` | backend/main.py:92-114 | the optional caption, media and media type are stored and sent as they came, under the fresh id, to the current room; the registry is unchanged |
| `BackendHandler.DeleteMessage` | backend/main.py:116-126 | the record is removed and the id sent to the room iff it exists and the session's user wrote it. Otherwise the store is unchanged and nothing is sent; afterwards the session owns no record under that id, so a repeated delete is a no-op |
| `BackendHandler.Serve` | backend/main.py:69-137 | every request except `switch_room` leaves the registry as it was. A `chat` or `media` is stored under the fresh id and its `ChatPosted`/`MediaPosted` goes to the current room. A `delete_message` removes the record and sends the id exactly when the session owns it, and otherwise changes and sends nothing. `typing` and `stop_typing` go to the current room and leave the store alone. An unknown type changes nothing and sends nothing |
| `BackendHandler.Step` | backend/main.py:69-162 | one request keeps the invariant and the session's agreement with the registry. A `switch_room` moves the session to the requested room and leaves the store as it was: when the room differs, the old room's and then the new room's announcements are sent; when it is the same, nothing is sent. No other request moves the session, and the registry changes only at the session's own connection. Every stored record of another author is kept unchanged |
| `BackendHandler.Run` | backend/main.py:59-172 | after a whole session of a fresh connection, the rooms, usernames and registration order are exactly as before it, and every record another author had stored is still there, unchanged |
| `LegacyHandler.RelayChat` | main.py:63-69 | username, text and timestamp go to exactly the members of the current room; nothing is stored |
| `LegacyHandler.Serve` | main.py:60-80 | `chat`, `typing` and `stop_typing` go to the current room's members with their payloads; `media`, `delete_message` and unknown types send nothing |
| `LegacyHandler.Step` | main.py:60-105 | a `switch_room` moves the session to the requested room, announcing the old room and then the new one when the room differs and sending nothing when it is the same. No other request moves the session; the registry changes only at its own connection, and the store is never touched |
| `LegacyHandler.Run` | main.py:49-115 | after a whole session of a fresh connection, the registry and the store are exactly as before it |

## Left out

- The FastAPI app, the health endpoint and `uvicorn.run` are left out. They are framework bootstrap.
- `accept`, `receive_json` and `send_json` are not modelled. Sends become an outbox sequence, in order. Each request is one atomic step.
- The `async`/`await` scheduling is not modelled. The model has no interleaving of several handlers, and no dict resized while a broadcast iterates over it. `Run` drives one session against an otherwise idle registry.
- `datetime.now()` and `uuid.uuid4()` become parameters. The freshness of `uuid4` ids becomes a precondition.
- The emoji notice text is reduced to `Joined(name)` / `Left(name)`.
- Malformed events are not modelled. A missing `message`, `type` or `room` key raises `KeyError`, and the handler does not catch it. The session then ends without disconnect cleanup.
- JSON values that are not strings are not modelled. Rooms, usernames and texts are strings, and optional `media` fields are `Option<string>`.
- A `join` sent after the first message matches no branch. The model treats it as an unknown type (`Unrecognized`).
- A failed send is not modelled, because the source does not isolate failures per member.
- A second registration of the same socket is not modelled, because the source does not check for one. `Connect` allows it and keeps the socket's place in the order, but `Join` asks for a fresh connection.
- `BackendHandler.Step`: states the outbox of a `switch_room` only, and for the store only that other authors' records are kept. The exact outbox and store change of every other request type are stated by `Serve`, which `Step` calls for them.
- `BackendHandler.Run`: states what a whole session leaves behind in the rooms, usernames and order, and that other authors' records survive. It does not state the concatenated outbox, or which of the session's own records remain.
- `LegacyHandler.Step`: states the outbox of a `switch_room` only. The outbox of every other request type is stated by `Serve`, which `Step` calls for them.
- `LegacyHandler.Run`: states what a whole session leaves behind, not the concatenated outbox.
