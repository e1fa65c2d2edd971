/**
 The steps of the websocket handler that both versions of the server share:
 the join that opens a session, the typing indicators, the room switch and the
 cleanup on disconnect. Each step is one atomic change of the registry plus
 the outbox it produces.
 */
module SessionSteps {
  import opened Protocol
  import opened Membership
  import opened Registry

  /** The handler's locals once its `join` was read: `ws`, `username`, `room`. */
  datatype Session = Session(conn: Conn, username: string, room: Room)

  /** The registry's entries for the session's connection agree with its locals. */
  ghost predicate Holds(m: ConnectionManager, s: Session)
    reads m
  {
    && s.conn in m.rooms && s.conn in m.users
    && m.rooms[s.conn] == s.room && m.users[s.conn] == s.username
  }

  /** Reassigning a key twice keeps only the second value. */
  lemma ReassignTwice(rooms: map<Conn, Room>, c: Conn, first: Room, second: Room)
    ensures rooms[c := first][c := second] == rooms[c := second]
  {
  }

  /** Reassigning a key its own value leaves the map as it was. */
  lemma ReassignSame(rooms: map<Conn, Room>, c: Conn)
    requires c in rooms
    ensures rooms[c := rooms[c]] == rooms
  {
  }

  /** Adding an absent key and removing it again restores the map. */
  lemma AddThenRemove<V>(entries: map<Conn, V>, c: Conn, v: V)
    requires c !in entries
    ensures entries[c := v] - {c} == entries
  {
  }

  /**
   The first message of a fresh connection: `connect(ws, username, room)`.
   The session's locals then agree with the registry, and the joiner is
   last on the presence list of its room.
   */
  method Join(m: ConnectionManager, ws: Conn, username: string, room: Room, at: Timestamp)
    returns (s: Session, out: seq<Send>)
    requires m.Valid() && ws !in m.rooms
    modifies m
    ensures m.Valid() && Holds(m, s) && s == Session(ws, username, room)
    ensures m.rooms == old(m.rooms)[ws := room] && m.users == old(m.users)[ws := username]
    ensures m.order == old(m.order) + [ws] && m.messages == old(m.messages)
    ensures out == Announcement(m.order, m.rooms, m.users, room, Joined(username), at)
    ensures Members(m.order, m.rooms, room) == old(Members(m.order, m.rooms, room)) + [ws]
    ensures Presence(m.order, m.rooms, m.users, room) == old(Presence(m.order, m.rooms, m.users, room)) + [username]
  {
    out := m.Connect(ws, username, room, at);
    s := Session(ws, username, room);
  }

  /** A `typing` request: the session's username goes to its current room. */
  method NotifyTyping(m: ConnectionManager, s: Session) returns (out: seq<Send>)
    requires m.Valid()
    ensures Recipients(out) == Members(m.order, m.rooms, s.room)
    ensures forall k :: 0 <= k < |out| ==> out[k].payload == Typing(s.username)
  {
    out := m.Broadcast(s.room, Typing(s.username));
  }

  /** A `stop_typing` request: an event without a username, to the current room. */
  method NotifyStopTyping(m: ConnectionManager, s: Session) returns (out: seq<Send>)
    requires m.Valid()
    ensures Recipients(out) == Members(m.order, m.rooms, s.room)
    ensures forall k :: 0 <= k < |out| ==> out[k].payload == StopTyping
  {
    out := m.Broadcast(s.room, StopTyping);
  }

  /**
   A `switch_room` request. Switching to the room the connection is in does
   nothing. Otherwise only `rooms[ws]` changes, and it changes before any
   notice is sent: the old room's presence list and "left" notice go to the
   members that remain, and the new room's presence list and "joined" notice
   go to its members including the switcher.
   */
  method SwitchRoom(m: ConnectionManager, s: Session, newRoom: Room, st: Stamp)
    returns (s': Session, out: seq<Send>)
    requires m.Valid() && Holds(m, s)
    modifies m
    ensures m.Valid() && Holds(m, s')
    ensures m.order == old(m.order) && m.users == old(m.users) && m.messages == old(m.messages)
    ensures newRoom == s.room ==> s' == s && m.rooms == old(m.rooms) && out == []
    ensures newRoom != s.room ==>
              && s' == s.(room := newRoom)
              && m.rooms == old(m.rooms)[s.conn := newRoom]
              && out == Announcement(m.order, m.rooms, m.users, s.room, Left(s.username), st.first)
                          + Announcement(m.order, m.rooms, m.users, newRoom, Joined(s.username), st.second)
    ensures newRoom != s.room ==>
              && Members(m.order, m.rooms, s.room) == Without(old(Members(m.order, m.rooms, s.room)), s.conn)
              && s.conn in Members(m.order, m.rooms, newRoom)
              && Without(Members(m.order, m.rooms, newRoom), s.conn) == old(Members(m.order, m.rooms, newRoom))
  {
    var oldRoom := m.rooms[s.conn];
    if newRoom == oldRoom {
      return s, [];
    }
    MembersAfterMove(m.order, m.rooms, s.conn, oldRoom, newRoom);
    m.rooms := m.rooms[s.conn := newRoom];
    var left := m.Announce(oldRoom, Left(s.username), st.first);
    var joined := m.Announce(newRoom, Joined(s.username), st.second);
    out := left + joined;
    s' := s.(room := newRoom);
  }

  /**
   The `WebSocketDisconnect` handler: `disconnect(ws)`, then, when the room
   it held is truthy, the presence list and a "left" notice to that room.
   A connection that never joined leaves the registry as it was and sends
   nothing.
   */
  method Close(m: ConnectionManager, ws: Conn, at: Timestamp) returns (out: seq<Send>)
    requires m.Valid()
    modifies m
    ensures m.Valid() && ws !in m.rooms && ws !in m.users
    ensures m.rooms == old(m.rooms) - {ws} && m.users == old(m.users) - {ws}
    ensures m.order == Without(old(m.order), ws) && m.messages == old(m.messages)
    ensures Truthy(if ws in old(m.rooms) then Some(old(m.rooms)[ws]) else None) ==>
              && out == Announcement(m.order, m.rooms, m.users, old(m.rooms)[ws], Left(old(m.users)[ws]), at)
              && Members(m.order, m.rooms, old(m.rooms)[ws]) == Without(old(Members(m.order, m.rooms, m.rooms[ws])), ws)
    ensures !Truthy(if ws in old(m.rooms) then Some(old(m.rooms)[ws]) else None) ==> out == []
  {
    var username, room := m.Disconnect(ws);
    if Truthy(room) {
      out := m.Announce(room.value, Left(username.value), at);
    } else {
      out := [];
    }
  }
}
