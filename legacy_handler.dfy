/**
 The websocket handler of the top-level `main.py`, the earlier variant of
 the server. Its registry has no message store: a `chat` is only relayed,
 without an id, and `media` and `delete_message` match no branch, so they
 are ignored like any other unknown request type.
 */
module LegacyHandler {
  import opened Protocol
  import opened Membership
  import opened Registry
  import opened SessionSteps

  /**
   A `chat` request: username, text and timestamp go to every member of the
   session's current room. Nothing is stored.
   */
  method RelayChat(m: ConnectionManager, s: Session, text: string, at: Timestamp)
    returns (out: seq<Send>)
    requires m.Valid()
    ensures Recipients(out) == Members(m.order, m.rooms, s.room)
    ensures forall k :: 0 <= k < |out| ==> out[k].payload == PlainChat(s.username, text, at)
  {
    out := m.Broadcast(s.room, PlainChat(s.username, text, at));
  }

  /**
   The branches of the `while True` loop of `main.py` that keep the session
   in its room; `media` and `delete_message` fall through every branch.
   Neither the registry nor the store changes.
   */
  method Serve(m: ConnectionManager, s: Session, req: Request, at: Timestamp)
    returns (out: seq<Send>)
    requires m.Valid()
    requires !req.SwitchRoomRequest?
    ensures req.ChatRequest? ==>
              && Recipients(out) == Members(m.order, m.rooms, s.room)
              && forall k :: 0 <= k < |out| ==> out[k].payload == PlainChat(s.username, req.text, at)
    ensures req.TypingRequest? ==>
              && Recipients(out) == Members(m.order, m.rooms, s.room)
              && forall k :: 0 <= k < |out| ==> out[k].payload == Typing(s.username)
    ensures req.StopTypingRequest? ==>
              && Recipients(out) == Members(m.order, m.rooms, s.room)
              && forall k :: 0 <= k < |out| ==> out[k].payload == StopTyping
    ensures req.MediaRequest? || req.DeleteRequest? || req.Unrecognized? ==> out == []
  {
    match req
    case ChatRequest(text) =>
      out := RelayChat(m, s, text, at);
    case TypingRequest =>
      out := NotifyTyping(m, s);
    case StopTypingRequest =>
      out := NotifyStopTyping(m, s);
    case MediaRequest(_, _, _) =>
      out := [];
    case DeleteRequest(_) =>
      out := [];
    case Unrecognized =>
      out := [];
  }

  /**
   One pass of the `while True` loop of `main.py`. Only a room switch
   changes anything, and then only the session's own room entry; the
   message store is never touched.
   */
  method Step(m: ConnectionManager, s: Session, req: Request, st: Stamp)
    returns (s': Session, out: seq<Send>)
    requires m.Valid() && Holds(m, s)
    modifies m
    ensures m.Valid() && Holds(m, s')
    ensures s'.conn == s.conn && s'.username == s.username
    ensures m.order == old(m.order) && m.users == old(m.users) && m.messages == old(m.messages)
    ensures m.rooms == old(m.rooms)[s.conn := s'.room]
    ensures s'.room != s.room ==> req.SwitchRoomRequest? && s'.room == req.room
    ensures req.SwitchRoomRequest? ==> s'.room == req.room
    ensures req.SwitchRoomRequest? && req.room != s.room ==>
              out == Announcement(m.order, m.rooms, m.users, s.room, Left(s.username), st.first)
                     + Announcement(m.order, m.rooms, m.users, req.room, Joined(s.username), st.second)
    ensures req.SwitchRoomRequest? && req.room == s.room ==> out == []
    ensures !req.SwitchRoomRequest? ==> s' == s
  {
    if req.SwitchRoomRequest? {
      s', out := SwitchRoom(m, s, req.room, st);
    } else {
      ReassignSame(m.rooms, s.conn);
      out := Serve(m, s, req, st.first);
      s' := s;
    }
  }

  /**
   A whole session of a fresh connection in `main.py`: join, the requests in
   arrival order, disconnect. Afterwards the registry is exactly as before.
   */
  method Run(m: ConnectionManager, ws: Conn, username: string, room: Room, joinedAt: Timestamp,
             requests: seq<Request>, stamps: seq<Stamp>, leftAt: Timestamp)
    returns (out: seq<Send>)
    requires m.Valid() && ws !in m.rooms
    requires |stamps| == |requests|
    modifies m
    ensures m.Valid() && ws !in m.rooms
    ensures m.rooms == old(m.rooms) && m.users == old(m.users) && m.order == old(m.order)
    ensures m.messages == old(m.messages)
  {
    ghost var order0, rooms0, users0 := m.order, m.rooms, m.users;
    var s;
    s, out := Join(m, ws, username, room, joinedAt);
    var i := 0;
    while i < |requests|
      invariant 0 <= i <= |requests|
      invariant m.Valid() && Holds(m, s) && s.conn == ws && s.username == username
      invariant m.order == order0 + [ws] && m.messages == old(m.messages)
      invariant m.rooms == rooms0[ws := s.room] && m.users == users0[ws := username]
    {
      ghost var prev := s;
      var sent;
      s, sent := Step(m, s, requests[i], stamps[i]);
      ReassignTwice(rooms0, ws, prev.room, s.room);
      out := out + sent;
      i := i + 1;
    }
    ghost var rooms1, users1 := m.rooms, m.users;
    var left := Close(m, ws, leftAt);
    out := out + left;
    WithoutSnoc(order0, ws, ws);
    assert ws !in order0;
    AddThenRemove(rooms0, ws, s.room);
    AddThenRemove(users0, ws, username);
    assert m.rooms == rooms1 - {ws} && m.users == users1 - {ws};
  }
}
