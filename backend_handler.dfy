/**
 The websocket handler of `backend/main.py`: after the join it loops over
 client requests, storing `chat` and `media` messages under fresh ids and
 letting their authors delete them, until the client disconnects.
 */
module BackendHandler {
  import opened Protocol
  import opened Membership
  import opened Registry
  import opened SessionSteps

  /** The guard of `delete_message`: the id names a stored message of `username`. */
  predicate Owns(store: map<MessageId, StoredMessage>, id: Option<MessageId>, username: string)
  {
    id.Some? && id.value in store && store[id.value].author == username
  }

  /** An id that was neither stored nor just drawn is still not stored. */
  lemma StaysFresh(store: map<MessageId, StoredMessage>, before: set<MessageId>,
                   drawn: MessageId, id: MessageId)
    requires store.Keys <= before + {drawn} && id !in before && id != drawn
    ensures id !in store
  {
  }

  /**
   A `chat` request: the text is stored under the fresh id, with the
   session's username as author and its current room, and the same id and
   fields go to every member of that room.
   */
  method PostChat(m: ConnectionManager, s: Session, text: string, st: Stamp)
    returns (out: seq<Send>)
    requires m.Valid() && Holds(m, s) && st.id !in m.messages
    modifies m
    ensures m.Valid() && Holds(m, s)
    ensures m.order == old(m.order) && m.rooms == old(m.rooms) && m.users == old(m.users)
    ensures m.messages == old(m.messages)[st.id := TextRecord(s.username, s.room, text, st.first)]
    ensures m.Lookup(st.id) == Some(TextRecord(s.username, s.room, text, st.first))
    ensures out == Fanout(Members(m.order, m.rooms, s.room), ChatPosted(st.id, s.username, text, st.first))
  {
    m.messages := m.messages[st.id := TextRecord(s.username, s.room, text, st.first)];
    out := m.Broadcast(s.room, ChatPosted(st.id, s.username, text, st.first));
  }

  /**
   A `media` request: like `chat`, but the optional caption, media and media
   type are stored and sent as they came (absent fields stay absent).
   */
  method PostMedia(m: ConnectionManager, s: Session, caption: Option<string>,
                   media: Option<string>, mediaType: Option<string>, st: Stamp)
    returns (out: seq<Send>)
    requires m.Valid() && Holds(m, s) && st.id !in m.messages
    modifies m
    ensures m.Valid() && Holds(m, s)
    ensures m.order == old(m.order) && m.rooms == old(m.rooms) && m.users == old(m.users)
    ensures m.messages == old(m.messages)[st.id :=
              MediaRecord(s.username, s.room, caption, media, mediaType, st.first)]
    ensures m.Lookup(st.id) == Some(MediaRecord(s.username, s.room, caption, media, mediaType, st.first))
    ensures out == Fanout(Members(m.order, m.rooms, s.room),
                          MediaPosted(st.id, s.username, caption, media, mediaType, st.first))
  {
    m.messages := m.messages[st.id := MediaRecord(s.username, s.room, caption, media, mediaType, st.first)];
    out := m.Broadcast(s.room, MediaPosted(st.id, s.username, caption, media, mediaType, st.first));
  }

  /**
   A `delete_message` request. Only when the id names a stored message whose
   author is the session's username is the record removed and the id sent
   to the session's current room; otherwise nothing changes and nothing is
   sent. Afterwards the session no longer owns that id, so repeating the
   request is a no-op.
   */
  method DeleteMessage(m: ConnectionManager, s: Session, id: Option<MessageId>)
    returns (out: seq<Send>)
    requires m.Valid() && Holds(m, s)
    modifies m
    ensures m.Valid() && Holds(m, s)
    ensures m.order == old(m.order) && m.rooms == old(m.rooms) && m.users == old(m.users)
    ensures Owns(old(m.messages), id, s.username) ==>
              && m.messages == old(m.messages) - {id.value}
              && out == Fanout(Members(m.order, m.rooms, s.room), MessageDeleted(id.value))
    ensures !Owns(old(m.messages), id, s.username) ==> m.messages == old(m.messages) && out == []
    ensures !Owns(m.messages, id, s.username)
  {
    var stored := if id.Some? then m.Lookup(id.value) else None;
    if stored.Some? && stored.value.author == s.username {
      m.messages := m.messages - {id.value};
      out := m.Broadcast(s.room, MessageDeleted(id.value));
    } else {
      out := [];
    }
  }

  /**
   The branches of the `while True` loop that keep the session in its room:
   the registry is left as it was, and the store gains at most the fresh id.
   */
  method Serve(m: ConnectionManager, s: Session, req: Request, st: Stamp)
    returns (out: seq<Send>)
    requires m.Valid() && Holds(m, s) && st.id !in m.messages
    requires !req.SwitchRoomRequest?
    modifies m
    ensures m.Valid() && Holds(m, s)
    ensures m.order == old(m.order) && m.rooms == old(m.rooms) && m.users == old(m.users)
    ensures m.messages.Keys <= old(m.messages).Keys + {st.id}
    ensures req.ChatRequest? ==>
              && m.messages == old(m.messages)[st.id := TextRecord(s.username, s.room, req.text, st.first)]
              && out == Fanout(Members(m.order, m.rooms, s.room), ChatPosted(st.id, s.username, req.text, st.first))
    ensures req.MediaRequest? ==>
              && m.messages == old(m.messages)[st.id := MediaRecord(s.username, s.room, req.caption,
                                                                    req.media, req.mediaType, st.first)]
              && out == Fanout(Members(m.order, m.rooms, s.room),
                               MediaPosted(st.id, s.username, req.caption, req.media, req.mediaType, st.first))
    ensures req.DeleteRequest? && Owns(old(m.messages), req.messageId, s.username) ==>
              && m.messages == old(m.messages) - {req.messageId.value}
              && out == Fanout(Members(m.order, m.rooms, s.room), MessageDeleted(req.messageId.value))
    ensures req.DeleteRequest? && !Owns(old(m.messages), req.messageId, s.username) ==>
              m.messages == old(m.messages) && out == []
    ensures req.TypingRequest? ==>
              && m.messages == old(m.messages)
              && Recipients(out) == Members(m.order, m.rooms, s.room)
              && forall k :: 0 <= k < |out| ==> out[k].payload == Typing(s.username)
    ensures req.StopTypingRequest? ==>
              && m.messages == old(m.messages)
              && Recipients(out) == Members(m.order, m.rooms, s.room)
              && forall k :: 0 <= k < |out| ==> out[k].payload == StopTyping
    ensures req.Unrecognized? ==> out == [] && m.messages == old(m.messages)
  {
    match req
    case ChatRequest(text) =>
      out := PostChat(m, s, text, st);
    case MediaRequest(caption, media, mediaType) =>
      out := PostMedia(m, s, caption, media, mediaType, st);
    case DeleteRequest(id) =>
      out := DeleteMessage(m, s, id);
    case TypingRequest =>
      out := NotifyTyping(m, s);
    case StopTypingRequest =>
      out := NotifyStopTyping(m, s);
    case Unrecognized =>
      out := [];
  }

  /**
   One pass of the `while True` loop: dispatch on the request type. Only a
   room switch moves the session; the registry changes at the session's own
   connection at most, and the store gains at most the fresh id.
   */
  method Step(m: ConnectionManager, s: Session, req: Request, st: Stamp)
    returns (s': Session, out: seq<Send>)
    requires m.Valid() && Holds(m, s) && st.id !in m.messages
    modifies m
    ensures m.Valid() && Holds(m, s')
    ensures s'.conn == s.conn && s'.username == s.username
    ensures m.order == old(m.order) && m.users == old(m.users)
    ensures m.rooms == old(m.rooms)[s.conn := s'.room]
    ensures m.messages.Keys <= old(m.messages).Keys + {st.id}
    ensures s'.room != s.room ==> req.SwitchRoomRequest? && s'.room == req.room
    ensures req.SwitchRoomRequest? ==> s'.room == req.room
    ensures req.SwitchRoomRequest? && req.room != s.room ==>
              out == Announcement(m.order, m.rooms, m.users, s.room, Left(s.username), st.first)
                     + Announcement(m.order, m.rooms, m.users, req.room, Joined(s.username), st.second)
    ensures req.SwitchRoomRequest? ==> m.messages == old(m.messages)
    ensures forall id :: id in old(m.messages) && old(m.messages)[id].author != s.username ==>
              id in m.messages && m.messages[id] == old(m.messages)[id]
    ensures req.SwitchRoomRequest? && req.room == s.room ==> out == []
    ensures !req.SwitchRoomRequest? ==> s' == s
    ensures req.Unrecognized? ==> out == [] && m.messages == old(m.messages)
  {
    if req.SwitchRoomRequest? {
      s', out := SwitchRoom(m, s, req.room, st);
    } else {
      ReassignSame(m.rooms, s.conn);
      out := Serve(m, s, req, st);
      s' := s;
    }
  }

  /**
   A whole session of a fresh connection: the join, the requests in the
   order they arrive (each with the id and timestamps drawn for it), then
   the disconnect. Afterwards the rooms, usernames and registration order
   are as before the session: nothing of the connection remains.
   */
  method Run(m: ConnectionManager, ws: Conn, username: string, room: Room, joinedAt: Timestamp,
             requests: seq<Request>, stamps: seq<Stamp>, leftAt: Timestamp)
    returns (out: seq<Send>)
    requires m.Valid() && ws !in m.rooms
    requires |stamps| == |requests|
    requires forall k :: 0 <= k < |stamps| ==> stamps[k].id !in m.messages
    requires forall i, j :: 0 <= i < j < |stamps| ==> stamps[i].id != stamps[j].id
    modifies m
    ensures m.Valid() && ws !in m.rooms
    ensures m.rooms == old(m.rooms) && m.users == old(m.users) && m.order == old(m.order)
    ensures forall id :: id in old(m.messages) && old(m.messages)[id].author != username ==>
              id in m.messages && m.messages[id] == old(m.messages)[id]
  {
    ghost var order0, rooms0, users0 := m.order, m.rooms, m.users;
    var s;
    s, out := Join(m, ws, username, room, joinedAt);
    var i := 0;
    while i < |requests|
      invariant 0 <= i <= |requests|
      invariant m.Valid() && Holds(m, s) && s.conn == ws && s.username == username
      invariant m.order == order0 + [ws]
      invariant m.rooms == rooms0[ws := s.room] && m.users == users0[ws := username]
      invariant forall k :: i <= k < |stamps| ==> stamps[k].id !in m.messages
      invariant forall id :: id in old(m.messages) && old(m.messages)[id].author != username ==>
                  id in m.messages && m.messages[id] == old(m.messages)[id]
    {
      ghost var before, prev := m.messages.Keys, s;
      var sent;
      s, sent := Step(m, s, requests[i], stamps[i]);
      ReassignTwice(rooms0, ws, prev.room, s.room);
      forall k | i < k < |stamps|
        ensures stamps[k].id !in m.messages
      {
        StaysFresh(m.messages, before, stamps[i].id, stamps[k].id);
      }
      out := out + sent;
      i := i + 1;
    }
    ghost var rooms1, users1 := m.rooms, m.users;
    var left := Close(m, ws, leftAt);
    out := out + left;
    WithoutSnoc(order0, ws, ws);
    assert ws !in order0;
    AddThenRemove(rooms0, ws, s.room);
    AddThenRemove(users0, ws, username);
    assert m.rooms == rooms1 - {ws} && m.users == users1 - {ws};
  }
}
