/**
 The in-memory `ConnectionManager`: which room and which username each live
 connection has, and the store of posted messages. Sends are not performed;
 each operation returns its outbox, the `send_json` calls it would make, in
 order.
 */
module Registry {
  import opened Protocol
  import opened Membership

  class ConnectionManager {
    /** The iteration order shared by `rooms` and `users` (registration order). */
    var order: seq<Conn>
    /** `self.rooms`: connection -> room. */
    var rooms: map<Conn, Room>
    /** `self.users`: connection -> username. */
    var users: map<Conn, string>
    /** `self.messages`: message id -> stored record (absent from main.py). */
    var messages: map<MessageId, StoredMessage>

    /**
     `rooms` and `users` always have the same keys, and `order` lists each
     of them exactly once.
     */
    ghost predicate Valid()
      reads this
    {
      && NoDup(order)
      && (forall c :: c in order <==> c in rooms)
      && users.Keys == rooms.Keys
    }

    constructor ()
      ensures Valid()
      ensures order == [] && rooms == map[] && users == map[] && messages == map[]
    {
      order, rooms, users, messages := [], map[], map[], map[];
    }

    /** `self.messages.get(id)`. */
    function Lookup(id: MessageId): Option<StoredMessage>
      reads this
    {
      if id in messages then Some(messages[id]) else None
    }

    /**
     `broadcast(room, data)`: walks the registry in registration order and
     sends `payload` to each connection whose recorded room is `room`.
     */
    method Broadcast(room: Room, payload: Outbound) returns (out: seq<Send>)
      requires Valid()
      ensures Recipients(out) == Members(order, rooms, room)
      ensures forall k :: 0 <= k < |out| ==> out[k].payload == payload
      ensures forall c :: c in Recipients(out) <==> c in rooms && rooms[c] == room
      ensures NoDup(Recipients(out))
      ensures out == Fanout(Members(order, rooms, room), payload)
    {
      out := [];
      var i := 0;
      while i < |order|
        invariant 0 <= i <= |order|
        invariant out == Fanout(Members(order[..i], rooms, room), payload)
      {
        var c := order[i];
        MembersSnoc(order[..i], rooms, room, c);
        assert order[..i + 1] == order[..i] + [c];
        if rooms[c] == room {
          FanoutSnoc(Members(order[..i], rooms, room), payload, c);
          out := out + [Send(c, payload)];
        }
        i := i + 1;
      }
      assert order[..i] == order;
      FanoutRecipients(Members(order, rooms, room), payload);
    }

    /**
     `broadcast_users(room)`: sends the presence list of `room` to its
     members; the k-th name on the list is the username of the k-th
     recipient, so the list names exactly the connections that receive it.
     */
    method BroadcastUsers(room: Room) returns (out: seq<Send>)
      requires Valid()
      ensures Recipients(out) == Members(order, rooms, room)
      ensures forall k :: 0 <= k < |out| ==> out[k].payload == Users(Presence(order, rooms, users, room))
      ensures |Presence(order, rooms, users, room)| == |out|
      ensures forall k :: 0 <= k < |out| ==> out[k].to in users && Presence(order, rooms, users, room)[k] == users[out[k].to]
      ensures out == Fanout(Members(order, rooms, room), Users(Presence(order, rooms, users, room)))
    {
      var names := Presence(order, rooms, users, room);
      out := Broadcast(room, Users(names));
    }

    /**
     The pair of broadcasts that `connect`, `switch_room` and the disconnect
     handler each send to a room: `broadcast_users(room)`, then a system
     notice. Every member receives the presence list before the notice.
     */
    method Announce(room: Room, notice: Notice, at: Timestamp) returns (out: seq<Send>)
      requires Valid()
      ensures out == Announcement(order, rooms, users, room, notice, at)
    {
      var list := BroadcastUsers(room);
      var sent := Broadcast(room, System(notice, at));
      out := list + sent;
    }

    /**
     `connect(ws, username, room)`: records the room and the username of
     `ws` (a new connection goes to the end of the order, a known one keeps
     its place), then announces the presence list and the join to `room`.
     */
    method Connect(ws: Conn, username: string, room: Room, at: Timestamp)
      returns (out: seq<Send>)
      requires Valid()
      modifies this
      ensures Valid()
      ensures rooms == old(rooms)[ws := room] && users == old(users)[ws := username]
      ensures order == if ws in old(rooms) then old(order) else old(order) + [ws]
      ensures messages == old(messages)
      ensures out == Announcement(order, rooms, users, room, Joined(username), at)
      ensures ws !in old(rooms) ==>
                && Members(order, rooms, room) == old(Members(order, rooms, room)) + [ws]
                && Presence(order, rooms, users, room) == old(Presence(order, rooms, users, room)) + [username]
    {
      if ws !in rooms {
        PresenceAfterRegister(order, rooms, users, ws, room, username, room);
        assert NoDup(order + [ws]) by {
          assert forall i :: 0 <= i < |order| ==> (order + [ws])[i] == order[i];
        }
        order := order + [ws];
      }
      rooms, users := rooms[ws := room], users[ws := username];
      assert Valid() && messages == old(messages);
      out := Announce(room, Joined(username), at);
    }

    /**
     `disconnect(ws)`: removes `ws` from both dictionaries and returns the
     username and room it held, or `(None, None)` when it held none.
     */
    method Disconnect(ws: Conn) returns (username: Option<string>, room: Option<Room>)
      requires Valid()
      modifies this
      ensures Valid()
      ensures ws in old(rooms) ==>
                username == Some(old(users)[ws]) && room == Some(old(rooms)[ws])
      ensures ws !in old(rooms) ==> username == None && room == None
      ensures rooms == old(rooms) - {ws} && users == old(users) - {ws}
      ensures order == Without(old(order), ws) && messages == old(messages)
      ensures forall r: Room :: Members(order, rooms, r) == Without(old(Members(order, rooms, r)), ws)
    {
      room := if ws in rooms then Some(rooms[ws]) else None;
      username := if ws in users then Some(users[ws]) else None;
      forall r: Room
        ensures Members(Without(order, ws), rooms - {ws}, r) == Without(Members(order, rooms, r), ws)
      {
        MembersWithout(order, rooms - {ws}, r, ws);
        MembersExcept(order, rooms, rooms - {ws}, r, ws);
      }
      order := Without(order, ws);
      rooms := rooms - {ws};
      users := users - {ws};
    }
  }
}
