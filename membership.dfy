/**
 Room membership as the registry derives it. The two registry dictionaries
 (`rooms` and `users`) are Python dicts: they iterate in insertion order, and
 reassigning an existing key keeps its place. `order` is that shared
 iteration order, the order in which connections registered.
 */
module Membership {
  import opened Protocol

  predicate NoDup<T(==)>(s: seq<T>)
  {
    forall i, j :: 0 <= i < j < |s| ==> s[i] != s[j]
  }

  /** `a` occurs strictly before `b` in `s`. */
  ghost predicate Precedes(s: seq<Conn>, a: Conn, b: Conn)
  {
    exists i, j :: 0 <= i < j < |s| && s[i] == a && s[j] == b
  }

  /** `s` with every occurrence of `c` dropped (a `dict.pop` on the order). */
  function Without(s: seq<Conn>, c: Conn): (r: seq<Conn>)
    ensures forall x {:trigger x in r} :: x in r <==> x in s && x != c
    ensures NoDup(s) ==> NoDup(r)
    ensures c !in s ==> r == s
  {
    if s == [] then []
    else
      var init := Without(s[..|s| - 1], c);
      assert s == s[..|s| - 1] + [s[|s| - 1]];
      assert NoDup(s) ==> s[|s| - 1] !in s[..|s| - 1] && s[|s| - 1] !in init;
      if s[|s| - 1] == c then init else init + [s[|s| - 1]]
  }

  /**
   The connections whose recorded room equals `room`, in registration order:
   the loop of `broadcast` keeps exactly these, and the presence list names them.
   */
  function Members(order: seq<Conn>, rooms: map<Conn, Room>, room: Room): (r: seq<Conn>)
    ensures forall c {:trigger c in r} :: c in r <==> c in order && c in rooms && rooms[c] == room
    ensures forall k :: 0 <= k < |r| ==> r[k] in order && r[k] in rooms && rooms[r[k]] == room
    ensures NoDup(order) ==> NoDup(r)
  {
    if order == [] then []
    else
      var c := order[|order| - 1];
      var init := Members(order[..|order| - 1], rooms, room);
      assert order == order[..|order| - 1] + [c];
      assert NoDup(order) ==> c !in order[..|order| - 1] && c !in init;
      if c in rooms && rooms[c] == room then init + [c] else init
  }

  /**
   The presence list: the usernames of the connections whose room is `room`,
   in the iteration order of `users`.
   */
  function Presence(order: seq<Conn>, rooms: map<Conn, Room>, users: map<Conn, string>,
                    room: Room): (r: seq<string>)
    requires forall c :: c in order ==> c in users
    ensures |r| == |Members(order, rooms, room)|
    ensures forall k :: 0 <= k < |r| ==> r[k] == users[Members(order, rooms, room)[k]]
  {
    if order == [] then []
    else
      var c := order[|order| - 1];
      var init := Presence(order[..|order| - 1], rooms, users, room);
      if c in rooms && rooms[c] == room then init + [users[c]] else init
  }

  /** One `send_json` of `payload` to each connection of `to`, in that order. */
  function Fanout(to: seq<Conn>, payload: Outbound): (r: seq<Send>)
    ensures |r| == |to|
    ensures forall k :: 0 <= k < |r| ==> r[k].to == to[k] && r[k].payload == payload
  {
    if to == [] then [] else Fanout(to[..|to| - 1], payload) + [Send(to[|to| - 1], payload)]
  }

  /**
   The presence list of `room` and then a system notice, each sent to every
   member of `room`: what a join, a leave or a room switch announces.
   */
  function Announcement(order: seq<Conn>, rooms: map<Conn, Room>, users: map<Conn, string>,
                        room: Room, notice: Notice, at: Timestamp): seq<Send>
    requires forall c :: c in order ==> c in users
  {
    Fanout(Members(order, rooms, room), Users(Presence(order, rooms, users, room)))
      + Fanout(Members(order, rooms, room), System(notice, at))
  }

  /** The connections a sequence of sends goes to, in sending order. */
  function Recipients(out: seq<Send>): seq<Conn>
  {
    seq(|out|, k requires 0 <= k < |out| => out[k].to)
  }

  lemma MembersSnoc(order: seq<Conn>, rooms: map<Conn, Room>, room: Room, c: Conn)
    ensures Members(order + [c], rooms, room)
         == Members(order, rooms, room) + (if c in rooms && rooms[c] == room then [c] else [])
  {
    assert (order + [c])[..|order|] == order;
  }

  lemma FanoutSnoc(to: seq<Conn>, payload: Outbound, c: Conn)
    ensures Fanout(to + [c], payload) == Fanout(to, payload) + [Send(c, payload)]
  {
    assert (to + [c])[..|to|] == to;
  }

  /** A fan-out reaches the listed connections, each once if they are distinct. */
  lemma FanoutRecipients(to: seq<Conn>, payload: Outbound)
    ensures Recipients(Fanout(to, payload)) == to
  {
  }

  /** A room that no registered connection is in receives nothing. */
  lemma SilentRoom(order: seq<Conn>, rooms: map<Conn, Room>, room: Room, payload: Outbound)
    requires forall c :: c in order && c in rooms ==> rooms[c] != room
    ensures Fanout(Members(order, rooms, room), payload) == []
  {
  }

  lemma WithoutSnoc(s: seq<Conn>, c: Conn, x: Conn)
    ensures Without(s + [x], c) == Without(s, c) + (if x == c then [] else [x])
  {
    assert (s + [x])[..|s|] == s;
  }

  lemma PrecedesSnoc(s: seq<Conn>, x: Conn, a: Conn, b: Conn)
    requires NoDup(s + [x])
    ensures Precedes(s + [x], a, b) <==> Precedes(s, a, b) || (a in s && b == x)
  {
    var t := s + [x];
    if Precedes(t, a, b) {
      var i, j :| 0 <= i < j < |t| && t[i] == a && t[j] == b;
      if j < |s| {
        assert s[i] == a && s[j] == b;
      } else {
        assert s[i] == a;
      }
    }
    if Precedes(s, a, b) {
      var i, j :| 0 <= i < j < |s| && s[i] == a && s[j] == b;
      assert t[i] == a && t[j] == b;
    }
    if a in s && b == x {
      var i :| 0 <= i < |s| && s[i] == a;
      assert t[i] == a && t[|s|] == b;
    }
  }

  /**
   Popping a connection keeps the others in their registration order: two
   survivors precede each other afterwards exactly when they did before.
   */
  lemma {:induction false} WithoutKeepsOrder(s: seq<Conn>, c: Conn, a: Conn, b: Conn)
    requires NoDup(s) && a != c && b != c
    ensures Precedes(Without(s, c), a, b) <==> Precedes(s, a, b)
  {
    if s != [] {
      var init, x := s[..|s| - 1], s[|s| - 1];
      assert s == init + [x];
      WithoutKeepsOrder(init, c, a, b);
      WithoutSnoc(init, c, x);
      PrecedesSnoc(init, x, a, b);
      if x != c {
        PrecedesSnoc(Without(init, c), x, a, b);
      }
    }
  }

  /**
   Membership lists keep registration order: two members of a room are
   listed in the order in which they registered, and in no other.
   */
  lemma {:induction false} MembersKeepOrder(order: seq<Conn>, rooms: map<Conn, Room>,
                                            room: Room, a: Conn, b: Conn)
    requires NoDup(order)
    requires a in Members(order, rooms, room) && b in Members(order, rooms, room)
    ensures Precedes(Members(order, rooms, room), a, b) <==> Precedes(order, a, b)
  {
    var n := |order|;
    var init, last := order[..n - 1], order[n - 1];
    assert order == init + [last];
    var m, m' := Members(order, rooms, room), Members(init, rooms, room);
    PrecedesSnoc(init, last, a, b);
    if last in rooms && rooms[last] == room {
      assert m == m' + [last];
      PrecedesSnoc(m', last, a, b);
      if a != last && b != last {
        MembersKeepOrder(init, rooms, room, a, b);
      }
    } else {
      assert m == m';
      MembersKeepOrder(init, rooms, room, a, b);
    }
  }

  /** Membership depends only on the room entries of the listed connections. */
  lemma {:induction false} MembersAgree(order: seq<Conn>, rooms: map<Conn, Room>,
                                        rooms': map<Conn, Room>, room: Room)
    requires forall c :: c in order ==>
               (c in rooms <==> c in rooms') && (c in rooms ==> rooms[c] == rooms'[c])
    ensures Members(order, rooms', room) == Members(order, rooms, room)
  {
    if order != [] {
      assert order == order[..|order| - 1] + [order[|order| - 1]];
      MembersAgree(order[..|order| - 1], rooms, rooms', room);
    }
  }

  /** The presence list depends only on the entries of the listed connections. */
  lemma {:induction false} PresenceAgree(order: seq<Conn>, rooms: map<Conn, Room>,
                                         users: map<Conn, string>, rooms': map<Conn, Room>,
                                         users': map<Conn, string>, room: Room)
    requires forall c :: c in order ==> c in users && c in users' && users[c] == users'[c]
    requires forall c :: c in order ==>
               (c in rooms <==> c in rooms') && (c in rooms ==> rooms[c] == rooms'[c])
    ensures Presence(order, rooms', users', room) == Presence(order, rooms, users, room)
  {
    if order != [] {
      assert order == order[..|order| - 1] + [order[|order| - 1]];
      PresenceAgree(order[..|order| - 1], rooms, users, rooms', users', room);
    }
  }

  /** Dropping a connection from the order drops it from every room's members. */
  lemma {:induction false} MembersWithout(order: seq<Conn>, rooms: map<Conn, Room>,
                                          room: Room, c: Conn)
    ensures Members(Without(order, c), rooms, room) == Without(Members(order, rooms, room), c)
  {
    if order != [] {
      var init, last := order[..|order| - 1], order[|order| - 1];
      assert order == init + [last];
      MembersWithout(init, rooms, room, c);
      WithoutSnoc(init, c, last);
      MembersSnoc(init, rooms, room, last);
      WithoutSnoc(Members(init, rooms, room), c, last);
      if last != c {
        MembersSnoc(Without(init, c), rooms, room, last);
      }
    }
  }

  /**
   Changing or removing the room entry of `c` alone leaves every room's
   member list unchanged, apart from where `c` itself appears.
   */
  lemma MembersExcept(order: seq<Conn>, rooms: map<Conn, Room>, rooms': map<Conn, Room>,
                      room: Room, c: Conn)
    requires forall x :: x != c ==>
               (x in rooms <==> x in rooms') && (x in rooms ==> rooms[x] == rooms'[x])
    ensures Without(Members(order, rooms', room), c) == Without(Members(order, rooms, room), c)
  {
    MembersWithout(order, rooms, room, c);
    MembersWithout(order, rooms', room, c);
    MembersAgree(Without(order, c), rooms, rooms', room);
  }

  /**
   Moving registered connection `c` from room `from` to another room `to`
   (`rooms[ws] = new_room`): `from` loses exactly `c`, and `to` gains exactly
   `c`, at its registration position.
   */
  lemma {:induction false} MembersAfterMove(order: seq<Conn>, rooms: map<Conn, Room>,
                                            c: Conn, from: Room, to: Room)
    requires c in order && c in rooms && rooms[c] == from && from != to
    ensures Members(order, rooms[c := to], from) == Without(Members(order, rooms, from), c)
    ensures c in Members(order, rooms[c := to], to)
    ensures Without(Members(order, rooms[c := to], to), c) == Members(order, rooms, to)
  {
    MembersExcept(order, rooms, rooms[c := to], from, c);
    MembersExcept(order, rooms, rooms[c := to], to, c);
  }

  /**
   Registering a new connection `c` in room `r` appends it to the end of
   room `r`'s members and of its presence list; other rooms are unchanged.
   */
  lemma {:induction false} PresenceAfterRegister(order: seq<Conn>, rooms: map<Conn, Room>,
                                                 users: map<Conn, string>, c: Conn, r: Room,
                                                 name: string, room: Room)
    requires c !in order
    requires forall x :: x in order ==> x in users
    ensures Members(order + [c], rooms[c := r], room)
         == Members(order, rooms, room) + (if room == r then [c] else [])
    ensures Presence(order + [c], rooms[c := r], users[c := name], room)
         == Presence(order, rooms, users, room) + (if room == r then [name] else [])
  {
    MembersSnoc(order, rooms[c := r], room, c);
    MembersAgree(order, rooms, rooms[c := r], room);
    assert (order + [c])[..|order|] == order;
    PresenceAgree(order, rooms, users, rooms[c := r], users[c := name], room);
  }
}
