/** The community store over its own fields: each call does to them what the step of the same name says. */
module Community {
  import opened Bytes
  import opened Lists
  import C = CommunityStore
  import S = Sorting
  import opened CommunityTheorems

  class Store {
    var sessions: seq<C.Session>
    var messages: seq<C.Message>
    var rooms: seq<C.Room>
    var msgSeq: nat
    var roomSeq: nat

    ghost function Shown(): C.State
      reads this
    {
      C.State(sessions, messages, rooms, msgSeq, roomSeq)
    }

    constructor ()
      ensures Shown() == C.EMPTY && Inv(Shown())
    {
      sessions, messages, rooms, msgSeq, roomSeq := [], [], [], 0, 0;
    }

    method EvictOldestMessage(now: nat)
      modifies this`messages
      ensures messages == C.EvictMessage(old(messages), now)
    {
      var i := 0;
      while i < |messages|
        invariant 0 <= i <= |messages| && messages == old(messages)
        invariant C.FirstExpired(messages, now) >= i
      {
        if C.Expired(messages[i], now) {
          assert C.FirstExpired(messages, now) == i;
          messages := messages[..i] + messages[i + 1..];
          return;
        }
        i := i + 1;
      }
      if messages != [] {
        messages := messages[1..];
      }
    }

    method PostMessage(from: string, to: string, room: Option<string>, d: C.Draft, now: nat) returns (id: C.MessageId)
      modifies this`messages, this`msgSeq
      ensures Shown() == C.Post(old(Shown()), from, to, room, d, now) && id == C.MessageId(now, msgSeq)
    {
      if |messages| >= C.MAX_MESSAGES {
        EvictOldestMessage(now);
      }
      msgSeq := msgSeq + 1;
      id := C.MessageId(now, msgSeq);
      messages := messages + [C.Message(id, from, to, room, d.body, now, C.ExpiresAt(d, now), d.replyTo, None, C.Unread)];
    }

    method SeeSession(id: string, now: nat)
      modifies this`sessions
      ensures sessions == C.Touch(old(sessions), id, now)
    {
      var i := 0;
      while i < |sessions|
        invariant 0 <= i <= |sessions| == |old(sessions)|
        invariant forall k :: 0 <= k < |sessions| ==> sessions[k] == if k < i then C.Touch(old(sessions), id, now)[k] else old(sessions)[k]
      {
        if sessions[i].id == id {
          sessions := sessions[i := sessions[i].(lastSeenAt := now)];
        }
        i := i + 1;
      }
    }

    method Register(id: string, name: string, description: string, now: nat) returns (r: C.Reply)
      requires Inv(Shown())
      modifies this
      ensures (Shown(), r) == C.Step(old(Shown()), C.Register(id, name, description), now) && Inv(Shown())
    {
      StepKeeps(Shown(), C.Register(id, name, description), now);
      hide Inv;
      if C.HasSession(sessions, id) {
        var refresh := (x: C.Session) => if x.id == id then x.(name := name, description := description, lastSeenAt := now) else x;
        sessions := Each(sessions, refresh);
        return C.Registered(true);
      }
      if |sessions| >= C.MAX_SESSIONS {
        sessions := sessions[1..];
      }
      sessions := sessions + [C.Session(id, name, description, now, now)];
      return C.Registered(false);
    }

    method SendMessage(from: string, to: string, d: C.Draft, now: nat) returns (r: C.Reply)
      requires Inv(Shown())
      modifies this
      ensures (Shown(), r) == C.Step(old(Shown()), C.SendMessage(from, to, d), now) && Inv(Shown())
    {
      StepKeeps(Shown(), C.SendMessage(from, to, d), now);
      hide Inv, C.HasSession, C.Post, C.Touch, C.DraftError;
      if !C.HasSession(sessions, from) { return C.Refused(C.NoSession(from)); }
      if !C.HasSession(sessions, to) { return C.Refused(C.NoSession(to)); }
      if from == to { return C.Refused(C.ToSelf); }
      var error := C.DraftError(C.State(sessions, messages, rooms, msgSeq, roomSeq), d, true);
      if error.Some? { return C.Refused(error.value); }
      var id := PostMessage(from, to, None, d, now);
      SeeSession(from, now);
      return C.SentOne(id);
    }

    method FanOut(from: string, targets: seq<string>, room: Option<string>, d: C.Draft, now: nat)
      returns (sentTo: seq<string>, ids: seq<C.MessageId>, failed: seq<string>)
      modifies this`messages, this`msgSeq
      ensures C.Fanned(Shown(), sentTo, ids, failed) == C.Fan(C.Fanned(old(Shown()), [], [], []), from, targets, room, d, now)
    {
      hide C.Post, C.HasSession;
      sentTo, ids, failed := [], [], [];
      assert targets[0..] == targets;
      for i := 0 to |targets|
        invariant C.Fan(C.Fanned(Shown(), sentTo, ids, failed), from, targets[i..], room, d, now)
               == C.Fan(C.Fanned(old(Shown()), [], [], []), from, targets, room, d, now)
        invariant sessions == old(sessions)
      {
        var to := targets[i];
        assert targets[i..][0] == to && targets[i..][1..] == targets[i + 1..];
        if to == from {
        } else if room.None? && !C.HasSession(sessions, to) {
          failed := failed + [to];
        } else {
          var id := PostMessage(from, to, room, d, now);
          sentTo, ids := sentTo + [to], ids + [id];
        }
      }
    }

    method Broadcast(from: string, targets: Option<seq<string>>, d: C.Draft, now: nat) returns (r: C.Reply)
      requires Inv(Shown())
      modifies this
      ensures (Shown(), r) == C.Step(old(Shown()), C.Broadcast(from, targets, d), now) && Inv(Shown())
    {
      StepKeeps(Shown(), C.Broadcast(from, targets, d), now);
      hide Inv, C.HasSession, C.Fan, C.Touch, C.DraftError;
      if !C.HasSession(sessions, from) { return C.Refused(C.NoSession(from)); }
      var error := C.DraftError(C.State(sessions, messages, rooms, msgSeq, roomSeq), d, false);
      if error.Some? { return C.Refused(error.value); }
      var to := if targets.Some? && targets.value != [] then targets.value else C.Ids(Keep(sessions, (x: C.Session) => x.id != from));
      var sentTo, ids, failed := FanOut(from, to, None, d, now);
      SeeSession(from, now);
      return C.SentMany(sentTo, ids, failed);
    }

    method RoomMessage(from: string, room: string, d: C.Draft, now: nat) returns (r: C.Reply)
      requires Inv(Shown())
      modifies this
      ensures (Shown(), r) == C.Step(old(Shown()), C.RoomMessage(from, room, d), now) && Inv(Shown())
    {
      StepKeeps(Shown(), C.RoomMessage(from, room, d), now);
      hide Inv, C.HasSession, C.Fan, C.Touch, C.DraftError;
      if !C.HasSession(sessions, from) { return C.Refused(C.NoSession(from)); }
      var i := C.RoomIndex(rooms, room);
      if i == |rooms| { return C.Refused(C.NoRoom(room)); }
      if from !in rooms[i].members { return C.Refused(C.NotMember); }
      var error := C.DraftError(C.State(sessions, messages, rooms, msgSeq, roomSeq), d, false);
      if error.Some? { return C.Refused(error.value); }
      var sentTo, ids, failed := FanOut(from, rooms[i].members, Some(room), d, now);
      SeeSession(from, now);
      return C.SentMany(sentTo, ids, []);
    }

    /** Marks the unread messages of a page one by one, wherever the store holds them. */
    method MarkPage(page: seq<C.Message>, q: C.Query, now: nat) returns (readNow: nat)
      requires q.markRead && MessagesOk(messages, msgSeq) && forall m :: m in page ==> m in messages
      modifies this`messages
      ensures messages == Each(old(messages), C.MarkIn(page, q, now))
      ensures readNow == C.UnreadCount(page, q.session)
    {
      hide MessagesOk;
      readNow := 0;
      assert page[..0] == [];
      for i := 0 to |page|
        invariant |messages| == |old(messages)|
        invariant forall k :: 0 <= k < |messages| ==> messages[k] == C.MarkIn(page[..i], q, now)(old(messages)[k])
        invariant readNow == C.UnreadCount(page[..i], q.session)
      {
        var msg := page[i];
        assert page[..i + 1] == page[..i] + [msg];
        CountConcat(page[..i], [msg], (m: C.Message) => C.UnreadBy(m, q.session));
        if C.UnreadBy(msg, q.session) {
          forall k | 0 <= k < |messages|
            ensures old(messages)[k].id == msg.id <==> old(messages)[k] == msg
          {
            SameId(old(messages), msgSeq, old(messages)[k], msg);
          }
          messages := Each(messages, (m: C.Message) => if m.id == msg.id then C.Marked(m, q.session, now) else m);
          readNow := readNow + 1;
        }
      }
      assert page[..|page|] == page;
    }

    method ReadMessages(q: C.Query, now: nat) returns (r: C.Reply)
      requires Inv(Shown())
      modifies this
      ensures (Shown(), r) == C.Step(old(Shown()), C.ReadMessages(q), now) && Inv(Shown())
    {
      StepKeeps(Shown(), C.ReadMessages(q), now);
      ghost var before := messages;
      if !C.HasSession(sessions, q.session) { return C.Refused(C.NoSession(q.session)); }
      var found := C.Found(messages, q, now);
      var page := C.PageOf(found, q);
      PageIsStored(messages, q, now);
      hide Inv, MessagesOk, C.HasSession, C.Touch, C.Found, C.PageOf;
      var unreadBefore := C.UnreadCount(found, q.session);
      var mark, readNow := C.MarkIn(page, q, now), 0;
      if q.markRead {
        readNow := MarkPage(page, q, now);
      } else {
        EachSame(messages, mark);
      }
      SeeSession(q.session, now);
      return C.Page(|found|, unreadBefore, C.UnreadCount(Each(found, mark), q.session), readNow, Each(page, mark));
    }

    method DeleteSession(id: string, purge: bool, now: nat) returns (r: C.Reply)
      requires Inv(Shown())
      modifies this
      ensures (Shown(), r) == C.Step(old(Shown()), C.DeleteSession(id, purge), now) && Inv(Shown())
    {
      StepKeeps(Shown(), C.DeleteSession(id, purge), now);
      hide Inv, C.HasSession;
      if !C.HasSession(sessions, id) { return C.Refused(C.NoSession(id)); }
      for i := 0 to |rooms|
        invariant |rooms| == |old(rooms)| && sessions == old(sessions) && messages == old(messages)
        invariant msgSeq == old(msgSeq) && roomSeq == old(roomSeq)
        invariant forall k :: 0 <= k < |rooms| ==> rooms[k] == if k < i then C.Without(old(rooms)[k], id) else old(rooms)[k]
      {
        rooms := rooms[i := C.Without(rooms[i], id)];
      }
      assert rooms == Each(old(rooms), (x: C.Room) => C.Without(x, id));
      sessions := Keep(sessions, (x: C.Session) => x.id != id);
      var deleted := 0;
      if purge {
        deleted := PurgeMessages((m: C.Message) => !C.Mentions(m, id));
      }
      return C.Deleted(deleted);
    }

    method PurgeMessages(keeps: C.Message -> bool) returns (deleted: nat)
      modifies this`messages
      ensures messages == Keep(old(messages), keeps)
      ensures deleted == |old(messages)| - |messages|
    {
      var kept: seq<C.Message> := [];
      deleted := 0;
      for i := 0 to |messages|
        invariant messages == old(messages)
        invariant kept == Keep(messages[..i], keeps) && deleted == i - |kept|
      {
        assert messages[..i + 1] == messages[..i] + [messages[i]];
        KeepMore(messages[..i], messages[i], keeps);
        if keeps(messages[i]) {
          kept := kept + [messages[i]];
        } else {
          deleted := deleted + 1;
        }
      }
      assert messages[..|messages|] == messages;
      messages := kept;
    }

    method CreateRoom(session: string, name: string, description: string, wanted: Option<string>, now: nat) returns (r: C.Reply)
      requires Inv(Shown())
      modifies this
      ensures (Shown(), r) == C.Step(old(Shown()), C.CreateRoom(session, name, description, wanted), now) && Inv(Shown())
    {
      StepKeeps(Shown(), C.CreateRoom(session, name, description, wanted), now);
      hide Inv, C.HasSession, C.PutRoom, C.Rendered;
      if !C.HasSession(sessions, session) { return C.Refused(C.NoSession(session)); }
      var id: string;
      if wanted.Some? {
        id := wanted.value;
        if C.RoomIndex(rooms, id) < |rooms| { return C.Refused(C.RoomExists); }
      } else {
        roomSeq := roomSeq + 1;
        id := C.Rendered("room_", now, roomSeq);
      }
      if |rooms| >= C.MAX_ROOMS {
        rooms := rooms[1..];
      }
      rooms := C.PutRoom(rooms, C.Room(id, name, description, session, now, [session]));
      return C.RoomMade(id);
    }

    method JoinRoom(session: string, room: string, now: nat) returns (r: C.Reply)
      requires Inv(Shown())
      modifies this
      ensures (Shown(), r) == C.Step(old(Shown()), C.JoinRoom(session, room), now) && Inv(Shown())
    {
      StepKeeps(Shown(), C.JoinRoom(session, room), now);
      hide Inv, C.HasSession;
      if !C.HasSession(sessions, session) { return C.Refused(C.NoSession(session)); }
      var i := C.RoomIndex(rooms, room);
      if i == |rooms| { return C.Refused(C.NoRoom(room)); }
      var members := rooms[i].members;
      if session !in members {
        members := members + [session];
      }
      rooms := rooms[i := rooms[i].(members := members)];
      return C.Members(|members|);
    }

    method LeaveRoom(session: string, room: string, now: nat) returns (r: C.Reply)
      requires Inv(Shown())
      modifies this
      ensures (Shown(), r) == C.Step(old(Shown()), C.LeaveRoom(session, room), now) && Inv(Shown())
    {
      StepKeeps(Shown(), C.LeaveRoom(session, room), now);
      hide Inv, C.HasSession;
      if !C.HasSession(sessions, session) { return C.Refused(C.NoSession(session)); }
      var i := C.RoomIndex(rooms, room);
      if i == |rooms| { return C.Refused(C.NoRoom(room)); }
      if session !in rooms[i].members { return C.Refused(C.NotMember); }
      rooms := rooms[i := C.Without(rooms[i], session)];
      return C.Members(|rooms[i].members|);
    }

    method DeleteRoom(room: string, purge: bool, now: nat) returns (r: C.Reply)
      requires Inv(Shown())
      modifies this
      ensures (Shown(), r) == C.Step(old(Shown()), C.DeleteRoom(room, purge), now) && Inv(Shown())
    {
      StepKeeps(Shown(), C.DeleteRoom(room, purge), now);
      hide Inv;
      var i := C.RoomIndex(rooms, room);
      if i == |rooms| { return C.Refused(C.NoRoom(room)); }
      rooms := rooms[..i] + rooms[i + 1..];
      var deleted := 0;
      if purge {
        deleted := PurgeMessages((m: C.Message) => m.room != Some(room));
      }
      return C.Deleted(deleted);
    }

    method Summarize(session: string, now: nat) returns (r: C.Reply)
      requires Inv(Shown())
      modifies this
      ensures (Shown(), r) == C.Step(old(Shown()), C.Summarize(session), now) && Inv(Shown())
    {
      StepKeeps(Shown(), C.Summarize(session), now);
      hide Inv, C.HasSession, C.Touch;
      if !C.HasSession(sessions, session) { return C.NoInbox; }
      SeeSession(session, now);
      ghost var inbox, unreadIn := (m: C.Message) => C.InInbox(m, session, now),
                                   (m: C.Message) => C.InInbox(m, session, now) && m.status == C.Unread;
      var total: nat, unread: nat := 0, 0;
      for i := 0 to |messages|
        invariant messages == old(messages) && rooms == old(rooms) && sessions == C.Touch(old(sessions), session, now)
        invariant msgSeq == old(msgSeq) && roomSeq == old(roomSeq)
        invariant total == Count(messages[..i], inbox) && unread == Count(messages[..i], unreadIn)
      {
        assert messages[..i + 1] == messages[..i] + [messages[i]];
        CountConcat(messages[..i], [messages[i]], inbox);
        CountConcat(messages[..i], [messages[i]], unreadIn);
        if C.InInbox(messages[i], session, now) {
          total := total + 1;
          if messages[i].status == C.Unread {
            unread := unread + 1;
          }
        }
      }
      assert messages[..|messages|] == messages;
      return C.Summary(total, unread);
    }
  }

  lemma SameId(ms: seq<C.Message>, top: nat, m: C.Message, n: C.Message)
    requires MessagesOk(ms, top) && m in ms && n in ms
    ensures m.id == n.id <==> m == n
  {
    forall i, j | 0 <= i < j < |ms|
      ensures ms[i].id != ms[j].id
    {
      DifferentIds(ms, top, i, j);
    }
  }

  lemma PageIsStored(ms: seq<C.Message>, q: C.Query, now: nat)
    ensures forall m :: m in C.PageOf(C.Found(ms, q, now), q) ==> m in ms
  {
    var visible := (m: C.Message) => C.Visible(q, m, now);
    var found := C.Found(ms, q, now);
    S.SortStable(Keep(ms, visible), C.SentAt);
    forall m | m in C.PageOf(found, q)
      ensures m in ms
    {
      assert m in multiset(found);
      KeepHas(ms, visible, m);
    }
  }
}
