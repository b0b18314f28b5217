/**
 What each call of the community store answers and changes, in terms of the state alone: when it is
 refused and why, that a refusal changes nothing, and exactly what is different after a success.
 */
module CommunityCalls {
  import opened Bytes
  import opened Lists
  import opened CommunityStore
  import opened CommunityTheorems
  import opened CommunityReading
  import S = Sorting

  // ---- who and what is there -------------------------------------------------------

  ghost predicate Known(s: State, id: string) {
    exists x :: x in s.sessions && x.id == id
  }

  ghost predicate Kept(s: State, id: MessageId) {
    exists m :: m in s.messages && m.id == id
  }

  ghost predicate RoomThere(s: State, id: string) {
    exists r :: r in s.rooms && r.id == id
  }

  /** The place of the room of that name; names stand once in every run. */
  ghost predicate RoomAt(s: State, id: string, i: nat) {
    i < |s.rooms| && s.rooms[i].id == id && forall k :: 0 <= k < i ==> s.rooms[k].id != id
  }

  lemma KnownIs(s: State, id: string)
    ensures Known(s, id) <==> HasSession(s.sessions, id)
  {
    if HasSession(s.sessions, id) {
      var i :| 0 <= i < |s.sessions| && s.sessions[i].id == id;
      assert s.sessions[i] in s.sessions;
    }
  }

  lemma KeptIs(s: State, id: MessageId)
    ensures Kept(s, id) <==> HasMessage(s.messages, id)
  {
    if HasMessage(s.messages, id) {
      var i :| 0 <= i < |s.messages| && s.messages[i].id == id;
      assert s.messages[i] in s.messages;
    }
  }

  lemma {:induction false} IndexFirst(rs: seq<Room>, id: string)
    ensures forall k :: 0 <= k < RoomIndex(rs, id) ==> rs[k].id != id
    decreases rs
  {
    if rs != [] && rs[0].id != id {
      IndexFirst(rs[1..], id);
    }
  }

  lemma RoomAtIs(s: State, id: string)
    ensures RoomThere(s, id) <==> RoomIndex(s.rooms, id) < |s.rooms|
    ensures RoomThere(s, id) <==> RoomAt(s, id, RoomIndex(s.rooms, id))
    ensures forall i: nat :: RoomAt(s, id, i) ==> i == RoomIndex(s.rooms, id)
  {
    IndexFirst(s.rooms, id);
    if RoomThere(s, id) {
      var r :| r in s.rooms && r.id == id;
    }
  }

  /** Only the session's time is new. */
  ghost predicate Touched(ss: seq<Session>, tt: seq<Session>, id: string, now: nat) {
    |tt| == |ss| && forall i :: 0 <= i < |ss| ==> tt[i] == if ss[i].id == id then ss[i].(lastSeenAt := now) else ss[i]
  }

  // ---- sending ---------------------------------------------------------------------

  ghost predicate ReplyThere(s: State, d: Draft) {
    d.replyTo.Some? ==> Kept(s, d.replyTo.value)
  }

  predicate Lasting(d: Draft) {
    d.ttl.Some? ==> d.ttl.value > 0
  }

  lemma DraftErrorIs(s: State, d: Draft, replyFirst: bool)
    ensures DraftError(s, d, replyFirst).None? <==> ReplyThere(s, d) && Lasting(d)
    ensures !ReplyThere(s, d) && (replyFirst || Lasting(d)) ==> DraftError(s, d, replyFirst) == Some(NoMessage(d.replyTo.value))
    ensures !Lasting(d) && (!replyFirst || ReplyThere(s, d)) ==> DraftError(s, d, replyFirst) == Some(BadTtl)
  {
    if d.replyTo.Some? {
      KeptIs(s, d.replyTo.value);
    }
  }

  /** A message is sent exactly between two different known sessions, as a reply to nothing or to what is kept, for ever or for some time. */
  lemma SendAnswers(s: State, from: string, to: string, d: Draft, now: nat)
    ensures var (t, r) := OnSend(s, from, to, d, now);
            && (r.SentOne? <==> Known(s, from) && Known(s, to) && from != to && ReplyThere(s, d) && Lasting(d))
            && (r.SentOne? || r.Refused?) && (r.Refused? ==> t == s)
            && (!Known(s, from) ==> r == Refused(NoSession(from)))
            && (Known(s, from) && !Known(s, to) ==> r == Refused(NoSession(to)))
            && (Known(s, from) && from == to ==> r == Refused(ToSelf))
            && (Known(s, from) && Known(s, to) && from != to ==>
                  && (!ReplyThere(s, d) ==> r == Refused(NoMessage(d.replyTo.value)))
                  && (ReplyThere(s, d) && !Lasting(d) ==> r == Refused(BadTtl)))
  {
    hide DraftError, ReplyThere, Lasting, Known, HasSession, Post, Touch;
    KnownIs(s, from);
    KnownIs(s, to);
    DraftErrorIs(s, d, true);
  }

  /** A broadcast is sent exactly by a known session, under the same conditions on the draft, checked the other way round. */
  lemma BroadcastAnswers(s: State, from: string, targets: Option<seq<string>>, d: Draft, now: nat)
    ensures var (t, r) := OnBroadcast(s, from, targets, d, now);
            && (r.SentMany? <==> Known(s, from) && ReplyThere(s, d) && Lasting(d))
            && (r.SentMany? || r.Refused?) && (r.Refused? ==> t == s)
            && (!Known(s, from) ==> r == Refused(NoSession(from)))
            && (Known(s, from) && !Lasting(d) ==> r == Refused(BadTtl))
            && (Known(s, from) && Lasting(d) && !ReplyThere(s, d) ==> r == Refused(NoMessage(d.replyTo.value)))
  {
    hide DraftError, ReplyThere, Lasting, Known, HasSession, Fan, Touch;
    KnownIs(s, from);
    DraftErrorIs(s, d, false);
  }

  /** A room message needs the room and its sender among the members as well, checked before the draft. */
  lemma RoomMessageAnswers(s: State, from: string, room: string, d: Draft, now: nat)
    ensures var (t, r) := OnRoomMessage(s, from, room, d, now);
            && (r.SentMany? <==> Known(s, from) && (exists i: nat :: RoomAt(s, room, i) && from in s.rooms[i].members)
                                 && ReplyThere(s, d) && Lasting(d))
            && (r.SentMany? || r.Refused?) && (r.Refused? ==> t == s)
            && (!Known(s, from) ==> r == Refused(NoSession(from)))
            && (Known(s, from) && !RoomThere(s, room) ==> r == Refused(NoRoom(room)))
            && (Known(s, from) ==> forall i: nat :: RoomAt(s, room, i) && from !in s.rooms[i].members ==> r == Refused(NotMember))
            && (Known(s, from) ==> forall i: nat :: RoomAt(s, room, i) && from in s.rooms[i].members ==>
                  && (!Lasting(d) ==> r == Refused(BadTtl))
                  && (Lasting(d) && !ReplyThere(s, d) ==> r == Refused(NoMessage(d.replyTo.value))))
  {
    hide DraftError, ReplyThere, Lasting, Known, HasSession, Fan, Touch, RoomThere, RoomAt;
    KnownIs(s, from);
    RoomAtIs(s, room);
    DraftErrorIs(s, d, false);
  }

  /** A new message, unread, gone when its lifetime is over. */
  predicate Fresh(m: Message, id: MessageId, from: string, to: string, room: Option<string>, d: Draft, now: nat) {
    && m.id == id && m.from == from && m.to == to && m.room == room && m.body == d.body && m.sentAt == now
    && m.replyTo == d.replyTo && m.readAt == None && m.status == Unread
    && (d.ttl.None? ==> m.expiresAt == None)
    && (d.ttl.Some? && d.ttl.value > 0 ==> m.expiresAt == Some(now + d.ttl.value))
  }

  predicate Over(m: Message, now: nat) {
    m.expiresAt.Some? && m.expiresAt.value < now
  }

  /** `left` is `ms` without the first message whose time is over, or without the oldest when there is none. */
  ghost predicate OneGone(ms: seq<Message>, now: nat, left: seq<Message>) {
    exists i :: 0 <= i < |ms| && left == ms[..i] + ms[i + 1..] && GoesAt(ms, now, i)
  }

  ghost predicate GoesAt(ms: seq<Message>, now: nat, i: nat) {
    && (forall k :: 0 <= k < i ==> k < |ms| && !Over(ms[k], now))
    && ((i < |ms| && Over(ms[i], now)) || (i == 0 && forall k :: 0 <= k < |ms| ==> !Over(ms[k], now)))
  }

  lemma EvictsOne(ms: seq<Message>, now: nat)
    requires ms != []
    ensures OneGone(ms, now, EvictMessage(ms, now))
  {
    var i := FirstExpired(ms, now);
    if i < |ms| {
      assert GoesAt(ms, now, i);
    } else {
      assert GoesAt(ms, now, 0);
      assert ms[..0] + ms[0 + 1..] == ms[1..];
    }
  }

  /** Posting puts the new message last; in a full store of 100000 one goes for it. */
  lemma PostStores(s: State, from: string, to: string, room: Option<string>, d: Draft, now: nat)
    ensures var t := Post(s, from, to, room, d, now);
            && t == s.(messages := t.messages, msgSeq := s.msgSeq + 1) && t.messages != []
            && var left, m := t.messages[..|t.messages| - 1], t.messages[|t.messages| - 1];
            && Fresh(m, MessageId(now, s.msgSeq + 1), from, to, room, d, now)
            && if |s.messages| < 100_000 then left == s.messages else OneGone(s.messages, now, left)
  {
    hide EvictMessage, OneGone;
    if |s.messages| >= 100_000 {
      EvictsOne(s.messages, now);
    }
    var t := Post(s, from, to, room, d, now);
    assert t.messages[..|t.messages| - 1] == if |s.messages| < 100_000 then s.messages else EvictMessage(s.messages, now);
  }

  /** What a message sent leaves behind: the message under the id answered, and the sender's time. */
  lemma SendStores(s: State, from: string, to: string, d: Draft, now: nat)
    requires OnSend(s, from, to, d, now).1.SentOne?
    ensures var (t, r) := OnSend(s, from, to, d, now);
            && r.id == MessageId(now, s.msgSeq + 1) && t.msgSeq == s.msgSeq + 1 && t.rooms == s.rooms && t.roomSeq == s.roomSeq
            && Touched(s.sessions, t.sessions, from, now)
            && t.messages != []
            && var left, m := t.messages[..|t.messages| - 1], t.messages[|t.messages| - 1];
            && Fresh(m, r.id, from, to, None, d, now)
            && if |s.messages| < 100_000 then left == s.messages else OneGone(s.messages, now, left)
  {
    hide HasSession, DraftError, Post, Fresh, OneGone;
    PostStores(s, from, to, None, d, now);
  }

  /** Who a broadcast goes to: those asked for, or with none asked for all sessions but the sender's. */
  ghost predicate Addressed(s: State, from: string, targets: Option<seq<string>>, to: seq<string>) {
    if targets.Some? && targets.value != [] then to == targets.value
    else
      && (forall x :: x in to <==> Known(s, x) && x != from)
      && to == IdsOf(Keep(s.sessions, (x: Session) => x.id != from))
  }

  function IdsOf(ss: seq<Session>): seq<string> {
    if ss == [] then [] else [ss[0].id] + IdsOf(ss[1..])
  }

  lemma {:induction false} IdsAre(ss: seq<Session>)
    ensures Ids(ss) == IdsOf(ss)
    decreases ss
  {
    if ss != [] {
      IdsAre(ss[1..]);
      assert Ids(ss) == [ss[0].id] + Ids(ss[1..]);
    }
  }

  function Addressees(s: State, from: string, targets: Option<seq<string>>): seq<string> {
    if targets.Some? && targets.value != [] then targets.value else Ids(Keep(s.sessions, (x: Session) => x.id != from))
  }

  lemma AddresseesAre(s: State, from: string, targets: Option<seq<string>>)
    ensures Addressed(s, from, targets, Addressees(s, from, targets))
  {
    if !(targets.Some? && targets.value != []) {
      var others := Keep(s.sessions, (x: Session) => x.id != from);
      IdsAre(others);
      forall x
        ensures x in Ids(others) <==> Known(s, x) && x != from
      {
        if x in Ids(others) {
          var i :| 0 <= i < |others| && others[i].id == x;
          KeepHas(s.sessions, (y: Session) => y.id != from, others[i]);
        }
        if Known(s, x) && x != from {
          var y :| y in s.sessions && y.id == x;
          KeepHas(s.sessions, (y: Session) => y.id != from, y);
          var i :| 0 <= i < |others| && others[i] == y;
          assert Ids(others)[i] == x;
        }
      }
    }
  }

  ghost function Reachable(s: State, from: string): string -> bool {
    (x: string) => x != from && HasSession(s.sessions, x)
  }

  ghost function Missing(s: State, from: string): string -> bool {
    (x: string) => x != from && !HasSession(s.sessions, x)
  }

  lemma KnownAmong(s: State, from: string, to: seq<string>)
    ensures forall x :: x in Keep(to, Reachable(s, from)) <==> x in to && x != from && Known(s, x)
    ensures forall x :: x in Keep(to, Missing(s, from)) <==> x in to && x != from && !Known(s, x)
  {
    hide HasSession, Known, Keep;
    forall x
      ensures x in Keep(to, Reachable(s, from)) <==> x in to && x != from && Known(s, x)
    {
      KnownIs(s, x);
      KeepHas(to, Reachable(s, from), x);
    }
    forall x
      ensures x in Keep(to, Missing(s, from)) <==> x in to && x != from && !Known(s, x)
    {
      KnownIs(s, x);
      KeepHas(to, Missing(s, from), x);
    }
  }

  /** A broadcast reaches, in order, those addressed that are known, and names the others as failed; the sender is left out. */
  lemma BroadcastReaches(s: State, from: string, targets: Option<seq<string>>, d: Draft, now: nat)
    requires OnBroadcast(s, from, targets, d, now).1.SentMany?
    ensures var (t, r) := OnBroadcast(s, from, targets, d, now);
            var to := Addressees(s, from, targets);
            && Addressed(s, from, targets, to)
            && r.sentTo == Keep(to, Reachable(s, from))
            && r.failed == Keep(to, Missing(s, from))
            && (forall x :: x in r.sentTo <==> x in to && x != from && Known(s, x))
            && (forall x :: x in r.failed <==> x in to && x != from && !Known(s, x))
            && t.rooms == s.rooms && Touched(s.sessions, t.sessions, from, now)
            && (|s.messages| + |to| <= 100_000 ==>
                  && s.messages <= t.messages
                  && Stored(t.messages[|s.messages|..], from, r.sentTo, r.ids, None, d, now))
  {
    hide HasSession, DraftError, Fan, Addressed, Stored, Known;
    var to, f := Addressees(s, from, targets), Fanned(s, [], [], []);
    AddresseesAre(s, from, targets);
    FanReaches(f, from, to, None, d, now);
    FanFrame(f, from, to, None, d, now);
    KeepSame(to, (x: string) => Reached(f, from, None, x), Reachable(s, from));
    KeepSame(to, (x: string) => x != from && !Reached(f, from, None, x), Missing(s, from));
    KnownAmong(s, from, to);
    if |s.messages| + |to| <= 100_000 {
      NothingStored(s.messages, from, None, d, now);
      FanStores(f, s.messages, from, to, None, d, now);
    }
  }

  lemma NothingStored(ms: seq<Message>, from: string, room: Option<string>, d: Draft, now: nat)
    ensures Stored(ms[|ms|..], from, [], [], room, d, now)
  {
  }

  lemma {:induction false} FanFrame(f: Fanned, from: string, targets: seq<string>, room: Option<string>, d: Draft, now: nat)
    ensures Fan(f, from, targets, room, d, now).state.sessions == f.state.sessions
    ensures Fan(f, from, targets, room, d, now).state.rooms == f.state.rooms
    decreases targets
  {
    hide Post;
    if targets != [] {
      PostStores(f.state, from, targets[0], room, d, now);
      FanFrame(FanOne(f, from, targets[0], room, d, now), from, targets[1..], room, d, now);
    }
  }

  /** A room message reaches the other members in the order in which they joined, known or not. */
  lemma RoomMessageReaches(s: State, from: string, room: string, d: Draft, now: nat, i: nat)
    requires OnRoomMessage(s, from, room, d, now).1.SentMany? && RoomAt(s, room, i)
    ensures var (t, r) := OnRoomMessage(s, from, room, d, now);
            var to := s.rooms[i].members;
            && r.sentTo == Keep(to, (x: string) => x != from) && r.failed == []
            && t.rooms == s.rooms && Touched(s.sessions, t.sessions, from, now)
            && (|s.messages| + |to| <= 100_000 ==>
                  && s.messages <= t.messages
                  && Stored(t.messages[|s.messages|..], from, r.sentTo, r.ids, Some(room), d, now))
  {
    hide HasSession, DraftError, Fan, Stored, RoomAt;
    RoomAtIs(s, room);
    var to, f := s.rooms[i].members, Fanned(s, [], [], []);
    FanReaches(f, from, to, Some(room), d, now);
    FanFrame(f, from, to, Some(room), d, now);
    KeepSame(to, (x: string) => Reached(f, from, Some(room), x), (x: string) => x != from);
    if |s.messages| + |to| <= 100_000 {
      NothingStored(s.messages, from, Some(room), d, now);
      FanStores(f, s.messages, from, to, Some(room), d, now);
    }
  }

  /** A message given a lifetime is there to the end of it and gone after it; the others stay. */
  lemma LifetimeEnds(m: Message, id: MessageId, from: string, to: string, room: Option<string>, d: Draft, now: nat, later: nat)
    requires Fresh(m, id, from, to, room, d, now) && Lasting(d)
    ensures Expired(m, later) <==> d.ttl.Some? && later > now + d.ttl.value
  {
  }

  // ---- sessions --------------------------------------------------------------------

  /** Registering renews a known session in place, and puts an unknown one last, the oldest going for it when there are 1000. */
  lemma RegisterAnswers(s: State, id: string, name: string, description: string, now: nat)
    ensures var (t, r) := OnRegister(s, id, name, description, now);
            && r == Registered(Known(s, id)) && t == s.(sessions := t.sessions)
            && (Known(s, id) ==>
                  && |t.sessions| == |s.sessions|
                  && forall i :: 0 <= i < |s.sessions| ==>
                       t.sessions[i] == if s.sessions[i].id == id then Session(id, name, description, s.sessions[i].createdAt, now) else s.sessions[i])
            && (!Known(s, id) ==>
                  t.sessions == (if |s.sessions| >= 1000 then s.sessions[1..] else s.sessions) + [Session(id, name, description, now, now)])
  {
    KnownIs(s, id);
  }

  /** Without purging only the session and its memberships go; with it go exactly as many messages as answered. */
  lemma DeleteAnswers(s: State, id: string, purge: bool)
    ensures var (t, r) := OnDelete(s, id, purge);
            && (!Known(s, id) ==> r == Refused(NoSession(id)) && t == s)
            && (Known(s, id) ==>
                  && r.Deleted? && r.messages == |s.messages| - |t.messages|
                  && t == s.(sessions := t.sessions, rooms := t.rooms, messages := t.messages)
                  && (!purge ==> t.messages == s.messages)
                  && (forall x :: x in t.sessions <==> x in s.sessions && x.id != id)
                  && |t.rooms| == |s.rooms|
                  && (forall i :: 0 <= i < |s.rooms| ==> LeftBy(s.rooms[i], t.rooms[i], id)))
  {
    KnownIs(s, id);
    if Known(s, id) {
      KeepShort(s.messages, (m: Message) => !Mentions(m, id));
      forall x
        ensures x in Keep(s.sessions, (y: Session) => y.id != id) <==> x in s.sessions && x.id != id
      {
        KeepHas(s.sessions, (y: Session) => y.id != id, x);
      }
      forall i | 0 <= i < |s.rooms|
        ensures LeftBy(s.rooms[i], Without(s.rooms[i], id), id)
      {
        WithoutLeft(s.rooms[i], id);
      }
    }
  }

  /** The same room with the one member gone and the others in their order. */
  ghost predicate LeftBy(r: Room, u: Room, id: string) {
    && u == r.(members := u.members)
    && (forall x :: x in u.members <==> x in r.members && x != id)
    && u.members == Keep(r.members, Others(id))
  }

  function Others(id: string): string -> bool {
    (x: string) => x != id
  }

  lemma WithoutLeft(r: Room, id: string)
    ensures LeftBy(r, Without(r, id), id)
  {
    KeepSame(r.members, (x: string) => x != id, Others(id));
    forall x
      ensures x in Keep(r.members, Others(id)) <==> x in r.members && x != id
    {
      KeepHas(r.members, Others(id), x);
    }
  }

  // ---- rooms -----------------------------------------------------------------------

  /** A room is made unless a room of the wanted name is there; its maker is its only member. */
  lemma CreateRoomAnswers(s: State, session: string, name: string, description: string, wanted: Option<string>, now: nat)
    ensures var (t, r) := OnCreateRoom(s, session, name, description, wanted, now);
            && (!Known(s, session) ==> r == Refused(NoSession(session)) && t == s)
            && (Known(s, session) && wanted.Some? && RoomThere(s, wanted.value) ==> r == Refused(RoomExists) && t == s)
            && (Known(s, session) && !(wanted.Some? && RoomThere(s, wanted.value)) ==>
                  && r.RoomMade? && (wanted.Some? ==> r.room == wanted.value)
                  && (wanted.None? ==> r.room == Rendered("room_", now, s.roomSeq + 1))
                  && t == s.(rooms := t.rooms, roomSeq := if wanted.Some? then s.roomSeq else s.roomSeq + 1)
                  && Room(r.room, name, description, session, now, [session]) in t.rooms)
  {
    hide Known, RoomThere, HasSession, Rendered;
    KnownIs(s, session);
    if wanted.Some? {
      RoomAtIs(s, wanted.value);
    }
    var (t, r) := OnCreateRoom(s, session, name, description, wanted, now);
    if r.RoomMade? {
      var left, made := RoomFor(s.rooms, MAX_ROOMS), Room(r.room, name, description, session, now, [session]);
      assert t.rooms[RoomIndex(left, r.room)] == made;
    }
  }

  /** Joining puts the session last among the room's members, unless it is one, and changes nothing else. */
  lemma JoinAnswers(s: State, session: string, room: string)
    ensures var (t, r) := OnJoin(s, session, room);
            && (r.Members? <==> Known(s, session) && RoomThere(s, room)) && (r.Members? || t == s)
            && (!Known(s, session) ==> r == Refused(NoSession(session)))
            && (Known(s, session) && !RoomThere(s, room) ==> r == Refused(NoRoom(room)))
            && (r.Members? ==> forall i: nat :: RoomAt(s, room, i) ==>
                  && t == s.(rooms := t.rooms) && |t.rooms| == |s.rooms|
                  && (forall k :: 0 <= k < |s.rooms| && k != i ==> t.rooms[k] == s.rooms[k])
                  && t.rooms[i] == s.rooms[i].(members := t.rooms[i].members)
                  && t.rooms[i].members == s.rooms[i].members + (if session in s.rooms[i].members then [] else [session])
                  && r.count == |t.rooms[i].members|)
  {
    hide Known, RoomThere, RoomAt, HasSession, RoomIndex;
    KnownIs(s, session);
    RoomAtIs(s, room);
    var i := RoomIndex(s.rooms, room);
    if i < |s.rooms| {
      assert s.rooms[i].members + [] == s.rooms[i].members;
    }
  }

  /** Leaving takes the session out of the room's members, of which it must be one, and changes nothing else. */
  lemma LeaveAnswers(s: State, session: string, room: string)
    ensures var (t, r) := OnLeave(s, session, room);
            && (r.Members? <==> Known(s, session) && exists i: nat :: RoomAt(s, room, i) && session in s.rooms[i].members)
            && (r.Members? || t == s)
            && (!Known(s, session) ==> r == Refused(NoSession(session)))
            && (Known(s, session) && !RoomThere(s, room) ==> r == Refused(NoRoom(room)))
            && (Known(s, session) && RoomThere(s, room) && !r.Members? ==> r == Refused(NotMember))
            && (r.Members? ==> forall i: nat :: RoomAt(s, room, i) ==>
                  && t == s.(rooms := t.rooms) && |t.rooms| == |s.rooms|
                  && (forall k :: 0 <= k < |s.rooms| && k != i ==> t.rooms[k] == s.rooms[k])
                  && LeftBy(s.rooms[i], t.rooms[i], session)
                  && r.count == |t.rooms[i].members|)
  {
    hide Known, RoomThere, RoomAt, HasSession, RoomIndex, LeftBy;
    KnownIs(s, session);
    RoomAtIs(s, room);
    var i := RoomIndex(s.rooms, room);
    if i < |s.rooms| {
      WithoutLeft(s.rooms[i], session);
    }
  }

  /** Deleting takes the room out; without purging its messages stay, and with it go exactly as many as answered. */
  lemma DeleteRoomAnswers(s: State, room: string, purge: bool)
    ensures var (t, r) := OnDeleteRoom(s, room, purge);
            && (!RoomThere(s, room) ==> r == Refused(NoRoom(room)) && t == s)
            && (forall i: nat :: RoomAt(s, room, i) ==>
                  && r.Deleted? && r.messages == |s.messages| - |t.messages|
                  && t == s.(rooms := s.rooms[..i] + s.rooms[i + 1..], messages := t.messages)
                  && (!purge ==> t.messages == s.messages))
  {
    hide RoomThere, RoomAt, RoomIndex;
    RoomAtIs(s, room);
    KeepShort(s.messages, (m: Message) => m.room != Some(room));
  }

  // ---- reading ---------------------------------------------------------------------

  /** What a query finds, by who sent it to whom; a thread is its root and the replies to it, seen by either side. */
  lemma FoundExactly(ms: seq<Message>, q: Query, now: nat, m: Message)
    ensures m in Found(ms, q, now) ==> m in ms && !Over(m, now) && (m.to == q.session || m.from == q.session)
    ensures m in ms && !Over(m, now) && q.threadOf.Some? ==>
      (m in Found(ms, q, now) <==> (m.to == q.session || m.from == q.session) && (m.id == q.threadOf.value || m.replyTo == q.threadOf))
    ensures m in ms && !Over(m, now) && q.threadOf.None? ==>
      && (q.folder == Inbox ==> (m in Found(ms, q, now) <==> m.to == q.session))
      && (q.folder == Sent ==> (m in Found(ms, q, now) <==> m.from == q.session))
      && (q.folder == All ==> (m in Found(ms, q, now) <==> m.to == q.session || m.from == q.session))
  {
    hide Found;
    FoundHas(ms, q, now, m);
  }

  lemma FoundInOrder(ms: seq<Message>, q: Query, now: nat)
    ensures forall i, j :: 0 <= i < j < |Found(ms, q, now)| ==> Found(ms, q, now)[i].sentAt <= Found(ms, q, now)[j].sentAt
  {
    var visible := (m: Message) => Visible(q, m, now);
    S.SortStable(Keep(ms, visible), SentAt);
  }

  /** The number of messages a page holds: as asked for, at most 100, and 20 without a number. */
  predicate HoldsUpTo(q: Query, size: nat) {
    && 1 <= size <= 100
    && (q.pageSize == 0 ==> size == 20) && (q.pageSize < 0 ==> size == 1) && (q.pageSize > 100 ==> size == 100)
    && (1 <= q.pageSize <= 100 ==> size == q.pageSize)
  }

  lemma PlacesAre(q: Query, n: nat, page: nat, size: nat)
    requires HoldsUpTo(q, size) && page == (if q.page < 1 then 1 else q.page)
    ensures var first := (page - 1) * size;
            && first >= 0 && First(q, n) == (if first > n then n else first)
            && Last(q, n) == (if first + size > n then n else first + size)
  {
    hide PageSize, PageNumber;
    SizesAre(q, page, size);
    NotNegative(page - 1, size);
  }

  lemma SizesAre(q: Query, page: nat, size: nat)
    requires HoldsUpTo(q, size) && page == (if q.page < 1 then 1 else q.page)
    ensures PageSize(q.pageSize) == size && PageNumber(q.page) == page
  {
  }

  lemma NotNegative(a: nat, b: nat)
    ensures a * b >= 0
  {
  }

  lemma PageShows(found: seq<Message>, q: Query, now: nat, first: nat, size: nat)
    requires First(q, |found|) == (if first > |found| then |found| else first)
    requires Last(q, |found|) == (if first + size > |found| then |found| else first + size)
    ensures var page := PageOf(found, q);
            var shown := Each(page, MarkIn(page, q, now));
            && |shown| == (if first + size <= |found| then size else if first <= |found| then |found| - first else 0)
            && (forall i :: 0 <= i < |shown| ==>
                  && 0 <= first + i < |found|
                  && shown[i] == (if q.markRead && found[first + i].to == q.session && found[first + i].status == Unread
                                  then found[first + i].(status := Read, readAt := Some(now)) else found[first + i]))
  {
    hide First, Last;
    var page := PageOf(found, q);
    forall i | 0 <= i < |page|
      ensures page[i] in page && page[i] == found[first + i]
    {
    }
  }

  /**
   A page shows what is found from its first place on, in order, as it is afterwards; pages below the
   first are the first. An unknown session is refused.
   */
  lemma ReadAnswers(s: State, q: Query, now: nat, page: nat, size: nat)
    requires HoldsUpTo(q, size) && page == (if q.page < 1 then 1 else q.page)
    ensures var (t, r) := OnRead(s, q, now);
            && (!Known(s, q.session) ==> r == Refused(NoSession(q.session)) && t == s)
            && (Known(s, q.session) ==>
                  var found, first := Found(s.messages, q, now), (page - 1) * size;
                  && r.Page? && r.total == |found|
                  && |r.shown| == (if first + size <= |found| then size else if first <= |found| then |found| - first else 0)
                  && (forall i :: 0 <= i < |r.shown| ==>
                        0 <= first + i < |found| &&
                        r.shown[i] == (if q.markRead && found[first + i].to == q.session && found[first + i].status == Unread
                                       then found[first + i].(status := Read, readAt := Some(now)) else found[first + i]))
                  && t == s.(messages := t.messages, sessions := t.sessions) && Touched(s.sessions, t.sessions, q.session, now))
  {
    hide HasSession, Found, UnreadCount, Known, First, Last, PageOf, MarkIn;
    KnownIs(s, q.session);
    var found := Found(s.messages, q, now);
    PlacesAre(q, |found|, page, size);
    PageShows(found, q, now, (page - 1) * size, size);
  }

  /** A summary counts the inbox and leaves everything but the session's time; an unknown session has none. */
  lemma SummarizeAnswers(s: State, session: string, now: nat)
    ensures var (t, r) := OnSummarize(s, session, now);
            && (r.Summary? <==> Known(s, session)) && (!Known(s, session) ==> r == NoInbox && t == s)
            && (Known(s, session) ==> t == s.(sessions := t.sessions) && Touched(s.sessions, t.sessions, session, now))
  {
    hide HasSession, Known, Count;
    KnownIs(s, session);
  }
}
