/** What the community store keeps in every run. */
module CommunityTheorems {
  import opened Bytes
  import opened Lists
  import opened CommunityStore

  // ---- the invariant ---------------------------------------------------------------

  /** Read exactly when there is a reading time; a reply only to an older message; never to oneself. */
  predicate MessageOk(m: Message) {
    && (m.status == Read <==> m.readAt.Some?)
    && (m.replyTo.Some? ==> m.replyTo.value.seqNo < m.id.seqNo)
    && m.from != m.to
  }

  predicate Older(m: Message, n: Message) {
    m.id.seqNo < n.id.seqNo
  }

  ghost predicate MessagesOk(ms: seq<Message>, top: nat) {
    && (forall i, j :: 0 <= i < j < |ms| ==> Older(ms[i], ms[j]))
    && (forall i :: 0 <= i < |ms| ==> MessageOk(ms[i]) && ms[i].id.seqNo <= top)
  }

  predicate OtherSession(x: Session, y: Session) {
    x.id != y.id
  }

  ghost predicate SessionsOk(ss: seq<Session>) {
    forall i, j :: 0 <= i < j < |ss| ==> OtherSession(ss[i], ss[j])
  }

  ghost predicate RoomsOk(rs: seq<Room>) {
    && (forall i, j :: 0 <= i < j < |rs| ==> rs[i].id != rs[j].id)
    && (forall i :: 0 <= i < |rs| ==> NoDup(rs[i].members))
  }

  ghost predicate Inv(s: State) {
    && |s.sessions| <= MAX_SESSIONS && |s.messages| <= MAX_MESSAGES && |s.rooms| <= MAX_ROOMS
    && SessionsOk(s.sessions) && MessagesOk(s.messages, s.msgSeq) && RoomsOk(s.rooms)
  }

  lemma DifferentIds(ms: seq<Message>, top: nat, i: nat, j: nat)
    requires MessagesOk(ms, top) && i < j < |ms|
    ensures ms[i].id != ms[j].id
  {
    assert Older(ms[i], ms[j]);
  }

  lemma KeepMessages(ms: seq<Message>, p: Message -> bool, top: nat)
    requires MessagesOk(ms, top)
    ensures MessagesOk(Keep(ms, p), top) && |Keep(ms, p)| <= |ms|
  {
    KeepPairs(ms, p, Older);
    KeepShort(ms, p);
    forall m | m in Keep(ms, p)
      ensures m in ms
    {
      KeepHas(ms, p, m);
    }
  }

  lemma {:induction false} KeepShort<T>(s: seq<T>, p: T -> bool)
    ensures |Keep(s, p)| <= |s|
    decreases s
  {
    if s != [] {
      KeepShort(s[1..], p);
    }
  }

  lemma EvictMessages(ms: seq<Message>, now: nat, top: nat)
    requires MessagesOk(ms, top)
    ensures MessagesOk(EvictMessage(ms, now), top) && |EvictMessage(ms, now)| == if ms == [] then 0 else |ms| - 1
  {
  }

  lemma PostKeeps(s: State, from: string, to: string, room: Option<string>, d: Draft, now: nat)
    requires MessagesOk(s.messages, s.msgSeq) && |s.messages| <= MAX_MESSAGES && from != to
    requires d.replyTo.Some? ==> d.replyTo.value.seqNo <= s.msgSeq
    ensures var t := Post(s, from, to, room, d, now);
            && MessagesOk(t.messages, t.msgSeq) && |t.messages| <= MAX_MESSAGES
            && t.msgSeq == s.msgSeq + 1 && t.sessions == s.sessions && t.rooms == s.rooms
  {
    EvictMessages(s.messages, now, s.msgSeq);
    hide EvictMessage;
  }

  lemma {:induction false} FanKeeps(f: Fanned, from: string, targets: seq<string>, room: Option<string>, d: Draft, now: nat)
    requires MessagesOk(f.state.messages, f.state.msgSeq) && |f.state.messages| <= MAX_MESSAGES
    requires d.replyTo.Some? ==> d.replyTo.value.seqNo <= f.state.msgSeq
    ensures var g := Fan(f, from, targets, room, d, now);
            && MessagesOk(g.state.messages, g.state.msgSeq) && |g.state.messages| <= MAX_MESSAGES
            && g.state.sessions == f.state.sessions && g.state.rooms == f.state.rooms
    decreases targets
  {
    hide MessagesOk, Post;
    if targets != [] {
      if targets[0] != from {
        PostKeeps(f.state, from, targets[0], room, d, now);
      }
      FanKeeps(FanOne(f, from, targets[0], room, d, now), from, targets[1..], room, d, now);
    }
  }

  lemma TouchKeeps(ss: seq<Session>, id: string, now: nat)
    requires SessionsOk(ss)
    ensures SessionsOk(Touch(ss, id, now)) && |Touch(ss, id, now)| == |ss|
  {
  }

  lemma ReplyIsOlder(s: State, d: Draft, replyFirst: bool)
    requires MessagesOk(s.messages, s.msgSeq) && DraftError(s, d, replyFirst).None?
    ensures d.replyTo.Some? ==> d.replyTo.value.seqNo <= s.msgSeq
  {
  }

  lemma RegisterKeeps(s: State, id: string, name: string, description: string, now: nat)
    requires Inv(s)
    ensures Inv(OnRegister(s, id, name, description, now).0)
  {
    hide MessagesOk, RoomsOk;
  }

  lemma DeleteKeeps(s: State, id: string, purge: bool)
    requires Inv(s)
    ensures Inv(OnDelete(s, id, purge).0)
  {
    hide MessagesOk;
    KeepMessages(s.messages, (m: Message) => !Mentions(m, id), s.msgSeq);
    KeepPairs(s.sessions, (x: Session) => x.id != id, OtherSession);
    KeepShort(s.sessions, (x: Session) => x.id != id);
    forall r | r in s.rooms
      ensures NoDup(Without(r, id).members)
    {
      KeepNoDup(r.members, (x: string) => x != id);
    }
  }

  lemma MarkKeeps(ms: seq<Message>, page: seq<Message>, q: Query, now: nat, top: nat)
    requires MessagesOk(ms, top)
    ensures MessagesOk(Each(ms, MarkIn(page, q, now)), top)
  {
  }

  lemma CreateKeeps(s: State, session: string, name: string, description: string, room: Option<string>, now: nat)
    requires Inv(s)
    ensures Inv(OnCreateRoom(s, session, name, description, room, now).0)
  {
    hide MessagesOk, SessionsOk;
    var rs := RoomFor(s.rooms, MAX_ROOMS);
    var id := if room.Some? then room.value else Rendered("room_", now, s.roomSeq + 1);
    PutKeeps(rs, Room(id, name, description, session, now, [session]));
  }

  lemma {:induction false} NotFound(rs: seq<Room>, id: string)
    requires RoomIndex(rs, id) == |rs|
    ensures forall i :: 0 <= i < |rs| ==> rs[i].id != id
    decreases rs
  {
    if rs != [] {
      NotFound(rs[1..], id);
      assert forall i :: 1 <= i < |rs| ==> rs[i] == rs[1..][i - 1];
    }
  }

  lemma PutKeeps(rs: seq<Room>, r: Room)
    requires RoomsOk(rs) && NoDup(r.members)
    ensures RoomsOk(PutRoom(rs, r)) && |PutRoom(rs, r)| <= |rs| + 1
  {
    if RoomIndex(rs, r.id) == |rs| {
      NotFound(rs, r.id);
    }
  }

  lemma StepKeeps(s: State, op: Op, now: nat)
    requires Inv(s)
    ensures Inv(Step(s, op, now).0)
  {
    hide Inv, OnRegister, OnDelete, OnRead, OnSend, OnBroadcast, OnRoomMessage, OnCreateRoom, OnJoin, OnLeave, OnDeleteRoom, OnSummarize;
    match op
    case Register(id, name, description) => RegisterKeeps(s, id, name, description, now);
    case SendMessage(from, to, d) => SendKeeps(s, from, to, d, now);
    case Broadcast(from, targets, d) => BroadcastKeeps(s, from, targets, d, now);
    case RoomMessage(from, room, d) => RoomMessageKeeps(s, from, room, d, now);
    case ReadMessages(q) => ReadKeeps(s, q, now);
    case DeleteSession(id, purge) => DeleteKeeps(s, id, purge);
    case CreateRoom(session, name, description, room) => CreateKeeps(s, session, name, description, room, now);
    case JoinRoom(session, room) => JoinKeeps(s, session, room);
    case LeaveRoom(session, room) => LeaveKeeps(s, session, room);
    case DeleteRoom(room, purge) => DeleteRoomKeeps(s, room, purge);
    case Summarize(session) => SummarizeKeeps(s, session, now);
  }

  lemma DeleteRoomKeeps(s: State, room: string, purge: bool)
    requires Inv(s)
    ensures Inv(OnDeleteRoom(s, room, purge).0)
  {
    hide MessagesOk, SessionsOk;
    KeepMessages(s.messages, (m: Message) => m.room != Some(room), s.msgSeq);
  }

  lemma SummarizeKeeps(s: State, session: string, now: nat)
    requires Inv(s)
    ensures Inv(OnSummarize(s, session, now).0)
  {
    hide MessagesOk, RoomsOk, SessionsOk, Touch;
    TouchKeeps(s.sessions, session, now);
  }

  lemma SendKeeps(s: State, from: string, to: string, d: Draft, now: nat)
    requires Inv(s)
    ensures Inv(OnSend(s, from, to, d, now).0)
  {
    hide MessagesOk, RoomsOk, SessionsOk, Post, Touch, DraftError;
    if OnSend(s, from, to, d, now).1.SentOne? {
      ReplyIsOlder(s, d, true);
      PostKeeps(s, from, to, None, d, now);
      TouchKeeps(s.sessions, from, now);
    }
  }

  lemma BroadcastKeeps(s: State, from: string, targets: Option<seq<string>>, d: Draft, now: nat)
    requires Inv(s)
    ensures Inv(OnBroadcast(s, from, targets, d, now).0)
  {
    hide MessagesOk, RoomsOk, SessionsOk, Fan, Touch, DraftError;
    if OnBroadcast(s, from, targets, d, now).1.SentMany? {
      ReplyIsOlder(s, d, false);
      var to := if targets.Some? && targets.value != [] then targets.value else Ids(Keep(s.sessions, (x: Session) => x.id != from));
      FanKeeps(Fanned(s, [], [], []), from, to, None, d, now);
      TouchKeeps(s.sessions, from, now);
    }
  }

  lemma RoomMessageKeeps(s: State, from: string, room: string, d: Draft, now: nat)
    requires Inv(s)
    ensures Inv(OnRoomMessage(s, from, room, d, now).0)
  {
    hide MessagesOk, RoomsOk, SessionsOk, Fan, Touch, DraftError;
    if OnRoomMessage(s, from, room, d, now).1.SentMany? {
      ReplyIsOlder(s, d, false);
      FanKeeps(Fanned(s, [], [], []), from, s.rooms[RoomIndex(s.rooms, room)].members, Some(room), d, now);
      TouchKeeps(s.sessions, from, now);
    }
  }

  lemma ReadKeeps(s: State, q: Query, now: nat)
    requires Inv(s)
    ensures Inv(OnRead(s, q, now).0)
  {
    hide MessagesOk, RoomsOk, SessionsOk, Touch, Found, MarkIn;
    MarkKeeps(s.messages, PageOf(Found(s.messages, q, now), q), q, now, s.msgSeq);
    TouchKeeps(s.sessions, q.session, now);
  }

  lemma JoinKeeps(s: State, session: string, room: string)
    requires Inv(s)
    ensures Inv(OnJoin(s, session, room).0)
  {
    hide MessagesOk, SessionsOk;
  }

  lemma LeaveKeeps(s: State, session: string, room: string)
    requires Inv(s)
    ensures Inv(OnLeave(s, session, room).0)
  {
    hide MessagesOk, SessionsOk;
    var i := RoomIndex(s.rooms, room);
    if i < |s.rooms| {
      KeepNoDup(s.rooms[i].members, (x: string) => x != session);
    }
  }

  /** In every run from the empty store. */
  lemma {:induction false} RunKeeps(s: State, calls: seq<Call>)
    requires Inv(s)
    ensures Inv(Run(s, calls))
    decreases calls
  {
    hide Inv, Step;
    if calls != [] {
      StepKeeps(s, calls[0].op, calls[0].now);
      RunKeeps(Step(s, calls[0].op, calls[0].now).0, calls[1..]);
    }
  }

  lemma EveryRunKeeps(calls: seq<Call>)
    ensures Inv(Run(EMPTY, calls))
  {
    RunKeeps(EMPTY, calls);
  }
}
