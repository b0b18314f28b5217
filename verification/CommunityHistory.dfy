/** What later steps of the community store may do to messages, ids, threads and memberships. */
module CommunityHistory {
  import opened Bytes
  import opened Lists
  import opened CommunityStore
  import opened CommunityTheorems

  // ---- messages over time ----------------------------------------------------------

  /** The same message, perhaps read in between; what was read stays as it is. */
  predicate Later(m: Message, n: Message) {
    n.(status := m.status, readAt := m.readAt) == m && (m.status == Read ==> n == m)
  }

  /** Each message of `t` is a later form of one of `s`, or newer than all that `s` ever held. */
  ghost predicate Follows(s: State, t: State) {
    && s.msgSeq <= t.msgSeq
    && forall n :: n in t.messages ==> n.id.seqNo > s.msgSeq || exists m :: m in s.messages && Later(m, n)
  }

  lemma FollowsItself(s: State)
    ensures Follows(s, s)
  {
    forall n | n in s.messages
      ensures exists m :: m in s.messages && Later(m, n)
    {
      assert Later(n, n);
    }
  }

  lemma FollowsOver(s: State, t: State, u: State)
    requires Follows(s, t) && Follows(t, u)
    ensures Follows(s, u)
  {
    forall n | n in u.messages
      ensures n.id.seqNo > s.msgSeq || exists m :: m in s.messages && Later(m, n)
    {
      if n.id.seqNo <= s.msgSeq {
        var k :| k in t.messages && Later(k, n);
        var m :| m in s.messages && Later(m, k);
        assert Later(m, n);
      }
    }
  }

  lemma PostFollows(s: State, from: string, to: string, room: Option<string>, d: Draft, now: nat)
    ensures Follows(s, Post(s, from, to, room, d, now))
  {
    forall m | m in EvictMessage(s.messages, now)
      ensures m in s.messages
    {
    }
    forall m | m in s.messages
      ensures Later(m, m)
    {
    }
  }

  lemma {:induction false} FanFollows(f: Fanned, from: string, targets: seq<string>, room: Option<string>, d: Draft, now: nat)
    ensures Follows(f.state, Fan(f, from, targets, room, d, now).state)
    decreases targets
  {
    hide Follows, Post;
    FollowsItself(f.state);
    if targets != [] {
      var g := FanOne(f, from, targets[0], room, d, now);
      PostFollows(f.state, from, targets[0], room, d, now);
      FanFollows(g, from, targets[1..], room, d, now);
      FollowsOver(f.state, g.state, Fan(g, from, targets[1..], room, d, now).state);
    }
  }

  /** Only messages and their counter matter. */
  lemma SameMessages(s: State, t: State, u: State)
    requires Follows(s, t) && u.messages == t.messages && u.msgSeq == t.msgSeq
    ensures Follows(s, u)
  {
  }

  lemma FewerMessages(s: State, t: State, p: Message -> bool)
    requires t.messages == Keep(s.messages, p) && t.msgSeq == s.msgSeq
    ensures Follows(s, t)
  {
    forall n | n in t.messages
      ensures exists m :: m in s.messages && Later(m, n)
    {
      KeepHas(s.messages, p, n);
      assert Later(n, n);
    }
  }

  lemma MarkedFollows(s: State, t: State, page: seq<Message>, q: Query, now: nat)
    requires t.messages == Each(s.messages, MarkIn(page, q, now)) && t.msgSeq == s.msgSeq
    ensures Follows(s, t)
  {
    forall n | n in t.messages
      ensures exists m :: m in s.messages && Later(m, n)
    {
      var i :| 0 <= i < |t.messages| && t.messages[i] == n;
      assert Later(s.messages[i], n);
    }
  }

  lemma StepFollows(s: State, op: Op, now: nat)
    ensures Follows(s, Step(s, op, now).0)
  {
    hide Follows, Fan, Post, DraftError, Touch, Found;
    FollowsItself(s);
    var t := Step(s, op, now).0;
    match op
    case SendMessage(from, to, d) =>
      PostFollows(s, from, to, None, d, now);
      if t != s { SameMessages(s, Post(s, from, to, None, d, now), t); }
    case Broadcast(from, targets, d) =>
      var to := if targets.Some? && targets.value != [] then targets.value else Ids(Keep(s.sessions, (x: Session) => x.id != from));
      FanFollows(Fanned(s, [], [], []), from, to, None, d, now);
      if t != s { SameMessages(s, Fan(Fanned(s, [], [], []), from, to, None, d, now).state, t); }
    case RoomMessage(from, room, d) =>
      var i := RoomIndex(s.rooms, room);
      if i < |s.rooms| {
        FanFollows(Fanned(s, [], [], []), from, s.rooms[i].members, Some(room), d, now);
        if t != s { SameMessages(s, Fan(Fanned(s, [], [], []), from, s.rooms[i].members, Some(room), d, now).state, t); }
      }
    case ReadMessages(q) =>
      if t != s { MarkedFollows(s, t, PageOf(Found(s.messages, q, now), q), q, now); }
    case DeleteSession(id, purge) =>
      if t != s && purge { FewerMessages(s, t, (m: Message) => !Mentions(m, id)); } else { SameMessages(s, s, t); }
    case DeleteRoom(room, purge) =>
      if t != s && purge { FewerMessages(s, t, (m: Message) => m.room != Some(room)); } else { SameMessages(s, s, t); }
    case _ => SameMessages(s, s, t);
  }

  /** Over whole runs: a message that has been read never changes again, and an id never comes back. */
  lemma {:induction false} RunFollows(s: State, calls: seq<Call>)
    ensures Follows(s, Run(s, calls))
    decreases calls
  {
    hide Follows, Step;
    if calls == [] {
      FollowsItself(s);
    } else {
      var t := Step(s, calls[0].op, calls[0].now).0;
      StepFollows(s, calls[0].op, calls[0].now);
      RunFollows(t, calls[1..]);
      FollowsOver(s, t, Run(t, calls[1..]));
    }
  }

  lemma NeverReverts(before: seq<Call>, after: seq<Call>, m: Message, n: Message)
    requires var s := Run(EMPTY, before);
             m in s.messages && n in Run(s, after).messages && n.id == m.id
    ensures Later(m, n)
  {
    var s := Run(EMPTY, before);
    EveryRunKeeps(before);
    RunFollows(s, after);
    hide Run;
    var i :| 0 <= i < |s.messages| && s.messages[i] == m;
    var k :| k in s.messages && Later(k, n);
    var j :| 0 <= j < |s.messages| && s.messages[j] == k;
    forall a, b | 0 <= a < b < |s.messages|
      ensures s.messages[a].id != s.messages[b].id
    {
      DifferentIds(s.messages, s.msgSeq, a, b);
    }
  }

  // ---- ids -------------------------------------------------------------------------

  predicate Ascending(ids: seq<MessageId>, low: nat, high: nat) {
    && low <= high
    && (forall i :: 0 <= i < |ids| ==> low < ids[i].seqNo <= high)
    && (forall i, j :: 0 <= i < j < |ids| ==> ids[i].seqNo < ids[j].seqNo)
  }

  function IdsGiven(r: Reply): seq<MessageId> {
    match r
    case SentOne(id) => [id]
    case SentMany(_, ids, _) => ids
    case _ => []
  }

  lemma {:induction false} FanIds(f: Fanned, from: string, targets: seq<string>, room: Option<string>, d: Draft, now: nat, low: nat)
    requires Ascending(f.ids, low, f.state.msgSeq) && |f.ids| == |f.sentTo|
    ensures var g := Fan(f, from, targets, room, d, now);
            Ascending(g.ids, low, g.state.msgSeq) && |g.ids| == |g.sentTo|
    decreases targets
  {
    if targets != [] {
      FanIds(FanOne(f, from, targets[0], room, d, now), from, targets[1..], room, d, now, low);
    }
  }

  /** The ids a call gives out are new, all different, and one for each addressee. */
  lemma FreshIds(s: State, op: Op, now: nat)
    ensures var (t, r) := Step(s, op, now);
            Ascending(IdsGiven(r), s.msgSeq, t.msgSeq) && (r.SentMany? ==> |r.ids| == |r.sentTo|)
  {
    hide Fan, DraftError, Touch, Found, EvictMessage;
    match op
    case Broadcast(from, targets, d) =>
      var to := if targets.Some? && targets.value != [] then targets.value else Ids(Keep(s.sessions, (x: Session) => x.id != from));
      FanIds(Fanned(s, [], [], []), from, to, None, d, now, s.msgSeq);
    case RoomMessage(from, room, d) =>
      var i := RoomIndex(s.rooms, room);
      if i < |s.rooms| {
        FanIds(Fanned(s, [], [], []), from, s.rooms[i].members, Some(room), d, now, s.msgSeq);
      }
    case _ =>
  }

  predicate Digits(s: string) {
    forall i :: 0 <= i < |s| ==> '0' <= s[i] <= '9'
  }

  lemma {:induction false} DecimalDigits(n: nat)
    ensures Decimal(n) != [] && Digits(Decimal(n))
    decreases n
  {
    if n >= 10 {
      DecimalDigits(n / 10);
    }
  }

  lemma {:induction false} DecimalOneToOne(m: nat, n: nat)
    requires Decimal(m) == Decimal(n)
    ensures m == n
    decreases m
  {
    DecimalDigits(m / 10);
    DecimalDigits(n / 10);
    var s := Decimal(m);
    assert s[|s| - 1] == (m % 10 + 48) as char == (n % 10 + 48) as char;
    if m >= 10 && n >= 10 {
      assert s[..|s| - 1] == Decimal(m / 10) == Decimal(n / 10);
      DecimalOneToOne(m / 10, n / 10);
    }
  }

  lemma NoMarkBefore(a: string, b: string, k: nat)
    requires Digits(a) && k < |a + "_" + b| && (a + "_" + b)[k] == '_'
    ensures k >= |a|
  {
  }

  lemma CutAtMark(a: string, b: string, c: string, d: string)
    requires Digits(a) && Digits(c) && a + "_" + b == c + "_" + d
    ensures a == c && b == d
  {
    var s, t := a + "_" + b, c + "_" + d;
    NoMarkBefore(a, b, |c|);
    NoMarkBefore(c, d, |a|);
    assert s[..|a|] == a && t[..|c|] == c && s[|a| + 1..] == b && t[|c| + 1..] == d;
  }

  /** Different ids are different strings. */
  lemma RenderedOneToOne(prefix: string, x: MessageId, y: MessageId)
    requires Rendered(prefix, x.at, x.seqNo) == Rendered(prefix, y.at, y.seqNo)
    ensures x == y
  {
    var a, c := Decimal(x.at) + "_" + Decimal(x.seqNo), Decimal(y.at) + "_" + Decimal(y.seqNo);
    assert (prefix + a)[|prefix|..] == a && (prefix + c)[|prefix|..] == c;
    assert prefix + Decimal(x.at) + "_" + Decimal(x.seqNo) == prefix + a;
    assert prefix + Decimal(y.at) + "_" + Decimal(y.seqNo) == prefix + c;
    DecimalDigits(x.at);
    DecimalDigits(y.at);
    CutAtMark(Decimal(x.at), Decimal(x.seqNo), Decimal(y.at), Decimal(y.seqNo));
    DecimalOneToOne(x.at, y.at);
    DecimalOneToOne(x.seqNo, y.seqNo);
  }

  // ---- threads ---------------------------------------------------------------------

  /** Each message answers the next one. */
  ghost predicate ReplyChain(chain: seq<Message>) {
    forall i, j {:trigger chain[i], chain[j]} :: 0 <= i && j == i + 1 && j < |chain| ==> chain[i].replyTo == Some(chain[j].id)
  }

  lemma {:induction false} ChainDescends(chain: seq<Message>)
    requires ReplyChain(chain) && |chain| >= 2 && forall i :: 0 <= i < |chain| ==> MessageOk(chain[i])
    ensures chain[|chain| - 1].id.seqNo < chain[0].id.seqNo
    decreases |chain|
  {
    assert chain[0].replyTo == Some(chain[1].id);
    if |chain| > 2 {
      ChainDescends(chain[1..]);
    }
  }

  /** In every run: following replies never comes back to where it started. */
  lemma ThreadsAcyclic(calls: seq<Call>, chain: seq<Message>)
    requires |chain| >= 2 && ReplyChain(chain) && forall m :: m in chain ==> m in Run(EMPTY, calls).messages
    ensures chain[|chain| - 1].id != chain[0].id
  {
    EveryRunKeeps(calls);
    hide Run;
    forall i | 0 <= i < |chain|
      ensures MessageOk(chain[i])
    {
      assert chain[i] in chain;
    }
    ChainDescends(chain);
  }

  // ---- deletion --------------------------------------------------------------------

  /** No session, no message and no membership bears the name. */
  ghost predicate Gone(s: State, id: string) {
    && (forall x :: x in s.sessions ==> x.id != id)
    && (forall m :: m in s.messages ==> !Mentions(m, id))
    && (forall r :: r in s.rooms ==> id !in r.members)
  }

  /** A room names a session as its creator or as a member. */
  predicate RoomNames(r: Room, id: string) {
    r.createdBy == id || id in r.members
  }

  /**
   A purging delete takes only what bears the name, and leaves no trace of it but on rooms: a room keeps
   everything except that member, so it still bears the name exactly when the session created it.
   */
  lemma DeleteLeavesNothing(s: State, id: string)
    requires HasSession(s.sessions, id)
    ensures var t := OnDelete(s, id, true).0;
            && Gone(t, id)
            && (forall m :: m in s.messages && !Mentions(m, id) ==> m in t.messages)
            && (forall x :: x in s.sessions && x.id != id ==> x in t.sessions)
            && |t.rooms| == |s.rooms|
            && (forall i, x {:trigger x in t.rooms[i].members} :: 0 <= i < |s.rooms| ==>
                  (x in t.rooms[i].members <==> x in s.rooms[i].members && x != id))
            && (forall i :: 0 <= i < |s.rooms| ==>
                  && t.rooms[i].(members := s.rooms[i].members) == s.rooms[i]
                  && (RoomNames(t.rooms[i], id) <==> s.rooms[i].createdBy == id))
  {
    var t := OnDelete(s, id, true).0;
    forall m
      ensures m in t.messages <==> m in s.messages && !Mentions(m, id)
    {
      KeepHas(s.messages, (m: Message) => !Mentions(m, id), m);
    }
    forall x
      ensures x in t.sessions <==> x in s.sessions && x.id != id
    {
      KeepHas(s.sessions, (x: Session) => x.id != id, x);
    }
    forall i, x | 0 <= i < |s.rooms|
      ensures x in t.rooms[i].members <==> x in s.rooms[i].members && x != id
    {
      KeepHas(s.rooms[i].members, (y: string) => y != id, x);
    }
  }

  /** A purging delete of a room leaves no message of it, and takes only those. */
  lemma DeleteRoomTakesItsMessages(s: State, room: string)
    requires Inv(s) && RoomIndex(s.rooms, room) < |s.rooms|
    ensures var t := OnDeleteRoom(s, room, true).0;
            && (forall m :: m in t.messages <==> m in s.messages && m.room != Some(room))
            && (forall r :: r in t.rooms <==> r in s.rooms && r.id != room)
  {
    hide SessionsOk, MessagesOk, RoomsOk, RoomIndex;
    var t, i := OnDeleteRoom(s, room, true).0, RoomIndex(s.rooms, room);
    forall m
      ensures m in t.messages <==> m in s.messages && m.room != Some(room)
    {
      KeepHas(s.messages, (m: Message) => m.room != Some(room), m);
    }
    RoomTakenOut(s.rooms, i);
  }

  lemma RoomTakenOut(rs: seq<Room>, i: nat)
    requires RoomsOk(rs) && i < |rs|
    ensures forall r :: r in rs[..i] + rs[i + 1..] <==> r in rs && r.id != rs[i].id
  {
    assert rs == rs[..i] + [rs[i]] + rs[i + 1..];
  }

  /** The name the store makes up for the next room, and the place of a room that has it already. */
  function NextRoomName(s: State, now: nat): string {
    Rendered("room_", now, s.roomSeq + 1)
  }

  predicate Taken(s: State, wanted: Option<string>, now: nat) {
    wanted.None? && RoomIndex(s.rooms, NextRoomName(s, now)) < |s.rooms|
  }

  /**
   Creating a room adds it behind the others exactly when there is space and no room has the name the
   store makes up. At the cap the oldest room goes; a room with the made-up name is replaced, unless it
   was that one.
   */
  lemma CreateRoomTakesIff(s: State, session: string, name: string, description: string, wanted: Option<string>, now: nat)
    requires Inv(s) && OnCreateRoom(s, session, name, description, wanted, now).1.RoomMade?
    ensures var r := OnCreateRoom(s, session, name, description, wanted, now);
            var rooms, made := r.0.rooms, Room(r.1.room, name, description, session, now, [session]);
            var full, taken, i := |s.rooms| == 500, Taken(s, wanted, now), RoomIndex(s.rooms, r.1.room);
            && (rooms == s.rooms + [made] <==> !full && !taken)
            && (full && !taken ==> rooms == s.rooms[1..] + [made])
            && (!full && taken ==> rooms == s.rooms[i := made])
            && (full && taken ==> rooms == if i == 0 then s.rooms[1..] + [made] else s.rooms[1..][i - 1 := made])
  {
    hide Rendered, NoDup;
    if |s.rooms| == MAX_ROOMS {
      var id := if wanted.Some? then wanted.value else NextRoomName(s, now);
      FirstRoomGone(s.rooms, id);
    }
  }

  lemma FirstRoomGone(rs: seq<Room>, id: string)
    requires RoomsOk(rs) && rs != []
    ensures var i := RoomIndex(rs, id);
            RoomIndex(rs[1..], id) == if i == 0 then |rs| - 1 else i - 1
  {
    assert forall k :: 0 <= k < |rs| - 1 ==> rs[1..][k].id == rs[k + 1].id;
  }

  /** Such a case: a caller takes the next made-up name first, and its room is then replaced by another's. */
  lemma MadeUpNameTaken()
    ensures var name := Rendered("room_", 5, 1);
            var before := Run(EMPTY, [Call(Register("a", "", ""), 0), Call(Register("b", "", ""), 0),
                                      Call(CreateRoom("a", "first", "", Some(name)), 0)]);
            && before.rooms == [Room(name, "first", "", "a", 0, ["a"])]
            && Step(before, CreateRoom("b", "second", "", None), 5).0.rooms == [Room(name, "second", "", "b", 5, ["b"])]
  {
    hide Rendered;
    var name := Rendered("room_", 5, 1);
    var one := OnRegister(EMPTY, "a", "", "", 0).0;
    assert one.sessions == [Session("a", "", "", 0, 0)];
    var two := OnRegister(one, "b", "", "", 0).0;
    assert "a" != "b";
    assert two.sessions == [Session("a", "", "", 0, 0), Session("b", "", "", 0, 0)];
    assert two.sessions[0].id == "a" && two.sessions[1].id == "b";
    var three := OnCreateRoom(two, "a", "first", "", Some(name), 0).0;
    var calls := [Call(Register("a", "", ""), 0), Call(Register("b", "", ""), 0), Call(CreateRoom("a", "first", "", Some(name)), 0)];
    RunThree(calls[0], calls[1], calls[2]);
    assert three.rooms == [Room(name, "first", "", "a", 0, ["a"])];
  }

  lemma RunThree(a: Call, b: Call, c: Call)
    ensures Run(EMPTY, [a, b]) == Step(Step(EMPTY, a.op, a.now).0, b.op, b.now).0
    ensures Run(EMPTY, [a, b, c]) == Step(Step(Step(EMPTY, a.op, a.now).0, b.op, b.now).0, c.op, c.now).0
  {
    hide Step;
    assert [a, b, c][1..] == [b, c] && [b, c][1..] == [c] && [c][1..] == [];
    assert [a, b][1..] == [b] && [b][1..] == [];
    var s := Step(EMPTY, a.op, a.now).0;
    assert Run(s, [b]) == Step(s, b.op, b.now).0;
    assert Run(Step(s, b.op, b.now).0, [c]) == Step(Step(s, b.op, b.now).0, c.op, c.now).0;
  }

  lemma PostGone(s: State, from: string, to: string, room: Option<string>, d: Draft, now: nat, id: string)
    requires Gone(s, id) && from != id && to != id
    ensures Gone(Post(s, from, to, room, d, now), id)
  {
    forall m | m in EvictMessage(s.messages, now)
      ensures m in s.messages
    {
    }
  }

  lemma {:induction false} FanGone(f: Fanned, from: string, targets: seq<string>, room: Option<string>, d: Draft, now: nat, id: string)
    requires Gone(f.state, id) && from != id
    requires room.Some? ==> id !in targets
    ensures var g := Fan(f, from, targets, room, d, now);
            Gone(g.state, id) && g.state.sessions == f.state.sessions && g.state.rooms == f.state.rooms
    decreases targets
  {
    hide Post;
    if targets != [] {
      var to := targets[0];
      var g := FanOne(f, from, to, room, d, now);
      PostAside(f.state, from, to, room, d, now);
      if to != id {
        PostGone(f.state, from, to, room, d, now, id);
      } else {
        assert !HasSession(f.state.sessions, id);
      }
      FanGone(g, from, targets[1..], room, d, now, id);
    }
  }

  lemma PostAside(s: State, from: string, to: string, room: Option<string>, d: Draft, now: nat)
    ensures var t := Post(s, from, to, room, d, now); t.sessions == s.sessions && t.rooms == s.rooms
  {
  }

  lemma TouchGone(ss: seq<Session>, other: string, now: nat, id: string)
    requires forall x :: x in ss ==> x.id != id
    ensures forall x :: x in Touch(ss, other, now) ==> x.id != id
  {
  }

  lemma NotThere(s: State, id: string)
    requires Gone(s, id)
    ensures !HasSession(s.sessions, id)
  {
  }

  lemma SendGone(s: State, op: Op, now: nat, id: string)
    requires Gone(s, id) && (op.SendMessage? || op.Broadcast? || op.RoomMessage?)
    ensures Gone(Step(s, op, now).0, id)
  {
    hide Fan, Post, DraftError, Touch;
    NotThere(s, id);
    match op
    case SendMessage(from, to, d) =>
      if from != id && to != id {
        PostGone(s, from, to, None, d, now, id);
        PostAside(s, from, to, None, d, now);
      }
      TouchGone(s.sessions, from, now, id);
    case Broadcast(from, targets, d) =>
      var to := if targets.Some? && targets.value != [] then targets.value else Ids(Keep(s.sessions, (x: Session) => x.id != from));
      if from != id {
        FanGone(Fanned(s, [], [], []), from, to, None, d, now, id);
      }
      TouchGone(s.sessions, from, now, id);
    case RoomMessage(from, room, d) =>
      var i := RoomIndex(s.rooms, room);
      if from != id && i < |s.rooms| {
        FanGone(Fanned(s, [], [], []), from, s.rooms[i].members, Some(room), d, now, id);
      }
      TouchGone(s.sessions, from, now, id);
  }

  lemma ReadGone(s: State, q: Query, now: nat, id: string)
    requires Gone(s, id)
    ensures Gone(OnRead(s, q, now).0, id)
  {
    hide Found, Touch;
    var t := OnRead(s, q, now).0;
    TouchGone(s.sessions, q.session, now, id);
    forall n | n in t.messages
      ensures !Mentions(n, id)
    {
      var i :| 0 <= i < |t.messages| && t.messages[i] == n;
      assert s.messages[i] in s.messages;
    }
  }

  lemma DeleteGone(s: State, other: string, purge: bool, id: string)
    requires Gone(s, id)
    ensures Gone(OnDelete(s, other, purge).0, id)
  {
    var t := OnDelete(s, other, purge).0;
    forall m | m in t.messages
      ensures m in s.messages
    {
      KeepHas(s.messages, (m: Message) => !Mentions(m, other), m);
    }
    forall x | x in t.sessions
      ensures x in s.sessions
    {
      KeepHas(s.sessions, (x: Session) => x.id != other, x);
    }
    forall r | r in t.rooms
      ensures id !in r.members
    {
      if r !in s.rooms {
        var i :| 0 <= i < |s.rooms| && r == Without(s.rooms[i], other);
        KeepHas(s.rooms[i].members, (y: string) => y != other, id);
      }
    }
  }

  lemma RoomGone(s: State, op: Op, now: nat, id: string)
    requires Gone(s, id) && (op.CreateRoom? || op.JoinRoom? || op.LeaveRoom?)
    ensures Gone(Step(s, op, now).0, id)
  {
    hide Rendered;
    NotThere(s, id);
    if op.LeaveRoom? {
      var i := RoomIndex(s.rooms, op.room);
      if i < |s.rooms| {
        KeepHas(s.rooms[i].members, (y: string) => y != op.session, id);
      }
    }
  }

  lemma DeleteRoomGone(s: State, room: string, purge: bool, id: string)
    requires Gone(s, id)
    ensures Gone(OnDeleteRoom(s, room, purge).0, id)
  {
    var t := OnDeleteRoom(s, room, purge).0;
    forall m | m in t.messages
      ensures m in s.messages
    {
      KeepHas(s.messages, (m: Message) => m.room != Some(room), m);
    }
  }

  lemma StepGone(s: State, op: Op, now: nat, id: string)
    requires Gone(s, id) && !(op.Register? && op.session == id)
    ensures Gone(Step(s, op, now).0, id)
  {
    if op.SendMessage? || op.Broadcast? || op.RoomMessage? {
      SendGone(s, op, now, id);
    } else if op.CreateRoom? || op.JoinRoom? || op.LeaveRoom? {
      RoomGone(s, op, now, id);
    } else if op.ReadMessages? {
      ReadGone(s, op.query, now, id);
    } else if op.DeleteSession? {
      DeleteGone(s, op.session, op.purge, id);
    } else if op.DeleteRoom? {
      DeleteRoomGone(s, op.room, op.purge, id);
    } else if op.Summarize? {
      TouchGone(s.sessions, op.session, now, id);
    }
  }

  /** After a purging delete, and until someone registers the name again, it stays gone in every run. */
  lemma {:induction false} GoneStaysGone(s: State, calls: seq<Call>, id: string)
    requires Gone(s, id) && forall c :: c in calls ==> !(c.op.Register? && c.op.session == id)
    ensures Gone(Run(s, calls), id)
    decreases calls
  {
    hide Gone, Step;
    if calls != [] {
      assert calls[0] in calls;
      StepGone(s, calls[0].op, calls[0].now, id);
      GoneStaysGone(Step(s, calls[0].op, calls[0].now).0, calls[1..], id);
    }
  }

  // ---- members are sessions, or not ------------------------------------------------

  ghost predicate MembersLive(s: State) {
    forall i, x {:trigger x in s.rooms[i].members} :: 0 <= i < |s.rooms| && x in s.rooms[i].members ==> HasSession(s.sessions, x)
  }

  /** A new session pushes out the oldest one while some room still lists that one. */
  ghost predicate EvictsMember(s: State, op: Op) {
    && op.Register? && !HasSession(s.sessions, op.session) && |s.sessions| >= MAX_SESSIONS
    && exists r :: r in s.rooms && s.sessions[0].id in r.members
  }

  lemma TouchSame(ss: seq<Session>, id: string, now: nat, x: string)
    ensures HasSession(Touch(ss, id, now), x) <==> HasSession(ss, x)
  {
    var tt := Touch(ss, id, now);
    assert forall i :: 0 <= i < |ss| ==> tt[i].id == ss[i].id;
  }

  /** With the same rooms, and every session still there, members stay live. */
  lemma SameRooms(s: State, t: State)
    requires MembersLive(s) && t.rooms == s.rooms
    requires forall x :: HasSession(s.sessions, x) ==> HasSession(t.sessions, x)
    ensures MembersLive(t)
  {
    hide HasSession;
  }

  lemma MessageOpLive(s: State, op: Op, now: nat)
    requires MembersLive(s) && (op.SendMessage? || op.Broadcast? || op.RoomMessage? || op.ReadMessages? || op.Summarize?)
    ensures MembersLive(Step(s, op, now).0)
  {
    hide MembersLive, HasSession, Post, Fan, DraftError, Touch, Found;
    var t, who := Step(s, op, now).0, if op.ReadMessages? then op.query.session else if op.Summarize? then op.session else op.from;
    forall x
      ensures HasSession(Touch(s.sessions, who, now), x) <==> HasSession(s.sessions, x)
    {
      TouchSame(s.sessions, who, now, x);
    }
    if op.SendMessage? {
      PostAside(s, op.from, op.to, None, op.draft, now);
    } else if op.Broadcast? {
      var to := if op.targets.Some? && op.targets.value != [] then op.targets.value
                else Ids(Keep(s.sessions, (x: Session) => x.id != op.from));
      FanAside(Fanned(s, [], [], []), op.from, to, None, op.draft, now);
    } else if op.RoomMessage? {
      var i := RoomIndex(s.rooms, op.room);
      if i < |s.rooms| {
        FanAside(Fanned(s, [], [], []), op.from, s.rooms[i].members, Some(op.room), op.draft, now);
      }
    }
    SameRooms(s, t);
  }

  lemma {:induction false} FanAside(f: Fanned, from: string, targets: seq<string>, room: Option<string>, d: Draft, now: nat)
    ensures var g := Fan(f, from, targets, room, d, now);
            g.state.sessions == f.state.sessions && g.state.rooms == f.state.rooms
    decreases targets
  {
    hide Post;
    if targets != [] {
      PostAside(f.state, from, targets[0], room, d, now);
      FanAside(FanOne(f, from, targets[0], room, d, now), from, targets[1..], room, d, now);
    }
  }

  lemma DeleteLive(s: State, id: string, purge: bool)
    requires MembersLive(s)
    ensures MembersLive(OnDelete(s, id, purge).0)
  {
    var t := OnDelete(s, id, purge).0;
    if HasSession(s.sessions, id) {
      forall i, x {:trigger x in t.rooms[i].members} | 0 <= i < |t.rooms| && x in t.rooms[i].members
        ensures HasSession(t.sessions, x)
      {
        KeepHas(s.rooms[i].members, (y: string) => y != id, x);
        var k :| 0 <= k < |s.sessions| && s.sessions[k].id == x;
        KeepHas(s.sessions, (y: Session) => y.id != id, s.sessions[k]);
        var j :| 0 <= j < |t.sessions| && t.sessions[j] == s.sessions[k];
      }
    }
  }

  lemma RoomOpLive(s: State, op: Op, now: nat)
    requires MembersLive(s) && (op.CreateRoom? || op.JoinRoom? || op.LeaveRoom?)
    ensures MembersLive(Step(s, op, now).0)
  {
    hide Rendered, HasSession;
    var t := Step(s, op, now).0;
    forall i, x {:trigger x in t.rooms[i].members} | 0 <= i < |t.rooms| && x in t.rooms[i].members
      ensures HasSession(t.sessions, x)
    {
      if op.LeaveRoom? && i == RoomIndex(s.rooms, op.room) {
        KeepHas(s.rooms[i].members, (y: string) => y != op.session, x);
      }
    }
  }

  lemma DeleteRoomLive(s: State, room: string, purge: bool)
    requires MembersLive(s)
    ensures MembersLive(OnDeleteRoom(s, room, purge).0)
  {
    hide HasSession;
    var t, i := OnDeleteRoom(s, room, purge).0, RoomIndex(s.rooms, room);
    if i < |s.rooms| {
      forall k, x {:trigger x in t.rooms[k].members} | 0 <= k < |t.rooms| && x in t.rooms[k].members
        ensures HasSession(t.sessions, x)
      {
        assert t.rooms[k] == s.rooms[if k < i then k else k + 1];
        assert x in s.rooms[if k < i then k else k + 1].members;
      }
    }
  }

  lemma RegisterLive(s: State, id: string, name: string, description: string, now: nat)
    requires SessionsOk(s.sessions) && MembersLive(s)
    ensures MembersLive(OnRegister(s, id, name, description, now).0) <==> !EvictsMember(s, Register(id, name, description))
  {
    var t := OnRegister(s, id, name, description, now).0;
    if HasSession(s.sessions, id) || |s.sessions| < MAX_SESSIONS {
      forall x | HasSession(s.sessions, x)
        ensures HasSession(t.sessions, x)
      {
        var k :| 0 <= k < |s.sessions| && s.sessions[k].id == x;
        assert t.sessions[k].id == x;
      }
      SameRooms(s, t);
    } else {
      var oldest := s.sessions[0].id;
      forall x
        ensures HasSession(t.sessions, x) <==> (x == id || (HasSession(s.sessions, x) && x != oldest))
      {
        PushedOut(s.sessions, t.sessions, id, x);
      }
      PushedMembers(s, t, id, oldest);
    }
  }

  lemma PushedOut(ss: seq<Session>, tt: seq<Session>, id: string, x: string)
    requires SessionsOk(ss) && ss != [] && !HasSession(ss, id) && |tt| == |ss| && tt[|ss| - 1].id == id && tt[..|ss| - 1] == ss[1..]
    ensures HasSession(tt, x) <==> (x == id || (HasSession(ss, x) && x != ss[0].id))
  {
    assert forall k :: 0 <= k < |ss| - 1 ==> tt[k] == tt[..|ss| - 1][k] == ss[k + 1];
    if HasSession(ss, x) && x != ss[0].id {
      var k :| 0 <= k < |ss| && ss[k].id == x;
      assert tt[k - 1].id == x;
    }
    if HasSession(tt, x) && x != id {
      var k :| 0 <= k < |tt| && tt[k].id == x;
      assert ss[k + 1].id == x && OtherSession(ss[0], ss[k + 1]);
    }
  }

  lemma PushedMembers(s: State, t: State, id: string, oldest: string)
    requires MembersLive(s) && t.rooms == s.rooms && oldest != id
    requires forall x :: HasSession(t.sessions, x) <==> (x == id || (HasSession(s.sessions, x) && x != oldest))
    ensures MembersLive(t) <==> !exists r :: r in s.rooms && oldest in r.members
  {
    hide HasSession;
    if r :| r in s.rooms && oldest in r.members {
      var i :| 0 <= i < |s.rooms| && s.rooms[i] == r;
      assert oldest in t.rooms[i].members;
    } else {
      forall i, x {:trigger x in t.rooms[i].members} | 0 <= i < |t.rooms| && x in t.rooms[i].members
        ensures HasSession(t.sessions, x)
      {
        assert x in s.rooms[i].members && s.rooms[i] in s.rooms;
      }
    }
  }

  /** One call, in a store that has kept it so far, leaves a room with a member that is no session exactly here. */
  lemma MembersLiveUnless(s: State, op: Op, now: nat)
    requires Inv(s) && MembersLive(s)
    ensures MembersLive(Step(s, op, now).0) <==> !EvictsMember(s, op)
  {
    hide MembersLive, EvictsMember;
    if op.Register? {
      RegisterLive(s, op.session, op.name, op.description, now);
    } else {
      OnlyRegisters(s, op);
      if op.CreateRoom? || op.JoinRoom? || op.LeaveRoom? {
        RoomOpLive(s, op, now);
      } else if op.DeleteSession? {
        DeleteLive(s, op.session, op.purge);
      } else if op.DeleteRoom? {
        DeleteRoomLive(s, op.room, op.purge);
      } else {
        MessageOpLive(s, op, now);
      }
    }
  }

  lemma OnlyRegisters(s: State, op: Op)
    requires !op.Register?
    ensures !EvictsMember(s, op)
  {
  }

  ghost predicate NeverEvictsMember(s: State, calls: seq<Call>)
    decreases calls
  {
    calls == [] || (!EvictsMember(s, calls[0].op) && NeverEvictsMember(Step(s, calls[0].op, calls[0].now).0, calls[1..]))
  }

  /** So in every run without such a call, every member of every room is a session throughout. */
  lemma {:induction false} MembersLiveInRuns(s: State, calls: seq<Call>)
    requires Inv(s) && MembersLive(s) && NeverEvictsMember(s, calls)
    ensures MembersLive(Run(s, calls))
    decreases calls
  {
    hide Inv, MembersLive, Step, EvictsMember;
    if calls != [] {
      StepKeeps(s, calls[0].op, calls[0].now);
      MembersLiveUnless(s, calls[0].op, calls[0].now);
      MembersLiveInRuns(Step(s, calls[0].op, calls[0].now).0, calls[1..]);
    }
  }

  // ---- a run that leaves a member that is no session -------------------------------

  function RegisterNumber(n: nat): Call {
    Call(Register(Decimal(n), "", ""), 0)
  }

  /** Sessions 0 up to n, oldest first. */
  ghost predicate Numbered(s: State, n: nat) {
    |s.sessions| == n && forall i :: 0 <= i < n ==> s.sessions[i].id == Decimal(i)
  }

  /** Registrations under the numbers from `from` on. */
  function Registrations(from: nat, count: nat): seq<Call>
    decreases count
  {
    if count == 0 then [] else [RegisterNumber(from)] + Registrations(from + 1, count - 1)
  }

  lemma RegisterNext(s: State, n: nat)
    requires Numbered(s, n)
    ensures !HasSession(s.sessions, Decimal(n))
    ensures n < MAX_SESSIONS ==>
      var t := Step(s, RegisterNumber(n).op, 0).0; Numbered(t, n + 1) && t.rooms == s.rooms
  {
    hide Decimal;
    forall i | 0 <= i < n
      ensures Decimal(i) != Decimal(n)
    {
      if Decimal(i) == Decimal(n) {
        DecimalOneToOne(i, n);
      }
    }
  }

  lemma {:induction false} RegisterMany(s: State, from: nat, count: nat)
    requires Numbered(s, from) && from + count <= MAX_SESSIONS
    ensures var t := Run(s, Registrations(from, count)); Numbered(t, from + count) && t.rooms == s.rooms
    decreases count
  {
    hide Numbered, Step, RegisterNumber;
    if count > 0 {
      var calls := Registrations(from, count);
      assert calls[0] == RegisterNumber(from) && calls[1..] == Registrations(from + 1, count - 1);
      RegisterNext(s, from);
      NumberedAtZero(from);
      RegisterMany(Step(s, calls[0].op, 0).0, from + 1, count - 1);
    }
  }

  lemma NumberedAtZero(n: nat)
    ensures RegisterNumber(n).now == 0
  {
  }

  lemma {:induction false} RunConcat(s: State, a: seq<Call>, b: seq<Call>)
    ensures Run(s, a + b) == Run(Run(s, a), b)
    decreases a
  {
    hide Step;
    if a == [] {
      assert a + b == b;
    } else {
      assert (a + b)[1..] == a[1..] + b;
      RunConcat(Step(s, a[0].op, a[0].now).0, a[1..], b);
    }
  }

  /** One session that creates a room, as many more as there is space for, and then one more. */
  function OneSessionTooMany(): seq<Call> {
    ([RegisterNumber(0), Call(CreateRoom(Decimal(0), "", "", Some("r")), 0)] + Registrations(1, MAX_SESSIONS - 1))
      + [RegisterNumber(MAX_SESSIONS)]
  }

  lemma RoomOfFirst()
    ensures var s := Run(EMPTY, [RegisterNumber(0), Call(CreateRoom(Decimal(0), "", "", Some("r")), 0)]);
            Numbered(s, 1) && s.rooms == [Room("r", "", "", Decimal(0), 0, [Decimal(0)])]
  {
    hide Decimal;
    var a, b := RegisterNumber(0), Call(CreateRoom(Decimal(0), "", "", Some("r")), 0);
    RunThree(a, b, b);
    var one := OnRegister(EMPTY, Decimal(0), "", "", 0).0;
    assert one.sessions == [Session(Decimal(0), "", "", 0, 0)];
    assert one.sessions[0].id == Decimal(0);
    var two := OnCreateRoom(one, Decimal(0), "", "", Some("r"), 0).0;
    assert two.rooms == [Room("r", "", "", Decimal(0), 0, [Decimal(0)])];
  }

  /** That run ends with a room whose member, and creator, is no session. */
  lemma DeadMemberReached()
    ensures var s := Run(EMPTY, OneSessionTooMany());
            !MembersLive(s) && s.rooms == [Room("r", "", "", Decimal(0), 0, [Decimal(0)])] && !HasSession(s.sessions, Decimal(0))
  {
    hide Run, Registrations, RegisterNumber, Decimal, Inv, MembersLive;
    var start := [RegisterNumber(0), Call(CreateRoom(Decimal(0), "", "", Some("r")), 0)];
    var more := Registrations(1, MAX_SESSIONS - 1);
    RoomOfFirst();
    RegisterMany(Run(EMPTY, start), 1, MAX_SESSIONS - 1);
    RunConcat(EMPTY, start, more);
    RunConcat(EMPTY, start + more, [RegisterNumber(MAX_SESSIONS)]);
    var s := Run(EMPTY, start + more);
    EveryRunKeeps(start + more);
    LastOneIn(s);
  }

  lemma LastOneIn(s: State)
    requires Inv(s) && Numbered(s, MAX_SESSIONS) && s.rooms == [Room("r", "", "", Decimal(0), 0, [Decimal(0)])]
    ensures var t := Run(s, [RegisterNumber(MAX_SESSIONS)]);
            !MembersLive(t) && t.rooms == s.rooms && !HasSession(t.sessions, Decimal(0))
  {
    hide Inv, Decimal;
    var call := RegisterNumber(MAX_SESSIONS);
    assert [call][1..] == [];
    var t := Step(s, call.op, 0).0;
    assert Run(s, [call]) == t;
    RegisterNext(s, MAX_SESSIONS);
    forall i | 0 <= i < |t.sessions|
      ensures t.sessions[i].id != Decimal(0)
    {
      assert t.sessions[i].id == Decimal(i + 1);
      if Decimal(i + 1) == Decimal(0) {
        DecimalOneToOne(i + 1, 0);
      }
    }
    assert Decimal(0) in t.rooms[0].members;
  }
}
