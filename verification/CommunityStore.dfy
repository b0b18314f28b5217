/**
 The in-memory store of sessions, messages and rooms: every operation as a function from state to
 state, and as a method over the store's own fields. Lists are in insertion order, as the maps are.
 */
module CommunityStore {
  import opened Bytes
  import opened Lists
  import S = Sorting

  const MAX_SESSIONS: nat := 1_000
  const MAX_MESSAGES: nat := 100_000
  const MAX_ROOMS: nat := 500
  const MAX_PAGE_SIZE: int := 100

  /** Rendered as text when given out; see Rendered. */
  datatype MessageId = MessageId(at: nat, seqNo: nat)

  datatype Session = Session(id: string, name: string, description: string, createdAt: nat, lastSeenAt: nat)

  datatype Status = Unread | Read

  datatype Message = Message(id: MessageId, from: string, to: string, room: Option<string>, body: string, sentAt: nat,
                             expiresAt: Option<nat>, replyTo: Option<MessageId>, readAt: Option<nat>, status: Status)

  datatype Room = Room(id: string, name: string, description: string, createdBy: string, createdAt: nat, members: seq<string>)

  datatype State = State(sessions: seq<Session>, messages: seq<Message>, rooms: seq<Room>, msgSeq: nat, roomSeq: nat)

  const EMPTY: State := State([], [], [], 0, 0)

  /** What the caller says about a message apart from its addressee; the lifetime in milliseconds. */
  datatype Draft = Draft(body: string, ttl: Option<int>, replyTo: Option<MessageId>)

  datatype Folder = Inbox | Sent | All

  datatype Query = Query(session: string, folder: Folder, page: int, pageSize: int, markRead: bool, threadOf: Option<MessageId>)

  datatype Error = NoSession(id: string) | NoMessage(reply: MessageId) | NoRoom(room: string) | ToSelf | BadTtl | RoomExists | NotMember

  datatype Reply = Refused(error: Error)
                 | Registered(existed: bool)
                 | SentOne(id: MessageId)
                 | SentMany(sentTo: seq<string>, ids: seq<MessageId>, failed: seq<string>)
                 | Page(total: nat, unreadBefore: nat, unreadAfter: nat, readNow: nat, shown: seq<Message>)
                 | Deleted(messages: nat)
                 | RoomMade(room: string)
                 | Members(count: nat)
                 | Summary(inbox: nat, unread: nat)
                 | NoInbox

  datatype Op = Register(session: string, name: string, description: string)
              | SendMessage(from: string, to: string, draft: Draft)
              | Broadcast(from: string, targets: Option<seq<string>>, draft: Draft)
              | RoomMessage(from: string, room: string, draft: Draft)
              | ReadMessages(query: Query)
              | DeleteSession(session: string, purge: bool)
              | CreateRoom(session: string, name: string, description: string, wanted: Option<string>)
              | JoinRoom(session: string, room: string)
              | LeaveRoom(session: string, room: string)
              | DeleteRoom(room: string, purge: bool)
              | Summarize(session: string)

  // ---- names -----------------------------------------------------------------------

  function Decimal(n: nat): string {
    if n < 10 then [(n + 48) as char] else Decimal(n / 10) + [(n % 10 + 48) as char]
  }

  function Rendered(prefix: string, at: nat, seqNo: nat): string {
    prefix + Decimal(at) + "_" + Decimal(seqNo)
  }

  // ---- lookups ---------------------------------------------------------------------

  predicate HasSession(ss: seq<Session>, id: string) {
    exists i :: 0 <= i < |ss| && ss[i].id == id
  }

  predicate HasMessage(ms: seq<Message>, id: MessageId) {
    exists i :: 0 <= i < |ms| && ms[i].id == id
  }

  /** The index of a room, or the number of rooms. */
  function RoomIndex(rs: seq<Room>, id: string): (i: nat)
    ensures i <= |rs| && (i < |rs| ==> rs[i].id == id)
  {
    if rs == [] || rs[0].id == id then 0 else 1 + RoomIndex(rs[1..], id)
  }

  predicate Expired(m: Message, now: nat) {
    m.expiresAt.Some? && m.expiresAt.value < now
  }

  // ---- eviction --------------------------------------------------------------------

  function FirstExpired(ms: seq<Message>, now: nat): (i: nat)
    ensures i <= |ms| && (i < |ms| ==> Expired(ms[i], now))
    ensures forall k :: 0 <= k < i ==> !Expired(ms[k], now)
  {
    if ms == [] || Expired(ms[0], now) then 0 else 1 + FirstExpired(ms[1..], now)
  }

  /** The first expired message goes, or else the oldest. */
  function EvictMessage(ms: seq<Message>, now: nat): seq<Message> {
    if ms == [] then []
    else
      var i := FirstExpired(ms, now);
      if i < |ms| then ms[..i] + ms[i + 1..] else ms[1..]
  }

  function RoomFor<T>(s: seq<T>, cap: nat): seq<T> {
    if |s| >= cap && s != [] then s[1..] else s
  }

  // ---- sessions --------------------------------------------------------------------

  function Touch(ss: seq<Session>, id: string, now: nat): seq<Session> {
    Each(ss, (x: Session) => if x.id == id then x.(lastSeenAt := now) else x)
  }

  function OnRegister(s: State, id: string, name: string, description: string, now: nat): (State, Reply) {
    if HasSession(s.sessions, id) then
      var refresh := (x: Session) => if x.id == id then x.(name := name, description := description, lastSeenAt := now) else x;
      (s.(sessions := Each(s.sessions, refresh)), Registered(true))
    else
      (s.(sessions := RoomFor(s.sessions, MAX_SESSIONS) + [Session(id, name, description, now, now)]), Registered(false))
  }

  function Without(r: Room, session: string): Room {
    r.(members := Keep(r.members, (x: string) => x != session))
  }

  predicate Mentions(m: Message, session: string) {
    m.from == session || m.to == session
  }

  function OnDelete(s: State, id: string, purge: bool): (State, Reply) {
    if !HasSession(s.sessions, id) then (s, Refused(NoSession(id)))
    else
      var left := if purge then Keep(s.messages, (m: Message) => !Mentions(m, id)) else s.messages;
      var t := s.(rooms := Each(s.rooms, (r: Room) => Without(r, id)),
                  sessions := Keep(s.sessions, (x: Session) => x.id != id),
                  messages := left);
      (t, Deleted(if |left| <= |s.messages| then |s.messages| - |left| else 0))
  }

  // ---- sending ---------------------------------------------------------------------

  /** The checks on a draft, in the order of the two that follow a sender check. */
  function DraftError(s: State, d: Draft, replyFirst: bool): Option<Error> {
    var noReply := d.replyTo.Some? && !HasMessage(s.messages, d.replyTo.value);
    var badTtl := d.ttl.Some? && d.ttl.value <= 0;
    if noReply && (replyFirst || !badTtl) then Some(NoMessage(d.replyTo.value))
    else if badTtl then Some(BadTtl)
    else None
  }

  function ExpiresAt(d: Draft, now: nat): Option<nat> {
    if d.ttl.Some? && d.ttl.value > 0 then Some(now + d.ttl.value) else None
  }

  /** One message stored, after making room for it. */
  function Post(s: State, from: string, to: string, room: Option<string>, d: Draft, now: nat): State {
    var kept := if |s.messages| >= MAX_MESSAGES then EvictMessage(s.messages, now) else s.messages;
    var m := Message(MessageId(now, s.msgSeq + 1), from, to, room, d.body, now, ExpiresAt(d, now), d.replyTo, None, Unread);
    s.(messages := kept + [m], msgSeq := s.msgSeq + 1)
  }

  function OnSend(s: State, from: string, to: string, d: Draft, now: nat): (State, Reply) {
    if !HasSession(s.sessions, from) then (s, Refused(NoSession(from)))
    else if !HasSession(s.sessions, to) then (s, Refused(NoSession(to)))
    else if from == to then (s, Refused(ToSelf))
    else if DraftError(s, d, true).Some? then (s, Refused(DraftError(s, d, true).value))
    else
      var t := Post(s, from, to, None, d, now);
      (t.(sessions := Touch(t.sessions, from, now)), SentOne(MessageId(now, t.msgSeq)))
  }

  datatype Fanned = Fanned(state: State, sentTo: seq<string>, ids: seq<MessageId>, failed: seq<string>)

  /** A broadcast checks each addressee, a room message none of them. */
  function Fan(f: Fanned, from: string, targets: seq<string>, room: Option<string>, d: Draft, now: nat): Fanned
    decreases targets
  {
    if targets == [] then f else Fan(FanOne(f, from, targets[0], room, d, now), from, targets[1..], room, d, now)
  }

  function FanOne(f: Fanned, from: string, to: string, room: Option<string>, d: Draft, now: nat): Fanned {
    if to == from then f
    else if room.None? && !HasSession(f.state.sessions, to) then f.(failed := f.failed + [to])
    else
      var t := Post(f.state, from, to, room, d, now);
      Fanned(t, f.sentTo + [to], f.ids + [MessageId(now, t.msgSeq)], f.failed)
  }

  function OnBroadcast(s: State, from: string, targets: Option<seq<string>>, d: Draft, now: nat): (State, Reply) {
    if !HasSession(s.sessions, from) then (s, Refused(NoSession(from)))
    else if DraftError(s, d, false).Some? then (s, Refused(DraftError(s, d, false).value))
    else
      var to := if targets.Some? && targets.value != [] then targets.value else Ids(Keep(s.sessions, (x: Session) => x.id != from));
      var f := Fan(Fanned(s, [], [], []), from, to, None, d, now);
      (f.state.(sessions := Touch(s.sessions, from, now)), SentMany(f.sentTo, f.ids, f.failed))
  }

  function Ids(ss: seq<Session>): (r: seq<string>)
    ensures |r| == |ss| && forall i :: 0 <= i < |ss| ==> r[i] == ss[i].id
  {
    seq(|ss|, i requires 0 <= i < |ss| => ss[i].id)
  }

  function OnRoomMessage(s: State, from: string, room: string, d: Draft, now: nat): (State, Reply) {
    var i := RoomIndex(s.rooms, room);
    if !HasSession(s.sessions, from) then (s, Refused(NoSession(from)))
    else if i == |s.rooms| then (s, Refused(NoRoom(room)))
    else if from !in s.rooms[i].members then (s, Refused(NotMember))
    else if DraftError(s, d, false).Some? then (s, Refused(DraftError(s, d, false).value))
    else
      var f := Fan(Fanned(s, [], [], []), from, s.rooms[i].members, Some(room), d, now);
      (f.state.(sessions := Touch(s.sessions, from, now)), SentMany(f.sentTo, f.ids, []))
  }

  // ---- reading ---------------------------------------------------------------------

  function PageNumber(page: int): int {
    if page < 1 then 1 else page
  }

  /** Zero counts as not given. */
  function PageSize(size: int): (r: int)
    ensures 1 <= r <= MAX_PAGE_SIZE
  {
    if size == 0 then 20 else if size < 1 then 1 else if size > MAX_PAGE_SIZE then MAX_PAGE_SIZE else size
  }

  predicate Visible(q: Query, m: Message, now: nat) {
    && !Expired(m, now)
    && (if q.threadOf.Some? || q.folder.All? then Mentions(m, q.session)
        else if q.folder.Inbox? then m.to == q.session
        else m.from == q.session)
    && (q.threadOf.Some? ==> m.replyTo == q.threadOf || m.id == q.threadOf.value)
  }

  function SentAt(m: Message): int {
    m.sentAt
  }

  /** All messages the query is about, by the time they were sent. */
  function Found(ms: seq<Message>, q: Query, now: nat): seq<Message> {
    S.Sort(Keep(ms, (m: Message) => Visible(q, m, now)), SentAt)
  }

  predicate UnreadBy(m: Message, session: string) {
    m.to == session && m.status == Unread
  }

  function UnreadCount(ms: seq<Message>, session: string): nat {
    Count(ms, (m: Message) => UnreadBy(m, session))
  }

  function Clip(n: int, size: nat): (r: nat)
    ensures r <= size
  {
    if n < 0 then 0 else if n > size then size else n
  }

  function First(q: Query, size: nat): nat {
    Clip((PageNumber(q.page) - 1) * PageSize(q.pageSize), size)
  }

  function Last(q: Query, size: nat): (r: nat)
    ensures First(q, size) <= r <= size
  {
    assert (PageNumber(q.page) - 1) * PageSize(q.pageSize) + PageSize(q.pageSize) >= (PageNumber(q.page) - 1) * PageSize(q.pageSize);
    Clip((PageNumber(q.page) - 1) * PageSize(q.pageSize) + PageSize(q.pageSize), size)
  }

  function PageOf(found: seq<Message>, q: Query): seq<Message> {
    found[First(q, |found|)..Last(q, |found|)]
  }

  function Marked(m: Message, session: string, now: nat): Message {
    if UnreadBy(m, session) then m.(status := Read, readAt := Some(now)) else m
  }

  /** Marking the messages of a page changes them wherever they are held. */
  function MarkIn(page: seq<Message>, q: Query, now: nat): Message -> Message {
    (m: Message) => if q.markRead && m in page then Marked(m, q.session, now) else m
  }

  function OnRead(s: State, q: Query, now: nat): (State, Reply) {
    if !HasSession(s.sessions, q.session) then (s, Refused(NoSession(q.session)))
    else
      var found := Found(s.messages, q, now);
      var page := PageOf(found, q);
      var mark := MarkIn(page, q, now);
      var readNow := if q.markRead then UnreadCount(page, q.session) else 0;
      (s.(messages := Each(s.messages, mark), sessions := Touch(s.sessions, q.session, now)),
       Page(|found|, UnreadCount(found, q.session), UnreadCount(Each(found, mark), q.session), readNow, Each(page, mark)))
  }

  // ---- rooms -----------------------------------------------------------------------

  /** A name the store makes up itself replaces a room that already has it. */
  function PutRoom(rs: seq<Room>, r: Room): seq<Room> {
    var i := RoomIndex(rs, r.id);
    if i < |rs| then rs[i := r] else rs + [r]
  }

  function OnCreateRoom(s: State, session: string, name: string, description: string, room: Option<string>, now: nat): (State, Reply) {
    if !HasSession(s.sessions, session) then (s, Refused(NoSession(session)))
    else if room.Some? && RoomIndex(s.rooms, room.value) < |s.rooms| then (s, Refused(RoomExists))
    else
      var id := if room.Some? then room.value else Rendered("room_", now, s.roomSeq + 1);
      var roomSeq := if room.Some? then s.roomSeq else s.roomSeq + 1;
      (s.(rooms := PutRoom(RoomFor(s.rooms, MAX_ROOMS), Room(id, name, description, session, now, [session])), roomSeq := roomSeq),
       RoomMade(id))
  }

  function OnJoin(s: State, session: string, room: string): (State, Reply) {
    var i := RoomIndex(s.rooms, room);
    if !HasSession(s.sessions, session) then (s, Refused(NoSession(session)))
    else if i == |s.rooms| then (s, Refused(NoRoom(room)))
    else
      var before := s.rooms[i].members;
      var members := if session in before then before else before + [session];
      (s.(rooms := s.rooms[i := s.rooms[i].(members := members)]), Members(|members|))
  }

  function OnLeave(s: State, session: string, room: string): (State, Reply) {
    var i := RoomIndex(s.rooms, room);
    if !HasSession(s.sessions, session) then (s, Refused(NoSession(session)))
    else if i == |s.rooms| then (s, Refused(NoRoom(room)))
    else if session !in s.rooms[i].members then (s, Refused(NotMember))
    else
      var r := Without(s.rooms[i], session);
      (s.(rooms := s.rooms[i := r]), Members(|r.members|))
  }

  function OnDeleteRoom(s: State, room: string, purge: bool): (State, Reply) {
    var i := RoomIndex(s.rooms, room);
    if i == |s.rooms| then (s, Refused(NoRoom(room)))
    else
      var left := if purge then Keep(s.messages, (m: Message) => m.room != Some(room)) else s.messages;
      (s.(rooms := s.rooms[..i] + s.rooms[i + 1..], messages := left),
       Deleted(if |left| <= |s.messages| then |s.messages| - |left| else 0))
  }

  predicate InInbox(m: Message, session: string, now: nat) {
    !Expired(m, now) && m.to == session
  }

  /** What is attached to every reply for a registered caller: its inbox in numbers, counted over all messages. */
  function OnSummarize(s: State, session: string, now: nat): (State, Reply) {
    if !HasSession(s.sessions, session) then (s, NoInbox)
    else
      (s.(sessions := Touch(s.sessions, session, now)),
       Summary(Count(s.messages, (m: Message) => InInbox(m, session, now)),
             Count(s.messages, (m: Message) => InInbox(m, session, now) && m.status == Unread)))
  }

  // ---- steps and runs --------------------------------------------------------------

  function Step(s: State, op: Op, now: nat): (State, Reply) {
    match op
    case Register(id, name, description) => OnRegister(s, id, name, description, now)
    case SendMessage(from, to, d) => OnSend(s, from, to, d, now)
    case Broadcast(from, targets, d) => OnBroadcast(s, from, targets, d, now)
    case RoomMessage(from, room, d) => OnRoomMessage(s, from, room, d, now)
    case ReadMessages(q) => OnRead(s, q, now)
    case DeleteSession(id, purge) => OnDelete(s, id, purge)
    case CreateRoom(session, name, description, room) => OnCreateRoom(s, session, name, description, room, now)
    case JoinRoom(session, room) => OnJoin(s, session, room)
    case LeaveRoom(session, room) => OnLeave(s, session, room)
    case DeleteRoom(room, purge) => OnDeleteRoom(s, room, purge)
    case Summarize(session) => OnSummarize(s, session, now)
  }

  /** Calls with the time at which each is made; the clock may do what it likes. */
  datatype Call = Call(op: Op, now: nat)

  function Run(s: State, calls: seq<Call>): State
    decreases calls
  {
    if calls == [] then s else Run(Step(s, calls[0].op, calls[0].now).0, calls[1..])
  }
}
