/** Reading messages: what a call reports is what is in the store afterwards. */
module CommunityReading {
  import opened Bytes
  import opened Lists
  import opened CommunityStore
  import opened CommunityTheorems
  import S = Sorting

  // ---- finding after marking -------------------------------------------------------

  lemma {:induction false} InsertEach(x: Message, s: seq<Message>, f: Message -> Message)
    requires forall m :: SentAt(f(m)) == SentAt(m)
    ensures Each(S.Insert(x, s, SentAt), f) == S.Insert(f(x), Each(s, f), SentAt)
    decreases s
  {
    if s != [] && SentAt(x) > SentAt(s[0]) {
      InsertEach(x, s[1..], f);
      assert Each(s, f)[1..] == Each(s[1..], f);
      EachConcat([s[0]], S.Insert(x, s[1..], SentAt), f);
      assert Each([s[0]], f) == [f(s[0])];
    } else {
      EachConcat([x], s, f);
      assert Each([x], f) == [f(x)];
    }
  }

  lemma {:induction false} SortEach(s: seq<Message>, f: Message -> Message)
    requires forall m :: SentAt(f(m)) == SentAt(m)
    ensures S.Sort(Each(s, f), SentAt) == Each(S.Sort(s, SentAt), f)
    decreases s
  {
    if s != [] {
      SortEach(s[1..], f);
      assert Each(s, f)[1..] == Each(s[1..], f);
      InsertEach(s[0], S.Sort(s[1..], SentAt), f);
    }
  }

  /** Marking changes neither what a query finds nor the order. */
  lemma FoundEach(ms: seq<Message>, page: seq<Message>, q: Query, now: nat)
    ensures Found(Each(ms, MarkIn(page, q, now)), q, now) == Each(Found(ms, q, now), MarkIn(page, q, now))
  {
    var mark, visible := MarkIn(page, q, now), (m: Message) => Visible(q, m, now);
    KeepEach(ms, visible, mark);
    SortEach(Keep(ms, visible), mark);
  }

  lemma FoundOnce(ms: seq<Message>, q: Query, now: nat, top: nat)
    requires MessagesOk(ms, top)
    ensures NoDup(Found(ms, q, now))
  {
    var visible := (m: Message) => Visible(q, m, now);
    forall i, j | 0 <= i < j < |ms|
      ensures ms[i] != ms[j]
    {
      assert Older(ms[i], ms[j]);
    }
    KeepNoDup(ms, visible);
    S.SortStable(Keep(ms, visible), SentAt);
    SamePlaces(Keep(ms, visible), Found(ms, q, now));
  }

  // ---- the page --------------------------------------------------------------------

  /** Marking a page by its messages is marking it by its places. */
  lemma MarkedByPlace(found: seq<Message>, q: Query, now: nat)
    requires NoDup(found) && q.markRead
    ensures var a, b, page := First(q, |found|), Last(q, |found|), PageOf(found, q);
            var mark := MarkIn(page, q, now);
            && Each(found[..a], mark) == found[..a] && Each(found[b..], mark) == found[b..]
            && found == found[..a] + page + found[b..]
            && Each(found, mark) == found[..a] + Each(page, mark) + found[b..]
            && forall i :: 0 <= i < |page| ==> mark(page[i]) == Marked(page[i], q.session, now)
  {
    var a, b, page := First(q, |found|), Last(q, |found|), PageOf(found, q);
    var mark := MarkIn(page, q, now);
    assert forall i :: 0 <= i < a ==> found[i] !in page;
    assert forall i :: b <= i < |found| ==> found[i] !in page;
    EachSame(found[..a], mark);
    EachSame(found[b..], mark);
    assert found == found[..a] + page + found[b..];
    EachConcat(found[..a] + page, found[b..], mark);
    EachConcat(found[..a], page, mark);
  }

  lemma CountParts(a: seq<Message>, b: seq<Message>, c: seq<Message>, session: string)
    ensures UnreadCount(a + b + c, session) == UnreadCount(a, session) + UnreadCount(b, session) + UnreadCount(c, session)
  {
    var unread := (m: Message) => UnreadBy(m, session);
    CountConcat(a + b, c, unread);
    CountConcat(a, b, unread);
  }

  lemma NoneUnread(page: seq<Message>, f: Message -> Message, session: string, now: nat)
    requires forall i :: 0 <= i < |page| ==> f(page[i]) == Marked(page[i], session, now)
    ensures UnreadCount(Each(page, f), session) == 0
  {
    CountNone(Each(page, f), (m: Message) => UnreadBy(m, session));
  }

  lemma CountsAfterMarking(found: seq<Message>, q: Query, now: nat)
    requires NoDup(found)
    ensures var page := PageOf(found, q);
            UnreadCount(Each(found, MarkIn(page, q, now)), q.session)
            == UnreadCount(found, q.session) - (if q.markRead then UnreadCount(page, q.session) else 0)
  {
    hide UnreadCount, NoDup;
    var a, b, page := First(q, |found|), Last(q, |found|), PageOf(found, q);
    var mark := MarkIn(page, q, now);
    if q.markRead {
      MarkedByPlace(found, q, now);
      CountParts(found[..a], page, found[b..], q.session);
      CountParts(found[..a], Each(page, mark), found[b..], q.session);
      NoneUnread(page, mark, q.session, now);
    } else {
      EachSame(found, mark);
    }
  }

  /** The numbers of a read call add up, and the last of them is what the store then holds. */
  lemma ReadCounts(s: State, q: Query, now: nat)
    requires MessagesOk(s.messages, s.msgSeq) && HasSession(s.sessions, q.session)
    ensures var (t, r) := OnRead(s, q, now);
            && r.Page?
            && r.unreadAfter == r.unreadBefore - r.readNow
            && r.unreadBefore == UnreadCount(Found(s.messages, q, now), q.session)
            && r.unreadAfter == UnreadCount(Found(t.messages, q, now), q.session)
            && r.total == |Found(s.messages, q, now)| == |Found(t.messages, q, now)|
  {
    hide MessagesOk, Found, UnreadCount, PageOf, Touch, MarkIn;
    var found := Found(s.messages, q, now);
    FoundOnce(s.messages, q, now, s.msgSeq);
    CountsAfterMarking(found, q, now);
    FoundEach(s.messages, PageOf(found, q), q, now);
  }

  /** Reading changes just the messages of the page that were unread by the reader. */
  lemma ReadChanges(s: State, q: Query, now: nat, i: nat)
    requires MessagesOk(s.messages, s.msgSeq) && HasSession(s.sessions, q.session) && i < |s.messages|
    ensures var t, m := OnRead(s, q, now).0, s.messages[i];
            && |t.messages| == |s.messages|
            && t.messages[i] == if q.markRead && m in PageOf(Found(s.messages, q, now), q) && UnreadBy(m, q.session)
                                then m.(status := Read, readAt := Some(now)) else m
  {
    hide Found, PageOf, Touch;
  }

  lemma TouchStays(ss: seq<Session>, id: string, now: nat)
    requires HasSession(ss, id)
    ensures HasSession(Touch(ss, id, now), id)
  {
    var k :| 0 <= k < |ss| && ss[k].id == id;
    assert Touch(ss, id, now)[k].id == id;
  }

  /** Reading the same page again at once finds it read and changes no message. */
  lemma ReadTwice(s: State, q: Query, now: nat)
    requires MessagesOk(s.messages, s.msgSeq) && HasSession(s.sessions, q.session) && q.markRead
    ensures var (t, r) := OnRead(s, q, now);
            var (u, r') := OnRead(t, q, now);
            && r'.Page? && r'.readNow == 0 && r'.unreadBefore == r.unreadAfter == r'.unreadAfter
            && r'.shown == r.shown && u.messages == t.messages
  {
    hide MessagesOk, Found, UnreadCount, Touch;
    var (t, r) := OnRead(s, q, now);
    var found := Found(s.messages, q, now);
    var page := PageOf(found, q);
    var mark := MarkIn(page, q, now);
    TouchStays(s.sessions, q.session, now);
    FoundOnce(s.messages, q, now, s.msgSeq);
    MarkedByPlace(found, q, now);
    FoundEach(s.messages, page, q, now);
    NoneUnread(page, mark, q.session, now);
    assert PageOf(Each(found, mark), q) == Each(page, mark);
    assert forall m {:trigger MarkIn(Each(page, mark), q, now)(m)} :: MarkIn(Each(page, mark), q, now)(m) == m by {
      forall m | m in Each(page, mark)
        ensures !UnreadBy(m, q.session)
      {
        var i :| 0 <= i < |page| && m == mark(page[i]);
      }
    }
    EachSame(t.messages, MarkIn(Each(page, mark), q, now));
    EachSame(Each(found, mark), MarkIn(Each(page, mark), q, now));
    EachSame(Each(page, mark), MarkIn(Each(page, mark), q, now));
  }

  // ---- reading page after page -----------------------------------------------------

  /** Pages 1, 2 and so on, each read at its own time. */
  function ReadPages(s: State, q: Query, times: seq<nat>): State
    decreases |times|
  {
    if times == [] then s
    else
      var last := |times| - 1;
      OnRead(ReadPages(s, q, times[..last]), q.(page := |times|), times[last]).0
  }

  /** No message expires between any of the readings and `now`, in whatever order these are. */
  ghost predicate NoneExpires(ms: seq<Message>, times: seq<nat>, now: nat) {
    forall m, i {:trigger Expired(m, times[i])} :: m in ms && 0 <= i < |times| ==> (Expired(m, times[i]) <==> Expired(m, now))
  }

  /** Only what has expired by the one time and not by the other can make a difference to what is found. */
  lemma FoundAtBoth(ms: seq<Message>, q: Query, a: nat, b: nat)
    requires forall m {:trigger Expired(m, a)} {:trigger Expired(m, b)} :: m in ms ==> (Expired(m, a) <==> Expired(m, b))
    ensures Found(ms, q, a) == Found(ms, q, b)
  {
    KeepAlike(ms, (m: Message) => Visible(q, m, a), (m: Message) => Visible(q, m, b));
  }

  /** The page asked for has no part in what is found. */
  lemma FoundOnAnyPage(ms: seq<Message>, q: Query, k: nat, now: nat)
    ensures Found(ms, q.(page := k), now) == Found(ms, q, now)
  {
    var q' := q.(page := k);
    KeepSame(ms, (m: Message) => Visible(q', m, now), (m: Message) => Visible(q, m, now));
  }

  ghost predicate ReadUpTo(found: seq<Message>, session: string, n: int) {
    forall i :: 0 <= i < |found| && i < n ==> !UnreadBy(found[i], session)
  }

  lemma PageReadsOn(found: seq<Message>, q: Query, k: nat, now: nat)
    requires k >= 1 && q.markRead && NoDup(found) && ReadUpTo(found, q.session, (k - 1) * PageSize(q.pageSize))
    ensures ReadUpTo(Each(found, MarkIn(PageOf(found, q.(page := k)), q.(page := k), now)), q.session, k * PageSize(q.pageSize))
  {
    var q' := q.(page := k);
    var page := PageOf(found, q');
    var after := Each(found, MarkIn(page, q', now));
    assert k * PageSize(q.pageSize) == (k - 1) * PageSize(q.pageSize) + PageSize(q.pageSize);
    forall i | 0 <= i < |after| && i < k * PageSize(q.pageSize)
      ensures !UnreadBy(after[i], q.session)
    {
      if i >= (k - 1) * PageSize(q.pageSize) {
        assert page[i - First(q', |found|)] == found[i];
      }
    }
  }

  /** The same messages but for what marking changes. */
  ghost predicate SameExpiry(ms: seq<Message>, ns: seq<Message>) {
    |ms| == |ns| && forall i :: 0 <= i < |ms| ==> ms[i].expiresAt == ns[i].expiresAt
  }

  lemma SteadyAt(ms: seq<Message>, ns: seq<Message>, q: Query, times: seq<nat>, i: nat, now: nat)
    requires NoneExpires(ms, times, now) && SameExpiry(ms, ns) && i < |times|
    ensures Found(ns, q, times[i]) == Found(ns, q, now)
  {
    hide Found;
    forall m | m in ns
      ensures Expired(m, times[i]) <==> Expired(m, now)
    {
      var k :| 0 <= k < |ns| && ns[k] == m;
      assert ms[k] in ms && Expired(ms[k], times[i]) == Expired(ms[k], now);
    }
    FoundAtBoth(ns, q, times[i], now);
  }

  lemma PageKeeps(s: State, t: State, q: Query, k: nat, now: nat)
    requires MessagesOk(t.messages, t.msgSeq) && HasSession(t.sessions, q.session) && k >= 1 && SameExpiry(s.messages, t.messages)
    ensures var u := OnRead(t, q.(page := k), now).0;
            && MessagesOk(u.messages, u.msgSeq) && HasSession(u.sessions, q.session) && SameExpiry(s.messages, u.messages)
  {
    hide MessagesOk, Found, PageOf, Touch, UnreadCount;
    var q' := q.(page := k);
    MarkKeeps(t.messages, PageOf(Found(t.messages, q', now), q'), q', now, t.msgSeq);
    hide HasSession;
    TouchStays(t.sessions, q.session, now);
  }

  lemma PageReads(t: State, q: Query, k: nat, now: nat)
    requires MessagesOk(t.messages, t.msgSeq) && HasSession(t.sessions, q.session) && k >= 1 && q.markRead
    requires ReadUpTo(Found(t.messages, q, now), q.session, (k - 1) * PageSize(q.pageSize))
    ensures var u := OnRead(t, q.(page := k), now).0;
            && ReadUpTo(Found(u.messages, q, now), q.session, k * PageSize(q.pageSize))
            && |Found(u.messages, q, now)| == |Found(t.messages, q, now)|
  {
    hide MessagesOk, HasSession, Found, Touch, MarkIn, UnreadCount, PageOf, ReadUpTo;
    var q' := q.(page := k);
    var found := Found(t.messages, q, now);
    FoundOnAnyPage(t.messages, q, k, now);
    FoundOnce(t.messages, q, now, t.msgSeq);
    FoundEach(t.messages, PageOf(found, q'), q', now);
    FoundOnAnyPage(Each(t.messages, MarkIn(PageOf(found, q'), q', now)), q, k, now);
    PageReadsOn(found, q, k, now);
  }

  lemma {:induction false} PagesRead(s: State, q: Query, times: seq<nat>, now: nat)
    requires MessagesOk(s.messages, s.msgSeq) && HasSession(s.sessions, q.session) && q.markRead
    requires NoneExpires(s.messages, times, now)
    ensures var t := ReadPages(s, q, times);
            && MessagesOk(t.messages, t.msgSeq) && HasSession(t.sessions, q.session) && SameExpiry(s.messages, t.messages)
            && ReadUpTo(Found(t.messages, q, now), q.session, |times| * PageSize(q.pageSize))
            && |Found(t.messages, q, now)| == |Found(s.messages, q, now)|
    decreases |times|
  {
    hide MessagesOk, HasSession, Found, SameExpiry, ReadUpTo, OnRead;
    if times == [] {
      NothingToRead(Found(s.messages, q, now), q.session);
      Unchanged(s.messages);
    } else {
      var k, before := |times|, times[..|times| - 1];
      FewerReadings(s.messages, times, now);
      PagesRead(s, q, before, now);
      var t := ReadPages(s, q, before);
      SteadyAt(s.messages, t.messages, q, times, k - 1, now);
      PageReads(t, q, k, times[k - 1]);
      PageKeeps(s, t, q, k, times[k - 1]);
      SteadyAt(s.messages, ReadPages(s, q, times).messages, q, times, k - 1, now);
    }
  }

  lemma Unchanged(ms: seq<Message>)
    ensures SameExpiry(ms, ms)
  {
  }

  lemma FewerReadings(ms: seq<Message>, times: seq<nat>, now: nat)
    requires times != [] && NoneExpires(ms, times, now)
    ensures NoneExpires(ms, times[..|times| - 1], now)
  {
    var before := times[..|times| - 1];
    forall m, i {:trigger Expired(m, before[i])} | m in ms && 0 <= i < |before|
      ensures Expired(m, before[i]) <==> Expired(m, now)
    {
      assert before[i] == times[i];
      assert Expired(m, times[i]) <==> Expired(m, now);
    }
  }

  lemma NothingToRead(found: seq<Message>, session: string)
    ensures ReadUpTo(found, session, 0)
  {
  }

  /** Reading as many pages as there are, while no message expires, leaves nothing unread. */
  lemma AllPagesLeaveNothingUnread(s: State, q: Query, times: seq<nat>, now: nat)
    requires MessagesOk(s.messages, s.msgSeq) && HasSession(s.sessions, q.session) && q.markRead
    requires NoneExpires(s.messages, times, now) && |times| * PageSize(q.pageSize) >= |Found(s.messages, q, now)|
    ensures UnreadCount(Found(ReadPages(s, q, times).messages, q, now), q.session) == 0
  {
    hide MessagesOk, HasSession, Found, ReadPages, NoneExpires, SameExpiry;
    PagesRead(s, q, times, now);
    CountNone(Found(ReadPages(s, q, times).messages, q, now), (m: Message) => UnreadBy(m, q.session));
  }

  // ---- what was sent is found ------------------------------------------------------

  lemma FoundHas(ms: seq<Message>, q: Query, now: nat, m: Message)
    ensures m in Found(ms, q, now) <==> m in ms && Visible(q, m, now)
  {
    var visible := (x: Message) => Visible(q, x, now);
    KeepHas(ms, visible, m);
    S.SortStable(Keep(ms, visible), SentAt);
    assert m in multiset(Found(ms, q, now)) <==> m in multiset(Keep(ms, visible));
  }

  function InboxOf(session: string): Query {
    Query(session, Inbox, 1, 0, true, None)
  }

  function SentBy(session: string): Query {
    Query(session, Sent, 1, 0, true, None)
  }

  /** A message sent is at once unread in the inbox of its addressee and among what its sender sent. */
  lemma SentIsFound(s: State, from: string, to: string, d: Draft, now: nat)
    requires OnSend(s, from, to, d, now).1.SentOne?
    ensures var (t, r) := OnSend(s, from, to, d, now);
            var m := Message(r.id, from, to, None, d.body, now, ExpiresAt(d, now), d.replyTo, None, Unread);
            && m in Found(t.messages, InboxOf(to), now) && m in Found(t.messages, SentBy(from), now)
            && m !in Found(t.messages, InboxOf(from), now) && m !in Found(t.messages, SentBy(to), now)
            && (d.replyTo.Some? ==> m in Found(t.messages, InboxOf(to).(threadOf := d.replyTo), now))
            && r.id.seqNo == t.msgSeq == s.msgSeq + 1
  {
    hide Found, EvictMessage, DraftError, Touch;
    var (t, r) := OnSend(s, from, to, d, now);
    var m := Message(r.id, from, to, None, d.body, now, ExpiresAt(d, now), d.replyTo, None, Unread);
    assert t.messages[|t.messages| - 1] == m;
    FoundHas(t.messages, InboxOf(to), now, m);
    FoundHas(t.messages, SentBy(from), now, m);
    FoundHas(t.messages, InboxOf(from), now, m);
    FoundHas(t.messages, SentBy(to), now, m);
    FoundHas(t.messages, InboxOf(to).(threadOf := d.replyTo), now, m);
  }

  predicate Reached(f: Fanned, from: string, room: Option<string>, to: string) {
    to != from && (room.Some? || HasSession(f.state.sessions, to))
  }

  /** Message number i of a list goes to addressee number i under id number i. */
  ghost predicate Stored(ms: seq<Message>, from: string, sentTo: seq<string>, ids: seq<MessageId>, room: Option<string>, d: Draft, now: nat) {
    && |ms| == |sentTo| == |ids|
    && forall i :: 0 <= i < |ms| ==>
         ms[i] == Message(ids[i], from, sentTo[i], room, d.body, now, ExpiresAt(d, now), d.replyTo, None, Unread)
  }

  /** Those addressed, other than the sender, are split into reached and failed, each in order. */
  lemma {:induction false} FanReaches(f: Fanned, from: string, targets: seq<string>, room: Option<string>, d: Draft, now: nat)
    ensures var g := Fan(f, from, targets, room, d, now);
            && g.sentTo == f.sentTo + Keep(targets, (to: string) => Reached(f, from, room, to))
            && g.failed == f.failed + Keep(targets, (to: string) => to != from && !Reached(f, from, room, to))
    decreases targets
  {
    hide HasSession, Post;
    var reached, failed := (to: string) => Reached(f, from, room, to), (to: string) => to != from && !Reached(f, from, room, to);
    if targets == [] {
      assert f.sentTo + [] == f.sentTo && f.failed + [] == f.failed;
    } else {
      var to, rest := targets[0], targets[1..];
      var g := FanOne(f, from, to, room, d, now);
      var yes, no := if reached(to) then [to] else [], if failed(to) then [to] else [];
      PostKeepsSessions(f.state, from, to, room, d, now);
      assert g.sentTo == f.sentTo + yes && g.failed == f.failed + no;
      FanReaches(g, from, rest, room, d, now);
      SameReached(f, g, from, room, rest);
      hide Fan, FanOne, Reached;
      Associative(f.sentTo, yes, Keep(rest, reached));
      Associative(f.failed, no, Keep(rest, failed));
    }
  }

  lemma Associative<T>(a: seq<T>, b: seq<T>, c: seq<T>)
    ensures a + b + c == a + (b + c)
  {
  }

  lemma PostKeepsSessions(s: State, from: string, to: string, room: Option<string>, d: Draft, now: nat)
    ensures Post(s, from, to, room, d, now).sessions == s.sessions
  {
  }

  lemma StoredMore(f: Fanned, before: seq<Message>, from: string, to: string, room: Option<string>, d: Draft, now: nat)
    requires |f.state.messages| < MAX_MESSAGES
    requires before <= f.state.messages && Stored(f.state.messages[|before|..], from, f.sentTo, f.ids, room, d, now)
    ensures var g := FanOne(f, from, to, room, d, now);
            && before <= g.state.messages && Stored(g.state.messages[|before|..], from, g.sentTo, g.ids, room, d, now)
            && |g.state.messages| <= |f.state.messages| + 1
  {
    hide HasSession, EvictMessage;
    var g := FanOne(f, from, to, room, d, now);
    if g.ids != f.ids {
      assert g.state.messages[|before|..] == f.state.messages[|before|..] + [g.state.messages[|f.state.messages|]];
    }
  }

  /** With room for all, a broadcast or room message stores one message for each addressee reached, in order. */
  lemma {:induction false} FanStores(f: Fanned, before: seq<Message>, from: string, targets: seq<string>, room: Option<string>, d: Draft, now: nat)
    requires |f.state.messages| + |targets| <= MAX_MESSAGES
    requires before <= f.state.messages && Stored(f.state.messages[|before|..], from, f.sentTo, f.ids, room, d, now)
    ensures var g := Fan(f, from, targets, room, d, now);
            before <= g.state.messages && Stored(g.state.messages[|before|..], from, g.sentTo, g.ids, room, d, now)
    decreases targets
  {
    hide Stored, FanOne;
    if targets != [] {
      StoredMore(f, before, from, targets[0], room, d, now);
      FanStores(FanOne(f, from, targets[0], room, d, now), before, from, targets[1..], room, d, now);
    }
  }

  lemma SameReached(f: Fanned, g: Fanned, from: string, room: Option<string>, targets: seq<string>)
    requires g.state.sessions == f.state.sessions
    ensures Keep(targets, (to: string) => Reached(g, from, room, to)) == Keep(targets, (to: string) => Reached(f, from, room, to))
    ensures Keep(targets, (to: string) => to != from && !Reached(g, from, room, to))
         == Keep(targets, (to: string) => to != from && !Reached(f, from, room, to))
  {
    hide HasSession;
    KeepSame(targets, (to: string) => Reached(g, from, room, to), (to: string) => Reached(f, from, room, to));
    KeepSame(targets, (to: string) => to != from && !Reached(g, from, room, to), (to: string) => to != from && !Reached(f, from, room, to));
  }

  /** The numbers attached to a reply are those that reading the inbox would report. */
  lemma SummaryMatchesInbox(s: State, session: string, now: nat)
    requires HasSession(s.sessions, session)
    ensures var r, found := OnSummarize(s, session, now).1, Found(s.messages, InboxOf(session), now);
            r == Summary(|found|, UnreadCount(found, session))
  {
    hide Touch;
    var q := InboxOf(session);
    var visible, inbox := (m: Message) => Visible(q, m, now), (m: Message) => InInbox(m, session, now);
    var unread, both := (m: Message) => UnreadBy(m, session), (m: Message) => InInbox(m, session, now) && m.status == Unread;
    S.SortStable(Keep(s.messages, visible), SentAt);
    SameSize(Keep(s.messages, visible), Found(s.messages, q, now));
    CountPermuted(Keep(s.messages, visible), Found(s.messages, q, now), unread);
    CountKept(s.messages, visible, inbox);
    CountKeptToo(s.messages, visible, unread, both);
  }
}
