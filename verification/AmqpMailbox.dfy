/**
 The rendezvous between frames that arrive and callers that wait for one: two queues of which at most
 one is in use, first come first served on both sides, and no frame lost or handed out twice.
 */
module AmqpMailbox {
  import opened Bytes
  import opened AmqpFrames
  import Framing

  datatype Delivery = Got(frame: Frame) | Nothing | Rejected

  /** One frame given to one request, by the number of the request. */
  datatype Handed = Handed(to: nat, frame: Frame)

  /**
   The variables of a connection; then what has been received and parsed so far, who got what, and
   whether parsing has ever failed.
   */
  datatype State = State(buf: bytes, pending: seq<Frame>, waiters: seq<nat>, frameBuf: seq<Frame>, asked: nat,
                         results: map<nat, Delivery>,
                         received: bytes, pushed: seq<Frame>, handed: seq<Handed>, threw: bool)

  datatype Event = Data(chunk: bytes) | Ask | Drain | Close

  const INITIAL: State := State([], [], [], [], 0, map[], [], [], [], false)

  // ---- steps -----------------------------------------------------------------------

  function GiveTo(s: State, id: nat, frame: Frame): State {
    s.(results := s.results[id := Got(frame)], handed := s.handed + [Handed(id, frame)])
  }

  function DeliverOne(s: State, frame: Frame): State {
    if frame.Heartbeat? then s
    else if s.waiters != [] then GiveTo(s.(waiters := s.waiters[1..]), s.waiters[0], frame)
    else s.(frameBuf := s.frameBuf + [frame])
  }

  function Deliver(s: State, frames: seq<Frame>): State
    decreases frames
  {
    if frames == [] then s else Deliver(DeliverOne(s, frames[0]), frames[1..])
  }

  /** Frames of a chunk that fails half way stay with the parser until a later chunk does not fail. */
  ghost function OnData(decodes: Decodes, s: State, chunk: bytes): State {
    var c := Split(decodes, s.buf + chunk);
    var fed := s.(buf := c.rest, pending := s.pending + c.frames, received := s.received + chunk,
                  pushed := s.pushed + c.frames, threw := s.threw || c.bad);
    if c.bad then fed else Deliver(fed.(pending := []), fed.pending)
  }

  function OnAsk(s: State): State {
    var next := s.(asked := s.asked + 1);
    if s.frameBuf != [] then GiveTo(next.(frameBuf := s.frameBuf[1..]), s.asked, s.frameBuf[0])
    else next.(waiters := s.waiters + [s.asked])
  }

  function SettleAll(s: State, d: Delivery): State
    decreases s.waiters
  {
    if s.waiters == [] then s
    else SettleAll(s.(waiters := s.waiters[1..], results := s.results[s.waiters[0] := d]), d)
  }

  ghost function Step(decodes: Decodes, s: State, e: Event): State {
    match e
    case Data(chunk) => OnData(decodes, s, chunk)
    case Ask => OnAsk(s)
    case Drain => SettleAll(s, Nothing)
    case Close => SettleAll(s, Rejected)
  }

  ghost function Run(decodes: Decodes, s: State, events: seq<Event>): State
    decreases events
  {
    if events == [] then s else Run(decodes, Step(decodes, s, events[0]), events[1..])
  }

  // ---- what every run keeps --------------------------------------------------------

  function Solid(frames: seq<Frame>): seq<Frame> {
    if frames == [] then [] else (if frames[0].Heartbeat? then [] else [frames[0]]) + Solid(frames[1..])
  }

  lemma {:induction false} SolidConcat(a: seq<Frame>, b: seq<Frame>)
    ensures Solid(a + b) == Solid(a) + Solid(b)
  {
    if a == [] {
      assert a + b == b;
    } else {
      assert (a + b)[1..] == a[1..] + b;
      SolidConcat(a[1..], b);
    }
  }

  function FramesOf(handed: seq<Handed>): (r: seq<Frame>)
    ensures |r| == |handed|
  {
    seq(|handed|, i requires 0 <= i < |handed| => handed[i].frame)
  }

  lemma FramesOfMore(handed: seq<Handed>, h: Handed)
    ensures FramesOf(handed + [h]) == FramesOf(handed) + [h.frame]
  {
  }

  /** At most one queue is in use, and what was handed out, what is kept and what is unparsed make up what was parsed. */
  ghost predicate NothingLost(s: State) {
    && (s.waiters == [] || s.frameBuf == [])
    && FramesOf(s.handed) + s.frameBuf + Solid(s.pending) == Solid(s.pushed)
  }

  /** Requests are served in the order in which they were made. */
  ghost predicate InTurn(s: State) {
    && (forall i, j :: 0 <= i < j < |s.handed| ==> s.handed[i].to < s.handed[j].to)
    && (forall i, j :: 0 <= i < j < |s.waiters| ==> s.waiters[i] < s.waiters[j])
    && (forall i, j :: 0 <= i < |s.handed| && 0 <= j < |s.waiters| ==> s.handed[i].to < s.waiters[j])
    && (forall i :: 0 <= i < |s.handed| ==> s.handed[i].to < s.asked)
    && (forall j :: 0 <= j < |s.waiters| ==> s.waiters[j] < s.asked)
  }

  /** Each request made so far waits or has been settled, never both, and got a frame only if it was handed it. */
  ghost predicate Accounted(s: State) {
    && (forall id {:trigger id in s.results} :: id in s.results ==> id < s.asked && id !in s.waiters)
    && (forall id {:trigger id in s.waiters} :: 0 <= id < s.asked ==> id in s.results || id in s.waiters)
    && (forall h :: h in s.handed ==> h.to in s.results && s.results[h.to] == Got(h.frame))
    && (forall id :: id in s.results && s.results[id].Got? ==> Handed(id, s.results[id].frame) in s.handed)
  }

  /** Without a failure the parser has seen the whole stream. */
  ghost predicate WholeStream(decodes: Decodes, s: State) {
    !s.threw ==> s.pending == [] && Split(decodes, s.received) == Framing.Cut(s.pushed, s.buf, false)
  }

  ghost predicate Inv(decodes: Decodes, s: State) {
    NothingLost(s) && InTurn(s) && Accounted(s) && WholeStream(decodes, s)
  }

  /** As NothingLost, for frames on their way from the parser. */
  ghost predicate Conserved(s: State, frames: seq<Frame>) {
    (s.waiters == [] || s.frameBuf == []) && FramesOf(s.handed) + s.frameBuf + Solid(frames) == Solid(s.pushed)
  }

  lemma GivenInTurn(s: State, id: nat, frame: Frame)
    requires InTurn(s) && id < s.asked && (forall i :: 0 <= i < |s.handed| ==> s.handed[i].to < id)
    requires forall j :: 0 <= j < |s.waiters| ==> id < s.waiters[j]
    ensures InTurn(GiveTo(s, id, frame))
  {
  }

  lemma GivenAccounted(s: State, id: nat, frame: Frame)
    requires id !in s.results && id !in s.waiters && id < s.asked
    requires forall x {:trigger x in s.results} :: x in s.results ==> x < s.asked && x !in s.waiters
    requires forall x {:trigger x in s.waiters} :: 0 <= x < s.asked && x != id ==> x in s.results || x in s.waiters
    requires forall h :: h in s.handed ==> h.to in s.results && s.results[h.to] == Got(h.frame)
    requires forall x :: x in s.results && s.results[x].Got? ==> Handed(x, s.results[x].frame) in s.handed
    ensures Accounted(GiveTo(s, id, frame))
  {
  }

  lemma HandOver(handed: seq<Handed>, to: nat, frame: Frame, rest: seq<Frame>)
    ensures FramesOf(handed + [Handed(to, frame)]) + rest == FramesOf(handed) + ([frame] + rest)
  {
    FramesOfMore(handed, Handed(to, frame));
  }

  lemma DeliverOneConserves(s: State, frames: seq<Frame>)
    requires frames != [] && Conserved(s, frames)
    ensures Conserved(DeliverOne(s, frames[0]), frames[1..])
  {
    var frame, rest := frames[0], Solid(frames[1..]);
    if frame.Heartbeat? {
    } else if s.waiters != [] {
      HandOver(s.handed, s.waiters[0], frame, rest);
      assert FramesOf(s.handed) + [] + ([frame] + rest) == FramesOf(s.handed) + ([frame] + rest);
      assert FramesOf(s.handed + [Handed(s.waiters[0], frame)]) + [] + rest
          == FramesOf(s.handed + [Handed(s.waiters[0], frame)]) + rest;
    } else {
      assert FramesOf(s.handed) + s.frameBuf + ([frame] + rest) == FramesOf(s.handed) + (s.frameBuf + [frame]) + rest;
    }
  }

  lemma DeliverOneKeeps(s: State, frame: Frame)
    requires InTurn(s) && Accounted(s)
    ensures InTurn(DeliverOne(s, frame)) && Accounted(DeliverOne(s, frame))
  {
    if !frame.Heartbeat? && s.waiters != [] {
      var id, left := s.waiters[0], s.(waiters := s.waiters[1..]);
      assert id in s.waiters;
      assert forall x :: x in s.waiters <==> x == id || x in left.waiters;
      GivenInTurn(left, id, frame);
      GivenAccounted(left, id, frame);
    }
  }

  lemma {:induction false} DeliverKeeps(s: State, frames: seq<Frame>)
    requires InTurn(s) && Accounted(s) && Conserved(s, frames)
    ensures var d := Deliver(s, frames); InTurn(d) && Accounted(d) && Conserved(d, [])
    ensures var d := Deliver(s, frames);
            d.buf == s.buf && d.pending == s.pending && d.received == s.received && d.pushed == s.pushed && d.threw == s.threw
    decreases frames
  {
    hide InTurn, Accounted, Conserved;
    if frames != [] {
      DeliverOneConserves(s, frames);
      DeliverOneKeeps(s, frames[0]);
      DeliverKeeps(DeliverOne(s, frames[0]), frames[1..]);
    }
  }

  lemma SplitMore(decodes: Decodes, a: bytes, more: bytes)
    ensures var c, d := Split(decodes, a), Split(decodes, a + more);
            !c.bad ==> d == Framing.Before(c.frames, Split(decodes, c.rest + more))
  {
    NextIsStable(decodes);
    Framing.SplitMore(Cutter(decodes), a, more);
  }

  lemma DataKeeps(decodes: Decodes, s: State, chunk: bytes)
    requires Inv(decodes, s)
    ensures Inv(decodes, OnData(decodes, s, chunk))
  {
    hide InTurn, Split, FramesOf, Solid;
    var c := Split(decodes, s.buf + chunk);
    var fed := s.(buf := c.rest, pending := s.pending + c.frames, received := s.received + chunk,
                  pushed := s.pushed + c.frames, threw := s.threw || c.bad);
    SolidConcat(s.pending, c.frames);
    SolidConcat(s.pushed, c.frames);
    SplitMore(decodes, s.received, chunk);
    KeptTurn(s, fed);
    assert FramesOf(s.handed) + s.frameBuf + (Solid(s.pending) + Solid(c.frames))
        == FramesOf(s.handed) + s.frameBuf + Solid(s.pending) + Solid(c.frames);
    if !c.bad {
      KeptTurn(s, fed.(pending := []));
      DeliverKeeps(fed.(pending := []), fed.pending);
    }
  }

  lemma KeptTurn(s: State, t: State)
    requires InTurn(s) && t.handed == s.handed && t.waiters == s.waiters && t.asked == s.asked
    ensures InTurn(t)
  {
  }

  lemma AskKeeps(decodes: Decodes, s: State)
    requires Inv(decodes, s)
    ensures Inv(decodes, OnAsk(s))
  {
    hide Split, Solid, FramesOf, InTurn, Accounted;
    if s.frameBuf != [] {
      AskTakes(s);
      HandOver(s.handed, s.asked, s.frameBuf[0], s.frameBuf[1..]);
      assert [s.frameBuf[0]] + s.frameBuf[1..] == s.frameBuf;
    } else {
      AskWaits(s);
    }
  }

  lemma AskTakes(s: State)
    requires InTurn(s) && Accounted(s) && s.waiters == [] && s.frameBuf != []
    ensures InTurn(OnAsk(s)) && Accounted(OnAsk(s))
  {
    var left := s.(asked := s.asked + 1, frameBuf := s.frameBuf[1..]);
    GivenInTurn(left, s.asked, s.frameBuf[0]);
    GivenAccounted(left, s.asked, s.frameBuf[0]);
  }

  lemma AskWaits(s: State)
    requires InTurn(s) && Accounted(s)
    ensures var t := s.(asked := s.asked + 1, waiters := s.waiters + [s.asked]); InTurn(t) && Accounted(t)
  {
  }

  lemma SettleOneKeeps(s: State, d: Delivery)
    requires InTurn(s) && Accounted(s) && s.waiters != [] && !d.Got?
    ensures var t := s.(waiters := s.waiters[1..], results := s.results[s.waiters[0] := d]); InTurn(t) && Accounted(t)
  {
    var id, rest := s.waiters[0], s.waiters[1..];
    assert id in s.waiters;
    assert forall x :: x in s.waiters <==> x == id || x in rest;
  }

  lemma {:induction false} SettleKeeps(decodes: Decodes, s: State, d: Delivery)
    requires Inv(decodes, s) && !d.Got?
    ensures Inv(decodes, SettleAll(s, d)) && SettleAll(s, d).waiters == []
    decreases s.waiters
  {
    hide InTurn, Accounted, Split, Solid, FramesOf;
    if s.waiters != [] {
      SettleOneKeeps(s, d);
      SettleKeeps(decodes, s.(waiters := s.waiters[1..], results := s.results[s.waiters[0] := d]), d);
    }
  }

  lemma StepKeeps(decodes: Decodes, s: State, e: Event)
    requires Inv(decodes, s)
    ensures Inv(decodes, Step(decodes, s, e))
  {
    hide Inv, OnData, OnAsk, SettleAll;
    match e
    case Data(chunk) => DataKeeps(decodes, s, chunk);
    case Ask => AskKeeps(decodes, s);
    case Drain => SettleKeeps(decodes, s, Nothing);
    case Close => SettleKeeps(decodes, s, Rejected);
  }

  lemma InitialKeeps(decodes: Decodes)
    ensures Inv(decodes, INITIAL)
  {
    NextIsStable(decodes);
  }

  lemma {:induction false} RunKeeps(decodes: Decodes, s: State, events: seq<Event>)
    requires Inv(decodes, s)
    ensures Inv(decodes, Run(decodes, s, events))
    decreases events
  {
    hide Inv, Step;
    if events != [] {
      StepKeeps(decodes, s, events[0]);
      RunKeeps(decodes, Step(decodes, s, events[0]), events[1..]);
    }
  }

  /**
   In every run the two queues are never both in use, requests are served in turn and each at most
   once, and unless parsing failed the frames handed out, followed by those kept, are the frames of
   the whole stream, heartbeats aside.
   */
  lemma FirstComeFirstServed(decodes: Decodes, events: seq<Event>)
    ensures var s := Run(decodes, INITIAL, events);
            && (s.waiters == [] || s.frameBuf == []) && InTurn(s) && Accounted(s)
            && FramesOf(s.handed) + s.frameBuf + Solid(s.pending) == Solid(s.pushed)
            && (!s.threw ==> s.pending == [] && FramesOf(s.handed) + s.frameBuf == Solid(Split(decodes, s.received).frames))
  {
    hide InTurn, Accounted, Run, FramesOf, Split;
    InitialKeeps(decodes);
    RunKeeps(decodes, INITIAL, events);
    var s := Run(decodes, INITIAL, events);
    assert FramesOf(s.handed) + s.frameBuf + [] == FramesOf(s.handed) + s.frameBuf;
  }

  // ---- frames that stay with the parser --------------------------------------------

  /** The frames that have come out of the parser, given to requests or kept for them. */
  function Out(s: State): seq<Frame> {
    FramesOf(s.handed) + s.frameBuf
  }

  ghost predicate HandsOut(decodes: Decodes, s: State, e: Event) {
    e.Data? && !Split(decodes, s.buf + e.chunk).bad
  }

  lemma DataPending(decodes: Decodes, s: State, chunk: bytes)
    requires Inv(decodes, s)
    ensures var c, t := Split(decodes, s.buf + chunk), OnData(decodes, s, chunk);
            && t.buf == c.rest && t.pushed == s.pushed + c.frames
            && t.pending == (if c.bad then s.pending + c.frames else [])
            && (c.bad ==> t.handed == s.handed && t.frameBuf == s.frameBuf)
  {
    hide InTurn, Accounted, Split, Solid, FramesOf;
    var c := Split(decodes, s.buf + chunk);
    if !c.bad {
      var fed := s.(buf := c.rest, pending := s.pending + c.frames, received := s.received + chunk,
                    pushed := s.pushed + c.frames, threw := s.threw || c.bad);
      DeliverFrame(fed.(pending := []), fed.pending);
    }
  }

  lemma {:induction false} DeliverFrame(s: State, frames: seq<Frame>)
    ensures var d := Deliver(s, frames); d.buf == s.buf && d.pending == s.pending && d.pushed == s.pushed
    decreases frames
  {
    if frames != [] {
      DeliverFrame(DeliverOne(s, frames[0]), frames[1..]);
    }
  }

  lemma {:induction false} SettleFrame(s: State, d: Delivery)
    ensures SettleAll(s, d) == s.(waiters := [], results := SettleAll(s, d).results)
    decreases s.waiters
  {
    if s.waiters != [] {
      SettleFrame(s.(waiters := s.waiters[1..], results := s.results[s.waiters[0] := d]), d);
    }
  }

  lemma {:induction false} SettleGives(s: State, d: Delivery)
    ensures var t := SettleAll(s, d);
            && (forall id {:trigger id in t.results} :: id in t.results <==> id in s.results || id in s.waiters)
            && (forall id {:trigger t.results[id]} :: id in t.results ==> t.results[id] == if id in s.waiters then d else s.results[id])
    decreases s.waiters
  {
    if s.waiters != [] {
      var first, rest := s.waiters[0], s.waiters[1..];
      var next, t := s.(waiters := rest, results := s.results[first := d]), SettleAll(s, d);
      SettleGives(next, d);
      assert t == SettleAll(next, d) && s.waiters == [first] + rest;
      forall id: nat
        ensures id in t.results <==> id in s.results || id in s.waiters
        ensures id in t.results ==> t.results[id] == if id in s.waiters then d else s.results[id]
      {
        assert id in s.waiters <==> id == first || id in rest;
        assert id in SettleAll(next, d).results <==> id in next.results || id in rest;
        assert id in next.results <==> id == first || id in s.results;
        assert id in t.results ==> SettleAll(next, d).results[id] == if id in rest then d else next.results[id];
      }
    }
  }

  /** `t` is `s` with every waiting request given `d`, and nothing else changed. */
  ghost predicate AllGiven(s: State, t: State, d: Delivery) {
    && t == s.(waiters := [], results := t.results)
    && (forall id {:trigger id in t.results} :: id in t.results <==> id in s.results || id in s.waiters)
    && (forall id {:trigger t.results[id]} :: id in t.results ==> t.results[id] == if id in s.waiters then d else s.results[id])
  }

  /** In every run draining gives all waiting requests nothing and closing rejects them; settled ones keep what they got. */
  lemma WaitersSettled(decodes: Decodes, events: seq<Event>)
    ensures var s := Run(decodes, INITIAL, events);
            && AllGiven(s, Run(decodes, INITIAL, events + [Drain]), Nothing)
            && AllGiven(s, Run(decodes, INITIAL, events + [Close]), Rejected)
  {
    hide SettleAll, Run;
    var s := Run(decodes, INITIAL, events);
    RunOne(decodes, INITIAL, events, Drain);
    RunOne(decodes, INITIAL, events, Close);
    SettleFrame(s, Nothing);
    SettleFrame(s, Rejected);
    SettleGives(s, Nothing);
    SettleGives(s, Rejected);
  }

  lemma {:induction false} RunOne(decodes: Decodes, s: State, events: seq<Event>, e: Event)
    ensures Run(decodes, s, events + [e]) == Step(decodes, Run(decodes, s, events), e)
    decreases events
  {
    hide Step;
    if events != [] {
      assert (events + [e])[1..] == events[1..] + [e];
      RunOne(decodes, Step(decodes, s, events[0]), events[1..], e);
    } else {
      assert [] + [e] == [e] && [e][1..] == [];
    }
  }

  lemma AskOut(s: State)
    ensures Out(OnAsk(s)) == Out(s)
  {
    if s.frameBuf != [] {
      HandOver(s.handed, s.asked, s.frameBuf[0], s.frameBuf[1..]);
      assert [s.frameBuf[0]] + s.frameBuf[1..] == s.frameBuf;
    }
  }

  /** Only a chunk that does not fail brings frames out of the parser, and then all that are there. */
  lemma StepOut(decodes: Decodes, s: State, e: Event)
    requires Inv(decodes, s)
    ensures var t := Step(decodes, s, e);
            if HandsOut(decodes, s, e) then t.pending == [] && Out(s) + Solid(s.pending) <= Out(t)
            else s.pending <= t.pending && Out(t) == Out(s)
    ensures !e.Data? ==> Step(decodes, s, e).pending == s.pending && Step(decodes, s, e).buf == s.buf
  {
    hide InTurn, Accounted, Split, FramesOf, OnData, OnAsk, SettleAll;
    match e
    case Data(chunk) =>
      DataPending(decodes, s, chunk);
      DataKeeps(decodes, s, chunk);
      SolidConcat(s.pushed, Split(decodes, s.buf + chunk).frames);
      var t := OnData(decodes, s, chunk);
      assert t.pending == [] ==> Out(t) == Out(t) + Solid(t.pending);
    case Ask => AskFrame(s);
    case Drain => SettleFrame(s, Nothing);
    case Close => SettleFrame(s, Rejected);
  }

  lemma AskFrame(s: State)
    ensures Out(OnAsk(s)) == Out(s) && OnAsk(s).pending == s.pending && OnAsk(s).buf == s.buf
  {
    AskOut(s);
  }

  /** What is kept back after a chunk and any events that are no chunk: something, exactly if that chunk failed and there was a frame. */
  lemma {:induction false} PendingIff(decodes: Decodes, s: State, chunk: bytes, after: seq<Event>)
    requires Inv(decodes, s) && forall e :: e in after ==> !e.Data?
    ensures var c, t := Split(decodes, s.buf + chunk), Run(decodes, Step(decodes, s, Data(chunk)), after);
            && t.pending == (if c.bad then s.pending + c.frames else [])
            && (t.pending != [] <==> c.bad && (s.pending != [] || c.frames != []))
  {
    hide Inv, OnData, Split, Run;
    DataPending(decodes, s, chunk);
    StepKeeps(decodes, s, Data(chunk));
    PendingStays(decodes, Step(decodes, s, Data(chunk)), after);
  }

  lemma {:induction false} PendingStays(decodes: Decodes, s: State, events: seq<Event>)
    requires Inv(decodes, s) && forall e :: e in events ==> !e.Data?
    ensures Run(decodes, s, events).pending == s.pending
    decreases events
  {
    hide Inv, Step;
    if events != [] {
      assert events[0] in events && forall e :: e in events[1..] ==> e in events;
      StepOut(decodes, s, events[0]);
      StepKeeps(decodes, s, events[0]);
      PendingStays(decodes, Step(decodes, s, events[0]), events[1..]);
    }
  }

  /** Every chunk of the run fails. */
  ghost predicate AllFail(decodes: Decodes, s: State, events: seq<Event>)
    decreases events
  {
    events == [] || (!HandsOut(decodes, s, events[0]) && AllFail(decodes, Step(decodes, s, events[0]), events[1..]))
  }

  /** Frames kept back come out as soon as a chunk does not fail, and not before. */
  lemma {:induction false} ReleasedIff(decodes: Decodes, s: State, events: seq<Event>)
    requires Inv(decodes, s)
    ensures var t := Run(decodes, s, events);
            if AllFail(decodes, s, events) then s.pending <= t.pending && Out(t) == Out(s)
            else Out(s) + Solid(s.pending) <= Out(t)
    decreases events
  {
    hide Inv, Step, HandsOut, Out, Solid;
    if events != [] {
      var t := Step(decodes, s, events[0]);
      StepOut(decodes, s, events[0]);
      StepKeeps(decodes, s, events[0]);
      ReleasedIff(decodes, t, events[1..]);
      OutGrows(decodes, t, events[1..]);
      if !HandsOut(decodes, s, events[0]) {
        SolidPrefix(s.pending, t.pending);
      }
    }
  }

  lemma SolidPrefix(a: seq<Frame>, b: seq<Frame>)
    requires a <= b
    ensures Solid(a) <= Solid(b)
  {
    SolidConcat(a, b[|a|..]);
    assert a + b[|a|..] == b;
  }

  lemma {:induction false} OutGrows(decodes: Decodes, s: State, events: seq<Event>)
    requires Inv(decodes, s)
    ensures Out(s) <= Out(Run(decodes, s, events))
    decreases events
  {
    hide Inv, Step, HandsOut, Out, Solid;
    if events != [] {
      StepOut(decodes, s, events[0]);
      StepKeeps(decodes, s, events[0]);
      OutGrows(decodes, Step(decodes, s, events[0]), events[1..]);
    }
  }

  /** Behind whole frames, parsable or not, stands one whose end marker is missing. */
  ghost predicate Jammed(decodes: Decodes, b: bytes)
    decreases |b|
  {
    match Next(decodes, b)
    case NeedMore => false
    case Bad(skip) => skip == 0 || Jammed(decodes, b[skip..])
    case Take(len, _) => Jammed(decodes, b[len..])
  }

  lemma {:induction false} JammedMore(decodes: Decodes, b: bytes, more: bytes)
    requires Jammed(decodes, b)
    ensures Jammed(decodes, b + more)
    decreases |b|
  {
    NextOfMore(decodes, b, more);
    hide Next;
    var n := Next(decodes, b);
    var len := if n.Bad? then n.skip else n.len;
    NextWithin(decodes, b);
    if len > 0 {
      assert (b + more)[len..] == b[len..] + more;
      JammedMore(decodes, b[len..], more);
    }
  }

  lemma NextWithin(decodes: Decodes, b: bytes)
    ensures var n := Next(decodes, b);
            (n.Bad? ==> (n.skip == 0 || n.skip >= 8) && n.skip <= |b|) && (n.Take? ==> 8 <= n.len <= |b|)
  {
  }

  /** Parsing such a buffer fails, and leaves such a buffer. */
  lemma {:induction false} JammedSplit(decodes: Decodes, b: bytes)
    ensures var c := Split(decodes, b); Jammed(decodes, b) <==> c.bad && Jammed(decodes, c.rest)
    ensures var c := Split(decodes, b); c.bad && !Jammed(decodes, b) ==> |c.rest| + 8 <= |b|
    decreases |b|
  {
    hide Next;
    NextIsStable(decodes);
    NextWithin(decodes, b);
    var n := Next(decodes, b);
    Framing.SplitCases(Cutter(decodes), b);
    if n.Take? {
      JammedSplit(decodes, b[n.len..]);
    } else if n.Bad? && n.skip == 0 {
      assert b[0..] == b;
    }
  }

  lemma JammedStep(decodes: Decodes, s: State, e: Event)
    requires Inv(decodes, s) && Jammed(decodes, s.buf)
    ensures !HandsOut(decodes, s, e) && Jammed(decodes, Step(decodes, s, e).buf)
  {
    hide Inv, OnData, Split, Jammed, OnAsk, SettleAll;
    if e.Data? {
      JammedMore(decodes, s.buf, e.chunk);
      JammedSplit(decodes, s.buf + e.chunk);
      DataPending(decodes, s, e.chunk);
    } else {
      StepOut(decodes, s, e);
    }
  }

  lemma {:induction false} JammedFails(decodes: Decodes, s: State, events: seq<Event>)
    requires Inv(decodes, s) && Jammed(decodes, s.buf)
    ensures AllFail(decodes, s, events)
    decreases events
  {
    hide Inv, Step, Jammed, HandsOut;
    if events != [] {
      JammedStep(decodes, s, events[0]);
      StepKeeps(decodes, s, events[0]);
      JammedFails(decodes, Step(decodes, s, events[0]), events[1..]);
    }
  }

  /** Otherwise there is a byte that does not jam the buffer either. */
  lemma {:induction false} SafeByte(decodes: Decodes, b: bytes) returns (x: byte)
    requires !Jammed(decodes, b)
    ensures !Jammed(decodes, b + [x])
    decreases |b|
  {
    NextWithin(decodes, b);
    var n := Next(decodes, b);
    if n.NeedMore? {
      x := LastByte(decodes, b);
    } else {
      var len := if n.Bad? then n.skip else n.len;
      x := SafeByte(decodes, b[len..]);
      NextOfMore(decodes, b, [x]);
      assert (b + [x])[len..] == b[len..] + [x];
    }
  }

  lemma LastByte(decodes: Decodes, b: bytes) returns (x: byte)
    requires Next(decodes, b).NeedMore?
    ensures !Jammed(decodes, b + [x])
  {
    hide ParseFrame;
    if |b| < 7 {
      x := 0xFF;
      var all := b + [x];
      if |all| == 7 {
        assert all[3..7][..3] == all[3..6] && all[3..7][3] == 0xFF;
      }
    } else {
      var size := FromBE(b[3..7]);
      x := if |b| == 7 + size then FRAME_END else 0;
      var all := b + [x];
      assert all[3..7] == b[3..7];
      assert |b| == 7 + size ==> all[8 + size..] == [];
    }
  }

  lemma {:induction false} CanBeReleased(decodes: Decodes, s: State) returns (events: seq<Event>)
    requires Inv(decodes, s) && !Jammed(decodes, s.buf)
    ensures !AllFail(decodes, s, events) && forall e :: e in events ==> e.Data? && |e.chunk| == 1
    decreases |s.buf|
  {
    hide Inv, Jammed, Split, OnData;
    var x := SafeByte(decodes, s.buf);
    var e := Data([x]);
    JammedSplit(decodes, s.buf + [x]);
    if HandsOut(decodes, s, e) {
      events := [e];
    } else {
      DataPending(decodes, s, [x]);
      StepKeeps(decodes, s, e);
      var t := Step(decodes, s, e);
      var rest := CanBeReleased(decodes, t);
      events := [e] + rest;
      assert events[1..] == rest;
    }
  }

  /** Frames kept back can never come out exactly when the buffer is jammed. */
  lemma StuckForGoodIff(decodes: Decodes, s: State)
    requires Inv(decodes, s)
    ensures (forall events :: AllFail(decodes, s, events)) <==> Jammed(decodes, s.buf)
  {
    hide Inv, AllFail, Jammed;
    if Jammed(decodes, s.buf) {
      forall events
        ensures AllFail(decodes, s, events)
      {
        JammedFails(decodes, s, events);
      }
    } else {
      var events := CanBeReleased(decodes, s);
    }
  }

  // ---- the connection --------------------------------------------------------------

  class Connection {
    const parser: AmqpParser
    var waiters: seq<nat>
    var frameBuf: seq<Frame>
    var asked: nat
    var results: map<nat, Delivery>

    ghost var received: bytes
    ghost var pushed: seq<Frame>
    ghost var handed: seq<Handed>
    ghost var threw: bool

    ghost function Shown(): State
      reads this, parser
    {
      State(parser.buf, parser.frames, waiters, frameBuf, asked, results, received, pushed, handed, threw)
    }

    constructor (decodes: Decodes)
      ensures fresh(parser) && parser.decodes == decodes && Shown() == INITIAL
    {
      parser := new AmqpParser(decodes);
      waiters, frameBuf, asked, results := [], [], 0, map[];
      received, pushed, handed, threw := [], [], [], false;
    }

    method OnChunk(chunk: bytes)
      modifies this, parser
      ensures Shown() == Step(parser.decodes, old(Shown()), Data(chunk))
    {
      hide Split, Deliver;
      ghost var before := parser.frames;
      var ok := parser.Feed(chunk);
      received := received + chunk;
      pushed := pushed + Split(parser.decodes, old(parser.buf) + chunk).frames;
      threw := threw || !ok;
      if !ok { return; }
      var taken := parser.Take();
      HandOut(taken);
    }

    method HandOut(taken: seq<Frame>)
      modifies this
      ensures Shown() == Deliver(old(Shown()), taken)
    {
      var i := 0;
      assert taken[0..] == taken;
      while i < |taken|
        invariant 0 <= i <= |taken|
        invariant Deliver(Shown(), taken[i..]) == Deliver(old(Shown()), taken)
      {
        assert taken[i..][0] == taken[i] && taken[i..][1..] == taken[i + 1..];
        var frame := taken[i];
        if !frame.Heartbeat? {
          if waiters != [] {
            var w := waiters[0];
            waiters := waiters[1..];
            results := results[w := Got(frame)];
            handed := handed + [Handed(w, frame)];
          } else {
            frameBuf := frameBuf + [frame];
          }
        }
        i := i + 1;
      }
    }

    method NextFrame() returns (request: nat)
      modifies this
      ensures request == old(asked) && Shown() == Step(parser.decodes, old(Shown()), Ask)
    {
      request := asked;
      asked := asked + 1;
      if frameBuf != [] {
        var frame := frameBuf[0];
        frameBuf := frameBuf[1..];
        results := results[request := Got(frame)];
        handed := handed + [Handed(request, frame)];
      } else {
        waiters := waiters + [request];
      }
    }

    method Settle(d: Delivery)
      modifies this`waiters, this`results
      ensures Shown() == SettleAll(old(Shown()), d)
    {
      while waiters != []
        invariant SettleAll(Shown(), d) == SettleAll(old(Shown()), d)
        decreases |waiters|
      {
        var w := waiters[0];
        waiters := waiters[1..];
        results := results[w := d];
      }
    }

    method DrainWaiters()
      modifies this
      ensures Shown() == Step(parser.decodes, old(Shown()), Drain)
    {
      Settle(Nothing);
    }

    method OnClose()
      modifies this
      ensures Shown() == Step(parser.decodes, old(Shown()), Close)
    {
      Settle(Rejected);
    }
  }
}
