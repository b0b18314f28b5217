/**
 One CoAP request over UDP as a state machine driven by its timers, its socket and its send callback,
 and what holds in every run of it.
 */
module CoapExchange {
  import opened Bytes
  import P = CoapPacket

  const MAX_RETRANSMIT: nat := 4
  const ACK_TIMEOUT: nat := 2000

  const CON: nat := 0
  const NON: nat := 1
  const ACK: nat := 2
  const RST: nat := 3
  const EMPTY: nat := 0

  datatype Config = Config(confirmable: bool, msgId: nat, token: bytes, timeout: nat)

  datatype Outcome = Resolved(packet: P.Packet) | TimedOut | SendError | ResetReceived | NetworkError

  datatype Sent = Request(at: nat) | Ack(at: nat, msgId: nat)

  /** Timers hold the time before which they do not fire. */
  datatype State = State(attempts: nat, retry: Option<nat>, master: Option<nat>, timedOut: bool, open: bool,
                         outcome: Option<Outcome>, log: seq<Sent>, delays: seq<nat>)

  datatype Happening = RetryFires | MasterFires | SendFails | Receive(data: bytes) | SocketFails

  datatype Event = Event(at: nat, what: Happening)

  // ---- steps -----------------------------------------------------------------------

  function Cleanup(s: State): State {
    s.(retry := None, master := None, open := false)
  }

  /** Settling a promise a second time changes nothing. */
  function Settle(s: State, o: Outcome): State {
    Cleanup(s).(outcome := if s.outcome.Some? then s.outcome else Some(o))
  }

  function SendPacket(c: Config, s: State, now: nat): State {
    if s.timedOut then s
    else
      var sent := s.(attempts := s.attempts + 1, log := s.log + [Request(now)]);
      if c.confirmable && sent.attempts <= MAX_RETRANSMIT then
        var backoff := ACK_TIMEOUT * Pow2(sent.attempts - 1);
        sent.(retry := Some(now + backoff), delays := s.delays + [backoff])
      else sent
  }

  function Start(c: Config, now: nat): State {
    SendPacket(c, State(0, None, Some(now + c.timeout), false, true, None, [], []), now)
  }

  predicate Acknowledges(c: Config, p: P.Packet) {
    p.msgId == c.msgId && (p.kind == ACK || p.kind == RST)
  }

  function OnPacket(c: Config, s: State, p: P.Packet, now: nat): State {
    if c.confirmable then
      if Acknowledges(c, p) then
        var quiet := s.(retry := None);
        if p.kind == RST then Settle(quiet, ResetReceived)
        else if p.code == EMPTY then quiet
        else Settle(quiet, Resolved(p))
      else if p.token == c.token && p.kind == CON && p.code != EMPTY then
        Settle(s.(log := s.log + [Ack(now, p.msgId)]), Resolved(p))
      else if p.token == c.token && p.kind == NON && p.code != EMPTY then Settle(s, Resolved(p))
      else s
    else if (p.token == c.token || p.msgId == c.msgId) && p.code != EMPTY then Settle(s, Resolved(p))
    else s
  }

  /** What can happen: armed timers not before they are due, socket events while it is open. */
  predicate Enabled(s: State, e: Event) {
    match e.what
    case RetryFires => s.retry.Some? && s.retry.value <= e.at
    case MasterFires => s.master.Some? && s.master.value <= e.at
    case SendFails => true
    case Receive(_) => s.open
    case SocketFails => s.open
  }

  function Step(c: Config, s: State, e: Event): State {
    if !Enabled(s, e) then s
    else
      match e.what
      case RetryFires => SendPacket(c, s.(retry := None), e.at)
      case MasterFires => Settle(s.(timedOut := true), TimedOut)
      case SendFails => if s.timedOut then s else Settle(s, SendError)
      case Receive(data) =>
        if s.timedOut || P.Parse(data).Err? then s else OnPacket(c, s, P.Parse(data).value, e.at)
      case SocketFails => if s.timedOut then s else Settle(s, NetworkError)
  }

  function Run(c: Config, s: State, events: seq<Event>): State
    decreases events
  {
    if events == [] then s else Run(c, Step(c, s, events[0]), events[1..])
  }

  // ---- what every run keeps --------------------------------------------------------

  function Requests(log: seq<Sent>): seq<nat> {
    if log == [] then [] else Requests(log[..|log| - 1]) + (if log[|log| - 1].Request? then [log[|log| - 1].at] else [])
  }

  function Acks(log: seq<Sent>): seq<nat> {
    if log == [] then [] else Acks(log[..|log| - 1]) + (if log[|log| - 1].Ack? then [log[|log| - 1].msgId] else [])
  }

  lemma LogMore(log: seq<Sent>, x: Sent)
    ensures Requests(log + [x]) == Requests(log) + (if x.Request? then [x.at] else [])
    ensures Acks(log + [x]) == Acks(log) + (if x.Ack? then [x.msgId] else [])
  {
    assert (log + [x])[..|log|] == log;
  }

  /** The last request allowed is the first for a non-confirmable message and the fifth otherwise. */
  function MaxRequests(c: Config): nat {
    if c.confirmable then MAX_RETRANSMIT + 1 else 1
  }

  predicate RequestsOk(c: Config, s: State, start: nat) {
    && |Requests(s.log)| == s.attempts && 1 <= s.attempts <= MaxRequests(c)
    && (forall i :: 0 <= i < s.attempts ==> Requests(s.log)[i] >= start + ACK_TIMEOUT * (Pow2(i) - 1))
  }

  predicate TimersOk(c: Config, s: State, start: nat) {
    && (s.retry.Some? ==>
          c.confirmable && s.attempts <= MAX_RETRANSMIT && s.retry.value >= start + ACK_TIMEOUT * (Pow2(s.attempts) - 1))
    && |s.delays| == (if !c.confirmable then 0 else if s.attempts <= MAX_RETRANSMIT then s.attempts else MAX_RETRANSMIT)
    && (forall i :: 0 <= i < |s.delays| ==> s.delays[i] == ACK_TIMEOUT * Pow2(i))
  }

  /** A response is never empty, and matches by message ID or by token as its kind demands. */
  predicate Answers(c: Config, p: P.Packet) {
    && p.code != 0
    && if c.confirmable then (p.msgId == c.msgId && p.kind == 2) || (p.token == c.token && (p.kind == 0 || p.kind == 1))
       else p.msgId == c.msgId || p.token == c.token
  }

  predicate SettlementOk(c: Config, s: State, start: nat) {
    && (s.outcome.Some? <==> !s.open)
    && (s.outcome.Some? ==> s.retry.None? && s.master.None?)
    && (s.outcome.None? ==> s.master == Some(start + c.timeout) && !s.timedOut)
    && (s.timedOut ==> s.outcome.Some?)
    && (s.outcome.Some? && s.outcome.value.Resolved? ==> Answers(c, s.outcome.value.packet))
  }

  /** A separate confirmable response, and nothing else, is acknowledged, once and by its own ID. */
  predicate AcksOk(c: Config, s: State) {
    Acks(s.log) ==
    if c.confirmable && s.outcome.Some? && s.outcome.value.Resolved? && s.outcome.value.packet.kind == 0
    then [s.outcome.value.packet.msgId] else []
  }

  predicate Inv(c: Config, s: State, start: nat) {
    RequestsOk(c, s, start) && TimersOk(c, s, start) && SettlementOk(c, s, start) && AcksOk(c, s)
  }

  lemma SendKeeps(c: Config, s: State, now: nat, start: nat)
    requires !s.timedOut && s.outcome.None? && s.open && s.master == Some(start + c.timeout) && s.retry.None?
    requires |Requests(s.log)| == s.attempts && s.attempts < MaxRequests(c) && now >= start + ACK_TIMEOUT * (Pow2(s.attempts) - 1)
    requires forall i :: 0 <= i < s.attempts ==> Requests(s.log)[i] >= start + ACK_TIMEOUT * (Pow2(i) - 1)
    requires TimersOk(c, s, start) && Acks(s.log) == []
    ensures Inv(c, SendPacket(c, s, now), start)
  {
    hide Requests, Acks, Pow2;
    LogMore(s.log, Request(now));
    NextPow2(s.attempts);
  }

  lemma NextPow2(k: nat)
    ensures Pow2(k + 1) == 2 * Pow2(k) && Pow2(0) == 1
  {
  }

  lemma StartKeeps(c: Config, now: nat)
    ensures Inv(c, Start(c, now), now)
  {
    SendKeeps(c, State(0, None, Some(now + c.timeout), false, true, None, [], []), now, now);
  }

  lemma SettleKeeps(c: Config, s: State, o: Outcome, start: nat)
    requires Inv(c, s, start) && (o.Resolved? && s.outcome.None? ==> Answers(c, o.packet) && !(c.confirmable && o.packet.kind == CON))
    ensures Inv(c, Settle(s, o), start)
  {
    hide Requests, Acks, Answers;
  }

  lemma PacketKeeps(c: Config, s: State, p: P.Packet, now: nat, start: nat)
    requires Inv(c, s, start) && s.open
    ensures Inv(c, OnPacket(c, s, p, now), start)
  {
    hide Requests, Acks, Pow2;
    LogMore(s.log, Ack(now, p.msgId));
  }

  lemma StepKeeps(c: Config, s: State, e: Event, start: nat)
    requires Inv(c, s, start)
    ensures Inv(c, Step(c, s, e), start)
  {
    hide Requests, Acks, Answers, P.Parse, OnPacket;
    if Enabled(s, e) {
      match e.what
      case RetryFires => SendKeeps(c, s.(retry := None), e.at, start);
      case Receive(data) =>
        if !s.timedOut && P.Parse(data).Ok? {
          PacketKeeps(c, s, P.Parse(data).value, e.at, start);
        }
      case _ =>
    }
  }

  lemma {:induction false} RunKeeps(c: Config, s: State, events: seq<Event>, start: nat)
    requires Inv(c, s, start)
    ensures Inv(c, Run(c, s, events), start)
    decreases events
  {
    hide Inv, Step;
    if events != [] {
      StepKeeps(c, s, events[0], start);
      RunKeeps(c, Step(c, s, events[0]), events[1..], start);
    }
  }

  function Sum(xs: seq<nat>): nat {
    if xs == [] then 0 else Sum(xs[..|xs| - 1]) + xs[|xs| - 1]
  }

  lemma {:induction false} BackoffSum(delays: seq<nat>)
    requires forall i :: 0 <= i < |delays| ==> delays[i] == ACK_TIMEOUT * Pow2(i)
    ensures Sum(delays) == ACK_TIMEOUT * (Pow2(|delays|) - 1)
  {
    if delays != [] {
      BackoffSum(delays[..|delays| - 1]);
      NextPow2(|delays| - 1);
    }
  }

  /** In every run: one to five requests or exactly one, none sooner than the backoff allows, and little time armed. */
  lemma RequestsBounded(c: Config, start: nat, events: seq<Event>)
    ensures var s := Run(c, Start(c, start), events);
            && 1 <= |Requests(s.log)| <= (if c.confirmable then 5 else 1)
            && (forall i :: 0 <= i < |Requests(s.log)| ==> Requests(s.log)[i] >= start + 2000 * (Pow2(i) - 1))
            && Sum(s.delays) <= 30000
  {
    hide Run, Start, Requests, Sum, Pow2;
    var s := Run(c, Start(c, start), events);
    StartKeeps(c, start);
    RunKeeps(c, Start(c, start), events, start);
    BackoffSum(s.delays);
    Pow2Grows(|s.delays|, MAX_RETRANSMIT);
    SmallPowers();
  }

  /** In every run: settled means nothing armed, unsettled means that the master timer is. */
  lemma SettledIsQuiet(c: Config, start: nat, events: seq<Event>)
    ensures var s := Run(c, Start(c, start), events);
            && (s.outcome.Some? ==> s.retry.None? && s.master.None? && !s.open)
            && (s.outcome.None? ==> s.open && !s.timedOut && s.master == Some(start + c.timeout))
            && (s.outcome.Some? && s.outcome.value.Resolved? ==> Answers(c, s.outcome.value.packet))
            && AcksOk(c, s)
  {
    hide Run, Start, Answers, AcksOk, RequestsOk, TimersOk;
    StartKeeps(c, start);
    RunKeeps(c, Start(c, start), events, start);
  }

  /** A packet that arrives while the request is open resolves it exactly when it answers, and resets it or does neither otherwise. */
  lemma ReceiveDecides(c: Config, s: State, data: bytes, at: nat)
    requires s.open && !s.timedOut && s.outcome.None? && P.Parse(data).Ok?
    ensures var t, p := Step(c, s, Event(at, Receive(data))), P.Parse(data).value;
            && (t.outcome == Some(Resolved(p)) <==> Answers(c, p))
            && (t.outcome == Some(ResetReceived) <==> c.confirmable && p.msgId == c.msgId && p.kind == 3)
            && (t.outcome.None? <==> !Answers(c, p) && !(c.confirmable && p.msgId == c.msgId && p.kind == 3))
            && (t.outcome.None? ==> t.open && t.log == s.log && t.master == s.master)
  {
    hide P.Parse;
  }

  /** Once no retry is armed, no further request is sent and none is armed again. */
  lemma {:induction false} NoRetryNoRequest(c: Config, s: State, events: seq<Event>)
    requires s.retry.None?
    ensures Run(c, s, events).retry.None? && Requests(Run(c, s, events).log) == Requests(s.log)
    decreases events
  {
    hide Requests, Acks, P.Parse;
    if events != [] {
      var s' := Step(c, s, events[0]);
      assert s'.retry.None? && Requests(s'.log) == Requests(s.log) by {
        if s'.log != s.log {
          LogMore(s.log, s'.log[|s.log|]);
          assert s'.log == s.log + [s'.log[|s.log|]];
        }
      }
      NoRetryNoRequest(c, s', events[1..]);
    }
  }

  /** After an acknowledgement or reset with the request's ID, and after settlement, nothing is sent again. */
  lemma AcknowledgedIsFinal(c: Config, start: nat, events: seq<Event>, e: Event, later: seq<Event>)
    requires c.confirmable && e.what.Receive? && P.Parse(e.what.data).Ok?
    requires Acknowledges(c, P.Parse(e.what.data).value)
    ensures var s := Run(c, Start(c, start), events);
            var s' := Run(c, Step(c, s, e), later);
            Requests(s'.log) == Requests(s.log) && s'.retry.None?
  {
    hide Run, Start, Requests, P.Parse;
    var s := Run(c, Start(c, start), events);
    SettledIsQuiet(c, start, events);
    NoRetryNoRequest(c, Step(c, s, e), later);
  }

  /** An outcome is never replaced. */
  lemma {:induction false} OutcomeStays(c: Config, s: State, events: seq<Event>)
    requires s.outcome.Some?
    ensures Run(c, s, events).outcome == s.outcome
    decreases events
  {
    hide P.Parse;
    if events != [] {
      OutcomeStays(c, Step(c, s, events[0]), events[1..]);
    }
  }

  /** In every run the promise is settled as soon as the master timer has fired. */
  lemma TimeoutSettles(c: Config, start: nat, events: seq<Event>, at: nat)
    requires at >= start + c.timeout
    ensures Step(c, Run(c, Start(c, start), events), Event(at, MasterFires)).outcome.Some?
  {
    hide Run, Start;
    SettledIsQuiet(c, start, events);
  }

  /** While unsettled: too early a timer changes nothing, and each failure settles with its own outcome. */
  lemma FailuresSettle(c: Config, start: nat, events: seq<Event>, at: nat)
    ensures var s := Run(c, Start(c, start), events);
            s.outcome.None? ==>
              && Step(c, s, Event(at, MasterFires)).outcome == (if at >= start + c.timeout then Some(TimedOut) else None)
              && Step(c, s, Event(at, MasterFires)).timedOut == (at >= start + c.timeout)
              && Step(c, s, Event(at, SendFails)).outcome == Some(SendError)
              && Step(c, s, Event(at, SocketFails)).outcome == Some(NetworkError)
              && Step(c, s, Event(at, RetryFires)).outcome == None
  {
    hide Run, Start;
    SettledIsQuiet(c, start, events);
  }

  // ---- when the retry timer is armed -----------------------------------------------

  /** A packet that stops the retransmissions: an acknowledgement or reset with the request's ID. */
  predicate Hears(c: Config, e: Event) {
    e.what.Receive? && P.Parse(e.what.data).Ok? &&
    var p := P.Parse(e.what.data).value;
    p.msgId == c.msgId && (p.kind == 2 || p.kind == 3)
  }

  predicate Heard(c: Config, events: seq<Event>) {
    exists i :: 0 <= i < |events| && Hears(c, events[i])
  }

  /** Armed for the time of the last request and twice the wait before it, unless an acknowledgement was heard or five are sent. */
  predicate ArmedAs(c: Config, s: State, heard: bool) {
    s.outcome.None? && c.confirmable ==>
      var sent := Requests(s.log);
      && 1 <= |sent| <= 5
      && s.retry == if heard || |sent| == 5 then None else Some(sent[|sent| - 1] + 2000 * Pow2(|sent| - 1))
  }

  lemma SendArms(c: Config, s: State, now: nat)
    requires !s.timedOut && s.outcome.None? && s.retry.None? && |Requests(s.log)| == s.attempts < 5
    ensures ArmedAs(c, SendPacket(c, s, now), false)
  {
    hide Requests, Pow2;
    LogMore(s.log, Request(now));
  }

  lemma StepArms(c: Config, s: State, e: Event, start: nat, heard: bool)
    requires Inv(c, s, start) && ArmedAs(c, s, heard)
    ensures ArmedAs(c, Step(c, s, e), heard || Hears(c, e))
  {
    hide Requests, Acks, Pow2, P.Parse, AcksOk;
    if s.outcome.None? && Enabled(s, e) && e.what.RetryFires? {
      SendArms(c, s.(retry := None), e.at);
    }
  }

  lemma {:induction false} RunArms(c: Config, s: State, events: seq<Event>, start: nat, heard: bool)
    requires Inv(c, s, start) && ArmedAs(c, s, heard)
    ensures ArmedAs(c, Run(c, s, events), heard || Heard(c, events))
    decreases events
  {
    hide Inv, Step, ArmedAs, Hears;
    if events != [] {
      var rest := events[1..];
      StepKeeps(c, s, events[0], start);
      StepArms(c, s, events[0], start, heard);
      RunArms(c, Step(c, s, events[0]), rest, start, heard || Hears(c, events[0]));
      HeardSplit(c, events);
    }
  }

  lemma HeardSplit(c: Config, events: seq<Event>)
    requires events != []
    ensures Heard(c, events) <==> Hears(c, events[0]) || Heard(c, events[1..])
  {
    hide Hears;
    var rest := events[1..];
    if Heard(c, events) && !Hears(c, events[0]) {
      var i :| 0 <= i < |events| && Hears(c, events[i]);
      assert rest[i - 1] == events[i];
    }
    if Heard(c, rest) {
      var i :| 0 <= i < |rest| && Hears(c, rest[i]);
      assert events[i + 1] == rest[i];
    }
  }

  /**
   In every run, as long as a confirmable request is unsettled: the retry timer is armed exactly while no
   acknowledgement has been heard and fewer than five requests are sent, and exactly for the backoff.
   */
  lemma RetryArmed(c: Config, start: nat, events: seq<Event>)
    ensures var s := Run(c, Start(c, start), events);
            var sent := Requests(s.log);
            s.outcome.None? && c.confirmable ==>
              && 1 <= |sent| <= 5
              && s.retry == if Heard(c, events) || |sent| == 5 then None else Some(sent[|sent| - 1] + 2000 * Pow2(|sent| - 1))
  {
    hide Run, Requests, Heard, Inv;
    NoRequests();
    StartKeeps(c, start);
    SendArms(c, State(0, None, Some(start + c.timeout), false, true, None, [], []), start);
    RunArms(c, Start(c, start), events, start, false);
  }

  /** A run in which the retry timer always fires just when it is due. */
  predicate Punctual(c: Config, s: State, events: seq<Event>)
    decreases events
  {
    events == [] ||
    ((events[0].what.RetryFires? && s.retry.Some? ==> events[0].at == s.retry.value)
     && Punctual(c, Step(c, s, events[0]), events[1..]))
  }

  predicate OnSchedule(s: State, start: nat) {
    && |Requests(s.log)| == s.attempts
    && (forall i :: 0 <= i < s.attempts ==> Requests(s.log)[i] == start + 2000 * (Pow2(i) - 1))
    && (s.retry.Some? ==> s.retry.value == start + 2000 * (Pow2(s.attempts) - 1))
  }

  lemma SendOnSchedule(c: Config, s: State, start: nat)
    requires OnSchedule(s.(retry := None), start)
    ensures OnSchedule(SendPacket(c, s.(retry := None), start + 2000 * (Pow2(s.attempts) - 1)), start)
  {
    hide Requests, Pow2;
    LogMore(s.log, Request(start + 2000 * (Pow2(s.attempts) - 1)));
    NextPow2(s.attempts);
  }

  lemma StepOnSchedule(c: Config, s: State, e: Event, start: nat)
    requires OnSchedule(s, start) && (e.what.RetryFires? && s.retry.Some? ==> e.at == s.retry.value)
    ensures OnSchedule(Step(c, s, e), start)
  {
    hide Requests, Pow2, P.Parse, SendPacket;
    match e.what
    case RetryFires =>
      if s.retry.Some? {
        SendOnSchedule(c, s, start);
      }
    case Receive(data) =>
      if P.Parse(data).Ok? {
        LogMore(s.log, Ack(e.at, P.Parse(data).value.msgId));
      }
    case _ =>
  }

  lemma {:induction false} RunOnSchedule(c: Config, s: State, events: seq<Event>, start: nat)
    requires OnSchedule(s, start) && Punctual(c, s, events)
    ensures OnSchedule(Run(c, s, events), start)
    decreases events
  {
    hide Step, OnSchedule;
    if events != [] {
      StepOnSchedule(c, s, events[0], start);
      RunOnSchedule(c, Step(c, s, events[0]), events[1..], start);
    }
  }

  /** In every punctual run the requests are sent at 0, 2, 6, 14 and 30 seconds, as many as are. */
  lemma RequestTimes(c: Config, start: nat, events: seq<Event>)
    requires Punctual(c, Start(c, start), events)
    ensures var sent := Requests(Run(c, Start(c, start), events).log);
            |sent| <= 5 && sent <= [start, start + 2000, start + 6000, start + 14000, start + 30000]
  {
    hide Run, Requests, Punctual, Step;
    var none := State(0, None, Some(start + c.timeout), false, true, None, [], []);
    NextPow2(0);
    assert Requests(none.log) == [] by { NoRequests(); }
    SendOnSchedule(c, none, start);
    RunOnSchedule(c, Start(c, start), events, start);
    RequestsBounded(c, start, events);
    SmallPowers();
  }

  lemma NoRequests()
    ensures Requests([]) == []
  {
  }

  lemma SmallPowers()
    ensures Pow2(0) == 1 && Pow2(1) == 2 && Pow2(2) == 4 && Pow2(3) == 8 && Pow2(4) == 16
  {
  }

  /** Nothing but the retry timer, each time when it is due. */
  function Silence(start: nat): seq<Event> {
    [Event(start + 2000, RetryFires), Event(start + 6000, RetryFires), Event(start + 14000, RetryFires), Event(start + 30000, RetryFires)]
  }

  lemma RunStep(c: Config, s: State, events: seq<Event>)
    requires events != []
    ensures Run(c, s, events) == Run(c, Step(c, s, events[0]), events[1..])
    ensures |events| == 1 ==> Run(c, s, events) == Step(c, s, events[0])
  {
  }

  /** A silent server gets all five. */
  lemma FiveSent(c: Config, start: nat)
    requires c.confirmable
    ensures Requests(Run(c, Start(c, start), Silence(start)).log) == [start, start + 2000, start + 6000, start + 14000, start + 30000]
  {
    hide Requests, Run;
    SmallPowers();
    var events := Silence(start);
    var s0 := Start(c, start);
    var s1 := Step(c, s0, events[0]);
    var s2 := Step(c, s1, events[1]);
    var s3 := Step(c, s2, events[2]);
    var s4 := Step(c, s3, events[3]);
    assert events[1..] == [events[1], events[2], events[3]] && events[1..][1..] == [events[2], events[3]];
    assert events[1..][1..][1..] == [events[3]] && [events[3]][1..] == [];
    RunStep(c, s0, events);
    RunStep(c, s1, events[1..]);
    RunStep(c, s2, events[1..][1..]);
    RunStep(c, s3, events[1..][1..][1..]);
    NoRequests();
    assert s0.log == [] + [Request(start)] && s1.log == s0.log + [Request(start + 2000)];
    assert s2.log == s1.log + [Request(start + 6000)] && s3.log == s2.log + [Request(start + 14000)];
    assert s4.log == s3.log + [Request(start + 30000)];
    LogMore([], Request(start));
    LogMore(s0.log, Request(start + 2000));
    LogMore(s1.log, Request(start + 6000));
    LogMore(s2.log, Request(start + 14000));
    LogMore(s3.log, Request(start + 30000));
  }

  // ---- the handlers ----------------------------------------------------------------

  class Exchange {
    const c: Config

    var timedOut: bool
    var attempts: nat
    var retryTimer: Option<nat>
    var masterTimer: Option<nat>
    var open: bool
    var outcome: Option<Outcome>

    ghost var log: seq<Sent>
    ghost var delays: seq<nat>

    ghost function Shown(): State
      reads this
    {
      State(attempts, retryTimer, masterTimer, timedOut, open, outcome, log, delays)
    }

    constructor (c: Config, now: nat)
      ensures this.c == c && Shown() == Start(c, now)
    {
      this.c := c;
      timedOut, attempts, retryTimer, masterTimer, open, outcome := false, 0, None, Some(now + c.timeout), true, None;
      log, delays := [], [];
      new;
      SendNow(now);
    }

    method SendNow(now: nat)
      modifies this
      ensures Shown() == SendPacket(c, old(Shown()), now)
    {
      if timedOut { return; }
      attempts := attempts + 1;
      log := log + [Request(now)];
      if c.confirmable && attempts <= MAX_RETRANSMIT {
        var backoff := ACK_TIMEOUT * Pow2(attempts - 1);
        retryTimer := Some(now + backoff);
        delays := delays + [backoff];
      }
    }

    method Close()
      modifies this`retryTimer, this`masterTimer, this`open
      ensures Shown() == Cleanup(old(Shown()))
    {
      retryTimer, masterTimer, open := None, None, false;
    }

    method Finish(o: Outcome)
      modifies this`outcome
      ensures outcome == if old(outcome).Some? then old(outcome) else Some(o)
    {
      if outcome.None? {
        outcome := Some(o);
      }
    }

    method OnRetry(now: nat)
      requires Enabled(Shown(), Event(now, RetryFires))
      modifies this
      ensures Shown() == Step(c, old(Shown()), Event(now, RetryFires))
    {
      retryTimer := None;
      SendNow(now);
    }

    method OnMaster(now: nat)
      requires Enabled(Shown(), Event(now, MasterFires))
      modifies this
      ensures Shown() == Step(c, old(Shown()), Event(now, MasterFires))
    {
      timedOut := true;
      Close();
      Finish(TimedOut);
    }

    method OnSendError(now: nat)
      modifies this
      ensures Shown() == Step(c, old(Shown()), Event(now, SendFails))
    {
      if !timedOut {
        Close();
        Finish(SendError);
      }
    }

    method OnSocketError(now: nat)
      requires open
      modifies this
      ensures Shown() == Step(c, old(Shown()), Event(now, SocketFails))
    {
      if timedOut { return; }
      Close();
      Finish(NetworkError);
    }

    method OnMessage(data: bytes, now: nat)
      requires open
      modifies this
      ensures Shown() == Step(c, old(Shown()), Event(now, Receive(data)))
    {
      if timedOut { return; }
      var r := P.ParsePacket(data);
      if r.Err? { return; }
      var parsed := r.value;
      var tokenMatch, idMatch := parsed.token == c.token, parsed.msgId == c.msgId;
      if c.confirmable {
        if idMatch && (parsed.kind == ACK || parsed.kind == RST) {
          retryTimer := None;
          if parsed.kind == RST {
            Close();
            Finish(ResetReceived);
            return;
          }
          if parsed.code == EMPTY { return; }
          Close();
          Finish(Resolved(parsed));
          return;
        }
        if tokenMatch && parsed.kind == CON && parsed.code != EMPTY {
          log := log + [Ack(now, parsed.msgId)];
          Close();
          Finish(Resolved(parsed));
          return;
        }
        if tokenMatch && parsed.kind == NON && parsed.code != EMPTY {
          Close();
          Finish(Resolved(parsed));
          return;
        }
      } else {
        if tokenMatch && parsed.code != EMPTY {
          Close();
          Finish(Resolved(parsed));
          return;
        }
        if idMatch && parsed.code != EMPTY {
          Close();
          Finish(Resolved(parsed));
          return;
        }
      }
    }
  }
}
