/**
 The Cassandra client's connection: frames cut out of the incoming bytes, stream ids handed out in a
 wrapping sequence, and responses routed to the requests that wait for them.
 */
module Cassandra {
  import opened Bytes
  import Framing

  const VERSION: nat := 4
  const MAX_FRAME: nat := 32 * 1024 * 1024
  const IDS: nat := 0x7FFF

  // ---- frames ----------------------------------------------------------------------

  datatype Frame = Frame(version: nat, flags: nat, stream: int, opcode: nat, body: bytes)

  function BuildFrame(opcode: byte, body: bytes, stream: nat): (f: bytes)
    requires stream <= IDS && |body| < 0x1_0000_0000
    ensures |f| == 9 + |body|
  {
    [VERSION, 0] + ToBE(stream, 2) + [opcode] + ToBE(|body|, 4) + body
  }

  function Signed16(u: nat): int {
    if u < 0x8000 then u else u - 0x1_0000
  }

  function FrameOf(frame: bytes): Frame
    requires |frame| >= 9
  {
    Frame(frame[0], frame[1], Signed16(FromBE(frame[2..4])), frame[4], frame[9..])
  }

  /** A body over the limit ends the work; everything buffered is then thrown away. */
  function Next(b: bytes): Framing.Next<Frame> {
    if |b| < 9 then Framing.NeedMore
    else
      var bodyLen := FromBE(b[5..9]);
      if bodyLen > MAX_FRAME then Framing.Bad(0)
      else if |b| < 9 + bodyLen then Framing.NeedMore
      else Framing.Take(9 + bodyLen, FrameOf(b[..9 + bodyLen]))
  }

  const CUTTER: bytes -> Framing.Next<Frame> := (b: bytes) => Next(b)

  lemma NextIsStable()
    ensures Framing.Stable(CUTTER) && CUTTER([]).NeedMore?
  {
    forall b: bytes, more: bytes | !Next(b).NeedMore?
      ensures Next(b + more) == Next(b)
    {
      var size, all := FromBE(b[5..9]), b + more;
      assert all[5..9] == b[5..9];
      assert size <= MAX_FRAME ==> all[..9 + size] == b[..9 + size];
    }
  }

  ghost function Split(b: bytes): Framing.Cut<Frame> {
    NextIsStable();
    Framing.Split(CUTTER, b)
  }

  /** One chunk: the frames it completes, and what stays buffered. */
  ghost function Accumulate(buffer: bytes, chunk: bytes): Framing.Cut<Frame> {
    var c := Split(buffer + chunk);
    if c.bad then Framing.Cut(c.frames, [], true) else c
  }

  ghost function AccumulateAll(buffer: bytes, chunks: seq<bytes>): Framing.Cut<Frame>
    decreases chunks
  {
    if chunks == [] then Framing.Cut([], buffer, false)
    else
      var c := Accumulate(buffer, chunks[0]);
      var more := AccumulateAll(c.rest, chunks[1..]);
      Framing.Cut(c.frames + more.frames, more.rest, c.bad || more.bad)
  }

  lemma {:induction false} AccumulatesStream(buffer: bytes, chunks: seq<bytes>)
    requires Next(buffer).NeedMore? && !Split(buffer + Framing.Flatten(chunks)).bad
    ensures AccumulateAll(buffer, chunks) == Split(buffer + Framing.Flatten(chunks))
    decreases chunks
  {
    NextIsStable();
    if chunks == [] {
      assert buffer + [] == buffer;
    } else {
      var a, tail := buffer + chunks[0], Framing.Flatten(chunks[1..]);
      assert buffer + (chunks[0] + tail) == a + tail;
      Framing.SplitMore(CUTTER, a, tail);
      Framing.RestWaits(CUTTER, a);
      AccumulatesStream(Split(a).rest, chunks[1..]);
    }
  }

  /** Without an oversized frame, the way a stream is cut into chunks makes no difference. */
  lemma ChunkingDoesNotMatter(xs: seq<bytes>, ys: seq<bytes>)
    requires Framing.Flatten(xs) == Framing.Flatten(ys) && !Split(Framing.Flatten(xs)).bad
    ensures AccumulateAll([], xs) == AccumulateAll([], ys) == Split(Framing.Flatten(xs))
  {
    assert [] + Framing.Flatten(xs) == Framing.Flatten(xs);
    AccumulatesStream([], xs);
    AccumulatesStream([], ys);
  }

  lemma WaitsForMore(b: bytes)
    requires Next(b).NeedMore?
    ensures Split(b) == Split(b + []) == Framing.Cut([], b, false)
  {
    NextIsStable();
    assert b + [] == b;
  }

  lemma EmptyChunks(chunks: seq<bytes>)
    requires Framing.Flatten(chunks) == []
    ensures AccumulateAll([], chunks) == Framing.Cut([], [], false)
  {
    assert [] + Framing.Flatten(chunks) == [];
    AccumulatesStream([], chunks);
  }

  lemma {:induction false} BadRest(b: bytes)
    requires Split(b).bad
    ensures |Split(b).rest| >= 9
    decreases |b|
  {
    NextIsStable();
    if Next(b).Take? {
      BadRest(b[Next(b).len..]);
    }
  }

  /** A stream that ends with an oversized frame's header: the header is thrown away, and nothing with it. */
  lemma {:induction false} AccumulatesOversized(buffer: bytes, chunks: seq<bytes>)
    requires Next(buffer).NeedMore?
    requires var c := Split(buffer + Framing.Flatten(chunks)); c.bad && |c.rest| == 9
    ensures AccumulateAll(buffer, chunks) == Framing.Cut(Split(buffer + Framing.Flatten(chunks)).frames, [], true)
    decreases chunks
  {
    hide Next;
    NextIsStable();
    if chunks == [] {
      WaitsForMore(buffer);
    } else {
      var a, tail := buffer + chunks[0], Framing.Flatten(chunks[1..]);
      assert buffer + (chunks[0] + tail) == a + tail;
      Framing.SplitMore(CUTTER, a, tail);
      if Split(a).bad {
        BadRest(a);
        EmptyChunks(chunks[1..]);
      } else {
        Framing.RestWaits(CUTTER, a);
        AccumulatesOversized(Split(a).rest, chunks[1..]);
      }
    }
  }

  lemma LastByteDoesNotDecide(a: bytes, x: byte)
    requires Next(a).NeedMore?
    ensures Split(a + [x]).bad ==> |Split(a + [x]).rest| == 9
  {
    hide Split, FrameOf, FromBE;
    var b := a + [x];
    SplitSays(b);
    WaitsForMore([]);
    assert b[|b|..] == [];
    assert |a| >= 9 ==> b[5..9] == a[5..9];
  }

  lemma TwoChunks(x: bytes, y: bytes)
    ensures AccumulateAll([], [x]).rest == Accumulate([], x).rest
    ensures AccumulateAll([], [x, y]).rest == Accumulate(Accumulate([], x).rest, y).rest
  {
    hide Accumulate;
    assert [x][1..] == [] && [x, y][1..] == [y] && [y][1..] == [];
    var c := Accumulate([], x);
    assert AccumulateAll(c.rest, [y]).rest == Accumulate(c.rest, y).rest;
  }

  lemma BytesBehindMatter(b: bytes)
    requires Split(b).bad && |Split(b).rest| > 9
    ensures AccumulateAll([], [b]).rest == []
    ensures AccumulateAll([], [b[..|b| - 1], b[|b| - 1..]]).rest == b[|b| - 1..]
  {
    hide Next, AccumulateAll;
    NextIsStable();
    var a, x := b[..|b| - 1], b[|b| - 1..];
    assert b == a + x == a + [x[0]];
    Framing.SplitMore(CUTTER, a, x);
    if !Split(a).bad {
      Framing.RestWaits(CUTTER, a);
      LastByteDoesNotDecide(Split(a).rest, x[0]);
    }
    assert [] + a == a && [] + x == x && [] + b == b;
    ShortWaits(x);
    TwoChunks(a, x);
    TwoChunks(b, []);
  }

  lemma ShortWaits(b: bytes)
    requires |b| < 9
    ensures Split(b) == Framing.Cut([], b, false)
  {
    WaitsForMore(b);
  }

  ghost predicate AnyCuttingAlike(b: bytes) {
    forall xs :: Framing.Flatten(xs) == b ==> AccumulateAll([], xs) == AccumulateAll([], [b])
  }

  /** All cuttings of a stream give the same exactly when nothing stands behind an oversized frame's header. */
  lemma CuttingMattersIff(b: bytes)
    ensures AnyCuttingAlike(b) <==> !Split(b).bad || |Split(b).rest| == 9
  {
    hide Next, Split, AccumulateAll;
    assert Framing.Flatten([b]) == b;
    if !Split(b).bad {
      forall xs | Framing.Flatten(xs) == b
        ensures AccumulateAll([], xs) == AccumulateAll([], [b])
      {
        ChunkingDoesNotMatter(xs, [b]);
      }
    } else if |Split(b).rest| == 9 {
      forall xs | Framing.Flatten(xs) == b
        ensures AccumulateAll([], xs) == AccumulateAll([], [b])
      {
        NothingWaits();
        assert [] + b == b;
        AccumulatesOversized([], xs);
        AccumulatesOversized([], [b]);
      }
    } else {
      BadRest(b);
      SplitShrinks(b);
      BytesBehindMatter(b);
      var xs := [b[..|b| - 1], b[|b| - 1..]];
      assert xs[1..] == [b[|b| - 1..]] && Framing.Flatten([b[|b| - 1..]]) == b[|b| - 1..];
      assert Framing.Flatten(xs) == b[..|b| - 1] + b[|b| - 1..] == b;
    }
  }

  lemma SplitShrinks(b: bytes)
    ensures |Split(b).rest| <= |b|
  {
  }

  lemma NothingWaits()
    ensures Next([]).NeedMore?
  {
  }

  /** What follows an oversized header in its chunk is lost with it, what follows in the next chunk is not. */
  lemma OversizedMatters(header: bytes, frame: bytes)
    requires |header| == 9 && FromBE(header[5..9]) > 0x200_0000
    requires Next(frame).Take? && Next(frame).len == |frame|
    ensures AccumulateAll([], [header + frame]).frames == []
    ensures AccumulateAll([], [header, frame]).frames == [Next(frame).frame]
  {
    hide FromBE, FrameOf;
    NextIsStable();
    var all := header + frame;
    assert [] + all == all && all[5..9] == header[5..9];
    assert [] + header == header && [] + frame == frame;
    var rest := Framing.Split(CUTTER, frame[|frame|..]);
    assert frame[|frame|..] == [];
    assert AccumulateAll([], [header + frame][1..]).frames == [];
    assert [header, frame][1..] == [frame] && [frame][1..] == [];
    assert AccumulateAll([], [frame]).frames == [Next(frame).frame];
  }

  /** A frame as either side writes it, its stream id in two's complement. */
  function FrameBytes(f: Frame): bytes
    requires f.version < 256 && f.flags < 256 && f.opcode < 256 && -0x8000 <= f.stream < 0x8000 && |f.body| <= 0x200_0000
  {
    [f.version, f.flags] + ToBE(if f.stream < 0 then f.stream + 0x1_0000 else f.stream, 2) + [f.opcode] + ToBE(|f.body|, 4) + f.body
  }

  /** Every frame with a body of at most 32 MiB is cut off whole as what it is. */
  lemma FrameRead(f: Frame)
    requires f.version < 256 && f.flags < 256 && f.opcode < 256 && -0x8000 <= f.stream < 0x8000 && |f.body| <= 0x200_0000
    ensures Next(FrameBytes(f)) == Framing.Take(9 + |f.body|, f)
  {
    hide ToBE, FromBE;
    var b, u := FrameBytes(f), if f.stream < 0 then f.stream + 0x1_0000 else f.stream;
    Pow256Values();
    FromToBE(u, 2);
    FromToBE(|f.body|, 4);
    assert |b| == 9 + |f.body| && b[0] == f.version && b[1] == f.flags && b[4] == f.opcode;
    assert b[2..4] == ToBE(u, 2);
    assert b[5..9] == ToBE(|f.body|, 4);
    assert b[9..] == f.body && b[..|b|] == b;
    assert FrameOf(b) == f;
  }

  /** A built frame carries version 4, no flags, the stream id, the opcode and the body. */
  lemma BuiltNext(opcode: byte, body: bytes, stream: nat)
    requires stream <= 32767 && |body| <= 0x200_0000
    ensures var f := BuildFrame(opcode, body, stream);
            Next(f) == Framing.Take(|f|, Frame(4, 0, stream, opcode, body))
  {
    FrameRead(Frame(4, 0, stream, opcode, body));
  }

  // ---- stream ids ------------------------------------------------------------------

  /** The id of the n-th request of a connection. */
  function Id(n: nat): (id: nat)
    ensures 1 <= id <= IDS
  {
    1 + n % IDS
  }

  lemma IdsOfWindow(i: nat, j: nat)
    requires i < j < i + 32767
    ensures Id(i) != Id(j)
  {
  }

  lemma IdsComeBack(n: nat)
    ensures Id(n + 32767) == Id(n)
  {
    assert n + IDS == IDS * (n / IDS + 1) + n % IDS;
    DivModUnique(n + IDS, IDS, n / IDS + 1, n % IDS);
  }

  // ---- the connection as values ----------------------------------------------------

  datatype Verdict = Good | ServerError | Undecodable

  /** How decoding a body comes out, which is field reading not modelled here. */
  type Decode = (nat, bytes) -> Verdict

  datatype Outcome = Answered(opcode: nat, body: bytes, verdict: Verdict) | WriteError | Closed | NotConnected

  /**
   The fields of a connection, requests named by their number; then how many there have been, and how
   they were settled.
   */
  datatype State = State(buffer: bytes, stream: nat, pending: map<int, nat>, connected: bool,
                         sent: nat, results: map<nat, Outcome>)

  datatype Event = Send | WriteFails(n: nat) | Data(chunk: bytes) | SocketCloses | Close

  const INITIAL: State := State([], 1, map[], true, 0, map[])

  /** A promise is settled once. */
  function Settle(results: map<nat, Outcome>, n: nat, o: Outcome): map<nat, Outcome> {
    if n in results then results else results[n := o]
  }

  function SettleAll(results: map<nat, Outcome>, ns: set<nat>, o: Outcome): map<nat, Outcome> {
    map n | n in results.Keys + ns :: if n in results then results[n] else o
  }

  function Requests(pending: map<int, nat>): set<nat> {
    set id | id in pending :: pending[id]
  }

  function NextStream(stream: nat): nat {
    if stream + 1 > IDS then 1 else stream + 1
  }

  function OnSend(s: State): State {
    var n := s.sent;
    var registered := s.(stream := NextStream(s.stream), sent := n + 1, pending := s.pending[s.stream := n]);
    if s.connected then registered else registered.(results := Settle(s.results, n, NotConnected))
  }

  function OnWriteFails(s: State, n: nat): State {
    if n >= s.sent then s
    else s.(pending := s.pending - {Id(n)}, results := Settle(s.results, n, WriteError))
  }

  function OnFrame(decode: Decode, s: State, f: Frame): State {
    if f.version % 128 != VERSION then s
    else if f.stream !in s.pending then s
    else
      s.(pending := s.pending - {f.stream},
         results := Settle(s.results, s.pending[f.stream], Answered(f.opcode, f.body, decode(f.opcode, f.body))))
  }

  function OnFrames(decode: Decode, s: State, frames: seq<Frame>): State
    decreases frames
  {
    if frames == [] then s else OnFrames(decode, OnFrame(decode, s, frames[0]), frames[1..])
  }

  ghost function OnData(decode: Decode, s: State, chunk: bytes): State {
    var c := Accumulate(s.buffer, chunk);
    OnFrames(decode, s, c.frames).(buffer := c.rest)
  }

  function RejectAll(s: State): State {
    s.(pending := map[], results := SettleAll(s.results, Requests(s.pending), Closed))
  }

  ghost function Step(decode: Decode, s: State, e: Event): State {
    match e
    case Send => OnSend(s)
    case WriteFails(n) => OnWriteFails(s, n)
    case Data(chunk) => OnData(decode, s, chunk)
    case SocketCloses => RejectAll(s)
    case Close => RejectAll(s.(connected := false))
  }

  ghost function Run(decode: Decode, s: State, events: seq<Event>): State
    decreases events
  {
    if events == [] then s else Run(decode, Step(decode, s, events[0]), events[1..])
  }

  // ---- what every run keeps --------------------------------------------------------

  predicate Waiting(s: State, n: nat) {
    n < s.sent && n !in s.results
  }

  predicate Registered(s: State, n: nat) {
    Id(n) in s.pending && s.pending[Id(n)] == n
  }

  /** The next id follows from the count, and each entry stands for an earlier request, under its own id. */
  ghost predicate Inv(s: State) {
    && s.stream == Id(s.sent)
    && (forall id :: id in s.pending ==> s.pending[id] < s.sent && Id(s.pending[id]) == id)
    && (forall n :: n in s.results ==> n < s.sent)
  }

  ghost predicate AllRegistered(s: State) {
    forall n: nat {:trigger Waiting(s, n)} :: Waiting(s, n) ==> Registered(s, n)
  }

  lemma StreamFollows(n: nat)
    ensures NextStream(Id(n)) == Id(n + 1)
  {
    if n % IDS == IDS - 1 {
      DivModUnique(n + 1, IDS, n / IDS + 1, 0);
    } else {
      DivModUnique(n + 1, IDS, n / IDS, n % IDS + 1);
    }
  }

  lemma SendKeeps(s: State)
    requires Inv(s)
    ensures Inv(OnSend(s))
  {
    hide Id;
    StreamFollows(s.sent);
  }

  lemma {:induction false} FramesKeep(decode: Decode, s: State, frames: seq<Frame>)
    requires Inv(s)
    ensures Inv(OnFrames(decode, s, frames))
    decreases frames
  {
    hide Id;
    if frames != [] {
      FramesKeep(decode, OnFrame(decode, s, frames[0]), frames[1..]);
    }
  }

  lemma RejectKeeps(s: State)
    requires Inv(s)
    ensures Inv(RejectAll(s))
  {
    hide Id;
    forall n | n in RejectAll(s).results
      ensures n < s.sent
    {
      assert n in s.results || n in Requests(s.pending);
    }
  }

  lemma StepKeeps(decode: Decode, s: State, e: Event)
    requires Inv(s)
    ensures Inv(Step(decode, s, e))
  {
    hide Id, OnSend, OnFrames, RejectAll;
    match e
    case Send => SendKeeps(s);
    case WriteFails(n) =>
    case Data(chunk) => FramesKeep(decode, s, Accumulate(s.buffer, chunk).frames);
    case SocketCloses => RejectKeeps(s);
    case Close => RejectKeeps(s.(connected := false));
  }

  lemma InitialKeeps()
    ensures Inv(INITIAL)
  {
  }

  lemma {:induction false} RunKeeps(decode: Decode, s: State, events: seq<Event>)
    requires Inv(s)
    ensures Inv(Run(decode, s, events))
    decreases events
  {
    hide Inv, Step;
    if events != [] {
      StepKeeps(decode, s, events[0]);
      RunKeeps(decode, Step(decode, s, events[0]), events[1..]);
    }
  }

  // ---- losing no request -----------------------------------------------------------

  /** The step overwrites or deletes the entry under the request's id. */
  predicate Takes(s: State, e: Event, n: nat) {
    match e
    case Send => Id(n) == s.stream
    case WriteFails(m) => m < s.sent && Id(n) == Id(m)
    case _ => false
  }

  /** What a step does to one request: it can settle one that has its entry, and take the entry away. */
  ghost predicate StepOn(s: State, e: Event, t: State, n: nat) {
    && (Waiting(t, n) && n < s.sent ==> Waiting(s, n) && (Registered(t, n) <==> Registered(s, n) && !Takes(s, e, n)))
    && (Waiting(t, n) && n >= s.sent ==> n == s.sent && e.Send? && Registered(t, n))
    && (Waiting(s, n) && !Registered(s, n) && e != WriteFails(n) ==> Waiting(t, n))
    && (Waiting(s, n) && Takes(s, e, n) && e != WriteFails(n) ==> Waiting(t, n))
  }

  lemma FrameOn(decode: Decode, s: State, f: Frame, n: nat)
    requires Inv(s)
    ensures var t := OnFrame(decode, s, f);
            && Inv(t) && t.sent == s.sent
            && (Waiting(t, n) ==> Waiting(s, n) && (Registered(t, n) <==> Registered(s, n)))
            && (Waiting(s, n) && !Registered(s, n) ==> Waiting(t, n) && !Registered(t, n))
  {
    hide Id;
  }

  lemma {:induction false} FramesOn(decode: Decode, s: State, frames: seq<Frame>, n: nat)
    requires Inv(s)
    ensures var t := OnFrames(decode, s, frames);
            && t.sent == s.sent
            && (Waiting(t, n) ==> Waiting(s, n) && (Registered(t, n) <==> Registered(s, n)))
            && (Waiting(s, n) && !Registered(s, n) ==> Waiting(t, n) && !Registered(t, n))
    decreases frames
  {
    hide Inv, OnFrame, Waiting, Registered;
    if frames != [] {
      FrameOn(decode, s, frames[0], n);
      FramesOn(decode, OnFrame(decode, s, frames[0]), frames[1..], n);
    }
  }

  lemma RejectOn(s: State, n: nat)
    requires Inv(s)
    ensures Waiting(RejectAll(s), n) <==> Waiting(s, n) && !Registered(s, n)
    ensures !Registered(RejectAll(s), n)
  {
    hide Id;
    if Registered(s, n) {
      assert n in Requests(s.pending);
    }
  }

  lemma StepOnEach(decode: Decode, s: State, e: Event, n: nat)
    requires Inv(s)
    ensures StepOn(s, e, Step(decode, s, e), n)
  {
    hide Id, OnFrames, RejectAll, Accumulate;
    match e
    case Send =>
    case WriteFails(m) =>
    case Data(chunk) => FramesOn(decode, s, Accumulate(s.buffer, chunk).frames, n);
    case SocketCloses => RejectOn(s, n);
    case Close => RejectOn(s.(connected := false), n);
  }

  /** No request but the one the step is about waits under the id whose entry the step overwrites or deletes. */
  ghost predicate Clean(s: State, e: Event) {
    match e
    case Send => forall n: nat {:trigger Waiting(s, n)} :: Waiting(s, n) ==> Id(n) != s.stream
    case WriteFails(m) => m < s.sent ==> forall n: nat {:trigger Waiting(s, n)} :: Waiting(s, n) && n != m ==> Id(n) != Id(m)
    case _ => true
  }

  ghost predicate CleanRun(decode: Decode, s: State, events: seq<Event>)
    decreases events
  {
    events == [] || (Clean(s, events[0]) && CleanRun(decode, Step(decode, s, events[0]), events[1..]))
  }

  /** Before the run and after each of its steps, every waiting request has its entry. */
  ghost predicate AlwaysRegistered(decode: Decode, s: State, events: seq<Event>)
    decreases events
  {
    AllRegistered(s) && (events != [] ==> AlwaysRegistered(decode, Step(decode, s, events[0]), events[1..]))
  }

  lemma StepRegistered(decode: Decode, s: State, e: Event)
    requires Inv(s) && AllRegistered(s)
    ensures AllRegistered(Step(decode, s, e)) <==> Clean(s, e)
  {
    hide Id, Step, Registered;
    var t := Step(decode, s, e);
    if Clean(s, e) {
      forall n: nat | Waiting(t, n)
        ensures Registered(t, n)
      {
        StepOnEach(decode, s, e, n);
        StepSettles(decode, s, e);
      }
    } else {
      var n: nat :| Waiting(s, n) && Takes(s, e, n) && e != WriteFails(n);
      StepOnEach(decode, s, e, n);
    }
  }

  lemma StepSettles(decode: Decode, s: State, e: Event)
    ensures e.WriteFails? && e.n < s.sent ==> !Waiting(Step(decode, s, e), e.n)
  {
  }

  /** Every waiting request has its entry throughout a run exactly when no step takes one from a request that waits. */
  lemma {:induction false} RegisteredIffClean(decode: Decode, s: State, events: seq<Event>)
    requires Inv(s) && AllRegistered(s)
    ensures AlwaysRegistered(decode, s, events) <==> CleanRun(decode, s, events)
    decreases events
  {
    hide Inv, Step, Clean, AllRegistered;
    if events != [] {
      var t := Step(decode, s, events[0]);
      StepRegistered(decode, s, events[0]);
      StepKeeps(decode, s, events[0]);
      if AllRegistered(t) {
        RegisteredIffClean(decode, t, events[1..]);
      }
    }
  }

  /**
   A waiting request without an entry waits for ever: no response, and not even the connection's end,
   settles it, only the failure of its own write.
   */
  lemma {:induction false} OrphanStays(decode: Decode, s: State, events: seq<Event>, n: nat)
    requires Inv(s) && Waiting(s, n) && !Registered(s, n) && WriteFails(n) !in events
    ensures var t := Run(decode, s, events); Waiting(t, n) && !Registered(t, n)
    decreases events
  {
    hide Inv, Step, Registered;
    if events != [] {
      StepOnEach(decode, s, events[0], n);
      StepKeeps(decode, s, events[0]);
      OrphanStays(decode, Step(decode, s, events[0]), events[1..], n);
    }
  }

  /** No waiting request is as old as the 32767th latest, and write failures are not reported later than that. */
  ghost predicate Prompt(s: State, e: Event) {
    match e
    case Send => forall n: nat {:trigger Waiting(s, n)} :: Waiting(s, n) ==> n + 32767 > s.sent
    case WriteFails(n) => n + 32767 >= s.sent && forall k: nat {:trigger Waiting(s, k)} :: Waiting(s, k) ==> k + 32767 > s.sent
    case _ => true
  }

  ghost predicate PromptRun(decode: Decode, s: State, events: seq<Event>)
    decreases events
  {
    events == [] || (Prompt(s, events[0]) && PromptRun(decode, Step(decode, s, events[0]), events[1..]))
  }

  lemma PromptIsClean(s: State, e: Event)
    requires Inv(s) && Prompt(s, e)
    ensures Clean(s, e)
  {
    hide Id, Registered;
    forall k: nat | Waiting(s, k) && (e.Send? || (e.WriteFails? && e.n < s.sent && k != e.n))
      ensures Id(k) != if e.Send? then s.stream else Id(e.n)
    {
      var n := if e.Send? then s.sent else e.n;
      if k < n {
        IdsOfWindow(k, n);
      } else {
        IdsOfWindow(n, k);
      }
    }
  }

  /** In a run in which no request waits across 32767 later ones, every waiting request keeps its entry. */
  lemma {:induction false} PromptRunsLoseNone(decode: Decode, s: State, events: seq<Event>)
    requires Inv(s) && AllRegistered(s) && PromptRun(decode, s, events)
    ensures AlwaysRegistered(decode, s, events)
    decreases events
  {
    hide Inv, Step, Clean, Prompt, AllRegistered;
    if events != [] {
      PromptIsClean(s, events[0]);
      StepRegistered(decode, s, events[0]);
      StepKeeps(decode, s, events[0]);
      PromptRunsLoseNone(decode, Step(decode, s, events[0]), events[1..]);
    }
  }

  function Sends(k: nat): seq<Event> {
    if k == 0 then [] else [Send] + Sends(k - 1)
  }

  /** Nothing has been answered yet. */
  ghost predicate AllWait(s: State) {
    Inv(s) && s.connected && s.results == map[]
  }

  lemma SendOne(decode: Decode, s: State)
    requires AllWait(s)
    ensures var t := Step(decode, s, Send); AllWait(t) && t.sent == s.sent + 1
    ensures s.sent < IDS ==> Prompt(s, Send)
  {
    StepKeeps(decode, s, Send);
  }

  lemma {:induction false} SendMany(decode: Decode, s: State, k: nat)
    requires AllWait(s) && AllRegistered(s) && s.sent + k <= IDS
    ensures var t := Run(decode, s, Sends(k)); AllWait(t) && AllRegistered(t) && t.sent == s.sent + k
    ensures PromptRun(decode, s, Sends(k))
    decreases k
  {
    hide Inv, Clean, Step, AllRegistered, Prompt;
    if k > 0 {
      var t := Step(decode, s, Send);
      assert Sends(k)[0] == Send && Sends(k)[1..] == Sends(k - 1);
      SendOne(decode, s);
      PromptIsClean(s, Send);
      StepRegistered(decode, s, Send);
      SendMany(decode, t, k - 1);
    }
  }

  lemma {:induction false} SendsMore(decode: Decode, s: State, k: nat)
    ensures Run(decode, s, Sends(k + 1)) == Step(decode, Run(decode, s, Sends(k)), Send)
    decreases k
  {
    hide Step;
    assert Sends(k + 1)[0] == Send && Sends(k + 1)[1..] == Sends(k);
    if k > 0 {
      assert Sends(k)[0] == Send && Sends(k)[1..] == Sends(k - 1);
      SendsMore(decode, Step(decode, s, Send), k - 1);
    }
  }

  /**
   With 32767 requests sent and none answered, all have their entries. One more takes the entry of the
   first, which then waits for ever whatever follows, unless its own write fails.
   */
  lemma OneTooMany(decode: Decode, events: seq<Event>)
    requires WriteFails(0) !in events
    ensures AlwaysRegistered(decode, INITIAL, Sends(32767))
    ensures var t := Run(decode, Run(decode, INITIAL, Sends(32768)), events); Waiting(t, 0) && !Registered(t, 0)
  {
    hide Run, Step, Registered;
    InitialKeeps();
    SendMany(decode, INITIAL, IDS);
    PromptRunsLoseNone(decode, INITIAL, Sends(IDS));
    SendsMore(decode, INITIAL, IDS);
    var s := Run(decode, INITIAL, Sends(IDS));
    StepOnEach(decode, s, Send, 0);
    StepKeeps(decode, s, Send);
    OrphanStays(decode, Step(decode, s, Send), events, 0);
  }

  // ---- routing ---------------------------------------------------------------------

  /**
   A response settles the one waiting request that has its stream id, takes its entry away, and
   leaves all other requests as they were.
   */
  ghost predicate Routes(decode: Decode, s: State, f: Frame, t: State) {
    && (forall n: nat {:trigger Waiting(s, n)} :: Waiting(s, n) ==> (n in t.results <==> Id(n) == f.stream))
    && (forall n :: n in t.results && n !in s.results ==>
          Waiting(s, n) && t.results[n] == Answered(f.opcode, f.body, decode(f.opcode, f.body)))
    && (forall n :: n in s.results ==> n in t.results && t.results[n] == s.results[n])
    && t.pending == s.pending - {f.stream}
    && (forall m, n :: Waiting(s, m) && Waiting(s, n) && Id(m) == Id(n) ==> m == n)
  }

  lemma OneResponse(decode: Decode, s: State, f: Frame)
    requires Inv(s) && AllRegistered(s) && f.version % 128 == VERSION
    ensures Routes(decode, s, f, OnFrame(decode, s, f))
  {
    hide Id;
    assert forall n: nat {:trigger Waiting(s, n)} :: Waiting(s, n) ==> Registered(s, n);
    assert OnFrame(decode, s, f).pending == s.pending - {f.stream};
  }

  lemma FramesRegistered(decode: Decode, s: State, frames: seq<Frame>)
    requires Inv(s) && AllRegistered(s)
    ensures AllRegistered(OnFrames(decode, s, frames))
  {
    hide Inv, OnFrames, Registered;
    forall n: nat | Waiting(OnFrames(decode, s, frames), n)
      ensures Registered(OnFrames(decode, s, frames), n)
    {
      FramesOn(decode, s, frames, n);
    }
  }

  /** So it is after every run that leaves each waiting request its entry, also behind other frames of the same chunk. */
  lemma ResponseRouting(decode: Decode, events: seq<Event>, frames: seq<Frame>, f: Frame)
    requires AllRegistered(Run(decode, INITIAL, events)) && f.version % 128 == 4
    ensures var s := OnFrames(decode, Run(decode, INITIAL, events), frames);
            Routes(decode, s, f, OnFrame(decode, s, f))
  {
    hide Inv, Run, Routes, OnFrame, AllRegistered, OnFrames;
    InitialKeeps();
    RunKeeps(decode, INITIAL, events);
    FramesKeep(decode, Run(decode, INITIAL, events), frames);
    FramesRegistered(decode, Run(decode, INITIAL, events), frames);
    OneResponse(decode, OnFrames(decode, Run(decode, INITIAL, events), frames), f);
  }

  /**
   How a request is settled without a response: at once when the connection has been given up, by its own
   failed write, and by the end of the connection if its entry is there; nothing settles it twice.
   */
  lemma SettledOtherwise(decode: Decode, s: State, n: nat)
    requires Inv(s)
    ensures var t := Step(decode, s, Send);
            && t.sent == s.sent + 1 && t.connected == s.connected && Registered(t, s.sent)
            && (if s.connected then Waiting(t, s.sent) else s.sent in t.results && t.results[s.sent] == NotConnected)
            && (n in s.results ==> n in t.results && t.results[n] == s.results[n])
            && (n != s.sent && n !in s.results ==> n !in t.results)
    ensures var t := Step(decode, s, WriteFails(n));
            && (Waiting(s, n) ==> n in t.results && t.results[n] == WriteError)
            && (!Waiting(s, n) ==> t.results == s.results)
            && (forall k :: k != n ==> (k in t.results <==> k in s.results))
    ensures var t, u := Step(decode, s, SocketCloses), Step(decode, s, Close);
            && u == t.(connected := false) && t.connected == s.connected && t.pending == map[]
            && (Waiting(s, n) ==> if Registered(s, n) then n in t.results && t.results[n] == Closed else n !in t.results)
            && (n in s.results ==> n in t.results && t.results[n] == s.results[n])
  {
    hide Id;
    if Waiting(s, n) && !Registered(s, n) {
      assert n !in Requests(s.pending);
    }
    if Registered(s, n) {
      assert s.pending[Id(n)] in Requests(s.pending);
    }
  }

  /** A response of another version is passed over. */
  lemma OtherVersionsSkipped(decode: Decode, s: State, f: Frame)
    ensures f.version % 128 != 4 || f.stream !in s.pending ==> OnFrame(decode, s, f) == s
  {
  }

  /** Frames are processed without a look at the buffer. */
  lemma FrameAside(decode: Decode, s: State, f: Frame, b: bytes)
    ensures OnFrame(decode, s.(buffer := b), f) == OnFrame(decode, s, f).(buffer := b)
  {
  }

  lemma {:induction false} FramesAside(decode: Decode, s: State, frames: seq<Frame>, b: bytes)
    ensures OnFrames(decode, s.(buffer := b), frames) == OnFrames(decode, s, frames).(buffer := b)
    decreases frames
  {
    hide OnFrame;
    if frames != [] {
      FrameAside(decode, s, frames[0], b);
      FramesAside(decode, OnFrame(decode, s, frames[0]), frames[1..], b);
    }
  }

  function Arrivals(chunks: seq<bytes>): seq<Event> {
    if chunks == [] then [] else [Data(chunks[0])] + Arrivals(chunks[1..])
  }

  lemma {:induction false} FramesConcat(decode: Decode, s: State, a: seq<Frame>, b: seq<Frame>)
    ensures OnFrames(decode, s, a + b) == OnFrames(decode, OnFrames(decode, s, a), b)
    decreases a
  {
    hide OnFrame;
    if a == [] {
      assert a + b == b;
    } else {
      assert (a + b)[1..] == a[1..] + b;
      FramesConcat(decode, OnFrame(decode, s, a[0]), a[1..], b);
    }
  }

  lemma DataStep(decode: Decode, s: State, chunk: bytes, rest: seq<Event>)
    ensures Run(decode, s, [Data(chunk)] + rest) == Run(decode, OnData(decode, s, chunk), rest)
  {
    hide OnData;
    assert ([Data(chunk)] + rest)[1..] == rest;
  }

  lemma {:induction false} ArrivalsRun(decode: Decode, s: State, chunks: seq<bytes>)
    ensures var c := AccumulateAll(s.buffer, chunks);
            Run(decode, s, Arrivals(chunks)) == OnFrames(decode, s, c.frames).(buffer := c.rest)
    decreases chunks
  {
    hide Accumulate, OnFrames;
    if chunks == [] {
      NoFrames(decode, s);
    } else {
      var c := Accumulate(s.buffer, chunks[0]);
      var t := OnData(decode, s, chunks[0]);
      DataStep(decode, s, chunks[0], Arrivals(chunks[1..]));
      ArrivalsRun(decode, t, chunks[1..]);
      var more := AccumulateAll(c.rest, chunks[1..]);
      FramesAside(decode, OnFrames(decode, s, c.frames), more.frames, c.rest);
      FramesConcat(decode, s, c.frames, more.frames);
    }
  }

  lemma {:induction false} BufferWaits(decode: Decode, s: State, events: seq<Event>)
    requires Next(s.buffer).NeedMore?
    ensures Next(Run(decode, s, events).buffer).NeedMore?
    decreases events
  {
    hide Next, OnFrames;
    if events != [] {
      match events[0] {
        case Data(chunk) =>
          NextIsStable();
          NothingWaits();
          if !Split(s.buffer + chunk).bad {
            Framing.RestWaits(CUTTER, s.buffer + chunk);
          }
        case _ =>
      }
      BufferWaits(decode, Step(decode, s, events[0]), events[1..]);
    }
  }

  /**
   In every run, however a stream is cut into chunks: with what was left before it, its frames are
   processed one after another and its rest is kept, unless there is an oversized frame.
   */
  lemma ChunksServed(decode: Decode, events: seq<Event>, chunks: seq<bytes>)
    requires !Split(Run(decode, INITIAL, events).buffer + Framing.Flatten(chunks)).bad
    ensures var s := Run(decode, INITIAL, events);
            var c := Split(s.buffer + Framing.Flatten(chunks));
            Run(decode, s, Arrivals(chunks)) == OnFrames(decode, s, c.frames).(buffer := c.rest)
  {
    hide Run, Split, AccumulateAll, OnFrames;
    NothingWaits();
    BufferWaits(decode, INITIAL, events);
    var s := Run(decode, INITIAL, events);
    AccumulatesStream(s.buffer, chunks);
    ArrivalsRun(decode, s, chunks);
  }

  lemma SplitSays(b: bytes)
    ensures |b| < 9 ==> Split(b) == Framing.Cut([], b, false)
    ensures |b| >= 9 && FromBE(b[5..9]) > MAX_FRAME ==> Split(b) == Framing.Cut([], b, true)
    ensures |b| >= 9 && FromBE(b[5..9]) <= MAX_FRAME ==>
      var total := 9 + FromBE(b[5..9]);
      if |b| < total then Split(b) == Framing.Cut([], b, false)
      else Split(b) == Framing.Before([FrameOf(b[..total])], Split(b[total..]))
  {
    NextIsStable();
    hide Framing.Stable, Framing.Split, FromBE, FrameOf;
    Framing.SplitCases(CUTTER, b);
    assert b[0..] == b;
  }

  lemma NoFrames(decode: Decode, s: State)
    ensures OnFrames(decode, s, []) == s
  {
  }

  lemma FrameFirst(decode: Decode, s: State, f: Frame, frames: seq<Frame>)
    ensures OnFrames(decode, s, [f] + frames) == OnFrames(decode, OnFrame(decode, s, f), frames)
  {
    hide OnFrame;
    assert ([f] + frames)[1..] == frames;
  }

  lemma SettleNone(results: map<nat, Outcome>, o: Outcome)
    ensures SettleAll(results, {}, o) == results
  {
  }

  lemma SettleOneMore(results: map<nat, Outcome>, done: set<nat>, n: nat, o: Outcome)
    ensures Settle(SettleAll(results, done, o), n, o) == SettleAll(results, done + {n}, o)
  {
  }

  method RejectEach(results: map<nat, Outcome>, requests: set<nat>) returns (r: map<nat, Outcome>)
    ensures r == SettleAll(results, requests, Closed)
  {
    hide Settle, SettleAll;
    var left := requests;
    r := results;
    SettleNone(results, Closed);
    assert requests - left == {};
    while left != {}
      invariant left <= requests && r == SettleAll(results, requests - left, Closed)
      decreases left
    {
      assert exists x :: x in left;
      var n :| n in left;
      SettleOneMore(results, requests - left, n, Closed);
      assert requests - (left - {n}) == requests - left + {n};
      left := left - {n};
      r := Settle(r, n, Closed);
    }
    assert requests - {} == requests;
  }

  // ---- the connection over its fields ----------------------------------------------

  class CassandraConnection {
    const decode: Decode
    var buffer: bytes
    var stream: nat
    var pending: map<int, nat>
    var connected: bool

    var sent: nat
    var results: map<nat, Outcome>

    ghost function Shown(): State
      reads this
    {
      State(buffer, stream, pending, connected, sent, results)
    }

    constructor (decode: Decode)
      ensures this.decode == decode && Shown() == INITIAL
    {
      this.decode := decode;
      buffer, stream, pending, connected := [], 1, map[], true;
      sent, results := 0, map[];
    }

    method NextStreamId() returns (s: nat)
      modifies this`stream
      ensures s == old(stream) && stream == NextStream(old(stream))
    {
      s := stream;
      stream := stream + 1;
      if stream > IDS {
        stream := 1;
      }
    }

    /** The request's number, and the frame written; nothing is written without a socket. */
    method SendRequest(opcode: byte, body: bytes) returns (n: nat, frame: Option<bytes>)
      requires Inv(Shown()) && |body| < 0x1_0000_0000
      modifies this
      ensures n == old(sent) && Shown() == Step(decode, old(Shown()), Send)
      ensures frame == if connected then Some(BuildFrame(opcode, body, Id(n))) else None
    {
      n := sent;
      sent := sent + 1;
      var sid := NextStreamId();
      pending := pending[sid := n];
      if !connected {
        results := Settle(results, n, NotConnected);
        return n, None;
      }
      frame := Some(BuildFrame(opcode, body, sid));
    }

    method OnWriteError(n: nat)
      requires n < sent
      modifies this
      ensures Shown() == Step(decode, old(Shown()), WriteFails(n))
    {
      pending := pending - {Id(n)};
      results := Settle(results, n, WriteError);
    }

    method OnChunk(chunk: bytes)
      modifies this
      ensures Shown() == Step(decode, old(Shown()), Data(chunk))
    {
      hide OnFrames, Split;
      buffer := buffer + chunk;
      FramesAside(decode, old(Shown()), Split(buffer).frames, buffer);
      ProcessFrames();
    }

    method ProcessFrames()
      modifies this
      ensures var c := Split(old(buffer));
              Shown() == OnFrames(decode, old(Shown()), c.frames).(buffer := if c.bad then [] else c.rest)
    {
      hide Split, OnFrame, OnFrames, Next;
      ghost var all := buffer;
      while true
        invariant Split(all).bad == Split(buffer).bad && Split(all).rest == Split(buffer).rest
        invariant OnFrames(decode, old(Shown()), Split(all).frames)
               == OnFrames(decode, Shown().(buffer := all), Split(buffer).frames)
        decreases |buffer|
      {
        NoFrames(decode, Shown().(buffer := all));
        if |buffer| < 9 {
          SplitSays(buffer);
          return;
        }
        var bodyLen := FromBE(buffer[5..9]);
        SplitSays(buffer);
        if bodyLen > MAX_FRAME {
          buffer := [];
          return;
        }
        var total := 9 + bodyLen;
        if |buffer| < total { return; }
        var frame := buffer[..total];
        buffer := buffer[total..];
        FrameFirst(decode, Shown().(buffer := all), FrameOf(frame), Split(buffer).frames);
        FrameAside(decode, Shown(), FrameOf(frame), all);
        OneFrame(frame);
      }
    }

    method OneFrame(frame: bytes)
      requires |frame| >= 9
      modifies this`pending, this`results
      ensures Shown() == OnFrame(decode, old(Shown()), FrameOf(frame))
    {
      var version := frame[0];
      if version % 128 != VERSION { return; }
      var streamId, opcode, body := Signed16(FromBE(frame[2..4])), frame[4], frame[9..];
      if streamId in pending {
        var n := pending[streamId];
        pending := pending - {streamId};
        results := Settle(results, n, Answered(opcode, body, decode(opcode, body)));
      }
    }

    method RejectPending()
      modifies this`pending, this`results
      ensures Shown() == RejectAll(old(Shown()))
    {
      results := RejectEach(results, Requests(pending));
      pending := map[];
    }

    method OnSocketClose()
      modifies this
      ensures Shown() == Step(decode, old(Shown()), SocketCloses)
    {
      RejectPending();
    }

    method Shut()
      modifies this
      ensures Shown() == Step(decode, old(Shown()), Close)
    {
      connected := false;
      RejectPending();
    }
  }
}
