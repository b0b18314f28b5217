/** AMQP frames: building them, and parsing them out of a stream that arrives in arbitrary chunks. */
module AmqpFrames {
  import opened Bytes
  import opened Doubles
  import Framing

  const METHOD: byte := 1
  const HEADER: byte := 2
  const BODY: byte := 3
  const HEARTBEAT: byte := 8
  const FRAME_END: byte := 0xCE
  const OVERHEAD: nat := 8

  /** A method keeps its undecoded arguments. */
  datatype Frame = Method(channel: nat, classId: nat, methodId: nat, args: bytes)
                 | Header(channel: nat, classId: nat, bodySize: nat, flags: nat)
                 | Body(channel: nat, data: bytes)
                 | Heartbeat(channel: nat)
                 | Unknown(kind: nat, channel: nat)

  /** Whether the arguments of a method can be decoded, which is field reading not modelled here. */
  type Decodes = (nat, nat, bytes) -> bool

  // ---- building --------------------------------------------------------------------

  predicate Buildable(channel: nat, payload: bytes) {
    channel < 0x1_0000 && |payload| < 0x1_0000_0000
  }

  function BuildFrame(kind: byte, channel: nat, payload: bytes): (f: bytes)
    requires Buildable(channel, payload)
    ensures |f| == |payload| + OVERHEAD
  {
    [kind] + ToBE(channel, 2) + ToBE(|payload|, 4) + payload + [FRAME_END]
  }

  // ---- parsing one frame -----------------------------------------------------------

  /** None where the fields do not fit the payload. The body size is read as a number in double precision. */
  function ParseFrame(decodes: Decodes, kind: byte, channel: nat, payload: bytes): Option<Frame> {
    if kind == HEARTBEAT then Some(Heartbeat(channel))
    else if kind == BODY then Some(Body(channel, payload))
    else if kind == HEADER then
      if |payload| < 14 then None
      else Some(Header(channel, FromBE(payload[0..2]), ToDouble(FromBE(payload[4..12])), FromBE(payload[12..14])))
    else if kind == METHOD then
      if |payload| < 4 then None
      else
        var c, m, args := FromBE(payload[0..2]), FromBE(payload[2..4]), payload[4..];
        if decodes(c, m, args) then Some(Method(channel, c, m, args)) else None
    else Some(Unknown(kind, channel))
  }

  /** A missing end marker leaves the buffer alone; a frame that cannot be parsed is already taken from it. */
  function Next(decodes: Decodes, b: bytes): Framing.Next<Frame> {
    if |b| < 7 then Framing.NeedMore
    else
      var size := FromBE(b[3..7]);
      var total := 7 + size + 1;
      if |b| < total then Framing.NeedMore
      else if b[7 + size] != FRAME_END then Framing.Bad(0)
      else
        match ParseFrame(decodes, b[0], FromBE(b[1..3]), b[7..7 + size])
        case None => Framing.Bad(total)
        case Some(frame) => Framing.Take(total, frame)
  }

  function Cutter(decodes: Decodes): bytes -> Framing.Next<Frame> {
    (b: bytes) => Next(decodes, b)
  }

  lemma NextIsStable(decodes: Decodes)
    ensures Framing.Stable(Cutter(decodes)) && Cutter(decodes)([]).NeedMore?
  {
    forall b: bytes, more: bytes | !Next(decodes, b).NeedMore?
      ensures Next(decodes, b + more) == Next(decodes, b)
    {
      NextOfMore(decodes, b, more);
    }
  }

  lemma NextOfMore(decodes: Decodes, b: bytes, more: bytes)
    requires !Next(decodes, b).NeedMore?
    ensures Next(decodes, b + more) == Next(decodes, b)
  {
    hide ParseFrame;
    var size, all := FromBE(b[3..7]), b + more;
    assert all[3..7] == b[3..7] && all[1..3] == b[1..3] && all[7..7 + size] == b[7..7 + size];
  }

  lemma BuiltParses(decodes: Decodes, kind: byte, channel: nat, payload: bytes)
    requires Buildable(channel, payload)
    ensures var f, parsed := BuildFrame(kind, channel, payload), ParseFrame(decodes, kind, channel, payload);
            Next(decodes, f) == if parsed.Some? then Framing.Take(|f|, parsed.value) else Framing.Bad(|f|)
  {
    hide ParseFrame;
    var f := BuildFrame(kind, channel, payload);
    Pow256Values();
    FromToBE(channel, 2);
    FromToBE(|payload|, 4);
    assert f[1..3] == ToBE(channel, 2) && f[3..7] == ToBE(|payload|, 4) && f[7..7 + |payload|] == payload;
  }

  /** The frames of a buffer all at once, and of chunks one after another. */
  ghost function Split(decodes: Decodes, b: bytes): Framing.Cut<Frame> {
    NextIsStable(decodes);
    Framing.Split(Cutter(decodes), b)
  }

  ghost function Feeds(decodes: Decodes, chunks: seq<bytes>): Framing.Cut<Frame> {
    NextIsStable(decodes);
    Framing.Feeds(Cutter(decodes), [], chunks)
  }

  // ---- streams of built frames -----------------------------------------------------

  datatype Sent = Sent(kind: byte, channel: nat, payload: bytes)

  /**
   The frame that `x` carries, by what its payload is made of: a method's class and method with its
   arguments behind them, a header's class, size and flags, a body's data.
   */
  predicate Carries(decodes: Decodes, x: Sent, f: Frame) {
    if x.kind == 8 then f == Heartbeat(x.channel)
    else if x.kind == 3 then f == Body(x.channel, x.payload)
    else if x.kind == 2 then
      && f.Header? && f.channel == x.channel && f.classId < 0x1_0000 && f.flags < 0x1_0000 && |x.payload| >= 14
      && x.payload[0..2] == ToBE(f.classId, 2) && x.payload[12..14] == ToBE(f.flags, 2)
      && f.bodySize == ToDouble(FromBE(x.payload[4..12]))
    else if x.kind == 1 then
      && f.Method? && f.channel == x.channel && f.classId < 0x1_0000 && f.methodId < 0x1_0000
      && x.payload == ToBE(f.classId, 2) + ToBE(f.methodId, 2) + f.args && decodes(f.classId, f.methodId, f.args)
    else f == Unknown(x.kind, x.channel)
  }

  lemma TwoBytes(n: nat, s: bytes)
    requires |s| == 2 && n < 0x1_0000
    ensures FromBE(s) < 0x1_0000 && (s == ToBE(n, 2) <==> n == FromBE(s))
  {
    Pow256Values();
    FromToBE(n, 2);
    ToFromBE(s);
    FromBEBound(s);
  }

  lemma CarriesIs(decodes: Decodes, x: Sent, f: Frame)
    ensures Carries(decodes, x, f) <==> ParseFrame(decodes, x.kind, x.channel, x.payload) == Some(f)
  {
    hide ToBE, FromBE, ToDouble;
    var p := x.payload;
    if x.kind == HEADER && |p| >= 14 && f.Header? {
      HeaderFields(p, f);
    } else if x.kind == METHOD && f.Method? {
      MethodFields(p, f);
    }
  }

  lemma HeaderFields(p: bytes, f: Frame)
    requires |p| >= 14 && f.Header?
    ensures f.classId < 0x1_0000 && p[0..2] == ToBE(f.classId, 2) <==> f.classId == FromBE(p[0..2])
    ensures f.flags < 0x1_0000 && p[12..14] == ToBE(f.flags, 2) <==> f.flags == FromBE(p[12..14])
  {
    hide ToBE, FromBE;
    TwoBytes(if f.classId < 0x1_0000 then f.classId else 0, p[0..2]);
    TwoBytes(if f.flags < 0x1_0000 then f.flags else 0, p[12..14]);
  }

  lemma MethodFields(p: bytes, f: Frame)
    requires f.Method?
    ensures f.classId < 0x1_0000 && f.methodId < 0x1_0000 && p == ToBE(f.classId, 2) + ToBE(f.methodId, 2) + f.args <==>
            |p| >= 4 && f.classId == FromBE(p[0..2]) && f.methodId == FromBE(p[2..4]) && f.args == p[4..]
  {
    hide ToBE, FromBE;
    if |p| >= 4 {
      TwoBytes(if f.classId < 0x1_0000 then f.classId else 0, p[0..2]);
      TwoBytes(if f.methodId < 0x1_0000 then f.methodId else 0, p[2..4]);
      assert p == p[0..2] + p[2..4] + p[4..];
    }
  }

  /** A built frame is cut off whole, as the frame that it carries; one that carries none ends the parsing. */
  lemma BuiltNext(decodes: Decodes, x: Sent, f: Frame)
    requires Buildable(x.channel, x.payload)
    ensures var b := BuildFrame(x.kind, x.channel, x.payload);
            && b[0] == x.kind && b[|b| - 1] == 0xCE
            && (Carries(decodes, x, f) <==> Next(decodes, b) == Framing.Take(|b|, f))
            && (Next(decodes, b) == Framing.Bad(|b|) <==> forall g :: !Carries(decodes, x, g))
  {
    hide ParseFrame, Carries, Next;
    BuiltParses(decodes, x.kind, x.channel, x.payload);
    CarriesIs(decodes, x, f);
    forall g
      ensures Carries(decodes, x, g) <==> ParseFrame(decodes, x.kind, x.channel, x.payload) == Some(g)
    {
      CarriesIs(decodes, x, g);
    }
  }

  /** A method's frame comes out with its class, method and arguments, or ends the parsing where those cannot be decoded. */
  lemma MethodCarried(decodes: Decodes, channel: nat, c: nat, m: nat, args: bytes)
    requires channel < 0x1_0000 && c < 0x1_0000 && m < 0x1_0000 && |args| < 0xFFFF_FFFC
    ensures var b := BuildFrame(1, channel, ToBE(c, 2) + ToBE(m, 2) + args);
            Next(decodes, b) == if decodes(c, m, args) then Framing.Take(|b|, Method(channel, c, m, args)) else Framing.Bad(|b|)
  {
    hide Next, BuildFrame, ToBE, FromBE;
    var x := Sent(METHOD, channel, ToBE(c, 2) + ToBE(m, 2) + args);
    BuiltNext(decodes, x, Method(channel, c, m, args));
    forall g | Carries(decodes, x, g)
      ensures g == Method(channel, c, m, args)
    {
      MethodFields(x.payload, g);
      MethodFields(x.payload, Method(channel, c, m, args));
    }
  }

  predicate CanSend(decodes: Decodes, x: Sent) {
    Buildable(x.channel, x.payload) && ParseFrame(decodes, x.kind, x.channel, x.payload).Some?
  }

  function BuiltOne(decodes: Decodes, x: Sent): bytes
    requires CanSend(decodes, x)
  {
    BuildFrame(x.kind, x.channel, x.payload)
  }

  function ParsedOne(decodes: Decodes, x: Sent): Frame
    requires CanSend(decodes, x)
  {
    ParseFrame(decodes, x.kind, x.channel, x.payload).value
  }

  predicate CanSendAll(decodes: Decodes, xs: seq<Sent>) {
    forall i :: 0 <= i < |xs| ==> CanSend(decodes, xs[i])
  }

  function Built(decodes: Decodes, xs: seq<Sent>): (parts: seq<bytes>)
    requires CanSendAll(decodes, xs)
    ensures |parts| == |xs| && forall i :: 0 <= i < |xs| ==> parts[i] == BuiltOne(decodes, xs[i])
  {
    seq(|xs|, i requires 0 <= i < |xs| => BuiltOne(decodes, xs[i]))
  }

  function Parsed(decodes: Decodes, xs: seq<Sent>): (frames: seq<Frame>)
    requires CanSendAll(decodes, xs)
    ensures |frames| == |xs| && forall i :: 0 <= i < |xs| ==> frames[i] == ParsedOne(decodes, xs[i])
  {
    seq(|xs|, i requires 0 <= i < |xs| => ParsedOne(decodes, xs[i]))
  }

  lemma ParsedComeThrough(decodes: Decodes, xs: seq<Sent>, chunks: seq<bytes>)
    requires CanSendAll(decodes, xs) && Framing.Flatten(chunks) == Framing.Flatten(Built(decodes, xs))
    ensures Feeds(decodes, chunks) == Framing.Cut(Parsed(decodes, xs), [], false)
  {
    NextIsStable(decodes);
    hide Next, CanSend, BuiltOne, ParsedOne, Framing.Stable, Framing.Feeds;
    forall i | 0 <= i < |xs|
      ensures Cutter(decodes)(Built(decodes, xs)[i]) == Framing.Take(|Built(decodes, xs)[i]|, Parsed(decodes, xs)[i])
    {
      SentNext(decodes, xs[i]);
    }
    Framing.FramesComeThrough(Cutter(decodes), Built(decodes, xs), Parsed(decodes, xs), chunks);
  }

  lemma SentNext(decodes: Decodes, x: Sent)
    requires CanSend(decodes, x)
    ensures Next(decodes, BuiltOne(decodes, x)) == Framing.Take(|BuiltOne(decodes, x)|, ParsedOne(decodes, x))
  {
    BuiltParses(decodes, x.kind, x.channel, x.payload);
  }

  predicate AllBuildable(xs: seq<Sent>) {
    forall i :: 0 <= i < |xs| ==> Buildable(xs[i].channel, xs[i].payload)
  }

  /** The bytes of built frames, one behind the other. */
  function Stream(xs: seq<Sent>): bytes
    requires AllBuildable(xs)
  {
    if xs == [] then [] else BuildFrame(xs[0].kind, xs[0].channel, xs[0].payload) + Stream(xs[1..])
  }

  lemma {:induction false} StreamFlattens(decodes: Decodes, xs: seq<Sent>)
    requires CanSendAll(decodes, xs) && AllBuildable(xs)
    ensures Framing.Flatten(Built(decodes, xs)) == Stream(xs)
    decreases |xs|
  {
    hide ParseFrame, BuildFrame, CanSend;
    if xs != [] {
      assert CanSendAll(decodes, xs[1..]);
      assert Built(decodes, xs)[1..] == Built(decodes, xs[1..]);
      StreamFlattens(decodes, xs[1..]);
      assert CanSend(decodes, xs[0]);
    }
  }

  predicate CarriesAll(decodes: Decodes, xs: seq<Sent>, frames: seq<Frame>) {
    |xs| == |frames| && forall i :: 0 <= i < |xs| ==> Carries(decodes, xs[i], frames[i])
  }

  /** Built frames come out again in order, as what they carry, with nothing left, however their bytes are cut into chunks. */
  lemma BuiltComeThrough(decodes: Decodes, xs: seq<Sent>, frames: seq<Frame>, chunks: seq<bytes>)
    requires AllBuildable(xs) && CarriesAll(decodes, xs, frames) && Framing.Flatten(chunks) == Stream(xs)
    ensures Feeds(decodes, chunks) == Framing.Cut(frames, [], false)
  {
    hide ParseFrame, Carries, BuildFrame, Feeds;
    forall i | 0 <= i < |xs|
      ensures CanSend(decodes, xs[i]) && ParsedOne(decodes, xs[i]) == frames[i]
    {
      CarriesIs(decodes, xs[i], frames[i]);
    }
    StreamFlattens(decodes, xs);
    ParsedComeThrough(decodes, xs, chunks);
    assert Parsed(decodes, xs) == frames;
  }

  /** Parsing does not depend on how a stream is cut, whatever its bytes. */
  lemma ChunkingDoesNotMatter(decodes: Decodes, xs: seq<bytes>, ys: seq<bytes>)
    requires Framing.Flatten(xs) == Framing.Flatten(ys)
    ensures var c, d := Feeds(decodes, xs), Feeds(decodes, ys);
            c.frames == d.frames && c.bad == d.bad && (!c.bad ==> c == d)
  {
    NextIsStable(decodes);
    Framing.CuttingsAgree(Cutter(decodes), xs, ys);
  }

  // ---- the parser ------------------------------------------------------------------

  class AmqpParser {
    const decodes: Decodes
    var buf: bytes
    var frames: seq<Frame>

    constructor (decodes: Decodes)
      ensures this.decodes == decodes && buf == [] && frames == []
    {
      this.decodes, buf, frames := decodes, [], [];
    }

    /** Returns false where the source throws. */
    method Feed(chunk: bytes) returns (ok: bool)
      modifies this
      ensures var c := Split(decodes, old(buf) + chunk);
              frames == old(frames) + c.frames && buf == c.rest && ok == !c.bad
    {
      NextIsStable(decodes);
      hide ParseFrame, Framing.Stable, Framing.Split;
      buf := buf + chunk;
      ghost var all := buf;
      while true
        invariant Framing.Before(old(frames), Framing.Split(Cutter(decodes), all))
               == Framing.Before(frames, Framing.Split(Cutter(decodes), buf))
        decreases |buf|
      {
        Framing.SplitCases(Cutter(decodes), buf);
        if |buf| < 7 { return true; }
        var size := FromBE(buf[3..7]);
        var total := 7 + size + 1;
        if |buf| < total { return true; }
        if buf[7 + size] != FRAME_END { return false; }
        var frame := ParseFrame(decodes, buf[0], FromBE(buf[1..3]), buf[7..7 + size]);
        buf := buf[total..];
        if frame.None? { return false; }
        Framing.BeforeBefore(frames, [frame.value], Framing.Split(Cutter(decodes), buf));
        frames := frames + [frame.value];
      }
    }

    method Take() returns (taken: seq<Frame>)
      modifies this`frames
      ensures taken == old(frames) && frames == []
    {
      taken, frames := frames, [];
    }
  }
}
