/** AMQP message content: the publisher cuts a body into frames, the receiver puts it together again. */
module AmqpContent {
  import opened Bytes
  import opened Doubles
  import opened AmqpFrames
  import Framing

  const MAX_BODY: nat := 10 * 1024 * 1024
  const DEFAULT_FRAME_MAX: nat := 131072
  const CONTENT_TYPE: nat := 0x8000
  const DELIVERY_MODE: nat := 0x1000

  // ---- publishing ------------------------------------------------------------------

  function Negotiated(frameMax: nat): nat {
    if frameMax == 0 then DEFAULT_FRAME_MAX else frameMax
  }

  /** Pieces of `size` bytes, the last one shorter if need be; one empty piece for an empty body. */
  function Pieces(body: bytes, size: nat): (r: seq<bytes>)
    requires size >= 1
    ensures |r| >= 1
    decreases |body|
  {
    if |body| <= size then [body] else [body[..size]] + Pieces(body[size..], size)
  }

  /** The condition of the publishing loop, and what a round does to its offset. */
  predicate GoesOn(off: int, size: nat) {
    off < size || off == 0
  }

  function Turn(off: int, maxBody: int): int {
    off + maxBody
  }

  /** The loop advances only when a frame has room for at least one byte of the body. */
  method SplitBody(body: bytes, frameMax: nat) returns (pieces: seq<bytes>)
    requires Negotiated(frameMax) > OVERHEAD
    ensures pieces == Pieces(body, Negotiated(frameMax) - OVERHEAD)
  {
    var maxBody := Negotiated(frameMax) - OVERHEAD;
    pieces := [];
    var off: nat := 0;
    assert body[0..] == body;
    while GoesOn(off, |body|)
      invariant off == 0 ==> pieces == []
      invariant if GoesOn(off, |body|) then off <= |body| && Pieces(body, maxBody) == pieces + Pieces(body[off..], maxBody)
                else Pieces(body, maxBody) == pieces
      decreases |body| - off
    {
      var end := if off + maxBody <= |body| then off + maxBody else |body|;
      pieces := pieces + [body[off..end]];
      assert off + maxBody < |body| ==> body[off..][..maxBody] == body[off..end] && body[off..][maxBody..] == body[end..];
      assert off + maxBody >= |body| ==> body[off..end] == body[off..];
      if body == [] { break; }
      off := Turn(off, maxBody);
    }
  }

  /** The offset after `k` rounds of the loop, if it gets so far. */
  function AfterRounds(k: nat, maxBody: int): int {
    if k == 0 then 0 else Turn(AfterRounds(k - 1, maxBody), maxBody)
  }

  predicate EndsAfter(k: nat, frameMax: nat, size: nat) {
    !GoesOn(AfterRounds(k, Negotiated(frameMax) - OVERHEAD), size)
  }

  /** The loop over a body that is not empty comes to its end exactly when a frame has room for a byte of it. */
  lemma NoRoomNoEnd(body: bytes, frameMax: nat)
    requires body != []
    ensures (exists k: nat :: EndsAfter(k, frameMax, |body|)) <==> frameMax == 0 || frameMax > 8
  {
    var maxBody := Negotiated(frameMax) - OVERHEAD;
    if maxBody > 0 {
      Advances(|body|, maxBody);
      assert EndsAfter(|body|, frameMax, |body|);
    } else {
      forall k: nat
        ensures !EndsAfter(k, frameMax, |body|)
      {
        StaysBehind(k, maxBody);
      }
    }
  }

  lemma {:induction false} Advances(k: nat, maxBody: int)
    requires maxBody >= 1
    ensures AfterRounds(k, maxBody) >= k
  {
    if k > 0 {
      Advances(k - 1, maxBody);
    }
  }

  lemma {:induction false} StaysBehind(k: nat, maxBody: int)
    requires maxBody <= 0
    ensures AfterRounds(k, maxBody) <= 0
  {
    if k > 0 {
      StaysBehind(k - 1, maxBody);
    }
  }

  lemma {:induction false} PiecesJoin(body: bytes, size: nat)
    requires size >= 1
    ensures Framing.Flatten(Pieces(body, size)) == body
    decreases |body|
  {
    if |body| <= size {
      assert Framing.Flatten([body]) == body + [] == body;
    } else {
      PiecesJoin(body[size..], size);
      var rest := Pieces(body[size..], size);
      assert ([body[..size]] + rest)[1..] == rest;
    }
  }

  /** All pieces but the last are full, so there are as few as can be. */
  predicate WellCut(ps: seq<bytes>, size: nat) {
    && (forall i :: 0 <= i < |ps| ==> |ps[i]| <= size)
    && (forall i :: 0 <= i < |ps| - 1 ==> |ps[i]| == size)
  }

  lemma {:induction false} PieceSizes(body: bytes, size: nat)
    requires size >= 1
    ensures WellCut(Pieces(body, size), size)
    ensures body != [] ==> forall i :: 0 <= i < |Pieces(body, size)| ==> Pieces(body, size)[i] != []
    decreases |body|
  {
    if |body| > size {
      PieceSizes(body[size..], size);
      PutBefore(body[..size], Pieces(body[size..], size), size);
    }
  }

  lemma PutBefore(p: bytes, ps: seq<bytes>, size: nat)
    requires |p| == size >= 1 && WellCut(ps, size) && forall i :: 0 <= i < |ps| ==> ps[i] != []
    ensures WellCut([p] + ps, size) && forall i :: 0 <= i < |ps| + 1 ==> ([p] + ps)[i] != []
  {
  }

  lemma {:induction false} PieceCount(body: bytes, size: nat)
    requires size >= 1
    ensures |Pieces(body, size)| == if body == [] then 1 else (|body| - 1) / size + 1
    decreases |body|
  {
    if |body| > size {
      PieceCount(body[size..], size);
      OneMore(|body| - 1, size);
    } else if body != [] {
      assert (|body| - 1) / size == 0;
    }
  }

  lemma OneMore(n: nat, d: nat)
    requires 1 <= d <= n
    ensures n / d == (n - d) / d + 1
  {
    var q, r := (n - d) / d, (n - d) % d;
    assert d * (q + 1) == d * q + d;
    DivModUnique(n, d, q + 1, r);
  }

  /** No frame of a published body is longer than the negotiated maximum. */
  lemma FramesFit(channel: nat, body: bytes, frameMax: nat, i: nat)
    requires Negotiated(frameMax) > OVERHEAD && channel < 0x1_0000
    requires var ps := Pieces(body, Negotiated(frameMax) - OVERHEAD);
             i < |ps| && |ps[i]| < 0x1_0000_0000
    ensures |BuildFrame(BODY, channel, Pieces(body, Negotiated(frameMax) - OVERHEAD)[i])|
         <= if frameMax == 0 then 131072 else frameMax
  {
    PieceSizes(body, Negotiated(frameMax) - OVERHEAD);
  }

  // ---- the content header ----------------------------------------------------------

  /** None where the source throws: a scratch buffer holds the flags only if two bytes of properties follow. */
  function HeaderPayload(classId: nat, bodySize: nat, contentType: Option<bytes>, deliveryMode: Option<nat>): Option<bytes> {
    var kind := if contentType.Some? && contentType.value != [] then Some(contentType.value) else None;
    if kind.Some? && |kind.value| > 255 then None
    else
      var props := (if kind.Some? then [|kind.value|] + kind.value else [])
                 + (if deliveryMode.Some? then [deliveryMode.value % 256] else []);
      var flags := (if kind.Some? then CONTENT_TYPE else 0) + (if deliveryMode.Some? then DELIVERY_MODE else 0);
      if classId >= 0x1_0000 || bodySize >= Pow256(8) || |props| < 2 then None
      else Some(ToBE(classId, 2) + [0, 0] + ToBE(bodySize, 8) + ToBE(flags, 2) + props)
  }

  /** Only a content type makes the properties long enough: without one no header can be built. */
  lemma HeaderBuildableIff(classId: nat, bodySize: nat, contentType: Option<bytes>, deliveryMode: Option<nat>)
    ensures HeaderPayload(classId, bodySize, contentType, deliveryMode).Some?
            <==> classId < 0x1_0000 && bodySize < Pow256(8) && contentType.Some? && 1 <= |contentType.value| <= 255
  {
  }

  /**
   A header that can be built always parses, and carries its class, the size of the body, a flag for each
   property given, and the properties in the order of their flags.
   */
  lemma HeaderParses(decodes: Decodes, channel: nat, classId: nat, bodySize: nat, contentType: Option<bytes>, deliveryMode: Option<nat>)
    requires HeaderPayload(classId, bodySize, contentType, deliveryMode).Some?
    ensures var p := HeaderPayload(classId, bodySize, contentType, deliveryMode).value;
            var f := ParseFrame(decodes, HEADER, channel, p);
            f.Some? && f.value.Header? && f.value.channel == channel && f.value.classId == classId
            && f.value.bodySize == ToDouble(bodySize) && (bodySize <= TWO53 ==> f.value.bodySize == bodySize)
            && f.value.flags == 0x8000 + (if deliveryMode.Some? then 0x1000 else 0)
            && p[2..4] == [0, 0] && contentType.Some?
            && p[14..] == [|contentType.value|] + contentType.value + (if deliveryMode.Some? then [deliveryMode.value % 256] else [])
  {
    hide FromBE, ToBE, ToDouble, FitsDouble;
    var p := HeaderPayload(classId, bodySize, contentType, deliveryMode).value;
    Pow256Values();
    FromToBE(classId, 2);
    FromToBE(0x8000 + (if deliveryMode.Some? then 0x1000 else 0), 2);
    assert p[12..14] == ToBE(0x8000 + (if deliveryMode.Some? then 0x1000 else 0), 2);
    KeptIffFits(bodySize);
    if bodySize <= TWO53 {
      SmallFits(bodySize);
    }
    FromToBE(bodySize, 8);
    assert p[0..2] == ToBE(classId, 2) && p[4..12] == ToBE(bodySize, 8);
  }

  // ---- collecting ------------------------------------------------------------------

  datatype Collected = Whole(body: bytes, rest: seq<Frame>) | Unexpected(frame: Frame) | TooBig(size: nat) | Waiting

  function CollectBody(frames: seq<Frame>, total: nat, received: bytes): Collected
    decreases frames
  {
    if |received| >= total then Whole(received, frames)
    else if frames == [] then Waiting
    else if !frames[0].Body? then Unexpected(frames[0])
    else CollectBody(frames[1..], total, received + frames[0].data)
  }

  function Collect(frames: seq<Frame>): Collected {
    if frames == [] then Waiting
    else if !frames[0].Header? then Unexpected(frames[0])
    else if frames[0].bodySize > MAX_BODY then TooBig(frames[0].bodySize)
    else CollectBody(frames[1..], frames[0].bodySize, [])
  }

  method CollectMessage(frames: seq<Frame>) returns (r: Collected)
    ensures r == Collect(frames)
  {
    if frames == [] { return Waiting; }
    var header := frames[0];
    if !header.Header? { return Unexpected(header); }
    var totalSize := header.bodySize;
    if totalSize > MAX_BODY { return TooBig(totalSize); }
    var chunks: bytes, received: nat, next: nat := [], 0, 1;
    while received < totalSize
      invariant 1 <= next <= |frames| && received == |chunks|
      invariant Collect(frames) == CollectBody(frames[next..], totalSize, chunks)
      decreases |frames| - next
    {
      if next == |frames| { return Waiting; }
      var body := frames[next];
      if !body.Body? { return Unexpected(body); }
      assert frames[next..][1..] == frames[next + 1..];
      chunks := chunks + body.data;
      received := received + |body.data|;
      next := next + 1;
    }
    return Whole(chunks, frames[next..]);
  }

  function BodyFrames(channel: nat, pieces: seq<bytes>): (r: seq<Frame>)
    ensures |r| == |pieces|
  {
    if pieces == [] then [] else [Body(channel, pieces[0])] + BodyFrames(channel, pieces[1..])
  }

  lemma CollectStep(channel: nat, data: bytes, more: seq<Frame>, total: nat, before: bytes)
    requires |before| < total
    ensures CollectBody([Body(channel, data)] + more, total, before) == CollectBody(more, total, before + data)
  {
    assert ([Body(channel, data)] + more)[1..] == more;
  }

  lemma {:induction false} PiecesCollect(channel: nat, pieces: seq<bytes>, before: bytes, rest: seq<Frame>)
    requires forall i :: 0 <= i < |pieces| ==> pieces[i] != []
    ensures CollectBody(BodyFrames(channel, pieces) + rest, |before + Framing.Flatten(pieces)|, before)
         == Whole(before + Framing.Flatten(pieces), rest)
    decreases pieces
  {
    if pieces == [] {
      assert [] + rest == rest && before + [] == before;
    } else {
      hide CollectBody;
      var more, tail := BodyFrames(channel, pieces[1..]) + rest, Framing.Flatten(pieces[1..]);
      assert BodyFrames(channel, pieces) + rest == [Body(channel, pieces[0])] + more;
      assert before + Framing.Flatten(pieces) == before + pieces[0] + tail;
      CollectStep(channel, pieces[0], more, |before + pieces[0] + tail|, before);
      PiecesCollect(channel, pieces[1..], before + pieces[0], rest);
    }
  }

  /**
   What was published is collected, and the frames behind it are left; an empty body leaves its one
   empty frame behind as well.
   */
  lemma PublishedIsCollected(channel: nat, classId: nat, flags: nat, body: bytes, size: nat, rest: seq<Frame>)
    requires size >= 1 && |body| <= 10_485_760
    ensures var frames := [Header(channel, classId, |body|, flags)] + BodyFrames(channel, Pieces(body, size)) + rest;
            Collect(frames) == Whole(body, if body == [] then [Body(channel, [])] + rest else rest)
  {
    var pieces := Pieces(body, size);
    var header, more := Header(channel, classId, |body|, flags), BodyFrames(channel, pieces) + rest;
    assert [header] + BodyFrames(channel, pieces) + rest == [header] + more;
    assert ([header] + more)[1..] == more;
    PiecesJoin(body, size);
    PieceSizes(body, size);
    if body != [] {
      PiecesCollect(channel, pieces, [], rest);
      assert [] + body == body;
    } else {
      assert pieces == [[]] && BodyFrames(channel, [[]]) == [Body(channel, [])] + BodyFrames(channel, []) == [Body(channel, [])];
    }
  }

  /** Anything but a header first, a body of more than 10 MiB, and anything but a body frame before it is complete is refused. */
  lemma CollectRefuses(frame: Frame, before: seq<bytes>, channel: nat, classId: nat, size: nat, flags: nat, rest: seq<Frame>)
    requires |Framing.Flatten(before)| < size
    ensures !frame.Header? ==> Collect([frame] + rest) == Unexpected(frame)
    ensures size > 10_485_760 ==> Collect([Header(channel, classId, size, flags)] + rest) == TooBig(size)
    ensures size <= 10_485_760 && !frame.Body? ==>
      Collect([Header(channel, classId, size, flags)] + (BodyFrames(channel, before) + ([frame] + rest))) == Unexpected(frame)
    ensures size <= 10_485_760 ==> Collect([Header(channel, classId, size, flags)] + BodyFrames(channel, before)) == Waiting
  {
    var h, stop := Header(channel, classId, size, flags), [frame] + rest;
    assert ([h] + (BodyFrames(channel, before) + stop))[1..] == BodyFrames(channel, before) + stop;
    assert ([h] + BodyFrames(channel, before))[1..] == BodyFrames(channel, before) == BodyFrames(channel, before) + [];
    CollectsOn(channel, before, [], stop, size);
    CollectsOn(channel, before, [], [], size);
    assert [] + Framing.Flatten(before) == Framing.Flatten(before);
  }

  lemma {:induction false} CollectsOn(channel: nat, pieces: seq<bytes>, before: bytes, more: seq<Frame>, total: nat)
    requires |before + Framing.Flatten(pieces)| < total
    ensures CollectBody(BodyFrames(channel, pieces) + more, total, before) == CollectBody(more, total, before + Framing.Flatten(pieces))
    decreases pieces
  {
    if pieces == [] {
      assert [] + more == more && before + [] == before;
    } else {
      hide CollectBody;
      var rest, tail := BodyFrames(channel, pieces[1..]) + more, Framing.Flatten(pieces[1..]);
      assert BodyFrames(channel, pieces) + more == [Body(channel, pieces[0])] + rest;
      assert before + Framing.Flatten(pieces) == before + pieces[0] + tail;
      hide BodyFrames, Framing.Flatten;
      CollectStep(channel, pieces[0], rest, total, before);
      CollectsOn(channel, pieces[1..], before + pieces[0], more, total);
    }
  }

  // ---- from one end to the other ---------------------------------------------------

  function BodySent(channel: nat, pieces: seq<bytes>): seq<Sent> {
    seq(|pieces|, i requires 0 <= i < |pieces| => Sent(BODY, channel, pieces[i]))
  }

  /** What the publisher writes behind its method frame. */
  function ContentSent(channel: nat, header: bytes, body: bytes, frameMax: nat): (xs: seq<Sent>)
    requires Negotiated(frameMax) > OVERHEAD
  {
    [Sent(HEADER, channel, header)] + BodySent(channel, Pieces(body, Negotiated(frameMax) - OVERHEAD))
  }

  lemma BodySentParses(decodes: Decodes, channel: nat, pieces: seq<bytes>)
    requires channel < 0x1_0000 && forall i :: 0 <= i < |pieces| ==> |pieces[i]| < 0x1_0000_0000
    ensures CanSendAll(decodes, BodySent(channel, pieces))
    ensures Parsed(decodes, BodySent(channel, pieces)) == BodyFrames(channel, pieces)
  {
    var xs := BodySent(channel, pieces);
    forall i | 0 <= i < |xs|
      ensures CanSend(decodes, xs[i]) && ParsedOne(decodes, xs[i]) == Body(channel, pieces[i])
    {
    }
    forall i | 0 <= i < |pieces|
      ensures BodyFrames(channel, pieces)[i] == Body(channel, pieces[i])
    {
      BodyFrameAt(channel, pieces, i);
    }
  }

  lemma {:induction false} BodyFrameAt(channel: nat, pieces: seq<bytes>, i: nat)
    requires i < |pieces|
    ensures BodyFrames(channel, pieces)[i] == Body(channel, pieces[i])
    decreases i
  {
    if i > 0 {
      BodyFrameAt(channel, pieces[1..], i - 1);
    }
  }

  lemma ContentParses(decodes: Decodes, channel: nat, header: bytes, body: bytes, frameMax: nat)
    requires Negotiated(frameMax) > OVERHEAD && channel < 0x1_0000 && |body| <= MAX_BODY
    requires |header| < 0x1_0000_0000 && ParseFrame(decodes, HEADER, channel, header).Some?
    ensures var xs, pieces := ContentSent(channel, header, body, frameMax), Pieces(body, Negotiated(frameMax) - OVERHEAD);
            && CanSendAll(decodes, xs)
            && Parsed(decodes, xs) == [ParseFrame(decodes, HEADER, channel, header).value] + BodyFrames(channel, pieces)
  {
    hide ParseFrame;
    var size := Negotiated(frameMax) - OVERHEAD;
    var pieces := Pieces(body, size);
    NoLongerThan(body, size);
    BodySentParses(decodes, channel, pieces);
    var xs, tail := ContentSent(channel, header, body, frameMax), BodySent(channel, pieces);
    assert CanSend(decodes, xs[0]);
    assert forall i :: 1 <= i < |xs| ==> xs[i] == tail[i - 1];
    assert forall i :: 1 <= i < |xs| ==> Parsed(decodes, xs)[i] == Parsed(decodes, tail)[i - 1];
  }

  lemma {:induction false} NoLongerThan(body: bytes, size: nat)
    requires size >= 1
    ensures forall i :: 0 <= i < |Pieces(body, size)| ==> |Pieces(body, size)[i]| <= |body|
    decreases |body|
  {
    if |body| > size {
      var rest := Pieces(body[size..], size);
      NoLongerThan(body[size..], size);
      assert forall i :: 1 <= i < |rest| + 1 ==> ([body[..size]] + rest)[i] == rest[i - 1];
    }
  }

  /**
   A body published under any frame limit, its bytes cut into any chunks on the way, is parsed and
   collected as it was, and with a body that is not empty no frame is left over.
   */
  lemma PublishedArrives(decodes: Decodes, channel: nat, classId: nat, contentType: Option<bytes>, deliveryMode: Option<nat>,
                         body: bytes, frameMax: nat, chunks: seq<bytes>)
    requires Negotiated(frameMax) > OVERHEAD && channel < 0x1_0000 && |body| <= 10_485_760
    requires HeaderPayload(classId, |body|, contentType, deliveryMode).Some?
    ensures var xs := ContentSent(channel, HeaderPayload(classId, |body|, contentType, deliveryMode).value, body, frameMax);
            && CanSendAll(decodes, xs)
            && (Framing.Flatten(chunks) == Framing.Flatten(Built(decodes, xs)) ==>
                  var c := Feeds(decodes, chunks);
                  !c.bad && c.rest == [] && Collect(c.frames) == Whole(body, if body == [] then [Body(channel, [])] else []))
  {
    hide ParseFrame, HeaderPayload, Feeds, Collect, CanSendAll, Built, Parsed, ContentSent, BodyFrames, Pieces;
    var header := HeaderPayload(classId, |body|, contentType, deliveryMode).value;
    var xs, size := ContentSent(channel, header, body, frameMax), Negotiated(frameMax) - OVERHEAD;
    ShortHeader(classId, |body|, contentType, deliveryMode);
    HeaderParses(decodes, channel, classId, |body|, contentType, deliveryMode);
    ContentParses(decodes, channel, header, body, frameMax);
    if Framing.Flatten(chunks) == Framing.Flatten(Built(decodes, xs)) {
      ParsedComeThrough(decodes, xs, chunks);
    }
    var h := ParseFrame(decodes, HEADER, channel, header).value;
    PublishedIsCollected(channel, classId, h.flags, body, size, []);
    assert [h] + BodyFrames(channel, Pieces(body, size)) + [] == [h] + BodyFrames(channel, Pieces(body, size));
    assert [Body(channel, [])] + [] == [Body(channel, [])];
  }

  lemma ShortHeader(classId: nat, bodySize: nat, contentType: Option<bytes>, deliveryMode: Option<nat>)
    requires HeaderPayload(classId, bodySize, contentType, deliveryMode).Some?
    ensures |HeaderPayload(classId, bodySize, contentType, deliveryMode).value| <= 271
  {
  }
}
