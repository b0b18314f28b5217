/** Cutting a stream of bytes into frames as its chunks arrive, for any frame format. */
module Framing {
  import opened Bytes

  /** What the start of a buffer says: wait, a frame of some length, or an error after some bytes. */
  datatype Next<+F> = NeedMore | Take(len: nat, frame: F) | Bad(skip: nat)

  /** A verdict other than waiting does not depend on what follows, and lies within the buffer. */
  ghost predicate Stable<F(!new)>(next: bytes -> Next<F>) {
    && (forall b :: next(b).Take? ==> 0 < next(b).len <= |b|)
    && (forall b :: next(b).Bad? ==> next(b).skip <= |b|)
    && (forall b, more :: !next(b).NeedMore? ==> next(b + more) == next(b))
  }

  /** The frames at the front of a buffer, what is left of it, and whether an error ended the work. */
  datatype Cut<+F> = Cut(frames: seq<F>, rest: bytes, bad: bool)

  ghost function Split<F(!new)>(next: bytes -> Next<F>, b: bytes): (c: Cut<F>)
    requires Stable(next)
    ensures |c.rest| <= |b|
    decreases |b|
  {
    match next(b)
    case NeedMore => Cut([], b, false)
    case Bad(skip) => Cut([], b[skip..], true)
    case Take(len, frame) => Before([frame], Split(next, b[len..]))
  }

  function Before<F>(frames: seq<F>, c: Cut<F>): Cut<F> {
    c.(frames := frames + c.frames)
  }

  /** Chunks fed one after another, up to one that ends in an error. */
  ghost function Feeds<F(!new)>(next: bytes -> Next<F>, rest: bytes, chunks: seq<bytes>): Cut<F>
    requires Stable(next)
    decreases chunks
  {
    if chunks == [] then Cut([], rest, false)
    else
      var c := Split(next, rest + chunks[0]);
      if c.bad then c else Before(c.frames, Feeds(next, c.rest, chunks[1..]))
  }

  function Flatten(chunks: seq<bytes>): bytes {
    if chunks == [] then [] else chunks[0] + Flatten(chunks[1..])
  }

  lemma BeforeBefore<F>(a: seq<F>, b: seq<F>, c: Cut<F>)
    ensures Before(a, Before(b, c)) == Before(a + b, c)
  {
    assert a + (b + c.frames) == a + b + c.frames;
  }

  lemma BeforeNone<F>(c: Cut<F>)
    ensures Before([], c) == c
  {
    assert [] + c.frames == c.frames;
  }

  lemma SplitCases<F(!new)>(next: bytes -> Next<F>, b: bytes)
    requires Stable(next)
    ensures var n := next(b);
            && (n.NeedMore? ==> Split(next, b) == Cut([], b, false))
            && (n.Bad? ==> n.skip <= |b| && Split(next, b) == Cut([], b[n.skip..], true))
            && (n.Take? ==> n.len <= |b| && Split(next, b) == Before([n.frame], Split(next, b[n.len..])))
  {
  }

  lemma SplitStep<F(!new)>(next: bytes -> Next<F>, a: bytes, more: bytes)
    requires Stable(next) && next(a).Take?
    ensures var n := next(a);
            && Split(next, a) == Before([n.frame], Split(next, a[n.len..]))
            && Split(next, a + more) == Before([n.frame], Split(next, a[n.len..] + more))
  {
    assert next(a + more) == next(a);
    assert (a + more)[next(a).len..] == a[next(a).len..] + more;
  }

  /** More bytes continue where the work stopped, unless it stopped at an error, which they do not mend. */
  lemma {:induction false} SplitMore<F(!new)>(next: bytes -> Next<F>, a: bytes, more: bytes)
    requires Stable(next)
    ensures var c, d := Split(next, a), Split(next, a + more);
            if c.bad then d.bad && d.frames == c.frames && d.rest == c.rest + more
            else d == Before(c.frames, Split(next, c.rest + more))
    decreases |a|
  {
    match next(a)
    case NeedMore => BeforeNone(Split(next, a + more));
    case Bad(skip) =>
      assert next(a + more) == next(a);
      assert (a + more)[skip..] == a[skip..] + more;
    case Take(len, frame) =>
      SplitStep(next, a, more);
      SplitMore(next, a[len..], more);
      var c := Split(next, a[len..]);
      BeforeBefore([frame], c.frames, Split(next, c.rest + more));
  }

  /** The rest of a buffer holds no further frame. */
  lemma {:induction false} RestWaits<F(!new)>(next: bytes -> Next<F>, a: bytes)
    requires Stable(next) && !Split(next, a).bad
    ensures next(Split(next, a).rest).NeedMore? && Split(next, Split(next, a).rest) == Cut([], Split(next, a).rest, false)
    decreases |a|
  {
    if next(a).Take? {
      RestWaits(next, a[next(a).len..]);
    }
  }

  /**
   Feeding chunks gives what the whole stream at once gives: the same frames, the same rest when no
   chunk ends in an error, and an error for the one exactly when for the other.
   */
  lemma {:induction false} AnyCutting<F(!new)>(next: bytes -> Next<F>, rest: bytes, chunks: seq<bytes>)
    requires Stable(next) && next(rest).NeedMore?
    ensures var c, d := Feeds(next, rest, chunks), Split(next, rest + Flatten(chunks));
            c.frames == d.frames && c.bad == d.bad && (!c.bad ==> c.rest == d.rest)
    decreases chunks
  {
    if chunks == [] {
      assert rest + [] == rest;
    } else {
      var c, tail := Split(next, rest + chunks[0]), Flatten(chunks[1..]);
      assert rest + (chunks[0] + tail) == rest + chunks[0] + tail;
      SplitMore(next, rest + chunks[0], tail);
      if !c.bad {
        RestWaits(next, rest + chunks[0]);
        AnyCutting(next, c.rest, chunks[1..]);
      }
    }
  }

  /** Two cuttings of one stream cannot be told apart by the frames, nor by the rest if no error occurs. */
  lemma CuttingsAgree<F(!new)>(next: bytes -> Next<F>, xs: seq<bytes>, ys: seq<bytes>)
    requires Stable(next) && next([]).NeedMore? && Flatten(xs) == Flatten(ys)
    ensures var c, d := Feeds(next, [], xs), Feeds(next, [], ys);
            c.frames == d.frames && c.bad == d.bad && (!c.bad ==> c == d)
  {
    AnyCutting(next, [], xs);
    AnyCutting(next, [], ys);
  }

  /** A stream made of whole frames, each with its own bytes. */
  ghost predicate Spells<F(!new)>(next: bytes -> Next<F>, parts: seq<bytes>, frames: seq<F>) {
    && |parts| == |frames|
    && forall i :: 0 <= i < |parts| ==> next(parts[i]) == Take(|parts[i]|, frames[i])
  }

  lemma {:induction false} WholeFrames<F(!new)>(next: bytes -> Next<F>, parts: seq<bytes>, frames: seq<F>, more: bytes)
    requires Stable(next) && Spells(next, parts, frames)
    ensures Split(next, Flatten(parts) + more) == Before(frames, Split(next, more))
    decreases parts
  {
    if parts == [] {
      assert [] + more == more;
      BeforeNone(Split(next, more));
    } else {
      var tail := Flatten(parts[1..]) + more;
      assert parts[0] + Flatten(parts[1..]) + more == parts[0] + tail;
      SplitStep(next, parts[0], tail);
      assert parts[0][|parts[0]|..] + tail == tail;
      WholeFrames(next, parts[1..], frames[1..], more);
      BeforeBefore([frames[0]], frames[1..], Split(next, more));
      assert [frames[0]] + frames[1..] == frames;
    }
  }

  /** Under any cutting, whole frames come out as they are, in order, with nothing left. */
  lemma FramesComeThrough<F(!new)>(next: bytes -> Next<F>, parts: seq<bytes>, frames: seq<F>, chunks: seq<bytes>)
    requires Stable(next) && next([]).NeedMore? && Spells(next, parts, frames) && Flatten(chunks) == Flatten(parts)
    ensures Feeds(next, [], chunks) == Cut(frames, [], false)
  {
    WholeFrames(next, parts, frames, []);
    assert Flatten(parts) + [] == [] + Flatten(chunks);
    AnyCutting(next, [], chunks);
    assert frames + [] == frames;
  }
}
