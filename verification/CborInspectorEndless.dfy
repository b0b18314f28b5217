/**
 Where the inspector does not come back. It checks less than the decoder, so the items that it passes
 over on its way form a looser grammar; they are whole, since bytes follow them.
 */
module CborInspectorEndless {
  import opened Bytes
  import opened CborWire
  import opened CborDecoder
  import opened CborProofs
  import A = CborAcceptance
  import D = CborEndless
  import I = CborInspector

  // ---- chunks ----------------------------------------------------------------------

  /** A chunk as the inspector takes it: of any major type. */
  datatype Loose = Loose(mt: nat, chunk: Chunk)

  predicate ValidLoose(ls: seq<Loose>) {
    ls == [] || (ls[0].mt < 8 && ValidChunk(ls[0].chunk) && ValidLoose(ls[1..]))
  }

  function LooseBytes(l: Loose): bytes
    requires l.mt < 8 && ValidHead(l.chunk.head)
  {
    HeadBytes(l.mt, l.chunk.head) + l.chunk.data
  }

  function SerializeLoose(ls: seq<Loose>): bytes
    requires ValidLoose(ls)
  {
    if ls == [] then [] else LooseBytes(ls[0]) + SerializeLoose(ls[1..])
  }

  /** Some chunks of any major types, and then a head with additional information 31 that is no break. */
  ghost predicate InspectorStuck(buf: bytes, pos: nat, ls: seq<Loose>, b: byte) {
    && b % 32 == 31 && b != 0xFF
    && ValidLoose(ls) && At(buf, pos, SerializeLoose(ls) + [b])
  }

  lemma {:induction false} LooseStuck(buf: bytes, pos: nat, ls: seq<Loose>, b: byte, lengths: seq<int>, size: int)
    requires InspectorStuck(buf, pos, ls, b)
    ensures pos <= |buf| && I.InspectChunks(buf, pos, lengths, size) == I.Bad(Endless)
    decreases ls
  {
    hide At, HeadBytes, I.InspectChunks;
    AtConcat(buf, pos, SerializeLoose(ls), [b]);
    if ls == [] {
      AtByte(buf, pos, b);
      I.ChunksStep(buf, pos, lengths, size);
    } else {
      var l, rest := ls[0], SerializeLoose(ls[1..]);
      AtConcat(buf, pos, LooseBytes(l), rest);
      I.ChunkInspected(buf, pos, l.mt, l.chunk, lengths, size);
      var next := pos + |LooseBytes(l)|;
      AtConcat(buf, next, rest, [b]);
      LooseStuck(buf, next, ls[1..], b, lengths + [|l.chunk.data|], size + 1 + |l.chunk.data|);
    }
  }

  lemma LooseAccepted(buf: bytes, pos: nat) returns (l: Loose)
    requires pos < |buf| && buf[pos] % 32 != 31 && ArgumentAt(buf, pos + 1, buf[pos] % 32).Arg?
    requires var a := ArgumentAt(buf, pos + 1, buf[pos] % 32); a.pos + a.value <= |buf|
    ensures l.mt < 8 && ValidChunk(l.chunk) && At(buf, pos, LooseBytes(l))
    ensures var a := ArgumentAt(buf, pos + 1, buf[pos] % 32); pos + |LooseBytes(l)| == a.pos + a.value
  {
    hide HeadBytes, At;
    var mt := buf[pos] / 32;
    var h := A.HeadAccepted(buf, pos);
    var at := pos + |HeadBytes(mt, h)|;
    l := Loose(mt, Chunk(h, buf[at..at + h.arg]));
    AtSlice(buf, at, l.chunk.data);
    AtConcat(buf, pos, HeadBytes(mt, h), l.chunk.data);
  }

  lemma {:induction false} WhereInspectorStuck(buf: bytes, pos: nat, lengths: seq<int>, size: int) returns (ls: seq<Loose>, b: byte)
    requires pos <= |buf| && I.InspectChunks(buf, pos, lengths, size) == I.Bad(Endless)
    ensures InspectorStuck(buf, pos, ls, b)
    decreases |buf| - pos
  {
    hide At, HeadBytes, LooseBytes, I.InspectChunks, ArgumentAt;
    if pos == |buf| { I.NoChunksLeft(buf, lengths, size); }
    I.ChunksStep(buf, pos, lengths, size);
    if buf[pos] % 32 == 31 {
      ls, b := [], buf[pos];
      AtByte(buf, pos, b);
      assert SerializeLoose([]) + [b] == [b];
    } else {
      NoEndlessArgument(buf, pos + 1, buf[pos] % 32);
      var a := ArgumentAt(buf, pos + 1, buf[pos] % 32);
      var l := LooseAccepted(buf, pos);
      var rest;
      rest, b := WhereInspectorStuck(buf, a.pos + a.value, lengths + [a.value], size + 1 + a.value);
      ls := [l] + rest;
      assert ls[1..] == rest;
      AtConcat(buf, pos, LooseBytes(l), SerializeLoose(rest) + [b]);
      assert SerializeLoose(ls) + [b] == LooseBytes(l) + (SerializeLoose(rest) + [b]);
    }
  }

  lemma NoEndlessArgument(buf: bytes, pos: nat, ai: nat)
    requires pos <= |buf| && ai < 32
    ensures ArgumentAt(buf, pos, ai) != ArgFail(Endless)
  {
  }

  /** The inspector's loop over chunks does not end exactly when such a head follows chunks of any major types. */
  lemma InspectorEndlessIff(buf: bytes, pos: nat, lengths: seq<int>, size: int)
    requires pos <= |buf|
    ensures I.InspectChunks(buf, pos, lengths, size) == I.Bad(Endless) <==> exists ls, b :: InspectorStuck(buf, pos, ls, b)
  {
    hide InspectorStuck, I.InspectChunks;
    if I.InspectChunks(buf, pos, lengths, size) == I.Bad(Endless) {
      var ls, b := WhereInspectorStuck(buf, pos, lengths, size);
    }
    if ls, b :| InspectorStuck(buf, pos, ls, b) {
      LooseStuck(buf, pos, ls, b, lengths, size);
    }
  }

  // ---- heads and items as the inspector takes them ---------------------------------

  /** A head whose reserved additional information, from 28 to 30, reads as 0 with no bytes behind it. */
  predicate LooseHead(h: Head) {
    ValidHead(h) || (28 <= h.width <= 30 && h.arg == 0)
  }

  function LooseHeadBytes(mt: nat, h: Head): (s: bytes)
    requires mt < 8 && (LooseHead(h) || h == SENTINEL)
    ensures |s| >= 1 && s[0] / 32 == mt
  {
    if 28 <= h.width <= 30 then [mt * 32 + h.width] else HeadBytes(mt, h)
  }

  /** An item that is passed over; the items of a map are its keys and values in turn, and no head means an open group. */
  datatype AnyItem =
    | AnyInt(negative: bool, head: Head)
    | AnyString(text: bool, head: Head, data: bytes)
    | AnyChunked(text: bool, chunks: seq<Loose>)
    | AnyGroup(map_: bool, open: Option<Head>, items: seq<AnyItem>)
    | AnyTag(head: Head, inner: AnyItem)
    | AnySpecial(ai: nat, data: bytes)

  /** The bytes behind the initial byte of a simple value or float. */
  function Payload(ai: nat): nat {
    if ai == 24 then 1 else if ai == 25 then 2 else if ai == 26 then 4 else if ai == 27 then 8 else 0
  }

  predicate ValidOpen(map_: bool, open: Option<Head>) {
    open.Some? ==> LooseHead(open.value)
  }

  function Children(map_: bool, h: Head): int { if map_ then 2 * h.arg else h.arg }

  predicate ValidAny(w: AnyItem)
    decreases w, 1
  {
    match w
    case AnyInt(_, h) => LooseHead(h) || h == SENTINEL
    case AnyString(_, h, data) => LooseHead(h) && h.arg == |data|
    case AnyChunked(_, chunks) => ValidLoose(chunks)
    case AnyGroup(map_, open, items) =>
      && ValidOpen(map_, open) && AllAny(items)
      && (if open.Some? then |items| == Children(map_, open.value) else map_ ==> |items| % 2 == 0)
    case AnyTag(h, inner) => (LooseHead(h) || h == SENTINEL) && ValidAny(inner)
    case AnySpecial(ai, data) => ai < 31 && |data| == Payload(ai)
  }

  predicate AllAny(items: seq<AnyItem>)
    decreases items, 0
  {
    items == [] || (ValidAny(items[0]) && AllAny(items[1..]))
  }

  function AnyOpen(map_: bool, open: Option<Head>): (s: bytes)
    requires ValidOpen(map_, open)
    ensures |s| >= 1 && s[0] / 32 == D.GroupType(map_)
  {
    LooseHeadBytes(D.GroupType(map_), if open.Some? then open.value else SENTINEL)
  }

  function AnyBytes(w: AnyItem): (s: bytes)
    requires ValidAny(w)
    ensures |s| >= 1 && s[0] != 0xFF
    decreases w, 1
  {
    match w
    case AnyInt(neg, h) => LooseHeadBytes(if neg then 1 else 0, h)
    case AnyString(text, h, data) => LooseHeadBytes(StringType(text), h) + data
    case AnyChunked(text, chunks) => D.OpenHead(text) + (SerializeLoose(chunks) + [0xFF])
    case AnyGroup(map_, open, items) => AnyOpen(map_, open) + (AllBytes(items) + (if open.None? then [0xFF] else []))
    case AnyTag(h, inner) => LooseHeadBytes(6, h) + AnyBytes(inner)
    case AnySpecial(ai, data) => [0xE0 + ai] + data
  }

  function AllBytes(items: seq<AnyItem>): bytes
    requires AllAny(items)
    decreases items, 0
  {
    if items == [] then [] else AnyBytes(items[0]) + AllBytes(items[1..])
  }

  lemma LooseHeadReads(buf: bytes, pos: nat, mt: nat, h: Head)
    requires mt < 8 && (LooseHead(h) || h == SENTINEL) && At(buf, pos, LooseHeadBytes(mt, h))
    ensures pos < |buf| && buf[pos] / 32 == mt && pos + |LooseHeadBytes(mt, h)| <= |buf|
    ensures buf[pos] % 32 == 31 <==> h == SENTINEL
    ensures I.LooseArgumentAt(buf, pos + 1, buf[pos] % 32) == ArgumentOf(h, pos + |LooseHeadBytes(mt, h)|)
  {
    hide HeadBytes, At;
    D.WithinBuffer(buf, pos, LooseHeadBytes(mt, h));
    if 28 <= h.width <= 30 {
      AtByte(buf, pos, mt * 32 + h.width);
    } else {
      HeadReads(buf, pos, mt, h);
      if h != SENTINEL {
        NotReserved(buf, pos, mt, h);
      }
    }
  }

  function ArgumentOf(h: Head, pos: nat): ArgOut { Arg(h.arg, pos) }

  lemma NotReserved(buf: bytes, pos: nat, mt: nat, h: Head)
    requires mt < 8 && ValidHead(h) && At(buf, pos, HeadBytes(mt, h))
    ensures pos < |buf| && buf[pos] % 32 <= 27
  {
    FirstByte(buf, pos, HeadBytes(mt, h));
  }

  lemma LooseHeadAccepted(buf: bytes, pos: nat) returns (h: Head)
    requires pos < |buf| && I.LooseArgumentAt(buf, pos + 1, buf[pos] % 32).Arg?
    ensures LooseHead(h) || h == SENTINEL
    ensures h == SENTINEL <==> buf[pos] % 32 == 31
    ensures At(buf, pos, LooseHeadBytes(buf[pos] / 32, h))
    ensures I.LooseArgumentAt(buf, pos + 1, buf[pos] % 32) == ArgumentOf(h, pos + |LooseHeadBytes(buf[pos] / 32, h)|)
  {
    hide HeadBytes, At;
    if 28 <= buf[pos] % 32 <= 30 {
      h := Head(buf[pos] % 32, 0);
      AtByte(buf, pos, buf[pos]);
    } else {
      h := A.HeadAccepted(buf, pos);
    }
  }

  // ---- items are passed over -------------------------------------------------------

  /** The inspector reports something for what stands there, and goes on behind it. */
  ghost predicate Passes(buf: bytes, pos: nat, depth: nat, md: nat, len: nat) {
    && pos < |buf| && pos + len <= |buf|
    && I.Inspect(buf, pos, depth, md).Found? && I.Inspect(buf, pos, depth, md).pos == pos + len
  }

  lemma {:induction false} LoosePass(buf: bytes, pos: nat, ls: seq<Loose>, lengths: seq<int>, size: int) returns (l: seq<int>, s: int)
    requires ValidLoose(ls) && At(buf, pos, SerializeLoose(ls))
    ensures pos + |SerializeLoose(ls)| <= |buf|
    ensures I.InspectChunks(buf, pos, lengths, size) == I.InspectChunks(buf, pos + |SerializeLoose(ls)|, l, s)
    decreases ls
  {
    hide At, HeadBytes, I.InspectChunks;
    D.WithinBuffer(buf, pos, SerializeLoose(ls));
    if ls == [] {
      l, s := lengths, size;
    } else {
      var first, rest := LooseBytes(ls[0]), SerializeLoose(ls[1..]);
      AtConcat(buf, pos, first, rest);
      I.ChunkInspected(buf, pos, ls[0].mt, ls[0].chunk, lengths, size);
      l, s := LoosePass(buf, pos + |first|, ls[1..], lengths + [|ls[0].chunk.data|], size + 1 + |ls[0].chunk.data|);
    }
  }

  lemma ChunkedPasses(buf: bytes, pos: nat, depth: nat, md: nat, w: AnyItem)
    requires w.AnyChunked? && ValidAny(w) && At(buf, pos, AnyBytes(w))
    ensures Passes(buf, pos, depth, md, |AnyBytes(w)|)
  {
    hide At, I.InspectChunks;
    var body := SerializeLoose(w.chunks);
    AtConcat(buf, pos, D.OpenHead(w.text), body + [0xFF]);
    AtConcat(buf, pos + 1, body, [0xFF]);
    AtByte(buf, pos, D.OpenHead(w.text)[0]);
    AtByte(buf, pos + 1 + |body|, 0xFF);
    var l, s := LoosePass(buf, pos + 1, w.chunks, [], 1);
    I.ChunksStep(buf, pos + 1 + |body|, l, s);
    assert I.Inspect(buf, pos, depth, md) == I.InspectString(buf, pos + 1, pos, w.text, 31);
  }

  lemma StringPasses(buf: bytes, pos: nat, depth: nat, md: nat, w: AnyItem)
    requires w.AnyString? && ValidAny(w) && At(buf, pos, AnyBytes(w))
    ensures Passes(buf, pos, depth, md, |AnyBytes(w)|)
  {
    hide At, LooseHeadBytes, HeadBytes;
    var mt := StringType(w.text);
    AtConcat(buf, pos, LooseHeadBytes(mt, w.head), w.data);
    D.WithinBuffer(buf, pos, AnyBytes(w));
    LooseHeadReads(buf, pos, mt, w.head);
    assert I.Inspect(buf, pos, depth, md) == I.InspectString(buf, pos + 1, pos, w.text, buf[pos] % 32);
  }

  lemma SpecialPasses(buf: bytes, pos: nat, depth: nat, md: nat, w: AnyItem)
    requires w.AnySpecial? && ValidAny(w) && At(buf, pos, AnyBytes(w))
    ensures Passes(buf, pos, depth, md, |AnyBytes(w)|)
  {
    hide At;
    AtConcat(buf, pos, [0xE0 + w.ai], w.data);
    AtByte(buf, pos, 0xE0 + w.ai);
    D.WithinBuffer(buf, pos, AnyBytes(w));
    assert I.Inspect(buf, pos, depth, md) == I.InspectSimple(buf, pos + 1, w.ai);
  }

  /** An item whose head carries an argument goes on from just behind that head. */
  lemma HeadPasses(buf: bytes, pos: nat, depth: nat, md: nat, mt: nat, h: Head)
    requires mt < 7 && mt != 2 && mt != 3 && (LooseHead(h) || (h == SENTINEL && mt != 4 && mt != 5))
    requires At(buf, pos, LooseHeadBytes(mt, h))
    ensures pos < |buf| && pos + |LooseHeadBytes(mt, h)| <= |buf|
    ensures I.Inspect(buf, pos, depth, md) == I.InspectWithArgument(buf, pos + |LooseHeadBytes(mt, h)|, pos, depth, md, mt, h.arg)
  {
    hide LooseHeadBytes, At;
    LooseHeadReads(buf, pos, mt, h);
  }

  lemma OpenPasses(buf: bytes, pos: nat, depth: nat, md: nat, map_: bool)
    requires At(buf, pos, AnyOpen(map_, None))
    ensures pos < |buf| && I.Inspect(buf, pos, depth, md) == I.GroupOpen(map_, depth >= md,
              if map_ then I.InspectOpenMap(buf, pos + 1, depth + 1, md, []) else I.InspectOpenArray(buf, pos + 1, depth + 1, md, []))
  {
    hide At;
    AtByte(buf, pos, D.GroupType(map_) * 32 + 31);
  }

  lemma FirstOf(buf: bytes, pos: nat, items: seq<AnyItem>)
    requires items != [] && AllAny(items) && At(buf, pos, AllBytes(items))
    ensures At(buf, pos, AnyBytes(items[0])) && At(buf, pos + |AnyBytes(items[0])|, AllBytes(items[1..]))
    ensures |AllBytes(items)| == |AnyBytes(items[0])| + |AllBytes(items[1..])|
    ensures pos < |buf| && buf[pos] != 0xFF
  {
    hide AnyBytes, At;
    AtConcat(buf, pos, AnyBytes(items[0]), AllBytes(items[1..]));
    FirstByte(buf, pos, AnyBytes(items[0]));
  }

  lemma {:induction false} ItemsPass(buf: bytes, pos: nat, depth: nat, md: nat, left: nat, items: seq<AnyItem>, acc: seq<I.Node>)
    returns (nodes: seq<I.Node>)
    requires |items| <= left && AllAny(items) && At(buf, pos, AllBytes(items))
    ensures pos + |AllBytes(items)| <= |buf|
    ensures I.InspectItems(buf, pos, depth, md, left, acc)
         == I.InspectItems(buf, pos + |AllBytes(items)|, depth, md, left - |items|, nodes)
    decreases items, 0
  {
    hide At, I.Inspect, AnyBytes, ValidAny;
    D.WithinBuffer(buf, pos, AllBytes(items));
    if items == [] {
      nodes := acc;
    } else {
      FirstOf(buf, pos, items);
      AnyPasses(buf, pos, depth, md, items[0]);
      var r := I.Inspect(buf, pos, depth, md);
      nodes := ItemsPass(buf, r.pos, depth, md, left - 1, items[1..], acc + [r.value]);
    }
  }

  lemma {:induction false} OpenArrayPass(buf: bytes, pos: nat, depth: nat, md: nat, items: seq<AnyItem>, acc: seq<I.Node>)
    returns (nodes: seq<I.Node>)
    requires AllAny(items) && At(buf, pos, AllBytes(items))
    ensures pos + |AllBytes(items)| <= |buf|
    ensures I.InspectOpenArray(buf, pos, depth, md, acc) == I.InspectOpenArray(buf, pos + |AllBytes(items)|, depth, md, nodes)
    decreases items, 0
  {
    hide At, I.Inspect, AnyBytes, ValidAny;
    D.WithinBuffer(buf, pos, AllBytes(items));
    if items == [] {
      nodes := acc;
    } else {
      FirstOf(buf, pos, items);
      AnyPasses(buf, pos, depth, md, items[0]);
      var r := I.Inspect(buf, pos, depth, md);
      nodes := OpenArrayPass(buf, r.pos, depth, md, items[1..], acc + [r.value]);
    }
  }

  lemma {:induction false} OpenMapPass(buf: bytes, pos: nat, depth: nat, md: nat, items: seq<AnyItem>, acc: seq<I.Node>)
    returns (nodes: seq<I.Node>)
    requires AllAny(items) && |items| % 2 == 0 && At(buf, pos, AllBytes(items))
    ensures pos + |AllBytes(items)| <= |buf|
    ensures I.InspectOpenMap(buf, pos, depth, md, acc) == I.InspectOpenMap(buf, pos + |AllBytes(items)|, depth, md, nodes)
    decreases items, 0
  {
    hide At, I.Inspect, AnyBytes, ValidAny, I.InspectOpenMap;
    D.WithinBuffer(buf, pos, AllBytes(items));
    if items == [] {
      nodes := acc;
    } else {
      FirstOf(buf, pos, items);
      AnyPasses(buf, pos, depth, md, items[0]);
      var k := I.Inspect(buf, pos, depth, md);
      FirstOf(buf, k.pos, items[1..]);
      AnyPasses(buf, k.pos, depth, md, items[1]);
      var v := I.Inspect(buf, k.pos, depth, md);
      I.OpenMapStep(buf, pos, depth, md, acc);
      assert items[1..][1..] == items[2..];
      nodes := OpenMapPass(buf, v.pos, depth, md, items[2..], acc + [k.value] + [v.value]);
    }
  }

  lemma {:induction false} GroupPasses(buf: bytes, pos: nat, depth: nat, md: nat, w: AnyItem)
    requires w.AnyGroup? && ValidAny(w) && At(buf, pos, AnyBytes(w))
    ensures Passes(buf, pos, depth, md, |AnyBytes(w)|)
    decreases w, 1
  {
    hide At, I.Inspect, I.InspectItems, AnyOpen;
    var open, body, close := AnyOpen(w.map_, w.open), AllBytes(w.items), if w.open.None? then [0xFF] else [];
    AtConcat(buf, pos, open, body + close);
    AtConcat(buf, pos + |open|, body, close);
    if w.open.Some? {
      CountedOpen(w.map_, w.open.value);
      HeadPasses(buf, pos, depth, md, D.GroupType(w.map_), w.open.value);
      var nodes := ItemsPass(buf, pos + |open|, depth + 1, md, |w.items|, w.items, []);
      NoneLeft(buf, pos + |open| + |body|, depth + 1, md, nodes);
    } else {
      OpenGroupPasses(buf, pos, depth, md, w.map_, w.items);
    }
  }

  lemma CountedOpen(map_: bool, h: Head)
    requires LooseHead(h)
    ensures AnyOpen(map_, Some(h)) == LooseHeadBytes(D.GroupType(map_), h)
  {
  }

  lemma {:induction false} OpenGroupPasses(buf: bytes, pos: nat, depth: nat, md: nat, map_: bool, items: seq<AnyItem>)
    requires AllAny(items) && (map_ ==> |items| % 2 == 0) && At(buf, pos, AnyOpen(map_, None))
    requires var at := pos + |AnyOpen(map_, None)|; At(buf, at, AllBytes(items)) && At(buf, at + |AllBytes(items)|, [0xFF])
    ensures Passes(buf, pos, depth, md, |AnyOpen(map_, None)| + |AllBytes(items)| + 1)
    decreases items, 1
  {
    hide At, I.Inspect, I.InspectOpenArray, I.InspectOpenMap, AnyOpen;
    OpenPasses(buf, pos, depth, md, map_);
    OneByteOpen(map_);
    var end := pos + 1 + |AllBytes(items)|;
    AtByte(buf, end, 0xFF);
    var nodes;
    if map_ {
      nodes := OpenMapPass(buf, pos + 1, depth + 1, md, items, []);
    } else {
      nodes := OpenArrayPass(buf, pos + 1, depth + 1, md, items, []);
    }
    Closed(buf, end, depth + 1, md, nodes);
  }

  lemma OneByteOpen(map_: bool)
    ensures |AnyOpen(map_, None)| == 1
  {
  }

  lemma NoneLeft(buf: bytes, pos: nat, depth: nat, md: nat, acc: seq<I.Node>)
    requires pos <= |buf|
    ensures I.InspectItems(buf, pos, depth, md, 0, acc) == I.Found(acc, pos)
  {
  }

  lemma Closed(buf: bytes, pos: nat, depth: nat, md: nat, acc: seq<I.Node>)
    requires pos < |buf| && buf[pos] == 0xFF
    ensures I.InspectOpenArray(buf, pos, depth, md, acc) == I.Found(I.Open(acc, true), pos + 1)
    ensures I.InspectOpenMap(buf, pos, depth, md, acc) == I.Found(I.Open(acc, true), pos + 1)
  {
  }

  /** Every such item is passed over, at any depth and expansion level. */
  lemma {:induction false} AnyPasses(buf: bytes, pos: nat, depth: nat, md: nat, w: AnyItem)
    requires ValidAny(w) && At(buf, pos, AnyBytes(w))
    ensures Passes(buf, pos, depth, md, |AnyBytes(w)|)
    decreases w, 2
  {
    hide At, I.Inspect, LooseHeadBytes;
    match w
    case AnyInt(neg, h) => HeadPasses(buf, pos, depth, md, if neg then 1 else 0, h);
    case AnyString(_, _, _) => StringPasses(buf, pos, depth, md, w);
    case AnyChunked(_, _) => ChunkedPasses(buf, pos, depth, md, w);
    case AnyGroup(_, _, _) => GroupPasses(buf, pos, depth, md, w);
    case AnyTag(h, inner) =>
      AtConcat(buf, pos, LooseHeadBytes(6, h), AnyBytes(inner));
      HeadPasses(buf, pos, depth, md, 6, h);
      AnyPasses(buf, pos + |LooseHeadBytes(6, h)|, depth + 1, md, inner);
    case AnySpecial(_, _) => SpecialPasses(buf, pos, depth, md, w);
  }

  // ---- what is passed over is such an item -----------------------------------------

  /** The loop over chunks ended before the buffer did, so a break ended it. */
  lemma {:induction false} LooseBefore(buf: bytes, pos: nat, lengths: seq<int>, size: int) returns (ls: seq<Loose>)
    requires pos <= |buf|
    requires var r := I.InspectChunks(buf, pos, lengths, size); r.Found? && r.pos < |buf|
    ensures ValidLoose(ls) && At(buf, pos, SerializeLoose(ls) + [0xFF])
    ensures I.InspectChunks(buf, pos, lengths, size).pos == pos + |SerializeLoose(ls)| + 1
    decreases |buf| - pos
  {
    hide At, HeadBytes, LooseBytes, I.InspectChunks, ArgumentAt;
    I.NoChunksLeft(buf, lengths, size);
    I.ChunksStep(buf, pos, lengths, size);
    if buf[pos] == 0xFF {
      ls := [];
      AtByte(buf, pos, 0xFF);
      assert SerializeLoose([]) + [0xFF] == [0xFF];
    } else {
      var a := ArgumentAt(buf, pos + 1, buf[pos] % 32);
      var l := LooseAccepted(buf, pos);
      var rest := LooseBefore(buf, a.pos + a.value, lengths + [a.value], size + 1 + a.value);
      ls := [l] + rest;
      assert ls[1..] == rest;
      AtConcat(buf, pos, LooseBytes(l), SerializeLoose(rest) + [0xFF]);
      assert SerializeLoose(ls) + [0xFF] == LooseBytes(l) + (SerializeLoose(rest) + [0xFF]);
    }
  }

  lemma StringAccepted(buf: bytes, pos: nat, text: bool) returns (w: AnyItem)
    requires pos < |buf| && buf[pos] / 32 == StringType(text)
    requires var r := I.InspectString(buf, pos + 1, pos, text, buf[pos] % 32); r.Found? && r.pos < |buf|
    ensures ValidAny(w) && At(buf, pos, AnyBytes(w))
    ensures I.InspectString(buf, pos + 1, pos, text, buf[pos] % 32).pos == pos + |AnyBytes(w)|
  {
    hide At, LooseHeadBytes, I.InspectChunks;
    if buf[pos] % 32 == 31 {
      var ls := LooseBefore(buf, pos + 1, [], 1);
      w := AnyChunked(text, ls);
      AtByte(buf, pos, buf[pos]);
      AtConcat(buf, pos, D.OpenHead(text), SerializeLoose(ls) + [0xFF]);
    } else {
      var h := LooseHeadAccepted(buf, pos);
      var at := pos + |LooseHeadBytes(StringType(text), h)|;
      w := AnyString(text, h, buf[at..at + h.arg]);
      AtSlice(buf, at, w.data);
      AtConcat(buf, pos, LooseHeadBytes(StringType(text), h), w.data);
    }
  }

  lemma SpecialAccepted(buf: bytes, pos: nat) returns (w: AnyItem)
    requires pos < |buf| && buf[pos] / 32 == 7 && I.InspectSimple(buf, pos + 1, buf[pos] % 32).Found?
    ensures ValidAny(w) && At(buf, pos, AnyBytes(w))
    ensures I.InspectSimple(buf, pos + 1, buf[pos] % 32).pos == pos + |AnyBytes(w)|
  {
    hide At;
    var ai := buf[pos] % 32;
    w := AnySpecial(ai, buf[pos + 1..pos + 1 + Payload(ai)]);
    AtByte(buf, pos, buf[pos]);
    AtSlice(buf, pos + 1, w.data);
    AtConcat(buf, pos, [buf[pos]], w.data);
  }

  lemma OneMore(buf: bytes, pos: nat, w: AnyItem, rest: seq<AnyItem>, tail: bytes) returns (items: seq<AnyItem>)
    requires ValidAny(w) && At(buf, pos, AnyBytes(w)) && AllAny(rest) && At(buf, pos + |AnyBytes(w)|, AllBytes(rest) + tail)
    ensures items == [w] + rest && AllAny(items) && At(buf, pos, AllBytes(items) + tail)
    ensures |AllBytes(items)| == |AnyBytes(w)| + |AllBytes(rest)|
  {
    hide At, AnyBytes, ValidAny;
    items := [w] + rest;
    assert items[1..] == rest;
    AtConcat(buf, pos, AnyBytes(w), AllBytes(rest) + tail);
    assert AllBytes(items) + tail == AnyBytes(w) + (AllBytes(rest) + tail);
  }

  lemma {:induction false} ItemsAccepted(buf: bytes, pos: nat, depth: nat, md: nat, left: nat, acc: seq<I.Node>) returns (items: seq<AnyItem>)
    requires pos <= |buf|
    requires var r := I.InspectItems(buf, pos, depth, md, left, acc); r.Found? && r.pos < |buf|
    ensures |items| == left && AllAny(items) && At(buf, pos, AllBytes(items) + [])
    ensures I.InspectItems(buf, pos, depth, md, left, acc).pos == pos + |AllBytes(items)|
    decreases |buf| - pos, 1, left
  {
    hide At, I.Inspect, AnyBytes, ValidAny;
    if left == 0 {
      items := [];
      AtSlice(buf, pos, []);
      assert AllBytes([]) + [] == [];
    } else {
      var r := I.Inspect(buf, pos, depth, md);
      var w := AnyAccepted(buf, pos, depth, md);
      var rest := ItemsAccepted(buf, r.pos, depth, md, left - 1, acc + [r.value]);
      items := OneMore(buf, pos, w, rest, []);
    }
  }

  lemma {:induction false} OpenArrayAccepted(buf: bytes, pos: nat, depth: nat, md: nat, acc: seq<I.Node>) returns (items: seq<AnyItem>)
    requires pos <= |buf|
    requires var r := I.InspectOpenArray(buf, pos, depth, md, acc); r.Found? && r.pos < |buf|
    ensures AllAny(items) && At(buf, pos, AllBytes(items) + [0xFF])
    ensures I.InspectOpenArray(buf, pos, depth, md, acc).pos == pos + |AllBytes(items)| + 1
    decreases |buf| - pos, 1, 0
  {
    hide At, I.Inspect, AnyBytes, ValidAny;
    if buf[pos] == 0xFF {
      items := [];
      AtByte(buf, pos, 0xFF);
      assert AllBytes([]) + [0xFF] == [0xFF];
    } else {
      var r := I.Inspect(buf, pos, depth, md);
      var w := AnyAccepted(buf, pos, depth, md);
      var rest := OpenArrayAccepted(buf, r.pos, depth, md, acc + [r.value]);
      items := OneMore(buf, pos, w, rest, [0xFF]);
    }
  }

  lemma {:induction false} OpenMapAccepted(buf: bytes, pos: nat, depth: nat, md: nat, acc: seq<I.Node>) returns (items: seq<AnyItem>)
    requires pos <= |buf|
    requires var r := I.InspectOpenMap(buf, pos, depth, md, acc); r.Found? && r.pos < |buf|
    ensures AllAny(items) && |items| % 2 == 0 && At(buf, pos, AllBytes(items) + [0xFF])
    ensures I.InspectOpenMap(buf, pos, depth, md, acc).pos == pos + |AllBytes(items)| + 1
    decreases |buf| - pos, 1, 0
  {
    hide At, I.Inspect, AnyBytes, ValidAny;
    if buf[pos] == 0xFF {
      items := [];
      AtByte(buf, pos, 0xFF);
      assert AllBytes([]) + [0xFF] == [0xFF];
    } else {
      var k := I.Inspect(buf, pos, depth, md);
      var v := I.Inspect(buf, k.pos, depth, md);
      var w := AnyAccepted(buf, pos, depth, md);
      var x := AnyAccepted(buf, k.pos, depth, md);
      var rest := OpenMapAccepted(buf, v.pos, depth, md, acc + [k.value] + [v.value]);
      var more := OneMore(buf, k.pos, x, rest, [0xFF]);
      items := OneMore(buf, pos, w, more, [0xFF]);
    }
  }

  /** What has been passed over with bytes left behind it is such an item. */
  lemma {:induction false} AnyAccepted(buf: bytes, pos: nat, depth: nat, md: nat) returns (w: AnyItem)
    requires pos <= |buf|
    requires var r := I.Inspect(buf, pos, depth, md); r.Found? && r.pos < |buf|
    ensures ValidAny(w) && At(buf, pos, AnyBytes(w))
    ensures I.Inspect(buf, pos, depth, md).pos == pos + |AnyBytes(w)|
    decreases |buf| - pos, 0, 2
  {
    hide At, AnyBytes, ValidAny, I.InspectString, I.InspectSimple, I.InspectOpenArray, I.InspectOpenMap, I.InspectWithArgument;
    var mt, ai := buf[pos] / 32, buf[pos] % 32;
    if mt == 2 || mt == 3 {
      w := StringAccepted(buf, pos, mt == 3);
    } else if mt == 7 {
      w := SpecialAccepted(buf, pos);
    } else if (mt == 4 || mt == 5) && ai == 31 {
      w := OpenAccepted(buf, pos, depth, md, mt == 5);
    } else {
      var h := LooseHeadAccepted(buf, pos);
      D.WithinBuffer(buf, pos, LooseHeadBytes(mt, h));
      w := HeadItemAccepted(buf, pos, depth, md, mt, h);
    }
  }

  lemma {:induction false} OpenAccepted(buf: bytes, pos: nat, depth: nat, md: nat, map_: bool) returns (w: AnyItem)
    requires pos < |buf| && buf[pos] == D.GroupType(map_) * 32 + 31
    requires var r := I.GroupOpen(map_, depth >= md, if map_ then I.InspectOpenMap(buf, pos + 1, depth + 1, md, []) else I.InspectOpenArray(buf, pos + 1, depth + 1, md, []));
             r.Found? && r.pos < |buf|
    ensures ValidAny(w) && At(buf, pos, AnyBytes(w))
    ensures I.GroupOpen(map_, depth >= md, if map_ then I.InspectOpenMap(buf, pos + 1, depth + 1, md, []) else I.InspectOpenArray(buf, pos + 1, depth + 1, md, [])).pos
         == pos + |AnyBytes(w)|
    decreases |buf| - pos, 0, 1
  {
    hide At, I.InspectOpenArray, I.InspectOpenMap;
    var items;
    if map_ {
      items := OpenMapAccepted(buf, pos + 1, depth + 1, md, []);
    } else {
      items := OpenArrayAccepted(buf, pos + 1, depth + 1, md, []);
    }
    w := AnyGroup(map_, None, items);
    AtByte(buf, pos, buf[pos]);
    AtConcat(buf, pos, AnyOpen(map_, None), AllBytes(items) + [0xFF]);
  }

  lemma {:induction false} HeadItemAccepted(buf: bytes, pos: nat, depth: nat, md: nat, mt: nat, h: Head) returns (w: AnyItem)
    requires mt < 7 && mt != 2 && mt != 3 && (LooseHead(h) || (h == SENTINEL && mt != 4 && mt != 5))
    requires At(buf, pos, LooseHeadBytes(mt, h)) && pos + |LooseHeadBytes(mt, h)| <= |buf|
    requires var r := I.InspectWithArgument(buf, pos + |LooseHeadBytes(mt, h)|, pos, depth, md, mt, h.arg); r.Found? && r.pos < |buf|
    ensures ValidAny(w) && At(buf, pos, AnyBytes(w))
    ensures I.InspectWithArgument(buf, pos + |LooseHeadBytes(mt, h)|, pos, depth, md, mt, h.arg).pos == pos + |AnyBytes(w)|
    decreases |buf| - pos, 0, 1
  {
    hide At, LooseHeadBytes, I.Inspect, I.InspectItems;
    var head := LooseHeadBytes(mt, h);
    var at := pos + |head|;
    if mt == 0 || mt == 1 {
      w := AnyInt(mt == 1, h);
    } else if mt == 6 {
      var inner := AnyAccepted(buf, at, depth + 1, md);
      w := AnyTag(h, inner);
      AtConcat(buf, pos, head, AnyBytes(inner));
    } else {
      var items := ItemsAccepted(buf, at, depth + 1, md, if mt == 4 then h.arg else 2 * h.arg, []);
      w := AnyGroup(mt == 5, Some(h), items);
      AtConcat(buf, pos, head, AllBytes(items) + []);
    }
  }

  // ---- whole items -----------------------------------------------------------------

  /** The part of an item up to a head at which the inspector stays: the items before it are whole. */
  datatype Lost =
    | LostString(text: bool, chunks: seq<Loose>, again: byte)
    | LostGroup(map_: bool, open: Option<Head>, before: seq<AnyItem>, at: Lost)
    | LostTag(head: Head, at: Lost)

  predicate ValidLost(b: Lost) {
    match b
    case LostString(_, chunks, again) => ValidLoose(chunks) && again % 32 == 31 && again != 0xFF
    case LostGroup(map_, open, before, at) =>
      && ValidOpen(map_, open) && AllAny(before) && ValidLost(at)
      && (open.Some? ==> |before| < Children(map_, open.value))
    case LostTag(h, at) => (LooseHead(h) || h == SENTINEL) && ValidLost(at)
  }

  function LostBytes(b: Lost): bytes
    requires ValidLost(b)
  {
    match b
    case LostString(text, chunks, again) => D.OpenHead(text) + (SerializeLoose(chunks) + [again])
    case LostGroup(map_, open, before, at) => AnyOpen(map_, open) + (AllBytes(before) + LostBytes(at))
    case LostTag(h, at) => LooseHeadBytes(6, h) + LostBytes(at)
  }

  ghost predicate LostHere(buf: bytes, pos: nat, b: Lost) {
    ValidLost(b) && At(buf, pos, LostBytes(b))
  }

  ghost predicate Stays(buf: bytes, pos: nat, depth: nat, md: nat) {
    pos < |buf| && I.Inspect(buf, pos, depth, md) == I.Bad(Endless)
  }

  lemma StaysHere(buf: bytes, pos: nat, depth: nat, md: nat)
    requires Stays(buf, pos, depth, md)
    ensures pos < |buf| && buf[pos] != 0xFF
  {
  }

  lemma ItemsStay(buf: bytes, pos: nat, depth: nat, md: nat, left: nat, before: seq<AnyItem>)
    requires |before| < left && AllAny(before) && At(buf, pos, AllBytes(before)) && Stays(buf, pos + |AllBytes(before)|, depth, md)
    ensures pos <= |buf| && I.InspectItems(buf, pos, depth, md, left, []) == I.Bad(Endless)
  {
    hide At, I.Inspect;
    var nodes := ItemsPass(buf, pos, depth, md, left, before, []);
  }

  lemma OpenArrayStays(buf: bytes, pos: nat, depth: nat, md: nat, before: seq<AnyItem>)
    requires AllAny(before) && At(buf, pos, AllBytes(before)) && Stays(buf, pos + |AllBytes(before)|, depth, md)
    ensures pos <= |buf| && I.InspectOpenArray(buf, pos, depth, md, []) == I.Bad(Endless)
  {
    hide At, I.Inspect;
    var nodes := OpenArrayPass(buf, pos, depth, md, before, []);
    StaysHere(buf, pos + |AllBytes(before)|, depth, md);
  }

  lemma {:induction false} SplitOff(items: seq<AnyItem>, k: nat)
    requires AllAny(items) && k <= |items|
    ensures AllAny(items[..k]) && AllAny(items[k..]) && AllBytes(items) == AllBytes(items[..k]) + AllBytes(items[k..])
    decreases k
  {
    hide AnyBytes, ValidAny;
    if k == 0 {
      assert items[..0] == [] && items[0..] == items && [] + AllBytes(items) == AllBytes(items);
    } else {
      SplitOff(items[1..], k - 1);
      assert items[..k][1..] == items[1..][..k - 1] && items[1..][k - 1..] == items[k..];
    }
  }

  lemma OpenMapStays(buf: bytes, pos: nat, depth: nat, md: nat, before: seq<AnyItem>)
    requires AllAny(before) && At(buf, pos, AllBytes(before)) && Stays(buf, pos + |AllBytes(before)|, depth, md)
    ensures pos <= |buf| && I.InspectOpenMap(buf, pos, depth, md, []) == I.Bad(Endless)
  {
    hide At, I.Inspect, AnyBytes, ValidAny;
    var even := |before| - |before| % 2;
    SplitOff(before, even);
    var pairs, last := before[..even], before[even..];
    AtConcat(buf, pos, AllBytes(pairs), AllBytes(last));
    var nodes := OpenMapPass(buf, pos, depth, md, pairs, []);
    StaysHere(buf, pos + |AllBytes(before)|, depth, md);
    var at := pos + |AllBytes(pairs)|;
    if last != [] {
      FirstOf(buf, at, last);
      AnyPasses(buf, at, depth, md, last[0]);
      assert last[1..] == [];
    }
  }

  lemma StringStays(buf: bytes, pos: nat, depth: nat, md: nat, b: Lost)
    requires b.LostString? && LostHere(buf, pos, b)
    ensures Stays(buf, pos, depth, md)
  {
    hide At, I.InspectChunks;
    AtConcat(buf, pos, D.OpenHead(b.text), SerializeLoose(b.chunks) + [b.again]);
    AtByte(buf, pos, D.OpenHead(b.text)[0]);
    LooseStuck(buf, pos + 1, b.chunks, b.again, [], 1);
    assert I.Inspect(buf, pos, depth, md) == I.InspectString(buf, pos + 1, pos, b.text, 31);
  }

  lemma GroupStays(buf: bytes, pos: nat, depth: nat, md: nat, b: Lost)
    requires b.LostGroup? && ValidLost(b) && At(buf, pos, AnyOpen(b.map_, b.open))
    requires var at := pos + |AnyOpen(b.map_, b.open)|;
             At(buf, at, AllBytes(b.before)) && Stays(buf, at + |AllBytes(b.before)|, depth + 1, md)
    ensures Stays(buf, pos, depth, md)
  {
    hide At, I.Inspect, I.InspectItems, I.InspectOpenArray, I.InspectOpenMap, LooseHeadBytes, Stays;
    var at := pos + |AnyOpen(b.map_, b.open)|;
    if b.open.Some? {
      HeadPasses(buf, pos, depth, md, D.GroupType(b.map_), b.open.value);
      ItemsStay(buf, at, depth + 1, md, Children(b.map_, b.open.value), b.before);
    } else {
      OpenPasses(buf, pos, depth, md, b.map_);
      OneByteOpen(b.map_);
      if b.map_ {
        OpenMapStays(buf, at, depth + 1, md, b.before);
      } else {
        OpenArrayStays(buf, at, depth + 1, md, b.before);
      }
    }
    ItStays(buf, pos, depth, md);
  }

  lemma ItStays(buf: bytes, pos: nat, depth: nat, md: nat)
    requires pos < |buf| && I.Inspect(buf, pos, depth, md) == I.Bad(Endless)
    ensures Stays(buf, pos, depth, md)
  {
  }

  lemma {:induction false} LostStays(buf: bytes, pos: nat, depth: nat, md: nat, b: Lost)
    requires LostHere(buf, pos, b)
    ensures Stays(buf, pos, depth, md)
    decreases b
  {
    hide At, I.Inspect, LooseHeadBytes, Stays, AnyBytes;
    match b
    case LostString(_, _, _) => StringStays(buf, pos, depth, md, b);
    case LostGroup(map_, open, before, at) =>
      var head, body := AnyOpen(map_, open), AllBytes(before);
      AtConcat(buf, pos, head, body + LostBytes(at));
      AtConcat(buf, pos + |head|, body, LostBytes(at));
      LostStays(buf, pos + |head| + |body|, depth + 1, md, at);
      GroupStays(buf, pos, depth, md, b);
    case LostTag(h, at) =>
      AtConcat(buf, pos, LooseHeadBytes(6, h), LostBytes(at));
      LostStays(buf, pos + |LooseHeadBytes(6, h)|, depth + 1, md, at);
      TagStays(buf, pos, depth, md, h);
  }

  lemma TagStays(buf: bytes, pos: nat, depth: nat, md: nat, h: Head)
    requires (LooseHead(h) || h == SENTINEL) && At(buf, pos, LooseHeadBytes(6, h)) && Stays(buf, pos + |LooseHeadBytes(6, h)|, depth + 1, md)
    ensures Stays(buf, pos, depth, md)
  {
    hide At, LooseHeadBytes, I.Inspect;
    HeadPasses(buf, pos, depth, md, 6, h);
  }

  /** Behind the end of the buffer the inspector finds as many ends of the buffer as it looks for. */
  lemma {:induction false} AtTheEnd(buf: bytes, depth: nat, md: nat, left: nat, acc: seq<I.Node>)
    ensures I.InspectItems(buf, |buf|, depth, md, left, acc).Found?
    decreases left
  {
    if left > 0 {
      AtTheEnd(buf, depth, md, left - 1, acc + [I.Eof]);
    }
  }

  /** Some items are passed over, and what follows is where the inspector stays. */
  ghost predicate StaysBehind(buf: bytes, pos: nat, depth: nat, md: nat, before: seq<AnyItem>) {
    && AllAny(before) && At(buf, pos, AllBytes(before) + [])
    && Stays(buf, pos + |AllBytes(before)|, depth, md)
  }

  lemma NoneBefore(buf: bytes, pos: nat, depth: nat, md: nat)
    requires Stays(buf, pos, depth, md)
    ensures StaysBehind(buf, pos, depth, md, [])
  {
    assert AllBytes([]) + [] == [];
    AtSlice(buf, pos, []);
  }

  lemma OneBefore(buf: bytes, pos: nat, depth: nat, md: nat, rest: seq<AnyItem>) returns (before: seq<AnyItem>)
    requires pos <= |buf|
    requires var r := I.Inspect(buf, pos, depth, md); r.Found? && r.pos < |buf| && StaysBehind(buf, r.pos, depth, md, rest)
    ensures |before| == 1 + |rest| && StaysBehind(buf, pos, depth, md, before)
  {
    hide At, I.Inspect, AnyBytes, ValidAny, Stays;
    var w := AnyAccepted(buf, pos, depth, md);
    before := OneMore(buf, pos, w, rest, []);
  }

  lemma {:induction false} WhereItemsStay(buf: bytes, pos: nat, depth: nat, md: nat, left: nat, acc: seq<I.Node>) returns (before: seq<AnyItem>)
    requires pos <= |buf| && I.InspectItems(buf, pos, depth, md, left, acc) == I.Bad(Endless)
    ensures |before| < left && StaysBehind(buf, pos, depth, md, before)
    decreases left
  {
    hide I.Inspect, StaysBehind;
    AtTheEnd(buf, depth, md, left, acc);
    var r := I.Inspect(buf, pos, depth, md);
    if r.Found? {
      AtTheEnd(buf, depth, md, left - 1, acc + [r.value]);
      var rest := WhereItemsStay(buf, r.pos, depth, md, left - 1, acc + [r.value]);
      before := OneBefore(buf, pos, depth, md, rest);
    } else {
      before := [];
      NoneBefore(buf, pos, depth, md);
    }
  }

  lemma {:induction false} WhereOpenArrayStays(buf: bytes, pos: nat, depth: nat, md: nat, acc: seq<I.Node>) returns (before: seq<AnyItem>)
    requires pos <= |buf| && I.InspectOpenArray(buf, pos, depth, md, acc) == I.Bad(Endless)
    ensures StaysBehind(buf, pos, depth, md, before)
    decreases |buf| - pos
  {
    hide I.Inspect, StaysBehind;
    var r := I.Inspect(buf, pos, depth, md);
    if r.Found? {
      var rest := WhereOpenArrayStays(buf, r.pos, depth, md, acc + [r.value]);
      before := OneBefore(buf, pos, depth, md, rest);
    } else {
      before := [];
      NoneBefore(buf, pos, depth, md);
    }
  }

  lemma {:induction false} WhereOpenMapStays(buf: bytes, pos: nat, depth: nat, md: nat, acc: seq<I.Node>) returns (before: seq<AnyItem>)
    requires pos <= |buf| && I.InspectOpenMap(buf, pos, depth, md, acc) == I.Bad(Endless)
    ensures StaysBehind(buf, pos, depth, md, before)
    decreases |buf| - pos
  {
    hide I.Inspect, StaysBehind;
    var k := I.Inspect(buf, pos, depth, md);
    if k.Found? {
      EndIsFound(buf, depth, md, acc + [k.value]);
      var v := I.Inspect(buf, k.pos, depth, md);
      var rest;
      if v.Found? {
        var more := WhereOpenMapStays(buf, v.pos, depth, md, acc + [k.value] + [v.value]);
        rest := OneBefore(buf, k.pos, depth, md, more);
      } else {
        rest := [];
        NoneBefore(buf, k.pos, depth, md);
      }
      before := OneBefore(buf, pos, depth, md, rest);
    } else {
      before := [];
      NoneBefore(buf, pos, depth, md);
    }
  }

  lemma EndIsFound(buf: bytes, depth: nat, md: nat, acc: seq<I.Node>)
    ensures I.Inspect(buf, |buf|, depth, md) == I.Found(I.Eof, |buf|)
    ensures I.InspectOpenMap(buf, |buf|, depth, md, acc + [I.Eof]).Found?
  {
  }

  lemma {:induction false} WhereLost(buf: bytes, pos: nat, depth: nat, md: nat) returns (b: Lost)
    requires Stays(buf, pos, depth, md)
    ensures LostHere(buf, pos, b)
    decreases |buf| - pos, 1
  {
    hide At, I.InspectString, I.InspectOpenArray, I.InspectOpenMap, I.InspectWithArgument, LostHere;
    var mt, ai := buf[pos] / 32, buf[pos] % 32;
    if mt == 2 || mt == 3 {
      b := WhereStringLost(buf, pos, mt == 3);
    } else if (mt == 4 || mt == 5) && ai == 31 {
      b := WhereOpenLost(buf, pos, depth, md, mt == 5);
    } else {
      NoEndlessLoose(buf, pos + 1, ai);
      var h := LooseHeadAccepted(buf, pos);
      D.WithinBuffer(buf, pos, LooseHeadBytes(mt, h));
      b := WhereHeadLost(buf, pos, depth, md, mt, h);
    }
  }

  lemma NoEndlessLoose(buf: bytes, pos: nat, ai: nat)
    requires pos <= |buf| && ai < 32
    ensures I.LooseArgumentAt(buf, pos, ai) != ArgFail(Endless)
  {
  }

  lemma WhereStringLost(buf: bytes, pos: nat, text: bool) returns (b: Lost)
    requires pos < |buf| && buf[pos] / 32 == StringType(text)
    requires I.InspectString(buf, pos + 1, pos, text, buf[pos] % 32) == I.Bad(Endless)
    ensures LostHere(buf, pos, b)
  {
    hide At, I.InspectChunks;
    NoEndlessLoose(buf, pos + 1, buf[pos] % 32);
    var ls, again := WhereInspectorStuck(buf, pos + 1, [], 1);
    b := LostString(text, ls, again);
    AtByte(buf, pos, buf[pos]);
    AtConcat(buf, pos, D.OpenHead(text), SerializeLoose(ls) + [again]);
  }

  lemma {:induction false} WhereOpenLost(buf: bytes, pos: nat, depth: nat, md: nat, map_: bool) returns (b: Lost)
    requires pos < |buf| && buf[pos] == D.GroupType(map_) * 32 + 31
    requires I.GroupOpen(map_, depth >= md, if map_ then I.InspectOpenMap(buf, pos + 1, depth + 1, md, []) else I.InspectOpenArray(buf, pos + 1, depth + 1, md, []))
          == I.Bad(Endless)
    ensures LostHere(buf, pos, b)
    decreases |buf| - pos, 0, 1
  {
    hide At, I.InspectOpenArray, I.InspectOpenMap, LostHere, StaysBehind;
    var before;
    if map_ {
      before := WhereOpenMapStays(buf, pos + 1, depth + 1, md, []);
    } else {
      before := WhereOpenArrayStays(buf, pos + 1, depth + 1, md, []);
    }
    AtByte(buf, pos, buf[pos]);
    OneByteOpen(map_);
    b := LostAround(buf, pos, depth, md, map_, None, before);
  }

  lemma {:induction false} LostAround(buf: bytes, pos: nat, depth: nat, md: nat, map_: bool, open: Option<Head>, before: seq<AnyItem>) returns (b: Lost)
    requires ValidOpen(map_, open) && (open.Some? ==> |before| < Children(map_, open.value))
    requires At(buf, pos, AnyOpen(map_, open)) && StaysBehind(buf, pos + |AnyOpen(map_, open)|, depth + 1, md, before)
    ensures LostHere(buf, pos, b)
    decreases |buf| - pos, 0, 0
  {
    hide At, AnyOpen, Stays, AnyBytes, ValidAny;
    var head, body := AnyOpen(map_, open), AllBytes(before);
    assert body + [] == body;
    var next := pos + |head| + |body|;
    StaysHere(buf, next, depth + 1, md);
    var at := WhereLost(buf, next, depth + 1, md);
    b := LostGroup(map_, open, before, at);
    AtConcat(buf, pos + |head|, body, LostBytes(at));
    AtConcat(buf, pos, head, body + LostBytes(at));
  }

  lemma {:induction false} WhereHeadLost(buf: bytes, pos: nat, depth: nat, md: nat, mt: nat, h: Head) returns (b: Lost)
    requires mt < 7 && mt != 2 && mt != 3 && (LooseHead(h) || (h == SENTINEL && mt != 4 && mt != 5))
    requires At(buf, pos, LooseHeadBytes(mt, h)) && pos + |LooseHeadBytes(mt, h)| <= |buf|
    requires I.InspectWithArgument(buf, pos + |LooseHeadBytes(mt, h)|, pos, depth, md, mt, h.arg) == I.Bad(Endless)
    ensures LostHere(buf, pos, b)
    decreases |buf| - pos, 0, 1
  {
    hide At, LooseHeadBytes, I.Inspect, I.InspectItems, LostHere, StaysBehind;
    var at := pos + |LooseHeadBytes(mt, h)|;
    if mt == 6 {
      b := TagLost(buf, pos, depth, md, h);
    } else {
      var before := WhereItemsStay(buf, at, depth + 1, md, if mt == 4 then h.arg else 2 * h.arg, []);
      b := LostAround(buf, pos, depth, md, mt == 5, Some(h), before);
    }
  }

  lemma {:induction false} TagLost(buf: bytes, pos: nat, depth: nat, md: nat, h: Head) returns (b: Lost)
    requires (LooseHead(h) || h == SENTINEL) && At(buf, pos, LooseHeadBytes(6, h)) && pos + |LooseHeadBytes(6, h)| <= |buf|
    requires I.Inspect(buf, pos + |LooseHeadBytes(6, h)|, depth + 1, md) == I.Bad(Endless)
    ensures LostHere(buf, pos, b)
    decreases |buf| - pos, 0, 0
  {
    hide At, LooseHeadBytes;
    var at := WhereLost(buf, pos + |LooseHeadBytes(6, h)|, depth + 1, md);
    b := LostTag(h, at);
    AtConcat(buf, pos, LooseHeadBytes(6, h), LostBytes(at));
  }

  /** The inspector does not come back from an item exactly when such a head stands in it, at any nesting. */
  lemma LostIff(buf: bytes, pos: nat, depth: nat, md: nat)
    requires pos <= |buf|
    ensures I.Inspect(buf, pos, depth, md) == I.Bad(Endless) <==> exists b :: LostHere(buf, pos, b)
  {
    hide LostHere, I.Inspect;
    if I.Inspect(buf, pos, depth, md) == I.Bad(Endless) {
      EndIsFound(buf, depth, md, []);
      var b := WhereLost(buf, pos, depth, md);
    }
    if b :| LostHere(buf, pos, b) {
      LostStays(buf, pos, depth, md, b);
    }
  }

  // ---- where the decoder does not come back, the inspector does not ----------------

  function LooseOf(text: bool, chunks: seq<Chunk>): seq<Loose> {
    if chunks == [] then [] else [Loose(StringType(text), chunks[0])] + LooseOf(text, chunks[1..])
  }

  function AnyOf(w: Item): AnyItem
    decreases w, 1
  {
    match w
    case Integer(neg, h) => AnyInt(neg, h)
    case Str(text, h, data) => AnyString(text, h, data)
    case Chunked(text, chunks) => AnyChunked(text, LooseOf(text, chunks))
    case Array(form, items) => AnyGroup(false, HeadOf(form), AllOf(items))
    case Map(form, items) => AnyGroup(true, HeadOf(form), AllOf(items))
    case Tag(h, inner) => AnyTag(h, AnyOf(inner))
    case Simple(ai) => AnySpecial(ai, [])
    case SimpleByte(code) => AnySpecial(24, [code])
    case FloatItem(data) => AnySpecial(if |data| == 2 then 25 else if |data| == 4 then 26 else 27, data)
  }

  function HeadOf(form: Form): Option<Head> {
    if form.Definite? then Some(form.head) else None
  }

  function AllOf(items: seq<Item>): (r: seq<AnyItem>)
    ensures |r| == |items|
    decreases items, 0
  {
    if items == [] then [] else [AnyOf(items[0])] + AllOf(items[1..])
  }

  lemma {:induction false} LooseOfBytes(text: bool, chunks: seq<Chunk>)
    requires ValidChunks(chunks)
    ensures ValidLoose(LooseOf(text, chunks)) && SerializeLoose(LooseOf(text, chunks)) == SerializeChunks(text, chunks)
    decreases chunks
  {
    hide HeadBytes;
    if chunks != [] {
      LooseOfBytes(text, chunks[1..]);
      assert LooseOf(text, chunks)[1..] == LooseOf(text, chunks[1..]);
    }
  }

  lemma OpenOf(map_: bool, form: Form)
    requires form.Definite? ==> ValidHead(form.head)
    ensures ValidOpen(map_, HeadOf(form)) && AnyOpen(map_, HeadOf(form)) == OpenBytes(D.GroupType(map_), form)
  {
  }

  lemma {:induction false} AnyOfBytes(w: Item)
    requires Valid(w)
    ensures ValidAny(AnyOf(w)) && AnyBytes(AnyOf(w)) == Serialize(w)
    decreases w, 1
  {
    hide HeadBytes;
    match w
    case Chunked(text, chunks) =>
      LooseOfBytes(text, chunks);
      assert D.OpenHead(text) + (SerializeChunks(text, chunks) + [0xFF]) == D.OpenHead(text) + SerializeChunks(text, chunks) + [0xFF];
    case Array(form, items) => GroupOfBytes(false, form, items, w);
    case Map(form, items) => GroupOfBytes(true, form, items, w);
    case Tag(_, inner) => AnyOfBytes(inner);
    case _ =>
  }

  lemma {:induction false} GroupOfBytes(map_: bool, form: Form, items: seq<Item>, w: Item)
    requires Valid(w) && w == (if map_ then Map(form, items) else Array(form, items))
    ensures ValidAny(AnyOf(w)) && AnyBytes(AnyOf(w)) == Serialize(w)
    decreases w, 0
  {
    hide OpenBytes, AnyOpen;
    AllOfBytes(items);
    OpenOf(map_, form);
    var open, body, close := OpenBytes(D.GroupType(map_), form), SerializeAll(items), CloseBytes(form);
    assert open + (body + close) == open + body + close;
  }

  lemma {:induction false} AllOfBytes(items: seq<Item>)
    requires AllValid(items)
    ensures AllAny(AllOf(items)) && AllBytes(AllOf(items)) == SerializeAll(items)
    decreases items, 0
  {
    if items != [] {
      AnyOfBytes(items[0]);
      AllOfBytes(items[1..]);
      assert AllOf(items)[1..] == AllOf(items[1..]);
    }
  }

  function LostOf(b: D.Broken): Lost {
    match b
    case InString(text, chunks) => LostString(text, LooseOf(text, chunks), D.OpenHead(text)[0])
    case InGroup(map_, form, before, at) => LostGroup(map_, HeadOf(form), AllOf(before), LostOf(at))
    case InTag(h, at) => LostTag(h, LostOf(at))
  }

  lemma {:induction false} LostOfBytes(b: D.Broken)
    requires D.ValidBroken(b)
    ensures ValidLost(LostOf(b)) && LostBytes(LostOf(b)) == D.BrokenBytes(b)
    decreases b
  {
    hide HeadBytes, OpenBytes, AnyOpen;
    match b
    case InString(text, chunks) => LooseOfBytes(text, chunks);
    case InGroup(map_, form, before, at) =>
      AllOfBytes(before);
      OpenOf(map_, form);
      LostOfBytes(at);
    case InTag(_, at) => LostOfBytes(at);
  }

  /** Wherever the decoder does not come back, the inspector does not, at any expansion level. */
  lemma InspectorLostToo(ks: KeyString, buf: bytes, pos: nat, n: nat, depth: nat, at: nat, md: nat)
    requires pos <= |buf| && DecodeItem(ks, buf, pos, n, depth) == Fail(Endless)
    ensures I.Inspect(buf, pos, at, md) == I.Bad(Endless)
  {
    hide DecodeItem, I.Inspect, At;
    var b := D.WhereEndless(ks, buf, pos, n, depth);
    LostOfBytes(b);
    LostStays(buf, pos, at, md, LostOf(b));
  }

  /** But not the other way round: a chunk of the wrong type stops the decoder, and the inspector goes on to the head behind it. */
  lemma InspectorLostAlone(ks: KeyString, md: nat)
    ensures DecodeItem(ks, [0x5F, 0x60, 0x5F], 0, 0, 0) == Fail(WrongChunkType)
    ensures I.Inspect([0x5F, 0x60, 0x5F], 0, 0, md) == I.Bad(Endless)
  {
    var buf := [0x5F, 0x60, 0x5F];
    assert DecodeChunks(buf, 1, 1, 2, []) == Fail(WrongChunkType);
    assert DecodeItem(ks, buf, 0, 0, 0) == DecodeBody(ks, buf, 1, 1, 0, 2, 31);
    I.ChunksStep(buf, 1, [], 1);
    I.ChunksStep(buf, 2, [0], 2);
    assert [] + [0] == [0];
    assert I.Inspect(buf, 0, 0, md) == I.InspectString(buf, 1, 0, false, 31);
  }
}
