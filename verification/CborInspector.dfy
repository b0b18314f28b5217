/**
 The inspector: a second walk over the same grammar that reports a tree of nodes with their
 sizes. It checks less than the decoder and counts sizes in its own way.
 */
module CborInspector {
  import opened Bytes
  import opened Doubles
  import opened CborWire
  import opened CborDecoder
  import opened CborProofs
  import T = CborTheorems
  import E = CborEncoder

  datatype Kind =
    | UIntKind | NegIntKind | BytesKind | TextKind | BoolKind | NullKind | UndefinedKind
    | SimpleKind | Float16Kind | Float32Kind | Float64Kind

  /** A reported node; `size` is its `bytes` field. The children of a map are keys and values in turn. */
  datatype Node =
    | Eof
    | Leaf(kind: Kind, info: int, size: int)
    | Chunks(text: bool, lengths: seq<int>, size: int)
    | Group(map_: bool, indefinite: bool, truncated: bool, count: nat, children: seq<Node>, size: int)
    | TagNode(tag: int, inner: Node, size: int)

  function Size(node: Node): int {
    if node.Eof? then 0 else node.size
  }

  function Sizes(nodes: seq<Node>): int {
    if nodes == [] then 0 else Size(nodes[0]) + Sizes(nodes[1..])
  }

  datatype InOut<+T> = Found(value: T, pos: nat) | Bad(error: Error)

  /** The nodes of an open group, and whether a break ended it or the end of the buffer. */
  datatype Open = Open(nodes: seq<Node>, closed: bool)

  // ---- the walk as a function ------------------------------------------------------

  /** As ArgumentAt, but a reserved additional information reads as 0. */
  function LooseArgumentAt(buf: bytes, pos: nat, ai: nat): (r: ArgOut)
    requires pos <= |buf| && ai < 32
    ensures r.Arg? ==> pos <= r.pos <= |buf|
    ensures r.Arg? && ai != 31 ==> r.value >= 0
  {
    if 28 <= ai <= 30 then Arg(0, pos) else ArgumentAt(buf, pos, ai)
  }

  function InspectChunks(buf: bytes, pos: nat, lengths: seq<int>, size: int): (r: InOut<(seq<int>, int)>)
    requires pos <= |buf|
    ensures r.Found? ==> pos <= r.pos <= |buf|
    decreases |buf| - pos
  {
    if pos == |buf| then Found((lengths, size), pos)
    else if buf[pos] == 0xFF then Found((lengths, size + 1), pos + 1)
    else if buf[pos] % 32 == 31 then Bad(Endless)
    else
      match ArgumentAt(buf, pos + 1, buf[pos] % 32)
      case ArgFail(e) => Bad(e)
      case Arg(len, p) =>
        if p + len > |buf| then Bad(UnexpectedEnd)
        else InspectChunks(buf, p + len, lengths + [len], size + 1 + len)
  }

  lemma ChunksStep(buf: bytes, pos: nat, lengths: seq<int>, size: int)
    requires pos < |buf|
    ensures buf[pos] == 0xFF ==> InspectChunks(buf, pos, lengths, size) == Found((lengths, size + 1), pos + 1)
    ensures buf[pos] != 0xFF && buf[pos] % 32 == 31 ==> InspectChunks(buf, pos, lengths, size) == Bad(Endless)
    ensures buf[pos] != 0xFF && buf[pos] % 32 != 31 ==>
      var a := ArgumentAt(buf, pos + 1, buf[pos] % 32);
      InspectChunks(buf, pos, lengths, size)
      == if a.ArgFail? then Bad(a.error)
         else if a.pos + a.value > |buf| then Bad(UnexpectedEnd)
         else InspectChunks(buf, a.pos + a.value, lengths + [a.value], size + 1 + a.value)
  {
    hide ArgumentAt;
  }

  lemma NoChunksLeft(buf: bytes, lengths: seq<int>, size: int)
    ensures InspectChunks(buf, |buf|, lengths, size) == Found((lengths, size), |buf|)
  {
  }

  function InspectString(buf: bytes, pos: nat, start: nat, text: bool, ai: nat): (r: InOut<Node>)
    requires start <= pos <= |buf| && ai < 32
    ensures r.Found? ==> pos <= r.pos <= |buf|
  {
    if ai == 31 then
      match InspectChunks(buf, pos, [], 1)
      case Bad(e) => Bad(e)
      case Found(found, p) => Found(Chunks(text, found.0, found.1), p)
    else
      match LooseArgumentAt(buf, pos, ai)
      case ArgFail(e) => Bad(e)
      case Arg(len, p) =>
        if p + len > |buf| then Bad(UnexpectedEnd)
        else Found(Leaf(if text then TextKind else BytesKind, len, p + len - start), p + len)
  }

  function SimpleNode(ai: nat): Node {
    if ai == 20 || ai == 21 then Leaf(BoolKind, ai - 20, 1)
    else if ai == 22 then Leaf(NullKind, 0, 1)
    else if ai == 23 then Leaf(UndefinedKind, 0, 1)
    else Leaf(SimpleKind, ai, 1)
  }

  function InspectSimple(buf: bytes, pos: nat, ai: nat): (r: InOut<Node>)
    requires pos <= |buf| && ai < 32
    ensures r.Found? ==> pos <= r.pos <= |buf|
  {
    if ai == 31 then Bad(UnexpectedBreak)
    else if ai < 24 || ai > 27 then Found(SimpleNode(ai), pos)
    else
      var (kind, len) :=
        if ai == 24 then (SimpleKind, 1) else if ai == 25 then (Float16Kind, 2)
        else if ai == 26 then (Float32Kind, 4) else (Float64Kind, 8);
      if pos + len > |buf| then Bad(UnexpectedEnd) else Found(Leaf(kind, 0, 1 + len), pos + len)
  }

  function Inspect(buf: bytes, pos: nat, depth: nat, md: nat): (r: InOut<Node>)
    requires pos <= |buf|
    ensures r.Found? ==> pos <= r.pos <= |buf|
    ensures r.Found? && pos < |buf| ==> pos < r.pos
    decreases |buf| - pos, 0
  {
    if pos == |buf| then Found(Eof, pos)
    else
      var mt, ai := buf[pos] / 32, buf[pos] % 32;
      if mt == 2 || mt == 3 then InspectString(buf, pos + 1, pos, mt == 3, ai)
      else if (mt == 4 || mt == 5) && ai == 31 then
        GroupOpen(mt == 5, depth >= md,
          if mt == 4 then InspectOpenArray(buf, pos + 1, depth + 1, md, []) else InspectOpenMap(buf, pos + 1, depth + 1, md, []))
      else if mt == 7 then InspectSimple(buf, pos + 1, ai)
      else
        match LooseArgumentAt(buf, pos + 1, ai)
        case ArgFail(e) => Bad(e)
        case Arg(arg, p) => InspectWithArgument(buf, p, pos, depth, md, mt, arg)
  }

  /** The argument of a head as a number, and one more than it with its sign turned. */
  function Shown(arg: int): int {
    if arg < 0 then arg else ToDouble(arg)
  }

  function ShownNegative(arg: int): int {
    if arg < 0 then -1 - arg else 0 - ToDouble(ToDouble(arg) + 1)
  }

  function InspectWithArgument(buf: bytes, pos: nat, start: nat, depth: nat, md: nat, mt: nat, arg: int): (r: InOut<Node>)
    requires start < pos <= |buf|
    requires mt == 4 || mt == 5 ==> arg >= 0
    ensures r.Found? ==> pos <= r.pos <= |buf|
    decreases |buf| - pos, 2
  {
    if mt == 0 then Found(Leaf(UIntKind, Shown(arg), pos - start), pos)
    else if mt == 1 then Found(Leaf(NegIntKind, ShownNegative(arg), pos - start), pos)
    else if mt == 4 then GroupClosed(false, depth >= md, arg, pos - start, InspectItems(buf, pos, depth + 1, md, arg, []))
    else if mt == 5 then GroupClosed(true, depth >= md, arg, pos - start, InspectItems(buf, pos, depth + 1, md, 2 * arg, []))
    else
      match Inspect(buf, pos, depth + 1, md)
      case Bad(e) => Bad(e)
      case Found(inner, p) => Found(TagNode(Shown(arg), inner, p - start), p)
  }

  function GroupClosed(map_: bool, truncated: bool, count: nat, head: nat, r: InOut<seq<Node>>): InOut<Node> {
    match r
    case Bad(e) => Bad(e)
    case Found(nodes, p) =>
      Found(Group(map_, false, truncated, count, if truncated then [] else nodes, head + Sizes(nodes)), p)
  }

  /** The break is counted only when the group is expanded. */
  function GroupOpen(map_: bool, truncated: bool, r: InOut<Open>): InOut<Node> {
    match r
    case Bad(e) => Bad(e)
    case Found(open, p) =>
      var count := if map_ then |open.nodes| / 2 else |open.nodes|;
      var close := if open.closed && !truncated then 1 else 0;
      Found(Group(map_, true, truncated, count, if truncated then [] else open.nodes, 1 + Sizes(open.nodes) + close), p)
  }

  function InspectItems(buf: bytes, pos: nat, depth: nat, md: nat, left: nat, acc: seq<Node>): (r: InOut<seq<Node>>)
    requires pos <= |buf|
    ensures r.Found? ==> pos <= r.pos <= |buf|
    decreases |buf| - pos, 1, left
  {
    if left == 0 then Found(acc, pos)
    else
      match Inspect(buf, pos, depth, md)
      case Bad(e) => Bad(e)
      case Found(node, p) => InspectItems(buf, p, depth, md, left - 1, acc + [node])
  }

  function InspectOpenArray(buf: bytes, pos: nat, depth: nat, md: nat, acc: seq<Node>): (r: InOut<Open>)
    requires pos <= |buf|
    ensures r.Found? ==> pos <= r.pos <= |buf|
    decreases |buf| - pos, 1, 0
  {
    if pos == |buf| then Found(Open(acc, false), pos)
    else if buf[pos] == 0xFF then Found(Open(acc, true), pos + 1)
    else
      match Inspect(buf, pos, depth, md)
      case Bad(e) => Bad(e)
      case Found(node, p) => InspectOpenArray(buf, p, depth, md, acc + [node])
  }

  function InspectOpenMap(buf: bytes, pos: nat, depth: nat, md: nat, acc: seq<Node>): (r: InOut<Open>)
    requires pos <= |buf|
    ensures r.Found? ==> pos <= r.pos <= |buf|
    decreases |buf| - pos, 1, 0
  {
    if pos == |buf| then Found(Open(acc, false), pos)
    else if buf[pos] == 0xFF then Found(Open(acc, true), pos + 1)
    else
      match Inspect(buf, pos, depth, md)
      case Bad(e) => Bad(e)
      case Found(k, p) =>
        match Inspect(buf, p, depth, md)
        case Bad(e) => Bad(e)
        case Found(v, p') => InspectOpenMap(buf, p', depth, md, acc + [k] + [v])
  }

  // ---- what it finds in a wire item ------------------------------------------------

  function Lengths(chunks: seq<Chunk>): seq<int> {
    if chunks == [] then [] else [|chunks[0].data|] + Lengths(chunks[1..])
  }

  function ChunkSizes(chunks: seq<Chunk>): int {
    if chunks == [] then 0 else 1 + |chunks[0].data| + ChunkSizes(chunks[1..])
  }

  /** The node reported for an item met `depth` levels down when groups are expanded above level `md`. */
  function NodeOf(w: Item, depth: nat, md: nat): Node
    requires Valid(w)
    decreases w, 1
  {
    match w
    case Integer(neg, h) =>
      if neg then Leaf(NegIntKind, ShownNegative(h.arg), |HeadBytes(1, h)|) else Leaf(UIntKind, Shown(h.arg), |HeadBytes(0, h)|)
    case Str(text, h, data) =>
      Leaf(if text then TextKind else BytesKind, |data|, |HeadBytes(StringType(text), h)| + |data|)
    case Chunked(text, chunks) => Chunks(text, Lengths(chunks), 2 + ChunkSizes(chunks))
    case Array(form, items) => GroupNode(false, form, |items|, NodesOf(items, depth + 1, md), depth >= md)
    case Map(form, items) => GroupNode(true, form, |items| / 2, NodesOf(items, depth + 1, md), depth >= md)
    case Tag(h, inner) => TagNode(Shown(h.arg), NodeOf(inner, depth + 1, md), |HeadBytes(6, h)| + |Serialize(inner)|)
    case Simple(ai) => SimpleNode(ai)
    case SimpleByte(_) => Leaf(SimpleKind, 0, 2)
    case FloatItem(data) =>
      Leaf(if |data| == 2 then Float16Kind else if |data| == 4 then Float32Kind else Float64Kind, 0, 1 + |data|)
  }

  function GroupNode(map_: bool, form: Form, count: nat, nodes: seq<Node>, truncated: bool): Node
    requires form.Definite? ==> ValidHead(form.head)
  {
    var close := if form.Indefinite? && !truncated then 1 else 0;
    Group(map_, form.Indefinite?, truncated, count, if truncated then [] else nodes,
          |OpenBytes(if map_ then 5 else 4, form)| + Sizes(nodes) + close)
  }

  function NodesOf(items: seq<Item>, depth: nat, md: nat): (nodes: seq<Node>)
    requires AllValid(items)
    ensures |nodes| == |items|
    decreases items, 0
  {
    if items == [] then [] else [NodeOf(items[0], depth, md)] + NodesOf(items[1..], depth, md)
  }

  /**
   The bytes the report misses: the length bytes of chunk heads, and the break of an
   indefinite group that is not expanded. A tag's size is taken from the cursor, so
   nothing is missing from it whatever it holds.
   */
  function Missing(w: Item, depth: nat, md: nat): nat
    requires Valid(w)
    decreases w, 1
  {
    match w
    case Chunked(_, chunks) => ChunkArgs(chunks)
    case Array(form, items) => MissingAll(items, depth + 1, md) + (if form.Indefinite? && depth >= md then 1 else 0)
    case Map(form, items) => MissingAll(items, depth + 1, md) + (if form.Indefinite? && depth >= md then 1 else 0)
    case _ => 0
  }

  function ChunkArgs(chunks: seq<Chunk>): nat {
    if chunks == [] then 0 else chunks[0].head.width + ChunkArgs(chunks[1..])
  }

  function MissingAll(items: seq<Item>, depth: nat, md: nat): nat
    requires AllValid(items)
    decreases items, 0
  {
    if items == [] then 0 else Missing(items[0], depth, md) + MissingAll(items[1..], depth, md)
  }

  lemma {:induction false} ChunkSizesAre(text: bool, chunks: seq<Chunk>)
    requires ValidChunks(chunks)
    ensures ChunkSizes(chunks) == |SerializeChunks(text, chunks)| - ChunkArgs(chunks)
  {
    if chunks != [] {
      ChunkSizesAre(text, chunks[1..]);
    }
  }

  /** The reported size is the item's length less the missing bytes. */
  lemma {:induction false} SizeOf(w: Item, depth: nat, md: nat)
    requires Valid(w)
    ensures Size(NodeOf(w, depth, md)) == |Serialize(w)| - Missing(w, depth, md)
    decreases w, 1
  {
    hide HeadBytes;
    match w
    case Chunked(text, chunks) => ChunkSizesAre(text, chunks);
    case Array(_, items) => SizesOf(items, depth + 1, md);
    case Map(_, items) => SizesOf(items, depth + 1, md);
    case _ =>
  }

  lemma {:induction false} SizesOf(items: seq<Item>, depth: nat, md: nat)
    requires AllValid(items)
    ensures Sizes(NodesOf(items, depth, md)) == |SerializeAll(items)| - MissingAll(items, depth, md)
    decreases items, 0
  {
    if items != [] {
      SizeOf(items[0], depth, md);
      SizesOf(items[1..], depth, md);
      assert NodesOf(items, depth, md)[1..] == NodesOf(items[1..], depth, md);
    }
  }

  lemma {:induction false} ItemsAcc(buf: bytes, pos: nat, depth: nat, md: nat, left: nat, acc: seq<Node>)
    requires pos <= |buf|
    ensures InspectItems(buf, pos, depth, md, left, acc)
         == var r := InspectItems(buf, pos, depth, md, left, []);
            if r.Bad? then Bad(r.error) else Found(acc + r.value, r.pos)
    decreases left
  {
    hide Inspect;
    if left == 0 {
      assert acc + [] == acc;
    } else {
      var first := Inspect(buf, pos, depth, md);
      if first.Found? {
        ItemsAcc(buf, first.pos, depth, md, left - 1, acc + [first.value]);
        ItemsAcc(buf, first.pos, depth, md, left - 1, [] + [first.value]);
        var rest := InspectItems(buf, first.pos, depth, md, left - 1, []);
        if rest.Found? {
          assert acc + [first.value] + rest.value == acc + ([] + [first.value] + rest.value);
        }
      }
    }
  }

  lemma {:induction false} ItemsInspected(buf: bytes, pos: nat, depth: nat, md: nat, items: seq<Item>)
    requires AllValid(items) && At(buf, pos, SerializeAll(items))
    ensures InspectItems(buf, pos, depth, md, |items|, [])
         == Found(NodesOf(items, depth, md), pos + |SerializeAll(items)|)
    decreases items, 0
  {
    hide Inspect, At, NodeOf, Serialize;
    if items != [] {
      ItemsStart(buf, pos, items);
      ItemInspected(buf, pos, depth, md, items[0]);
      var next, node := pos + |Serialize(items[0])|, NodeOf(items[0], depth, md);
      ItemsInspected(buf, next, depth, md, items[1..]);
      ItemsAcc(buf, next, depth, md, |items| - 1, [node]);
      assert [] + [node] == [node];
    }
  }

  lemma {:induction false} OpenArrayInspected(buf: bytes, pos: nat, depth: nat, md: nat, items: seq<Item>, acc: seq<Node>)
    requires AllValid(items) && At(buf, pos, SerializeAll(items) + [0xFF])
    ensures InspectOpenArray(buf, pos, depth, md, acc)
         == Found(Open(acc + NodesOf(items, depth, md), true), pos + |SerializeAll(items)| + 1)
    decreases items, 0
  {
    hide Inspect, At, NodeOf, Serialize;
    if items == [] {
      AtByte(buf, pos, 0xFF);
      assert SerializeAll(items) + [0xFF] == [0xFF] && acc + [] == acc;
    } else {
      OpenItemsStart(buf, pos, items);
      ItemInspected(buf, pos, depth, md, items[0]);
      var next, node := pos + |Serialize(items[0])|, NodeOf(items[0], depth, md);
      OpenArrayInspected(buf, next, depth, md, items[1..], acc + [node]);
      assert acc + [node] + NodesOf(items[1..], depth, md) == acc + ([node] + NodesOf(items[1..], depth, md));
    }
  }

  lemma OpenMapStep(buf: bytes, pos: nat, depth: nat, md: nat, acc: seq<Node>)
    requires pos < |buf| && buf[pos] != 0xFF && Inspect(buf, pos, depth, md).Found?
    requires Inspect(buf, Inspect(buf, pos, depth, md).pos, depth, md).Found?
    ensures var k := Inspect(buf, pos, depth, md);
            var v := Inspect(buf, k.pos, depth, md);
            InspectOpenMap(buf, pos, depth, md, acc) == InspectOpenMap(buf, v.pos, depth, md, acc + [k.value] + [v.value])
  {
    hide Inspect;
  }

  lemma NodesOfPair(items: seq<Item>, depth: nat, md: nat, acc: seq<Node>)
    requires AllValid(items) && |items| >= 2
    ensures AllValid(items[1..]) && items[1..][0] == items[1] && items[1..][1..] == items[2..] && AllValid(items[2..])
    ensures Valid(items[0]) && Valid(items[1])
    ensures acc + [NodeOf(items[0], depth, md)] + [NodeOf(items[1], depth, md)] + NodesOf(items[2..], depth, md)
         == acc + NodesOf(items, depth, md)
  {
    hide NodeOf, Valid;
    assert items[1..][1..] == items[2..];
    assert NodesOf(items[1..], depth, md) == [NodeOf(items[1], depth, md)] + NodesOf(items[2..], depth, md);
  }

  lemma OpenMapEnds(buf: bytes, pos: nat, depth: nat, md: nat, acc: seq<Node>)
    requires At(buf, pos, SerializeAll([]) + [0xFF])
    ensures pos < |buf| && InspectOpenMap(buf, pos, depth, md, acc) == Found(Open(acc + NodesOf([], depth, md), true), pos + 1)
  {
    AtByte(buf, pos, 0xFF);
    assert SerializeAll([]) + [0xFF] == [0xFF] && acc + [] == acc;
  }

  lemma {:induction false} OpenMapInspected(buf: bytes, pos: nat, depth: nat, md: nat, items: seq<Item>, acc: seq<Node>)
    requires AllValid(items) && |items| % 2 == 0 && At(buf, pos, SerializeAll(items) + [0xFF])
    ensures InspectOpenMap(buf, pos, depth, md, acc)
         == Found(Open(acc + NodesOf(items, depth, md), true), pos + |SerializeAll(items)| + 1)
    decreases items, 0
  {
    hide Inspect, At, NodeOf, Serialize, InspectOpenMap, NodesOf, Valid;
    if items == [] {
      OpenMapEnds(buf, pos, depth, md, acc);
    } else {
      NodesOfPair(items, depth, md, acc);
      hide AllValid;
      OpenItemsStart(buf, pos, items);
      ItemInspected(buf, pos, depth, md, items[0]);
      var next := pos + |Serialize(items[0])|;
      OpenItemsStart(buf, next, items[1..]);
      ItemInspected(buf, next, depth, md, items[1]);
      OpenMapStep(buf, pos, depth, md, acc);
      var after := acc + [NodeOf(items[0], depth, md)] + [NodeOf(items[1], depth, md)];
      OpenMapInspected(buf, next + |Serialize(items[1])|, depth, md, items[2..], after);
    }
  }

  /** A definite chunk of any major type is passed over. */
  lemma ChunkInspected(buf: bytes, pos: nat, mt: nat, c: Chunk, lengths: seq<int>, size: int)
    requires mt < 8 && ValidChunk(c) && At(buf, pos, HeadBytes(mt, c.head) + c.data)
    ensures pos + |HeadBytes(mt, c.head)| + |c.data| <= |buf|
    ensures InspectChunks(buf, pos, lengths, size)
         == InspectChunks(buf, pos + |HeadBytes(mt, c.head)| + |c.data|, lengths + [|c.data|], size + 1 + |c.data|)
  {
    hide HeadBytes, At, InspectChunks;
    AtConcat(buf, pos, HeadBytes(mt, c.head), c.data);
    AtSlice(buf, pos + |HeadBytes(mt, c.head)|, c.data);
    HeadReads(buf, pos, mt, c.head);
    ChunksStep(buf, pos, lengths, size);
  }

  lemma {:induction false} ChunksInspected(buf: bytes, pos: nat, text: bool, chunks: seq<Chunk>, lengths: seq<int>, size: int)
    requires ValidChunks(chunks) && At(buf, pos, SerializeChunks(text, chunks) + [0xFF])
    ensures InspectChunks(buf, pos, lengths, size)
         == Found((lengths + Lengths(chunks), size + ChunkSizes(chunks) + 1), pos + |SerializeChunks(text, chunks)| + 1)
    decreases chunks
  {
    hide HeadBytes, At, InspectChunks;
    AtConcat(buf, pos, SerializeChunks(text, chunks), [0xFF]);
    if chunks == [] {
      AtByte(buf, pos, 0xFF);
      ChunksStep(buf, pos, lengths, size);
      assert lengths + [] == lengths;
    } else {
      var c, rest := chunks[0], SerializeChunks(text, chunks[1..]);
      var first := HeadBytes(StringType(text), c.head) + c.data;
      AtConcat(buf, pos, first, rest);
      ChunkInspected(buf, pos, StringType(text), c, lengths, size);
      var next := pos + |first|;
      AtConcat(buf, next, rest, [0xFF]);
      ChunksInspected(buf, next, text, chunks[1..], lengths + [|c.data|], size + 1 + |c.data|);
      assert lengths + [|c.data|] + Lengths(chunks[1..]) == lengths + ([|c.data|] + Lengths(chunks[1..]));
    }
  }

  lemma StringInspected(buf: bytes, pos: nat, w: Item, depth: nat, md: nat)
    requires w.Str? && Valid(w) && At(buf, pos, Serialize(w))
    ensures Inspect(buf, pos, depth, md) == Found(NodeOf(w, depth, md), pos + |Serialize(w)|)
  {
    hide HeadBytes, At;
    var mt, at := StringType(w.text), pos + |HeadBytes(StringType(w.text), w.head)|;
    AtConcat(buf, pos, HeadBytes(mt, w.head), w.data);
    HeadReads(buf, pos, mt, w.head);
    AtSlice(buf, at, w.data);
    assert Inspect(buf, pos, depth, md) == InspectString(buf, pos + 1, pos, w.text, buf[pos] % 32);
    assert LooseArgumentAt(buf, pos + 1, buf[pos] % 32) == Arg(|w.data|, at);
  }

  lemma ChunkedInspected(buf: bytes, pos: nat, w: Item, depth: nat, md: nat)
    requires w.Chunked? && Valid(w) && At(buf, pos, Serialize(w))
    ensures Inspect(buf, pos, depth, md) == Found(NodeOf(w, depth, md), pos + |Serialize(w)|)
  {
    hide HeadBytes, At;
    var open, body := [StringType(w.text) * 32 + 31], SerializeChunks(w.text, w.chunks) + [0xFF];
    assert Serialize(w) == open + body;
    AtConcat(buf, pos, open, body);
    AtByte(buf, pos, open[0]);
    ChunksInspected(buf, pos + 1, w.text, w.chunks, [], 1);
    assert [] + Lengths(w.chunks) == Lengths(w.chunks);
    assert Inspect(buf, pos, depth, md) == InspectString(buf, pos + 1, pos, w.text, 31);
  }

  lemma HeadInspects(buf: bytes, pos: nat, depth: nat, md: nat, mt: nat, h: Head)
    requires mt < 7 && mt != 2 && mt != 3 && (ValidHead(h) || (h == SENTINEL && mt != 4 && mt != 5))
    requires At(buf, pos, HeadBytes(mt, h))
    ensures Inspect(buf, pos, depth, md)
         == InspectWithArgument(buf, pos + |HeadBytes(mt, h)|, pos, depth, md, mt, h.arg)
  {
    hide HeadBytes, At;
    HeadReads(buf, pos, mt, h);
    var ai := buf[pos] % 32;
    assert LooseArgumentAt(buf, pos + 1, ai) == Arg(h.arg, pos + |HeadBytes(mt, h)|);
  }

  /** The inspector finds in every wire item, definite or not, the node that describes it. */
  lemma {:induction false} ItemInspected(buf: bytes, pos: nat, depth: nat, md: nat, w: Item)
    requires Valid(w) && At(buf, pos, Serialize(w))
    ensures Inspect(buf, pos, depth, md) == Found(NodeOf(w, depth, md), pos + |Serialize(w)|)
    decreases w, 2
  {
    hide HeadBytes, At, Inspect, Serialize, NodeOf;
    match w
    case Integer(neg, h) => IntegerInspected(buf, pos, depth, md, w);
    case Str(_, _, _) => StringInspected(buf, pos, w, depth, md);
    case Chunked(_, _) => ChunkedInspected(buf, pos, w, depth, md);
    case Array(form, _) =>
      if form.Definite? { DefiniteInspected(buf, pos, depth, md, w); } else { IndefiniteInspected(buf, pos, depth, md, w); }
    case Map(form, _) =>
      if form.Definite? { DefiniteInspected(buf, pos, depth, md, w); } else { IndefiniteInspected(buf, pos, depth, md, w); }
    case Tag(_, _) => TagInspected(buf, pos, depth, md, w);
    case _ => SimpleInspected(buf, pos, depth, md, w);
  }

  lemma IntegerInspected(buf: bytes, pos: nat, depth: nat, md: nat, w: Item)
    requires Valid(w) && At(buf, pos, Serialize(w)) && w.Integer?
    ensures Inspect(buf, pos, depth, md) == Found(NodeOf(w, depth, md), pos + |Serialize(w)|)
  {
    hide HeadBytes, At;
    HeadInspects(buf, pos, depth, md, if w.negative then 1 else 0, w.head);
  }

  lemma TagParts(w: Item, depth: nat, md: nat)
    requires Valid(w) && w.Tag?
    ensures Valid(w.inner) && (ValidHead(w.head) || w.head == SENTINEL) && Serialize(w) == HeadBytes(6, w.head) + Serialize(w.inner)
    ensures NodeOf(w, depth, md) == TagNode(Shown(w.head.arg), NodeOf(w.inner, depth + 1, md), |Serialize(w)|)
  {
    hide HeadBytes;
  }

  lemma TagStep(buf: bytes, pos: nat, start: nat, depth: nat, md: nat, arg: int)
    requires start < pos <= |buf| && Inspect(buf, pos, depth + 1, md).Found?
    ensures var r := Inspect(buf, pos, depth + 1, md);
            InspectWithArgument(buf, pos, start, depth, md, 6, arg) == Found(TagNode(Shown(arg), r.value, r.pos - start), r.pos)
  {
    hide Inspect;
  }

  lemma {:induction false} TagInspected(buf: bytes, pos: nat, depth: nat, md: nat, w: Item)
    requires Valid(w) && At(buf, pos, Serialize(w)) && w.Tag?
    ensures Inspect(buf, pos, depth, md) == Found(NodeOf(w, depth, md), pos + |Serialize(w)|)
    decreases w, 1
  {
    hide HeadBytes, At, Inspect, InspectWithArgument, NodeOf, Serialize, Valid, Shown;
    TagParts(w, depth, md);
    var at := pos + |HeadBytes(6, w.head)|;
    AtConcat(buf, pos, HeadBytes(6, w.head), Serialize(w.inner));
    HeadInspects(buf, pos, depth, md, 6, w.head);
    ItemInspected(buf, at, depth + 1, md, w.inner);
    AtSlice(buf, at, Serialize(w.inner));
    TagStep(buf, at, pos, depth, md, w.head.arg);
  }

  lemma SimpleInspected(buf: bytes, pos: nat, depth: nat, md: nat, w: Item)
    requires Valid(w) && At(buf, pos, Serialize(w))
    requires w.Simple? || w.SimpleByte? || w.FloatItem?
    ensures Inspect(buf, pos, depth, md) == Found(NodeOf(w, depth, md), pos + |Serialize(w)|)
  {
    hide HeadBytes, At;
    var s := Serialize(w);
    FirstByte(buf, pos, s);
    AtSlice(buf, pos, s);
    assert Inspect(buf, pos, depth, md) == InspectSimple(buf, pos + 1, s[0] % 32);
  }

  lemma ClosedNode(w: Item, depth: nat, md: nat, end: nat)
    requires Valid(w) && (w.Array? || w.Map?) && w.form.Definite?
    ensures var h := w.form.head;
            && h.arg >= 0 && |w.items| == (if w.Array? then h.arg else 2 * h.arg)
            && GroupClosed(w.Map?, depth >= md, h.arg, |HeadBytes(if w.Array? then 4 else 5, h)|,
                           Found(NodesOf(w.items, depth + 1, md), end))
               == Found(NodeOf(w, depth, md), end)
  {
    hide HeadBytes, NodesOf, Sizes;
  }

  lemma {:induction false} DefiniteInspected(buf: bytes, pos: nat, depth: nat, md: nat, w: Item)
    requires Valid(w) && At(buf, pos, Serialize(w))
    requires (w.Array? || w.Map?) && w.form.Definite?
    ensures Inspect(buf, pos, depth, md) == Found(NodeOf(w, depth, md), pos + |Serialize(w)|)
    decreases w, 1
  {
    hide HeadBytes, At, Inspect, Serialize, NodeOf, NodesOf, GroupClosed, InspectItems;
    var mt := if w.Array? then 4 else 5;
    ContainerLayout(buf, pos, w, mt);
    HeadInspects(buf, pos, depth, md, mt, w.form.head);
    ItemsInspected(buf, pos + |HeadBytes(mt, w.form.head)|, depth + 1, md, w.items);
    ClosedNode(w, depth, md, pos + |Serialize(w)|);
  }

  lemma OpenStep(buf: bytes, pos: nat, depth: nat, md: nat, map_: bool)
    requires pos < |buf| && buf[pos] == (if map_ then 0xBF else 0x9F)
    ensures Inspect(buf, pos, depth, md)
         == GroupOpen(map_, depth >= md, if map_ then InspectOpenMap(buf, pos + 1, depth + 1, md, [])
                                         else InspectOpenArray(buf, pos + 1, depth + 1, md, []))
  {
    hide InspectOpenArray, InspectOpenMap;
  }

  lemma OpenNode(w: Item, depth: nat, md: nat, end: nat)
    requires Valid(w) && (w.Array? || w.Map?) && w.form.Indefinite?
    ensures AllValid(w.items)
    ensures GroupOpen(w.Map?, depth >= md, Found(Open(NodesOf(w.items, depth + 1, md), true), end)) == Found(NodeOf(w, depth, md), end)
  {
    hide HeadBytes, NodesOf, Sizes;
  }

  lemma {:induction false} IndefiniteInspected(buf: bytes, pos: nat, depth: nat, md: nat, w: Item)
    requires Valid(w) && At(buf, pos, Serialize(w))
    requires (w.Array? || w.Map?) && w.form.Indefinite?
    ensures Inspect(buf, pos, depth, md) == Found(NodeOf(w, depth, md), pos + |Serialize(w)|)
    decreases w, 1
  {
    hide At, Serialize, InspectOpenArray, InspectOpenMap, HeadBytes, Inspect, NodeOf, GroupOpen, NodesOf;
    var mt := if w.Array? then 4 else 5;
    ContainerLayout(buf, pos, w, mt);
    AtByte(buf, pos, mt * 32 + 31);
    OpenStep(buf, pos, depth, md, w.Map?);
    OpenNode(w, depth, md, pos + |Serialize(w)|);
    var nodes := NodesOf(w.items, depth + 1, md);
    assert [] + nodes == nodes;
    if w.Array? {
      OpenArrayInspected(buf, pos + 1, depth + 1, md, w.items, []);
    } else {
      OpenMapInspected(buf, pos + 1, depth + 1, md, w.items, []);
    }
  }

  // ---- results ---------------------------------------------------------------------

  /**
   The size reported for an item is its length less the bytes counted as missing, and the
   cursor ends behind the item whatever the expansion level. So the size is right exactly
   when nothing is missing.
   */
  lemma InspectedSize(buf: bytes, pos: nat, depth: nat, md: nat, w: Item)
    requires Valid(w) && At(buf, pos, Serialize(w))
    ensures var r := Inspect(buf, pos, depth, md);
            && r.Found? && r.pos == pos + |Serialize(w)|
            && Size(r.value) == |Serialize(w)| - Missing(w, depth, md)
            && (Size(r.value) == |Serialize(w)| <==> Missing(w, depth, md) == 0)
  {
    hide Inspect, NodeOf, Serialize, Missing;
    ItemInspected(buf, pos, depth, md, w);
    SizeOf(w, depth, md);
  }

  function Eofs(m: nat): (nodes: seq<Node>)
    ensures |nodes| == m
  {
    if m == 0 then [] else [Eof] + Eofs(m - 1)
  }

  lemma {:induction false} NoBytes(m: nat)
    ensures Sizes(Eofs(m)) == 0
  {
    if m > 0 {
      NoBytes(m - 1);
      assert Eofs(m)[1..] == Eofs(m - 1);
    }
  }

  lemma {:induction false} SizesConcat(a: seq<Node>, b: seq<Node>)
    ensures Sizes(a + b) == Sizes(a) + Sizes(b)
    decreases a
  {
    hide Size;
    if a == [] {
      assert a + b == b;
    } else {
      SizesConcat(a[1..], b);
      assert (a + b)[1..] == a[1..] + b;
    }
  }

  lemma {:induction false} OnlyEofs(buf: bytes, depth: nat, md: nat, m: nat, acc: seq<Node>)
    ensures InspectItems(buf, |buf|, depth, md, m, acc) == Found(acc + Eofs(m), |buf|)
    decreases m
  {
    if m == 0 {
      assert acc + [] == acc;
    } else {
      OnlyEofs(buf, depth, md, m - 1, acc + [Eof]);
      assert acc + [Eof] + Eofs(m - 1) == acc + Eofs(m);
    }
  }

  lemma {:induction false} ItemsThenEnd(buf: bytes, pos: nat, depth: nat, md: nat, items: seq<Item>, m: nat, acc: seq<Node>)
    requires AllValid(items) && At(buf, pos, SerializeAll(items)) && pos + |SerializeAll(items)| == |buf|
    ensures InspectItems(buf, pos, depth, md, |items| + m, acc) == Found(acc + NodesOf(items, depth, md) + Eofs(m), |buf|)
    decreases |items|
  {
    hide Inspect, At, NodeOf, Serialize, Eofs;
    if items == [] {
      OnlyEofs(buf, depth, md, m, acc);
      assert acc + [] == acc;
    } else {
      ItemsStart(buf, pos, items);
      ItemInspected(buf, pos, depth, md, items[0]);
      var next, node := pos + |Serialize(items[0])|, NodeOf(items[0], depth, md);
      ItemsThenEnd(buf, next, depth, md, items[1..], m, acc + [node]);
      assert acc + [node] + NodesOf(items[1..], depth, md) == acc + NodesOf(items, depth, md);
    }
  }

  /** An array cut short by the end of the buffer is reported with the number it announces and a node of no bytes for each missing item. */
  lemma CutShort(buf: bytes, pos: nat, depth: nat, md: nat, h: Head, items: seq<Item>)
    requires ValidHead(h) && h.arg >= |items| && AllValid(items) && At(buf, pos, HeadBytes(4, h) + SerializeAll(items))
    requires pos + |HeadBytes(4, h)| + |SerializeAll(items)| == |buf|
    ensures var nodes := NodesOf(items, depth + 1, md);
            Inspect(buf, pos, depth, md)
            == Found(Group(false, false, depth >= md, h.arg, if depth >= md then [] else nodes + Eofs(h.arg - |items|),
                           |HeadBytes(4, h)| + Sizes(nodes)), |buf|)
  {
    hide HeadBytes, At, Inspect, NodesOf, SerializeAll, InspectItems, Sizes;
    var at, nodes, m := pos + |HeadBytes(4, h)|, NodesOf(items, depth + 1, md), h.arg - |items|;
    AtConcat(buf, pos, HeadBytes(4, h), SerializeAll(items));
    HeadInspects(buf, pos, depth, md, 4, h);
    ItemsThenEnd(buf, at, depth + 1, md, items, m, []);
    assert [] + nodes == nodes;
    SizesConcat(nodes, Eofs(m));
    NoBytes(m);
  }

  /** An integer is shown exactly when the number read for its head, and for a negative one the next, has a double. */
  lemma ShownExactly(arg: nat)
    ensures Shown(arg) == arg <==> FitsDouble(arg)
    ensures FitsDouble(arg) ==> (ShownNegative(arg) == -1 - arg <==> FitsDouble(arg + 1))
  {
    hide FitsDouble, ToDouble;
    KeptIffFits(arg);
    KeptIffFits(arg + 1);
  }

  /**
   The report describes the item at every depth: a group is cut short exactly from level `md` on, and an
   expanded one takes its head, its children's reported sizes and its break; a tag takes all its bytes.
   */
  predicate AddsUp(node: Node, w: Item, depth: nat, md: nat)
    requires Valid(w)
    decreases w, 1
  {
    match w
    case Array(form, items) => GroupAddsUp(node, false, form, |items|, depth, md) && (depth < md ==> AllAddUp(node.children, items, depth + 1, md))
    case Map(form, items) => GroupAddsUp(node, true, form, |items| / 2, depth, md) && (depth < md ==> AllAddUp(node.children, items, depth + 1, md))
    case Tag(h, inner) =>
      node.TagNode? && node.size == |Serialize(w)| && (h.arg < 0 || FitsDouble(h.arg) ==> node.tag == h.arg) && AddsUp(node.inner, inner, depth + 1, md)
    case Chunked(text, chunks) => node == Chunks(text, Lengths(chunks), 2 + ChunkSizes(chunks))
    case _ => node.Leaf? && node.size == |Serialize(w)| && Describes(node.kind, node.info, w)
  }

  /** A leaf's kind, and what it tells: an integer that has a double, the length of a string, which boolean or simple value. */
  predicate Describes(kind: Kind, info: int, w: Item)
    requires !w.Array? && !w.Map? && !w.Tag? && !w.Chunked?
  {
    match w
    case Integer(negative, h) =>
      if negative then kind == NegIntKind && (h.arg < 0 || (FitsDouble(h.arg) && FitsDouble(h.arg + 1)) ==> info == -1 - h.arg)
      else kind == UIntKind && (h.arg < 0 || FitsDouble(h.arg) ==> info == h.arg)
    case Str(text, _, data) => kind == (if text then TextKind else BytesKind) && info == |data|
    case Simple(ai) =>
      if ai == 20 then kind == BoolKind && info == 0
      else if ai == 21 then kind == BoolKind && info == 1
      else if ai == 22 then kind == NullKind
      else if ai == 23 then kind == UndefinedKind
      else kind == SimpleKind && info == ai
    case SimpleByte(_) => kind == SimpleKind
    case FloatItem(data) => kind == if |data| == 2 then Float16Kind else if |data| == 4 then Float32Kind else Float64Kind
  }

  lemma ShownIs(arg: int)
    ensures arg < 0 || FitsDouble(arg) ==> Shown(arg) == arg
    ensures arg < 0 || (FitsDouble(arg) && FitsDouble(arg + 1)) ==> ShownNegative(arg) == -1 - arg
  {
    hide FitsDouble, ToDouble;
    if arg >= 0 {
      KeptIffFits(arg);
      KeptIffFits(arg + 1);
    }
  }

  predicate GroupAddsUp(node: Node, map_: bool, form: Form, count: nat, depth: nat, md: nat)
    requires form.Definite? ==> ValidHead(form.head)
  {
    && node.Group? && node.map_ == map_ && node.indefinite == form.Indefinite? && node.count == count
    && (node.truncated <==> depth >= md) && (node.truncated ==> node.children == [])
    && (!node.truncated ==>
          node.size == |OpenBytes(if map_ then 5 else 4, form)| + Sizes(node.children) + |CloseBytes(form)|)
  }

  predicate AllAddUp(nodes: seq<Node>, items: seq<Item>, depth: nat, md: nat)
    requires AllValid(items)
    decreases items, 0
  {
    |nodes| == |items| && (items == [] || (AddsUp(nodes[0], items[0], depth, md) && AllAddUp(nodes[1..], items[1..], depth, md)))
  }

  lemma {:induction false} NodeAddsUp(w: Item, depth: nat, md: nat)
    requires Valid(w)
    ensures AddsUp(NodeOf(w, depth, md), w, depth, md)
    decreases w, 1
  {
    hide HeadBytes, FitsDouble, Shown, ShownNegative;
    match w
    case Array(_, items) => NodesAddUp(items, depth + 1, md);
    case Map(_, items) => NodesAddUp(items, depth + 1, md);
    case Tag(h, inner) =>
      ShownIs(h.arg);
      NodeAddsUp(inner, depth + 1, md);
    case Integer(_, h) => ShownIs(h.arg);
    case _ =>
  }

  lemma {:induction false} NodesAddUp(items: seq<Item>, depth: nat, md: nat)
    requires AllValid(items)
    ensures AllAddUp(NodesOf(items, depth, md), items, depth, md)
    decreases items, 0
  {
    if items != [] {
      NodeAddsUp(items[0], depth, md);
      NodesAddUp(items[1..], depth, md);
      assert NodesOf(items, depth, md)[1..] == NodesOf(items[1..], depth, md);
    }
  }

  lemma {:induction false} EncodingsMissNothing(v: Js, depth: nat, md: nat)
    requires Valid(T.ItemOf(v))
    ensures Missing(T.ItemOf(v), depth, md) == 0
    decreases v, 1
  {
    match v
    case Arr(items) => EncodedItemsMissNothing(items, depth + 1, md);
    case Obj(entries) => EncodedEntriesMissNothing(entries, depth + 1, md);
    case _ =>
  }

  lemma {:induction false} EncodedItemsMissNothing(items: seq<Js>, depth: nat, md: nat)
    requires AllValid(T.ItemsOf(items))
    ensures MissingAll(T.ItemsOf(items), depth, md) == 0
    decreases items, 0
  {
    if items != [] {
      assert T.ItemsOf(items)[1..] == T.ItemsOf(items[1..]);
      EncodingsMissNothing(items[0], depth, md);
      EncodedItemsMissNothing(items[1..], depth, md);
    }
  }

  lemma {:induction false} EncodedEntriesMissNothing(entries: seq<Entry>, depth: nat, md: nat)
    requires AllValid(T.EntryItems(entries))
    ensures MissingAll(T.EntryItems(entries), depth, md) == 0
    decreases entries, 0
  {
    if entries != [] {
      hide T.ItemOf, T.Preferred;
      var ws, rest := T.EntryItems(entries), T.EntryItems(entries[1..]);
      var tail := [T.ItemOf(entries[0].value)] + rest;
      assert ws[1..] == tail && tail[1..] == rest;
      EncodingsMissNothing(entries[0].value, depth, md);
      EncodedEntriesMissNothing(entries[1..], depth, md);
      assert MissingAll(tail, depth, md) == 0;
    }
  }

  /** The inspector agrees with the encoder: the root takes all the bytes, and every group adds up. */
  lemma InspectorAgrees(v: Js, data: bytes, md: nat)
    requires T.Representable(v) && E.Encode(v, 0, 0) == E.Done(data, T.JsCount(v))
    ensures var r := Inspect(data, 0, 0, md);
            && r.Found? && r.pos == |data| && Size(r.value) == |data|
            && Valid(T.ItemOf(v)) && AddsUp(r.value, T.ItemOf(v), 0, md)
  {
    hide Inspect, NodeOf, Serialize, Missing, E.Encode, T.ItemOf, Valid, AddsUp, At;
    T.EncodeWrites(v, 0, 0);
    AtSlice(data, 0, data);
    ItemInspected(data, 0, 0, md, T.ItemOf(v));
    SizeOf(T.ItemOf(v), 0, md);
    EncodingsMissNothing(v, 0, md);
    NodeAddsUp(T.ItemOf(v), 0, md);
  }

  // ---- the walk over the reader ----------------------------------------------------

  ghost predicate Agree<T>(reader: CborReader, r: Result<T, Error>, spec: InOut<T>)
    reads reader
  {
    match spec
    case Found(v, p) => r == Ok(v) && reader.pos == p
    case Bad(e) => r == Err(e)
  }

  method ReadArgNoTrack(reader: CborReader, ai: nat) returns (r: Result<int, Error>)
    requires reader.Valid() && ai < 32
    modifies reader`pos
    ensures reader.Valid()
    ensures match LooseArgumentAt(reader.buf, old(reader.pos), ai)
            case Arg(v, p) => r == Ok(v) && reader.pos == p
            case ArgFail(e) => r == Err(e)
  {
    if 28 <= ai <= 30 { return Ok(0); }
    r := reader.ReadArgument(ai);
  }

  /** As in the decoder, a chunk head with additional information 31 leaves the cursor where it was. */
  method InspectChunkList(reader: CborReader) returns (r: Result<(seq<int>, int), Error>)
    requires reader.Valid()
    modifies reader`pos
    ensures reader.Valid()
    ensures Agree(reader, r, InspectChunks(reader.buf, old(reader.pos), [], 1))
  {
    hide InspectChunks;
    var lengths, size := [], 1;
    while reader.pos < |reader.buf|
      invariant reader.Valid()
      invariant InspectChunks(reader.buf, old(reader.pos), [], 1) == InspectChunks(reader.buf, reader.pos, lengths, size)
      decreases |reader.buf| - reader.pos
    {
      ghost var top := reader.pos;
      ChunksStep(reader.buf, reader.pos, lengths, size);
      if reader.buf[reader.pos] == 0xFF {
        reader.pos := reader.pos + 1;
        return Ok((lengths, size + 1));
      }
      var ai := reader.buf[reader.pos] % 32;
      reader.pos := reader.pos + 1;
      var len := reader.ReadArgument(ai);
      if len.Err? { return Err(len.error); }
      var chunk := reader.ReadBytes(len.value);
      if chunk.Err? { return Err(chunk.error); }
      if ai == 31 {
        assert reader.pos == top && size + 1 + len.value == size;
        return Err(Endless);
      }
      lengths, size := lengths + [len.value], size + 1 + len.value;
    }
    NoChunksLeft(reader.buf, lengths, size);
    return Ok((lengths, size));
  }

  method InspectStringNode(reader: CborReader, start: nat, text: bool, ai: nat) returns (r: Result<Node, Error>)
    requires reader.Valid() && ai < 32 && start <= reader.pos
    modifies reader`pos
    ensures reader.Valid()
    ensures Agree(reader, r, InspectString(reader.buf, old(reader.pos), start, text, ai))
  {
    if ai == 31 {
      var found := InspectChunkList(reader);
      return if found.Err? then Err(found.error) else Ok(Chunks(text, found.value.0, found.value.1));
    }
    var len := ReadArgNoTrack(reader, ai);
    if len.Err? { return Err(len.error); }
    var data := reader.ReadBytes(len.value);
    if data.Err? { return Err(data.error); }
    return Ok(Leaf(if text then TextKind else BytesKind, len.value, reader.pos - start));
  }

  method InspectSimpleNode(reader: CborReader, ai: nat) returns (r: Result<Node, Error>)
    requires reader.Valid() && ai < 32
    modifies reader`pos
    ensures reader.Valid()
    ensures Agree(reader, r, InspectSimple(reader.buf, old(reader.pos), ai))
  {
    if ai == 31 { return Err(UnexpectedBreak); }
    if ai < 24 || ai > 27 { return Ok(SimpleNode(ai)); }
    var kind := if ai == 24 then SimpleKind else if ai == 25 then Float16Kind else if ai == 26 then Float32Kind else Float64Kind;
    var len := if ai == 24 then 1 else if ai == 25 then 2 else if ai == 26 then 4 else 8;
    var data := reader.ReadBytes(len);
    return if data.Err? then Err(data.error) else Ok(Leaf(kind, 0, 1 + len));
  }

  method InspectNode(reader: CborReader, depth: nat, md: nat) returns (r: Result<Node, Error>)
    requires reader.Valid()
    modifies reader`pos
    ensures reader.Valid()
    ensures Agree(reader, r, Inspect(reader.buf, old(reader.pos), depth, md))
    decreases |reader.buf| - reader.pos, 0
  {
    if reader.pos == |reader.buf| { return Ok(Eof); }
    var start := reader.pos;
    var mt, ai := reader.buf[start] / 32, reader.buf[start] % 32;
    reader.pos := reader.pos + 1;
    if mt == 2 || mt == 3 {
      r := InspectStringNode(reader, start, mt == 3, ai);
    } else if (mt == 4 || mt == 5) && ai == 31 {
      r := InspectOpenGroup(reader, depth, md, mt == 5);
    } else if mt == 7 {
      r := InspectSimpleNode(reader, ai);
    } else {
      var arg := ReadArgNoTrack(reader, ai);
      if arg.Err? { return Err(arg.error); }
      r := InspectRest(reader, start, depth, md, mt, arg.value);
    }
  }

  method InspectRest(reader: CborReader, start: nat, depth: nat, md: nat, mt: nat, arg: int) returns (r: Result<Node, Error>)
    requires reader.Valid() && start < reader.pos
    requires mt == 4 || mt == 5 ==> arg >= 0
    modifies reader`pos
    ensures reader.Valid()
    ensures Agree(reader, r, InspectWithArgument(reader.buf, old(reader.pos), start, depth, md, mt, arg))
    decreases |reader.buf| - reader.pos, 3
  {
    if mt == 0 { return Ok(Leaf(UIntKind, Shown(arg), reader.pos - start)); }
    if mt == 1 { return Ok(Leaf(NegIntKind, ShownNegative(arg), reader.pos - start)); }
    if mt == 4 || mt == 5 {
      var head := reader.pos - start;
      var nodes := InspectEach(reader, depth + 1, md, if mt == 4 then arg else 2 * arg);
      if nodes.Err? { return Err(nodes.error); }
      return Ok(Group(mt == 5, false, depth >= md, arg, if depth >= md then [] else nodes.value, head + Sizes(nodes.value)));
    }
    var inner := InspectNode(reader, depth + 1, md);
    return if inner.Err? then Err(inner.error) else Ok(TagNode(Shown(arg), inner.value, reader.pos - start));
  }

  method InspectEach(reader: CborReader, depth: nat, md: nat, len: nat) returns (r: Result<seq<Node>, Error>)
    requires reader.Valid()
    modifies reader`pos
    ensures reader.Valid()
    ensures Agree(reader, r, InspectItems(reader.buf, old(reader.pos), depth, md, len, []))
    decreases |reader.buf| - reader.pos, 1
  {
    var nodes := [];
    for i := 0 to len
      invariant reader.Valid() && old(reader.pos) <= reader.pos
      invariant InspectItems(reader.buf, old(reader.pos), depth, md, len, [])
             == InspectItems(reader.buf, reader.pos, depth, md, len - i, nodes)
    {
      var node := InspectNode(reader, depth, md);
      if node.Err? { return Err(node.error); }
      nodes := nodes + [node.value];
    }
    return Ok(nodes);
  }

  method InspectOpenGroup(reader: CborReader, depth: nat, md: nat, map_: bool) returns (r: Result<Node, Error>)
    requires reader.Valid()
    modifies reader`pos
    ensures reader.Valid()
    ensures Agree(reader, r, GroupOpen(map_, depth >= md,
              if map_ then InspectOpenMap(reader.buf, old(reader.pos), depth + 1, md, [])
              else InspectOpenArray(reader.buf, old(reader.pos), depth + 1, md, [])))
    decreases |reader.buf| - reader.pos, 2
  {
    var nodes, closed := [], false;
    while reader.pos < |reader.buf|
      invariant reader.Valid() && old(reader.pos) <= reader.pos && !closed
      invariant map_ ==>
        InspectOpenMap(reader.buf, old(reader.pos), depth + 1, md, []) == InspectOpenMap(reader.buf, reader.pos, depth + 1, md, nodes)
      invariant !map_ ==>
        InspectOpenArray(reader.buf, old(reader.pos), depth + 1, md, []) == InspectOpenArray(reader.buf, reader.pos, depth + 1, md, nodes)
      decreases |reader.buf| - reader.pos
    {
      if reader.buf[reader.pos] == 0xFF {
        reader.pos := reader.pos + 1;
        closed := true;
        break;
      }
      var node := InspectNode(reader, depth + 1, md);
      if node.Err? { return Err(node.error); }
      nodes := nodes + [node.value];
      if map_ {
        var val := InspectNode(reader, depth + 1, md);
        if val.Err? { return Err(val.error); }
        nodes := nodes + [val.value];
      }
    }
    var count := if map_ then |nodes| / 2 else |nodes|;
    var close := if closed && depth < md then 1 else 0;
    return Ok(Group(map_, true, depth >= md, count, if depth >= md then [] else nodes, 1 + Sizes(nodes) + close));
  }

  /** The requested level: none, or a number after conversion. */
  datatype Level = Default | NotANumber | Number(d: real)

  /** Three if none is given; otherwise the number, but at least 1 and at most 10; NaN passes both bounds. */
  function Bounded(level: Level): Level {
    match level
    case Default => Number(3.0)
    case NotANumber => NotANumber
    case Number(d) => Number(if d < 1.0 then 1.0 else if d > 10.0 then 10.0 else d)
  }

  predicate Expands(level: Level, depth: nat) {
    Bounded(level).Number? && depth as real < Bounded(level).d
  }

  /** The first depth at which groups are not expanded: no depth is less than NaN. */
  function ExpandLevel(level: Level): (md: nat)
    ensures forall depth: nat :: Expands(level, depth) <==> depth < md
    ensures level.Default? ==> md == 3
    ensures level.NotANumber? ==> md == 0
    ensures level.Number? && level.d < 1.0 ==> md == 1
    ensures level.Number? && level.d > 10.0 ==> md == 10
    ensures level.Number? && 1.0 <= level.d <= 10.0 ==> md as real - 1.0 < level.d <= md as real
  {
    if level.NotANumber? then 0
    else
      var d := Bounded(level).d;
      if d.Floor as real == d then d.Floor else d.Floor + 1
  }

  /** The tree for the first item of the buffer, and the buffer's length. */
  method InspectBuffer(buf: bytes, maxDepth: Level) returns (total: nat, r: Result<Node, Error>)
    ensures total == |buf|
    ensures var found := Inspect(buf, 0, 0, ExpandLevel(maxDepth));
            r == if found.Found? then Ok(found.value) else Err(found.error)
  {
    var reader := new CborReader(buf, (v: Value) => None);
    r := InspectNode(reader, 0, ExpandLevel(maxDepth));
    total := |buf|;
  }
}
