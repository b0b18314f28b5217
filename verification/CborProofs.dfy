/**
 The decoder reads every wire item as what it means, and accepts nothing else; the encoder
 writes wire items. Round trip, limit accounting and form independence follow.
 */
module CborProofs {
  import opened Bytes
  import opened CborWire
  import opened Objects
  import opened CborDecoder

  // ---- heads -----------------------------------------------------------------------

  lemma FirstByte(buf: bytes, pos: nat, s: bytes)
    requires At(buf, pos, s) && s != []
    ensures pos < |buf| && buf[pos] == s[0]
  {
  }

  lemma EightBytes(s: bytes)
    requires |s| == 8
    ensures FromBE(s[..4]) * 0x1_0000_0000 + FromBE(s[4..]) == FromBE(s)
  {
    Pow256Values();
    FromBEConcat(s[..4], s[4..]);
    assert s[..4] + s[4..] == s;
  }

  lemma ArgumentReads(buf: bytes, pos: nat, width: nat)
    requires IsWidth(width) && pos + width <= |buf|
    ensures ArgumentAt(buf, pos, WidthInfo(width)) == Arg(FromBE(buf[pos..pos + width]), pos + width)
  {
    var arg := buf[pos..pos + width];
    if width == 8 {
      EightBytes(arg);
      assert arg[..4] == buf[pos..pos + 4];
      assert arg[4..] == buf[pos + 4..pos + 8];
    } else if width == 1 {
      assert arg == [buf[pos]] && arg[..0] == [];
    }
  }

  lemma WideHeadReads(buf: bytes, pos: nat, first: byte, width: nat, arg: nat)
    requires IsWidth(width) && arg < Pow256(width)
    requires At(buf, pos, [first] + ToBE(arg, width))
    ensures pos < |buf| && buf[pos] == first
    ensures ArgumentAt(buf, pos + 1, WidthInfo(width)) == Arg(arg, pos + 1 + width)
  {
    AtConcat(buf, pos, [first], ToBE(arg, width));
    AtByte(buf, pos, first);
    AtSlice(buf, pos + 1, ToBE(arg, width));
    FromToBE(arg, width);
    ArgumentReads(buf, pos + 1, width);
  }

  lemma HeadReads(buf: bytes, pos: nat, mt: nat, h: Head)
    requires mt < 8 && (ValidHead(h) || h == SENTINEL)
    requires At(buf, pos, HeadBytes(mt, h))
    ensures pos < |buf| && buf[pos] / 32 == mt
    ensures buf[pos] % 32 == 31 <==> h == SENTINEL
    ensures ArgumentAt(buf, pos + 1, buf[pos] % 32) == Arg(h.arg, pos + |HeadBytes(mt, h)|)
  {
    FirstByte(buf, pos, HeadBytes(mt, h));
    if h != SENTINEL && h.width != 0 {
      WideHeadReads(buf, pos, mt * 32 + AdditionalInfo(h), h.width, h.arg);
    }
  }

  /** An item whose head carries an argument goes on from just behind that head. */
  lemma HeadDispatch(ks: KeyString, buf: bytes, pos: nat, n: nat, depth: nat, mt: nat, h: Head)
    requires mt < 7 && mt != 2 && mt != 3 && (ValidHead(h) || (h == SENTINEL && mt != 4 && mt != 5))
    requires At(buf, pos, HeadBytes(mt, h))
    requires depth <= MAX_DEPTH && n + 1 <= MAX_ELEMENTS
    ensures DecodeItem(ks, buf, pos, n, depth)
         == DecodeWithArgument(ks, buf, pos + |HeadBytes(mt, h)|, n + 1, depth, mt, h.arg)
  {
    HeadReads(buf, pos, mt, h);
    var ai := buf[pos] % 32;
    assert DecodeItem(ks, buf, pos, n, depth) == DecodeBody(ks, buf, pos + 1, n + 1, depth, mt, ai);
    assert DecodeBody(ks, buf, pos + 1, n + 1, depth, mt, ai)
        == DecodeWithArgument(ks, buf, pos + |HeadBytes(mt, h)|, n + 1, depth, mt, h.arg);
  }

  // ---- loops without their accumulators --------------------------------------------

  function Prepend<T>(front: seq<T>, r: Out<seq<T>>): Out<seq<T>> {
    match r
    case Fail(e) => Fail(e)
    case Done(back, p, n) => Done(front + back, p, n)
  }

  lemma {:induction false} ArrayAcc(ks: KeyString, buf: bytes, pos: nat, n: nat, depth: nat, left: nat, acc: seq<Value>)
    requires pos <= |buf|
    ensures DecodeArray(ks, buf, pos, n, depth, left, acc) == Prepend(acc, DecodeArray(ks, buf, pos, n, depth, left, []))
    decreases left
  {
    if left == 0 {
      assert acc + [] == acc;
    } else {
      var first := DecodeItem(ks, buf, pos, n, depth);
      if first.Done? {
        ArrayAcc(ks, buf, first.pos, first.n, depth, left - 1, acc + [first.value]);
        ArrayAcc(ks, buf, first.pos, first.n, depth, left - 1, [] + [first.value]);
        var rest := DecodeArray(ks, buf, first.pos, first.n, depth, left - 1, []);
        if rest.Done? {
          assert acc + [first.value] + rest.value == acc + ([] + [first.value] + rest.value);
        }
      }
    }
  }

  lemma ArrayStep(ks: KeyString, buf: bytes, pos: nat, n: nat, depth: nat, left: nat)
    requires pos <= |buf| && left > 0
    ensures DecodeArray(ks, buf, pos, n, depth, left, [])
         == var r := DecodeItem(ks, buf, pos, n, depth);
            if r.Fail? then Fail(r.error) else Prepend([r.value], DecodeArray(ks, buf, r.pos, r.n, depth, left - 1, []))
  {
    var first := DecodeItem(ks, buf, pos, n, depth);
    if first.Done? {
      assert [] + [first.value] == [first.value];
      ArrayAcc(ks, buf, first.pos, first.n, depth, left - 1, [first.value]);
    }
  }

  lemma {:induction false} OpenArrayAcc(ks: KeyString, buf: bytes, pos: nat, n: nat, depth: nat, acc: seq<Value>)
    requires pos <= |buf|
    ensures DecodeOpenArray(ks, buf, pos, n, depth, acc) == Prepend(acc, DecodeOpenArray(ks, buf, pos, n, depth, []))
    decreases |buf| - pos
  {
    if pos < |buf| {
      if buf[pos] == 0xFF {
        assert acc + [] == acc;
      } else {
        var first := DecodeItem(ks, buf, pos, n, depth);
        if first.Done? {
          OpenArrayAcc(ks, buf, first.pos, first.n, depth, acc + [first.value]);
          OpenArrayAcc(ks, buf, first.pos, first.n, depth, [] + [first.value]);
          var rest := DecodeOpenArray(ks, buf, first.pos, first.n, depth, []);
          if rest.Done? {
            assert acc + [first.value] + rest.value == acc + ([] + [first.value] + rest.value);
          }
        }
      }
    }
  }

  lemma OpenArrayStep(ks: KeyString, buf: bytes, pos: nat, n: nat, depth: nat)
    requires pos < |buf| && buf[pos] != 0xFF
    ensures DecodeOpenArray(ks, buf, pos, n, depth, [])
         == var r := DecodeItem(ks, buf, pos, n, depth);
            if r.Fail? then Fail(r.error) else Prepend([r.value], DecodeOpenArray(ks, buf, r.pos, r.n, depth, []))
  {
    var first := DecodeItem(ks, buf, pos, n, depth);
    if first.Done? {
      assert [] + [first.value] == [first.value];
      OpenArrayAcc(ks, buf, first.pos, first.n, depth, [first.value]);
    }
  }

  /** A map of `left` entries is an array of twice as many items, read as keys and values. */
  ghost predicate PairsOf(ks: KeyString, acc: seq<Field>, m: Out<seq<Field>>, a: Out<seq<Value>>) {
    if a.Done? && FieldsOf(ks, a.value, acc).Some? && |a.value| % 2 == 0
    then m == Done(FieldsOf(ks, a.value, acc).value, a.pos, a.n)
    else m.Fail?
  }

  lemma PairsCons(ks: KeyString, acc: seq<Field>, k: Value, v: Value, m: Out<seq<Field>>, a: Out<seq<Value>>)
    requires ks(k).Some? ==> PairsOf(ks, Put(acc, ks(k).value, v), m, a)
    ensures ks(k).Some? ==> PairsOf(ks, acc, m, Prepend([k], Prepend([v], a)))
    ensures ks(k).None? ==> PairsOf(ks, acc, Fail(KeyNotString), Prepend([k], Prepend([v], a)))
  {
    if a.Done? {
      var vs := [k] + ([v] + a.value);
      assert vs[2..] == a.value;
    }
  }

  lemma ArrayTwoSteps(ks: KeyString, buf: bytes, pos: nat, n: nat, depth: nat, left: nat)
    requires pos <= |buf| && left > 1
    ensures DecodeArray(ks, buf, pos, n, depth, left, [])
         == var k := DecodeItem(ks, buf, pos, n, depth);
            if k.Fail? then Fail(k.error)
            else
              var v := DecodeItem(ks, buf, k.pos, k.n, depth);
              if v.Fail? then Fail(v.error)
              else Prepend([k.value], Prepend([v.value], DecodeArray(ks, buf, v.pos, v.n, depth, left - 2, [])))
  {
    ArrayStep(ks, buf, pos, n, depth, left);
    var k := DecodeItem(ks, buf, pos, n, depth);
    if k.Done? {
      ArrayStep(ks, buf, k.pos, k.n, depth, left - 1);
    }
  }

  lemma {:induction false} MapAsArray(ks: KeyString, buf: bytes, pos: nat, n: nat, depth: nat, left: nat, acc: seq<Field>)
    requires pos <= |buf|
    ensures PairsOf(ks, acc, DecodeMap(ks, buf, pos, n, depth, left, acc), DecodeArray(ks, buf, pos, n, depth, 2 * left, []))
    decreases left
  {
    hide DecodeItem;
    if left > 0 {
      ArrayTwoSteps(ks, buf, pos, n, depth, 2 * left);
      var k := DecodeItem(ks, buf, pos, n, depth);
      if k.Done? {
        var v := DecodeItem(ks, buf, k.pos, k.n, depth);
        if v.Done? {
          var m := Fail(KeyNotString);
          if ks(k.value).Some? {
            var acc' := Put(acc, ks(k.value).value, v.value);
            MapAsArray(ks, buf, v.pos, v.n, depth, left - 1, acc');
            m := DecodeMap(ks, buf, v.pos, v.n, depth, left - 1, acc');
          }
          PairsCons(ks, acc, k.value, v.value, m, DecodeArray(ks, buf, v.pos, v.n, depth, 2 * left - 2, []));
        }
      }
    }
  }

  lemma {:induction false} OpenMapAsArray(ks: KeyString, buf: bytes, pos: nat, n: nat, depth: nat, acc: seq<Field>)
    requires pos <= |buf|
    ensures PairsOf(ks, acc, DecodeOpenMap(ks, buf, pos, n, depth, acc), DecodeOpenArray(ks, buf, pos, n, depth, []))
    decreases |buf| - pos
  {
    if pos < |buf| && buf[pos] != 0xFF {
      OpenArrayStep(ks, buf, pos, n, depth);
      var k := DecodeItem(ks, buf, pos, n, depth);
      if k.Done? {
        var v := DecodeItem(ks, buf, k.pos, k.n, depth);
        if k.pos == |buf| || buf[k.pos] == 0xFF {
          BreakIsNoItem(ks, buf, k.pos, k.n, depth);
        } else {
          OpenArrayStep(ks, buf, k.pos, k.n, depth);
          if v.Done? {
            var rest := DecodeOpenArray(ks, buf, v.pos, v.n, depth, []);
            if ks(k.value).Some? {
              var acc' := Put(acc, ks(k.value).value, v.value);
              OpenMapAsArray(ks, buf, v.pos, v.n, depth, acc');
              PairsCons(ks, acc, k.value, v.value, DecodeOpenMap(ks, buf, v.pos, v.n, depth, acc'), rest);
            } else {
              PairsCons(ks, acc, k.value, v.value, Fail(KeyNotString), rest);
            }
          }
        }
      }
    }
  }

  lemma BreakIsNoItem(ks: KeyString, buf: bytes, pos: nat, n: nat, depth: nat)
    requires pos <= |buf| && (pos == |buf| || buf[pos] == 0xFF)
    ensures DecodeItem(ks, buf, pos, n, depth).Fail?
  {
  }

  // ---- the decoder reads an item as its meaning ------------------------------------

  ghost predicate Reads(ks: KeyString, w: Item, depth: nat, n: nat, pos: nat, r: Out<Value>)
    requires Valid(w)
  {
    if Fits(w, depth, n) && Meaning(ks, w).Some?
    then r == Done(Meaning(ks, w).value, pos + |Serialize(w)|, n + Count(w))
    else r.Fail?
  }

  /** The same for the items of a container `depth` levels deep, ending at `end`. */
  ghost predicate ReadsAll(ks: KeyString, items: seq<Item>, depth: nat, n: nat, end: nat, r: Out<seq<Value>>)
    requires AllValid(items)
  {
    if depth + HeightAll(items) <= MAX_DEPTH && n + CountAll(items) <= MAX_ELEMENTS && ArrayMeaning(ks, items).Some?
    then r == Done(ArrayMeaning(ks, items).value, end, n + CountAll(items))
    else r.Fail?
  }

  function Then(first: Out<Value>, rest: Out<seq<Value>>): Out<seq<Value>> {
    match first
    case Fail(e) => Fail(e)
    case Done(v, _, _) => Prepend([v], rest)
  }

  lemma ReadsCons(ks: KeyString, items: seq<Item>, depth: nat, n: nat, pos: nat, end: nat, first: Out<Value>, rest: Out<seq<Value>>)
    requires items != [] && AllValid(items)
    requires Reads(ks, items[0], depth + 1, n, pos, first)
    requires first.Done? ==> ReadsAll(ks, items[1..], depth, first.n, end, rest)
    ensures ReadsAll(ks, items, depth, n, end, Then(first, rest))
  {
  }

  lemma {:induction false} ChunksRead(buf: bytes, pos: nat, n: nat, text: bool, chunks: seq<Chunk>, acc: bytes)
    requires ValidChunks(chunks)
    requires At(buf, pos, SerializeChunks(text, chunks) + [0xFF])
    ensures DecodeChunks(buf, pos, n, StringType(text), acc)
         == Done(acc + Join(text, chunks), pos + |SerializeChunks(text, chunks)| + 1, n)
    decreases chunks
  {
    hide HeadBytes, At, Content, ArgumentAt;
    AtConcat(buf, pos, SerializeChunks(text, chunks), [0xFF]);
    if chunks == [] {
      AtByte(buf, pos, 0xFF);
      assert acc + Join(text, chunks) == acc;
    } else {
      var c, rest := chunks[0], SerializeChunks(text, chunks[1..]);
      assert ValidChunk(c);
      var next := ChunkReads(buf, pos, text, c, rest);
      AtConcat(buf, next, rest, [0xFF]);
      ChunksRead(buf, next, n, text, chunks[1..], acc + Content(text, c.data));
      assert acc + Join(text, chunks) == acc + Content(text, c.data) + Join(text, chunks[1..]);
    }
  }

  lemma ChunkReads(buf: bytes, pos: nat, text: bool, c: Chunk, rest: bytes) returns (next: nat)
    requires ValidChunk(c)
    requires At(buf, pos, HeadBytes(StringType(text), c.head) + c.data + rest)
    ensures next == pos + |HeadBytes(StringType(text), c.head)| + |c.data|
    ensures ChunkAt(buf, pos, StringType(text)) == ChunkData(c.data, next)
    ensures At(buf, next, rest)
  {
    var head := HeadBytes(StringType(text), c.head);
    AtConcat(buf, pos, head + c.data, rest);
    AtConcat(buf, pos, head, c.data);
    HeadReads(buf, pos, StringType(text), c.head);
    next := pos + |head| + |c.data|;
    AtSlice(buf, pos + |head|, c.data);
  }

  lemma ItemsStart(buf: bytes, pos: nat, items: seq<Item>)
    requires items != [] && AllValid(items) && At(buf, pos, SerializeAll(items))
    ensures At(buf, pos, Serialize(items[0]))
    ensures At(buf, pos + |Serialize(items[0])|, SerializeAll(items[1..]))
    ensures |SerializeAll(items)| == |Serialize(items[0])| + |SerializeAll(items[1..])|
  {
    AtConcat(buf, pos, Serialize(items[0]), SerializeAll(items[1..]));
  }


  lemma {:induction false} ArrayReads(ks: KeyString, buf: bytes, pos: nat, n: nat, depth: nat, items: seq<Item>)
    requires AllValid(items) && At(buf, pos, SerializeAll(items))
    requires depth <= MAX_DEPTH && n <= MAX_ELEMENTS
    ensures ReadsAll(ks, items, depth, n, pos + |SerializeAll(items)|, DecodeArray(ks, buf, pos, n, depth + 1, |items|, []))
    decreases items, 0
  {
    hide At, Serialize, DecodeItem, Meaning, Valid, Count, Height;
    if items != [] {
      ItemsStart(buf, pos, items);
      ItemReads(ks, buf, pos, n, depth + 1, items[0]);
      ArrayStep(ks, buf, pos, n, depth + 1, |items|);
      var first := DecodeItem(ks, buf, pos, n, depth + 1);
      var rest := Fail(UnexpectedEnd);
      if first.Done? {
        ArrayReads(ks, buf, first.pos, first.n, depth, items[1..]);
        rest := DecodeArray(ks, buf, first.pos, first.n, depth + 1, |items| - 1, []);
      }
      ReadsCons(ks, items, depth, n, pos, pos + |SerializeAll(items)|, first, rest);
    }
  }

  lemma OpenItemsStart(buf: bytes, pos: nat, items: seq<Item>)
    requires items != [] && AllValid(items) && At(buf, pos, SerializeAll(items) + [0xFF])
    ensures At(buf, pos, Serialize(items[0])) && pos < |buf| && buf[pos] != 0xFF
    ensures At(buf, pos + |Serialize(items[0])|, SerializeAll(items[1..]) + [0xFF])
    ensures |SerializeAll(items)| == |Serialize(items[0])| + |SerializeAll(items[1..])|
  {
    var head, rest := Serialize(items[0]), SerializeAll(items[1..]);
    assert head + rest + [0xFF] == head + (rest + [0xFF]);
    AtConcat(buf, pos, head, rest + [0xFF]);
    FirstByte(buf, pos, head);
  }

  lemma {:induction false} OpenArrayReads(ks: KeyString, buf: bytes, pos: nat, n: nat, depth: nat, items: seq<Item>)
    requires AllValid(items) && At(buf, pos, SerializeAll(items) + [0xFF])
    requires depth <= MAX_DEPTH && n <= MAX_ELEMENTS
    ensures ReadsAll(ks, items, depth, n, pos + |SerializeAll(items)| + 1, DecodeOpenArray(ks, buf, pos, n, depth + 1, []))
    decreases items, 0
  {
    hide At, Serialize, DecodeItem, Meaning, Valid, Count, Height;
    if items == [] {
      AtByte(buf, pos, 0xFF);
      assert SerializeAll(items) + [0xFF] == [0xFF];
    } else {
      OpenItemsStart(buf, pos, items);
      ItemReads(ks, buf, pos, n, depth + 1, items[0]);
      OpenArrayStep(ks, buf, pos, n, depth + 1);
      var first := DecodeItem(ks, buf, pos, n, depth + 1);
      var rest := Fail(UnexpectedEnd);
      if first.Done? {
        OpenArrayReads(ks, buf, first.pos, first.n, depth, items[1..]);
        rest := DecodeOpenArray(ks, buf, first.pos, first.n, depth + 1, []);
      }
      ReadsCons(ks, items, depth, n, pos, pos + |SerializeAll(items)| + 1, first, rest);
    }
  }

  /** Main lemma: wherever an item stands, decoding gives its meaning, its end and its cost. */
  lemma {:induction false} ItemReads(ks: KeyString, buf: bytes, pos: nat, n: nat, depth: nat, w: Item)
    requires Valid(w) && At(buf, pos, Serialize(w))
    ensures Reads(ks, w, depth, n, pos, DecodeItem(ks, buf, pos, n, depth))
    decreases w, 2
  {
    if depth <= MAX_DEPTH && n + 1 <= MAX_ELEMENTS {
      if w.Array? || w.Map? {
        if w.form.Definite? {
          DefiniteReads(ks, buf, pos, n, depth, w);
        } else {
          IndefiniteReads(ks, buf, pos, n, depth, w);
        }
      } else if w.Tag? {
        TagReads(ks, buf, pos, n, depth, w);
      } else {
        LeafReads(ks, buf, pos, n, depth, w);
      }
    }
  }

  lemma {:induction false} TagReads(ks: KeyString, buf: bytes, pos: nat, n: nat, depth: nat, w: Item)
    requires w.Tag? && Valid(w) && At(buf, pos, Serialize(w))
    requires depth <= MAX_DEPTH && n + 1 <= MAX_ELEMENTS
    ensures Reads(ks, w, depth, n, pos, DecodeItem(ks, buf, pos, n, depth))
    decreases w, 1
  {
    hide HeadBytes;
    var head := HeadBytes(6, w.head);
    AtConcat(buf, pos, head, Serialize(w.inner));
    HeadDispatch(ks, buf, pos, n, depth, 6, w.head);
    ItemReads(ks, buf, pos + |head|, n + 1, depth + 1, w.inner);
    TagFromInner(ks, w, depth, n, pos, DecodeItem(ks, buf, pos + |head|, n + 1, depth + 1));
  }

  function TagOut(tag: int, r: Out<Value>): Out<Value> {
    match r
    case Fail(e) => Fail(e)
    case Done(v, p, n) =>
      if ApplyTag(tag, v).None? then Fail(BignumNotBytes) else Done(ApplyTag(tag, v).value, p, n)
  }

  lemma TagFromInner(ks: KeyString, w: Item, depth: nat, n: nat, pos: nat, inner: Out<Value>)
    requires w.Tag? && Valid(w)
    requires Reads(ks, w.inner, depth + 1, n + 1, pos + |HeadBytes(6, w.head)|, inner)
    ensures Reads(ks, w, depth, n, pos, TagOut(w.head.arg, inner))
  {
  }

  lemma LeafReads(ks: KeyString, buf: bytes, pos: nat, n: nat, depth: nat, w: Item)
    requires Valid(w) && At(buf, pos, Serialize(w))
    requires !w.Array? && !w.Map? && !w.Tag?
    requires depth <= MAX_DEPTH && n + 1 <= MAX_ELEMENTS
    ensures DecodeItem(ks, buf, pos, n, depth) == Done(Meaning(ks, w).value, pos + |Serialize(w)|, n + 1)
  {
    hide HeadBytes, Content;
    var s := Serialize(w);
    FirstByte(buf, pos, s);
    assert DecodeItem(ks, buf, pos, n, depth) == DecodeBody(ks, buf, pos + 1, n + 1, depth, s[0] / 32, s[0] % 32);
    match w
    case Integer(neg, h) => HeadDispatch(ks, buf, pos, n, depth, if neg then 1 else 0, h);
    case Str(text, h, data) => StringReads(buf, pos, n + 1, text, h, data);
    case Chunked(text, chunks) => ChunkedReads(buf, pos, n + 1, text, chunks);
    case Simple(ai) =>
    case SimpleByte(code) =>
      assert s == [0xF8] + [code];
      AtConcat(buf, pos, [0xF8], [code]);
      AtByte(buf, pos + 1, code);
    case FloatItem(data) =>
      AtConcat(buf, pos, [s[0]], data);
      AtSlice(buf, pos + 1, data);
  }

  lemma StringReads(buf: bytes, pos: nat, n: nat, text: bool, h: Head, data: bytes)
    requires ValidHead(h) && h.arg == |data|
    requires At(buf, pos, HeadBytes(StringType(text), h) + data)
    ensures pos < |buf| && buf[pos] / 32 == StringType(text)
    ensures DecodeString(buf, pos + 1, n, StringType(text), buf[pos] % 32)
         == Done(Content(text, data), pos + |HeadBytes(StringType(text), h)| + |data|, n)
  {
    hide Content;
    var head := HeadBytes(StringType(text), h);
    AtConcat(buf, pos, head, data);
    AtSlice(buf, pos + |head|, data);
    HeadReads(buf, pos, StringType(text), h);
  }

  lemma ChunkedReads(buf: bytes, pos: nat, n: nat, text: bool, chunks: seq<Chunk>)
    requires ValidChunks(chunks)
    requires At(buf, pos, [StringType(text) * 32 + 31] + SerializeChunks(text, chunks) + [0xFF])
    ensures pos < |buf| && buf[pos] == StringType(text) * 32 + 31
    ensures DecodeString(buf, pos + 1, n, StringType(text), 31)
         == Done(Join(text, chunks), pos + |SerializeChunks(text, chunks)| + 2, n)
  {
    hide Content;
    var open, body := [StringType(text) * 32 + 31], SerializeChunks(text, chunks) + [0xFF];
    assert open + SerializeChunks(text, chunks) + [0xFF] == open + body;
    AtConcat(buf, pos, open, body);
    FirstByte(buf, pos, open);
    ChunksRead(buf, pos + 1, n, text, chunks, []);
    assert [] + Join(text, chunks) == Join(text, chunks);
  }

  lemma {:induction false} DefiniteReads(ks: KeyString, buf: bytes, pos: nat, n: nat, depth: nat, w: Item)
    requires Valid(w) && At(buf, pos, Serialize(w))
    requires (w.Array? || w.Map?) && w.form.Definite?
    requires depth <= MAX_DEPTH && n + 1 <= MAX_ELEMENTS
    ensures Reads(ks, w, depth, n, pos, DecodeItem(ks, buf, pos, n, depth))
    decreases w, 1
  {
    hide HeadBytes, Meaning, Count, Height;
    var mt := if w.Array? then 4 else 5;
    ContainerLayout(buf, pos, w, mt);
    HeadDispatch(ks, buf, pos, n, depth, mt, w.form.head);
    var at := pos + |OpenBytes(mt, w.form)|;
    ArrayReads(ks, buf, at, n + 1, depth, w.items);
    DefiniteFromItems(ks, buf, at, n, depth, w, pos, mt);
  }

  lemma {:induction false} IndefiniteReads(ks: KeyString, buf: bytes, pos: nat, n: nat, depth: nat, w: Item)
    requires Valid(w) && At(buf, pos, Serialize(w))
    requires (w.Array? || w.Map?) && w.form.Indefinite?
    requires depth <= MAX_DEPTH && n + 1 <= MAX_ELEMENTS
    ensures Reads(ks, w, depth, n, pos, DecodeItem(ks, buf, pos, n, depth))
    decreases w, 1
  {
    hide HeadBytes, Meaning, Count, Height;
    var mt := if w.Array? then 4 else 5;
    ContainerLayout(buf, pos, w, mt);
    AtByte(buf, pos, mt * 32 + 31);
    OpenArrayReads(ks, buf, pos + 1, n + 1, depth, w.items);
    IndefiniteFromItems(ks, buf, pos + 1, n, depth, w, pos, mt);
  }

  lemma DefiniteFromItems(ks: KeyString, buf: bytes, at: nat, n: nat, depth: nat, w: Item, pos: nat, mt: nat)
    requires Valid(w) && ((w.Array? && mt == 4) || (w.Map? && mt == 5)) && w.form.Definite? && at <= |buf|
    requires n + 1 <= MAX_ELEMENTS
    requires ReadsAll(ks, w.items, depth, n + 1, pos + |Serialize(w)|, DecodeArray(ks, buf, at, n + 1, depth + 1, |w.items|, []))
    ensures Reads(ks, w, depth, n, pos, DecodeWithArgument(ks, buf, at, n + 1, depth, mt, w.form.head.arg))
  {
    var items := DecodeArray(ks, buf, at, n + 1, depth + 1, |w.items|, []);
    if w.Array? {
      ArrayFromItems(ks, w, depth, n, pos, items);
    } else {
      MapAsArray(ks, buf, at, n + 1, depth + 1, |w.items| / 2, []);
      MapFromItems(ks, w, depth, n, pos, items, DecodeMap(ks, buf, at, n + 1, depth + 1, |w.items| / 2, []));
    }
  }

  lemma IndefiniteFromItems(ks: KeyString, buf: bytes, at: nat, n: nat, depth: nat, w: Item, pos: nat, mt: nat)
    requires Valid(w) && ((w.Array? && mt == 4) || (w.Map? && mt == 5)) && w.form.Indefinite? && at <= |buf|
    requires ReadsAll(ks, w.items, depth, n + 1, pos + |Serialize(w)|, DecodeOpenArray(ks, buf, at, n + 1, depth + 1, []))
    ensures Reads(ks, w, depth, n, pos, DecodeBody(ks, buf, at, n + 1, depth, mt, 31))
  {
    var items := DecodeOpenArray(ks, buf, at, n + 1, depth + 1, []);
    if w.Array? {
      ArrayFromItems(ks, w, depth, n, pos, items);
    } else {
      OpenMapAsArray(ks, buf, at, n + 1, depth + 1, []);
      MapFromItems(ks, w, depth, n, pos, items, DecodeOpenMap(ks, buf, at, n + 1, depth + 1, []));
    }
  }

  lemma ContainerLayout(buf: bytes, pos: nat, w: Item, mt: nat)
    requires (w.Array? && mt == 4) || (w.Map? && mt == 5)
    requires Valid(w) && At(buf, pos, Serialize(w))
    ensures At(buf, pos, OpenBytes(mt, w.form))
    ensures At(buf, pos + |OpenBytes(mt, w.form)|, SerializeAll(w.items) + CloseBytes(w.form))
    ensures w.form.Definite? ==> At(buf, pos + |OpenBytes(mt, w.form)|, SerializeAll(w.items))
    ensures |Serialize(w)| == |OpenBytes(mt, w.form)| + |SerializeAll(w.items)| + |CloseBytes(w.form)|
  {
    var open, body, close := OpenBytes(mt, w.form), SerializeAll(w.items), CloseBytes(w.form);
    assert Serialize(w) == open + (body + close);
    AtConcat(buf, pos, open, body + close);
    AtConcat(buf, pos + |open|, body, close);
  }

  lemma ArrayFromItems(ks: KeyString, w: Item, depth: nat, n: nat, pos: nat, items: Out<seq<Value>>)
    requires w.Array? && Valid(w)
    requires ReadsAll(ks, w.items, depth, n + 1, pos + |Serialize(w)|, items)
    ensures Reads(ks, w, depth, n, pos, ArrayOut(items))
  {
  }

  lemma MapFromItems(ks: KeyString, w: Item, depth: nat, n: nat, pos: nat, items: Out<seq<Value>>, fields: Out<seq<Field>>)
    requires w.Map? && Valid(w)
    requires ReadsAll(ks, w.items, depth, n + 1, pos + |Serialize(w)|, items)
    requires PairsOf(ks, [], fields, items)
    ensures Reads(ks, w, depth, n, pos, MapOut(fields))
  {
    MeaningLength(ks, w.items);
  }

  lemma {:induction false} MeaningLength(ks: KeyString, items: seq<Item>)
    requires AllValid(items)
    ensures ArrayMeaning(ks, items).Some? ==> |ArrayMeaning(ks, items).value| == |items|
  {
    if items != [] {
      MeaningLength(ks, items[1..]);
    }
  }
}
