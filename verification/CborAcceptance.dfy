/**
 The converse of ItemReads: whatever the decoder accepts is a wire item. Together they say
 that the decoder accepts exactly the serialized items, and with exactly their meaning.
 */
module CborAcceptance {
  import opened Bytes
  import opened CborWire
  import opened CborDecoder
  import opened CborProofs

  lemma HeadAccepted(buf: bytes, pos: nat) returns (h: Head)
    requires pos < |buf| && ArgumentAt(buf, pos + 1, buf[pos] % 32).Arg?
    ensures ValidHead(h) || h == SENTINEL
    ensures h == SENTINEL <==> buf[pos] % 32 == 31
    ensures At(buf, pos, HeadBytes(buf[pos] / 32, h))
    ensures ArgumentAt(buf, pos + 1, buf[pos] % 32) == Arg(h.arg, pos + |HeadBytes(buf[pos] / 32, h)|)
  {
    var b, ai := buf[pos], buf[pos] % 32;
    if ai == 31 {
      h := SENTINEL;
      AtByte(buf, pos, b);
    } else if ai <= 23 {
      h := Head(0, ai);
      AtByte(buf, pos, b);
      assert HeadBytes(b / 32, h) == [b] + ToBE(ai, 0) == [b];
    } else {
      h := WideHeadAccepted(buf, pos, if ai == 24 then 1 else if ai == 25 then 2 else if ai == 26 then 4 else 8);
    }
  }

  lemma WideHeadAccepted(buf: bytes, pos: nat, width: nat) returns (h: Head)
    requires IsWidth(width) && pos + 1 + width <= |buf| && buf[pos] % 32 == WidthInfo(width)
    ensures ValidHead(h) && h.width == width
    ensures At(buf, pos, HeadBytes(buf[pos] / 32, h))
    ensures ArgumentAt(buf, pos + 1, buf[pos] % 32) == Arg(h.arg, pos + 1 + width)
  {
    var s := buf[pos + 1..pos + 1 + width];
    ArgumentReads(buf, pos + 1, width);
    FromBEBound(s);
    ToFromBE(s);
    h := Head(width, FromBE(s));
    AtByte(buf, pos, buf[pos]);
    AtSlice(buf, pos + 1, s);
    AtConcat(buf, pos, [buf[pos]], s);
  }

  lemma ChunkAccepted(buf: bytes, pos: nat, text: bool) returns (c: Chunk)
    requires pos <= |buf| && ChunkAt(buf, pos, StringType(text)).ChunkData?
    ensures ValidChunk(c) && At(buf, pos, HeadBytes(StringType(text), c.head) + c.data)
    ensures ChunkAt(buf, pos, StringType(text)) == ChunkData(c.data, pos + |HeadBytes(StringType(text), c.head)| + |c.data|)
  {
    hide HeadBytes, At;
    var h := HeadAccepted(buf, pos);
    c := Chunk(h, ChunkAt(buf, pos, StringType(text)).data);
    var head := HeadBytes(StringType(text), h);
    AtSlice(buf, pos + |head|, c.data);
    AtConcat(buf, pos, head, c.data);
  }

  lemma ChunksCons(buf: bytes, pos: nat, text: bool, c: Chunk, rest: seq<Chunk>, tail: bytes) returns (chunks: seq<Chunk>)
    requires ValidChunk(c) && ValidChunks(rest)
    requires var first := HeadBytes(StringType(text), c.head) + c.data;
             At(buf, pos, first) && At(buf, pos + |first|, SerializeChunks(text, rest) + tail)
    ensures chunks == [c] + rest && ValidChunks(chunks) && At(buf, pos, SerializeChunks(text, chunks) + tail)
    ensures |SerializeChunks(text, chunks)| == |HeadBytes(StringType(text), c.head)| + |c.data| + |SerializeChunks(text, rest)|
  {
    hide HeadBytes, At;
    chunks := [c] + rest;
    assert chunks[1..] == rest;
    var first := HeadBytes(StringType(text), c.head) + c.data;
    AtConcat(buf, pos, first, SerializeChunks(text, rest) + tail);
    assert SerializeChunks(text, chunks) + tail == first + (SerializeChunks(text, rest) + tail);
  }

  lemma {:induction false} ChunksAccepted(buf: bytes, pos: nat, n: nat, text: bool, acc: bytes) returns (chunks: seq<Chunk>)
    requires pos <= |buf| && DecodeChunks(buf, pos, n, StringType(text), acc).Done?
    ensures ValidChunks(chunks) && At(buf, pos, SerializeChunks(text, chunks) + [0xFF])
    ensures DecodeChunks(buf, pos, n, StringType(text), acc).pos == pos + |SerializeChunks(text, chunks)| + 1
    decreases |buf| - pos
  {
    hide HeadBytes, At, Content;
    var next := ChunkAt(buf, pos, StringType(text));
    if next.Break? {
      chunks := [];
      AtByte(buf, pos, 0xFF);
      assert SerializeChunks(text, []) + [0xFF] == [0xFF];
    } else {
      var c := ChunkAccepted(buf, pos, text);
      var rest := ChunksAccepted(buf, next.pos, n, text, acc + Content(text, next.data));
      chunks := ChunksCons(buf, pos, text, c, rest, [0xFF]);
    }
  }

  lemma StringAccepted(buf: bytes, pos: nat, n: nat, text: bool) returns (w: Item)
    requires pos < |buf| && buf[pos] / 32 == StringType(text)
    requires DecodeString(buf, pos + 1, n, StringType(text), buf[pos] % 32).Done?
    ensures Valid(w) && At(buf, pos, Serialize(w))
    ensures DecodeString(buf, pos + 1, n, StringType(text), buf[pos] % 32).pos == pos + |Serialize(w)|
  {
    hide HeadBytes, At, Content;
    if buf[pos] % 32 == 31 {
      var chunks := ChunksAccepted(buf, pos + 1, n, text, []);
      w := Chunked(text, chunks);
      var body := SerializeChunks(text, chunks) + [0xFF];
      AtByte(buf, pos, buf[pos]);
      AtConcat(buf, pos, [buf[pos]], body);
      assert Serialize(w) == [buf[pos]] + body;
    } else {
      var h := HeadAccepted(buf, pos);
      var at := pos + |HeadBytes(StringType(text), h)|;
      var data := buf[at..at + h.arg];
      w := Str(text, h, data);
      AtSlice(buf, at, data);
      AtConcat(buf, pos, HeadBytes(StringType(text), h), data);
    }
  }

  lemma SimpleAccepted(buf: bytes, pos: nat, n: nat) returns (w: Item)
    requires pos < |buf| && buf[pos] / 32 == 7
    requires SimpleOrFloatAt(buf, pos + 1, n, buf[pos] % 32).Done?
    ensures Valid(w) && At(buf, pos, Serialize(w))
    ensures SimpleOrFloatAt(buf, pos + 1, n, buf[pos] % 32).pos == pos + |Serialize(w)|
  {
    var b, ai := buf[pos], buf[pos] % 32;
    AtByte(buf, pos, b);
    if ai <= 23 {
      w := Simple(ai);
      assert Serialize(w) == [b];
    } else {
      var data := PayloadAt(buf, pos, if ai == 24 then 1 else if ai == 25 then 2 else if ai == 26 then 4 else 8);
      w := if ai == 24 then SimpleByte(data[0]) else FloatItem(data);
      assert Serialize(w) == [b] + data;
    }
  }

  lemma PayloadAt(buf: bytes, pos: nat, size: nat) returns (data: bytes)
    requires pos + 1 + size <= |buf|
    ensures |data| == size && At(buf, pos, [buf[pos]] + data)
  {
    data := buf[pos + 1..pos + 1 + size];
    AtByte(buf, pos, buf[pos]);
    AtSlice(buf, pos + 1, data);
    AtConcat(buf, pos, [buf[pos]], data);
  }

  lemma {:induction false} ArrayAccepted(ks: KeyString, buf: bytes, pos: nat, n: nat, depth: nat, left: nat)
    returns (items: seq<Item>)
    requires pos <= |buf| && DecodeArray(ks, buf, pos, n, depth, left, []).Done?
    ensures |items| == left && AllValid(items) && At(buf, pos, SerializeAll(items))
    ensures DecodeArray(ks, buf, pos, n, depth, left, []).pos == pos + |SerializeAll(items)|
    decreases |buf| - pos, 1
  {
    hide At, DecodeItem, Serialize, Valid;
    if left == 0 {
      items := [];
      AtSlice(buf, pos, []);
    } else {
      ArrayStep(ks, buf, pos, n, depth, left);
      var first := DecodeItem(ks, buf, pos, n, depth);
      var w := ItemAccepted(ks, buf, pos, n, depth);
      var rest := ArrayAccepted(ks, buf, first.pos, first.n, depth, left - 1);
      items := [w] + rest;
      assert items[1..] == rest;
      AtConcat(buf, pos, Serialize(w), SerializeAll(rest));
    }
  }

  lemma {:induction false} OpenArrayAccepted(ks: KeyString, buf: bytes, pos: nat, n: nat, depth: nat)
    returns (items: seq<Item>)
    requires pos <= |buf| && DecodeOpenArray(ks, buf, pos, n, depth, []).Done?
    ensures AllValid(items) && At(buf, pos, SerializeAll(items) + [0xFF])
    ensures |DecodeOpenArray(ks, buf, pos, n, depth, []).value| == |items|
    ensures DecodeOpenArray(ks, buf, pos, n, depth, []).pos == pos + |SerializeAll(items)| + 1
    decreases |buf| - pos, 1
  {
    hide At;
    if buf[pos] == 0xFF {
      items := [];
      AtByte(buf, pos, 0xFF);
      assert SerializeAll(items) + [0xFF] == [0xFF];
    } else {
      OpenArrayStep(ks, buf, pos, n, depth);
      var first := DecodeItem(ks, buf, pos, n, depth);
      var w := ItemAccepted(ks, buf, pos, n, depth);
      var rest := OpenArrayAccepted(ks, buf, first.pos, first.n, depth);
      items := [w] + rest;
      assert items[1..] == rest;
      AtConcat(buf, pos, Serialize(w), SerializeAll(rest) + [0xFF]);
      assert SerializeAll(items) + [0xFF] == Serialize(w) + (SerializeAll(rest) + [0xFF]);
    }
  }

  /** The item behind any successful decoding. */
  lemma {:induction false} ItemAccepted(ks: KeyString, buf: bytes, pos: nat, n: nat, depth: nat) returns (w: Item)
    requires pos <= |buf| && DecodeItem(ks, buf, pos, n, depth).Done?
    ensures Valid(w) && At(buf, pos, Serialize(w))
    ensures DecodeItem(ks, buf, pos, n, depth).pos == pos + |Serialize(w)|
    decreases |buf| - pos, 0
  {
    hide At, HeadBytes, Serialize, Valid;
    var mt, ai := buf[pos] / 32, buf[pos] % 32;
    assert DecodeItem(ks, buf, pos, n, depth) == DecodeBody(ks, buf, pos + 1, n + 1, depth, mt, ai);
    if mt == 2 || mt == 3 {
      w := StringAccepted(buf, pos, n + 1, mt == 3);
    } else if mt == 7 {
      w := SimpleAccepted(buf, pos, n + 1);
    } else if (mt == 4 || mt == 5) && ai == 31 {
      w := IndefiniteAccepted(ks, buf, pos, n, depth);
    } else {
      var h := HeadAccepted(buf, pos);
      w := WithArgumentAccepted(ks, buf, pos, n, depth, h);
    }
  }

  lemma {:induction false} IndefiniteAccepted(ks: KeyString, buf: bytes, pos: nat, n: nat, depth: nat) returns (w: Item)
    requires pos < |buf| && buf[pos] % 32 == 31 && (buf[pos] / 32 == 4 || buf[pos] / 32 == 5)
    requires DecodeBody(ks, buf, pos + 1, n + 1, depth, buf[pos] / 32, 31).Done?
    ensures Valid(w) && At(buf, pos, Serialize(w))
    ensures DecodeBody(ks, buf, pos + 1, n + 1, depth, buf[pos] / 32, 31).pos == pos + |Serialize(w)|
    decreases |buf| - pos - 1, 2
  {
    hide At;
    if buf[pos] / 32 == 5 {
      OpenMapAsArray(ks, buf, pos + 1, n + 1, depth + 1, []);
    }
    var items := OpenArrayAccepted(ks, buf, pos + 1, n + 1, depth + 1);
    w := if buf[pos] / 32 == 4 then Array(Indefinite, items) else Map(Indefinite, items);
    var body := SerializeAll(items) + [0xFF];
    AtByte(buf, pos, buf[pos]);
    AtConcat(buf, pos, [buf[pos]], body);
    assert Serialize(w) == [buf[pos]] + body;
  }

  lemma {:induction false} WithArgumentAccepted(ks: KeyString, buf: bytes, pos: nat, n: nat, depth: nat, h: Head) returns (w: Item)
    requires pos < |buf| && buf[pos] / 32 in {0, 1, 4, 5, 6}
    requires ValidHead(h) || (h == SENTINEL && buf[pos] / 32 !in {4, 5})
    requires At(buf, pos, HeadBytes(buf[pos] / 32, h)) && pos + |HeadBytes(buf[pos] / 32, h)| <= |buf|
    requires DecodeWithArgument(ks, buf, pos + |HeadBytes(buf[pos] / 32, h)|, n + 1, depth, buf[pos] / 32, h.arg).Done?
    ensures Valid(w) && At(buf, pos, Serialize(w))
    ensures DecodeWithArgument(ks, buf, pos + |HeadBytes(buf[pos] / 32, h)|, n + 1, depth, buf[pos] / 32, h.arg).pos
         == pos + |Serialize(w)|
    decreases |buf| - pos - 1, 2
  {
    hide At, HeadBytes, ArgumentAt;
    var mt := buf[pos] / 32;
    var head := HeadBytes(mt, h);
    var at := pos + |head|;
    if mt == 0 || mt == 1 {
      w := Integer(mt == 1, h);
    } else if mt == 6 {
      var inner := ItemAccepted(ks, buf, at, n + 1, depth + 1);
      w := Tag(h, inner);
      AtConcat(buf, pos, head, Serialize(inner));
    } else {
      if mt == 5 {
        MapAsArray(ks, buf, at, n + 1, depth + 1, h.arg, []);
      }
      var items := ArrayAccepted(ks, buf, at, n + 1, depth + 1, if mt == 4 then h.arg else 2 * h.arg);
      w := if mt == 4 then Array(Definite(h), items) else Map(Definite(h), items);
      AtConcat(buf, pos, head, SerializeAll(items));
      assert Serialize(w) == head + SerializeAll(items) + [] == head + SerializeAll(items);
    }
  }

  /** The decoder accepts exactly the wire items that mean something and fit, as what they mean. */
  lemma AcceptsExactlyItems(ks: KeyString, buf: bytes, pos: nat, n: nat, depth: nat)
    requires pos <= |buf|
    ensures DecodeItem(ks, buf, pos, n, depth).Done? <==>
            exists w :: Valid(w) && At(buf, pos, Serialize(w)) && Fits(w, depth, n) && Meaning(ks, w).Some?
    ensures forall w :: Valid(w) && At(buf, pos, Serialize(w)) && Fits(w, depth, n) && Meaning(ks, w).Some? ==>
            DecodeItem(ks, buf, pos, n, depth) == Done(Meaning(ks, w).value, pos + |Serialize(w)|, n + Count(w))
  {
    hide DecodeItem, Serialize, Meaning, Valid, At, Count, Height;
    forall w | Valid(w) && At(buf, pos, Serialize(w))
      ensures Reads(ks, w, depth, n, pos, DecodeItem(ks, buf, pos, n, depth))
    {
      ItemReads(ks, buf, pos, n, depth, w);
    }
    if DecodeItem(ks, buf, pos, n, depth).Done? {
      var w := ItemAccepted(ks, buf, pos, n, depth);
    }
  }
}
