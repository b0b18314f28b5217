/**
 Where the decoder does not come back: a chunk of an indefinite string whose head has additional
 information 31 is read as -1 bytes long, so that the same head is read again and again. The model
 ends there with the error `Endless`; here is exactly when. For the inspector see CborInspectorEndless.
 */
module CborEndless {
  import opened Bytes
  import opened CborWire
  import opened CborDecoder
  import opened CborProofs
  import A = CborAcceptance

  // ---- strings ---------------------------------------------------------------------

  /** The head of an indefinite string; met again inside the string, it stands for a chunk of -1 bytes. */
  function OpenHead(text: bool): bytes { [StringType(text) * 32 + 31] }

  /** Some chunks, and then the head of an indefinite string. */
  ghost predicate StuckBehind(buf: bytes, pos: nat, text: bool, chunks: seq<Chunk>) {
    ValidChunks(chunks) && At(buf, pos, SerializeChunks(text, chunks) + OpenHead(text))
  }

  lemma {:induction false} ChunksStuck(buf: bytes, pos: nat, n: nat, text: bool, chunks: seq<Chunk>, acc: bytes)
    requires StuckBehind(buf, pos, text, chunks)
    ensures DecodeChunks(buf, pos, n, StringType(text), acc) == Fail(Endless)
    decreases chunks
  {
    hide HeadBytes, At, Content;
    AtConcat(buf, pos, SerializeChunks(text, chunks), OpenHead(text));
    if chunks == [] {
      AtByte(buf, pos, OpenHead(text)[0]);
    } else {
      var c, rest := chunks[0], SerializeChunks(text, chunks[1..]);
      var next := ChunkReads(buf, pos, text, c, rest);
      AtConcat(buf, next, rest, OpenHead(text));
      ChunksStuck(buf, next, n, text, chunks[1..], acc + Content(text, c.data));
    }
  }

  lemma {:induction false} ChunksBefore(buf: bytes, pos: nat, n: nat, text: bool, acc: bytes) returns (chunks: seq<Chunk>)
    requires pos <= |buf| && DecodeChunks(buf, pos, n, StringType(text), acc) == Fail(Endless)
    ensures StuckBehind(buf, pos, text, chunks)
    decreases |buf| - pos
  {
    hide HeadBytes, At, Content;
    var next := ChunkAt(buf, pos, StringType(text));
    if next.ChunkData? {
      var c := A.ChunkAccepted(buf, pos, text);
      var rest := ChunksBefore(buf, next.pos, n, text, acc + Content(text, next.data));
      chunks := A.ChunksCons(buf, pos, text, c, rest, OpenHead(text));
    } else {
      chunks := [];
      AtByte(buf, pos, OpenHead(text)[0]);
      assert SerializeChunks(text, []) + OpenHead(text) == OpenHead(text);
    }
  }

  /** An indefinite string is read without end exactly when its own head stands again behind some of its chunks. */
  lemma ChunksEndlessIff(buf: bytes, pos: nat, n: nat, text: bool, acc: bytes)
    requires pos <= |buf|
    ensures DecodeChunks(buf, pos, n, StringType(text), acc) == Fail(Endless)
            <==> exists chunks :: StuckBehind(buf, pos, text, chunks)
  {
    hide StuckBehind, DecodeChunks;
    if DecodeChunks(buf, pos, n, StringType(text), acc) == Fail(Endless) {
      var chunks := ChunksBefore(buf, pos, n, text, acc);
    }
    if chunks :| StuckBehind(buf, pos, text, chunks) {
      ChunksStuck(buf, pos, n, text, chunks, acc);
    }
  }

  // ---- items -----------------------------------------------------------------------

  /** The part of an item up to such a place: the parts before it are whole. */
  datatype Broken =
    | InString(text: bool, chunks: seq<Chunk>)
    | InGroup(map_: bool, form: Form, before: seq<Item>, at: Broken)
    | InTag(head: Head, at: Broken)

  predicate ValidBroken(b: Broken) {
    match b
    case InString(_, chunks) => ValidChunks(chunks)
    case InGroup(map_, form, before, at) =>
      && AllValid(before) && ValidBroken(at)
      && (form.Definite? ==> ValidHead(form.head) && |before| < if map_ then 2 * form.head.arg else form.head.arg)
    case InTag(h, at) => (ValidHead(h) || h == SENTINEL) && ValidBroken(at)
  }

  function GroupType(map_: bool): nat { if map_ then 5 else 4 }

  function BrokenBytes(b: Broken): bytes
    requires ValidBroken(b)
  {
    match b
    case InString(text, chunks) => OpenHead(text) + (SerializeChunks(text, chunks) + OpenHead(text))
    case InGroup(map_, form, before, at) => OpenBytes(GroupType(map_), form) + (SerializeAll(before) + BrokenBytes(at))
    case InTag(h, at) => HeadBytes(6, h) + BrokenBytes(at)
  }

  /** The keys among keys and values in turn can be strings; a last key without its value is not looked at. */
  ghost predicate KeysOk(ks: KeyString, vs: seq<Value>) {
    |vs| < 2 || (ks(vs[0]).Some? && KeysOk(ks, vs[2..]))
  }

  /** The items before the place are read: they mean something and are within the limits. */
  ghost predicate BeforeRead(ks: KeyString, before: seq<Item>, depth: nat, n: nat) {
    && AllValid(before) && ArrayMeaning(ks, before).Some?
    && depth + HeightAll(before) <= MAX_DEPTH && n + CountAll(before) <= MAX_ELEMENTS
  }

  /** The decoder gets to the place: nothing on the way is over a limit, without meaning, or a key that is no string. */
  ghost predicate Reaches(ks: KeyString, b: Broken, depth: nat, n: nat)
    decreases b
  {
    && depth <= MAX_DEPTH && n + 1 <= MAX_ELEMENTS
    && match b
       case InString(_, _) => true
       case InGroup(map_, form, before, at) =>
         && (!map_ && form.Definite? ==> form.head.arg <= 0xFFFF_FFFF)
         && BeforeRead(ks, before, depth, n + 1) && (map_ ==> KeysOk(ks, ArrayMeaning(ks, before).value))
         && Reaches(ks, at, depth + 1, n + 1 + CountAll(before))
       case InTag(_, at) => Reaches(ks, at, depth + 1, n + 1)
  }

  lemma NoBreakHere(ks: KeyString, buf: bytes, pos: nat, n: nat, depth: nat)
    requires pos <= |buf| && DecodeItem(ks, buf, pos, n, depth) == Fail(Endless)
    ensures pos < |buf| && buf[pos] != 0xFF && depth <= MAX_DEPTH && n + 1 <= MAX_ELEMENTS
  {
  }

  // ---- a place in a group: the loop gets to it -------------------------------------

  /** The decoder fails endlessly behind some items of a group at level `depth`. */
  ghost predicate StuckAfter(ks: KeyString, buf: bytes, pos: nat, n: nat, depth: nat, before: seq<Item>) {
    && BeforeRead(ks, before, depth, n) && At(buf, pos, SerializeAll(before))
    && DecodeItem(ks, buf, pos + |SerializeAll(before)|, n + CountAll(before), depth + 1) == Fail(Endless)
  }

  lemma FirstBefore(ks: KeyString, buf: bytes, pos: nat, n: nat, depth: nat, before: seq<Item>)
    requires before != [] && StuckAfter(ks, buf, pos, n, depth, before)
    ensures var r := DecodeItem(ks, buf, pos, n, depth + 1);
            && r.Done? && r.value == ArrayMeaning(ks, before).value[0]
            && pos < |buf| && buf[pos] != 0xFF
            && StuckAfter(ks, buf, r.pos, r.n, depth, before[1..])
            && ArrayMeaning(ks, before).value == [r.value] + ArrayMeaning(ks, before[1..]).value
  {
    hide At, DecodeItem, Serialize, Meaning, Count, Height, Valid;
    ItemsStart(buf, pos, before);
    ItemReads(ks, buf, pos, n, depth + 1, before[0]);
    FirstByte(buf, pos, Serialize(before[0]));
    FirstMeaning(ks, before);
  }

  lemma FirstMeaning(ks: KeyString, before: seq<Item>)
    requires before != [] && AllValid(before) && ArrayMeaning(ks, before).Some?
    ensures Meaning(ks, before[0]).Some? && ArrayMeaning(ks, before[1..]).Some?
    ensures ArrayMeaning(ks, before).value == [Meaning(ks, before[0]).value] + ArrayMeaning(ks, before[1..]).value
  {
    hide Meaning;
  }

  lemma {:induction false} ArrayGetsThere(ks: KeyString, buf: bytes, pos: nat, n: nat, depth: nat, left: nat, before: seq<Item>)
    requires |before| < left && StuckAfter(ks, buf, pos, n, depth, before)
    ensures DecodeArray(ks, buf, pos, n, depth + 1, left, []) == Fail(Endless)
    decreases before
  {
    hide StuckAfter, DecodeItem;
    StuckWithin(ks, buf, pos, n, depth, before);
    ArrayStep(ks, buf, pos, n, depth + 1, left);
    if before != [] {
      FirstBefore(ks, buf, pos, n, depth, before);
      var r := DecodeItem(ks, buf, pos, n, depth + 1);
      ArrayGetsThere(ks, buf, r.pos, r.n, depth, left - 1, before[1..]);
    }
  }

  lemma StuckWithin(ks: KeyString, buf: bytes, pos: nat, n: nat, depth: nat, before: seq<Item>)
    requires StuckAfter(ks, buf, pos, n, depth, before)
    ensures pos <= |buf|
    ensures before == [] ==> DecodeItem(ks, buf, pos, n, depth + 1) == Fail(Endless) && pos < |buf| && buf[pos] != 0xFF
  {
    if before == [] {
      NoBreakHere(ks, buf, pos, n, depth + 1);
    }
  }

  lemma BeforeIsRead(ks: KeyString, buf: bytes, pos: nat, n: nat, depth: nat, before: seq<Item>)
    requires StuckAfter(ks, buf, pos, n, depth, before)
    ensures BeforeRead(ks, before, depth, n)
  {
  }

  lemma {:induction false} OpenArrayGetsThere(ks: KeyString, buf: bytes, pos: nat, n: nat, depth: nat, before: seq<Item>)
    requires StuckAfter(ks, buf, pos, n, depth, before) && pos <= |buf|
    ensures DecodeOpenArray(ks, buf, pos, n, depth + 1, []) == Fail(Endless)
    decreases before
  {
    hide StuckAfter, DecodeItem;
    StuckWithin(ks, buf, pos, n, depth, before);
    if before != [] {
      FirstBefore(ks, buf, pos, n, depth, before);
      var r := DecodeItem(ks, buf, pos, n, depth + 1);
      OpenArrayGetsThere(ks, buf, r.pos, r.n, depth, before[1..]);
    }
    OpenArrayStep(ks, buf, pos, n, depth + 1);
  }

  /** What reading one key and one value of a map does to a place behind `before`. */
  lemma FieldGetsThere(ks: KeyString, buf: bytes, pos: nat, n: nat, depth: nat, before: seq<Item>, acc: seq<Field>)
    requires StuckAfter(ks, buf, pos, n, depth, before) && pos <= |buf|
    requires KeysOk(ks, ArrayMeaning(ks, before).value)
    ensures pos < |buf| && buf[pos] != 0xFF
    ensures var r := DecodeField(ks, buf, pos, n, depth + 1, acc);
            if |before| < 2 then r == Fail(Endless)
            else r.Done? && StuckAfter(ks, buf, r.pos, r.n, depth, before[2..])
                 && KeysOk(ks, ArrayMeaning(ks, before[2..]).value)
  {
    hide StuckAfter, DecodeItem, Meaning;
    StuckWithin(ks, buf, pos, n, depth, before);
    if before != [] {
      FirstBefore(ks, buf, pos, n, depth, before);
      var k := DecodeItem(ks, buf, pos, n, depth + 1);
      StuckWithin(ks, buf, k.pos, k.n, depth, before[1..]);
      BeforeIsRead(ks, buf, pos, n, depth, before);
      if |before| > 1 {
        FirstBefore(ks, buf, k.pos, k.n, depth, before[1..]);
        BeforeIsRead(ks, buf, k.pos, k.n, depth, before[1..]);
        assert before[1..][1..] == before[2..];
        var vs := ArrayMeaning(ks, before).value;
        assert vs[2..] == ArrayMeaning(ks, before[2..]).value;
      }
    }
  }

  lemma {:induction false} MapGetsThere(ks: KeyString, buf: bytes, pos: nat, n: nat, depth: nat, left: nat, before: seq<Item>, acc: seq<Field>)
    requires |before| < 2 * left && StuckAfter(ks, buf, pos, n, depth, before) && pos <= |buf|
    requires KeysOk(ks, ArrayMeaning(ks, before).value)
    ensures DecodeMap(ks, buf, pos, n, depth + 1, left, acc) == Fail(Endless)
    decreases left
  {
    hide StuckAfter, DecodeField;
    FieldGetsThere(ks, buf, pos, n, depth, before, acc);
    if |before| >= 2 {
      var r := DecodeField(ks, buf, pos, n, depth + 1, acc);
      MapGetsThere(ks, buf, r.pos, r.n, depth, left - 1, before[2..], r.value);
    }
  }

  lemma {:induction false} OpenMapGetsThere(ks: KeyString, buf: bytes, pos: nat, n: nat, depth: nat, before: seq<Item>, acc: seq<Field>)
    requires StuckAfter(ks, buf, pos, n, depth, before) && pos <= |buf|
    requires KeysOk(ks, ArrayMeaning(ks, before).value)
    ensures DecodeOpenMap(ks, buf, pos, n, depth + 1, acc) == Fail(Endless)
    decreases |before|
  {
    hide StuckAfter, DecodeField;
    FieldGetsThere(ks, buf, pos, n, depth, before, acc);
    if |before| >= 2 {
      var r := DecodeField(ks, buf, pos, n, depth + 1, acc);
      OpenMapGetsThere(ks, buf, r.pos, r.n, depth, before[2..], r.value);
    }
  }

  // ---- a place in a group: where the loop is ---------------------------------------

  lemma NoneBefore(ks: KeyString, buf: bytes, pos: nat, n: nat, depth: nat)
    requires pos <= |buf| && DecodeItem(ks, buf, pos, n, depth + 1) == Fail(Endless)
    ensures StuckAfter(ks, buf, pos, n, depth, [])
  {
    NoBreakHere(ks, buf, pos, n, depth + 1);
    AtSlice(buf, pos, []);
  }

  lemma OneMoreBefore(ks: KeyString, buf: bytes, pos: nat, n: nat, depth: nat, rest: seq<Item>) returns (before: seq<Item>)
    requires pos <= |buf|
    requires var r := DecodeItem(ks, buf, pos, n, depth + 1); r.Done? && StuckAfter(ks, buf, r.pos, r.n, depth, rest)
    ensures |before| == 1 + |rest| && StuckAfter(ks, buf, pos, n, depth, before)
    ensures ArrayMeaning(ks, before).value == [DecodeItem(ks, buf, pos, n, depth + 1).value] + ArrayMeaning(ks, rest).value
  {
    hide At, DecodeItem, Serialize, Meaning, Count, Height, Valid;
    var w := A.ItemAccepted(ks, buf, pos, n, depth + 1);
    ItemReads(ks, buf, pos, n, depth + 1, w);
    before := [w] + rest;
    assert before[1..] == rest;
    AtConcat(buf, pos, Serialize(w), SerializeAll(rest));
  }

  lemma {:induction false} WhereArrayStuck(ks: KeyString, buf: bytes, pos: nat, n: nat, depth: nat, left: nat) returns (before: seq<Item>)
    requires pos <= |buf| && DecodeArray(ks, buf, pos, n, depth + 1, left, []) == Fail(Endless)
    ensures |before| < left && StuckAfter(ks, buf, pos, n, depth, before)
    decreases left
  {
    hide StuckAfter, DecodeItem;
    ArrayStep(ks, buf, pos, n, depth + 1, left);
    var r := DecodeItem(ks, buf, pos, n, depth + 1);
    if r.Done? {
      var rest := WhereArrayStuck(ks, buf, r.pos, r.n, depth, left - 1);
      before := OneMoreBefore(ks, buf, pos, n, depth, rest);
    } else {
      before := [];
      NoneBefore(ks, buf, pos, n, depth);
    }
  }

  lemma {:induction false} WhereOpenArrayStuck(ks: KeyString, buf: bytes, pos: nat, n: nat, depth: nat) returns (before: seq<Item>)
    requires pos <= |buf| && DecodeOpenArray(ks, buf, pos, n, depth + 1, []) == Fail(Endless)
    ensures StuckAfter(ks, buf, pos, n, depth, before)
    decreases |buf| - pos
  {
    hide StuckAfter, DecodeItem;
    OpenArrayStep(ks, buf, pos, n, depth + 1);
    var r := DecodeItem(ks, buf, pos, n, depth + 1);
    if r.Done? {
      var rest := WhereOpenArrayStuck(ks, buf, r.pos, r.n, depth);
      before := OneMoreBefore(ks, buf, pos, n, depth, rest);
    } else {
      before := [];
      NoneBefore(ks, buf, pos, n, depth);
    }
  }

  lemma WhereFieldStuck(ks: KeyString, buf: bytes, pos: nat, n: nat, depth: nat, acc: seq<Field>) returns (before: seq<Item>)
    requires pos <= |buf| && DecodeField(ks, buf, pos, n, depth + 1, acc) == Fail(Endless)
    ensures |before| < 2 && StuckAfter(ks, buf, pos, n, depth, before)
  {
    hide StuckAfter, DecodeItem;
    var k := DecodeItem(ks, buf, pos, n, depth + 1);
    if k.Done? {
      NoneBefore(ks, buf, k.pos, k.n, depth);
      before := OneMoreBefore(ks, buf, pos, n, depth, []);
    } else {
      before := [];
      NoneBefore(ks, buf, pos, n, depth);
    }
  }

  lemma FieldBefore(ks: KeyString, buf: bytes, pos: nat, n: nat, depth: nat, acc: seq<Field>, rest: seq<Item>) returns (before: seq<Item>)
    requires pos <= |buf|
    requires var r := DecodeField(ks, buf, pos, n, depth + 1, acc); r.Done? && StuckAfter(ks, buf, r.pos, r.n, depth, rest)
    requires KeysOk(ks, ArrayMeaning(ks, rest).value)
    ensures |before| == 2 + |rest| && StuckAfter(ks, buf, pos, n, depth, before)
    ensures KeysOk(ks, ArrayMeaning(ks, before).value)
  {
    hide StuckAfter, DecodeItem, ArrayMeaning;
    var k := DecodeItem(ks, buf, pos, n, depth + 1);
    var v := DecodeItem(ks, buf, k.pos, k.n, depth + 1);
    BeforeIsRead(ks, buf, v.pos, v.n, depth, rest);
    var more := OneMoreBefore(ks, buf, k.pos, k.n, depth, rest);
    before := OneMoreBefore(ks, buf, pos, n, depth, more);
    var vs := [k.value] + ([v.value] + ArrayMeaning(ks, rest).value);
    assert vs[2..] == ArrayMeaning(ks, rest).value;
  }

  lemma FewKeysOk(ks: KeyString, before: seq<Item>)
    requires AllValid(before) && ArrayMeaning(ks, before).Some? && |before| < 2
    ensures KeysOk(ks, ArrayMeaning(ks, before).value)
  {
    MeaningLength(ks, before);
  }

  lemma {:induction false} WhereMapStuck(ks: KeyString, buf: bytes, pos: nat, n: nat, depth: nat, left: nat, acc: seq<Field>) returns (before: seq<Item>)
    requires pos <= |buf| && DecodeMap(ks, buf, pos, n, depth + 1, left, acc) == Fail(Endless)
    ensures |before| < 2 * left && StuckAfter(ks, buf, pos, n, depth, before) && KeysOk(ks, ArrayMeaning(ks, before).value)
    decreases left
  {
    hide DecodeItem, DecodeField, At, ArrayMeaning, AllValid;
    var r := DecodeField(ks, buf, pos, n, depth + 1, acc);
    if r.Done? {
      var rest := WhereMapStuck(ks, buf, r.pos, r.n, depth, left - 1, r.value);
      before := FieldBefore(ks, buf, pos, n, depth, acc, rest);
    } else {
      before := WhereFieldStuck(ks, buf, pos, n, depth, acc);
      FewKeysOk(ks, before);
    }
  }

  lemma {:induction false} WhereOpenMapStuck(ks: KeyString, buf: bytes, pos: nat, n: nat, depth: nat, acc: seq<Field>) returns (before: seq<Item>)
    requires pos <= |buf| && DecodeOpenMap(ks, buf, pos, n, depth + 1, acc) == Fail(Endless)
    ensures StuckAfter(ks, buf, pos, n, depth, before) && KeysOk(ks, ArrayMeaning(ks, before).value)
    decreases |buf| - pos
  {
    hide DecodeItem, DecodeField, At, ArrayMeaning, AllValid;
    var r := DecodeField(ks, buf, pos, n, depth + 1, acc);
    if r.Done? {
      var rest := WhereOpenMapStuck(ks, buf, r.pos, r.n, depth, r.value);
      before := FieldBefore(ks, buf, pos, n, depth, acc, rest);
    } else {
      before := WhereFieldStuck(ks, buf, pos, n, depth, acc);
      FewKeysOk(ks, before);
    }
  }

  // ---- the whole item --------------------------------------------------------------

  ghost predicate Stands(ks: KeyString, buf: bytes, pos: nat, n: nat, depth: nat, b: Broken) {
    ValidBroken(b) && At(buf, pos, BrokenBytes(b)) && Reaches(ks, b, depth, n)
  }

  lemma StringEndless(ks: KeyString, buf: bytes, pos: nat, n: nat, depth: nat, text: bool, chunks: seq<Chunk>)
    requires Stands(ks, buf, pos, n, depth, InString(text, chunks))
    ensures DecodeItem(ks, buf, pos, n, depth) == Fail(Endless)
  {
    hide At, DecodeChunks;
    AtConcat(buf, pos, OpenHead(text), SerializeChunks(text, chunks) + OpenHead(text));
    AtByte(buf, pos, OpenHead(text)[0]);
    ChunksStuck(buf, pos + 1, n + 1, text, chunks, []);
    assert DecodeItem(ks, buf, pos, n, depth) == DecodeBody(ks, buf, pos + 1, n + 1, depth, StringType(text), 31);
  }

  lemma GroupLayout(ks: KeyString, buf: bytes, pos: nat, n: nat, depth: nat, b: Broken)
    requires b.InGroup? && Stands(ks, buf, pos, n, depth, b)
    ensures var at := pos + |OpenBytes(GroupType(b.map_), b.form)|;
            && At(buf, pos, OpenBytes(GroupType(b.map_), b.form)) && At(buf, at, SerializeAll(b.before))
            && at <= |buf| && Stands(ks, buf, at + |SerializeAll(b.before)|, n + 1 + CountAll(b.before), depth + 1, b.at)
  {
    hide At, OpenBytes, Serialize;
    var open, body := OpenBytes(GroupType(b.map_), b.form), SerializeAll(b.before);
    AtConcat(buf, pos, open, body + BrokenBytes(b.at));
    AtConcat(buf, pos + |open|, body, BrokenBytes(b.at));
    AtSlice(buf, pos + |open|, body);
  }

  lemma {:induction false} GroupEndless(ks: KeyString, buf: bytes, pos: nat, n: nat, depth: nat, b: Broken)
    requires b.InGroup? && Stands(ks, buf, pos, n, depth, b)
    ensures DecodeItem(ks, buf, pos, n, depth) == Fail(Endless)
    decreases b, 0
  {
    hide At, HeadBytes, DecodeArray, DecodeOpenArray, DecodeMap, DecodeOpenMap;
    var mt, open := GroupType(b.map_), OpenBytes(GroupType(b.map_), b.form);
    GroupLayout(ks, buf, pos, n, depth, b);
    var at := pos + |open|;
    BrokenEndless(ks, buf, at + |SerializeAll(b.before)|, n + 1 + CountAll(b.before), depth + 1, b.at);
    GroupFromItems(ks, buf, pos, n, depth, b);
  }

  lemma GroupFromItems(ks: KeyString, buf: bytes, pos: nat, n: nat, depth: nat, b: Broken)
    requires b.InGroup? && ValidBroken(b) && Reaches(ks, b, depth, n) && At(buf, pos, OpenBytes(GroupType(b.map_), b.form))
    requires pos + |OpenBytes(GroupType(b.map_), b.form)| <= |buf|
    requires StuckAfter(ks, buf, pos + |OpenBytes(GroupType(b.map_), b.form)|, n + 1, depth, b.before)
    ensures DecodeItem(ks, buf, pos, n, depth) == Fail(Endless)
  {
    hide At, HeadBytes, DecodeArray, DecodeOpenArray, DecodeMap, DecodeOpenMap, StuckAfter;
    var mt, at := GroupType(b.map_), pos + |OpenBytes(GroupType(b.map_), b.form)|;
    if b.form.Indefinite? {
      AtByte(buf, pos, mt * 32 + 31);
      assert DecodeItem(ks, buf, pos, n, depth) == DecodeBody(ks, buf, pos + 1, n + 1, depth, mt, 31);
      if b.map_ {
        OpenMapGetsThere(ks, buf, at, n + 1, depth, b.before, []);
      } else {
        OpenArrayGetsThere(ks, buf, at, n + 1, depth, b.before);
      }
    } else {
      HeadDispatch(ks, buf, pos, n, depth, mt, b.form.head);
      if b.map_ {
        MapGetsThere(ks, buf, at, n + 1, depth, b.form.head.arg, b.before, []);
      } else {
        ArrayGetsThere(ks, buf, at, n + 1, depth, b.form.head.arg, b.before);
      }
    }
  }

  lemma {:induction false} TagEndless(ks: KeyString, buf: bytes, pos: nat, n: nat, depth: nat, b: Broken)
    requires b.InTag? && Stands(ks, buf, pos, n, depth, b)
    ensures DecodeItem(ks, buf, pos, n, depth) == Fail(Endless)
    decreases b, 0
  {
    hide At, HeadBytes;
    AtConcat(buf, pos, HeadBytes(6, b.head), BrokenBytes(b.at));
    HeadDispatch(ks, buf, pos, n, depth, 6, b.head);
    BrokenEndless(ks, buf, pos + |HeadBytes(6, b.head)|, n + 1, depth + 1, b.at);
    WithinBuffer(buf, pos, HeadBytes(6, b.head));
  }

  lemma WithinBuffer(buf: bytes, pos: nat, s: bytes)
    requires At(buf, pos, s)
    ensures pos + |s| <= |buf|
  {
  }

  lemma {:induction false} BrokenEndless(ks: KeyString, buf: bytes, pos: nat, n: nat, depth: nat, b: Broken)
    requires Stands(ks, buf, pos, n, depth, b)
    ensures pos <= |buf| && DecodeItem(ks, buf, pos, n, depth) == Fail(Endless)
    decreases b, 1
  {
    hide Stands, DecodeItem;
    StandsWithin(ks, buf, pos, n, depth, b);
    match b
    case InString(text, chunks) => StringEndless(ks, buf, pos, n, depth, text, chunks);
    case InGroup(_, _, _, _) => GroupEndless(ks, buf, pos, n, depth, b);
    case InTag(_, _) => TagEndless(ks, buf, pos, n, depth, b);
  }

  lemma StandsWithin(ks: KeyString, buf: bytes, pos: nat, n: nat, depth: nat, b: Broken)
    requires Stands(ks, buf, pos, n, depth, b)
    ensures pos <= |buf|
  {
  }

  lemma {:induction false} WhereEndless(ks: KeyString, buf: bytes, pos: nat, n: nat, depth: nat) returns (b: Broken)
    requires pos <= |buf| && DecodeItem(ks, buf, pos, n, depth) == Fail(Endless)
    ensures Stands(ks, buf, pos, n, depth, b)
    decreases |buf| - pos, 1
  {
    hide Stands, At, HeadBytes, DecodeString, DecodeWithArgument, DecodeOpenArray, DecodeOpenMap;
    NoBreakHere(ks, buf, pos, n, depth);
    var mt, ai := buf[pos] / 32, buf[pos] % 32;
    assert DecodeItem(ks, buf, pos, n, depth) == DecodeBody(ks, buf, pos + 1, n + 1, depth, mt, ai);
    if mt == 2 || mt == 3 {
      b := WhereStringEndless(ks, buf, pos, n, depth, mt == 3);
    } else if (mt == 4 || mt == 5) && ai == 31 {
      b := WhereOpenEndless(ks, buf, pos, n, depth, mt == 5);
    } else {
      var h := A.HeadAccepted(buf, pos);
      WithinBuffer(buf, pos, HeadBytes(mt, h));
      b := WhereHeadEndless(ks, buf, pos, n, depth, mt, h);
    }
  }

  lemma {:induction false} WhereOpenEndless(ks: KeyString, buf: bytes, pos: nat, n: nat, depth: nat, map_: bool) returns (b: Broken)
    requires pos < |buf| && buf[pos] == GroupType(map_) * 32 + 31 && depth <= MAX_DEPTH && n + 1 <= MAX_ELEMENTS
    requires DecodeBody(ks, buf, pos + 1, n + 1, depth, GroupType(map_), 31) == Fail(Endless)
    ensures Stands(ks, buf, pos, n, depth, b)
    decreases |buf| - pos, 0, 1
  {
    hide Stands, At, DecodeOpenArray, DecodeOpenMap;
    var before;
    if map_ {
      before := WhereOpenMapStuck(ks, buf, pos + 1, n + 1, depth, []);
    } else {
      before := WhereOpenArrayStuck(ks, buf, pos + 1, n + 1, depth);
    }
    AtByte(buf, pos, buf[pos]);
    b := GroupAround(ks, buf, pos, n, depth, map_, Indefinite, before);
  }

  lemma {:induction false} WhereHeadEndless(ks: KeyString, buf: bytes, pos: nat, n: nat, depth: nat, mt: nat, h: Head) returns (b: Broken)
    requires mt < 7 && mt != 2 && mt != 3 && (ValidHead(h) || (h == SENTINEL && mt != 4 && mt != 5))
    requires At(buf, pos, HeadBytes(mt, h)) && pos + |HeadBytes(mt, h)| <= |buf| && depth <= MAX_DEPTH && n + 1 <= MAX_ELEMENTS
    requires DecodeWithArgument(ks, buf, pos + |HeadBytes(mt, h)|, n + 1, depth, mt, h.arg) == Fail(Endless)
    ensures Stands(ks, buf, pos, n, depth, b)
    decreases |buf| - pos, 0, 1
  {
    hide Stands, At, HeadBytes, DecodeArray, DecodeMap;
    var at := pos + |HeadBytes(mt, h)|;
    if mt == 6 {
      b := TagAround(ks, buf, pos, n, depth, h);
    } else {
      var before;
      if mt == 5 {
        before := WhereMapStuck(ks, buf, at, n + 1, depth, h.arg, []);
      } else {
        before := WhereArrayStuck(ks, buf, at, n + 1, depth, h.arg);
      }
      b := GroupAround(ks, buf, pos, n, depth, mt == 5, Definite(h), before);
    }
  }

  lemma WhereStringEndless(ks: KeyString, buf: bytes, pos: nat, n: nat, depth: nat, text: bool) returns (b: Broken)
    requires pos < |buf| && buf[pos] / 32 == StringType(text) && depth <= MAX_DEPTH && n + 1 <= MAX_ELEMENTS
    requires DecodeString(buf, pos + 1, n + 1, StringType(text), buf[pos] % 32) == Fail(Endless)
    ensures Stands(ks, buf, pos, n, depth, b)
  {
    hide At;
    var chunks := ChunksBefore(buf, pos + 1, n + 1, text, []);
    b := InString(text, chunks);
    AtByte(buf, pos, buf[pos]);
    AtConcat(buf, pos, OpenHead(text), SerializeChunks(text, chunks) + OpenHead(text));
  }

  lemma {:induction false} GroupAround(ks: KeyString, buf: bytes, pos: nat, n: nat, depth: nat, map_: bool, form: Form, before: seq<Item>)
    returns (b: Broken)
    requires depth <= MAX_DEPTH && n + 1 <= MAX_ELEMENTS
    requires form.Definite? ==> ValidHead(form.head) && |before| < if map_ then 2 * form.head.arg else form.head.arg
    requires !map_ && form.Definite? ==> form.head.arg <= MAX_ARRAY_LENGTH
    requires At(buf, pos, OpenBytes(GroupType(map_), form))
    requires StuckAfter(ks, buf, pos + |OpenBytes(GroupType(map_), form)|, n + 1, depth, before)
    requires map_ ==> KeysOk(ks, ArrayMeaning(ks, before).value)
    ensures Stands(ks, buf, pos, n, depth, b)
    decreases |buf| - pos, 0, 0
  {
    hide At, OpenBytes, DecodeItem;
    var open := OpenBytes(GroupType(map_), form);
    var next := pos + |open| + |SerializeAll(before)|;
    WithinBuffer(buf, pos + |open|, SerializeAll(before));
    var at := WhereEndless(ks, buf, next, n + 1 + CountAll(before), depth + 1);
    b := InGroup(map_, form, before, at);
    AtConcat(buf, pos + |open|, SerializeAll(before), BrokenBytes(at));
    AtConcat(buf, pos, open, SerializeAll(before) + BrokenBytes(at));
  }

  lemma {:induction false} TagAround(ks: KeyString, buf: bytes, pos: nat, n: nat, depth: nat, h: Head) returns (b: Broken)
    requires depth <= MAX_DEPTH && n + 1 <= MAX_ELEMENTS && (ValidHead(h) || h == SENTINEL)
    requires At(buf, pos, HeadBytes(6, h)) && pos + |HeadBytes(6, h)| <= |buf|
    requires DecodeWithArgument(ks, buf, pos + |HeadBytes(6, h)|, n + 1, depth, 6, h.arg) == Fail(Endless)
    ensures Stands(ks, buf, pos, n, depth, b)
    decreases |buf| - pos, 0, 0
  {
    hide At, HeadBytes;
    var at := WhereEndless(ks, buf, pos + |HeadBytes(6, h)|, n + 1, depth + 1);
    b := InTag(h, at);
    AtConcat(buf, pos, HeadBytes(6, h), BrokenBytes(at));
  }

  /**
   The decoder does not come back exactly when such a place stands in the buffer, behind whole items
   that mean something, and no limit and no key stops it on the way there.
   */
  lemma EndlessIff(ks: KeyString, buf: bytes, pos: nat, n: nat, depth: nat)
    requires pos <= |buf|
    ensures DecodeItem(ks, buf, pos, n, depth) == Fail(Endless) <==> exists b :: Stands(ks, buf, pos, n, depth, b)
  {
    hide Stands, DecodeItem;
    if DecodeItem(ks, buf, pos, n, depth) == Fail(Endless) {
      var b := WhereEndless(ks, buf, pos, n, depth);
    }
    if b :| Stands(ks, buf, pos, n, depth, b) {
      BrokenEndless(ks, buf, pos, n, depth, b);
    }
  }

  /** The shortest such inputs: the head of an indefinite string, twice. */
  lemma TwoHeads(ks: KeyString)
    ensures DecodeItem(ks, [0x5F, 0x5F], 0, 0, 0) == DecodeItem(ks, [0x7F, 0x7F], 0, 0, 0) == Fail(Endless)
  {
    hide DecodeChunks;
    ChunksStuck([0x5F, 0x5F], 1, 1, false, [], []);
    ChunksStuck([0x7F, 0x7F], 1, 1, true, [], []);
    assert DecodeItem(ks, [0x5F, 0x5F], 0, 0, 0) == DecodeBody(ks, [0x5F, 0x5F], 1, 1, 0, 2, 31);
    assert DecodeItem(ks, [0x7F, 0x7F], 0, 0, 0) == DecodeBody(ks, [0x7F, 0x7F], 1, 1, 0, 3, 31);
  }
}
