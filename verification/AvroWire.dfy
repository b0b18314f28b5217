/**
 What may stand on the wire for a schema: every partition of arrays and maps into blocks with
 positive or negative counts. The decoder reads each such form as what it means.
 */
module AvroWire {
  import opened Bytes
  import opened AvroVarint
  import opened AvroCodec
  import opened Objects
  import opened AvroReading

  datatype Wire =
    | Empty                        // null
    | Flag(b: byte)                // boolean
    | Varint(n: int)               // int, long, enum
    | Raw(data: bytes)             // float, double, fixed
    | SizedData(data: bytes)       // bytes, string
    | Parts(parts: seq<Wire>)      // record
    | Blocks(blocks: seq<Block>)   // array, map
    | Branch(index: nat, part: Wire)

  /** A non-empty block; with a byte size its count is written negative. Items of arrays have no key. */
  datatype Block = Block(size: Option<int>, entries: seq<Entry>)

  datatype Entry = Entry(key: bytes, item: Wire)

  predicate IsLong(n: int) { AvroVarint.Fits(n, 64) }

  /** The form is one for the schema; the size of a block may be any 64-bit integer. */
  predicate Conforms(w: Wire, s: Schema)
    decreases w, 2
  {
    match s
    case SNull => w.Empty?
    case SBoolean => w.Flag?
    case SInt => w.Varint? && IsLong(w.n)
    case SLong => w.Varint? && IsLong(w.n)
    case SEnum(_) => w.Varint? && IsLong(w.n)
    case SFloat => w.Raw? && |w.data| == 4
    case SDouble => w.Raw? && |w.data| == 8
    case SFixed(size) => w.Raw? && |w.data| == size && size > 0
    case SBytes => w.SizedData? && IsLong(|w.data|)
    case SString => w.SizedData? && IsLong(|w.data|)
    case SRecord(fields) => w.Parts? && PartsConform(w.parts, fields)
    case SArray(items) => w.Blocks? && BlocksConform(w.blocks, items, false)
    case SMap(values) => w.Blocks? && BlocksConform(w.blocks, values, true)
    case SUnion(branches) => w.Branch? && w.index < |branches| && IsLong(w.index) && Conforms(w.part, branches[w.index])
    case Other => false
  }

  predicate PartsConform(parts: seq<Wire>, fields: seq<Field>)
    decreases parts, 0
  {
    |parts| == |fields| &&
    (parts == [] || (Conforms(parts[0], fields[0].schema) && PartsConform(parts[1..], fields[1..])))
  }

  predicate BlocksConform(blocks: seq<Block>, s: Schema, keyed: bool)
    decreases blocks, 1
  {
    blocks == [] ||
    (ValidBlock(blocks[0]) && EntriesConform(blocks[0].entries, s, keyed) && BlocksConform(blocks[1..], s, keyed))
  }

  predicate ValidBlock(b: Block) {
    && b.entries != [] && IsLong(|b.entries|) && IsLong(-|b.entries|)
    && (b.size.Some? ==> IsLong(b.size.value))
  }

  predicate EntriesConform(entries: seq<Entry>, s: Schema, keyed: bool)
    decreases entries, 0
  {
    entries == [] ||
    (IsLong(|entries[0].key|) && (keyed || entries[0].key == []) && Conforms(entries[0].item, s)
     && EntriesConform(entries[1..], s, keyed))
  }

  function Serialize(w: Wire, s: Schema): bytes
    decreases w, 2
  {
    match w
    case Empty => []
    case Flag(b) => [b]
    case Varint(n) => LongBytes(n)
    case Raw(data) => data
    case SizedData(data) => Sized(data)
    case Parts(parts) => if s.SRecord? then SerializeParts(parts, s.fields) else []
    case Blocks(blocks) =>
      if s.SArray? then SerializeBlocks(blocks, s.items, false)
      else if s.SMap? then SerializeBlocks(blocks, s.values, true)
      else []
    case Branch(i, part) => if s.SUnion? && i < |s.branches| then LongBytes(i) + Serialize(part, s.branches[i]) else []
  }

  function SerializeParts(parts: seq<Wire>, fields: seq<Field>): bytes
    decreases parts, 0
  {
    if parts == [] || fields == [] then []
    else Serialize(parts[0], fields[0].schema) + SerializeParts(parts[1..], fields[1..])
  }

  function BlockHeadBytes(b: Block): bytes {
    if b.size.Some? then LongBytes(-|b.entries|) + LongBytes(b.size.value) else LongBytes(|b.entries|)
  }

  function SerializeBlocks(blocks: seq<Block>, s: Schema, keyed: bool): bytes
    decreases blocks, 1
  {
    if blocks == [] then [0]
    else BlockHeadBytes(blocks[0]) + SerializeEntries(blocks[0].entries, s, keyed) + SerializeBlocks(blocks[1..], s, keyed)
  }

  function SerializeEntries(entries: seq<Entry>, s: Schema, keyed: bool): bytes
    decreases entries, 0
  {
    if entries == [] then []
    else KeyBytes(entries[0].key, keyed) + Serialize(entries[0].item, s) + SerializeEntries(entries[1..], s, keyed)
  }

  function KeyBytes(key: bytes, keyed: bool): bytes { if keyed then Sized(key) else [] }

  // ---- meaning and cost ------------------------------------------------------------

  /**
   What reading a form takes and gives: levels below it, elements counted (one per record field
   and per array or map item), whether every string, bytes field and key is short enough for
   the reader, and the value, None when an enum index has no symbol.
   */
  datatype Reading<+T> = Reading(height: nat, elements: nat, short: bool, meaning: Option<T>)

  type Row = Reading<seq<DProp>>

  const NOTHING: Row := Reading(0, 0, true, Some([]))

  function Max(a: nat, b: nat): nat { if a > b then a else b }

  function Concat(a: Option<seq<DProp>>, b: Option<seq<DProp>>): Option<seq<DProp>> {
    if a.None? || b.None? then None else Some(a.value + b.value)
  }

  /** One row of items after another, on the same level. */
  function Plus(a: Row, b: Row): Row {
    Reading(Max(a.height, b.height), a.elements + b.elements, a.short && b.short, Concat(a.meaning, b.meaning))
  }

  /** One item under a name, one level down. */
  function One(name: bytes, r: Reading<DVal>): Row {
    Reading(1 + r.height, 1 + r.elements, r.short && |name| <= 67_108_864,
            if r.meaning.None? then None else Some([Property(name, r.meaning.value)]))
  }

  /** A record field: its name is not read, so it may be of any length. */
  function OneField(name: bytes, r: Reading<DVal>): Row {
    One(name, r).(short := r.short)
  }

  function LeafReading(short: bool, meaning: Option<DVal>): Reading<DVal> {
    Reading(0, 0, short, meaning)
  }

  function ObjectReading(row: Row): Reading<DVal> {
    Reading(row.height, row.elements, row.short,
            if row.meaning.None? then None else Some(DObject(PutAll([], row.meaning.value))))
  }

  function ArrayReading(row: Row): Reading<DVal> {
    Reading(row.height, row.elements, row.short,
            if row.meaning.None? then None else Some(DArray(Values(row.meaning.value))))
  }

  function ReadingOf(w: Wire, s: Schema): Reading<DVal>
    requires Conforms(w, s)
    decreases w, 2
  {
    match s
    case SNull => LeafReading(true, Some(DNull))
    case SBoolean => LeafReading(true, Some(DBool(w.b != 0)))
    case SInt => LeafReading(true, Some(DNum(AsInt(w.n, 32))))
    case SLong => LeafReading(true, Some(LongValue(w.n)))
    case SEnum(symbols) => LeafReading(true, SymbolValue(symbols, AsInt(w.n, 32)))
    case SFloat => LeafReading(true, Some(DFloat(w.data)))
    case SDouble => LeafReading(true, Some(DDouble(w.data)))
    case SFixed(_) => LeafReading(true, Some(DFixed(w.data)))
    case SBytes => LeafReading(|w.data| <= 67_108_864, Some(DBytes(w.data)))
    case SString => LeafReading(|w.data| <= 67_108_864, Some(DText(w.data)))
    case SRecord(fields) => ObjectReading(PartsReading(w.parts, fields))
    case SArray(items) => ArrayReading(BlocksReading(w.blocks, items, false))
    case SMap(values) => ObjectReading(BlocksReading(w.blocks, values, true))
    case SUnion(branches) => BranchReading(branches, w.index, ReadingOf(w.part, branches[w.index]))
  }

  function BranchReading(branches: seq<Schema>, i: nat, r: Reading<DVal>): Reading<DVal>
    requires i < |branches|
  {
    Reading(1 + r.height, r.elements, r.short,
            if r.meaning.None? then None else Some(BranchValue(branches, i, r.meaning.value)))
  }

  function PartsReading(parts: seq<Wire>, fields: seq<Field>): Row
    requires PartsConform(parts, fields)
    decreases parts, 0
  {
    if parts == [] then NOTHING
    else Plus(OneField(fields[0].name, ReadingOf(parts[0], fields[0].schema)), PartsReading(parts[1..], fields[1..]))
  }

  /** The items of all blocks, in order. */
  function BlocksReading(blocks: seq<Block>, s: Schema, keyed: bool): Row
    requires BlocksConform(blocks, s, keyed)
    decreases blocks, 1
  {
    if blocks == [] then NOTHING
    else Plus(EntriesReading(blocks[0].entries, s, keyed), BlocksReading(blocks[1..], s, keyed))
  }

  function EntriesReading(entries: seq<Entry>, s: Schema, keyed: bool): Row
    requires EntriesConform(entries, s, keyed)
    decreases entries, 0
  {
    if entries == [] then NOTHING
    else Plus(One(entries[0].key, ReadingOf(entries[0].item, s)), EntriesReading(entries[1..], s, keyed))
  }

  // ---- reading ---------------------------------------------------------------------

  predicate Possible<T>(x: Reading<T>, depth: nat, n: nat) {
    depth + x.height <= 64 && n + x.elements <= 1_000_000 && x.short && x.meaning.Some?
  }

  /** The decoder does what the reading says, for something `depth` levels down that ends at `end`. */
  predicate Reads<T(==)>(x: Reading<T>, depth: nat, n: nat, end: nat, r: Out<T>) {
    if Possible(x, depth, n) then r == Done(x.meaning.value, end, n + x.elements) else r.Fail?
  }

  function Prepend(front: seq<DProp>, r: Out<seq<DProp>>): Out<seq<DProp>> {
    match r
    case Fail(e) => Fail(e)
    case Done(back, p, n) => Done(front + back, p, n)
  }

  lemma {:induction false} FieldsAcc(buf: bytes, pos: nat, n: nat, fields: seq<Field>, depth: nat, acc: seq<DProp>)
    requires pos <= |buf|
    ensures DecodeFields(buf, pos, n, fields, depth, acc) == Prepend(acc, DecodeFields(buf, pos, n, fields, depth, []))
    decreases fields
  {
    hide DecodeValue;
    if fields == [] {
      assert acc + [] == acc;
    } else if n + 1 <= MAX_ELEMENTS {
      var first := DecodeValue(buf, pos, n + 1, fields[0].schema, depth);
      if first.Done? {
        var d := [Property(fields[0].name, first.value)];
        FieldsAcc(buf, first.pos, first.n, fields[1..], depth, acc + d);
        FieldsAcc(buf, first.pos, first.n, fields[1..], depth, [] + d);
        var rest := DecodeFields(buf, first.pos, first.n, fields[1..], depth, []);
        if rest.Done? {
          assert acc + d + rest.value == acc + ([] + d + rest.value);
        }
      }
    }
  }

  lemma {:induction false} EntriesAcc(buf: bytes, pos: nat, n: nat, s: Schema, keyed: bool, depth: nat, left: nat, acc: seq<DProp>)
    requires pos <= |buf|
    ensures DecodeEntries(buf, pos, n, s, keyed, depth, left, acc)
         == Prepend(acc, DecodeEntries(buf, pos, n, s, keyed, depth, left, []))
    decreases left
  {
    hide DecodeValue;
    if left == 0 {
      assert acc + [] == acc;
    } else if n + 1 <= MAX_ELEMENTS {
      var key := KeyAt(buf, pos, n + 1, keyed);
      if key.Done? {
        var first := DecodeValue(buf, key.pos, key.n, s, depth);
        if first.Done? {
          var d := [Property(key.value, first.value)];
          EntriesAcc(buf, first.pos, first.n, s, keyed, depth, left - 1, acc + d);
          EntriesAcc(buf, first.pos, first.n, s, keyed, depth, left - 1, [] + d);
          var rest := DecodeEntries(buf, first.pos, first.n, s, keyed, depth, left - 1, []);
          if rest.Done? {
            assert acc + d + rest.value == acc + ([] + d + rest.value);
          }
        }
      }
    }
  }

  lemma {:induction false} BlocksAcc(buf: bytes, pos: nat, n: nat, s: Schema, keyed: bool, depth: nat, acc: seq<DProp>)
    requires pos <= |buf|
    ensures DecodeBlocks(buf, pos, n, s, keyed, depth, acc)
         == Prepend(acc, DecodeBlocks(buf, pos, n, s, keyed, depth, []))
    decreases |buf| - pos
  {
    hide DecodeEntries, BlockHead;
    var head := BlockHead(buf, pos);
    if head.Read? {
      if head.value == 0 {
        assert acc + [] == acc;
      } else {
        EntriesAcc(buf, head.pos, n, s, keyed, depth, head.value, acc);
        var first := DecodeEntries(buf, head.pos, n, s, keyed, depth, head.value, []);
        if first.Done? {
          BlocksAcc(buf, first.pos, first.n, s, keyed, depth, acc + first.value);
          BlocksAcc(buf, first.pos, first.n, s, keyed, depth, first.value);
          var rest := DecodeBlocks(buf, first.pos, first.n, s, keyed, depth, []);
          if rest.Done? {
            assert acc + first.value + rest.value == acc + (first.value + rest.value);
          }
        }
      }
    }
  }

  lemma SizedReads(buf: bytes, pos: nat, n: nat, data: bytes)
    requires IsLong(|data|) && At(buf, pos, Sized(data))
    ensures if |data| <= MAX_STRING_BYTES then SizedAt(buf, pos, n) == Done(data, pos + |Sized(data)|, n)
            else SizedAt(buf, pos, n).Fail?
  {
    hide At, LongBytes, ReadLongAt;
    AtConcat(buf, pos, LongBytes(|data|), data);
    LongRead(buf, pos, |data|);
    AtSlice(buf, pos + |LongBytes(|data|)|, data);
  }

  lemma PrimitiveReads(buf: bytes, pos: nat, n: nat, depth: nat, w: Wire, s: Schema)
    requires IsPrimitive(s) && Conforms(w, s) && At(buf, pos, Serialize(w, s)) && pos <= |buf|
    requires depth <= MAX_DEPTH && n <= MAX_ELEMENTS
    ensures Reads(ReadingOf(w, s), depth, n, pos + |Serialize(w, s)|, DecodePrimitive(buf, pos, n, s))
  {
    hide At, LongBytes, ReadLongAt, SizedAt;
    if s.SInt? || s.SLong? || s.SEnum? {
      VarintReads(buf, pos, n, depth, w, s);
    } else if s.SFloat? || s.SDouble? || s.SFixed? {
      RawReads(buf, pos, n, depth, w, s);
    } else if s.SBytes? || s.SString? {
      SizedDataReads(buf, pos, n, depth, w, s);
    } else if s.SBoolean? {
      AtByte(buf, pos, w.b);
    }
  }

  lemma VarintReads(buf: bytes, pos: nat, n: nat, depth: nat, w: Wire, s: Schema)
    requires (s.SInt? || s.SLong? || s.SEnum?) && Conforms(w, s) && At(buf, pos, Serialize(w, s)) && pos <= |buf|
    requires depth <= MAX_DEPTH && n <= MAX_ELEMENTS
    ensures Reads(ReadingOf(w, s), depth, n, pos + |Serialize(w, s)|, DecodePrimitive(buf, pos, n, s))
  {
    hide At, LongBytes, ReadLongAt, AsInt, AvroVarint.Fits, RawAt, SizedAt, SymbolValue, LongValue;
    LongRead(buf, pos, w.n);
  }

  lemma RawReads(buf: bytes, pos: nat, n: nat, depth: nat, w: Wire, s: Schema)
    requires (s.SFloat? || s.SDouble? || s.SFixed?) && Conforms(w, s) && At(buf, pos, Serialize(w, s)) && pos <= |buf|
    requires depth <= MAX_DEPTH && n <= MAX_ELEMENTS
    ensures Reads(ReadingOf(w, s), depth, n, pos + |Serialize(w, s)|, DecodePrimitive(buf, pos, n, s))
  {
    hide At;
    AtSlice(buf, pos, w.data);
  }

  lemma SizedDataReads(buf: bytes, pos: nat, n: nat, depth: nat, w: Wire, s: Schema)
    requires (s.SBytes? || s.SString?) && Conforms(w, s) && At(buf, pos, Serialize(w, s)) && pos <= |buf|
    requires depth <= MAX_DEPTH && n <= MAX_ELEMENTS
    ensures Reads(ReadingOf(w, s), depth, n, pos + |Serialize(w, s)|, DecodePrimitive(buf, pos, n, s))
  {
    hide At, LongBytes, ReadLongAt, SizedAt, Sized;
    SizedReads(buf, pos, n, w.data);
  }

  lemma KeyReads(buf: bytes, pos: nat, n: nat, key: bytes, keyed: bool)
    requires IsLong(|key|) && (keyed || key == []) && At(buf, pos, KeyBytes(key, keyed)) && pos <= |buf|
    ensures if |key| <= MAX_STRING_BYTES then KeyAt(buf, pos, n, keyed) == Done(key, pos + |KeyBytes(key, keyed)|, n)
            else KeyAt(buf, pos, n, keyed).Fail?
  {
    hide At;
    if keyed {
      SizedReads(buf, pos, n, key);
    }
  }

  lemma BlockHeadReads(buf: bytes, pos: nat, b: Block)
    requires ValidBlock(b) && At(buf, pos, BlockHeadBytes(b))
    ensures BlockHead(buf, pos) == Read(|b.entries|, pos + |BlockHeadBytes(b)|)
  {
    hide At, LongBytes, ReadLongAt;
    var count := |b.entries|;
    if b.size.Some? {
      AtConcat(buf, pos, LongBytes(-count), LongBytes(b.size.value));
      LongRead(buf, pos, -count);
      LongRead(buf, pos + |LongBytes(-count)|, b.size.value);
    } else {
      LongRead(buf, pos, count);
    }
  }

  lemma EndReads(buf: bytes, pos: nat)
    requires At(buf, pos, [0])
    ensures BlockHead(buf, pos) == Read(0, pos + 1)
  {
    AtByte(buf, pos, 0);
    assert ReadLongAt(buf, pos) == Read(UnZigZag(0 * Pow2(0)), pos + 1);
  }

  // ---- putting rows together -------------------------------------------------------

  function Then(first: Out<seq<DProp>>, rest: Out<seq<DProp>>): Out<seq<DProp>> {
    match first
    case Fail(e) => Fail(e)
    case Done(front, _, _) => Prepend(front, rest)
  }

  lemma ReadsThen(a: Row, b: Row, depth: nat, n: nat, mid: nat, end: nat, first: Out<seq<DProp>>, rest: Out<seq<DProp>>)
    requires Reads(a, depth, n, mid, first)
    requires first.Done? ==> Reads(b, depth, first.n, end, rest)
    ensures Reads(Plus(a, b), depth, n, end, Then(first, rest))
  {
  }

  lemma ReadsEnd(x: Row, depth: nat, n: nat, end: nat, r: Out<seq<DProp>>)
    requires Reads(x, depth, n, end, r)
    ensures r.Done? ==> r.pos == end && r.n <= MAX_ELEMENTS
  {
  }

  function NamedOut(name: bytes, r: Out<DVal>): Out<seq<DProp>> {
    match r
    case Fail(e) => Fail(e)
    case Done(v, p, n) => Done([Property(name, v)], p, n)
  }

  lemma ReadsField(x: Reading<DVal>, name: bytes, depth: nat, n: nat, end: nat, r: Out<DVal>)
    requires Reads(x, depth + 1, n + 1, end, r)
    ensures Reads(OneField(name, x), depth, n, end, NamedOut(name, r))
    ensures |name| <= MAX_STRING_BYTES ==> Reads(One(name, x), depth, n, end, NamedOut(name, r))
  {
  }

  /** The first entry of a block. */
  function EntryAt(buf: bytes, pos: nat, n: nat, s: Schema, keyed: bool, depth: nat): (r: Out<seq<DProp>>)
    requires pos <= |buf|
    ensures r.Done? ==> pos <= r.pos <= |buf|
  {
    if n + 1 > MAX_ELEMENTS then Fail(ElementLimit)
    else
      match KeyAt(buf, pos, n + 1, keyed)
      case Fail(e) => Fail(e)
      case Done(key, p, n') => NamedOut(key, DecodeValue(buf, p, n', s, depth))
  }

  lemma EntriesStep(buf: bytes, pos: nat, n: nat, s: Schema, keyed: bool, depth: nat, left: nat)
    requires pos <= |buf| && left > 0
    ensures DecodeEntries(buf, pos, n, s, keyed, depth, left, [])
         == var first := EntryAt(buf, pos, n, s, keyed, depth);
            if first.Fail? then Fail(first.error)
            else Prepend(first.value, DecodeEntries(buf, first.pos, first.n, s, keyed, depth, left - 1, []))
  {
    hide DecodeValue, KeyAt;
    var first := EntryAt(buf, pos, n, s, keyed, depth);
    if first.Done? {
      assert [] + first.value == first.value;
      EntriesAcc(buf, first.pos, first.n, s, keyed, depth, left - 1, first.value);
    }
  }

  lemma NotRead(x: Reading<DVal>, name: bytes, depth: nat, n: nat, end: nat, r: Out<seq<DProp>>)
    requires r.Fail? && (n + 1 > MAX_ELEMENTS || |name| > MAX_STRING_BYTES)
    ensures Reads(One(name, x), depth, n, end, r)
  {
  }

  lemma {:induction false} EntryReads(buf: bytes, pos: nat, n: nat, depth: nat, e: Entry, s: Schema, keyed: bool)
    requires IsLong(|e.key|) && (keyed || e.key == []) && Conforms(e.item, s)
    requires At(buf, pos, KeyBytes(e.key, keyed) + Serialize(e.item, s)) && pos <= |buf|
    requires depth <= MAX_DEPTH && n <= MAX_ELEMENTS
    ensures Reads(One(e.key, ReadingOf(e.item, s)), depth, n, pos + |KeyBytes(e.key, keyed)| + |Serialize(e.item, s)|,
                  EntryAt(buf, pos, n, s, keyed, depth + 1))
    decreases e, 0
  {
    hide At, DecodeValue, Serialize, KeyAt, KeyBytes, Conforms, ReadingOf, Reads, One, OneField, AvroVarint.Fits;
    var head, x, r := KeyBytes(e.key, keyed), ReadingOf(e.item, s), EntryAt(buf, pos, n, s, keyed, depth + 1);
    var at := pos + |head|;
    var end := at + |Serialize(e.item, s)|;
    if n + 1 <= MAX_ELEMENTS {
      AtConcat(buf, pos, head, Serialize(e.item, s));
      KeyReads(buf, pos, n + 1, e.key, keyed);
      if |e.key| <= MAX_STRING_BYTES {
        WireReads(buf, at, n + 1, depth + 1, e.item, s);
        ReadsField(x, e.key, depth, n, end, DecodeValue(buf, at, n + 1, s, depth + 1));
      } else {
        NotRead(x, e.key, depth, n, end, r);
      }
    } else {
      NotRead(x, e.key, depth, n, end, r);
    }
  }

  lemma NoneRead(buf: bytes, pos: nat, n: nat, depth: nat, s: Schema, keyed: bool)
    requires pos <= |buf| && depth <= MAX_DEPTH && n <= MAX_ELEMENTS
    ensures Reads(NOTHING, depth, n, pos, DecodeEntries(buf, pos, n, s, keyed, depth + 1, 0, []))
  {
  }

  lemma EntriesStart(buf: bytes, pos: nat, entries: seq<Entry>, s: Schema, keyed: bool) returns (mid: nat)
    requires entries != [] && EntriesConform(entries, s, keyed) && At(buf, pos, SerializeEntries(entries, s, keyed))
    ensures At(buf, pos, KeyBytes(entries[0].key, keyed) + Serialize(entries[0].item, s))
    ensures mid == pos + |KeyBytes(entries[0].key, keyed)| + |Serialize(entries[0].item, s)|
    ensures At(buf, mid, SerializeEntries(entries[1..], s, keyed))
    ensures pos + |SerializeEntries(entries, s, keyed)| == mid + |SerializeEntries(entries[1..], s, keyed)|
  {
    hide At, KeyBytes, Serialize, Conforms;
    var head := KeyBytes(entries[0].key, keyed) + Serialize(entries[0].item, s);
    mid := pos + |head|;
    AtConcat(buf, pos, head, SerializeEntries(entries[1..], s, keyed));
  }

  lemma {:induction false} EntriesRead(buf: bytes, pos: nat, n: nat, depth: nat, entries: seq<Entry>, s: Schema, keyed: bool)
    requires EntriesConform(entries, s, keyed) && At(buf, pos, SerializeEntries(entries, s, keyed)) && pos <= |buf|
    requires depth <= MAX_DEPTH && n <= MAX_ELEMENTS
    ensures Reads(EntriesReading(entries, s, keyed), depth, n, pos + |SerializeEntries(entries, s, keyed)|,
                  DecodeEntries(buf, pos, n, s, keyed, depth + 1, |entries|, []))
    decreases entries, 0
  {
    hide At, Serialize, KeyBytes, Conforms, ReadingOf, EntryAt, Reads, DecodeEntries, Plus, One;
    if entries == [] {
      NoneRead(buf, pos, n, depth, s, keyed);
    } else {
      var e, rest := entries[0], entries[1..];
      var mid := EntriesStart(buf, pos, entries, s, keyed);
      EntryReads(buf, pos, n, depth, e, s, keyed);
      EntriesStep(buf, pos, n, s, keyed, depth + 1, |entries|);
      var first, one := EntryAt(buf, pos, n, s, keyed, depth + 1), One(e.key, ReadingOf(e.item, s));
      ReadsEnd(one, depth, n, mid, first);
      var others := Fail(UnexpectedEnd);
      if first.Done? {
        EntriesRead(buf, mid, first.n, depth, rest, s, keyed);
        others := DecodeEntries(buf, mid, first.n, s, keyed, depth + 1, |rest|, []);
      }
      ReadsThen(one, EntriesReading(rest, s, keyed), depth, n, mid, pos + |SerializeEntries(entries, s, keyed)|, first, others);
    }
  }

  lemma BlocksStart(buf: bytes, pos: nat, blocks: seq<Block>, s: Schema, keyed: bool) returns (at: nat, mid: nat)
    requires blocks != [] && BlocksConform(blocks, s, keyed) && At(buf, pos, SerializeBlocks(blocks, s, keyed))
    ensures BlockHead(buf, pos) == Read(|blocks[0].entries|, at)
    ensures At(buf, at, SerializeEntries(blocks[0].entries, s, keyed)) && mid == at + |SerializeEntries(blocks[0].entries, s, keyed)|
    ensures At(buf, mid, SerializeBlocks(blocks[1..], s, keyed)) && mid <= |buf|
    ensures pos + |SerializeBlocks(blocks, s, keyed)| == mid + |SerializeBlocks(blocks[1..], s, keyed)|
  {
    hide At, BlockHead, BlockHeadBytes, SerializeEntries;
    var head, body := BlockHeadBytes(blocks[0]), SerializeEntries(blocks[0].entries, s, keyed);
    var tail := SerializeBlocks(blocks[1..], s, keyed);
    AtConcat(buf, pos, head + body, tail);
    AtConcat(buf, pos, head, body);
    BlockHeadReads(buf, pos, blocks[0]);
    at, mid := pos + |head|, pos + |head| + |body|;
    AtSlice(buf, mid, tail);
  }

  lemma BlocksStep(buf: bytes, pos: nat, n: nat, s: Schema, keyed: bool, depth: nat)
    requires pos <= |buf| && BlockHead(buf, pos).Read? && BlockHead(buf, pos).value > 0
    ensures DecodeBlocks(buf, pos, n, s, keyed, depth, [])
         == var head := BlockHead(buf, pos);
            var first := DecodeEntries(buf, head.pos, n, s, keyed, depth, head.value, []);
            if first.Fail? then Fail(first.error)
            else Prepend(first.value, DecodeBlocks(buf, first.pos, first.n, s, keyed, depth, []))
  {
    hide DecodeEntries, BlockHead;
    var head := BlockHead(buf, pos);
    var first := DecodeEntries(buf, head.pos, n, s, keyed, depth, head.value, []);
    if first.Done? {
      BlocksAcc(buf, first.pos, first.n, s, keyed, depth, first.value);
    }
  }

  lemma NoBlocksRead(buf: bytes, pos: nat, n: nat, depth: nat, s: Schema, keyed: bool)
    requires At(buf, pos, [0]) && pos <= |buf| && depth <= MAX_DEPTH && n <= MAX_ELEMENTS
    ensures Reads(NOTHING, depth, n, pos + 1, DecodeBlocks(buf, pos, n, s, keyed, depth + 1, []))
  {
    EndReads(buf, pos);
  }

  /** The blocks after the first one, read or not. */
  function OthersAt(buf: bytes, s: Schema, keyed: bool, depth: nat, first: Out<seq<DProp>>): Out<seq<DProp>>
    requires first.Done? ==> first.pos <= |buf|
  {
    if first.Done? then DecodeBlocks(buf, first.pos, first.n, s, keyed, depth, []) else Fail(UnexpectedEnd)
  }

  lemma BlocksCombine(buf: bytes, pos: nat, n: nat, depth: nat, blocks: seq<Block>, s: Schema, keyed: bool, at: nat, mid: nat)
    requires blocks != [] && BlocksConform(blocks, s, keyed) && pos <= |buf|
    requires BlockHead(buf, pos) == Read(|blocks[0].entries|, at)
    requires var first := DecodeEntries(buf, at, n, s, keyed, depth + 1, |blocks[0].entries|, []);
             && Reads(EntriesReading(blocks[0].entries, s, keyed), depth, n, mid, first)
             && (first.Done? ==> Reads(BlocksReading(blocks[1..], s, keyed), depth, first.n, pos + |SerializeBlocks(blocks, s, keyed)|,
                                       OthersAt(buf, s, keyed, depth + 1, first)))
    ensures Reads(BlocksReading(blocks, s, keyed), depth, n, pos + |SerializeBlocks(blocks, s, keyed)|,
                  DecodeBlocks(buf, pos, n, s, keyed, depth + 1, []))
  {
    hide BlockHead, SerializeBlocks, EntriesReading, DecodeEntries, Plus, Reads, DecodeBlocks, EntriesConform;
    BlocksStep(buf, pos, n, s, keyed, depth + 1);
    var first := DecodeEntries(buf, at, n, s, keyed, depth + 1, |blocks[0].entries|, []);
    ReadsThen(EntriesReading(blocks[0].entries, s, keyed), BlocksReading(blocks[1..], s, keyed), depth, n, mid,
              pos + |SerializeBlocks(blocks, s, keyed)|, first, OthersAt(buf, s, keyed, depth + 1, first));
  }

  lemma {:induction false} BlocksRead(buf: bytes, pos: nat, n: nat, depth: nat, blocks: seq<Block>, s: Schema, keyed: bool)
    requires BlocksConform(blocks, s, keyed) && At(buf, pos, SerializeBlocks(blocks, s, keyed)) && pos <= |buf|
    requires depth <= MAX_DEPTH && n <= MAX_ELEMENTS
    ensures Reads(BlocksReading(blocks, s, keyed), depth, n, pos + |SerializeBlocks(blocks, s, keyed)|,
                  DecodeBlocks(buf, pos, n, s, keyed, depth + 1, []))
    decreases blocks, 1
  {
    hide At, BlockHead, SerializeBlocks, SerializeEntries, EntriesReading, DecodeEntries, Reads, DecodeBlocks, EntriesConform, ValidBlock;
    if blocks == [] {
      assert SerializeBlocks([], s, keyed) == [0] by { EmptyBlocks(s, keyed); }
      NoBlocksRead(buf, pos, n, depth, s, keyed);
    } else {
      var entries := blocks[0].entries;
      var at, mid := BlocksStart(buf, pos, blocks, s, keyed);
      EntriesRead(buf, at, n, depth, entries, s, keyed);
      var first := DecodeEntries(buf, at, n, s, keyed, depth + 1, |entries|, []);
      ReadsEnd(EntriesReading(entries, s, keyed), depth, n, mid, first);
      if first.Done? {
        BlocksRead(buf, mid, first.n, depth, blocks[1..], s, keyed);
      }
      BlocksCombine(buf, pos, n, depth, blocks, s, keyed, at, mid);
    }
  }

  lemma EmptyBlocks(s: Schema, keyed: bool)
    ensures SerializeBlocks([], s, keyed) == [0]
  {
  }

  lemma FieldsStep(buf: bytes, pos: nat, n: nat, fields: seq<Field>, depth: nat)
    requires pos <= |buf| && fields != [] && n + 1 <= MAX_ELEMENTS
    ensures DecodeFields(buf, pos, n, fields, depth, [])
         == var first := NamedOut(fields[0].name, DecodeValue(buf, pos, n + 1, fields[0].schema, depth));
            if first.Fail? then Fail(first.error)
            else Prepend(first.value, DecodeFields(buf, first.pos, first.n, fields[1..], depth, []))
  {
    hide DecodeValue;
    var first := NamedOut(fields[0].name, DecodeValue(buf, pos, n + 1, fields[0].schema, depth));
    if first.Done? {
      assert [] + first.value == first.value;
      FieldsAcc(buf, first.pos, first.n, fields[1..], depth, first.value);
    }
  }

  lemma {:induction false} PartsRead(buf: bytes, pos: nat, n: nat, depth: nat, parts: seq<Wire>, fields: seq<Field>)
    requires PartsConform(parts, fields) && At(buf, pos, SerializeParts(parts, fields)) && pos <= |buf|
    requires depth <= MAX_DEPTH && n <= MAX_ELEMENTS
    ensures Reads(PartsReading(parts, fields), depth, n, pos + |SerializeParts(parts, fields)|,
                  DecodeFields(buf, pos, n, fields, depth + 1, []))
    decreases parts, 0
  {
    hide At, DecodeValue, Serialize, Conforms, ReadingOf;
    if parts != [] && n + 1 <= MAX_ELEMENTS {
      var f, w, rest := fields[0], parts[0], parts[1..];
      var at := pos + |Serialize(w, f.schema)|;
      AtConcat(buf, pos, Serialize(w, f.schema), SerializeParts(rest, fields[1..]));
      WireReads(buf, pos, n + 1, depth + 1, w, f.schema);
      FieldsStep(buf, pos, n, fields, depth + 1);
      ReadsField(ReadingOf(w, f.schema), f.name, depth, n, at, DecodeValue(buf, pos, n + 1, f.schema, depth + 1));
      var first := NamedOut(f.name, DecodeValue(buf, pos, n + 1, f.schema, depth + 1));
      var others := Fail(UnexpectedEnd);
      if first.Done? {
        PartsRead(buf, first.pos, first.n, depth, rest, fields[1..]);
        others := DecodeFields(buf, first.pos, first.n, fields[1..], depth + 1, []);
      }
      ReadsThen(OneField(f.name, ReadingOf(w, f.schema)), PartsReading(rest, fields[1..]), depth, n, at,
                pos + |SerializeParts(parts, fields)|, first, others);
    }
  }

  /** Main lemma: every conforming form is read as its meaning, up to its end, at its cost. */
  lemma {:induction false} WireReads(buf: bytes, pos: nat, n: nat, depth: nat, w: Wire, s: Schema)
    requires Conforms(w, s) && At(buf, pos, Serialize(w, s)) && pos <= |buf| && n <= MAX_ELEMENTS
    ensures Reads(ReadingOf(w, s), depth, n, pos + |Serialize(w, s)|, DecodeValue(buf, pos, n, s, depth))
    decreases w, 2
  {
    if depth <= MAX_DEPTH {
      hide At, LongBytes, ReadLongAt, DecodeFields, DecodeBlocks, DecodePrimitive, SerializeParts, SerializeBlocks;
      if s.SRecord? {
        RecordReads(buf, pos, n, depth, w, s);
      } else if s.SArray? || s.SMap? {
        GroupReads(buf, pos, n, depth, w, s);
      } else if s.SUnion? {
        BranchReads(buf, pos, n, depth, w, s);
      } else {
        hide Reads;
        PrimitiveReads(buf, pos, n, depth, w, s);
      }
    }
  }

  lemma {:induction false} RecordReads(buf: bytes, pos: nat, n: nat, depth: nat, w: Wire, s: Schema)
    requires s.SRecord? && Conforms(w, s) && At(buf, pos, Serialize(w, s)) && pos <= |buf|
    requires depth <= MAX_DEPTH && n <= MAX_ELEMENTS
    ensures Reads(ReadingOf(w, s), depth, n, pos + |Serialize(w, s)|, DecodeValue(buf, pos, n, s, depth))
    decreases w, 1
  {
    hide At, DecodeFields, SerializeParts, PartsReading;
    PartsRead(buf, pos, n, depth, w.parts, s.fields);
  }

  lemma {:induction false} GroupReads(buf: bytes, pos: nat, n: nat, depth: nat, w: Wire, s: Schema)
    requires (s.SArray? || s.SMap?) && Conforms(w, s) && At(buf, pos, Serialize(w, s)) && pos <= |buf|
    requires depth <= MAX_DEPTH && n <= MAX_ELEMENTS
    ensures Reads(ReadingOf(w, s), depth, n, pos + |Serialize(w, s)|, DecodeValue(buf, pos, n, s, depth))
    decreases w, 1
  {
    hide At, DecodeBlocks, SerializeBlocks, BlocksReading;
    if s.SArray? {
      BlocksRead(buf, pos, n, depth, w.blocks, s.items, false);
    } else {
      BlocksRead(buf, pos, n, depth, w.blocks, s.values, true);
    }
  }

  lemma {:induction false} BranchReads(buf: bytes, pos: nat, n: nat, depth: nat, w: Wire, s: Schema)
    requires s.SUnion? && Conforms(w, s) && At(buf, pos, Serialize(w, s)) && pos <= |buf|
    requires depth <= MAX_DEPTH && n <= MAX_ELEMENTS
    ensures Reads(ReadingOf(w, s), depth, n, pos + |Serialize(w, s)|, DecodeValue(buf, pos, n, s, depth))
    decreases w, 1
  {
    hide At, LongBytes, ReadLongAt, AvroVarint.Fits, DecodePrimitive, DecodeBlocks, DecodeFields;
    var branch, head := s.branches[w.index], LongBytes(w.index);
    AtConcat(buf, pos, head, Serialize(w.part, branch));
    LongRead(buf, pos, w.index);
    WireReads(buf, pos + |head|, n, depth + 1, w.part, branch);
  }
}
