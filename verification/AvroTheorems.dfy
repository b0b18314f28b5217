/** What the encoder writes, the schema-directed round trip, and independence of the block layout. */
module AvroTheorems {
  import opened Bytes
  import opened AvroVarint
  import opened AvroCodec
  import opened Objects
  import opened AvroReading
  import opened AvroWire

  /** The form that the encoder writes: arrays and maps in one block of positive count, or none. */
  function WireOf(js: Runtime, v: JVal, s: Schema, depth: nat): Wire
    requires EncodeValue(js, v, s, depth).Ok?
    decreases s, 1
  {
    match s
    case SRecord(fields) => Parts(FieldWires(js, PropsOf(v), fields, depth + 1))
    case SArray(items) =>
      Blocks(if v.items == [] then [] else [Block(None, ItemEntries(js, v.items, items, depth + 1))])
    case SMap(values) =>
      var props := EntriesOf(js, v);
      Blocks(if props == [] then [] else [Block(None, PropEntries(js, props, values, depth + 1))])
    case SUnion(branches) =>
      var b := BranchOf(v, branches).value;
      Branch(b.0, WireOf(js, b.1, branches[b.0], depth + 1))
    case SNull => Empty
    case SBoolean => Flag(if Truthy(v) then 1 else 0)
    case SInt => Varint(IntOf(js, v).value)
    case SLong => Varint(UnZigZag(ZigZag(LongOf(js, v).value, 64)))
    case SEnum(symbols) => Varint(AsInt(EnumIndexOf(symbols, v).value, 32))
    case SFloat => Raw(js.single(ToNumber(js, v).value))
    case SDouble => Raw(js.double(ToNumber(js, v).value))
    case SFixed(_) => Raw(BytesOf(js, v).value)
    case SBytes => SizedData(BytesOf(js, v).value)
    case SString => SizedData(ToText(js, v).value)
  }

  function FieldWires(js: Runtime, props: seq<Prop>, fields: seq<Field>, depth: nat): (ws: seq<Wire>)
    requires EncodeFields(js, props, fields, depth).Ok?
    ensures |ws| == |fields|
    decreases fields, 0
  {
    if fields == [] then []
    else [WireOf(js, FieldValue(props, fields[0]).value, fields[0].schema, depth)] + FieldWires(js, props, fields[1..], depth)
  }

  function ItemEntries(js: Runtime, items: seq<JVal>, s: Schema, depth: nat): (es: seq<Entry>)
    requires EncodeItems(js, items, s, depth).Ok?
    ensures |es| == |items|
    decreases s, 2, |items|
  {
    if items == [] then [] else [Entry([], WireOf(js, items[0], s, depth))] + ItemEntries(js, items[1..], s, depth)
  }

  function PropEntries(js: Runtime, props: seq<Prop>, s: Schema, depth: nat): (es: seq<Entry>)
    requires EncodeProps(js, props, s, depth).Ok?
    ensures |es| == |props|
    decreases s, 2, |props|
  {
    if props == [] then []
    else [Entry(props[0].name, WireOf(js, props[0].value, s, depth))] + PropEntries(js, props[1..], s, depth)
  }

  /** Every length and index is a 64-bit integer, as it is for all arrays and buffers there can be. */
  predicate LengthsFit(w: Wire)
    decreases w, 2
  {
    match w
    case SizedData(data) => IsLong(|data|)
    case Parts(parts) => PartLengthsFit(parts)
    case Blocks(blocks) => BlockLengthsFit(blocks)
    case Branch(i, part) => IsLong(i) && LengthsFit(part)
    case _ => true
  }

  predicate PartLengthsFit(parts: seq<Wire>)
    decreases parts, 0
  {
    parts == [] || (LengthsFit(parts[0]) && PartLengthsFit(parts[1..]))
  }

  predicate BlockLengthsFit(blocks: seq<Block>)
    decreases blocks, 1
  {
    blocks == [] ||
    (IsLong(|blocks[0].entries|) && IsLong(-|blocks[0].entries|) && EntryLengthsFit(blocks[0].entries) && BlockLengthsFit(blocks[1..]))
  }

  predicate EntryLengthsFit(entries: seq<Entry>)
    decreases entries, 0
  {
    entries == [] || (IsLong(|entries[0].key|) && LengthsFit(entries[0].item) && EntryLengthsFit(entries[1..]))
  }

  // ---- the encoder writes the form, which means the normal form --------------------

  /** `w` stands for `data`, lies within the depth limit from `depth` on, and means `norm`. */
  ghost predicate Stands(w: Wire, s: Schema, depth: nat, data: bytes, norm: Option<DVal>) {
    && Conforms(w, s)
    && Serialize(w, s) == data
    && depth + ReadingOf(w, s).height <= 64
    && ReadingOf(w, s).meaning == norm
  }

  ghost predicate RowStands(row: Row, depth: nat, norm: Option<seq<DProp>>) {
    depth <= MAX_DEPTH + 1 && (row.height == 0 || depth - 1 + row.height <= MAX_DEPTH) && row.meaning == norm
  }

  lemma PrimitiveStands(js: Runtime, v: JVal, s: Schema, depth: nat)
    requires IsPrimitive(s) && EncodeValue(js, v, s, depth).Ok?
    requires LengthsFit(WireOf(js, v, s, depth))
    ensures Stands(WireOf(js, v, s, depth), s, depth, EncodeValue(js, v, s, depth).value, Norm(js, v, s, depth))
  {
    hide Stands, EncodePrimitive, WireOf, Norm;
    if s.SInt? {
      IntStands(js, v, s, depth);
    } else if s.SLong? {
      LongStands(js, v, s, depth);
    } else if s.SEnum? {
      EnumStands(js, v, s, depth);
    } else if s.SBytes? || s.SString? {
      DataStands(js, v, s, depth);
    } else {
      PlainStands(js, v, s, depth);
    }
  }

  lemma IntStands(js: Runtime, v: JVal, s: Schema, depth: nat)
    requires s.SInt? && EncodeValue(js, v, s, depth).Ok?
    ensures Stands(WireOf(js, v, s, depth), s, depth, EncodeValue(js, v, s, depth).value, Norm(js, v, s, depth))
  {
    hide LongBytes, IntBytes, AvroVarint.Fits, AsInt, ToNumber;
    IntFits(IntOf(js, v).value);
  }

  lemma LongStands(js: Runtime, v: JVal, s: Schema, depth: nat)
    requires s.SLong? && EncodeValue(js, v, s, depth).Ok?
    ensures Stands(WireOf(js, v, s, depth), s, depth, EncodeValue(js, v, s, depth).value, Norm(js, v, s, depth))
  {
    hide LongBytes, AvroVarint.Fits, ZigZag, UnZigZag, LongValue, LongOf;
    LongWritten(LongOf(js, v).value);
  }

  lemma DataStands(js: Runtime, v: JVal, s: Schema, depth: nat)
    requires (s.SBytes? || s.SString?) && EncodeValue(js, v, s, depth).Ok?
    requires LengthsFit(WireOf(js, v, s, depth))
    ensures Stands(WireOf(js, v, s, depth), s, depth, EncodeValue(js, v, s, depth).value, Norm(js, v, s, depth))
  {
    hide LongBytes, AvroVarint.Fits;
  }

  lemma PlainStands(js: Runtime, v: JVal, s: Schema, depth: nat)
    requires s.SNull? || s.SBoolean? || s.SFloat? || s.SDouble? || s.SFixed? || s.Other?
    requires EncodeValue(js, v, s, depth).Ok?
    ensures Stands(WireOf(js, v, s, depth), s, depth, EncodeValue(js, v, s, depth).value, Norm(js, v, s, depth))
  {
    hide ToNumber;
  }

  lemma EnumStands(js: Runtime, v: JVal, s: Schema, depth: nat)
    requires s.SEnum? && EncodeValue(js, v, s, depth).Ok?
    ensures Stands(WireOf(js, v, s, depth), s, depth, EncodeValue(js, v, s, depth).value, Norm(js, v, s, depth))
  {
    hide LongBytes, AvroVarint.Fits, AsInt, EnumIndexOf, ZigZag, VarBytes;
    var i := EnumIndexOf(s.symbols, v).value;
    AsIntFits(i, 32);
    IntFits(AsInt(i, 32));
    assert EncodePrimitive(js, v, s) == Ok(IntBytes(i));
    assert IntBytes(i) == IntBytes(AsInt(i, 32));
  }

  lemma IntFits(n: int)
    requires -0x8000_0000 <= n <= 0x7FFF_FFFF || AvroVarint.Fits(n, 32)
    ensures AvroVarint.Fits(n, 32) && IsLong(n) && IntBytes(n) == LongBytes(n) && AsInt(n, 32) == n
  {
    Pow2Values();
    Pow2Grows(31, 63);
    AsIntFits(n, 32);
    IntBytesAreLongBytes(n);
  }

  lemma LongWritten(n: int)
    ensures IsLong(UnZigZag(ZigZag(n, 64))) && LongBytes(UnZigZag(ZigZag(n, 64))) == LongBytes(n)
  {
    AtSlice(LongBytes(n), 0, LongBytes(n));
    LongReadAny(LongBytes(n), 0, n);
  }

  /** Whatever the encoder accepts it writes in a form that conforms and means the normal form. */
  lemma {:induction false} ValueStands(js: Runtime, v: JVal, s: Schema, depth: nat)
    requires EncodeValue(js, v, s, depth).Ok? && LengthsFit(WireOf(js, v, s, depth))
    ensures Stands(WireOf(js, v, s, depth), s, depth, EncodeValue(js, v, s, depth).value, Norm(js, v, s, depth))
    decreases s, 1
  {
    hide Stands, EncodeValue, WireOf, Norm, LengthsFit;
    if s.SRecord? {
      RecordStands(js, v, s, depth);
    } else if s.SArray? {
      ArrayStands(js, v, s, depth);
    } else if s.SMap? {
      MapStands(js, v, s, depth);
    } else if s.SUnion? {
      UnionStands(js, v, s, depth);
    } else {
      PrimitiveStands(js, v, s, depth);
    }
  }

  lemma {:induction false} RecordStands(js: Runtime, v: JVal, s: Schema, depth: nat)
    requires s.SRecord? && EncodeValue(js, v, s, depth).Ok? && LengthsFit(WireOf(js, v, s, depth))
    ensures Stands(WireOf(js, v, s, depth), s, depth, EncodeValue(js, v, s, depth).value, Norm(js, v, s, depth))
    decreases s, 0
  {
    hide EncodeFields, FieldWires, NormFields, PartsReading, SerializeParts, PartsConform, PartLengthsFit;
    FieldsStand(js, PropsOf(v), s.fields, depth + 1);
  }

  lemma {:induction false} UnionStands(js: Runtime, v: JVal, s: Schema, depth: nat)
    requires s.SUnion? && EncodeValue(js, v, s, depth).Ok? && LengthsFit(WireOf(js, v, s, depth))
    ensures Stands(WireOf(js, v, s, depth), s, depth, EncodeValue(js, v, s, depth).value, Norm(js, v, s, depth))
    decreases s, 0
  {
    hide BranchOf, LongBytes, EncodePrimitive;
    var b := BranchOf(v, s.branches).value;
    ValueStands(js, b.1, s.branches[b.0], depth + 1);
  }

  lemma {:induction false} FieldsStand(js: Runtime, props: seq<Prop>, fields: seq<Field>, depth: nat)
    requires EncodeFields(js, props, fields, depth).Ok? && PartLengthsFit(FieldWires(js, props, fields, depth))
    requires 1 <= depth <= MAX_DEPTH + 1
    ensures PartsConform(FieldWires(js, props, fields, depth), fields)
    ensures SerializeParts(FieldWires(js, props, fields, depth), fields) == EncodeFields(js, props, fields, depth).value
    ensures RowStands(PartsReading(FieldWires(js, props, fields, depth), fields), depth, NormFields(js, props, fields, depth))
    decreases fields, 0
  {
    hide EncodeValue, Norm, WireOf, Conforms, Serialize, ReadingOf, LengthsFit;
    if fields != [] {
      var ws, v := FieldWires(js, props, fields, depth), FieldValue(props, fields[0]).value;
      assert ws[1..] == FieldWires(js, props, fields[1..], depth);
      ValueStands(js, v, fields[0].schema, depth);
      FieldsStand(js, props, fields[1..], depth);
    }
  }

  lemma {:induction false} ItemsStand(js: Runtime, items: seq<JVal>, s: Schema, depth: nat)
    requires EncodeItems(js, items, s, depth).Ok? && EntryLengthsFit(ItemEntries(js, items, s, depth))
    requires 1 <= depth <= MAX_DEPTH + 1
    ensures EntriesConform(ItemEntries(js, items, s, depth), s, false)
    ensures SerializeEntries(ItemEntries(js, items, s, depth), s, false) == EncodeItems(js, items, s, depth).value
    ensures var row := EntriesReading(ItemEntries(js, items, s, depth), s, false);
            var vs := NormItems(js, items, s, depth);
            RowStands(row, depth, row.meaning) && (row.meaning.Some? <==> vs.Some?)
            && (vs.Some? ==> Values(row.meaning.value) == vs.value)
    decreases s, 2, |items|
  {
    hide EncodeValue, Norm, WireOf, Conforms, Serialize, ReadingOf, LengthsFit, LongBytes, AvroVarint.Fits;
    if items != [] {
      var es, rest := ItemEntries(js, items, s, depth), ItemEntries(js, items[1..], s, depth);
      assert es[1..] == rest;
      ValueStands(js, items[0], s, depth);
      ItemsStand(js, items[1..], s, depth);
      var row, x := EntriesReading(rest, s, false).meaning, Norm(js, items[0], s, depth);
      var w := WireOf(js, items[0], s, depth);
      assert EntriesReading(es, s, false) == Plus(One([], ReadingOf(w, s)), EntriesReading(rest, s, false));
      assert SerializeEntries(es, s, false) == KeyBytes([], false) + Serialize(w, s) + SerializeEntries(rest, s, false);
      assert KeyBytes([], false) == [];
      if x.Some? && row.Some? {
        var props := [Property([], x.value)] + row.value;
        assert props[1..] == row.value;
      }
    }
  }

  lemma RowStandsMore(name: bytes, r: Reading<DVal>, row: Row, depth: nat, x: Option<DVal>, rest: Option<seq<DProp>>)
    requires depth + r.height <= MAX_DEPTH && r.meaning == x && RowStands(row, depth, rest)
    ensures RowStands(Plus(One(name, r), row), depth,
                      if x.None? || rest.None? then None else Some([Property(name, x.value)] + rest.value))
  {
  }

  lemma {:induction false} PropsStand(js: Runtime, props: seq<Prop>, s: Schema, depth: nat)
    requires EncodeProps(js, props, s, depth).Ok? && EntryLengthsFit(PropEntries(js, props, s, depth))
    requires 1 <= depth <= MAX_DEPTH + 1
    ensures EntriesConform(PropEntries(js, props, s, depth), s, true)
    ensures SerializeEntries(PropEntries(js, props, s, depth), s, true) == EncodeProps(js, props, s, depth).value
    ensures RowStands(EntriesReading(PropEntries(js, props, s, depth), s, true), depth, NormProps(js, props, s, depth))
    decreases s, 2, |props|
  {
    hide EncodeValue, Norm, WireOf, Conforms, Serialize, ReadingOf, LengthsFit, LongBytes, AvroVarint.Fits, Sized, Plus, One;
    if props != [] {
      var es, rest := PropEntries(js, props, s, depth), PropEntries(js, props[1..], s, depth);
      assert es[1..] == rest;
      ValueStands(js, props[0].value, s, depth);
      PropsStand(js, props[1..], s, depth);
      var w := WireOf(js, props[0].value, s, depth);
      RowStandsMore(props[0].name, ReadingOf(w, s), EntriesReading(rest, s, true), depth,
                    Norm(js, props[0].value, s, depth), NormProps(js, props[1..], s, depth));
      assert EntriesReading(es, s, true) == Plus(One(props[0].name, ReadingOf(w, s)), EntriesReading(rest, s, true));
      assert SerializeEntries(es, s, true) == Sized(props[0].name) + Serialize(w, s) + SerializeEntries(rest, s, true);
    }
  }

  /** A row as the only block. */
  lemma OneBlock(b: Block, s: Schema, keyed: bool)
    requires ValidBlock(b) && b.size.None? && EntriesConform(b.entries, s, keyed)
    ensures BlocksConform([b], s, keyed)
    ensures SerializeBlocks([b], s, keyed) == LongBytes(|b.entries|) + SerializeEntries(b.entries, s, keyed) + [0]
    ensures BlocksReading([b], s, keyed) == EntriesReading(b.entries, s, keyed)
  {
    hide LongBytes, SerializeEntries, EntriesReading, EntriesConform;
    assert [b][1..] == [];
    var row := EntriesReading(b.entries, s, keyed);
    assert BlocksReading([b], s, keyed) == Plus(row, NOTHING);
    if row.meaning.Some? {
      assert row.meaning.value + [] == row.meaning.value;
    }
  }

  lemma BlocksOfSchema(blocks: seq<Block>, s: Schema)
    ensures s.SArray? && BlocksConform(blocks, s.items, false) ==>
      && Conforms(Blocks(blocks), s) && Serialize(Blocks(blocks), s) == SerializeBlocks(blocks, s.items, false)
      && ReadingOf(Blocks(blocks), s) == ArrayReading(BlocksReading(blocks, s.items, false))
    ensures s.SMap? && BlocksConform(blocks, s.values, true) ==>
      && Conforms(Blocks(blocks), s) && Serialize(Blocks(blocks), s) == SerializeBlocks(blocks, s.values, true)
      && ReadingOf(Blocks(blocks), s) == ObjectReading(BlocksReading(blocks, s.values, true))
  {
    hide BlocksConform, SerializeBlocks, BlocksReading;
  }

  lemma ArrayForm(es: seq<Entry>, s: Schema, depth: nat)
    requires s.SArray? && ValidBlock(Block(None, es)) && EntriesConform(es, s.items, false) && depth <= MAX_DEPTH
    requires var row := EntriesReading(es, s.items, false); RowStands(row, depth + 1, row.meaning)
    ensures Stands(Blocks([Block(None, es)]), s, depth, LongBytes(|es|) + SerializeEntries(es, s.items, false) + [0],
                   ArrayReading(EntriesReading(es, s.items, false)).meaning)
  {
    hide LongBytes, SerializeEntries, EntriesReading, EntriesConform, Values, ValidBlock, SerializeBlocks, BlocksReading, BlocksConform;
    hide Conforms, ReadingOf, Serialize;
    OneBlock(Block(None, es), s.items, false);
    BlocksOfSchema([Block(None, es)], s);
  }

  lemma MapForm(es: seq<Entry>, s: Schema, depth: nat)
    requires s.SMap? && ValidBlock(Block(None, es)) && EntriesConform(es, s.values, true) && depth <= MAX_DEPTH
    requires var row := EntriesReading(es, s.values, true); RowStands(row, depth + 1, row.meaning)
    ensures Stands(Blocks([Block(None, es)]), s, depth, LongBytes(|es|) + SerializeEntries(es, s.values, true) + [0],
                   ObjectReading(EntriesReading(es, s.values, true)).meaning)
  {
    hide LongBytes, SerializeEntries, EntriesReading, EntriesConform, PutAll, ValidBlock, SerializeBlocks, BlocksReading, BlocksConform;
    hide Conforms, ReadingOf, Serialize;
    OneBlock(Block(None, es), s.values, true);
    BlocksOfSchema([Block(None, es)], s);
  }

  lemma EmptyGroupStands(s: Schema, depth: nat)
    requires (s.SArray? || s.SMap?) && depth <= MAX_DEPTH
    ensures Stands(Blocks([]), s, depth, [0], Some(if s.SArray? then DArray([]) else DObject([])))
  {
  }

  lemma {:induction false} ArrayStands(js: Runtime, v: JVal, s: Schema, depth: nat)
    requires s.SArray? && EncodeValue(js, v, s, depth).Ok? && LengthsFit(WireOf(js, v, s, depth))
    ensures Stands(WireOf(js, v, s, depth), s, depth, EncodeValue(js, v, s, depth).value, Norm(js, v, s, depth))
    decreases s, 0
  {
    hide Stands, LongBytes, SerializeEntries, EntriesReading, EntriesConform, ItemEntries, EncodeItems, NormItems, Values, AvroVarint.Fits;
    if v.items == [] {
      EmptyGroupStands(s, depth);
    } else {
      var es := ItemEntries(js, v.items, s.items, depth + 1);
      assert [Block(None, es)][0] == Block(None, es);
      ItemsStand(js, v.items, s.items, depth + 1);
      ArrayForm(es, s, depth);
      assert WireOf(js, v, s, depth) == Blocks([Block(None, es)]);
      assert EncodeValue(js, v, s, depth).value == LongBytes(|es|) + EncodeItems(js, v.items, s.items, depth + 1).value + [0];
    }
  }

  lemma {:induction false} MapStands(js: Runtime, v: JVal, s: Schema, depth: nat)
    requires s.SMap? && EncodeValue(js, v, s, depth).Ok? && LengthsFit(WireOf(js, v, s, depth))
    ensures Stands(WireOf(js, v, s, depth), s, depth, EncodeValue(js, v, s, depth).value, Norm(js, v, s, depth))
    decreases s, 0
  {
    hide Stands, LongBytes, SerializeEntries, EntriesReading, EntriesConform, PropEntries, EncodeProps, NormProps, EntriesOf, AvroVarint.Fits;
    var props := EntriesOf(js, v);
    if props == [] {
      EmptyGroupStands(s, depth);
    } else {
      var es := PropEntries(js, props, s.values, depth + 1);
      assert [Block(None, es)][0] == Block(None, es);
      PropsStand(js, props, s.values, depth + 1);
      MapForm(es, s, depth);
      assert WireOf(js, v, s, depth) == Blocks([Block(None, es)]);
      assert EncodeValue(js, v, s, depth).value == LongBytes(|es|) + EncodeProps(js, props, s.values, depth + 1).value + [0];
    }
  }

  // ---- results ---------------------------------------------------------------------

  /**
   Round trip: wherever the encoding of `v` under `s` stands, decoding gives the normal form and
   leaves what follows unread, exactly when the element and string limits allow; it fails
   otherwise. The depth limit never matters: the encoder was under the same one.
   */
  lemma RoundTrip(js: Runtime, v: JVal, s: Schema, buf: bytes, pos: nat, n: nat)
    requires EncodeValue(js, v, s, 0).Ok? && LengthsFit(WireOf(js, v, s, 0))
    requires At(buf, pos, EncodeValue(js, v, s, 0).value) && pos <= |buf| && n <= MAX_ELEMENTS
    ensures var data, x := EncodeValue(js, v, s, 0).value, Norm(js, v, s, 0);
            var r := DecodeValue(buf, pos, n, s, 0);
            && Conforms(WireOf(js, v, s, 0), s)
            && var cost := ReadingOf(WireOf(js, v, s, 0), s);
            if x.Some? && n + cost.elements <= 1_000_000 && cost.short
            then r == Done(x.value, pos + |data|, n + cost.elements)
            else r.Fail?
  {
    hide EncodeValue, Norm, WireOf, Conforms, Serialize, ReadingOf, LengthsFit, DecodeValue, At;
    ValueStands(js, v, s, 0);
    WireReads(buf, pos, n, 0, WireOf(js, v, s, 0), s);
  }

  /** The only value the encoder takes for an enum that cannot be read back: NaN without symbols. */
  lemma EnumReadable(js: Runtime, v: JVal, symbols: seq<bytes>)
    requires EnumIndexOf(symbols, v).Ok? && |symbols| <= 0x8000_0000
    ensures Norm(js, v, SEnum(symbols), 0).None? <==> v == Num(NaN) && symbols == []
    ensures v.Str? ==> Norm(js, v, SEnum(symbols), 0) == Some(DText(v.utf8))
  {
    Pow2Values();
    var i := EnumIndexOf(symbols, v).value;
    assert 0 <= i && (symbols != [] ==> i < |symbols|) by {
      if v.Num? && v.x.Fin? {
        assert v.x.r.Floor < |symbols|;
      }
    }
    AsIntFits(i, 32);
  }

  // ---- block independence ----------------------------------------------------------

  function AllEntries(blocks: seq<Block>): seq<Entry> {
    if blocks == [] then [] else blocks[0].entries + AllEntries(blocks[1..])
  }

  /**
   The same content cut into blocks in another way, at every nesting: the items of an array or
   map agree in order, while block boundaries, signs of counts and byte sizes are free.
   */
  predicate SameContent(a: Wire, b: Wire)
    decreases a, 2
  {
    match a
    case Parts(parts) => b.Parts? && SameParts(parts, b.parts)
    case Blocks(blocks) => b.Blocks? && SameBlocks(blocks, AllEntries(b.blocks))
    case Branch(i, part) => b.Branch? && b.index == i && SameContent(part, b.part)
    case _ => a == b
  }

  predicate SameParts(a: seq<Wire>, b: seq<Wire>)
    decreases a, 0
  {
    |a| == |b| && (a == [] || (SameContent(a[0], b[0]) && SameParts(a[1..], b[1..])))
  }

  predicate SameBlocks(a: seq<Block>, b: seq<Entry>)
    decreases a, 1
  {
    if a == [] then b == []
    else
      var k := |a[0].entries|;
      k <= |b| && SameEntries(a[0].entries, b[..k]) && SameBlocks(a[1..], b[k..])
  }

  predicate SameEntries(a: seq<Entry>, b: seq<Entry>)
    decreases a, 0
  {
    |a| == |b| && (a == [] || (a[0].key == b[0].key && SameContent(a[0].item, b[0].item) && SameEntries(a[1..], b[1..])))
  }

  lemma PlusAssociative(a: Row, b: Row, c: Row)
    ensures Plus(Plus(a, b), c) == Plus(a, Plus(b, c))
    ensures Plus(NOTHING, a) == a
  {
    if a.meaning.Some? {
      assert [] + a.meaning.value == a.meaning.value;
      if b.meaning.Some? && c.meaning.Some? {
        assert a.meaning.value + b.meaning.value + c.meaning.value == a.meaning.value + (b.meaning.value + c.meaning.value);
      }
    }
  }

  lemma {:induction false} EntriesConformSplit(a: seq<Entry>, b: seq<Entry>, s: Schema, keyed: bool)
    ensures EntriesConform(a + b, s, keyed) <==> EntriesConform(a, s, keyed) && EntriesConform(b, s, keyed)
    decreases a
  {
    hide Conforms;
    if a == [] {
      assert a + b == b;
    } else {
      assert (a + b)[1..] == a[1..] + b;
      EntriesConformSplit(a[1..], b, s, keyed);
    }
  }

  lemma {:induction false} EntriesSplit(a: seq<Entry>, b: seq<Entry>, s: Schema, keyed: bool)
    requires EntriesConform(a + b, s, keyed)
    ensures EntriesConform(a, s, keyed) && EntriesConform(b, s, keyed)
    ensures EntriesReading(a + b, s, keyed) == Plus(EntriesReading(a, s, keyed), EntriesReading(b, s, keyed))
    decreases a
  {
    hide Conforms, ReadingOf, Plus;
    EntriesConformSplit(a, b, s, keyed);
    if a == [] {
      assert a + b == b;
      PlusAssociative(EntriesReading(b, s, keyed), NOTHING, NOTHING);
    } else {
      assert (a + b)[1..] == a[1..] + b;
      EntriesSplit(a[1..], b, s, keyed);
      PlusAssociative(One(a[0].key, ReadingOf(a[0].item, s)), EntriesReading(a[1..], s, keyed), EntriesReading(b, s, keyed));
    }
  }

  lemma {:induction false} BlocksAreEntries(blocks: seq<Block>, s: Schema, keyed: bool)
    requires BlocksConform(blocks, s, keyed)
    ensures EntriesConform(AllEntries(blocks), s, keyed)
    ensures BlocksReading(blocks, s, keyed) == EntriesReading(AllEntries(blocks), s, keyed)
    decreases blocks
  {
    hide EntriesConform, EntriesReading, Plus, ValidBlock;
    if blocks == [] {
      NoEntries(s, keyed);
    } else {
      BlocksAreEntries(blocks[1..], s, keyed);
      EntriesConformSplit(blocks[0].entries, AllEntries(blocks[1..]), s, keyed);
      EntriesSplit(blocks[0].entries, AllEntries(blocks[1..]), s, keyed);
    }
  }

  lemma NoEntries(s: Schema, keyed: bool)
    ensures EntriesConform([], s, keyed) && EntriesReading([], s, keyed) == NOTHING
  {
  }

  /** Forms with the same content read alike: value, elements counted, depth reached, string sizes. */
  lemma {:induction false} SameReading(a: Wire, b: Wire, s: Schema)
    requires Conforms(a, s) && Conforms(b, s) && SameContent(a, b)
    ensures ReadingOf(a, s) == ReadingOf(b, s)
    decreases a, 2
  {
    if a.Parts? {
      SamePartsReading(a.parts, b.parts, s.fields);
    } else if a.Blocks? {
      var item, keyed := if s.SArray? then s.items else s.values, s.SMap?;
      BlocksAreEntries(b.blocks, item, keyed);
      SameBlocksReading(a.blocks, AllEntries(b.blocks), item, keyed);
    } else if a.Branch? {
      SameReading(a.part, b.part, s.branches[a.index]);
    }
  }

  lemma {:induction false} SamePartsReading(a: seq<Wire>, b: seq<Wire>, fields: seq<Field>)
    requires PartsConform(a, fields) && PartsConform(b, fields) && SameParts(a, b)
    ensures PartsReading(a, fields) == PartsReading(b, fields)
    decreases a, 0
  {
    hide Conforms, ReadingOf, Plus;
    if a != [] {
      SameReading(a[0], b[0], fields[0].schema);
      SamePartsReading(a[1..], b[1..], fields[1..]);
    }
  }

  lemma {:induction false} SameBlocksReading(a: seq<Block>, b: seq<Entry>, s: Schema, keyed: bool)
    requires BlocksConform(a, s, keyed) && EntriesConform(b, s, keyed) && SameBlocks(a, b)
    ensures BlocksReading(a, s, keyed) == EntriesReading(b, s, keyed)
    decreases a, 1
  {
    hide EntriesConform, EntriesReading, Plus, ValidBlock, SameEntries;
    if a == [] {
      NoEntries(s, keyed);
    } else {
      var k := |a[0].entries|;
      assert b == b[..k] + b[k..];
      EntriesSplit(b[..k], b[k..], s, keyed);
      SameEntriesReading(a[0].entries, b[..k], s, keyed);
      SameBlocksReading(a[1..], b[k..], s, keyed);
    }
  }

  lemma {:induction false} SameEntriesReading(a: seq<Entry>, b: seq<Entry>, s: Schema, keyed: bool)
    requires EntriesConform(a, s, keyed) && EntriesConform(b, s, keyed) && SameEntries(a, b)
    ensures EntriesReading(a, s, keyed) == EntriesReading(b, s, keyed)
    decreases a, 0
  {
    hide Conforms, ReadingOf, Plus, One;
    if a != [] {
      SameReading(a[0].item, b[0].item, s);
      SameEntriesReading(a[1..], b[1..], s, keyed);
    }
  }

  /** Two block layouts of the same content decode alike wherever they stand. */
  lemma BlockIndependence(a: Wire, b: Wire, s: Schema, bufA: bytes, bufB: bytes, posA: nat, posB: nat, n: nat, depth: nat)
    requires Conforms(a, s) && Conforms(b, s) && SameContent(a, b)
    requires At(bufA, posA, Serialize(a, s)) && At(bufB, posB, Serialize(b, s))
    requires posA <= |bufA| && posB <= |bufB| && n <= MAX_ELEMENTS
    ensures var ra, rb := DecodeValue(bufA, posA, n, s, depth), DecodeValue(bufB, posB, n, s, depth);
            && (ra.Done? <==> rb.Done?)
            && (ra.Done? ==> ra.value == rb.value && ra.n == rb.n)
            && (ra.Done? ==> ra.pos == posA + |Serialize(a, s)| && rb.pos == posB + |Serialize(b, s)|)
  {
    hide Conforms, ReadingOf, SameContent, DecodeValue, Serialize, At;
    WireReads(bufA, posA, n, depth, a, s);
    WireReads(bufB, posB, n, depth, b, s);
    SameReading(a, b, s);
  }
}
