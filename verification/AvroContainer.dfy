/** The Object Container File: what it is built from, how it is read, and that reading inverts building. */
module AvroContainer {
  import opened Bytes
  import opened AvroVarint
  import opened AvroCodec
  import opened AvroReading
  import opened AvroWire
  import T = AvroTheorems

  const MAGIC: bytes := [0x4F, 0x62, 0x6A, 0x01]
  // "avro.schema", "avro.codec", "null" and "deflate"
  const SCHEMA_KEY: bytes := [0x61, 0x76, 0x72, 0x6F, 0x2E, 0x73, 0x63, 0x68, 0x65, 0x6D, 0x61]
  const CODEC_KEY: bytes := [0x61, 0x76, 0x72, 0x6F, 0x2E, 0x63, 0x6F, 0x64, 0x65, 0x63]
  const NULL_CODEC: bytes := [0x6E, 0x75, 0x6C, 0x6C]
  const DEFLATE_CODEC: bytes := [0x64, 0x65, 0x66, 0x6C, 0x61, 0x74, 0x65]

  type Marker = s: bytes | |s| == 16 witness [0, 0, 0, 0, 0, 0, 0, 0, 0, 0, 0, 0, 0, 0, 0, 0]

  /** JSON parsing of a schema and inflation of a block; None where they throw. */
  datatype Host = Host(parse: bytes -> Option<Schema>, inflate: bytes -> Option<bytes>)

  datatype MetaEntry = MetaEntry(key: bytes, value: bytes)

  datatype Contents = Contents(records: seq<DVal>, blocks: nat)

  // ---- building --------------------------------------------------------------------

  function MetaEntryBytes(entries: seq<MetaEntry>): bytes {
    if entries == [] then [] else Sized(entries[0].key) + Sized(entries[0].value) + MetaEntryBytes(entries[1..])
  }

  function MetadataBytes(entries: seq<MetaEntry>): bytes {
    if entries == [] then [0] else LongBytes(|entries|) + MetaEntryBytes(entries) + [0]
  }

  function HeaderBytes(entries: seq<MetaEntry>, marker: Marker): bytes {
    MAGIC + MetadataBytes(entries) + marker
  }

  function EncodeRecords(js: Runtime, records: seq<JVal>, s: Schema): Result<bytes, AvroCodec.Error> {
    if records == [] then Ok([])
    else
      match EncodeValue(js, records[0], s, 0)
      case Err(e) => Err(e)
      case Ok(data) =>
        match EncodeRecords(js, records[1..], s)
        case Err(e) => Err(e)
        case Ok(rest) => Ok(data + rest)
  }

  function FileBlock(count: int, payload: bytes, sync: bytes): bytes {
    LongBytes(count) + LongBytes(|payload|) + payload + sync
  }

  function OwnMetadata(json: bytes): seq<MetaEntry> {
    [MetaEntry(SCHEMA_KEY, json), MetaEntry(CODEC_KEY, NULL_CODEC)]
  }

  /** One block with all the records, even when there are none, and a closing zero. */
  function BuildOcf(js: Runtime, records: seq<JVal>, s: Schema, json: bytes, marker: Marker): Result<bytes, AvroCodec.Error> {
    match EncodeRecords(js, records, s)
    case Err(e) => Err(e)
    case Ok(data) => Ok(HeaderBytes(OwnMetadata(json), marker) + (FileBlock(|records|, data, marker) + [0]))
  }

  // ---- reading, as functions -------------------------------------------------------

  function ReadMetaEntries(buf: bytes, pos: nat, left: nat, acc: map<bytes, bytes>): (r: Out<map<bytes, bytes>>)
    requires pos <= |buf|
    ensures r.Done? ==> pos <= r.pos <= |buf|
    decreases left
  {
    if left == 0 then Done(acc, pos, 0)
    else
      match SizedAt(buf, pos, 0)
      case Fail(e) => Fail(e)
      case Done(key, p, _) =>
        match SizedAt(buf, p, 0)
        case Fail(e) => Fail(e)
        case Done(value, p', _) => ReadMetaEntries(buf, p', left - 1, acc[key := value])
  }

  function ReadMetadata(buf: bytes, pos: nat, acc: map<bytes, bytes>): (r: Out<map<bytes, bytes>>)
    requires pos <= |buf|
    ensures r.Done? ==> pos <= r.pos <= |buf|
    decreases |buf| - pos
  {
    match BlockHead(buf, pos)
    case Unread(e) => Fail(VarFailure(e))
    case Read(count, p) =>
      if count == 0 then Done(acc, p, 0)
      else
        match ReadMetaEntries(buf, p, count, acc)
        case Fail(e) => Fail(e)
        case Done(acc', p', _) => ReadMetadata(buf, p', acc')
  }

  function DecodeRecords(data: bytes, pos: nat, n: nat, s: Schema, left: nat, acc: seq<DVal>): (r: Out<seq<DVal>>)
    requires pos <= |data|
    ensures r.Done? ==> pos <= r.pos <= |data|
    decreases left
  {
    if left == 0 then Done(acc, pos, n)
    else if n + 1 > MAX_ELEMENTS then Fail(ElementLimit)
    else
      match DecodeValue(data, pos, n + 1, s, 0)
      case Fail(e) => Fail(e)
      case Done(v, p, n') => DecodeRecords(data, p, n', s, left - 1, acc + [v])
  }

  function Unpack(host: Host, deflate: bool, payload: bytes): Option<bytes> {
    if deflate then host.inflate(payload) else Some(payload)
  }

  /** The records of one block; a negative count gives none, bytes left over are ignored. */
  function BlockRecords(host: Host, deflate: bool, payload: bytes, s: Schema, count: int): Result<seq<DVal>, ReadError> {
    match Unpack(host, deflate, payload)
    case None => Err(BadBlock)
    case Some(data) =>
      match DecodeRecords(data, 0, 0, s, if count < 0 then 0 else count, [])
      case Fail(e) => Err(e)
      case Done(vs, _, _) => Ok(vs)
  }

  /** The payload of the block whose count has been read, and the offset behind its marker. */
  function PayloadAt(buf: bytes, pos: nat, marker: bytes): (r: Out<bytes>)
    requires pos <= |buf|
    ensures r.Done? ==> pos < r.pos <= |buf|
  {
    match ReadLongAt(buf, pos)
    case Unread(e) => Fail(VarFailure(e))
    case Read(size, p) =>
      if size < 0 then Fail(UnexpectedEnd)
      else
        match RawAt(buf, p, 0, size)
        case Fail(e) => Fail(e)
        case Done(payload, p', _) =>
          match RawAt(buf, p', 0, 16)
          case Fail(e) => Fail(e)
          case Done(sync, p'', _) => if sync != marker then Fail(SyncMismatch) else Done(payload, p'', 0)
  }

  /** Blocks up to a zero count, an unreadable count, or the end of the file. */
  function ReadBlocks(host: Host, deflate: bool, buf: bytes, pos: nat, s: Schema, marker: bytes, acc: Contents)
    : (r: Result<Contents, ReadError>)
    requires pos <= |buf|
    decreases |buf| - pos
  {
    if pos == |buf| then Ok(acc)
    else
      match ReadLongAt(buf, pos)
      case Unread(_) => Ok(acc)
      case Read(count, p) =>
        if count == 0 then Ok(acc)
        else
          match PayloadAt(buf, p, marker)
          case Fail(e) => Err(e)
          case Done(payload, p', _) =>
            match BlockRecords(host, deflate, payload, s, count)
            case Err(e) => Err(e)
            case Ok(vs) => ReadBlocks(host, deflate, buf, p', s, marker, Contents(acc.records + vs, acc.blocks + 1))
  }

  function SchemaIn(host: Host, meta: map<bytes, bytes>): Result<Schema, ReadError> {
    if SCHEMA_KEY !in meta then Err(NoSchema)
    else match host.parse(meta[SCHEMA_KEY]) case None => Err(BadSchema) case Some(s) => Ok(s)
  }

  function CodecIn(meta: map<bytes, bytes>): bytes {
    if CODEC_KEY in meta then meta[CODEC_KEY] else NULL_CODEC
  }

  function ReadOcf(host: Host, buf: bytes): Result<Contents, ReadError> {
    match RawAt(buf, 0, 0, 4)
    case Fail(e) => Err(e)
    case Done(magic, p, _) =>
      if magic != MAGIC then Err(NotContainer)
      else
        match ReadMetadata(buf, p, map[])
        case Fail(e) => Err(e)
        case Done(meta, p', _) =>
          match SchemaIn(host, meta)
          case Err(e) => Err(e)
          case Ok(s) =>
            match RawAt(buf, p', 0, 16)
            case Fail(e) => Err(e)
            case Done(marker, p'', _) =>
              var codec := CodecIn(meta);
              if codec != NULL_CODEC && codec != DEFLATE_CODEC then Err(UnknownCodec)
              else ReadBlocks(host, codec == DEFLATE_CODEC, buf, p'', s, marker, Contents([], 0))
  }

  // ---- reading, over the reader ----------------------------------------------------

  lemma MetaEntriesStep(buf: bytes, pos: nat, left: nat, acc: map<bytes, bytes>)
    requires pos <= |buf| && left > 0
    ensures var k := SizedAt(buf, pos, 0);
            ReadMetaEntries(buf, pos, left, acc)
            == if k.Fail? then Fail(k.error)
               else if SizedAt(buf, k.pos, 0).Fail? then Fail(SizedAt(buf, k.pos, 0).error)
               else ReadMetaEntries(buf, SizedAt(buf, k.pos, 0).pos, left - 1, acc[k.value := SizedAt(buf, k.pos, 0).value])
  {
    hide SizedAt;
  }

  lemma NoMetaEntries(buf: bytes, pos: nat, acc: map<bytes, bytes>)
    requires pos <= |buf|
    ensures ReadMetaEntries(buf, pos, 0, acc) == Done(acc, pos, 0)
  {
  }

  method ParseMetaEntries(reader: AvroReader, count: nat, acc: map<bytes, bytes>) returns (r: Result<map<bytes, bytes>, ReadError>)
    requires reader.Valid()
    modifies reader`pos
    ensures reader.Valid()
    ensures match ReadMetaEntries(reader.buf, old(reader.pos), count, acc)
            case Done(meta, p, _) => r == Ok(meta) && reader.pos == p
            case Fail(e) => r == Err(e)
  {
    hide ReadMetaEntries;
    var meta := acc;
    for i := 0 to count
      invariant reader.Valid()
      invariant ReadMetaEntries(reader.buf, old(reader.pos), count, acc)
             == ReadMetaEntries(reader.buf, reader.pos, count - i, meta)
    {
      MetaEntriesStep(reader.buf, reader.pos, count - i, meta);
      var key := reader.ReadSized();
      if key.Err? { return Err(key.error); }
      var value := reader.ReadSized();
      if value.Err? { return Err(value.error); }
      meta := meta[key.value := value.value];
    }
    NoMetaEntries(reader.buf, reader.pos, meta);
    return Ok(meta);
  }

  method ParseMetadata(reader: AvroReader) returns (r: Result<map<bytes, bytes>, ReadError>)
    requires reader.Valid()
    modifies reader`pos
    ensures reader.Valid()
    ensures match ReadMetadata(reader.buf, old(reader.pos), map[])
            case Done(meta, p, _) => r == Ok(meta) && reader.pos == p
            case Fail(e) => r == Err(e)
  {
    var meta := map[];
    while true
      invariant reader.Valid()
      invariant ReadMetadata(reader.buf, old(reader.pos), map[]) == ReadMetadata(reader.buf, reader.pos, meta)
      decreases |reader.buf| - reader.pos
    {
      var count := reader.ReadBlockHead();
      if count.Err? { return Err(count.error); }
      if count.value == 0 { return Ok(meta); }
      var more := ParseMetaEntries(reader, count.value, meta);
      if more.Err? { return more; }
      meta := more.value;
    }
  }

  lemma RecordsStep(data: bytes, pos: nat, n: nat, s: Schema, left: nat, acc: seq<DVal>)
    requires pos <= |data| && left > 0
    ensures n + 1 > MAX_ELEMENTS ==> DecodeRecords(data, pos, n, s, left, acc) == Fail(ElementLimit)
    ensures n + 1 <= MAX_ELEMENTS ==>
      var v := DecodeValue(data, pos, n + 1, s, 0);
      DecodeRecords(data, pos, n, s, left, acc)
      == if v.Fail? then Fail(v.error) else DecodeRecords(data, v.pos, v.n, s, left - 1, acc + [v.value])
  {
    hide DecodeValue;
  }

  lemma NoRecords(data: bytes, pos: nat, n: nat, s: Schema, acc: seq<DVal>)
    requires pos <= |data|
    ensures DecodeRecords(data, pos, n, s, 0, acc) == Done(acc, pos, n)
  {
  }

  method DecodeBlockRecords(host: Host, deflate: bool, payload: bytes, s: Schema, count: int) returns (r: Result<seq<DVal>, ReadError>)
    ensures r == BlockRecords(host, deflate, payload, s, count)
  {
    hide DecodeRecords, DecodeValue;
    var data := Unpack(host, deflate, payload);
    if data.None? { return Err(BadBlock); }
    var reader := new AvroReader(data.value);
    var records, i := [], 0;
    ghost var total: nat := if count < 0 then 0 else count;
    while i < count
      invariant reader.Valid() && reader.buf == data.value && fresh(reader) && 0 <= i <= total
      invariant DecodeRecords(data.value, 0, 0, s, total, [])
             == DecodeRecords(data.value, reader.pos, reader.elements, s, total - i, records)
    {
      RecordsStep(data.value, reader.pos, reader.elements, s, total - i, records);
      var ok := reader.TrackElement();
      if !ok { return Err(ElementLimit); }
      var v := reader.Decode(s, 0);
      if v.Err? { return Err(v.error); }
      records := records + [v.value];
      i := i + 1;
    }
    NoRecords(data.value, reader.pos, reader.elements, s, records);
    return Ok(records);
  }

  method ReadPayload(reader: AvroReader, marker: bytes) returns (r: Result<bytes, ReadError>)
    requires reader.Valid()
    modifies reader`pos
    ensures reader.Valid()
    ensures match PayloadAt(reader.buf, old(reader.pos), marker)
            case Done(payload, p, _) => r == Ok(payload) && reader.pos == p
            case Fail(e) => r == Err(e)
  {
    var size := reader.ReadLong();
    if size.Err? { return Err(size.error); }
    var payload := reader.ReadBytes(size.value);
    if payload.Err? { return payload; }
    var sync := reader.ReadBytes(16);
    if sync.Err? { return sync; }
    return if sync.value != marker then Err(SyncMismatch) else payload;
  }

  method ReadOcfFile(host: Host, buf: bytes) returns (r: Result<Contents, ReadError>)
    ensures r == ReadOcf(host, buf)
  {
    var reader := new AvroReader(buf);
    var magic := reader.ReadBytes(4);
    if magic.Err? { return Err(magic.error); }
    if magic.value != MAGIC { return Err(NotContainer); }
    var meta := ParseMetadata(reader);
    if meta.Err? { return Err(meta.error); }
    var s := SchemaIn(host, meta.value);
    if s.Err? { return Err(s.error); }
    var marker := reader.ReadBytes(16);
    if marker.Err? { return Err(marker.error); }
    var codec := CodecIn(meta.value);
    if codec != NULL_CODEC && codec != DEFLATE_CODEC { return Err(UnknownCodec); }
    r := ReadFileBlocks(reader, host, codec == DEFLATE_CODEC, s.value, marker.value);
  }

  method ReadFileBlocks(reader: AvroReader, host: Host, deflate: bool, s: Schema, marker: bytes) returns (r: Result<Contents, ReadError>)
    requires reader.Valid()
    modifies reader`pos
    ensures r == ReadBlocks(host, deflate, reader.buf, old(reader.pos), s, marker, Contents([], 0))
  {
    var all := Contents([], 0);
    while reader.pos < |reader.buf|
      invariant reader.Valid()
      invariant ReadBlocks(host, deflate, reader.buf, old(reader.pos), s, marker, Contents([], 0))
             == ReadBlocks(host, deflate, reader.buf, reader.pos, s, marker, all)
      decreases |reader.buf| - reader.pos
    {
      var count := reader.ReadLong();
      if count.Err? { break; }
      if count.value == 0 { break; }
      var payload := ReadPayload(reader, marker);
      if payload.Err? { return Err(payload.error); }
      var records := DecodeBlockRecords(host, deflate, payload.value, s, count.value);
      if records.Err? { return Err(records.error); }
      all := Contents(all.records + records.value, all.blocks + 1);
    }
    return Ok(all);
  }

  // ---- what a container file holds -------------------------------------------------

  function MetaMap(acc: map<bytes, bytes>, entries: seq<MetaEntry>): map<bytes, bytes>
    decreases |entries|
  {
    if entries == [] then acc else MetaMap(acc[entries[0].key := entries[0].value], entries[1..])
  }

  predicate ShortEntries(entries: seq<MetaEntry>) {
    entries == [] ||
    (|entries[0].key| <= MAX_STRING_BYTES && |entries[0].value| <= MAX_STRING_BYTES && ShortEntries(entries[1..]))
  }

  /** A block of a file: records in any conforming form, their packed bytes, and the marker behind them. */
  datatype Section = Section(payload: bytes, forms: seq<Wire>, sync: bytes)

  predicate AllConform(forms: seq<Wire>, s: Schema) {
    forms == [] || (Conforms(forms[0], s) && AllConform(forms[1..], s))
  }

  function FormsBytes(forms: seq<Wire>, s: Schema): bytes {
    if forms == [] then [] else Serialize(forms[0], s) + FormsBytes(forms[1..], s)
  }

  /** Not empty; the payload unpacks to the records, and perhaps more bytes, which are ignored. */
  ghost predicate ValidSection(host: Host, deflate: bool, s: Schema, x: Section) {
    && x.forms != [] && AllConform(x.forms, s) && |x.sync| == 16
    && IsLong(|x.forms|) && IsLong(|x.payload|)
    && var raw := if deflate then host.inflate(x.payload) else Some(x.payload);
    && raw.Some? && At(raw.value, 0, FormsBytes(x.forms, s))
  }

  ghost predicate ValidSections(host: Host, deflate: bool, s: Schema, xs: seq<Section>) {
    xs == [] || (ValidSection(host, deflate, s, xs[0]) && ValidSections(host, deflate, s, xs[1..]))
  }

  function SectionsBytes(xs: seq<Section>): bytes {
    if xs == [] then [] else FileBlock(|xs[0].forms|, xs[0].payload, xs[0].sync) + SectionsBytes(xs[1..])
  }

  /** The values of records read after `n` elements of their block; None when one cannot be read. */
  function FormsValues(forms: seq<Wire>, s: Schema, n: nat): Option<seq<DVal>>
    requires AllConform(forms, s)
    decreases forms
  {
    if forms == [] then Some([])
    else
      var x := ReadingOf(forms[0], s);
      if !Possible(x, 0, n + 1) then None
      else
        var rest := FormsValues(forms[1..], s, n + 1 + x.elements);
        if rest.None? then None else Some([x.meaning.value] + rest.value)
  }

  datatype FileOut = Good(contents: Contents) | Mismatch | Unreadable

  /** All records in order, until a marker that differs or a block that cannot be read. */
  ghost function FileResult(host: Host, deflate: bool, s: Schema, xs: seq<Section>, marker: bytes, acc: Contents): FileOut
    requires ValidSections(host, deflate, s, xs)
    decreases xs
  {
    if xs == [] then Good(acc)
    else if xs[0].sync != marker then Mismatch
    else
      match FormsValues(xs[0].forms, s, 0)
      case None => Unreadable
      case Some(vs) => FileResult(host, deflate, s, xs[1..], marker, Contents(acc.records + vs, acc.blocks + 1))
  }

  predicate Gives(out: FileOut, r: Result<Contents, ReadError>) {
    if out.Good? then r == Ok(out.contents)
    else if out.Mismatch? then r == Err(SyncMismatch)
    else r.Err?
  }

  /** Nothing more is read from here: the end, a zero count, or a count that breaks off. */
  predicate Ends(buf: bytes, pos: nat) {
    pos == |buf| || (pos < |buf| && (ReadLongAt(buf, pos).Unread? || ReadLongAt(buf, pos).value == 0))
  }

  // ---- reading what was built ------------------------------------------------------

  lemma LengthIsLong(n: nat)
    requires n <= MAX_STRING_BYTES
    ensures IsLong(n) && IsLong(0 - n)
  {
    Pow2Values();
  }

  lemma {:induction false} MetaEntriesRead(buf: bytes, pos: nat, entries: seq<MetaEntry>, acc: map<bytes, bytes>)
    requires ShortEntries(entries) && At(buf, pos, MetaEntryBytes(entries)) && pos <= |buf|
    ensures ReadMetaEntries(buf, pos, |entries|, acc) == Done(MetaMap(acc, entries), pos + |MetaEntryBytes(entries)|, 0)
    decreases entries
  {
    hide At, Sized, SizedAt, AvroVarint.Fits;
    if entries != [] {
      var key, value := Sized(entries[0].key), Sized(entries[0].value);
      AtConcat(buf, pos, key + value, MetaEntryBytes(entries[1..]));
      AtConcat(buf, pos, key, value);
      LengthIsLong(|entries[0].key|);
      LengthIsLong(|entries[0].value|);
      SizedReads(buf, pos, 0, entries[0].key);
      SizedReads(buf, pos + |key|, 0, entries[0].value);
      MetaEntriesRead(buf, pos + |key| + |value|, entries[1..], acc[entries[0].key := entries[0].value]);
    }
  }

  lemma MetadataRead(buf: bytes, pos: nat, entries: seq<MetaEntry>)
    requires ShortEntries(entries) && IsLong(|entries|) && At(buf, pos, MetadataBytes(entries)) && pos <= |buf|
    ensures ReadMetadata(buf, pos, map[]) == Done(MetaMap(map[], entries), pos + |MetadataBytes(entries)|, 0)
  {
    hide At, LongBytes, ReadLongAt, AvroVarint.Fits, ReadMetaEntries, MetaEntryBytes, MetaMap;
    if entries == [] {
      EndReads(buf, pos);
      NoMetadata();
    } else {
      var head, body := LongBytes(|entries|), MetaEntryBytes(entries);
      AtConcat(buf, pos, head + body, [0]);
      AtConcat(buf, pos, head, body);
      LongRead(buf, pos, |entries|);
      MetaEntriesRead(buf, pos + |head|, entries, map[]);
      EndReads(buf, pos + |head| + |body|);
    }
  }

  lemma NoMetadata()
    ensures MetaMap(map[], []) == map[]
  {
  }

  lemma {:induction false} FormsRead(data: bytes, pos: nat, n: nat, forms: seq<Wire>, s: Schema, acc: seq<DVal>)
    requires AllConform(forms, s) && At(data, pos, FormsBytes(forms, s)) && pos <= |data| && n <= MAX_ELEMENTS
    ensures var r := DecodeRecords(data, pos, n, s, |forms|, acc);
            var vs := FormsValues(forms, s, n);
            if vs.Some? then r.Done? && r.value == acc + vs.value else r.Fail?
    decreases forms
  {
    hide At, Conforms, Serialize, ReadingOf, DecodeValue;
    if forms == [] {
      assert acc + [] == acc;
    } else if n + 1 <= MAX_ELEMENTS {
      AtConcat(data, pos, Serialize(forms[0], s), FormsBytes(forms[1..], s));
      WireReads(data, pos, n + 1, 0, forms[0], s);
      var r := DecodeValue(data, pos, n + 1, s, 0);
      if r.Done? {
        FormsRead(data, r.pos, r.n, forms[1..], s, acc + [r.value]);
        var rest := FormsValues(forms[1..], s, r.n);
        if rest.Some? {
          assert acc + [r.value] + rest.value == acc + ([r.value] + rest.value);
        }
      }
    }
  }

  lemma SectionRecords(host: Host, deflate: bool, s: Schema, x: Section)
    requires ValidSection(host, deflate, s, x)
    ensures var r, vs := BlockRecords(host, deflate, x.payload, s, |x.forms|), FormsValues(x.forms, s, 0);
            if vs.Some? then r == Ok(vs.value) else r.Err?
  {
    hide At, DecodeRecords, FormsBytes, FormsValues, AllConform;
    var data := Unpack(host, deflate, x.payload).value;
    FormsRead(data, 0, 0, x.forms, s, []);
    var vs := FormsValues(x.forms, s, 0);
    if vs.Some? {
      assert [] + vs.value == vs.value;
    }
  }

  lemma SectionStart(buf: bytes, pos: nat, x: Section, tail: bytes, marker: bytes) returns (p: nat, next: nat)
    requires x.forms != [] && |x.sync| == 16 && IsLong(|x.forms|) && IsLong(|x.payload|)
    requires At(buf, pos, FileBlock(|x.forms|, x.payload, x.sync) + tail) && pos <= |buf|
    ensures pos < |buf| && ReadLongAt(buf, pos) == Read(|x.forms|, p) && p <= |buf|
    ensures PayloadAt(buf, p, marker) == if x.sync == marker then Done(x.payload, next, 0) else Fail(SyncMismatch)
    ensures next == pos + |FileBlock(|x.forms|, x.payload, x.sync)| && At(buf, next, tail) && next <= |buf|
  {
    hide At, LongBytes, ReadLongAt, AvroVarint.Fits;
    var count, size := LongBytes(|x.forms|), LongBytes(|x.payload|);
    AtConcat(buf, pos, count + size + x.payload + x.sync, tail);
    AtConcat(buf, pos, count + size + x.payload, x.sync);
    AtConcat(buf, pos, count + size, x.payload);
    AtConcat(buf, pos, count, size);
    LongRead(buf, pos, |x.forms|);
    p := pos + |count|;
    LongRead(buf, p, |x.payload|);
    AtSlice(buf, p + |size|, x.payload);
    AtSlice(buf, p + |size| + |x.payload|, x.sync);
    next := p + |size| + |x.payload| + 16;
    AtSlice(buf, next, tail);
  }

  /** Sections are read one after another, each marker checked, up to where the file ends. */
  lemma {:induction false} SectionsRead(host: Host, deflate: bool, buf: bytes, pos: nat, s: Schema, xs: seq<Section>,
                                        marker: bytes, acc: Contents)
    requires ValidSections(host, deflate, s, xs)
    requires At(buf, pos, SectionsBytes(xs)) && pos <= |buf| && Ends(buf, pos + |SectionsBytes(xs)|)
    ensures Gives(FileResult(host, deflate, s, xs, marker, acc), ReadBlocks(host, deflate, buf, pos, s, marker, acc))
    decreases xs
  {
    hide At, ReadLongAt, BlockRecords, PayloadAt, FormsValues, FileBlock, AvroVarint.Fits, ReadBlocks, Ends,
      AllConform, FormsBytes, Unpack;
    if xs == [] {
      BlocksEnd(host, deflate, buf, pos, s, marker, acc);
    } else {
      var x, rest := xs[0], SectionsBytes(xs[1..]);
      var p, next := SectionStart(buf, pos, x, rest, marker);
      SectionRecords(host, deflate, s, x);
      BlocksGoOn(host, deflate, buf, pos, s, marker, acc, |x.forms|, p);
      var vs := FormsValues(x.forms, s, 0);
      ResultStep(host, deflate, s, xs, marker, acc);
      hide FileResult, ValidSection;
      if x.sync == marker && vs.Some? {
        SectionsRead(host, deflate, buf, next, s, xs[1..], marker, Contents(acc.records + vs.value, acc.blocks + 1));
      }
    }
  }

  lemma ResultStep(host: Host, deflate: bool, s: Schema, xs: seq<Section>, marker: bytes, acc: Contents)
    requires ValidSections(host, deflate, s, xs) && xs != []
    ensures var vs := FormsValues(xs[0].forms, s, 0);
            FileResult(host, deflate, s, xs, marker, acc)
            == if xs[0].sync != marker then Mismatch
               else if vs.None? then Unreadable
               else FileResult(host, deflate, s, xs[1..], marker, Contents(acc.records + vs.value, acc.blocks + 1))
  {
    hide FormsValues, At;
  }

  lemma BlocksEnd(host: Host, deflate: bool, buf: bytes, pos: nat, s: Schema, marker: bytes, acc: Contents)
    requires pos <= |buf| && Ends(buf, pos)
    ensures ReadBlocks(host, deflate, buf, pos, s, marker, acc) == Ok(acc)
  {
    hide ReadLongAt;
  }

  lemma BlocksGoOn(host: Host, deflate: bool, buf: bytes, pos: nat, s: Schema, marker: bytes, acc: Contents, count: int, p: nat)
    requires pos < |buf| && p <= |buf| && ReadLongAt(buf, pos) == Read(count, p) && count != 0
    ensures ReadBlocks(host, deflate, buf, pos, s, marker, acc)
         == var block := PayloadAt(buf, p, marker);
            if block.Fail? then Err(block.error)
            else
              var vs := BlockRecords(host, deflate, block.value, s, count);
              if vs.Err? then Err(vs.error)
              else ReadBlocks(host, deflate, buf, block.pos, s, marker, Contents(acc.records + vs.value, acc.blocks + 1))
  {
    hide ReadLongAt, PayloadAt, BlockRecords;
  }

  /**
   A container of any sections: with every marker right and every record readable the result is
   the concatenation of their records; the first marker that differs from the header's is refused.
   */
  lemma ContainerRead(host: Host, entries: seq<MetaEntry>, meta: map<bytes, bytes>, deflate: bool, marker: Marker,
                      xs: seq<Section>, buf: bytes, s: Schema)
    requires ShortEntries(entries) && IsLong(|entries|) && meta == MetaMap(map[], entries)
    requires Ascii("avro.schema") in meta && host.parse(meta[Ascii("avro.schema")]) == Some(s)
    requires if Ascii("avro.codec") in meta then meta[Ascii("avro.codec")] == Ascii(if deflate then "deflate" else "null") else !deflate
    requires ValidSections(host, deflate, s, xs)
    requires At(buf, 0, HeaderBytes(entries, marker) + SectionsBytes(xs))
    requires Ends(buf, |HeaderBytes(entries, marker)| + |SectionsBytes(xs)|)
    ensures Gives(FileResult(host, deflate, s, xs, marker, Contents([], 0)), ReadOcf(host, buf))
  {
    hide At, ReadOcf, ReadBlocks, MetaMap, SectionsBytes, FileResult, ValidSections, HeaderBytes, Ends, CodecIn, SchemaIn, ShortEntries;
    MetadataMeans(host, meta);
    HeaderRead(host, entries, meta, deflate, marker, SectionsBytes(xs), buf, s);
    SectionsRead(host, deflate, buf, |HeaderBytes(entries, marker)|, s, xs, marker, Contents([], 0));
  }

  lemma NamesAre()
    ensures MAGIC == Ascii("Obj") + [1] && SCHEMA_KEY == Ascii("avro.schema") && CODEC_KEY == Ascii("avro.codec")
    ensures NULL_CODEC == Ascii("null") && DEFLATE_CODEC == Ascii("deflate") && NULL_CODEC != DEFLATE_CODEC
  {
  }

  lemma MetadataMeans(host: Host, meta: map<bytes, bytes>)
    ensures var schema, codec := Ascii("avro.schema"), Ascii("avro.codec");
            && SchemaIn(host, meta) == (if schema !in meta then Err(NoSchema)
                                        else if host.parse(meta[schema]).None? then Err(BadSchema) else Ok(host.parse(meta[schema]).value))
            && CodecIn(meta) == (if codec in meta then meta[codec] else NULL_CODEC)
            && NULL_CODEC == Ascii("null") && DEFLATE_CODEC == Ascii("deflate")
  {
    NamesAre();
  }

  lemma MagicRefused(host: Host, buf: bytes)
    requires |buf| >= 4
    ensures buf[..4] != Ascii("Obj") + [1] ==> ReadOcf(host, buf) == Err(NotContainer)
  {
    hide ReadBlocks, ReadMetadata, CodecIn, SchemaIn;
    NamesAre();
  }

  /** A file that has no schema, or one that cannot be parsed, or is packed in some other way is refused. */
  lemma HeaderRefused(host: Host, entries: seq<MetaEntry>, meta: map<bytes, bytes>, marker: Marker, buf: bytes, rest: bytes)
    requires ShortEntries(entries) && IsLong(|entries|) && meta == MetaMap(map[], entries)
    requires At(buf, 0, HeaderBytes(entries, marker) + rest)
    ensures var schema, codec, r := Ascii("avro.schema"), Ascii("avro.codec"), ReadOcf(host, buf);
            if schema !in meta then r == Err(NoSchema)
            else if host.parse(meta[schema]).None? then r == Err(BadSchema)
            else codec in meta && meta[codec] != Ascii("null") && meta[codec] != Ascii("deflate") ==> r == Err(UnknownCodec)
  {
    hide At, ReadBlocks, MetaMap, ReadMetadata, MetadataBytes, CodecIn, SchemaIn, ShortEntries, HeaderBytes;
    NamesAre();
    MetadataMeans(host, meta);
    HeaderParts(buf, entries, marker, rest);
  }

  lemma HeaderParts(buf: bytes, entries: seq<MetaEntry>, marker: Marker, rest: bytes)
    requires ShortEntries(entries) && IsLong(|entries|) && At(buf, 0, HeaderBytes(entries, marker) + rest)
    ensures |HeaderBytes(entries, marker)| == 20 + |MetadataBytes(entries)| <= |buf| && At(buf, |HeaderBytes(entries, marker)|, rest)
    ensures buf[..4] == MAGIC && ReadMetadata(buf, 4, map[]) == Done(MetaMap(map[], entries), 4 + |MetadataBytes(entries)|, 0)
    ensures RawAt(buf, 4 + |MetadataBytes(entries)|, 0, 16) == Done(marker, 20 + |MetadataBytes(entries)|, 0)
  {
    hide At, MetaMap, ReadMetadata, MetadataBytes, ShortEntries;
    var data := MetadataBytes(entries);
    AtConcat(buf, 0, MAGIC + data + marker, rest);
    AtConcat(buf, 0, MAGIC + data, marker);
    AtConcat(buf, 0, MAGIC, data);
    AtSlice(buf, 0, MAGIC);
    AtSlice(buf, 4 + |data|, marker);
    AtSlice(buf, 4, data);
    MetadataRead(buf, 4, entries);
  }

  lemma HeaderRead(host: Host, entries: seq<MetaEntry>, meta: map<bytes, bytes>, deflate: bool, marker: Marker,
                   rest: bytes, buf: bytes, s: Schema)
    requires ShortEntries(entries) && IsLong(|entries|) && meta == MetaMap(map[], entries)
    requires SchemaIn(host, meta) == Ok(s) && CodecIn(meta) == (if deflate then DEFLATE_CODEC else NULL_CODEC)
    requires At(buf, 0, HeaderBytes(entries, marker) + rest)
    ensures |HeaderBytes(entries, marker)| <= |buf| && At(buf, |HeaderBytes(entries, marker)|, rest)
    ensures ReadOcf(host, buf)
         == ReadBlocks(host, deflate, buf, |HeaderBytes(entries, marker)|, s, marker, Contents([], 0))
  {
    hide At, ReadBlocks, MetaMap, ReadMetadata, MetadataBytes, CodecIn, SchemaIn, ShortEntries, HeaderBytes;
    HeaderParts(buf, entries, marker, rest);
    NamesAre();
  }

  // ---- the round trip of a file ----------------------------------------------------

  predicate RecordsFit(js: Runtime, records: seq<JVal>, s: Schema)
    requires EncodeRecords(js, records, s).Ok?
  {
    records == [] || (T.LengthsFit(T.WireOf(js, records[0], s, 0)) && RecordsFit(js, records[1..], s))
  }

  function RecordForms(js: Runtime, records: seq<JVal>, s: Schema): (forms: seq<Wire>)
    requires EncodeRecords(js, records, s).Ok?
    ensures |forms| == |records|
  {
    if records == [] then [] else [T.WireOf(js, records[0], s, 0)] + RecordForms(js, records[1..], s)
  }

  function Before<T>(x: Option<T>, rest: Option<seq<T>>): Option<seq<T>> {
    if x.None? || rest.None? then None else Some([x.value] + rest.value)
  }

  /** The normal forms of the records; None when one cannot be read back within the limits of a block. */
  function NormRecords(js: Runtime, records: seq<JVal>, s: Schema, n: nat): Option<seq<DVal>>
    requires EncodeRecords(js, records, s).Ok?
    decreases records
  {
    if records == [] then Some([])
    else
      var x, w := Norm(js, records[0], s, 0), T.WireOf(js, records[0], s, 0);
      if x.None? || !Conforms(w, s) then None
      else
        var cost := ReadingOf(w, s);
        if n + 1 + cost.elements > MAX_ELEMENTS || !cost.short then None
        else Before(x, NormRecords(js, records[1..], s, n + 1 + cost.elements))
  }

  /** What the written form of one record is: conforming, with the bytes written and the value due. */
  lemma RecordStands(js: Runtime, v: JVal, s: Schema, data: bytes)
    requires EncodeValue(js, v, s, 0) == Ok(data) && T.LengthsFit(T.WireOf(js, v, s, 0))
    ensures var w := T.WireOf(js, v, s, 0);
            && Conforms(w, s) && Serialize(w, s) == data
            && ReadingOf(w, s).meaning == Norm(js, v, s, 0) && ReadingOf(w, s).height <= MAX_DEPTH
  {
    hide EncodeValue, Norm, T.WireOf, Conforms, Serialize, ReadingOf, T.LengthsFit;
    T.ValueStands(js, v, s, 0);
  }

  lemma {:induction false} RecordsConform(js: Runtime, records: seq<JVal>, s: Schema)
    requires EncodeRecords(js, records, s).Ok? && RecordsFit(js, records, s)
    ensures var forms := RecordForms(js, records, s);
            AllConform(forms, s) && FormsBytes(forms, s) == EncodeRecords(js, records, s).value
    decreases records
  {
    hide EncodeValue, T.WireOf, Conforms, Serialize, ReadingOf, T.LengthsFit;
    if records != [] {
      RecordStands(js, records[0], s, EncodeValue(js, records[0], s, 0).value);
      RecordsConform(js, records[1..], s);
      assert RecordForms(js, records, s)[1..] == RecordForms(js, records[1..], s);
    }
  }

  /** One step of the values of a list of forms. */
  lemma FormsValuesStep(forms: seq<Wire>, s: Schema, n: nat)
    requires AllConform(forms, s) && forms != []
    ensures AllConform(forms[1..], s)
    ensures var x := ReadingOf(forms[0], s);
            FormsValues(forms, s, n)
            == if !Possible(x, 0, n + 1) then None
               else Before(x.meaning, FormsValues(forms[1..], s, n + 1 + x.elements))
  {
    hide ReadingOf, Conforms;
  }

  lemma {:induction false} RecordsStand(js: Runtime, records: seq<JVal>, s: Schema, n: nat)
    requires EncodeRecords(js, records, s).Ok? && RecordsFit(js, records, s)
    requires AllConform(RecordForms(js, records, s), s)
    ensures FormsValues(RecordForms(js, records, s), s, n) == NormRecords(js, records, s, n)
    decreases records
  {
    hide EncodeValue, Norm, T.WireOf, Conforms, Serialize, ReadingOf, T.LengthsFit, FormsBytes;
    var forms := RecordForms(js, records, s);
    if records != [] {
      RecordStands(js, records[0], s, EncodeValue(js, records[0], s, 0).value);
      assert forms[1..] == RecordForms(js, records[1..], s);
      FormsValuesStep(forms, s, n);
      hide FormsValues, AllConform;
      var next := n + 1 + ReadingOf(forms[0], s).elements;
      RecordsStand(js, records[1..], s, next);
    }
  }

  lemma OwnMetadataMap(host: Host, json: bytes, s: Schema)
    requires host.parse(json) == Some(s) && |json| <= MAX_STRING_BYTES
    ensures var entries := OwnMetadata(json);
            && ShortEntries(entries) && IsLong(|entries|)
            && SchemaIn(host, MetaMap(map[], entries)) == Ok(s) && CodecIn(MetaMap(map[], entries)) == NULL_CODEC
  {
    var entries := OwnMetadata(json);
    assert entries[1..] == [MetaEntry(CODEC_KEY, NULL_CODEC)] && entries[1..][1..] == [];
    assert SCHEMA_KEY != CODEC_KEY;
    var one: map<bytes, bytes> := map[][SCHEMA_KEY := json];
    assert MetaMap(map[], entries) == MetaMap(one, entries[1..]) == one[CODEC_KEY := NULL_CODEC];
    LengthIsLong(2);
  }

  /** A file of one section and the closing zero, or of an empty block. */
  lemma OwnBlockRead(host: Host, data: bytes, forms: seq<Wire>, marker: Marker, buf: bytes, pos: nat, s: Schema)
    requires AllConform(forms, s) && FormsBytes(forms, s) == data && IsLong(|forms|) && IsLong(|data|)
    requires At(buf, pos, FileBlock(|forms|, data, marker) + [0]) && pos <= |buf|
    ensures var vs, r := FormsValues(forms, s, 0), ReadBlocks(host, false, buf, pos, s, marker, Contents([], 0));
            if vs.Some? then r == Ok(Contents(vs.value, if forms == [] then 0 else 1)) else r.Err?
  {
    hide At, AvroVarint.Fits, FormsValues, FormsBytes, AllConform, ReadBlocks, LongBytes;
    AtConcat(buf, pos, FileBlock(|forms|, data, marker), [0]);
    if forms == [] {
      NoForms(s);
      AtConcat(buf, pos, LongBytes(0), LongBytes(|data|) + data + marker);
      assert FileBlock(0, data, marker) == LongBytes(0) + (LongBytes(|data|) + data + marker);
      EmptyBlockEnds(host, buf, pos, s, marker);
    } else {
      OneSectionRead(host, data, forms, marker, buf, pos, s);
    }
  }

  lemma NoForms(s: Schema)
    ensures FormsValues([], s, 0) == Some([])
  {
  }

  lemma EmptyBlockEnds(host: Host, buf: bytes, pos: nat, s: Schema, marker: Marker)
    requires At(buf, pos, LongBytes(0)) && pos <= |buf|
    ensures ReadBlocks(host, false, buf, pos, s, marker, Contents([], 0)) == Ok(Contents([], 0))
  {
    hide At, ReadLongAt, LongBytes;
    LengthIsLong(0);
    LongRead(buf, pos, 0);
  }

  lemma OneSectionRead(host: Host, data: bytes, forms: seq<Wire>, marker: Marker, buf: bytes, pos: nat, s: Schema)
    requires forms != [] && AllConform(forms, s) && FormsBytes(forms, s) == data && IsLong(|forms|) && IsLong(|data|)
    requires At(buf, pos, FileBlock(|forms|, data, marker) + [0]) && pos <= |buf|
    ensures var vs, r := FormsValues(forms, s, 0), ReadBlocks(host, false, buf, pos, s, marker, Contents([], 0));
            if vs.Some? then r == Ok(Contents(vs.value, 1)) else r.Err?
  {
    hide At, AvroVarint.Fits, FormsValues, FormsBytes, AllConform, FileBlock, ReadBlocks, ReadLongAt;
    var block := FileBlock(|forms|, data, marker);
    AtConcat(buf, pos, block, [0]);
    AtSlice(data, 0, data);
    var x := Section(data, forms, marker);
    var xs := [x];
    assert xs[1..] == [] && SectionsBytes(xs) == block + [] == block;
    ZeroEnds(buf, pos + |block|);
    SectionsRead(host, false, buf, pos, s, xs, marker, Contents([], 0));
    var vs := FormsValues(forms, s, 0);
    if vs.Some? {
      assert [] + vs.value == vs.value;
      assert FileResult(host, false, s, xs[1..], marker, Contents(vs.value, 1)) == Good(Contents(vs.value, 1));
    }
  }

  lemma ZeroEnds(buf: bytes, pos: nat)
    requires At(buf, pos, [0])
    ensures Ends(buf, pos)
  {
    hide ReadLongAt;
    EndReads(buf, pos);
  }

  /** A text behind its length. */
  function Lengthy(data: bytes): bytes {
    LongBytes(|data|) + data
  }

  /** The bytes of a built file: magic, two metadata entries, marker, one block with all records, marker, a closing zero. */
  lemma FileLayout(js: Runtime, records: seq<JVal>, s: Schema, json: bytes, marker: Marker)
    requires EncodeRecords(js, records, s).Ok?
    ensures BuildOcf(js, records, s, json, marker)
         == Ok(Ascii("Obj") + [1]
               + LongBytes(2) + Lengthy(Ascii("avro.schema")) + Lengthy(json) + Lengthy(Ascii("avro.codec")) + Lengthy(Ascii("null")) + [0]
               + marker + LongBytes(|records|) + Lengthy(EncodeRecords(js, records, s).value) + marker + [0])
  {
    hide LongBytes, EncodeRecords;
    NamesAre();
    var entries := OwnMetadata(json);
    assert entries[1..] == [MetaEntry(CODEC_KEY, NULL_CODEC)] && entries[1..][1..] == [];
    var data, schema, own, codec, none := EncodeRecords(js, records, s).value, Sized(SCHEMA_KEY), Sized(json), Sized(CODEC_KEY), Sized(NULL_CODEC);
    assert MetaEntryBytes(entries[1..]) == codec + none;
    assert MetaEntryBytes(entries) == schema + own + (codec + none);
    hide Sized, MetaEntryBytes;
    var two, count, size := LongBytes(2), LongBytes(|records|), LongBytes(|data|);
    assert MAGIC + (two + (schema + own + (codec + none)) + [0]) + marker + (count + size + data + marker + [0])
        == MAGIC + two + schema + own + codec + none + [0] + marker + count + (size + data) + marker + [0];
  }

  /** Reading what was built gives the normal forms of all the records, and the empty list for none. */
  lemma FileRoundTrip(js: Runtime, host: Host, records: seq<JVal>, s: Schema, json: bytes, marker: Marker)
    requires host.parse(json) == Some(s) && |json| <= MAX_STRING_BYTES
    requires EncodeRecords(js, records, s).Ok? && RecordsFit(js, records, s)
    requires IsLong(|records|) && IsLong(|EncodeRecords(js, records, s).value|)
    ensures var file := BuildOcf(js, records, s, json, marker);
            && file.Ok?
            && var vs := NormRecords(js, records, s, 0);
            if vs.Some? then ReadOcf(host, file.value) == Ok(Contents(vs.value, if records == [] then 0 else 1))
            else ReadOcf(host, file.value).Err?
  {
    hide At, AvroVarint.Fits, ReadOcf, ReadBlocks, MetaMap, FileBlock, HeaderBytes, RecordForms, EncodeRecords, NormRecords, FormsValues;
    var data := EncodeRecords(js, records, s).value;
    var header, block := HeaderBytes(OwnMetadata(json), marker), FileBlock(|records|, data, marker) + [0];
    var buf := header + block;
    AtSlice(buf, 0, buf);
    OwnMetadataMap(host, json, s);
    HeaderRead(host, OwnMetadata(json), MetaMap(map[], OwnMetadata(json)), false, marker, block, buf, s);
    RecordsConform(js, records, s);
    RecordsStand(js, records, s, 0);
    OwnBlockRead(host, data, RecordForms(js, records, s), marker, buf, |header|, s);
  }
}
