/**
 The schema-directed decoder as a function of (buffer, offset, elements counted so far), and
 the reader class whose methods advance those in place and agree with the function.
 */
module AvroReading {
  import opened Bytes
  import opened AvroVarint
  import opened AvroCodec
  import opened Objects

  datatype ReadError =
    | UnexpectedEnd | VarintOverflow | NegativeLength | TooLarge | TooDeep | ElementLimit
    | EnumRange | BranchRange | BadFixed | UnsupportedType
    | NotContainer | NoSchema | BadSchema | UnknownCodec | SyncMismatch | BadBlock

  datatype Out<+T> = Done(value: T, pos: nat, n: nat) | Fail(error: ReadError)

  function VarFailure(e: VarError): ReadError {
    match e case EndOfData => UnexpectedEnd case Overflow => VarintOverflow
  }

  /** A length and that many bytes. */
  function SizedAt(buf: bytes, pos: nat, n: nat): (r: Out<bytes>)
    requires pos <= |buf|
    ensures r.Done? ==> pos <= r.pos <= |buf| && r.n == n
  {
    match ReadLongAt(buf, pos)
    case Unread(e) => Fail(VarFailure(e))
    case Read(len, p) =>
      if len < 0 then Fail(NegativeLength)
      else if len > MAX_STRING_BYTES then Fail(TooLarge)
      else if p + len > |buf| then Fail(UnexpectedEnd)
      else Done(buf[p..p + len], p + len, n)
  }

  function RawAt(buf: bytes, pos: nat, n: nat, size: nat): (r: Out<bytes>)
    requires pos <= |buf|
    ensures r.Done? ==> pos <= r.pos <= |buf| && r.n == n
  {
    if pos + size > |buf| then Fail(UnexpectedEnd) else Done(buf[pos..pos + size], pos + size, n)
  }

  predicate IsPrimitive(s: Schema) {
    !s.SRecord? && !s.SArray? && !s.SMap? && !s.SUnion?
  }

  function DecodePrimitive(buf: bytes, pos: nat, n: nat, s: Schema): (r: Out<DVal>)
    requires pos <= |buf| && IsPrimitive(s)
    ensures r.Done? ==> pos <= r.pos <= |buf| && r.n == n
  {
    match s
    case SNull => Done(DNull, pos, n)
    case SBoolean => if pos == |buf| then Fail(UnexpectedEnd) else Done(DBool(buf[pos] != 0), pos + 1, n)
    case SInt =>
      (match ReadLongAt(buf, pos)
       case Unread(e) => Fail(VarFailure(e))
       case Read(v, p) => Done(DNum(AsInt(v, 32)), p, n))
    case SLong =>
      (match ReadLongAt(buf, pos)
       case Unread(e) => Fail(VarFailure(e))
       case Read(v, p) => Done(LongValue(v), p, n))
    case SFloat => (match RawAt(buf, pos, n, 4) case Fail(e) => Fail(e) case Done(data, p, _) => Done(DFloat(data), p, n))
    case SDouble => (match RawAt(buf, pos, n, 8) case Fail(e) => Fail(e) case Done(data, p, _) => Done(DDouble(data), p, n))
    case SBytes => (match SizedAt(buf, pos, n) case Fail(e) => Fail(e) case Done(data, p, _) => Done(DBytes(data), p, n))
    case SString => (match SizedAt(buf, pos, n) case Fail(e) => Fail(e) case Done(data, p, _) => Done(DText(data), p, n))
    case SEnum(symbols) =>
      (match ReadLongAt(buf, pos)
       case Unread(e) => Fail(VarFailure(e))
       case Read(v, p) =>
         var symbol := SymbolValue(symbols, AsInt(v, 32));
         if symbol.None? then Fail(EnumRange) else Done(symbol.value, p, n))
    case SFixed(size) =>
      if size <= 0 then Fail(BadFixed)
      else (match RawAt(buf, pos, n, size) case Fail(e) => Fail(e) case Done(data, p, _) => Done(DFixed(data), p, n))
    case Other => Fail(UnsupportedType)
  }

  function DecodeValue(buf: bytes, pos: nat, n: nat, s: Schema, depth: nat): (r: Out<DVal>)
    requires pos <= |buf|
    ensures r.Done? ==> pos <= r.pos <= |buf|
    decreases s, 1
  {
    if depth > MAX_DEPTH then Fail(TooDeep)
    else
      match s
      case SRecord(fields) =>
        (match DecodeFields(buf, pos, n, fields, depth + 1, [])
         case Fail(e) => Fail(e)
         case Done(props, p, n') => Done(DObject(PutAll([], props)), p, n'))
      case SArray(items) =>
        (match DecodeBlocks(buf, pos, n, items, false, depth + 1, [])
         case Fail(e) => Fail(e)
         case Done(props, p, n') => Done(DArray(Values(props)), p, n'))
      case SMap(values) =>
        (match DecodeBlocks(buf, pos, n, values, true, depth + 1, [])
         case Fail(e) => Fail(e)
         case Done(props, p, n') => Done(DObject(PutAll([], props)), p, n'))
      case SUnion(branches) =>
        (match ReadLongAt(buf, pos)
         case Unread(e) => Fail(VarFailure(e))
         case Read(i, p) =>
           if i < 0 || i >= |branches| then Fail(BranchRange)
           else
             match DecodeValue(buf, p, n, branches[i], depth + 1)
             case Fail(e) => Fail(e)
             case Done(v, p', n') => Done(BranchValue(branches, i, v), p', n'))
      case _ => DecodePrimitive(buf, pos, n, s)
  }

  function Values(props: seq<DProp>): (vs: seq<DVal>)
    ensures |vs| == |props|
  {
    if props == [] then [] else [props[0].value] + Values(props[1..])
  }

  function DecodeFields(buf: bytes, pos: nat, n: nat, fields: seq<Field>, depth: nat, acc: seq<DProp>): (r: Out<seq<DProp>>)
    requires pos <= |buf|
    ensures r.Done? ==> pos <= r.pos <= |buf|
    decreases fields, 0
  {
    if fields == [] then Done(acc, pos, n)
    else if n + 1 > MAX_ELEMENTS then Fail(ElementLimit)
    else
      match DecodeValue(buf, pos, n + 1, fields[0].schema, depth)
      case Fail(e) => Fail(e)
      case Done(v, p, n') => DecodeFields(buf, p, n', fields[1..], depth, acc + [Property(fields[0].name, v)])
  }

  /**
   Blocks up to the one with count 0, for arrays and for maps (`keyed`). A negative count is
   followed by a byte size, which is read and ignored. Items of arrays have no name.
   */
  function DecodeBlocks(buf: bytes, pos: nat, n: nat, s: Schema, keyed: bool, depth: nat, acc: seq<DProp>): (r: Out<seq<DProp>>)
    requires pos <= |buf|
    ensures r.Done? ==> pos <= r.pos <= |buf|
    decreases s, 3, |buf| - pos
  {
    match BlockHead(buf, pos)
    case Unread(e) => Fail(VarFailure(e))
    case Read(count, p) =>
      if count == 0 then Done(acc, p, n)
      else
        match DecodeEntries(buf, p, n, s, keyed, depth, count, acc)
        case Fail(e) => Fail(e)
        case Done(acc', p', n') => DecodeBlocks(buf, p', n', s, keyed, depth, acc')
  }

  /** The number of items of a block, with the byte size of a negative count skipped. */
  function BlockHead(buf: bytes, pos: nat): (r: VarOut)
    requires pos <= |buf|
    ensures r.Read? ==> pos < r.pos <= |buf| && r.value >= 0
  {
    match ReadLongAt(buf, pos)
    case Unread(e) => Unread(e)
    case Read(count, p) =>
      if count >= 0 then Read(count, p)
      else
        match ReadLongAt(buf, p)
        case Unread(e) => Unread(e)
        case Read(_, p') => Read(-count, p')
  }

  function DecodeEntries(buf: bytes, pos: nat, n: nat, s: Schema, keyed: bool, depth: nat, left: nat, acc: seq<DProp>): (r: Out<seq<DProp>>)
    requires pos <= |buf|
    ensures r.Done? ==> pos <= r.pos <= |buf|
    decreases s, 2, left
  {
    if left == 0 then Done(acc, pos, n)
    else if n + 1 > MAX_ELEMENTS then Fail(ElementLimit)
    else
      match KeyAt(buf, pos, n + 1, keyed)
      case Fail(e) => Fail(e)
      case Done(key, p, n') =>
        match DecodeValue(buf, p, n', s, depth)
        case Fail(e) => Fail(e)
        case Done(v, p', n'') => DecodeEntries(buf, p', n'', s, keyed, depth, left - 1, acc + [Property(key, v)])
  }

  function KeyAt(buf: bytes, pos: nat, n: nat, keyed: bool): (r: Out<bytes>)
    requires pos <= |buf|
    ensures r.Done? ==> pos <= r.pos <= |buf| && r.n == n
  {
    if keyed then SizedAt(buf, pos, n) else Done([], pos, n)
  }

  lemma EntriesStep(buf: bytes, pos: nat, n: nat, s: Schema, keyed: bool, depth: nat, left: nat, acc: seq<DProp>)
    requires pos <= |buf| && left > 0
    ensures n + 1 > MAX_ELEMENTS ==> DecodeEntries(buf, pos, n, s, keyed, depth, left, acc) == Fail(ElementLimit)
    ensures n + 1 <= MAX_ELEMENTS ==>
      var k := KeyAt(buf, pos, n + 1, keyed);
      DecodeEntries(buf, pos, n, s, keyed, depth, left, acc)
      == if k.Fail? then Fail(k.error)
         else if DecodeValue(buf, k.pos, k.n, s, depth).Fail? then Fail(DecodeValue(buf, k.pos, k.n, s, depth).error)
         else
           var v := DecodeValue(buf, k.pos, k.n, s, depth);
           DecodeEntries(buf, v.pos, v.n, s, keyed, depth, left - 1, acc + [Property(k.value, v.value)])
  {
    hide KeyAt, DecodeValue;
  }

  lemma NoEntriesLeft(buf: bytes, pos: nat, n: nat, s: Schema, keyed: bool, depth: nat, acc: seq<DProp>)
    requires pos <= |buf|
    ensures DecodeEntries(buf, pos, n, s, keyed, depth, 0, acc) == Done(acc, pos, n)
  {
  }

  lemma KeyIs(buf: bytes, pos: nat, n: nat, keyed: bool)
    requires pos <= |buf|
    ensures KeyAt(buf, pos, n, keyed) == if keyed then SizedAt(buf, pos, n) else Done([], pos, n)
  {
  }

  // ---- the reader ------------------------------------------------------------------

  ghost predicate Agrees<T>(reader: AvroReader, r: Result<T, ReadError>, spec: Out<T>)
    reads reader
  {
    match spec
    case Done(v, p, n) => r == Ok(v) && reader.pos == p && reader.elements == n
    case Fail(e) => r == Err(e)
  }

  ghost predicate AgreesVar(reader: AvroReader, r: Result<int, ReadError>, spec: VarOut)
    reads reader
  {
    match spec
    case Read(v, p) => r == Ok(v) && reader.pos == p
    case Unread(e) => r == Err(VarFailure(e))
  }

  class AvroReader {
    const buf: bytes
    var pos: nat
    var elements: nat

    ghost predicate Valid()
      reads this
    {
      pos <= |buf|
    }

    constructor (buf: bytes)
      ensures Valid() && this.buf == buf && pos == 0 && elements == 0
    {
      this.buf, pos, elements := buf, 0, 0;
    }

    method ReadBytes(len: int) returns (r: Result<bytes, ReadError>)
      requires Valid()
      modifies this`pos
      ensures Valid()
      ensures if len < 0 || old(pos) + len > |buf| then r == Err(UnexpectedEnd) && pos == old(pos)
              else r == Ok(buf[old(pos)..old(pos) + len]) && pos == old(pos) + len
    {
      if len < 0 || pos + len > |buf| { return Err(UnexpectedEnd); }
      r := Ok(buf[pos..pos + len]);
      pos := pos + len;
    }

    method TrackElement() returns (ok: bool)
      modifies this`elements
      ensures elements == old(elements) + 1 && ok == (elements <= MAX_ELEMENTS)
    {
      elements := elements + 1;
      ok := elements <= MAX_ELEMENTS;
    }

    method ReadLong() returns (r: Result<int, ReadError>)
      requires Valid()
      modifies this`pos
      ensures Valid()
      ensures AgreesVar(this, r, ReadLongAt(buf, old(pos)))
    {
      var result: nat, shift: nat := 0, 0;
      while true
        invariant Valid()
        invariant ReadLongAt(buf, old(pos)) == ReadVar(buf, pos, shift, result)
        decreases |buf| - pos
      {
        if pos >= |buf| { return Err(UnexpectedEnd); }
        var b := buf[pos];
        pos := pos + 1;
        result := result + b % 128 * Pow2(shift);
        shift := shift + 7;
        if b < 128 { break; }
        if shift > 70 { return Err(VarintOverflow); }
      }
      return Ok(UnZigZag(result));
    }

    method ReadSized() returns (r: Result<bytes, ReadError>)
      requires Valid()
      modifies this`pos
      ensures Valid()
      ensures Agrees(this, r, SizedAt(buf, old(pos), elements))
    {
      var len := ReadLong();
      if len.Err? { return Err(len.error); }
      if len.value < 0 { return Err(NegativeLength); }
      if len.value > MAX_STRING_BYTES { return Err(TooLarge); }
      r := ReadBytes(len.value);
    }

    method DecodePrimitiveValue(s: Schema) returns (r: Result<DVal, ReadError>)
      requires Valid() && IsPrimitive(s)
      modifies this`pos
      ensures Valid()
      ensures Agrees(this, r, DecodePrimitive(buf, old(pos), elements, s))
    {
      match s {
        case SNull => return Ok(DNull);
        case SBoolean =>
          var b := ReadBytes(1);
          return if b.Err? then Err(b.error) else Ok(DBool(b.value[0] != 0));
        case SInt =>
          var v := ReadLong();
          return if v.Err? then Err(v.error) else Ok(DNum(AsInt(v.value, 32)));
        case SLong =>
          var v := ReadLong();
          return if v.Err? then Err(v.error) else Ok(LongValue(v.value));
        case SFloat =>
          var data := ReadBytes(4);
          return if data.Err? then Err(data.error) else Ok(DFloat(data.value));
        case SDouble =>
          var data := ReadBytes(8);
          return if data.Err? then Err(data.error) else Ok(DDouble(data.value));
        case SBytes =>
          var data := ReadSized();
          return if data.Err? then Err(data.error) else Ok(DBytes(data.value));
        case SString =>
          var data := ReadSized();
          return if data.Err? then Err(data.error) else Ok(DText(data.value));
        case SEnum(symbols) =>
          var v := ReadLong();
          if v.Err? { return Err(v.error); }
          var symbol := SymbolValue(symbols, AsInt(v.value, 32));
          return if symbol.None? then Err(EnumRange) else Ok(symbol.value);
        case SFixed(size) =>
          if size <= 0 { return Err(BadFixed); }
          var data := ReadBytes(size);
          return if data.Err? then Err(data.error) else Ok(DFixed(data.value));
        case Other => return Err(UnsupportedType);
      }
    }

    method Decode(s: Schema, depth: nat) returns (r: Result<DVal, ReadError>)
      requires Valid()
      modifies this
      ensures Valid()
      ensures Agrees(this, r, DecodeValue(buf, old(pos), old(elements), s, depth))
      decreases s, 1
    {
      if depth > MAX_DEPTH { return Err(TooDeep); }
      match s {
        case SRecord(fields) =>
          var props := DecodeRecord(fields, depth + 1);
          return if props.Err? then Err(props.error) else Ok(DObject(PutAll([], props.value)));
        case SArray(items) =>
          var props := DecodeAllBlocks(items, false, depth + 1);
          return if props.Err? then Err(props.error) else Ok(DArray(Values(props.value)));
        case SMap(values) =>
          var props := DecodeAllBlocks(values, true, depth + 1);
          return if props.Err? then Err(props.error) else Ok(DObject(PutAll([], props.value)));
        case SUnion(branches) =>
          var i := ReadLong();
          if i.Err? { return Err(i.error); }
          if i.value < 0 || i.value >= |branches| { return Err(BranchRange); }
          var v := Decode(branches[i.value], depth + 1);
          return if v.Err? then v else Ok(BranchValue(branches, i.value, v.value));
        case _ =>
          r := DecodePrimitiveValue(s);
      }
    }

    method DecodeRecord(fields: seq<Field>, depth: nat) returns (r: Result<seq<DProp>, ReadError>)
      requires Valid()
      modifies this
      ensures Valid()
      ensures Agrees(this, r, DecodeFields(buf, old(pos), old(elements), fields, depth, []))
      decreases fields, 0
    {
      var props := [];
      for i := 0 to |fields|
        invariant Valid()
        invariant DecodeFields(buf, old(pos), old(elements), fields, depth, [])
               == DecodeFields(buf, pos, elements, fields[i..], depth, props)
      {
        assert fields[i..][1..] == fields[i + 1..];
        var ok := TrackElement();
        if !ok { return Err(ElementLimit); }
        var v := Decode(fields[i].schema, depth);
        if v.Err? { return Err(v.error); }
        props := props + [Property(fields[i].name, v.value)];
      }
      return Ok(props);
    }

    method ReadBlockHead() returns (r: Result<int, ReadError>)
      requires Valid()
      modifies this`pos
      ensures Valid()
      ensures AgreesVar(this, r, BlockHead(buf, old(pos)))
    {
      var count := ReadLong();
      if count.Err? || count.value >= 0 { return count; }
      var size := ReadLong();
      return if size.Err? then size else Ok(-count.value);
    }

    /** decodeArray and decodeMap, which differ only in the key read before each item. */
    method DecodeAllBlocks(s: Schema, keyed: bool, depth: nat) returns (r: Result<seq<DProp>, ReadError>)
      requires Valid()
      modifies this
      ensures Valid()
      ensures Agrees(this, r, DecodeBlocks(buf, old(pos), old(elements), s, keyed, depth, []))
      decreases s, 3
    {
      var props := [];
      while true
        invariant Valid()
        invariant DecodeBlocks(buf, old(pos), old(elements), s, keyed, depth, [])
               == DecodeBlocks(buf, pos, elements, s, keyed, depth, props)
        decreases |buf| - pos
      {
        var count := ReadBlockHead();
        if count.Err? { return Err(count.error); }
        if count.value == 0 { return Ok(props); }
        var more := DecodeBlock(s, keyed, depth, count.value, props);
        if more.Err? { return more; }
        props := more.value;
      }
    }

    method DecodeBlock(s: Schema, keyed: bool, depth: nat, count: nat, acc: seq<DProp>) returns (r: Result<seq<DProp>, ReadError>)
      requires Valid()
      modifies this
      ensures Valid()
      ensures Agrees(this, r, DecodeEntries(buf, old(pos), old(elements), s, keyed, depth, count, acc))
      decreases s, 2
    {
      hide DecodeEntries, DecodeValue, KeyAt;
      var props := acc;
      for i := 0 to count
        invariant Valid()
        invariant DecodeEntries(buf, old(pos), old(elements), s, keyed, depth, count, acc)
               == DecodeEntries(buf, pos, elements, s, keyed, depth, count - i, props)
      {
        EntriesStep(buf, pos, elements, s, keyed, depth, count - i, props);
        KeyIs(buf, pos, elements + 1, keyed);
        var ok := TrackElement();
        if !ok { return Err(ElementLimit); }
        var key := Ok([]);
        if keyed {
          key := ReadSized();
          if key.Err? { return Err(key.error); }
        }
        var v := Decode(s, depth);
        if v.Err? { return Err(v.error); }
        props := props + [Property(key.value, v.value)];
      }
      NoEntriesLeft(buf, pos, elements, s, keyed, depth, props);
      return Ok(props);
    }
  }
}
