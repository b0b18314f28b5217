/** Schemas and values of the Avro tool, the encoder, and the normal form that decoding gives back. */
module AvroCodec {
  import opened Bytes
  import opened AvroVarint
  import opened Objects

  const MAX_DEPTH := 64
  const MAX_ELEMENTS := 1_000_000
  const MAX_STRING_BYTES := 67_108_864
  const MAX_SAFE_INTEGER := 0x1F_FFFF_FFFF_FFFF

  datatype Number = NaN | PosInf | NegInf | Fin(r: real)

  /** A JavaScript value; an object is its own enumerable properties in order. */
  datatype JVal =
    | Null
    | Undefined
    | Bool(b: bool)
    | Num(x: Number)
    | BigInt(n: int)
    | Str(utf8: bytes)
    | Buf(data: bytes)
    | Arr(items: seq<JVal>)
    | Obj(props: seq<Prop>)

  datatype Prop = Prop(name: bytes, value: JVal)

  /** A normalized schema; `Other` stands for every type name or shape the tool does not support. */
  datatype Schema =
    | SNull | SBoolean | SInt | SLong | SFloat | SDouble | SBytes | SString
    | SRecord(fields: seq<Field>)
    | SEnum(symbols: seq<bytes>)
    | SArray(items: Schema)
    | SMap(values: Schema)
    | SUnion(branches: seq<Schema>)
    | SFixed(size: int)
    | Other

  datatype Field = Field(name: bytes, schema: Schema, default: Option<JVal>)

  type bytes4 = s: bytes | |s| == 4 witness [0, 0, 0, 0]
  type bytes8 = s: bytes | |s| == 8 witness [0, 0, 0, 0, 0, 0, 0, 0]

  /**
   The conversions of the JavaScript runtime on values outside the ones matched below:
   Number(x) and String(x) (None where they throw), base64 decoding, the IEEE 754 images of
   the double nearest to a number, and Object.entries of a buffer.
   */
  datatype Runtime = Runtime(
    number: JVal -> Option<Number>,
    text: JVal -> Option<bytes>,
    base64: bytes -> bytes,
    single: Number -> bytes4,
    double: Number -> bytes8,
    entries: bytes -> seq<Prop>)

  datatype Error =
    | DepthLimit | NotNull | IntRange | NotANumber | NotBytes | NotText | NotObject | MissingField
    | EnumIndexRange | EnumSymbolUnknown | EnumKind | NotArray | FixedSize | UnionIndexRange | UnionKind
    | Unsupported

  // ---- conversions -----------------------------------------------------------------

  function ToNumber(js: Runtime, v: JVal): Option<Number> {
    match v
    case Num(x) => Some(x)
    case BigInt(n) => Some(Fin(n as real))
    case Null => Some(Fin(0.0))
    case Undefined => Some(NaN)
    case Bool(b) => Some(Fin(if b then 1.0 else 0.0))
    case _ => js.number(v)
  }

  function ToText(js: Runtime, v: JVal): Option<bytes> {
    if v.Str? then Some(v.utf8) else js.text(v)
  }

  function Truthy(v: JVal): bool {
    match v
    case Null => false
    case Undefined => false
    case Bool(b) => b
    case Num(x) => !x.NaN? && x != Fin(0.0)
    case BigInt(n) => n != 0
    case Str(utf8) => utf8 != []
    case _ => true
  }

  function Trunc(r: real): int {
    if r >= 0.0 then r.Floor else -((-r).Floor)
  }

  predicate IsInteger(x: Number) {
    x.Fin? && x.r.Floor as real == x.r
  }

  /** The integer written for an `int`; a value that is not a number is written as 0. */
  function IntOf(js: Runtime, v: JVal): Result<int, Error> {
    match ToNumber(js, v)
    case None => Err(NotANumber)
    case Some(NaN) => Ok(0)
    case Some(Fin(r)) => if -0x8000_0000 <= Trunc(r) <= 0x7FFF_FFFF then Ok(Trunc(r)) else Err(IntRange)
    case Some(_) => Err(IntRange)
  }

  /** The integer written for a `long`: bigints wrap to 64 bits, other numbers are truncated. */
  function LongOf(js: Runtime, v: JVal): Result<int, Error> {
    if v.BigInt? then Ok(AsInt(v.n, 64))
    else
      match ToNumber(js, v)
      case Some(Fin(r)) => Ok(Trunc(r))
      case _ => Err(NotANumber)
  }

  function BytesOf(js: Runtime, v: JVal): Result<bytes, Error> {
    match v
    case Buf(data) => Ok(data)
    case Str(utf8) => Ok(js.base64(utf8))
    case _ => Err(NotBytes)
  }

  function SymbolIndex(symbols: seq<bytes>, name: bytes, from: nat): (i: Option<nat>)
    requires from <= |symbols|
    ensures i.Some? ==> from <= i.value < |symbols| && symbols[i.value] == name && name !in symbols[from..i.value]
    ensures i.None? ==> name !in symbols[from..]
    decreases |symbols| - from
  {
    if from == |symbols| then None
    else if symbols[from] == name then Some(from)
    else SymbolIndex(symbols, name, from + 1)
  }

  /** The index written for an enum. No comparison refuses NaN, which is then written as 0. */
  function EnumIndexOf(symbols: seq<bytes>, v: JVal): Result<int, Error> {
    match v
    case Num(NaN) => Ok(0)
    case Num(Fin(r)) => if r < 0.0 || r >= |symbols| as real then Err(EnumIndexRange) else Ok(Trunc(r))
    case Num(_) => Err(EnumIndexRange)
    case Str(name) =>
      (match SymbolIndex(symbols, name, 0)
       case None => Err(EnumSymbolUnknown)
       case Some(i) => Ok(i))
    case _ => Err(EnumKind)
  }

  function Lookup(props: seq<Prop>, name: bytes): Option<JVal> {
    if props == [] then None
    else if props[0].name == name then Some(props[0].value)
    else Lookup(props[1..], name)
  }

  /** Values that pass `typeof x === "object"`, are not null and not arrays. */
  predicate IsObject(v: JVal) { v.Obj? || v.Buf? }

  function PropsOf(v: JVal): seq<Prop> {
    if v.Obj? then v.props else []
  }

  function EntriesOf(js: Runtime, v: JVal): seq<Prop> {
    match v
    case Obj(props) => props
    case Buf(data) => js.entries(data)
    case _ => []
  }

  // ---- unions ----------------------------------------------------------------------

  // "__avro_union", "index" and "value"
  const UNION_KEY: bytes := [0x5F, 0x5F, 0x61, 0x76, 0x72, 0x6F, 0x5F, 0x75, 0x6E, 0x69, 0x6F, 0x6E]
  const INDEX_KEY: bytes := [0x69, 0x6E, 0x64, 0x65, 0x78]
  const VALUE_KEY: bytes := [0x76, 0x61, 0x6C, 0x75, 0x65]

  predicate Suits(v: JVal, s: Schema) {
    match s
    case SNull => v.Null?
    case SBoolean => v.Bool?
    case SInt => (v.Num? && IsInteger(v.x)) || v.BigInt?
    case SLong => (v.Num? && IsInteger(v.x)) || v.BigInt?
    case SFloat => v.Num? && !IsInteger(v.x)
    case SDouble => v.Num? && !IsInteger(v.x)
    case SString => v.Str?
    case SBytes => v.Buf? || v.Str?
    case SArray(_) => v.Arr?
    case SRecord(_) => IsObject(v)
    case SMap(_) => IsObject(v)
    case _ => false
  }

  /** The first branch that suits the value. */
  function InferBranch(v: JVal, branches: seq<Schema>, from: nat): (i: Option<nat>)
    requires from <= |branches|
    ensures i.Some? ==> from <= i.value < |branches| && Suits(v, branches[i.value])
    ensures i.Some? ==> forall j :: from <= j < i.value ==> !Suits(v, branches[j])
    ensures i.None? ==> forall j :: from <= j < |branches| ==> !Suits(v, branches[j])
    decreases |branches| - from
  {
    if from == |branches| then None
    else if Suits(v, branches[from]) then Some(from)
    else InferBranch(v, branches, from + 1)
  }

  /** The branch index and the value written under it: named by an __avro_union wrapper, or inferred. */
  function BranchOf(v: JVal, branches: seq<Schema>): (r: Result<(nat, JVal), Error>)
    ensures r.Ok? ==> r.value.0 < |branches|
  {
    var wrapper := Lookup(PropsOf(v), UNION_KEY);
    if wrapper.Some? then
      var u := PropsOf(wrapper.value);
      match Lookup(u, INDEX_KEY)
      case Some(Num(Fin(r))) =>
        if r.Floor as real == r && 0.0 <= r < |branches| as real
        then Ok((r.Floor, match Lookup(u, VALUE_KEY) case Some(x) => x case None => Undefined))
        else Err(UnionIndexRange)
      case _ => Err(UnionIndexRange)
    else
      match InferBranch(v, branches, 0)
      case None => Err(UnionKind)
      case Some(i) => Ok((i, v))
  }

  // ---- the encoder -----------------------------------------------------------------

  function Sized(data: bytes): (s: bytes)
    ensures |s| >= 1
  {
    LongBytes(|data|) + data
  }

  function EncodeValue(js: Runtime, v: JVal, s: Schema, depth: nat): Result<bytes, Error>
    decreases s, 1
  {
    if depth > MAX_DEPTH then Err(DepthLimit)
    else
      match s
      case SRecord(fields) =>
        if !IsObject(v) then Err(NotObject) else EncodeFields(js, PropsOf(v), fields, depth + 1)
      case SArray(items) =>
        if !v.Arr? then Err(NotArray)
        else if v.items == [] then Ok([0])
        else
          (match EncodeItems(js, v.items, items, depth + 1)
           case Err(e) => Err(e)
           case Ok(data) => Ok(LongBytes(|v.items|) + data + [0]))
      case SMap(values) =>
        if !IsObject(v) then Err(NotObject)
        else
          var props := EntriesOf(js, v);
          if props == [] then Ok([0])
          else
            (match EncodeProps(js, props, values, depth + 1)
             case Err(e) => Err(e)
             case Ok(data) => Ok(LongBytes(|props|) + data + [0]))
      case SUnion(branches) =>
        (match BranchOf(v, branches)
         case Err(e) => Err(e)
         case Ok(b) =>
           match EncodeValue(js, b.1, branches[b.0], depth + 1)
           case Err(e) => Err(e)
           case Ok(data) => Ok(LongBytes(b.0) + data))
      case _ => EncodePrimitive(js, v, s)
  }

  function EncodePrimitive(js: Runtime, v: JVal, s: Schema): Result<bytes, Error>
    requires !s.SRecord? && !s.SArray? && !s.SMap? && !s.SUnion?
  {
    match s
    case SNull => if v.Null? || v.Undefined? then Ok([]) else Err(NotNull)
    case SBoolean => Ok([if Truthy(v) then 1 else 0])
    case SInt => (match IntOf(js, v) case Err(e) => Err(e) case Ok(n) => Ok(IntBytes(n)))
    case SLong => (match LongOf(js, v) case Err(e) => Err(e) case Ok(n) => Ok(LongBytes(n)))
    case SFloat => (match ToNumber(js, v) case None => Err(NotANumber) case Some(x) => Ok(js.single(x)))
    case SDouble => (match ToNumber(js, v) case None => Err(NotANumber) case Some(x) => Ok(js.double(x)))
    case SBytes => (match BytesOf(js, v) case Err(e) => Err(e) case Ok(data) => Ok(Sized(data)))
    case SString => (match ToText(js, v) case None => Err(NotText) case Some(utf8) => Ok(Sized(utf8)))
    case SEnum(symbols) => (match EnumIndexOf(symbols, v) case Err(e) => Err(e) case Ok(i) => Ok(IntBytes(i)))
    case SFixed(size) =>
      if size <= 0 then Err(FixedSize)
      else
        (match BytesOf(js, v)
         case Err(e) => Err(e)
         case Ok(data) => if |data| == size then Ok(data) else Err(FixedSize))
    case Other => Err(Unsupported)
  }

  /** The value written for a record field: the property, or else the default. */
  function FieldValue(props: seq<Prop>, field: Field): Option<JVal> {
    var own := Lookup(props, field.name);
    if own.Some? then own else field.default
  }

  function EncodeFields(js: Runtime, props: seq<Prop>, fields: seq<Field>, depth: nat): Result<bytes, Error>
    decreases fields, 0
  {
    if fields == [] then Ok([])
    else
      match FieldValue(props, fields[0])
      case None => Err(MissingField)
      case Some(v) =>
        match EncodeValue(js, v, fields[0].schema, depth)
        case Err(e) => Err(e)
        case Ok(data) =>
          match EncodeFields(js, props, fields[1..], depth)
          case Err(e) => Err(e)
          case Ok(rest) => Ok(data + rest)
  }

  function EncodeItems(js: Runtime, items: seq<JVal>, s: Schema, depth: nat): Result<bytes, Error>
    decreases s, 2, |items|
  {
    if items == [] then Ok([])
    else
      match EncodeValue(js, items[0], s, depth)
      case Err(e) => Err(e)
      case Ok(data) =>
        match EncodeItems(js, items[1..], s, depth)
        case Err(e) => Err(e)
        case Ok(rest) => Ok(data + rest)
  }

  function EncodeProps(js: Runtime, props: seq<Prop>, s: Schema, depth: nat): Result<bytes, Error>
    decreases s, 2, |props|
  {
    if props == [] then Ok([])
    else
      match EncodeValue(js, props[0].value, s, depth)
      case Err(e) => Err(e)
      case Ok(data) =>
        match EncodeProps(js, props[1..], s, depth)
        case Err(e) => Err(e)
        case Ok(rest) => Ok(Sized(props[0].name) + data + rest)
  }

  // ---- the normal form -------------------------------------------------------------

  /** A decoded value. */
  datatype DVal =
    | DNull
    | DBool(b: bool)
    | DNum(n: int)
    | DLong(n: int)
    | DFloat(bits: bytes)
    | DDouble(bits: bytes)
    | DBytes(data: bytes)
    | DText(utf8: bytes)
    | DFixed(data: bytes)
    | DArray(items: seq<DVal>)
    | DObject(props: seq<Property<DVal>>)
    | DBranch(index: int, value: DVal)

  type DProp = Property<DVal>

  /** Integers within the safe range are numbers, the others are tagged as long. */
  function LongValue(n: int): DVal {
    if -MAX_SAFE_INTEGER <= n <= MAX_SAFE_INTEGER then DNum(n) else DLong(n)
  }

  function SymbolValue(symbols: seq<bytes>, i: int): Option<DVal> {
    if 0 <= i < |symbols| then Some(DText(symbols[i])) else None
  }

  function BranchValue(branches: seq<Schema>, i: nat, v: DVal): DVal
    requires i < |branches|
  {
    if branches[i].SNull? then DNull else DBranch(i, v)
  }

  /**
   The value that comes back for `v`: coerced to the schema, defaults filled in, unions tagged
   with the branch written. None when something written cannot be read: an enum without
   symbols, whose only writable value is NaN.
   */
  function Norm(js: Runtime, v: JVal, s: Schema, depth: nat): Option<DVal>
    requires EncodeValue(js, v, s, depth).Ok?
    decreases s, 1
  {
    match s
    case SRecord(fields) =>
      (match NormFields(js, PropsOf(v), fields, depth + 1)
       case None => None
       case Some(props) => Some(DObject(PutAll([], props))))
    case SArray(items) =>
      if v.items == [] then Some(DArray([]))
      else
        (match NormItems(js, v.items, items, depth + 1)
         case None => None
         case Some(vs) => Some(DArray(vs)))
    case SMap(values) =>
      var props := EntriesOf(js, v);
      if props == [] then Some(DObject([]))
      else
        (match NormProps(js, props, values, depth + 1)
         case None => None
         case Some(ds) => Some(DObject(PutAll([], ds))))
    case SUnion(branches) =>
      var b := BranchOf(v, branches).value;
      (match Norm(js, b.1, branches[b.0], depth + 1)
       case None => None
       case Some(x) => Some(BranchValue(branches, b.0, x)))
    case SNull => Some(DNull)
    case SBoolean => Some(DBool(Truthy(v)))
    case SInt => Some(DNum(IntOf(js, v).value))
    case SLong => Some(LongValue(UnZigZag(ZigZag(LongOf(js, v).value, 64))))
    case SFloat => Some(DFloat(js.single(ToNumber(js, v).value)))
    case SDouble => Some(DDouble(js.double(ToNumber(js, v).value)))
    case SBytes => Some(DBytes(BytesOf(js, v).value))
    case SString => Some(DText(ToText(js, v).value))
    case SEnum(symbols) => SymbolValue(symbols, AsInt(EnumIndexOf(symbols, v).value, 32))
    case SFixed(_) => Some(DFixed(BytesOf(js, v).value))
  }

  function NormFields(js: Runtime, props: seq<Prop>, fields: seq<Field>, depth: nat): Option<seq<DProp>>
    requires EncodeFields(js, props, fields, depth).Ok?
    decreases fields, 0
  {
    if fields == [] then Some([])
    else
      var x := Norm(js, FieldValue(props, fields[0]).value, fields[0].schema, depth);
      var rest := NormFields(js, props, fields[1..], depth);
      if x.None? || rest.None? then None else Some([Property(fields[0].name, x.value)] + rest.value)
  }

  function NormItems(js: Runtime, items: seq<JVal>, s: Schema, depth: nat): Option<seq<DVal>>
    requires EncodeItems(js, items, s, depth).Ok?
    decreases s, 2, |items|
  {
    if items == [] then Some([])
    else
      var x, rest := Norm(js, items[0], s, depth), NormItems(js, items[1..], s, depth);
      if x.None? || rest.None? then None else Some([x.value] + rest.value)
  }

  function NormProps(js: Runtime, props: seq<Prop>, s: Schema, depth: nat): Option<seq<DProp>>
    requires EncodeProps(js, props, s, depth).Ok?
    decreases s, 2, |props|
  {
    if props == [] then Some([])
    else
      var x, rest := Norm(js, props[0].value, s, depth), NormProps(js, props[1..], s, depth);
      if x.None? || rest.None? then None else Some([Property(props[0].name, x.value)] + rest.value)
  }
}
