/**
 Values and wire items of the CBOR tool.

 `Js` is what the encoder is given, `Value` is what the decoder returns, and `Item` is one
 encoded data item of RFC 8949 section 3 in any form the decoder reads: every head width,
 and definite or indefinite length. `Serialize` gives an item's bytes and `Meaning` its value.
 */
module CborWire {
  import opened Bytes
  import opened Doubles
  import opened Objects
  import Utf8

  const MAX_DEPTH := 100
  const MAX_ELEMENTS := 1_000_000
  const MAX_SAFE_INTEGER := 0x1F_FFFF_FFFF_FFFF
  const MAX_ARRAY_LENGTH := 0xFFFF_FFFF

  // The integer-valued numbers.
  type integral = n: int | FitsDouble(if n < 0 then -n else n) witness 0

  // The UTF-8 form of a string.
  type utf8text = s: bytes | Utf8.WellFormed(s)

  type bytes8 = s: bytes | |s| == 8 witness [0, 0, 0, 0, 0, 0, 0, 0]

  /** A JavaScript value handed to the encoder. Text is its UTF-8 bytes; a float is its 8 bytes. */
  datatype Js =
    | Null
    | Undefined
    | Bool(b: bool)
    | Big(n: int)
    | Num(num: integral)
    | NaN
    | Inf(positive: bool)
    | Float(bits: bytes8)
    | Text(utf8: utf8text)
    | Buf(data: bytes)
    | Arr(items: seq<Js>)
    | Obj(entries: seq<Entry>)

  datatype Entry = Entry(key: utf8text, value: Js)

  /** A decoded value. */
  datatype Value =
    | VNull
    | VUndefined
    | VBool(b: bool)
    | VBig(n: int)
    | VNum(num: int)
    | VNaN
    | VInf(positive: bool)
    | VHalf(negative: bool, magnitude: real)
    | VSingle(bits: bytes)
    | VDouble(bits: bytes)
    | VText(utf8: bytes)
    | VBytes(data: bytes)
    | VArr(items: seq<Value>)
    | VObj(fields: seq<Property<Value>>)
    | VTagged(tag: int, value: Value)
    | VSimple(code: nat)

  type Field = Property<Value>

  // JavaScript's String(x), applied to map keys; None where it throws.
  type KeyString = Value -> Option<bytes>

  /** String(x) is the identity on strings; nothing else is assumed of it. */
  ghost predicate KeepsText(ks: KeyString) {
    forall t: bytes :: ks(VText(t)) == Some(t)
  }

  // ---- heads -----------------------------------------------------------------------

  /** The argument of a head and the number of bytes that carry it after the initial byte. */
  datatype Head = Head(width: nat, arg: int)

  // Additional information 31 where a number is expected: the decoder reads it as -1.
  const SENTINEL := Head(31, -1)

  predicate IsWidth(width: nat) {
    width == 1 || width == 2 || width == 4 || width == 8
  }

  predicate ValidHead(h: Head) {
    || (h.width == 0 && 0 <= h.arg <= 23)
    || (IsWidth(h.width) && 0 <= h.arg < Pow256(h.width))
  }

  function AdditionalInfo(h: Head): (ai: nat)
    requires ValidHead(h)
    ensures ai <= 27 && (h.width == 0 <==> ai <= 23)
  {
    if h.width == 0 then h.arg else WidthInfo(h.width)
  }

  function WidthInfo(width: nat): (ai: nat)
    ensures 24 <= ai <= 27
  {
    if width == 1 then 24 else if width == 2 then 25 else if width == 4 then 26 else 27
  }

  function HeadBytes(mt: nat, h: Head): (s: bytes)
    requires mt < 8
    requires ValidHead(h) || h == SENTINEL
    ensures |s| >= 1 && s[0] / 32 == mt
  {
    if h == SENTINEL then [mt * 32 + 31]
    else [mt * 32 + AdditionalInfo(h)] + ToBE(h.arg, h.width)
  }

  // ---- items -----------------------------------------------------------------------

  datatype Form = Definite(head: Head) | Indefinite

  datatype Chunk = Chunk(head: Head, data: bytes)

  /** An encoded data item. The items of a map are its keys and values in turn. */
  datatype Item =
    | Integer(negative: bool, head: Head)
    | Str(text: bool, head: Head, data: bytes)
    | Chunked(text: bool, chunks: seq<Chunk>)
    | Array(form: Form, items: seq<Item>)
    | Map(form: Form, items: seq<Item>)
    | Tag(head: Head, inner: Item)
    | Simple(ai: nat)
    | SimpleByte(code: byte)
    | FloatItem(data: bytes)

  predicate ValidForm(form: Form, count: nat) {
    form.Definite? ==> ValidHead(form.head) && form.head.arg == count
  }

  predicate ValidChunk(c: Chunk) {
    ValidHead(c.head) && c.head.arg == |c.data|
  }

  predicate ValidChunks(chunks: seq<Chunk>) {
    chunks == [] || (ValidChunk(chunks[0]) && ValidChunks(chunks[1..]))
  }

  predicate Valid(w: Item)
    decreases w, 1
  {
    match w
    case Integer(_, h) => ValidHead(h) || h == SENTINEL
    case Str(_, h, data) => ValidHead(h) && h.arg == |data|
    case Chunked(_, chunks) => ValidChunks(chunks)
    case Array(form, items) => ValidForm(form, |items|) && AllValid(items)
    case Map(form, items) => |items| % 2 == 0 && ValidForm(form, |items| / 2) && AllValid(items)
    case Tag(h, inner) => (ValidHead(h) || h == SENTINEL) && Valid(inner)
    case Simple(ai) => ai <= 23
    case SimpleByte(_) => true
    case FloatItem(data) => |data| == 2 || |data| == 4 || |data| == 8
  }

  predicate AllValid(items: seq<Item>)
    decreases items, 0
  {
    items == [] || (Valid(items[0]) && AllValid(items[1..]))
  }

  function StringType(text: bool): nat { if text then 3 else 2 }

  function OpenBytes(mt: nat, form: Form): (s: bytes)
    requires mt < 7
    requires form.Definite? ==> ValidHead(form.head)
    ensures |s| >= 1 && s[0] / 32 == mt
  {
    match form
    case Definite(h) => HeadBytes(mt, h)
    case Indefinite => [mt * 32 + 31]
  }

  function CloseBytes(form: Form): bytes { if form.Indefinite? then [0xFF] else [] }

  function SerializeChunks(text: bool, chunks: seq<Chunk>): bytes
    requires ValidChunks(chunks)
  {
    if chunks == [] then []
    else HeadBytes(StringType(text), chunks[0].head) + chunks[0].data + SerializeChunks(text, chunks[1..])
  }

  function Serialize(w: Item): (s: bytes)
    requires Valid(w)
    ensures |s| >= 1 && s[0] != 0xFF
    decreases w, 1
  {
    match w
    case Integer(neg, h) => HeadBytes(if neg then 1 else 0, h)
    case Str(text, h, data) => HeadBytes(StringType(text), h) + data
    case Chunked(text, chunks) => [StringType(text) * 32 + 31] + SerializeChunks(text, chunks) + [0xFF]
    case Array(form, items) => OpenBytes(4, form) + SerializeAll(items) + CloseBytes(form)
    case Map(form, items) => OpenBytes(5, form) + SerializeAll(items) + CloseBytes(form)
    case Tag(h, inner) => HeadBytes(6, h) + Serialize(inner)
    case Simple(ai) => [0xE0 + ai]
    case SimpleByte(code) => [0xF8, code]
    case FloatItem(data) => [if |data| == 2 then 0xF9 else if |data| == 4 then 0xFA else 0xFB] + data
  }

  function SerializeAll(items: seq<Item>): bytes
    requires AllValid(items)
    decreases items, 0
  {
    if items == [] then [] else Serialize(items[0]) + SerializeAll(items[1..])
  }

  // ---- what an item means ----------------------------------------------------------

  function Unsigned(arg: int): Value {
    if arg <= MAX_SAFE_INTEGER then VNum(arg) else VBig(arg)
  }

  function Negative(arg: int): Value {
    if arg <= MAX_SAFE_INTEGER then VNum(-1 - arg) else VBig(-1 - arg)
  }

  /** Tags 2 and 3 are bignums (RFC 8949 section 3.4.3); None where the source throws. */
  function ApplyTag(tag: int, v: Value): Option<Value> {
    if tag == 2 then (if v.VBytes? then Some(VBig(FromBE(v.data))) else None)
    else if tag == 3 then (if v.VBytes? then Some(VBig(-1 - FromBE(v.data))) else None)
    else Some(VTagged(tag, v))
  }

  function SimpleValue(ai: nat): Value {
    match ai
    case 20 => VBool(false)
    case 21 => VBool(true)
    case 22 => VNull
    case 23 => VUndefined
    case _ => VSimple(ai)
  }

  /** Sign, exponent and fraction of 1, 5 and 10 bits; every such number has a double. */
  function HalfValue(raw: nat): Value {
    var sign, exp, frac := raw / 32768 % 2, raw / 1024 % 32, raw % 1024;
    if exp == 31 then (if frac == 0 then VInf(sign == 0) else VNaN)
    else VHalf(sign == 1, HalfMagnitude(exp, frac))
  }

  function HalfMagnitude(exp: nat, frac: nat): real {
    if exp == 0 then frac as real / 1024.0 / 16384.0
    else (frac as real / 1024.0 + 1.0) * (Pow2(exp) as real / 32768.0)
  }

  function FloatValue(data: bytes): Value {
    if |data| == 2 then HalfValue(FromBE(data))
    else if |data| == 4 then VSingle(data)
    else VDouble(data)
  }

  function StringValue(text: bool, data: bytes): Value {
    if text then VText(data) else VBytes(data)
  }

  /** The content of a string: text is read as UTF-8. */
  function Content(text: bool, data: bytes): bytes {
    if text then Utf8.Text(data) else data
  }

  /** The content of a string in chunks: each chunk is read by itself. */
  function Join(text: bool, chunks: seq<Chunk>): bytes {
    if chunks == [] then [] else Content(text, chunks[0].data) + Join(text, chunks[1..])
  }

  function Meaning(ks: KeyString, w: Item): Option<Value>
    requires Valid(w)
    decreases w, 1
  {
    match w
    case Integer(neg, h) => Some(if neg then Negative(h.arg) else Unsigned(h.arg))
    case Str(text, _, data) => Some(StringValue(text, Content(text, data)))
    case Chunked(text, chunks) => Some(StringValue(text, Join(text, chunks)))
    case Array(_, items) =>
      var vs := ArrayMeaning(ks, items);
      if vs.Some? then Some(VArr(vs.value)) else None
    case Map(_, items) =>
      var vs := ArrayMeaning(ks, items);
      var fs := if vs.Some? then FieldsOf(ks, vs.value, []) else None;
      if fs.Some? then Some(VObj(fs.value)) else None
    case Tag(h, inner) =>
      var v := Meaning(ks, inner);
      if v.Some? then ApplyTag(h.arg, v.value) else None
    case Simple(ai) => Some(SimpleValue(ai))
    case SimpleByte(code) => Some(VSimple(code))
    case FloatItem(data) => Some(FloatValue(data))
  }

  function ArrayMeaning(ks: KeyString, items: seq<Item>): Option<seq<Value>>
    requires AllValid(items)
    decreases items, 0
  {
    if items == [] then Some([])
    else
      var v, vs := Meaning(ks, items[0]), ArrayMeaning(ks, items[1..]);
      if v.Some? && vs.Some? then Some([v.value] + vs.value) else None
  }

  /** The object built from keys and values in turn; None where a key cannot be a string. */
  function FieldsOf(ks: KeyString, vs: seq<Value>, acc: seq<Field>): Option<seq<Field>> {
    if |vs| < 2 then Some(acc)
    else if ks(vs[0]).None? then None
    else FieldsOf(ks, vs[2..], Put(acc, ks(vs[0]).value, vs[1]))
  }

  // ---- what an item costs the decoder ----------------------------------------------

  /** How often decoding the item adds to the element counter. */
  function Count(w: Item): (n: nat)
    ensures n >= 1
    decreases w, 1
  {
    match w
    case Array(_, items) => 1 + CountAll(items)
    case Map(_, items) => 1 + CountAll(items)
    case Tag(_, inner) => 1 + Count(inner)
    case _ => 1
  }

  function CountAll(items: seq<Item>): (n: nat)
    ensures n >= |items|
    decreases items, 0
  {
    if items == [] then 0 else Count(items[0]) + CountAll(items[1..])
  }

  function Max(a: nat, b: nat): nat { if a > b then a else b }

  /** How many levels below the item its deepest part is. */
  function Height(w: Item): nat
    decreases w, 1
  {
    match w
    case Array(_, items) => HeightAll(items)
    case Map(_, items) => HeightAll(items)
    case Tag(_, inner) => 1 + Height(inner)
    case _ => 0
  }

  function HeightAll(items: seq<Item>): nat
    decreases items, 0
  {
    if items == [] then 0
    else Max(1 + Height(items[0]), HeightAll(items[1..]))
  }

  predicate Fits(w: Item, depth: nat, n: nat) {
    depth + Height(w) <= 100 && n + Count(w) <= 1_000_000
  }
}
