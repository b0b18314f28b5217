/**
 The encoder: a recursive function of (value, depth, elements counted so far), and the
 method that shares one mutable counter among its recursive calls.
 */
module CborEncoder {
  import opened Bytes
  import opened Doubles
  import opened CborWire

  datatype Error = DepthLimit | ElementLimit | ArrayTooLarge | MapTooLarge

  datatype Out = Done(data: bytes, n: nat) | Fail(error: Error)

  /** The head for an argument; the 9-byte form keeps only the low 64 bits. */
  function EncodeHead(mt: nat, value: nat): (s: bytes)
    requires mt < 8
    ensures |s| >= 1
  {
    if value <= 23 then [mt * 32 + value]
    else if value <= 0xFF then [mt * 32 + 24, value]
    else if value <= 0xFFFF then [mt * 32 + 25] + ToBE(value, 2)
    else if value <= 0xFFFF_FFFF then [mt * 32 + 26] + ToBE(value, 4)
    else [mt * 32 + 27] + ToBE(value / 0x1_0000_0000, 4) + ToBE(value, 4)
  }

  /** The shortest big-endian form, one byte for zero: the hexadecimal digits padded to an even number. */
  function MinimalBE(n: nat): (s: bytes)
    ensures |s| >= 1
  {
    if n < 256 then [n] else MinimalBE(n / 256) + [n % 256]
  }

  function EncodeText(utf8: bytes): bytes { EncodeHead(3, |utf8|) + utf8 }

  function EncodeBytes(data: bytes): bytes { EncodeHead(2, |data|) + data }

  /** `-1 - n` in double precision. */
  function NegativeArgument(n: integral): nat
    requires n < 0
  {
    ToDouble(-1 - (n as int))
  }

  function EncodeNumber(n: integral): bytes {
    if n >= 0 then EncodeHead(0, n) else EncodeHead(1, NegativeArgument(n))
  }

  function EncodeBigInt(n: int): bytes {
    if n >= 0 then [0xC2] + EncodeBytes(MinimalBE(n)) else [0xC3] + EncodeBytes(MinimalBE(-1 - n))
  }

  /** The values that have no parts. */
  function EncodeScalar(v: Js): bytes
    requires !v.Arr? && !v.Obj?
  {
    match v
    case Null => [0xF6]
    case Undefined => [0xF6]
    case Bool(b) => [if b then 0xF5 else 0xF4]
    case Big(n) => EncodeBigInt(n)
    case Num(n) => EncodeNumber(n)
    case NaN => [0xF9, 0x7E, 0x00]
    case Inf(positive) => [0xF9, if positive then 0x7C else 0xFC, 0x00]
    case Float(bits) => [0xFB] + bits
    case Text(utf8) => EncodeText(utf8)
    case Buf(data) => EncodeBytes(data)
  }

  function Encode(v: Js, depth: nat, n: nat): Out
    decreases v, 0
  {
    if depth > MAX_DEPTH then Fail(DepthLimit)
    else if n + 1 > MAX_ELEMENTS then Fail(ElementLimit)
    else
      match v
      case Arr(items) =>
        if |items| > MAX_ELEMENTS then Fail(ArrayTooLarge)
        else EncodeItems(items, depth + 1, n + 1, EncodeHead(4, |items|))
      case Obj(entries) =>
        if |entries| > MAX_ELEMENTS then Fail(MapTooLarge)
        else EncodeEntries(entries, depth + 1, n + 1, EncodeHead(5, |entries|))
      case _ => Done(EncodeScalar(v), n + 1)
  }

  function EncodeItems(items: seq<Js>, depth: nat, n: nat, acc: bytes): Out
    decreases items, 1
  {
    if items == [] then Done(acc, n)
    else
      match Encode(items[0], depth, n)
      case Fail(e) => Fail(e)
      case Done(data, n') => EncodeItems(items[1..], depth, n', acc + data)
  }

  function EncodeEntries(entries: seq<Entry>, depth: nat, n: nat, acc: bytes): Out
    decreases entries, 1
  {
    if entries == [] then Done(acc, n)
    else
      match Encode(entries[0].value, depth, n)
      case Fail(e) => Fail(e)
      case Done(data, n') => EncodeEntries(entries[1..], depth, n', acc + EncodeText(entries[0].key) + data)
  }

  class Counter {
    var n: nat

    constructor ()
      ensures n == 0
    {
      n := 0;
    }
  }

  method EncodeValue(v: Js, depth: nat, counter: Counter) returns (r: Result<bytes, Error>)
    modifies counter
    ensures match Encode(v, depth, old(counter.n))
            case Done(data, n) => r == Ok(data) && counter.n == n
            case Fail(e) => r == Err(e)
    decreases v
  {
    if depth > MAX_DEPTH { return Err(DepthLimit); }
    counter.n := counter.n + 1;
    if counter.n > MAX_ELEMENTS { return Err(ElementLimit); }
    match v {
      case Arr(items) =>
        if |items| > MAX_ELEMENTS { return Err(ArrayTooLarge); }
        var data := EncodeHead(4, |items|);
        for i := 0 to |items|
          invariant EncodeItems(items, depth + 1, old(counter.n) + 1, EncodeHead(4, |items|))
                 == EncodeItems(items[i..], depth + 1, counter.n, data)
        {
          var part := EncodeValue(items[i], depth + 1, counter);
          if part.Err? { return part; }
          data := data + part.value;
          assert items[i..][1..] == items[i + 1..];
        }
        return Ok(data);
      case Obj(entries) =>
        if |entries| > MAX_ELEMENTS { return Err(MapTooLarge); }
        var data := EncodeHead(5, |entries|);
        for i := 0 to |entries|
          invariant EncodeEntries(entries, depth + 1, old(counter.n) + 1, EncodeHead(5, |entries|))
                 == EncodeEntries(entries[i..], depth + 1, counter.n, data)
        {
          var part := EncodeValue(entries[i].value, depth + 1, counter);
          if part.Err? { return part; }
          data := data + EncodeText(entries[i].key) + part.value;
          assert entries[i..][1..] == entries[i + 1..];
        }
        return Ok(data);
      case _ =>
        return Ok(EncodeScalar(v));
    }
  }
}
