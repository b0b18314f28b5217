/**
 The decoder as a function of (buffer, offset, elements counted so far), followed by the
 class whose methods advance those in place and agree with the function.
 */
module CborDecoder {
  import opened Bytes
  import opened CborWire
  import opened Objects

  datatype Error =
    | DepthLimit
    | ElementLimit
    | UnexpectedEnd
    | ReservedInfo
    | WrongChunkType
    | MissingBreak
    | UnexpectedBreak
    | ReservedSimple
    | BignumNotBytes
    | ArrayTooLong
    | KeyNotString
    | TrailingBytes
    | Endless  // the source never returns here; see CborReader.ReadChunk

  datatype Out<+T> = Done(value: T, pos: nat, n: nat) | Fail(error: Error)

  datatype ArgOut = Arg(value: int, pos: nat) | ArgFail(error: Error)

  function ArgumentAt(buf: bytes, pos: nat, ai: nat): (r: ArgOut)
    requires pos <= |buf| && ai < 32
    ensures r.Arg? ==> pos <= r.pos <= |buf|
    ensures r.Arg? && ai != 31 ==> r.value >= 0
  {
    if ai <= 23 then Arg(ai, pos)
    else if ai == 24 then
      if pos + 1 > |buf| then ArgFail(UnexpectedEnd) else Arg(buf[pos], pos + 1)
    else if ai == 25 then
      if pos + 2 > |buf| then ArgFail(UnexpectedEnd) else Arg(FromBE(buf[pos..pos + 2]), pos + 2)
    else if ai == 26 then
      if pos + 4 > |buf| then ArgFail(UnexpectedEnd) else Arg(FromBE(buf[pos..pos + 4]), pos + 4)
    else if ai == 27 then
      if pos + 8 > |buf| then ArgFail(UnexpectedEnd)
      else Arg(FromBE(buf[pos..pos + 4]) * 0x1_0000_0000 + FromBE(buf[pos + 4..pos + 8]), pos + 8)
    else if ai == 31 then Arg(-1, pos)
    else ArgFail(ReservedInfo)
  }

  datatype ChunkOut = Break(pos: nat) | ChunkData(data: bytes, pos: nat) | ChunkFail(error: Error)

  /** What the next byte of an indefinite string starts: the break or a definite chunk. */
  function ChunkAt(buf: bytes, pos: nat, mt: nat): (r: ChunkOut)
    requires pos <= |buf|
    ensures !r.ChunkFail? ==> pos < r.pos <= |buf|
  {
    if pos >= |buf| then ChunkFail(UnexpectedEnd)
    else if buf[pos] == 0xFF then Break(pos + 1)
    else if buf[pos] / 32 != mt then ChunkFail(WrongChunkType)
    else if buf[pos] % 32 == 31 then ChunkFail(Endless)
    else
      match ArgumentAt(buf, pos + 1, buf[pos] % 32)
      case ArgFail(e) => ChunkFail(e)
      case Arg(len, p) =>
        if p + len > |buf| then ChunkFail(UnexpectedEnd) else ChunkData(buf[p..p + len], p + len)
  }

  function DecodeChunks(buf: bytes, pos: nat, n: nat, mt: nat, acc: bytes): (r: Out<bytes>)
    requires pos <= |buf|
    ensures r.Done? ==> pos < r.pos <= |buf| && r.n == n
    decreases |buf| - pos
  {
    match ChunkAt(buf, pos, mt)
    case ChunkFail(e) => Fail(e)
    case Break(p) => Done(acc, p, n)
    case ChunkData(data, p) => DecodeChunks(buf, p, n, mt, acc + Content(mt == 3, data))
  }

  function DecodeString(buf: bytes, pos: nat, n: nat, mt: nat, ai: nat): (r: Out<bytes>)
    requires pos <= |buf| && ai < 32
    ensures r.Done? ==> pos <= r.pos <= |buf| && r.n == n
  {
    if ai == 31 then DecodeChunks(buf, pos, n, mt, [])
    else
      match ArgumentAt(buf, pos, ai)
      case ArgFail(e) => Fail(e)
      case Arg(len, p) =>
        if p + len > |buf| then Fail(UnexpectedEnd) else Done(Content(mt == 3, buf[p..p + len]), p + len, n)
  }

  function SimpleOrFloatAt(buf: bytes, pos: nat, n: nat, ai: nat): (r: Out<Value>)
    requires pos <= |buf| && ai < 32
    ensures r.Done? ==> pos <= r.pos <= |buf| && r.n == n
  {
    if ai <= 23 then Done(SimpleValue(ai), pos, n)
    else if ai == 24 then
      if pos + 1 > |buf| then Fail(UnexpectedEnd) else Done(VSimple(buf[pos]), pos + 1, n)
    else if ai == 25 then
      if pos + 2 > |buf| then Fail(UnexpectedEnd) else Done(FloatValue(buf[pos..pos + 2]), pos + 2, n)
    else if ai == 26 then
      if pos + 4 > |buf| then Fail(UnexpectedEnd) else Done(FloatValue(buf[pos..pos + 4]), pos + 4, n)
    else if ai == 27 then
      if pos + 8 > |buf| then Fail(UnexpectedEnd) else Done(FloatValue(buf[pos..pos + 8]), pos + 8, n)
    else if ai == 31 then Fail(UnexpectedBreak)
    else Fail(ReservedSimple)
  }

  function DecodeItem(ks: KeyString, buf: bytes, pos: nat, n: nat, depth: nat): (r: Out<Value>)
    requires pos <= |buf|
    ensures r.Done? ==> pos < r.pos <= |buf|
    decreases |buf| - pos, 0
  {
    if depth > MAX_DEPTH then Fail(DepthLimit)
    else if n + 1 > MAX_ELEMENTS then Fail(ElementLimit)
    else if pos >= |buf| then Fail(UnexpectedEnd)
    else DecodeBody(ks, buf, pos + 1, n + 1, depth, buf[pos] / 32, buf[pos] % 32)
  }

  /** The rest of an item whose initial byte, with major type `mt`, has been read. */
  function DecodeBody(ks: KeyString, buf: bytes, pos: nat, n: nat, depth: nat, mt: nat, ai: nat): (r: Out<Value>)
    requires pos <= |buf| && ai < 32
    ensures r.Done? ==> pos <= r.pos <= |buf|
    decreases |buf| - pos, 4
  {
    if mt == 2 || mt == 3 then
      match DecodeString(buf, pos, n, mt, ai)
      case Fail(e) => Fail(e)
      case Done(data, p, n') => Done(StringValue(mt == 3, data), p, n')
    else if mt == 4 && ai == 31 then ArrayOut(DecodeOpenArray(ks, buf, pos, n, depth + 1, []))
    else if mt == 5 && ai == 31 then MapOut(DecodeOpenMap(ks, buf, pos, n, depth + 1, []))
    else if mt == 7 then SimpleOrFloatAt(buf, pos, n, ai)
    else
      match ArgumentAt(buf, pos, ai)
      case ArgFail(e) => Fail(e)
      case Arg(arg, p) => DecodeWithArgument(ks, buf, p, n, depth, mt, arg)
  }

  /** The rest of an integer, definite array, definite map or tag whose head has been read. */
  function DecodeWithArgument(ks: KeyString, buf: bytes, pos: nat, n: nat, depth: nat, mt: nat, arg: int): (r: Out<Value>)
    requires pos <= |buf|
    requires mt == 4 || mt == 5 ==> arg >= 0
    ensures r.Done? ==> pos <= r.pos <= |buf|
    decreases |buf| - pos, 3
  {
    if mt == 0 then Done(Unsigned(arg), pos, n)
    else if mt == 1 then Done(Negative(arg), pos, n)
    else if mt == 4 then
      if arg > MAX_ARRAY_LENGTH then Fail(ArrayTooLong)
      else ArrayOut(DecodeArray(ks, buf, pos, n, depth + 1, arg, []))
    else if mt == 5 then MapOut(DecodeMap(ks, buf, pos, n, depth + 1, arg, []))
    else
      match DecodeItem(ks, buf, pos, n, depth + 1)
      case Fail(e) => Fail(e)
      case Done(v, p, n') =>
        var tagged := ApplyTag(arg, v);
        if tagged.None? then Fail(BignumNotBytes) else Done(tagged.value, p, n')
  }

  function ArrayOut(r: Out<seq<Value>>): Out<Value> {
    match r
    case Fail(e) => Fail(e)
    case Done(vs, p, n) => Done(VArr(vs), p, n)
  }

  function MapOut(r: Out<seq<Field>>): Out<Value> {
    match r
    case Fail(e) => Fail(e)
    case Done(fs, p, n) => Done(VObj(fs), p, n)
  }

  function DecodeArray(ks: KeyString, buf: bytes, pos: nat, n: nat, depth: nat, left: nat, acc: seq<Value>)
    : (r: Out<seq<Value>>)
    requires pos <= |buf|
    ensures r.Done? ==> pos <= r.pos <= |buf|
    decreases |buf| - pos, 1
  {
    if left == 0 then Done(acc, pos, n)
    else
      match DecodeItem(ks, buf, pos, n, depth)
      case Fail(e) => Fail(e)
      case Done(v, p, n') => DecodeArray(ks, buf, p, n', depth, left - 1, acc + [v])
  }

  function DecodeOpenArray(ks: KeyString, buf: bytes, pos: nat, n: nat, depth: nat, acc: seq<Value>)
    : (r: Out<seq<Value>>)
    requires pos <= |buf|
    ensures r.Done? ==> pos < r.pos <= |buf|
    decreases |buf| - pos, 1
  {
    if pos == |buf| then Fail(MissingBreak)
    else if buf[pos] == 0xFF then Done(acc, pos + 1, n)
    else
      match DecodeItem(ks, buf, pos, n, depth)
      case Fail(e) => Fail(e)
      case Done(v, p, n') => DecodeOpenArray(ks, buf, p, n', depth, acc + [v])
  }

  /** A key, a value, and the property they set. */
  function DecodeField(ks: KeyString, buf: bytes, pos: nat, n: nat, depth: nat, acc: seq<Field>): (r: Out<seq<Field>>)
    requires pos <= |buf|
    ensures r.Done? ==> pos < r.pos <= |buf|
    decreases |buf| - pos, 1
  {
    match DecodeItem(ks, buf, pos, n, depth)
    case Fail(e) => Fail(e)
    case Done(k, p, n') =>
      match DecodeItem(ks, buf, p, n', depth)
      case Fail(e) => Fail(e)
      case Done(v, p', n'') =>
        var name := ks(k);
        if name.None? then Fail(KeyNotString) else Done(Put(acc, name.value, v), p', n'')
  }

  function DecodeMap(ks: KeyString, buf: bytes, pos: nat, n: nat, depth: nat, left: nat, acc: seq<Field>)
    : (r: Out<seq<Field>>)
    requires pos <= |buf|
    ensures r.Done? ==> pos <= r.pos <= |buf|
    decreases |buf| - pos, 2
  {
    if left == 0 then Done(acc, pos, n)
    else
      match DecodeField(ks, buf, pos, n, depth, acc)
      case Fail(e) => Fail(e)
      case Done(acc', p, n') => DecodeMap(ks, buf, p, n', depth, left - 1, acc')
  }

  function DecodeOpenMap(ks: KeyString, buf: bytes, pos: nat, n: nat, depth: nat, acc: seq<Field>)
    : (r: Out<seq<Field>>)
    requires pos <= |buf|
    ensures r.Done? ==> pos < r.pos <= |buf|
    decreases |buf| - pos, 2
  {
    if pos == |buf| then Fail(MissingBreak)
    else if buf[pos] == 0xFF then Done(acc, pos + 1, n)
    else
      match DecodeField(ks, buf, pos, n, depth, acc)
      case Fail(e) => Fail(e)
      case Done(acc', p, n') => DecodeOpenMap(ks, buf, p, n', depth, acc')
  }

  /** Values until the buffer is used up; the element counter runs through all of them. */
  function DecodeStream(ks: KeyString, buf: bytes, pos: nat, n: nat, acc: seq<Value>): (r: Out<seq<Value>>)
    requires pos <= |buf|
    ensures r.Done? ==> r.pos == |buf|
    decreases |buf| - pos
  {
    if pos == |buf| then Done(acc, pos, n)
    else
      match DecodeItem(ks, buf, pos, n, 0)
      case Fail(e) => Fail(e)
      case Done(v, p, n') => DecodeStream(ks, buf, p, n', acc + [v])
  }

  // ---- the reader ------------------------------------------------------------------

  /** The reader ended with `r` exactly as the function does. */
  ghost predicate Agrees<T>(reader: CborReader, r: Result<T, Error>, spec: Out<T>)
    reads reader
  {
    match spec
    case Done(v, p, n) => r == Ok(v) && reader.pos == p && reader.elements == n
    case Fail(e) => r == Err(e)
  }

  class CborReader {
    const buf: bytes
    const ks: KeyString
    var pos: nat
    var elements: nat

    ghost predicate Valid()
      reads this
    {
      pos <= |buf|
    }

    constructor (buf: bytes, ks: KeyString)
      ensures Valid() && this.buf == buf && this.ks == ks && pos == 0 && elements == 0
    {
      this.buf, this.ks, pos, elements := buf, ks, 0, 0;
    }

    /** Moves the cursor by `len` and returns the bytes passed over; `len` may be -1. */
    method ReadBytes(len: int) returns (r: Result<bytes, Error>)
      requires Valid() && -1 <= len && 0 <= pos + len
      modifies this`pos
      ensures Valid()
      ensures r == if old(pos) + len > |buf| then Err(UnexpectedEnd)
                   else if len < 0 then Ok([]) else Ok(buf[old(pos)..old(pos) + len])
      ensures pos == if r.Ok? then old(pos) + len else old(pos)
    {
      if pos + len > |buf| {
        return Err(UnexpectedEnd);
      }
      r := Ok(if len < 0 then [] else buf[pos..pos + len]);
      pos := pos + len;
    }

    method TrackElement() returns (ok: bool)
      modifies this`elements
      ensures elements == old(elements) + 1 && ok == (elements <= MAX_ELEMENTS)
    {
      elements := elements + 1;
      ok := elements <= MAX_ELEMENTS;
    }

    method ReadArgument(ai: nat) returns (r: Result<int, Error>)
      requires Valid() && ai < 32
      modifies this`pos
      ensures Valid()
      ensures match ArgumentAt(buf, old(pos), ai)
              case Arg(v, p) => r == Ok(v) && pos == p
              case ArgFail(e) => r == Err(e)
    {
      if ai <= 23 {
        return Ok(ai);
      } else if ai == 24 {
        var b := ReadBytes(1);
        if b.Err? { return Err(b.error); }
        return Ok(b.value[0]);
      } else if ai == 25 {
        var b := ReadBytes(2);
        if b.Err? { return Err(b.error); }
        return Ok(FromBE(b.value));
      } else if ai == 26 {
        var b := ReadBytes(4);
        if b.Err? { return Err(b.error); }
        return Ok(FromBE(b.value));
      } else if ai == 27 {
        var hi := ReadBytes(4);
        if hi.Err? { return Err(hi.error); }
        var lo := ReadBytes(4);
        if lo.Err? { return Err(lo.error); }
        return Ok(FromBE(hi.value) * 0x1_0000_0000 + FromBE(lo.value));
      } else if ai == 31 {
        return Ok(-1);
      }
      return Err(ReservedInfo);
    }

    /**
     One turn of the loop over the chunks of an indefinite string; None is the break.
     A chunk head with additional information 31 is read as length -1, which moves the
     cursor back onto that head with nothing read: the source then repeats this turn for
     ever. The assertion checks that the cursor is back; the method reports it as Endless.
     */
    method ReadChunk(mt: nat) returns (r: Result<Option<bytes>, Error>)
      requires Valid()
      modifies this`pos
      ensures Valid()
      ensures match ChunkAt(buf, old(pos), mt)
              case ChunkFail(e) => r == Err(e)
              case Break(p) => r == Ok(None) && pos == p
              case ChunkData(data, p) => r == Ok(Some(data)) && pos == p
    {
      if pos >= |buf| { return Err(UnexpectedEnd); }
      var b := buf[pos];
      pos := pos + 1;
      if b == 0xFF { return Ok(None); }
      if b / 32 != mt { return Err(WrongChunkType); }
      var len := ReadArgument(b % 32);
      if len.Err? { return Err(len.error); }
      var chunk := ReadBytes(len.value);
      if chunk.Err? { return Err(chunk.error); }
      if b % 32 == 31 {
        assert pos == old(pos) && chunk.value == [];
        return Err(Endless);
      }
      return Ok(Some(chunk.value));
    }

    method DecodeIndefiniteString(mt: nat) returns (r: Result<bytes, Error>)
      requires Valid()
      modifies this`pos
      ensures Valid()
      ensures Agrees(this, r, DecodeChunks(buf, old(pos), elements, mt, []))
    {
      var data := [];
      while true
        invariant Valid()
        invariant DecodeChunks(buf, old(pos), elements, mt, []) == DecodeChunks(buf, pos, elements, mt, data)
        decreases |buf| - pos
      {
        var chunk := ReadChunk(mt);
        if chunk.Err? { return Err(chunk.error); }
        if chunk.value.None? { return Ok(data); }
        data := data + Content(mt == 3, chunk.value.value);
      }
    }

    /** The byte or text string after its initial byte. */
    method DecodeText(mt: nat, ai: nat) returns (r: Result<bytes, Error>)
      requires Valid() && ai < 32
      modifies this`pos
      ensures Valid()
      ensures Agrees(this, r, DecodeString(buf, old(pos), elements, mt, ai))
    {
      if ai == 31 {
        r := DecodeIndefiniteString(mt);
        return;
      }
      var len := ReadArgument(ai);
      if len.Err? { return Err(len.error); }
      var data := ReadBytes(len.value);
      return if data.Err? then data else Ok(Content(mt == 3, data.value));
    }

    method DecodeSimpleOrFloat(ai: nat) returns (r: Result<Value, Error>)
      requires Valid() && ai < 32
      modifies this`pos
      ensures Valid()
      ensures Agrees(this, r, SimpleOrFloatAt(buf, old(pos), elements, ai))
    {
      if ai <= 23 {
        return Ok(SimpleValue(ai));
      } else if ai <= 27 {
        var data := ReadBytes(if ai == 24 then 1 else if ai == 25 then 2 else if ai == 26 then 4 else 8);
        if data.Err? { return Err(data.error); }
        return Ok(if ai == 24 then VSimple(data.value[0]) else FloatValue(data.value));
      }
      return Err(if ai == 31 then UnexpectedBreak else ReservedSimple);
    }

    method Decode(depth: nat) returns (r: Result<Value, Error>)
      requires Valid()
      modifies this
      ensures Valid()
      ensures Agrees(this, r, DecodeItem(ks, buf, old(pos), old(elements), depth))
      decreases |buf| - pos, 0
    {
      if depth > MAX_DEPTH { return Err(DepthLimit); }
      var ok := TrackElement();
      if !ok { return Err(ElementLimit); }
      if pos >= |buf| { return Err(UnexpectedEnd); }
      var b := buf[pos];
      pos := pos + 1;
      r := DecodeMajor(b / 32, b % 32, depth);
    }

    /** The switch over the major type. */
    method DecodeMajor(mt: nat, ai: nat, depth: nat) returns (r: Result<Value, Error>)
      requires Valid() && ai < 32
      modifies this
      ensures Valid()
      ensures Agrees(this, r, DecodeBody(ks, buf, old(pos), old(elements), depth, mt, ai))
      decreases |buf| - pos, 4
    {
      if mt == 2 || mt == 3 {
        var s := DecodeText(mt, ai);
        if s.Err? { return Err(s.error); }
        return Ok(StringValue(mt == 3, s.value));
      } else if mt == 4 && ai == 31 {
        var vs := DecodeIndefiniteArray(depth + 1);
        if vs.Err? { return Err(vs.error); }
        return Ok(VArr(vs.value));
      } else if mt == 5 && ai == 31 {
        var fs := DecodeIndefiniteMap(depth + 1);
        if fs.Err? { return Err(fs.error); }
        return Ok(VObj(fs.value));
      } else if mt == 7 {
        r := DecodeSimpleOrFloat(ai);
        return;
      }
      var arg := ReadArgument(ai);
      if arg.Err? { return Err(arg.error); }
      r := DecodeRest(mt, arg.value, depth);
    }

    /** The cases of Decode that go on from the head's argument. */
    method DecodeRest(mt: nat, arg: int, depth: nat) returns (r: Result<Value, Error>)
      requires Valid()
      requires mt == 4 || mt == 5 ==> arg >= 0
      modifies this
      ensures Valid()
      ensures Agrees(this, r, DecodeWithArgument(ks, buf, old(pos), old(elements), depth, mt, arg))
      decreases |buf| - pos, 3
    {
      if mt == 0 {
        return Ok(Unsigned(arg));
      } else if mt == 1 {
        return Ok(Negative(arg));
      } else if mt == 4 {
        var vs := DecodeDefiniteArray(arg, depth + 1);
        return if vs.Err? then Err(vs.error) else Ok(VArr(vs.value));
      } else if mt == 5 {
        var fs := DecodeDefiniteMap(arg, depth + 1);
        return if fs.Err? then Err(fs.error) else Ok(VObj(fs.value));
      }
      var v := Decode(depth + 1);
      if v.Err? { return v; }
      r := ApplyTagTo(arg, v.value);
    }

    method ApplyTagTo(tag: int, v: Value) returns (r: Result<Value, Error>)
      ensures r == match ApplyTag(tag, v) case None => Err(BignumNotBytes) case Some(x) => Ok(x)
    {
      if tag != 2 && tag != 3 { return Ok(VTagged(tag, v)); }
      if !v.VBytes? { return Err(BignumNotBytes); }
      var m: nat := 0;
      for i := 0 to |v.data|
        invariant m == FromBE(v.data[..i])
      {
        assert v.data[..i + 1][..i] == v.data[..i];
        m := m * 256 + v.data[i];
      }
      assert v.data[..|v.data|] == v.data;
      return Ok(VBig(if tag == 2 then m else -1 - m));
    }

    method DecodeDefiniteArray(len: nat, depth: nat) returns (r: Result<seq<Value>, Error>)
      requires Valid()
      modifies this
      ensures Valid()
      ensures Agrees(this, r, if len > MAX_ARRAY_LENGTH then Fail(ArrayTooLong)
                              else DecodeArray(ks, buf, old(pos), old(elements), depth, len, []))
      decreases |buf| - pos, 1
    {
      if len > MAX_ARRAY_LENGTH { return Err(ArrayTooLong); }
      var arr := [];
      for i := 0 to len
        invariant Valid() && old(pos) <= pos
        invariant DecodeArray(ks, buf, old(pos), old(elements), depth, len, [])
               == DecodeArray(ks, buf, pos, elements, depth, len - i, arr)
      {
        var v := Decode(depth);
        if v.Err? { return Err(v.error); }
        arr := arr + [v.value];
      }
      return Ok(arr);
    }

    method DecodeIndefiniteArray(depth: nat) returns (r: Result<seq<Value>, Error>)
      requires Valid()
      modifies this
      ensures Valid()
      ensures Agrees(this, r, DecodeOpenArray(ks, buf, old(pos), old(elements), depth, []))
      decreases |buf| - pos, 1
    {
      var arr := [];
      while true
        invariant Valid() && old(pos) <= pos
        invariant DecodeOpenArray(ks, buf, old(pos), old(elements), depth, [])
               == DecodeOpenArray(ks, buf, pos, elements, depth, arr)
        decreases |buf| - pos
      {
        if pos == |buf| { return Err(MissingBreak); }
        if buf[pos] == 0xFF {
          pos := pos + 1;
          return Ok(arr);
        }
        var v := Decode(depth);
        if v.Err? { return Err(v.error); }
        arr := arr + [v.value];
      }
    }

    method DecodeKeyValue(obj: seq<Field>, depth: nat) returns (r: Result<seq<Field>, Error>)
      requires Valid()
      modifies this
      ensures Valid()
      ensures Agrees(this, r, DecodeField(ks, buf, old(pos), old(elements), depth, obj))
      decreases |buf| - pos, 1
    {
      var key := Decode(depth);
      if key.Err? { return Err(key.error); }
      var val := Decode(depth);
      if val.Err? { return Err(val.error); }
      var name := ks(key.value);
      return if name.None? then Err(KeyNotString) else Ok(Put(obj, name.value, val.value));
    }

    method DecodeDefiniteMap(len: nat, depth: nat) returns (r: Result<seq<Field>, Error>)
      requires Valid()
      modifies this
      ensures Valid()
      ensures Agrees(this, r, DecodeMap(ks, buf, old(pos), old(elements), depth, len, []))
      decreases |buf| - pos, 2
    {
      var obj := [];
      for i := 0 to len
        invariant Valid() && old(pos) <= pos
        invariant DecodeMap(ks, buf, old(pos), old(elements), depth, len, [])
               == DecodeMap(ks, buf, pos, elements, depth, len - i, obj)
      {
        var next := DecodeKeyValue(obj, depth);
        if next.Err? { return Err(next.error); }
        obj := next.value;
      }
      return Ok(obj);
    }

    method DecodeIndefiniteMap(depth: nat) returns (r: Result<seq<Field>, Error>)
      requires Valid()
      modifies this
      ensures Valid()
      ensures Agrees(this, r, DecodeOpenMap(ks, buf, old(pos), old(elements), depth, []))
      decreases |buf| - pos, 2
    {
      var obj := [];
      while true
        invariant Valid() && old(pos) <= pos
        invariant DecodeOpenMap(ks, buf, old(pos), old(elements), depth, [])
               == DecodeOpenMap(ks, buf, pos, elements, depth, obj)
        decreases |buf| - pos
      {
        if pos == |buf| { return Err(MissingBreak); }
        if buf[pos] == 0xFF {
          pos := pos + 1;
          return Ok(obj);
        }
        var next := DecodeKeyValue(obj, depth);
        if next.Err? { return Err(next.error); }
        obj := next.value;
      }
    }
  }

  method DecodeBuffer(buf: bytes, ks: KeyString, allowMultiple: bool) returns (r: Result<seq<Value>, Error>)
    ensures !allowMultiple ==>
      var one := DecodeItem(ks, buf, 0, 0, 0);
      r == if one.Fail? then Err(one.error) else if one.pos < |buf| then Err(TrailingBytes) else Ok([one.value])
    ensures allowMultiple ==>
      var all := DecodeStream(ks, buf, 0, 0, []);
      r == if all.Fail? then Err(all.error) else Ok(all.value)
  {
    var reader := new CborReader(buf, ks);
    if !allowMultiple {
      var v := reader.Decode(0);
      if v.Err? { return Err(v.error); }
      return if reader.pos < |buf| then Err(TrailingBytes) else Ok([v.value]);
    }
    var values := [];
    while reader.pos < |buf|
      invariant reader.Valid() && reader.buf == buf && reader.ks == ks && fresh(reader)
      invariant DecodeStream(ks, buf, 0, 0, []) == DecodeStream(ks, buf, reader.pos, reader.elements, values)
    {
      var v := reader.Decode(0);
      if v.Err? { return Err(v.error); }
      values := values + [v.value];
    }
    return Ok(values);
  }
}
