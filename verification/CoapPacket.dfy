/** CoAP packets: delta-encoded options, the builder and the parser, and how far they invert each other. */
module CoapPacket {
  import opened Bytes
  import opened Doubles
  import S = Sorting

  const VERSION: nat := 1
  const MAX_FIELD: nat := 65804

  /** An option value as its caller gives it; text has already been turned into UTF-8. */
  datatype Value = Raw(data: bytes) | Text(utf8: bytes) | Number(d: real) | NotANumber | Infinite(positive: bool)

  datatype OptionIn = OptionIn(number: nat, value: Value)

  datatype OptionOut = OptionOut(number: nat, value: bytes)

  datatype Message = Message(kind: int, code: int, msgId: int, token: bytes, options: seq<OptionIn>, payload: bytes)

  datatype Packet = Packet(kind: nat, code: nat, msgId: nat, token: bytes, options: seq<OptionOut>, payload: bytes)

  datatype Error = TooLarge(v: nat) | BadNumber | BadMsgId | TooShort | BadVersion | BadTokenLength
                 | TruncatedField | ReservedField | NoPayload

  // ---- option fields ---------------------------------------------------------------

  datatype Field = Field(nibble: nat, ext: bytes)

  function EncodeField(v: nat): (r: Result<Field, Error>)
    ensures r.Ok? <==> v <= MAX_FIELD
    ensures r.Ok? ==> r.value.nibble <= 14 && |r.value.ext| <= 2
  {
    if v <= 12 then Ok(Field(v, []))
    else if v <= 268 then Ok(Field(13, [v - 13]))
    else if v <= MAX_FIELD then Ok(Field(14, ToBE(v - 269, 2)))
    else Err(TooLarge(v))
  }

  datatype FieldRead = Got(v: nat, pos: nat) | Bad(error: Error)

  /** A delta or a length whose nibble has been read, with its extension at `pos`. */
  function ReadField(buf: bytes, pos: nat, nibble: nat): (r: FieldRead)
    requires pos <= |buf| && nibble <= 15
    ensures r.Got? ==> pos <= r.pos <= |buf|
  {
    if nibble == 13 then
      if pos >= |buf| then Bad(TruncatedField) else Got(buf[pos] as int + 13, pos + 1)
    else if nibble == 14 then
      if pos + 1 >= |buf| then Bad(TruncatedField) else Got(FromBE(buf[pos..pos + 2]) + 269, pos + 2)
    else if nibble == 15 then Bad(ReservedField)
    else Got(nibble, pos)
  }

  lemma FieldReads(buf: bytes, pos: nat, v: nat)
    requires v <= MAX_FIELD && At(buf, pos, EncodeField(v).value.ext) && pos <= |buf|
    ensures var f := EncodeField(v).value;
            f.nibble <= 14 && ReadField(buf, pos, f.nibble) == Got(v, pos + |f.ext|)
  {
    var f := EncodeField(v).value;
    AtSlice(buf, pos, f.ext);
    if 12 < v <= 268 {
      AtByte(buf, pos, v - 13);
    } else if 268 < v {
      Pow256Values();
      FromToBE(v - 269, 2);
    }
  }

  /** The parser accepts no field in a form the encoder would not write. */
  lemma FieldWritten(buf: bytes, pos: nat, nibble: nat)
    requires pos <= |buf| && nibble <= 15 && ReadField(buf, pos, nibble).Got?
    ensures var r := ReadField(buf, pos, nibble);
            r.v <= MAX_FIELD && EncodeField(r.v) == Ok(Field(nibble, buf[pos..r.pos]))
  {
    if nibble <= 12 {
      assert buf[pos..pos] == [];
    } else if nibble == 13 {
      assert buf[pos..pos + 1] == [buf[pos]];
    } else if nibble == 14 {
      var ext := buf[pos..pos + 2];
      Pow256Values();
      FromBEBound(ext);
      ToFromBE(ext);
    }
  }

  // ---- option values ---------------------------------------------------------------

  function ValueBytes(v: Value): Result<bytes, Error> {
    match v
    case Raw(data) => Ok(data)
    case Text(utf8) => Ok(utf8)
    case Number(d) => NumberBytes(d)
    case NotANumber => Ok([0, 0, 0, 0])
    case Infinite(positive) => if positive then Err(BadNumber) else Ok([0])
  }

  /** Towards zero. */
  function Trunc(d: real): int {
    if d < 0.0 then -(-d).Floor else d.Floor
  }

  /** Writing a byte keeps the low eight bits of the whole part; only the widest form has its range checked. */
  function NumberBytes(d: real): Result<bytes, Error> {
    if d == 0.0 then Ok([])
    else if d <= 255.0 then Ok([Trunc(d) % 256])
    else if d <= 65535.0 then Ok(ToBE(Trunc(d), 2))
    else if d <= 16777215.0 then Ok(ToBE(Trunc(d), 3))
    else if d <= 4294967295.0 then Ok(ToBE(Trunc(d), 4))
    else Err(BadNumber)
  }

  /** A number read byte by byte in double precision, where multiplying by 256 is exact. */
  function RoundedBE(s: bytes): nat {
    if s == [] then 0 else ToDouble(RoundedBE(s[..|s| - 1]) * 256 + s[|s| - 1])
  }

  method OptionToUint(value: bytes) returns (val: nat)
    ensures val == RoundedBE(value)
  {
    val := 0;
    for i := 0 to |value|
      invariant val == RoundedBE(value[..i])
    {
      assert value[..i + 1][..i] == value[..i];
      val := ToDouble(val * 256 + value[i]);
    }
    assert value[..|value|] == value;
  }

  lemma PrefixFits(v: nat, b: byte)
    requires FitsDouble(v * 256 + b)
    ensures FitsDouble(v)
  {
    var n := v * 256 + b;
    HalfFits(n);
    HalfFits(n / 2);
    HalfFits(n / 4);
    HalfFits(n / 8);
    HalfFits(n / 16);
    HalfFits(n / 32);
    HalfFits(n / 64);
    HalfFits(n / 128);
    assert n / 2 / 2 == n / 4 && n / 4 / 2 == n / 8 && n / 8 / 2 == n / 16 && n / 16 / 2 == n / 32;
    assert n / 32 / 2 == n / 64 && n / 64 / 2 == n / 128 && n / 128 / 2 == v;
  }

  lemma HalfFits(n: nat)
    requires FitsDouble(n)
    ensures FitsDouble(n / 2)
  {
  }

  lemma RoundedFits(s: bytes)
    ensures FitsDouble(RoundedBE(s))
  {
    hide FitsDouble, ToDouble;
    if s == [] {
      SmallFits(0);
    } else {
      SmallFits(0);
      NearestDouble(RoundedBE(s[..|s| - 1]) * 256 + s[|s| - 1], 0);
    }
  }

  /** An option is read as its number exactly when that has a double, so always up to six bytes. */
  lemma {:induction false} OptionExactIff(s: bytes)
    ensures RoundedBE(s) == FromBE(s) <==> FitsDouble(FromBE(s))
    ensures |s| <= 6 ==> RoundedBE(s) == FromBE(s)
  {
    hide FitsDouble, ToDouble;
    RoundedFits(s);
    if |s| <= 6 {
      SixBytes(s);
    }
    if s != [] && FitsDouble(FromBE(s)) {
      PrefixFits(FromBE(s[..|s| - 1]), s[|s| - 1]);
      OptionExactIff(s[..|s| - 1]);
      KeptIffFits(FromBE(s));
    }
  }

  lemma SixBytes(s: bytes)
    requires |s| <= 6
    ensures FitsDouble(FromBE(s))
  {
    FromBEBound(s);
    FourBytes();
    assert Pow256(6) == 256 * (256 * Pow256(4)) && Pow256(5) == 256 * Pow256(4);
    SmallFits(FromBE(s));
  }

  lemma FourBytes()
    ensures Pow256(0) == 1 && Pow256(1) == 0x100 && Pow256(2) == 0x1_0000 && Pow256(3) == 0x100_0000 && Pow256(4) == 0x1_0000_0000
  {
    assert Pow256(4) == 256 * Pow256(3) == 256 * (256 * Pow256(2));
  }

  lemma TopByte(s: bytes)
    requires s != []
    ensures FromBE(s) == s[0] * Pow256(|s| - 1) + FromBE(s[1..])
  {
    assert s == [s[0]] + s[1..];
    FromBEConcat([s[0]], s[1..]);
    assert [s[0]][..0] == [] && FromBE([s[0]]) == s[0];
  }

  /** `t` is `d` without its fraction. */
  predicate WholePart(d: real, t: int) {
    if d >= 0.0 then t as real <= d < t as real + 1.0 else t as real - 1.0 < d <= t as real
  }

  /**
   Every number up to 2^32 - 1 is written, in at most four bytes: what they say is its whole part, of a
   negative number the low eight bits. So exactly the whole numbers that are not negative come back, and
   no byte of these is wasted.
   */
  lemma NumberValue(d: real, t: int)
    requires WholePart(d, t)
    ensures ValueBytes(Number(d)).Ok? <==> d <= 4294967295.0
    ensures ValueBytes(Number(d)).Err? ==> ValueBytes(Number(d)) == Err(BadNumber)
    ensures ValueBytes(Number(d)).Ok? ==>
      var s := ValueBytes(Number(d)).value;
      && |s| <= 4
      && FromBE(s) == (if d < 0.0 then t % 256 else t)
      && (FromBE(s) as real == d <==> d >= 0.0 && t as real == d)
      && (d >= 0.0 && t as real == d && s != [] ==> s[0] != 0)
  {
    TruncIs(d, t);
    if d <= 4294967295.0 {
      var s := ValueBytes(Number(d)).value;
      FourBytes();
      if d <= 255.0 {
        assert s != [] ==> s[..0] == [];
      } else {
        FromToBE(t, |s|);
        TopByte(s);
        FromBEBound(s[1..]);
      }
    }
  }

  lemma TruncIs(d: real, t: int)
    requires WholePart(d, t)
    ensures Trunc(d) == t
  {
  }

  lemma MinimalValue(s: bytes)
    requires |s| <= 4 && (s != [] ==> s[0] != 0)
    ensures ValueBytes(Number(FromBE(s) as real)) == Ok(s)
  {
    FourBytes();
    FromBEBound(s);
    ToFromBE(s);
    if s != [] {
      TopByte(s);
      MulAtLeast(Pow256(|s| - 1), s[0]);
      assert ToBE(FromBE(s), 1) == ToBE(FromBE(s) / 256, 0) + [FromBE(s) % 256];
    }
  }

  // ---- options ---------------------------------------------------------------------

  function NumberOf(o: OptionIn): int {
    o.number
  }

  function EncodeOption(delta: nat, value: Value): (r: Result<bytes, Error>)
    ensures r.Ok? ==> r.value != [] && r.value[0] != 0xFF
  {
    match ValueBytes(value)
    case Err(e) => Err(e)
    case Ok(data) =>
      match EncodeField(delta)
      case Err(e) => Err(e)
      case Ok(d) =>
        match EncodeField(|data|)
        case Err(e) => Err(e)
        case Ok(l) => Ok([16 * d.nibble + l.nibble] + d.ext + l.ext + data)
  }

  /** Options already in order, the first one written relative to `prev`. */
  function EncodeFrom(options: seq<OptionIn>, prev: nat): Result<bytes, Error>
    requires S.Sorted(options, NumberOf) && (options != [] ==> prev <= options[0].number)
  {
    if options == [] then Ok([])
    else
      match EncodeOption(options[0].number - prev, options[0].value)
      case Err(e) => Err(e)
      case Ok(data) =>
        match EncodeFrom(options[1..], options[0].number)
        case Err(e) => Err(e)
        case Ok(rest) => Ok(data + rest)
  }

  function InOrder(options: seq<OptionIn>): (t: seq<OptionIn>)
    ensures S.Sorted(t, NumberOf) && |t| == |options|
  {
    S.SortStable(options, NumberOf);
    assert |multiset(S.Sort(options, NumberOf))| == |multiset(options)|;
    S.Sort(options, NumberOf)
  }

  function EncodeOptions(options: seq<OptionIn>): Result<bytes, Error> {
    EncodeFrom(InOrder(options), 0)
  }

  /** No encoded option can be taken for the payload marker. */
  lemma NoMarker(options: seq<OptionIn>, prev: nat)
    requires S.Sorted(options, NumberOf) && (options != [] ==> prev <= options[0].number)
    requires EncodeFrom(options, prev).Ok?
    ensures var data := EncodeFrom(options, prev).value;
            if options == [] then data == [] else data != [] && data[0] != 0xFF
  {
  }

  method WriteOptions(options: seq<OptionIn>) returns (r: Result<bytes, Error>)
    ensures r == EncodeOptions(options)
  {
    hide EncodeField, ValueBytes, InOrder;
    var sorted := InOrder(options);
    var parts: bytes, prev: nat := [], 0;
    assert sorted[0..] == sorted;
    AfterNothing(EncodeFrom(sorted, 0));
    for i := 0 to |sorted|
      invariant i < |sorted| ==> prev <= sorted[i].number
      invariant EncodeFrom(sorted, 0) == After(parts, EncodeFrom(sorted[i..], prev))
    {
      var opt := sorted[i];
      var delta := opt.number - prev;
      assert sorted[i..][0] == opt && sorted[i..][1..] == sorted[i + 1..];
      prev := opt.number;
      var value := ValueBytes(opt.value);
      if value.Err? { return Err(value.error); }
      var d := EncodeField(delta);
      if d.Err? { return Err(d.error); }
      var l := EncodeField(|value.value|);
      if l.Err? { return Err(l.error); }
      var one := [16 * d.value.nibble + l.value.nibble] + d.value.ext + l.value.ext + value.value;
      AfterAfter(parts, one, EncodeFrom(sorted[i + 1..], prev));
      parts := parts + one;
    }
    assert parts + [] == parts;
    return Ok(parts);
  }

  function After(data: bytes, r: Result<bytes, Error>): Result<bytes, Error> {
    if r.Err? then r else Ok(data + r.value)
  }

  lemma AfterNothing(r: Result<bytes, Error>)
    ensures After([], r) == r
  {
    if r.Ok? {
      assert [] + r.value == r.value;
    }
  }

  lemma AfterAfter(a: bytes, b: bytes, r: Result<bytes, Error>)
    ensures After(a, After(b, r)) == After(a + b, r)
  {
    if r.Ok? {
      assert a + (b + r.value) == a + b + r.value;
    }
  }

  /** What reading options gives: them, and the offset behind them, which a cut last value puts past the end. */
  datatype OptionsRead = Options(options: seq<OptionOut>, end: nat) | Refused(error: Error)

  function Min(a: nat, b: nat): nat {
    if a <= b then a else b
  }

  function ReadOptions(buf: bytes, pos: nat, num: nat): (r: OptionsRead)
    ensures r.Options? ==> pos <= r.end
    decreases |buf| - pos
  {
    if pos >= |buf| || buf[pos] == 0xFF then Options([], pos)
    else
      match ReadField(buf, pos + 1, buf[pos] / 16)
      case Bad(e) => Refused(e)
      case Got(delta, p) =>
        match ReadField(buf, p, buf[pos] % 16)
        case Bad(e) => Refused(e)
        case Got(len, p') =>
          Prepend([OptionOut(num + delta, buf[p'..Min(p' + len, |buf|)])], ReadOptions(buf, p' + len, num + delta))
  }

  function Prepend(options: seq<OptionOut>, r: OptionsRead): (r': OptionsRead)
    ensures r'.Options? <==> r.Options?
    ensures r.Options? ==> r'.end == r.end
  {
    match r
    case Refused(e) => r
    case Options(more, end) => Options(options + more, end)
  }

  method ParseOptions(buf: bytes, start: nat) returns (r: OptionsRead)
    ensures r == ReadOptions(buf, start, 0)
  {
    hide ReadField;
    var options, pos: nat, optNum: nat := [], start, 0;
    while pos < |buf| && buf[pos] != 0xFF
      invariant ReadOptions(buf, start, 0) == Prepend(options, ReadOptions(buf, pos, optNum))
      decreases |buf| - pos
    {
      var optByte := buf[pos];
      var delta := ReadField(buf, pos + 1, optByte / 16);
      if delta.Bad? { return Refused(delta.error); }
      var len := ReadField(buf, delta.pos, optByte % 16);
      if len.Bad? { return Refused(len.error); }
      optNum := optNum + delta.v;
      var opt := OptionOut(optNum, buf[len.pos..Min(len.pos + len.v, |buf|)]);
      PrependPrepend(options, [opt], ReadOptions(buf, len.pos + len.v, optNum));
      options := options + [opt];
      pos := len.pos + len.v;
    }
    assert options + [] == options;
    return Options(options, pos);
  }

  lemma PrependPrepend(a: seq<OptionOut>, b: seq<OptionOut>, r: OptionsRead)
    ensures Prepend(a, Prepend(b, r)) == Prepend(a + b, r)
  {
    if r.Options? {
      assert a + (b + r.options) == a + b + r.options;
    }
  }

  // ---- packets ---------------------------------------------------------------------

  function HeaderBytes(m: Message): (h: bytes)
    requires 0 <= m.msgId < 0x1_0000
    ensures |h| == 4
  {
    [64 * VERSION + 16 * (m.kind % 4) + |m.token| % 16, m.code % 256] + ToBE(m.msgId, 2)
  }

  function PayloadBytes(payload: bytes): bytes {
    if payload == [] then [] else [0xFF] + payload
  }

  function Build(m: Message): Result<bytes, Error> {
    if !(0 <= m.msgId < 0x1_0000) then Err(BadMsgId)
    else
      match EncodeOptions(m.options)
      case Err(e) => Err(e)
      case Ok(data) => Ok(HeaderBytes(m) + m.token + data + PayloadBytes(m.payload))
  }

  method BuildPacket(m: Message) returns (r: Result<bytes, Error>)
    ensures r == Build(m)
  {
    if !(0 <= m.msgId < 0x1_0000) { return Err(BadMsgId); }
    var options := WriteOptions(m.options);
    if options.Err? { return options; }
    var packet := HeaderBytes(m) + m.token + options.value;
    if m.payload != [] {
      packet := packet + ([0xFF] + m.payload);
    }
    assert m.payload == [] ==> packet + [] == packet;
    return Ok(packet);
  }

  function PayloadAt(buf: bytes, pos: nat): Result<bytes, Error> {
    if pos >= |buf| then Ok([])
    else if pos + 1 == |buf| then Err(NoPayload)
    else Ok(buf[pos + 1..])
  }

  function Parse(buf: bytes): Result<Packet, Error> {
    if |buf| < 4 then Err(TooShort)
    else
      var tkl := buf[0] % 16;
      if buf[0] / 64 != VERSION then Err(BadVersion)
      else if tkl > 8 then Err(BadTokenLength)
      else if |buf| < 4 + tkl then Err(TooShort)
      else
        match ReadOptions(buf, 4 + tkl, 0)
        case Refused(e) => Err(e)
        case Options(options, pos) =>
          match PayloadAt(buf, pos)
          case Err(e) => Err(e)
          case Ok(payload) =>
            Ok(Packet(buf[0] / 16 % 4, buf[1], FromBE(buf[2..4]), buf[4..4 + tkl], options, payload))
  }

  method ParsePacket(buf: bytes) returns (r: Result<Packet, Error>)
    ensures r == Parse(buf)
  {
    if |buf| < 4 { return Err(TooShort); }
    var ver, kind, tkl := buf[0] / 64, buf[0] / 16 % 4, buf[0] % 16;
    if ver != VERSION { return Err(BadVersion); }
    if tkl > 8 { return Err(BadTokenLength); }
    if |buf| < 4 + tkl { return Err(TooShort); }
    var options := ParseOptions(buf, 4 + tkl);
    if options.Refused? { return Err(options.error); }
    var pos, payload := options.end, [];
    if pos < |buf| {
      pos := pos + 1;
      payload := buf[pos..];
      if payload == [] { return Err(NoPayload); }
    }
    return Ok(Packet(kind, buf[1], FromBE(buf[2..4]), buf[4..4 + tkl], options.options, payload));
  }
}
