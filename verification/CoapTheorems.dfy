/** The CoAP builder and parser invert each other, up to what each of them drops. */
module CoapTheorems {
  import opened Bytes
  import opened CoapPacket
  import S = Sorting

  // ---- parsing what was built ------------------------------------------------------

  function Out(o: OptionIn): OptionOut {
    OptionOut(o.number, if ValueBytes(o.value).Ok? then ValueBytes(o.value).value else [])
  }

  function Outs(options: seq<OptionIn>): seq<OptionOut> {
    if options == [] then [] else [Out(options[0])] + Outs(options[1..])
  }

  /** The message as the other side sees it: options stably sorted by number, small fields cut to their width. */
  function Normal(m: Message): Packet {
    Packet(m.kind % 4, m.code % 256, m.msgId % 0x1_0000, m.token, Outs(InOrder(m.options)), m.payload)
  }

  lemma OptionReadsBack(buf: bytes, pos: nat, num: nat, delta: nat, value: Value, rest: bytes) returns (next: nat)
    requires EncodeOption(delta, value).Ok? && At(buf, pos, EncodeOption(delta, value).value + rest) && pos <= |buf|
    ensures next == pos + |EncodeOption(delta, value).value| <= |buf| && At(buf, next, rest)
    ensures ReadOptions(buf, pos, num)
         == Prepend([OptionOut(num + delta, ValueBytes(value).value)], ReadOptions(buf, next, num + delta))
  {
    hide At, ReadField, EncodeField, ValueBytes;
    var data := ValueBytes(value).value;
    var d, l := EncodeField(delta).value, EncodeField(|data|).value;
    var head := [16 * d.nibble + l.nibble];
    AtConcat(buf, pos, head + d.ext + l.ext + data, rest);
    AtConcat(buf, pos, head + d.ext + l.ext, data);
    AtConcat(buf, pos, head + d.ext, l.ext);
    AtConcat(buf, pos, head, d.ext);
    AtByte(buf, pos, head[0]);
    FieldReads(buf, pos + 1, delta);
    FieldReads(buf, pos + 1 + |d.ext|, |data|);
    var p := pos + 1 + |d.ext| + |l.ext|;
    AtSlice(buf, p, data);
    next := p + |data|;
    AtSlice(buf, next, rest);
  }

  lemma EncodeStep(options: seq<OptionIn>, prev: nat)
    requires S.Sorted(options, NumberOf) && options != [] && prev <= options[0].number
    ensures S.Sorted(options[1..], NumberOf) && (options[1..] != [] ==> options[0].number <= options[1..][0].number)
    ensures EncodeFrom(options, prev).Ok? <==>
      EncodeOption(options[0].number - prev, options[0].value).Ok? && EncodeFrom(options[1..], options[0].number).Ok?
    ensures EncodeFrom(options, prev).Ok? ==>
      EncodeFrom(options, prev).value
      == EncodeOption(options[0].number - prev, options[0].value).value + EncodeFrom(options[1..], options[0].number).value
  {
    hide EncodeOption;
  }

  lemma SortedCons(options: seq<OptionIn>)
    requires options != [] && S.Sorted(options[1..], NumberOf)
    requires options[1..] != [] ==> options[0].number <= options[1..][0].number
    ensures S.Sorted(options, NumberOf)
  {
    assert forall i :: 1 <= i < |options| ==> options[i] == options[1..][i - 1];
  }

  /** Encoded options are read back, up to the end of the packet or the payload marker. */
  lemma {:induction false} OptionsReadBack(buf: bytes, pos: nat, options: seq<OptionIn>, prev: nat)
    requires S.Sorted(options, NumberOf) && (options != [] ==> prev <= options[0].number)
    requires EncodeFrom(options, prev).Ok? && At(buf, pos, EncodeFrom(options, prev).value)
    requires var end := pos + |EncodeFrom(options, prev).value|; end == |buf| || (end < |buf| && buf[end] == 0xFF)
    ensures ReadOptions(buf, pos, prev) == Options(Outs(options), pos + |EncodeFrom(options, prev).value|)
    decreases options
  {
    hide At, EncodeOption, ValueBytes, Outs;
    if options == [] {
      NoOuts();
    } else {
      EncodeStep(options, prev);
      hide ReadOptions, EncodeFrom, S.Sorted;
      var o, rest := options[0], EncodeFrom(options[1..], options[0].number).value;
      var next := OptionReadsBack(buf, pos, prev, o.number - prev, o.value, rest);
      OptionsReadBack(buf, next, options[1..], o.number);
      OutOf(o, o.number - prev);
      OutsStep(options);
    }
  }

  lemma NoOuts()
    ensures Outs([]) == []
  {
  }

  lemma OutsStep(options: seq<OptionIn>)
    requires options != []
    ensures Outs(options) == [Out(options[0])] + Outs(options[1..])
  {
  }

  lemma OutOf(o: OptionIn, delta: nat)
    requires EncodeOption(delta, o.value).Ok?
    ensures ValueBytes(o.value).Ok? && Out(o) == OptionOut(o.number, ValueBytes(o.value).value)
  {
  }

  lemma HeaderReads(buf: bytes, m: Message)
    requires 0 <= m.msgId < 0x1_0000 && At(buf, 0, HeaderBytes(m))
    ensures |buf| >= 4 && buf[0] / 64 == VERSION && buf[0] / 16 % 4 == m.kind % 4 && buf[0] % 16 == |m.token| % 16
    ensures buf[1] == m.code % 256 && FromBE(buf[2..4]) == m.msgId
  {
    var h := HeaderBytes(m);
    AtSlice(buf, 0, h);
    assert buf[0..4] == h && buf[0] == h[0] && buf[1] == h[1] && buf[2..4] == h[2..4] == ToBE(m.msgId, 2);
    Pow256Values();
    FromToBE(m.msgId, 2);
  }

  lemma PayloadReads(buf: bytes, pos: nat, payload: bytes)
    requires pos <= |buf| && buf[pos..] == PayloadBytes(payload)
    ensures PayloadAt(buf, pos) == Ok(payload)
    ensures pos == |buf| || buf[pos] == 0xFF
  {
    if payload != [] {
      assert buf[pos] == buf[pos..][0] == 0xFF && buf[pos + 1..] == buf[pos..][1..] == payload;
    }
  }

  lemma BuiltParts(m: Message, packet: bytes) returns (options: bytes)
    requires Build(m) == Ok(packet)
    ensures EncodeOptions(m.options) == Ok(options) && 0 <= m.msgId < 0x1_0000
    ensures At(packet, 0, HeaderBytes(m)) && At(packet, 4, m.token) && At(packet, 4 + |m.token|, options)
    ensures 4 + |m.token| + |options| <= |packet| && packet[4 + |m.token| + |options|..] == PayloadBytes(m.payload)
  {
    hide At, EncodeOptions, HeaderBytes, PayloadBytes;
    options := EncodeOptions(m.options).value;
    var h := HeaderBytes(m);
    AtSlice(packet, 0, packet);
    AtConcat(packet, 0, h + m.token + options, PayloadBytes(m.payload));
    AtConcat(packet, 0, h + m.token, options);
    AtConcat(packet, 0, h, m.token);
    AtSlice(packet, |h + m.token + options|, PayloadBytes(m.payload));
  }

  /** Parsing gives the message back exactly when its token has at most eight bytes. */
  lemma RoundTrip(m: Message)
    requires Build(m).Ok?
    ensures Parse(Build(m).value) == Ok(Normal(m)) <==> |m.token| <= 8
  {
    hide At, Build, EncodeOptions, HeaderBytes, PayloadBytes, ReadOptions, PayloadAt, Outs, InOrder;
    var packet := Build(m).value;
    var options := BuiltParts(m, packet);
    HeaderReads(packet, m);
    if |m.token| <= 8 {
      AtSlice(packet, 4, m.token);
      AllOptions(packet, 4 + |m.token|, m, options);
      PayloadReads(packet, 4 + |m.token| + |options|, m.payload);
    }
  }

  lemma AllOptions(packet: bytes, pos: nat, m: Message, options: bytes)
    requires EncodeOptions(m.options) == Ok(options) && At(packet, pos, options) && pos + |options| <= |packet|
    requires packet[pos + |options|..] == PayloadBytes(m.payload)
    ensures ReadOptions(packet, pos, 0) == Options(Outs(InOrder(m.options)), pos + |options|)
  {
    hide At, EncodeFrom, ReadOptions, Outs, InOrder;
    PayloadReads(packet, pos + |options|, m.payload);
    OptionsReadBack(packet, pos, InOrder(m.options), 0);
  }

  /** What the other side reads of an option: bytes and text as they are, a number up to 2^32 - 1 as its whole part. */
  ghost predicate Shows(o: OptionIn, x: OptionOut) {
    && x.number == o.number
    && (o.value.Raw? ==> x.value == o.value.data)
    && (o.value.Text? ==> x.value == o.value.utf8)
    && (o.value.NotANumber? ==> x.value == [0, 0, 0, 0])
    && (o.value.Infinite? ==> !o.value.positive && x.value == [0])
    && (o.value.Number? ==>
          && |x.value| <= 4
          && forall t :: WholePart(o.value.d, t) ==> FromBE(x.value) == if o.value.d < 0.0 then t % 256 else t)
  }

  lemma OutShows(o: OptionIn)
    requires ValueBytes(o.value).Ok?
    ensures Shows(o, Out(o))
  {
    hide NumberBytes;
    if o.value.Number? {
      forall t | WholePart(o.value.d, t)
        ensures |Out(o).value| <= 4 && FromBE(Out(o).value) == if o.value.d < 0.0 then t % 256 else t
      {
        NumberValue(o.value.d, t);
      }
      TruncPart(o.value.d);
      NumberValue(o.value.d, Trunc(o.value.d));
    }
  }

  lemma {:induction false} OutsShow(options: seq<OptionIn>, prev: nat)
    requires S.Sorted(options, NumberOf) && (options != [] ==> prev <= options[0].number) && EncodeFrom(options, prev).Ok?
    ensures |Outs(options)| == |options| && forall i :: 0 <= i < |options| ==> Shows(options[i], Outs(options)[i])
    decreases |options|
  {
    if options != [] {
      EncodeStep(options, prev);
      OutShows(options[0]);
      hide Shows, ValueBytes, EncodeOption, Out;
      OutsShow(options[1..], options[0].number);
    }
  }

  /** A message that can be built, with a token of at most eight bytes, arrives as it was, its options in stable order. */
  lemma MessageArrives(m: Message)
    requires Build(m).Ok? && |m.token| <= 8
    ensures Build(m).value != [] && Build(m).value[0] / 64 == 1 && Parse(Build(m).value).Ok?
    ensures var p, options := Parse(Build(m).value).value, InOrder(m.options);
            && p.kind == m.kind % 4 && p.code == m.code % 256 && p.msgId == m.msgId && p.token == m.token && p.payload == m.payload
            && |p.options| == |options| && forall i :: 0 <= i < |options| ==> Shows(options[i], p.options[i])
  {
    hide Parse, EncodeFrom, InOrder, Outs, Shows;
    RoundTrip(m);
    OutsShow(InOrder(m.options), 0);
  }

  predicate ValueFits(v: Value) {
    match v
    case Raw(data) => |data| <= MAX_FIELD
    case Text(utf8) => |utf8| <= MAX_FIELD
    case Number(d) => d <= 4294967295.0
    case NotANumber => true
    case Infinite(positive) => !positive
  }

  /** Steps between option numbers, and value lengths, that the extended fields can hold. */
  predicate Encodable(options: seq<OptionIn>, prev: nat) {
    options == [] ||
    (options[0].number - prev <= MAX_FIELD && ValueFits(options[0].value) && Encodable(options[1..], options[0].number))
  }

  lemma {:induction false} EncodesWhatFits(options: seq<OptionIn>, prev: nat)
    requires S.Sorted(options, NumberOf) && (options != [] ==> prev <= options[0].number)
    ensures EncodeFrom(options, prev).Ok? <==> Encodable(options, prev)
    decreases options
  {
    if options != [] {
      EncodeStep(options, prev);
      EncodesWhatFits(options[1..], options[0].number);
      hide EncodeFrom, S.Sorted;
      var v := options[0].value;
      if v.Number? {
        TruncPart(v.d);
        NumberValue(v.d, Trunc(v.d));
      }
    }
  }

  lemma TruncPart(d: real)
    ensures WholePart(d, Trunc(d))
  {
  }

  /** Exactly which messages can be built. */
  lemma Buildable(m: Message)
    ensures Build(m).Ok? <==> 0 <= m.msgId < 0x1_0000 && Encodable(InOrder(m.options), 0)
  {
    hide EncodeFrom, InOrder;
    EncodesWhatFits(InOrder(m.options), 0);
  }

  // ---- building what was parsed ----------------------------------------------------

  function In(o: OptionOut): OptionIn {
    OptionIn(o.number, Raw(o.value))
  }

  function Ins(options: seq<OptionOut>): (r: seq<OptionIn>)
    ensures |r| == |options|
  {
    if options == [] then [] else [In(options[0])] + Ins(options[1..])
  }

  function AsMessage(p: Packet): Message {
    Message(p.kind, p.code, p.msgId, p.token, Ins(p.options), p.payload)
  }

  /** Options that are all there are in order, and writing them gives the bytes they were read from. */
  lemma {:induction false} OptionsWrittenBack(buf: bytes, pos: nat, num: nat)
    requires ReadOptions(buf, pos, num).Options? && ReadOptions(buf, pos, num).end <= |buf|
    ensures var r := ReadOptions(buf, pos, num);
            var ins := Ins(r.options);
            && S.Sorted(ins, NumberOf) && (ins != [] ==> num <= ins[0].number)
            && EncodeFrom(ins, num) == Ok(buf[pos..r.end])
    decreases |buf| - pos
  {
    hide ReadField, EncodeField;
    if pos < |buf| && buf[pos] != 0xFF {
      var d := ReadField(buf, pos + 1, buf[pos] / 16);
      var l := ReadField(buf, d.pos, buf[pos] % 16);
      var next := l.pos + l.v;
      OptionsWrittenBack(buf, next, num + d.v);
      var r, rest := ReadOptions(buf, pos, num), ReadOptions(buf, next, num + d.v);
      assert next <= |buf|;
      FieldWritten(buf, pos + 1, buf[pos] / 16);
      FieldWritten(buf, d.pos, buf[pos] % 16);
      var ins := Ins(r.options);
      assert r == Prepend([OptionOut(num + d.v, buf[l.pos..next])], rest);
      assert r.options[1..] == rest.options && ins[1..] == Ins(rest.options);
      OneWritten(buf, pos, d.pos, l.pos, next, rest.end, d.v, l.v);
      hide ReadOptions, EncodeOption, EncodeFrom;
      SortedCons(ins);
      EncodeStep(ins, num);
      assert EncodeFrom(ins[1..], ins[0].number) == Ok(buf[next..rest.end]) && r.end == rest.end;
      assert EncodeFrom(ins, num) == Ok(buf[pos..r.end]);
    } else {
      assert pos <= |buf| ==> buf[pos..pos] == [];
    }
  }

  lemma OneWritten(buf: bytes, pos: nat, p: nat, p': nat, next: nat, end: nat, delta: nat, len: nat)
    requires pos < p <= p' <= next <= end <= |buf| && next == p' + len
    requires delta <= MAX_FIELD && EncodeField(delta) == Ok(Field(buf[pos] / 16, buf[pos + 1..p]))
    requires len <= MAX_FIELD && EncodeField(len) == Ok(Field(buf[pos] % 16, buf[p..p']))
    ensures EncodeOption(delta, Raw(buf[p'..next])).Ok?
    ensures EncodeOption(delta, Raw(buf[p'..next])).value + buf[next..end] == buf[pos..end]
  {
    hide EncodeField;
    assert [buf[pos]] + buf[pos + 1..p] + buf[p..p'] + buf[p'..next] + buf[next..end] == buf[pos..end];
  }

  /** The packet ends inside the value of its last option; the parser keeps the part that is there. */
  predicate LastOptionCut(buf: bytes) {
    |buf| >= 4 && ReadOptions(buf, 4 + buf[0] % 16, 0).Options? && ReadOptions(buf, 4 + buf[0] % 16, 0).end > |buf|
  }

  lemma HeaderWritten(buf: bytes, m: Message)
    requires Parse(buf).Ok? && m == AsMessage(Parse(buf).value)
    ensures 0 <= m.msgId < 0x1_0000 && |buf| >= 4 + |m.token| && |m.token| == buf[0] % 16
    ensures HeaderBytes(m) == buf[0..4] && m.token == buf[4..4 + |m.token|]
  {
    hide ReadOptions, PayloadAt;
    var id := buf[2..4];
    Pow256Values();
    FromBEBound(id);
    ToFromBE(id);
    assert buf[0] == 64 * (buf[0] / 64) + 16 * (buf[0] / 16 % 4) + buf[0] % 16;
    assert buf[0..4] == [buf[0], buf[1]] + id;
  }

  lemma PayloadWritten(buf: bytes, pos: nat)
    requires PayloadAt(buf, pos).Ok? && pos <= |buf| && (pos < |buf| ==> buf[pos] == 0xFF)
    ensures PayloadBytes(PayloadAt(buf, pos).value) == buf[pos..]
  {
    if pos < |buf| {
      assert buf[pos..] == [buf[pos]] + buf[pos + 1..];
    }
  }

  lemma {:induction false} StopsAtMarker(buf: bytes, pos: nat, num: nat)
    requires ReadOptions(buf, pos, num).Options?
    ensures var end := ReadOptions(buf, pos, num).end; end < |buf| ==> buf[end] == 0xFF
    decreases |buf| - pos
  {
    hide ReadField;
    if pos < |buf| && buf[pos] != 0xFF {
      var d := ReadField(buf, pos + 1, buf[pos] / 16);
      var l := ReadField(buf, d.pos, buf[pos] % 16);
      StopsAtMarker(buf, l.pos + l.v, num + d.v);
    }
  }

  /** Building from what was parsed gives the packet back, exactly when its last option value was not cut short. */
  lemma Rebuild(buf: bytes)
    requires Parse(buf).Ok?
    ensures Build(AsMessage(Parse(buf).value)) == Ok(buf) <==> !LastOptionCut(buf)
  {
    hide ReadOptions, PayloadAt, EncodeFrom, HeaderBytes, PayloadBytes, InOrder, Ins;
    var p, m, start := Parse(buf).value, AsMessage(Parse(buf).value), 4 + buf[0] % 16;
    var r := ReadOptions(buf, start, 0);
    HeaderWritten(buf, m);
    if r.end <= |buf| {
      OptionsWrittenBack(buf, start, 0);
      InOrderAlready(m.options);
      StopsAtMarker(buf, start, 0);
      PayloadWritten(buf, r.end);
      assert buf[0..4] + buf[4..start] + buf[start..r.end] + buf[r.end..] == buf;
    } else if Build(m) == Ok(buf) {
      var options := BuiltParts(m, buf);
      AllOptions(buf, start, m, options);
    }
  }

  lemma InOrderAlready(options: seq<OptionIn>)
    requires S.Sorted(options, NumberOf)
    ensures InOrder(options) == options
  {
    S.SortedStays(options, NumberOf);
  }
}
