/**
 What each kind of value is written as and comes back as, schema by schema, in terms of the value
 alone: which integer, which symbol, which property or default, which branch.
 */
module AvroValues {
  import opened Bytes
  import opened AvroVarint
  import opened AvroCodec
  import opened Objects

  // ---- numbers ---------------------------------------------------------------------

  /** The number that a value counts as where one is wanted. */
  predicate CountsAs(js: Runtime, v: JVal, x: Number) {
    || v == Num(x)
    || (v.BigInt? && x == Fin(v.n as real))
    || (v.Null? && x == Fin(0.0))
    || (v.Undefined? && x == Number.NaN)
    || (v == Bool(false) && x == Fin(0.0))
    || (v == Bool(true) && x == Fin(1.0))
    || ((v.Str? || v.Buf? || v.Arr? || v.Obj?) && js.number(v) == Some(x))
  }

  /** `n` is `r` without its fraction. */
  predicate Whole(r: real, n: int) {
    if r >= 0.0 then n as real <= r < n as real + 1.0 else n as real - 1.0 < r <= n as real
  }

  /** Off the recursion the encoder is the primitive one. */
  lemma PrimitiveStep(js: Runtime, v: JVal, s: Schema, depth: nat)
    requires depth <= 64 && !s.SRecord? && !s.SArray? && !s.SMap? && !s.SUnion?
    ensures EncodeValue(js, v, s, depth) == EncodePrimitive(js, v, s)
  {
  }

  lemma LongStep(js: Runtime, v: JVal, depth: nat)
    requires depth <= 64
    ensures var r := LongOf(js, v);
            && EncodeValue(js, v, SLong, depth) == (if r.Ok? then Ok(LongBytes(r.value)) else Err(r.error))
            && (r.Ok? ==> Norm(js, v, SLong, depth) == Some(LongValue(UnZigZag(ZigZag(r.value, 64)))))
  {
    hide LongOf, LongBytes, LongValue, UnZigZag, ZigZag;
  }

  lemma EnumStep(js: Runtime, symbols: seq<bytes>, v: JVal, depth: nat)
    requires depth <= 64
    ensures var r := EnumIndexOf(symbols, v);
            && EncodeValue(js, v, SEnum(symbols), depth) == (if r.Ok? then Ok(IntBytes(r.value)) else Err(r.error))
            && (r.Ok? ==> Norm(js, v, SEnum(symbols), depth) == SymbolValue(symbols, AsInt(r.value, 32)))
  {
    hide EnumIndexOf, IntBytes, SymbolValue, AsInt;
  }

  lemma WholeIs(r: real, n: int)
    requires Whole(r, n)
    ensures Trunc(r) == n
  {
  }

  lemma CountsAsIs(js: Runtime, v: JVal, x: Number)
    requires CountsAs(js, v, x)
    ensures ToNumber(js, v) == Some(x)
  {
  }

  /** Within the safe range the integer is a number again, outside it is tagged as long. */
  predicate IsLongValue(x: Option<DVal>, n: int) {
    x == Some(if -0x1F_FFFF_FFFF_FFFF <= n <= 0x1F_FFFF_FFFF_FFFF then DNum(n) else DLong(n))
  }

  /** Under `long` a number loses its fraction, and comes back as it is within 64 bits; the others are refused. */
  lemma LongsKept(js: Runtime, v: JVal, x: Number, n: int, depth: nat)
    requires CountsAs(js, v, x) && !v.BigInt? && depth <= 64
    ensures !x.Fin? ==> EncodeValue(js, v, SLong, depth) == Err(NotANumber)
    ensures x.Fin? && Whole(x.r, n) ==> EncodeValue(js, v, SLong, depth) == Ok(LongBytes(n))
    ensures x.Fin? && Whole(x.r, n) && AvroVarint.Fits(n, 64) ==> IsLongValue(Norm(js, v, SLong, depth), n)
  {
    hide LongBytes, ZigZag, UnZigZag, AvroVarint.Fits, Trunc, Whole, EncodeValue, EncodePrimitive, Norm, LongOf, ToNumber, CountsAs;
    hide LongValue, IsLongValue;
    LongStep(js, v, depth);
    NumberLong(js, v, x);
    LongValueIs(n);
    if x.Fin? && Whole(x.r, n) {
      WholeIs(x.r, n);
      if AvroVarint.Fits(n, 64) {
        ZigZagFolds(n, 64);
      }
    }
  }

  lemma NumberLong(js: Runtime, v: JVal, x: Number)
    requires CountsAs(js, v, x) && !v.BigInt?
    ensures LongOf(js, v) == if x.Fin? then Ok(Trunc(x.r)) else Err(NotANumber)
  {
    hide ToNumber, Trunc;
    CountsAsIs(js, v, x);
  }

  lemma LongValueIs(n: int)
    ensures IsLongValue(Some(LongValue(n)), n)
  {
  }

  /** A bigint wraps to the integer of 64 bits that is congruent to it. */
  lemma BigintsKept(js: Runtime, n: int, m: int, depth: nat)
    requires AvroVarint.Fits(m, 64) && (n - m) % Pow2(64) == 0 && depth <= 64
    ensures EncodeValue(js, BigInt(n), SLong, depth) == Ok(LongBytes(m))
    ensures IsLongValue(Norm(js, BigInt(n), SLong, depth), m)
  {
    hide LongBytes, ZigZag, UnZigZag, EncodeValue, EncodePrimitive, Norm, LongValue, IsLongValue;
    LongStep(js, BigInt(n), depth);
    CongruentIs(n, m, 64);
    LongValueIs(m);
    ZigZagFolds(m, 64);
  }

  lemma CongruentIs(n: int, m: int, bits: nat)
    requires bits >= 1 && AvroVarint.Fits(m, bits) && (n - m) % Pow2(bits) == 0
    ensures AsInt(n, bits) == m
  {
    hide Pow2;
    var p := Pow2(bits);
    AsIntFits(m, bits);
    var k := (n - m) / p;
    assert n == m + k * p;
    SameLow(m, k, p);
  }

  lemma SameLow(m: int, k: int, p: nat)
    requires p >= 1
    ensures (m + k * p) % p == m % p
  {
    var q, r := m / p, m % p;
    assert m + k * p == (q + k) * p + r;
    LowUnique(m + k * p, q + k, r, p);
  }

  lemma LowUnique(n: int, q: int, r: nat, p: nat)
    requires p >= 1 && r < p && n == q * p + r
    ensures n % p == r
  {
    var q', r' := n / p, n % p;
    assert n == p * q' + r';
    assert p * (q - q') == r' - r;
    if q > q' {
      assert p * (q - q') >= p by { MulAtLeast(p, q - q'); }
    } else if q < q' {
      assert p * (q' - q) >= p by { MulAtLeast(p, q' - q); }
    }
  }

  /** Under `int` a number loses its fraction, NaN is 0, and what has more than 32 bits is refused. */
  lemma IntWritten(js: Runtime, v: JVal, x: Number, n: int, depth: nat)
    requires CountsAs(js, v, x) && depth <= 64
    requires if x.Fin? then Whole(x.r, n) else x.NaN? ==> n == 0
    ensures (x.Fin? && -0x8000_0000 <= n <= 0x7FFF_FFFF) || x.NaN? ==>
      EncodeValue(js, v, SInt, depth) == Ok(LongBytes(n)) && Norm(js, v, SInt, depth) == Some(DNum(n))
    ensures x.PosInf? || x.NegInf? || (x.Fin? && !(-0x8000_0000 <= n <= 0x7FFF_FFFF)) ==>
      EncodeValue(js, v, SInt, depth) == Err(IntRange)
  {
    hide LongBytes, ZigZag, Trunc, Whole, EncodeValue;
    PrimitiveStep(js, v, SInt, depth);
    CountsAsIs(js, v, x);
    if x.Fin? {
      WholeIs(x.r, n);
    }
    Pow2Values();
    if -0x8000_0000 <= n <= 0x7FFF_FFFF {
      IntBytesAreLongBytes(n);
    }
  }

  /** Under `float` and `double` the number itself is imaged. */
  lemma FloatWritten(js: Runtime, v: JVal, x: Number, depth: nat)
    requires CountsAs(js, v, x) && depth <= 64
    ensures EncodeValue(js, v, SFloat, depth) == Ok(js.single(x)) && Norm(js, v, SFloat, depth) == Some(DFloat(js.single(x)))
    ensures EncodeValue(js, v, SDouble, depth) == Ok(js.double(x)) && Norm(js, v, SDouble, depth) == Some(DDouble(js.double(x)))
  {
    hide EncodeValue;
    PrimitiveStep(js, v, SFloat, depth);
    PrimitiveStep(js, v, SDouble, depth);
    CountsAsIs(js, v, x);
  }

  /** Under `boolean` everything is true but null, undefined, false, 0, NaN, the bigint 0 and the empty string. */
  lemma BooleanWritten(js: Runtime, v: JVal, depth: nat)
    requires depth <= 64
    ensures var falsy := v in [Null, Undefined, Bool(false), Num(Number.NaN), Num(Fin(0.0)), BigInt(0), Str([])];
            && EncodeValue(js, v, SBoolean, depth) == Ok([if falsy then 0 else 1])
            && Norm(js, v, SBoolean, depth) == Some(DBool(!falsy))
  {
    hide EncodeValue;
    PrimitiveStep(js, v, SBoolean, depth);
  }

  // ---- bytes and symbols -----------------------------------------------------------

  /** The bytes that a value stands for: a buffer's own, or a string's in base64. */
  predicate HasBytes(js: Runtime, v: JVal, data: bytes) {
    v == Buf(data) || (v.Str? && js.base64(v.utf8) == data)
  }

  lemma BytesWritten(js: Runtime, v: JVal, data: bytes, size: int, depth: nat)
    requires HasBytes(js, v, data) && depth <= 64
    ensures EncodeValue(js, v, SBytes, depth) == Ok(LongBytes(|data|) + data)
    ensures Norm(js, v, SBytes, depth) == Some(DBytes(data))
    ensures EncodeValue(js, v, SFixed(size), depth).Ok? <==> |data| == size && data != []
    ensures |data| == size && data != [] ==>
      EncodeValue(js, v, SFixed(size), depth) == Ok(data) && Norm(js, v, SFixed(size), depth) == Some(DFixed(data))
  {
    hide EncodeValue, LongBytes;
    PrimitiveStep(js, v, SBytes, depth);
    PrimitiveStep(js, v, SFixed(size), depth);
  }

  lemma BytesRefused(js: Runtime, v: JVal, size: int, depth: nat)
    requires !v.Buf? && !v.Str? && depth <= 64
    ensures EncodeValue(js, v, SBytes, depth) == Err(NotBytes) && EncodeValue(js, v, SFixed(size), depth).Err?
  {
    hide EncodeValue;
    PrimitiveStep(js, v, SBytes, depth);
    PrimitiveStep(js, v, SFixed(size), depth);
  }

  lemma TextWritten(js: Runtime, v: JVal, utf8: bytes, depth: nat)
    requires (v == Str(utf8) || (!v.Str? && js.text(v) == Some(utf8))) && depth <= 64
    ensures EncodeValue(js, v, SString, depth) == Ok(LongBytes(|utf8|) + utf8)
    ensures Norm(js, v, SString, depth) == Some(DText(utf8))
  {
    hide EncodeValue;
    PrimitiveStep(js, v, SString, depth);
  }

  lemma FirstIndex(symbols: seq<bytes>, name: bytes, i: nat)
    requires i < |symbols| && symbols[i] == name && name !in symbols[..i]
    ensures SymbolIndex(symbols, name, 0) == Some(i)
  {
    var k := SymbolIndex(symbols, name, 0);
    NotBefore(symbols, name, i);
    assert symbols[0..] == symbols;
    if k.Some? {
      assert symbols[0..k.value] == symbols[..k.value];
      NotBefore(symbols, name, k.value);
    }
  }

  lemma NotBefore(symbols: seq<bytes>, name: bytes, i: nat)
    requires i <= |symbols| && name !in symbols[..i]
    ensures forall j :: 0 <= j < i ==> symbols[j] != name
  {
    forall j | 0 <= j < i
      ensures symbols[j] != name
    {
      assert symbols[..i][j] == symbols[j];
    }
  }

  /** A symbol is written as its first index, a number as itself without its fraction; both come back as the symbol. */
  lemma EnumWritten(js: Runtime, symbols: seq<bytes>, v: JVal, i: nat, depth: nat)
    requires i < |symbols| <= 0x8000_0000 && depth <= 64
    requires (v == Str(symbols[i]) && symbols[i] !in symbols[..i]) || (v.Num? && v.x.Fin? && i as real <= v.x.r < i as real + 1.0)
    ensures EncodeValue(js, v, SEnum(symbols), depth) == Ok(LongBytes(i))
    ensures Norm(js, v, SEnum(symbols), depth) == Some(DText(symbols[i]))
  {
    hide LongBytes, ZigZag, EncodeValue, EncodePrimitive, Norm;
    EnumStep(js, symbols, v, depth);
    var e := EnumIndexOf(symbols, v);
    assert e == Ok(i) by {
      if v.Str? {
        FirstIndex(symbols, v.utf8, i);
      } else {
        WholeIs(v.x.r, i);
      }
    }
    Pow2Values();
    AsIntFits(i, 32);
    IntBytesAreLongBytes(i);
  }

  /** What has no symbol is refused, NaN excepted, which is written as 0. */
  lemma EnumRefused(js: Runtime, symbols: seq<bytes>, v: JVal, depth: nat)
    requires depth <= 64
    ensures v.Str? && v.utf8 !in symbols ==> EncodeValue(js, v, SEnum(symbols), depth) == Err(EnumSymbolUnknown)
    ensures v.Num? && v.x.Fin? && !(0.0 <= v.x.r < |symbols| as real) ==>
      EncodeValue(js, v, SEnum(symbols), depth) == Err(EnumIndexRange)
    ensures v == Num(Number.NaN) ==> EncodeValue(js, v, SEnum(symbols), depth) == Ok([0])
    ensures !v.Str? && !v.Num? ==> EncodeValue(js, v, SEnum(symbols), depth) == Err(EnumKind)
  {
    hide EncodeValue, EncodePrimitive, Norm;
    EnumStep(js, symbols, v, depth);
    if v.Str? && v.utf8 !in symbols {
      var k := SymbolIndex(symbols, v.utf8, 0);
    }
    if v == Num(Number.NaN) {
      Pow2Values();
      AsIntFits(0, 32);
      ZigZagFolds(0, 32);
    }
  }

  /** Null is written as nothing, for undefined too, and nothing else is taken for it. */
  lemma NullWritten(js: Runtime, v: JVal, depth: nat)
    requires depth <= 64
    ensures EncodeValue(js, v, SNull, depth) == if v in [Null, Undefined] then Ok([]) else Err(NotNull)
    ensures v in [Null, Undefined] ==> Norm(js, v, SNull, depth) == Some(DNull)
  {
  }

  /** What the encoder refuses whatever the rest: a value of the wrong kind, an unknown type, more than 64 levels. */
  lemma KindRefused(js: Runtime, v: JVal, s: Schema, depth: nat)
    ensures depth > 64 ==> EncodeValue(js, v, s, depth) == Err(DepthLimit)
    ensures depth <= 64 && !v.Obj? && !v.Buf? && (s.SRecord? || s.SMap?) ==> EncodeValue(js, v, s, depth) == Err(NotObject)
    ensures depth <= 64 && !v.Arr? && s.SArray? ==> EncodeValue(js, v, s, depth) == Err(NotArray)
    ensures depth <= 64 && s.Other? ==> EncodeValue(js, v, s, depth) == Err(Unsupported)
    ensures depth <= 64 && !v.Str? && js.text(v).None? && s.SString? ==> EncodeValue(js, v, s, depth) == Err(NotText)
    ensures depth <= 64 && (v.Str? || v.Buf? || v.Arr? || v.Obj?) && js.number(v).None? && (s.SInt? || s.SLong? || s.SFloat? || s.SDouble?) ==>
      EncodeValue(js, v, s, depth) == Err(NotANumber)
  {
    hide LongBytes, IntBytes, EncodeFields, EncodeItems, EncodeProps, BranchOf;
  }

  // ---- records, arrays and maps ----------------------------------------------------

  ghost predicate Lacks(props: seq<Prop>, name: bytes) {
    forall i :: 0 <= i < |props| ==> props[i].name != name
  }

  ghost predicate HasAt(props: seq<Prop>, name: bytes, x: JVal, i: nat) {
    i < |props| && props[i] == Prop(name, x) && forall j :: 0 <= j < i ==> props[j].name != name
  }

  ghost predicate Has(props: seq<Prop>, name: bytes, x: JVal) {
    exists i: nat :: HasAt(props, name, x, i)
  }

  lemma {:induction false} LookupIs(props: seq<Prop>, name: bytes)
    ensures Lookup(props, name).None? <==> Lacks(props, name)
    ensures Lookup(props, name).Some? ==> Has(props, name, Lookup(props, name).value)
    decreases |props|
  {
    if props != [] {
      LookupIs(props[1..], name);
      if props[0].name == name {
        assert HasAt(props, name, props[0].value, 0);
      } else if Lookup(props, name).Some? {
        var x := Lookup(props, name).value;
        var i: nat :| HasAt(props[1..], name, x, i);
        assert HasAt(props, name, x, i + 1);
      }
    }
  }

  lemma HasOne(props: seq<Prop>, name: bytes, x: JVal)
    requires Has(props, name, x)
    ensures Lookup(props, name) == Some(x)
  {
    LookupIs(props, name);
    var i: nat :| HasAt(props, name, x, i);
    if Lookup(props, name).Some? {
      var j: nat :| HasAt(props, name, Lookup(props, name).value, j);
    }
  }

  /** What a record field is written from: the property of its name, or without one the default. */
  ghost predicate Given(props: seq<Prop>, field: Field, x: JVal) {
    Has(props, field.name, x) || (Lacks(props, field.name) && field.default == Some(x))
  }

  lemma GivenIs(props: seq<Prop>, field: Field, x: JVal)
    requires Given(props, field, x)
    ensures FieldValue(props, field) == Some(x)
  {
    if Has(props, field.name, x) {
      HasOne(props, field.name, x);
    } else {
      LookupIs(props, field.name);
    }
  }

  ghost predicate AllGiven(props: seq<Prop>, fields: seq<Field>, xs: seq<JVal>) {
    |xs| == |fields| && forall i :: 0 <= i < |fields| ==> Given(props, fields[i], xs[i])
  }

  predicate AllTaken(js: Runtime, fields: seq<Field>, xs: seq<JVal>, depth: nat)
    requires |xs| == |fields|
  {
    forall i :: 0 <= i < |fields| ==> EncodeValue(js, xs[i], fields[i].schema, depth).Ok?
  }

  /** `ps` are the fields' names with the normal forms of `xs`. */
  predicate FieldsRead(js: Runtime, fields: seq<Field>, xs: seq<JVal>, depth: nat, ps: seq<DProp>)
    requires |xs| == |fields| && AllTaken(js, fields, xs, depth)
  {
    && |ps| == |fields|
    && forall i :: 0 <= i < |fields| ==> ps[i].name == fields[i].name && Norm(js, xs[i], fields[i].schema, depth) == Some(ps[i].value)
  }

  lemma {:induction false} FieldsTaken(js: Runtime, props: seq<Prop>, fields: seq<Field>, xs: seq<JVal>, depth: nat)
    requires AllGiven(props, fields, xs)
    ensures EncodeFields(js, props, fields, depth).Ok? <==> AllTaken(js, fields, xs, depth)
    decreases |fields|
  {
    hide EncodeValue, FieldValue, Given;
    if fields != [] {
      GivenIs(props, fields[0], xs[0]);
      FieldsTaken(js, props, fields[1..], xs[1..], depth);
      if EncodeFields(js, props, fields, depth).Ok? {
        forall i | 0 <= i < |fields|
          ensures EncodeValue(js, xs[i], fields[i].schema, depth).Ok?
        {
          assert i > 0 ==> xs[i] == xs[1..][i - 1] && fields[i] == fields[1..][i - 1];
        }
      }
    }
  }

  lemma {:induction false} FieldsNormal(js: Runtime, props: seq<Prop>, fields: seq<Field>, xs: seq<JVal>, depth: nat, ps: seq<DProp>)
    requires AllGiven(props, fields, xs) && EncodeFields(js, props, fields, depth).Ok?
    requires AllTaken(js, fields, xs, depth) && FieldsRead(js, fields, xs, depth, ps)
    ensures NormFields(js, props, fields, depth) == Some(ps)
    decreases |fields|
  {
    hide EncodeValue, FieldValue, Given, Norm;
    if fields != [] {
      GivenIs(props, fields[0], xs[0]);
      FieldsNormal(js, props, fields[1..], xs[1..], depth, ps[1..]);
      assert [Property(fields[0].name, ps[0].value)] + ps[1..] == ps;
    }
  }

  lemma {:induction false} FieldMissing(js: Runtime, props: seq<Prop>, fields: seq<Field>, i: nat, depth: nat)
    requires i < |fields| && Lacks(props, fields[i].name) && fields[i].default.None?
    ensures EncodeFields(js, props, fields, depth).Err?
    ensures (forall k, x :: 0 <= k < i && Given(props, fields[k], x) ==> EncodeValue(js, x, fields[k].schema, depth).Ok?) ==>
      EncodeFields(js, props, fields, depth) == Err(MissingField)
    decreases i
  {
    hide EncodeValue;
    LookupIs(props, fields[0].name);
    if i > 0 {
      FieldMissing(js, props, fields[1..], i - 1, depth);
      if forall k, x :: 0 <= k < i && Given(props, fields[k], x) ==> EncodeValue(js, x, fields[k].schema, depth).Ok? {
        assert forall k :: 0 <= k < i - 1 ==> fields[1..][k] == fields[k + 1];
        var x := FieldValue(props, fields[0]);
        if x.Some? {
          assert Given(props, fields[0], x.value);
        }
      }
    }
  }

  /**
   A record is written from a value for each field, the property before the default, and comes back as
   the object of the fields' names and those values' normal forms, in the order of the schema.
   */
  lemma RecordWritten(js: Runtime, v: JVal, fields: seq<Field>, xs: seq<JVal>, depth: nat)
    requires v.Obj? && AllGiven(v.props, fields, xs) && depth <= 64
    ensures EncodeValue(js, v, SRecord(fields), depth).Ok? <==> AllTaken(js, fields, xs, depth + 1)
    ensures AllTaken(js, fields, xs, depth + 1) ==>
      forall ps :: FieldsRead(js, fields, xs, depth + 1, ps) ==> IsRecordOf(Norm(js, v, SRecord(fields), depth), ps)
  {
    hide EncodeFields, NormFields, PutAll, AllTaken, FieldsRead, IsObjectOf, Given;
    FieldsTaken(js, v.props, fields, xs, depth + 1);
    if AllTaken(js, fields, xs, depth + 1) {
      forall ps | FieldsRead(js, fields, xs, depth + 1, ps)
        ensures IsRecordOf(Norm(js, v, SRecord(fields), depth), ps)
      {
        FieldsNormal(js, v.props, fields, xs, depth + 1, ps);
        MadeOf(ps);
      }
    }
  }

  predicate Distinct(ps: seq<DProp>) {
    forall i, j :: 0 <= i < j < |ps| ==> ps[i].name != ps[j].name
  }

  /** The object that `ps` make; all of them in order when their names differ. */
  ghost predicate IsRecordOf(x: Option<DVal>, ps: seq<DProp>) {
    x.Some? && x.value.DObject? && IsObjectOf(ps, x.value.props) && (Distinct(ps) ==> x.value.props == ps)
  }

  /** A field without property and default refuses the record. */
  lemma RecordRefused(js: Runtime, v: JVal, fields: seq<Field>, i: nat, depth: nat)
    requires v.Obj? && i < |fields| && Lacks(v.props, fields[i].name) && fields[i].default.None? && depth <= 64
    ensures EncodeValue(js, v, SRecord(fields), depth).Err?
    ensures (forall k, x :: 0 <= k < i && Given(v.props, fields[k], x) ==> EncodeValue(js, x, fields[k].schema, depth + 1).Ok?) ==>
      EncodeValue(js, v, SRecord(fields), depth) == Err(MissingField)
  {
    hide EncodeFields;
    FieldMissing(js, v.props, fields, i, depth + 1);
  }

  predicate ItemsTaken(js: Runtime, items: seq<JVal>, s: Schema, depth: nat) {
    forall i :: 0 <= i < |items| ==> EncodeValue(js, items[i], s, depth).Ok?
  }

  predicate ItemsRead(js: Runtime, items: seq<JVal>, s: Schema, depth: nat, xs: seq<DVal>)
    requires ItemsTaken(js, items, s, depth)
  {
    |xs| == |items| && forall i :: 0 <= i < |items| ==> Norm(js, items[i], s, depth) == Some(xs[i])
  }

  lemma {:induction false} ItemsTakenIff(js: Runtime, items: seq<JVal>, s: Schema, depth: nat)
    ensures EncodeItems(js, items, s, depth).Ok? <==> ItemsTaken(js, items, s, depth)
    ensures items == [] ==> ItemsTaken(js, items, s, depth)
    decreases |items|
  {
    hide EncodeValue;
    if items != [] {
      ItemsTakenIff(js, items[1..], s, depth);
      assert forall i :: 0 < i < |items| ==> items[i] == items[1..][i - 1];
    }
  }

  lemma {:induction false} ItemsNormal(js: Runtime, items: seq<JVal>, s: Schema, depth: nat, xs: seq<DVal>)
    requires EncodeItems(js, items, s, depth).Ok? && ItemsTaken(js, items, s, depth) && ItemsRead(js, items, s, depth, xs)
    ensures NormItems(js, items, s, depth) == Some(xs)
    decreases |items|
  {
    hide EncodeValue, Norm;
    if items != [] {
      assert ItemsTaken(js, items[1..], s, depth);
      ItemsNormal(js, items[1..], s, depth, xs[1..]);
      assert [xs[0]] + xs[1..] == xs;
    }
  }

  lemma NoItemsRead(js: Runtime, items: seq<JVal>, s: Schema, depth: nat, xs: seq<DVal>)
    requires ItemsTaken(js, items, s, depth) && ItemsRead(js, items, s, depth, xs)
    ensures |xs| == |items|
  {
  }

  /** An array is taken when all its items are, and comes back as the list of their normal forms. */
  lemma ArrayWritten(js: Runtime, items: seq<JVal>, s: Schema, depth: nat)
    requires depth <= 64
    ensures EncodeValue(js, Arr(items), SArray(s), depth).Ok? <==> ItemsTaken(js, items, s, depth + 1)
    ensures ItemsTaken(js, items, s, depth + 1) ==>
      forall xs :: ItemsRead(js, items, s, depth + 1, xs) ==> Norm(js, Arr(items), SArray(s), depth) == Some(DArray(xs))
  {
    hide EncodeItems, NormItems, ItemsTaken, ItemsRead, LongBytes;
    ItemsTakenIff(js, items, s, depth + 1);
    if ItemsTaken(js, items, s, depth + 1) {
      forall xs | ItemsRead(js, items, s, depth + 1, xs)
        ensures Norm(js, Arr(items), SArray(s), depth) == Some(DArray(xs))
      {
        ItemsNormal(js, items, s, depth + 1, xs);
        NoItemsRead(js, items, s, depth + 1, xs);
      }
    }
  }

  predicate PropsTaken(js: Runtime, props: seq<Prop>, s: Schema, depth: nat) {
    forall i :: 0 <= i < |props| ==> EncodeValue(js, props[i].value, s, depth).Ok?
  }

  predicate PropsRead(js: Runtime, props: seq<Prop>, s: Schema, depth: nat, ps: seq<DProp>)
    requires PropsTaken(js, props, s, depth)
  {
    && |ps| == |props|
    && forall i :: 0 <= i < |props| ==> ps[i].name == props[i].name && Norm(js, props[i].value, s, depth) == Some(ps[i].value)
  }

  lemma {:induction false} PropsTakenIff(js: Runtime, props: seq<Prop>, s: Schema, depth: nat)
    ensures EncodeProps(js, props, s, depth).Ok? <==> PropsTaken(js, props, s, depth)
    ensures props == [] ==> PropsTaken(js, props, s, depth)
    decreases |props|
  {
    hide EncodeValue, Sized;
    if props != [] {
      PropsTakenIff(js, props[1..], s, depth);
      assert forall i :: 0 < i < |props| ==> props[i] == props[1..][i - 1];
    }
  }

  lemma {:induction false} PropsNormal(js: Runtime, props: seq<Prop>, s: Schema, depth: nat, ps: seq<DProp>)
    requires EncodeProps(js, props, s, depth).Ok? && PropsTaken(js, props, s, depth) && PropsRead(js, props, s, depth, ps)
    ensures NormProps(js, props, s, depth) == Some(ps)
    decreases |props|
  {
    hide EncodeValue, Norm, Sized;
    if props != [] {
      assert PropsTaken(js, props[1..], s, depth);
      PropsNormal(js, props[1..], s, depth, ps[1..]);
      assert [Property(props[0].name, ps[0].value)] + ps[1..] == ps;
    }
  }

  /** A map is taken when all its values are, and comes back as the object of its names and their normal forms. */
  lemma MapWritten(js: Runtime, v: JVal, s: Schema, depth: nat)
    requires v.Obj? && depth <= 64
    ensures EncodeValue(js, v, SMap(s), depth).Ok? <==> PropsTaken(js, v.props, s, depth + 1)
    ensures PropsTaken(js, v.props, s, depth + 1) ==>
      forall ps :: PropsRead(js, v.props, s, depth + 1, ps) ==> IsRecordOf(Norm(js, v, SMap(s), depth), ps)
  {
    hide EncodeProps, NormProps, PutAll, IsObjectOf, PropsTaken, PropsRead, LongBytes;
    PropsTakenIff(js, v.props, s, depth + 1);
    if PropsTaken(js, v.props, s, depth + 1) {
      forall ps | PropsRead(js, v.props, s, depth + 1, ps)
        ensures IsRecordOf(Norm(js, v, SMap(s), depth), ps)
      {
        PropsNormal(js, v.props, s, depth + 1, ps);
        NoPropsRead(js, v.props, s, depth + 1, ps);
        MadeOf(ps);
      }
    }
  }

  lemma NoPropsRead(js: Runtime, props: seq<Prop>, s: Schema, depth: nat, ps: seq<DProp>)
    requires PropsTaken(js, props, s, depth) && PropsRead(js, props, s, depth, ps)
    ensures |ps| == |props|
  {
  }

  lemma MadeOf(ps: seq<DProp>)
    ensures IsRecordOf(Some(DObject(PutAll([], ps))), ps)
    ensures ps == [] ==> PutAll([], ps) == []
  {
    hide IsObjectOf, Distinct;
    ObjectMade(ps);
    DistinctKeeps(ps);
  }

  lemma DistinctKeeps(ps: seq<DProp>)
    ensures Distinct(ps) ==> PutAll([], ps) == ps
  {
    if Distinct(ps) {
      DistinctKept(ps);
    }
  }

  // ---- unions ----------------------------------------------------------------------

  /** The types that a value can be written under without naming the branch. */
  predicate Takes(v: JVal, s: Schema) {
    match v
    case Null => s.SNull?
    case Undefined => false
    case Bool(_) => s.SBoolean?
    case Num(Fin(r)) => if r == r.Floor as real then s.SInt? || s.SLong? else s.SFloat? || s.SDouble?
    case Num(_) => s.SFloat? || s.SDouble?
    case BigInt(_) => s.SInt? || s.SLong?
    case Str(_) => s.SString? || s.SBytes?
    case Buf(_) => s.SBytes? || s.SRecord? || s.SMap?
    case Arr(_) => s.SArray?
    case Obj(_) => s.SRecord? || s.SMap?
  }

  lemma TakesIs(v: JVal, s: Schema)
    ensures Takes(v, s) <==> Suits(v, s)
  {
  }

  /** `r` with the branch index before it. */
  predicate Behind(i: nat, inner: Result<bytes, Error>, r: Result<bytes, Error>) {
    if inner.Ok? then r == Ok(LongBytes(i) + inner.value) else r == inner
  }

  /** The null branch comes back as null, any other as the branch's value tagged with its index. */
  predicate Tagged(s: Schema, i: nat, inner: Option<DVal>, x: Option<DVal>) {
    if inner.None? then x.None? else x == Some(if s == SNull then DNull else DBranch(i, inner.value))
  }

  /** An ordinary value is written under the first branch that takes it, or refused when there is none. */
  lemma BranchInferred(js: Runtime, v: JVal, branches: seq<Schema>, i: nat, depth: nat)
    requires depth <= 64 && i <= |branches| && (v.Obj? ==> Lacks(v.props, Ascii("__avro_union")))
    requires forall j :: 0 <= j < i ==> !Takes(v, branches[j])
    requires i < |branches| ==> Takes(v, branches[i])
    ensures i == |branches| ==> EncodeValue(js, v, SUnion(branches), depth) == Err(UnionKind)
    ensures i < |branches| ==>
      Behind(i, EncodeValue(js, v, branches[i], depth + 1), EncodeValue(js, v, SUnion(branches), depth))
    ensures i < |branches| && EncodeValue(js, v, SUnion(branches), depth).Ok? ==>
      Tagged(branches[i], i, Norm(js, v, branches[i], depth + 1), Norm(js, v, SUnion(branches), depth))
  {
    hide LongBytes, Suits, Takes, EncodePrimitive;
    UnionKeys();
    LookupIs(PropsOf(v), UNION_KEY);
    var k := InferBranch(v, branches, 0);
    forall j | 0 <= j < |branches|
      ensures Takes(v, branches[j]) <==> Suits(v, branches[j])
    {
      TakesIs(v, branches[j]);
    }
    assert BranchOf(v, branches) == if i < |branches| then Ok((i, v)) else Err(UnionKind);
  }

  lemma UnionKeys()
    ensures UNION_KEY == Ascii("__avro_union") && INDEX_KEY == Ascii("index") && VALUE_KEY == Ascii("value")
  {
  }

  predicate IsIndex(v: JVal, n: nat) {
    v.Num? && v.x.Fin? && 0.0 <= v.x.r < n as real && v.x.r.Floor as real == v.x.r
  }

  /** A wrapper names the branch and the value; without a value undefined is written. */
  lemma BranchNamed(js: Runtime, v: JVal, u: seq<Prop>, branches: seq<Schema>, index: JVal, i: nat, x: JVal, depth: nat)
    requires depth <= 64 && v.Obj? && Has(v.props, Ascii("__avro_union"), Obj(u)) && Has(u, Ascii("index"), index)
    requires Has(u, Ascii("value"), x) || (Lacks(u, Ascii("value")) && x == Undefined)
    ensures !IsIndex(index, |branches|) ==>
      EncodeValue(js, v, SUnion(branches), depth) == Err(UnionIndexRange)
    ensures index == Num(Fin(i as real)) && i < |branches| ==>
      Behind(i, EncodeValue(js, x, branches[i], depth + 1), EncodeValue(js, v, SUnion(branches), depth))
    ensures index == Num(Fin(i as real)) && i < |branches| && EncodeValue(js, v, SUnion(branches), depth).Ok? ==>
      Tagged(branches[i], i, Norm(js, x, branches[i], depth + 1), Norm(js, v, SUnion(branches), depth))
  {
    hide LongBytes, EncodePrimitive, Has, Lacks;
    UnionKeys();
    HasOne(v.props, UNION_KEY, Obj(u));
    HasOne(u, INDEX_KEY, index);
    if Has(u, VALUE_KEY, x) {
      HasOne(u, VALUE_KEY, x);
    } else {
      LookupIs(u, VALUE_KEY);
    }
  }
}
