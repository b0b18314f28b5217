/** What particular bytes decode to, item by item, in terms of the bytes and the value alone. */
module CborValues {
  import opened Bytes
  import opened CborWire
  import opened CborDecoder
  import opened CborProofs
  import opened Objects
  import Utf8
  import E = CborEncoder
  import T = CborTheorems

  /** The decoder may read one more item at this depth. */
  predicate Allowed(depth: nat, n: nat) {
    depth <= 100 && n + 1 <= 1_000_000
  }

  // ---- simple values and floats ----------------------------------------------------

  lemma LeafDecodes(ks: KeyString, buf: bytes, pos: nat, n: nat, depth: nat, w: Item)
    requires Valid(w) && !w.Array? && !w.Map? && !w.Tag? && At(buf, pos, Serialize(w)) && Allowed(depth, n)
    ensures DecodeItem(ks, buf, pos, n, depth) == Done(Meaning(ks, w).value, pos + |Serialize(w)|, n + 1)
  {
    LeafReads(ks, buf, pos, n, depth, w);
  }

  /** One byte: false, true, null and undefined are F4 to F7, all before them are left as simple values. */
  lemma SimpleDecodes(ks: KeyString, buf: bytes, pos: nat, n: nat, depth: nat)
    requires pos < |buf| && 0xE0 <= buf[pos] <= 0xF7 && Allowed(depth, n)
    ensures var r := DecodeItem(ks, buf, pos, n, depth);
            && r.Done? && r.pos == pos + 1 && r.n == n + 1
            && (buf[pos] < 0xF4 ==> r.value == VSimple(buf[pos] - 0xE0))
            && (buf[pos] == 0xF4 ==> r.value == VBool(false)) && (buf[pos] == 0xF5 ==> r.value == VBool(true))
            && (buf[pos] == 0xF6 ==> r.value == VNull) && (buf[pos] == 0xF7 ==> r.value == VUndefined)
  {
    AtByte(buf, pos, buf[pos]);
    LeafDecodes(ks, buf, pos, n, depth, Simple(buf[pos] - 0xE0));
  }

  lemma SimpleByteDecodes(ks: KeyString, buf: bytes, pos: nat, n: nat, depth: nat, code: byte)
    requires At(buf, pos, [0xF8, code]) && Allowed(depth, n)
    ensures DecodeItem(ks, buf, pos, n, depth) == Done(VSimple(code), pos + 2, n + 1)
  {
    LeafDecodes(ks, buf, pos, n, depth, SimpleByte(code));
  }

  lemma HalfParts(sign: nat, exp: nat, frac: nat)
    requires sign < 2 && exp < 32 && frac < 1024
    ensures var raw := sign * 32768 + exp * 1024 + frac;
            raw < 0x1_0000 && raw / 32768 % 2 == sign && raw / 1024 % 32 == exp && raw % 1024 == frac
  {
  }

  /**
   A half: with all exponent bits set an infinity or NaN, otherwise as many times 2^-24 as the fraction
   says, to which an exponent adds its leading one and shifts.
   */
  lemma HalfDecodes(ks: KeyString, buf: bytes, pos: nat, n: nat, depth: nat, sign: nat, exp: nat, frac: nat)
    requires sign < 2 && exp < 32 && frac < 1024 && Allowed(depth, n)
    requires At(buf, pos, [0xF9] + ToBE(sign * 32768 + exp * 1024 + frac, 2))
    ensures var r := DecodeItem(ks, buf, pos, n, depth);
            && r.Done? && r.pos == pos + 3 && r.n == n + 1
            && (exp == 31 ==> r.value == if frac == 0 then VInf(sign == 0) else VNaN)
            && (exp < 31 ==>
                  && r.value.VHalf? && r.value.negative == (sign == 1)
                  && r.value.magnitude * 16777216.0 == (if exp == 0 then frac else (1024 + frac) * Pow2(exp - 1)) as real)
  {
    var raw := sign * 32768 + exp * 1024 + frac;
    HalfParts(sign, exp, frac);
    Pow256Values();
    FromToBE(raw, 2);
    LeafDecodes(ks, buf, pos, n, depth, FloatItem(ToBE(raw, 2)));
    Scaled(exp, frac);
  }

  lemma Scaled(exp: nat, frac: nat)
    ensures HalfMagnitude(exp, frac) * 16777216.0 == (if exp == 0 then frac else (1024 + frac) * Pow2(exp - 1)) as real
  {
    if exp > 0 {
      var p := Pow2(exp - 1) as real;
      assert Pow2(exp) as real == 2.0 * p;
      assert (frac as real / 1024.0 + 1.0) * (2.0 * p / 32768.0) * 16777216.0 == (1024.0 + frac as real) * p;
      assert ((1024 + frac) * Pow2(exp - 1)) as real == (1024.0 + frac as real) * p;
    }
  }

  /** F9 3C 00 is one. */
  lemma HalfOne(ks: KeyString)
    ensures DecodeItem(ks, [0xF9, 0x3C, 0x00], 0, 0, 0) == Done(VHalf(false, 1.0), 3, 1)
  {
    hide DecodeItem, HalfMagnitude;
    var raw := 15 * 1024;
    assert ToBE(raw, 2) == ToBE(60, 1) + [0] == [0x3C, 0x00];
    assert Pow2(14) == 16384 by { Fourteen(); }
    HalfDecodes(ks, [0xF9, 0x3C, 0x00], 0, 0, 0, 0, 15, 0);
  }

  lemma Fourteen()
    ensures Pow2(14) == 16384
  {
    assert Pow2(7) == 128 by { assert Pow2(4) == 16; }
    assert Pow2(10) == 8 * Pow2(7);
    assert Pow2(14) == 16 * Pow2(10) by { assert Pow2(13) == 8 * Pow2(10); }
  }

  lemma FloatDecodes(ks: KeyString, buf: bytes, pos: nat, n: nat, depth: nat, data: bytes)
    requires Allowed(depth, n) && ((|data| == 4 && At(buf, pos, [0xFA] + data)) || (|data| == 8 && At(buf, pos, [0xFB] + data)))
    ensures DecodeItem(ks, buf, pos, n, depth)
         == Done(if |data| == 4 then VSingle(data) else VDouble(data), pos + 1 + |data|, n + 1)
  {
    LeafDecodes(ks, buf, pos, n, depth, FloatItem(data));
  }

  /** Which error an initial byte or a limit ends in: reserved heads, a break out of place, the end of the buffer. */
  lemma ItemRefused(ks: KeyString, buf: bytes, pos: nat, n: nat, depth: nat)
    requires pos <= |buf|
    ensures var r := DecodeItem(ks, buf, pos, n, depth);
            && (depth > 100 ==> r == Fail(DepthLimit))
            && (depth <= 100 && n >= 1_000_000 ==> r == Fail(ElementLimit))
            && (Allowed(depth, n) && pos == |buf| ==> r == Fail(UnexpectedEnd))
            && (Allowed(depth, n) && pos < |buf| && buf[pos] == 0xFF ==> r == Fail(UnexpectedBreak))
            && (Allowed(depth, n) && pos < |buf| && 0xFC <= buf[pos] <= 0xFE ==> r == Fail(ReservedSimple))
            && (Allowed(depth, n) && pos < |buf| && buf[pos] < 0xE0 && 28 <= buf[pos] % 32 <= 30 ==> r == Fail(ReservedInfo))
            && (Allowed(depth, n) && pos + 9 <= |buf| && buf[pos] == 0x9B && FromBE(buf[pos + 1..pos + 5]) > 0 ==> r == Fail(ArrayTooLong))
  {
    hide FromBE, FloatValue, SimpleValue, DecodeChunks, DecodeOpenArray, DecodeOpenMap, DecodeArray, DecodeMap;
    if Allowed(depth, n) && pos + 9 <= |buf| && buf[pos] == 0x9B && FromBE(buf[pos + 1..pos + 5]) > 0 {
      assert buf[pos + 1..pos + 1 + 4] == buf[pos + 1..pos + 5];
      assert ArgumentAt(buf, pos + 1, 27).value > 0xFFFF_FFFF;
      var arg := ArgumentAt(buf, pos + 1, 27);
      assert DecodeItem(ks, buf, pos, n, depth) == DecodeBody(ks, buf, pos + 1, n + 1, depth, 4, 27);
      assert DecodeWithArgument(ks, buf, arg.pos, n + 1, depth, 4, arg.value) == Fail(ArrayTooLong);
    }
  }

  /** Which error the encoder refuses a value with before it looks into it. */
  lemma ValueRefused(v: Js, depth: nat, n: nat)
    ensures var r := E.Encode(v, depth, n);
            && (depth > 100 ==> r == E.Fail(E.DepthLimit))
            && (depth <= 100 && n >= 1_000_000 ==> r == E.Fail(E.ElementLimit))
            && (Allowed(depth, n) && v.Arr? && |v.items| > 1_000_000 ==> r == E.Fail(E.ArrayTooLarge))
            && (Allowed(depth, n) && v.Obj? && |v.entries| > 1_000_000 ==> r == E.Fail(E.MapTooLarge))
  {
    hide E.EncodeItems, E.EncodeEntries, E.EncodeScalar;
  }

  // ---- integers and strings --------------------------------------------------------

  /** The argument or -1 less it, as a number while the argument is safe; 1F and 3F read their argument as -1. */
  lemma IntegerDecodes(ks: KeyString, buf: bytes, pos: nat, n: nat, depth: nat, negative: bool, h: Head)
    requires (ValidHead(h) || h == SENTINEL) && At(buf, pos, HeadBytes(if negative then 1 else 0, h)) && Allowed(depth, n)
    ensures var r, amount := DecodeItem(ks, buf, pos, n, depth), if negative then -1 - h.arg else h.arg;
            && r.Done? && r.pos == pos + |HeadBytes(if negative then 1 else 0, h)| && r.n == n + 1
            && r.value == if h.arg <= 0x1F_FFFF_FFFF_FFFF then VNum(amount) else VBig(amount)
  {
    LeafDecodes(ks, buf, pos, n, depth, Integer(negative, h));
  }

  /** A string of definite length: its bytes, or the text read from them as UTF-8. */
  lemma StringDecodes(ks: KeyString, buf: bytes, pos: nat, n: nat, depth: nat, text: bool, h: Head, data: bytes)
    requires ValidHead(h) && h.arg == |data| && At(buf, pos, HeadBytes(if text then 3 else 2, h) + data) && Allowed(depth, n)
    ensures var r := DecodeItem(ks, buf, pos, n, depth);
            && r.Done? && r.pos == pos + |HeadBytes(if text then 3 else 2, h)| + |data| && r.n == n + 1
            && r.value == if text then VText(Utf8.Text(data)) else VBytes(data)
  {
    LeafDecodes(ks, buf, pos, n, depth, Str(text, h, data));
  }

  // ---- tags ------------------------------------------------------------------------

  /** What a tag makes of the value it encloses: a bignum of a byte string under 2 and 3, and otherwise both side by side. */
  lemma TagDecodes(ks: KeyString, buf: bytes, pos: nat, n: nat, depth: nat, h: Head)
    requires (ValidHead(h) || h == SENTINEL) && At(buf, pos, HeadBytes(6, h)) && Allowed(depth, n)
    ensures pos + |HeadBytes(6, h)| <= |buf|
    ensures var inner, r := DecodeItem(ks, buf, pos + |HeadBytes(6, h)|, n + 1, depth + 1), DecodeItem(ks, buf, pos, n, depth);
            if inner.Fail? then r == inner
            else if h.arg != 2 && h.arg != 3 then r == Done(VTagged(h.arg, inner.value), inner.pos, inner.n)
            else if !inner.value.VBytes? then r == Fail(BignumNotBytes)
            else
              var m := FromBE(inner.value.data);
              r == Done(VBig(if h.arg == 2 then m else -1 - m), inner.pos, inner.n)
  {
    hide HeadBytes, DecodeItem;
    AtSlice(buf, pos, HeadBytes(6, h));
    HeadDispatch(ks, buf, pos, n, depth, 6, h);
  }

  // ---- objects ---------------------------------------------------------------------

  /** The assignments that keys and values in turn stand for. */
  ghost function Assignments(ks: KeyString, vs: seq<Value>): (ps: seq<Property<Value>>)
    requires |vs| % 2 == 0 && forall i :: 0 <= i < |vs| / 2 ==> ks(vs[2 * i]).Some?
    ensures |ps| == |vs| / 2
  {
    seq(|vs| / 2, i requires 0 <= i < |vs| / 2 => Property(ks(vs[2 * i]).value, vs[2 * i + 1]))
  }

  ghost predicate StringKeys(ks: KeyString, vs: seq<Value>) {
    |vs| % 2 == 0 && forall i :: 0 <= i < |vs| / 2 ==> ks(vs[2 * i]).Some?
  }

  lemma AssignmentsStep(ks: KeyString, vs: seq<Value>)
    requires |vs| >= 2 && StringKeys(ks, vs)
    ensures StringKeys(ks, vs[2..]) && ks(vs[0]).Some?
    ensures Assignments(ks, vs) == [Property(ks(vs[0]).value, vs[1])] + Assignments(ks, vs[2..])
  {
    var rest := vs[2..];
    assert ks(vs[2 * 0]).Some?;
    forall i | 0 <= i < |rest| / 2
      ensures ks(rest[2 * i]).Some?
    {
      assert rest[2 * i] == vs[2 * (i + 1)];
    }
  }

  lemma StringKeysCons(ks: KeyString, vs: seq<Value>)
    requires |vs| >= 2 && ks(vs[0]).Some? && StringKeys(ks, vs[2..])
    ensures StringKeys(ks, vs)
  {
    var rest := vs[2..];
    forall i | 0 <= i < |vs| / 2
      ensures ks(vs[2 * i]).Some?
    {
      assert i > 0 ==> vs[2 * i] == rest[2 * (i - 1)];
    }
  }

  lemma {:induction false} FieldsAre(ks: KeyString, vs: seq<Value>, acc: seq<Property<Value>>)
    requires |vs| % 2 == 0
    ensures FieldsOf(ks, vs, acc).Some? <==> StringKeys(ks, vs)
    ensures StringKeys(ks, vs) ==> FieldsOf(ks, vs, acc) == Some(PutAll(acc, Assignments(ks, vs)))
    decreases |vs|
  {
    hide Put;
    if |vs| >= 2 {
      if ks(vs[0]).Some? {
        FieldsAre(ks, vs[2..], Put(acc, ks(vs[0]).value, vs[1]));
        if StringKeys(ks, vs[2..]) {
          StringKeysCons(ks, vs);
        }
      } else {
        assert vs[2 * 0] == vs[0];
      }
      if StringKeys(ks, vs) {
        AssignmentsStep(ks, vs);
        assert Assignments(ks, vs)[1..] == Assignments(ks, vs[2..]);
      }
    }
  }

  /** A map decodes, if its items do, exactly when every key becomes a string, and then to the object of its entries. */
  lemma MapDecodes(ks: KeyString, buf: bytes, pos: nat, n: nat, depth: nat, w: Item)
    requires w.Map? && Valid(w) && At(buf, pos, Serialize(w)) && Fits(w, depth, n) && ArrayMeaning(ks, w.items).Some?
    ensures var r, vs := DecodeItem(ks, buf, pos, n, depth), ArrayMeaning(ks, w.items).value;
            && |vs| == |w.items|
            && (r.Done? <==> StringKeys(ks, vs))
            && (r.Done? ==> r.value.VObj? && IsObjectOf(Assignments(ks, vs), r.value.fields))
  {
    hide DecodeItem, Serialize, At, IsObjectOf, FieldsOf, ArrayMeaning, AllValid, ValidForm, Assignments;
    ItemReads(ks, buf, pos, n, depth, w);
    MeaningLength(ks, w.items);
    var vs := ArrayMeaning(ks, w.items).value;
    FieldsAre(ks, vs, []);
    if StringKeys(ks, vs) {
      ObjectMade(Assignments(ks, vs));
    }
  }

  predicate DistinctKeys(entries: seq<Entry>) {
    forall i, j :: 0 <= i < j < |entries| ==> entries[i].key != entries[j].key
  }

  function EntryProperties(entries: seq<Entry>): (ps: seq<Property<Value>>)
    ensures |ps| == |entries|
  {
    seq(|entries|, i requires 0 <= i < |entries| => Property(entries[i].key, T.Norm(entries[i].value)))
  }

  lemma {:induction false} NormEntriesAre(entries: seq<Entry>, acc: seq<Property<Value>>)
    ensures T.NormEntries(entries, acc) == PutAll(acc, EntryProperties(entries))
    decreases |entries|
  {
    hide Put, T.Norm;
    if entries != [] {
      NormEntriesAre(entries[1..], Put(acc, entries[0].key, T.Norm(entries[0].value)));
      assert EntryProperties(entries)[1..] == EntryProperties(entries[1..]);
    }
  }

  /** An object, whose keys are all different, comes back with every property, in order. */
  lemma ObjectNorm(entries: seq<Entry>)
    requires DistinctKeys(entries)
    ensures T.Norm(Obj(entries)).VObj? && |T.Norm(Obj(entries)).fields| == |entries|
    ensures forall i :: 0 <= i < |entries| ==> T.Norm(Obj(entries)).fields[i] == Property(entries[i].key, T.Norm(entries[i].value))
  {
    NormEntriesAre(entries, []);
    DistinctKept(EntryProperties(entries));
  }
}
