/**
 Results about the encoder and the decoder together: what the encoder writes and when it
 refuses, the round trip with its exact limits, and independence of the encoding form.
 */
module CborTheorems {
  import opened Bytes
  import opened Doubles
  import Utf8
  import opened CborWire
  import opened Objects
  import opened CborDecoder
  import opened CborProofs
  import E = CborEncoder

  // ---- what the encoder writes -----------------------------------------------------

  /** Every byte string in the value, bignums included, fits a buffer. */
  predicate Representable(v: Js)
    decreases v, 1
  {
    match v
    case Text(utf8) => |utf8| <= MAX_SAFE_INTEGER
    case Buf(data) => |data| <= MAX_SAFE_INTEGER
    case Big(n) => |BigBytes(n)| <= MAX_SAFE_INTEGER
    case Arr(items) => AllRepresentable(items)
    case Obj(entries) => AllEntriesRepresentable(entries)
    case _ => true
  }

  predicate AllRepresentable(items: seq<Js>)
    decreases items, 0
  {
    items == [] || (Representable(items[0]) && AllRepresentable(items[1..]))
  }

  predicate AllEntriesRepresentable(entries: seq<Entry>)
    decreases entries, 0
  {
    entries == [] ||
    (|entries[0].key| <= MAX_SAFE_INTEGER && Representable(entries[0].value) && AllEntriesRepresentable(entries[1..]))
  }

  function BigBytes(n: int): bytes { E.MinimalBE(if n >= 0 then n else -1 - n) }

  function Preferred(arg: nat): (h: Head)
    ensures ValidHead(h)
    ensures arg < 0x1_0000_0000_0000_0000 ==> h.arg == arg
  {
    Pow256Values();
    if arg <= 23 then Head(0, arg)
    else if arg <= 0xFF then Head(1, arg)
    else if arg <= 0xFFFF then Head(2, arg)
    else if arg <= 0xFFFF_FFFF then Head(4, arg)
    else Head(8, arg % 0x1_0000_0000_0000_0000)
  }

  function StrItem(text: bool, data: bytes): Item { Str(text, Preferred(|data|), data) }

  /** The wire item that the encoder writes for a value. */
  function ItemOf(v: Js): Item
    decreases v, 1
  {
    match v
    case Null => Simple(22)
    case Undefined => Simple(22)
    case Bool(b) => Simple(if b then 21 else 20)
    case Big(n) => Tag(Head(0, if n >= 0 then 2 else 3), StrItem(false, BigBytes(n)))
    case Num(n) => Integer(n < 0, Preferred(if n >= 0 then n else E.NegativeArgument(n)))
    case NaN => FloatItem([0x7E, 0x00])
    case Inf(positive) => FloatItem([if positive then 0x7C else 0xFC, 0x00])
    case Float(bits) => FloatItem(bits)
    case Text(utf8) => StrItem(true, utf8)
    case Buf(data) => StrItem(false, data)
    case Arr(items) => Array(Definite(Preferred(|items|)), ItemsOf(items))
    case Obj(entries) => Map(Definite(Preferred(|entries|)), EntryItems(entries))
  }

  function ItemsOf(items: seq<Js>): (ws: seq<Item>)
    ensures |ws| == |items|
    decreases items, 0
  {
    if items == [] then [] else [ItemOf(items[0])] + ItemsOf(items[1..])
  }

  function EntryPair(key: bytes, value: Item, rest: seq<Item>): (ws: seq<Item>)
    ensures |ws| == |rest| + 2
  {
    [StrItem(true, key)] + ([value] + rest)
  }

  function EntryItems(entries: seq<Entry>): (ws: seq<Item>)
    ensures |ws| == 2 * |entries|
    decreases entries, 0
  {
    if entries == [] then []
    else EntryPair(entries[0].key, ItemOf(entries[0].value), EntryItems(entries[1..]))
  }

  /** How many values the encoder counts, and how many levels below `v` it goes. */
  function JsCount(v: Js): (n: nat)
    ensures n >= 1
    decreases v, 1
  {
    match v
    case Arr(items) => 1 + JsCountAll(items)
    case Obj(entries) => 1 + JsCountEntries(entries)
    case _ => 1
  }

  function JsCountAll(items: seq<Js>): (n: nat)
    ensures n >= |items|
    decreases items, 0
  {
    if items == [] then 0 else JsCount(items[0]) + JsCountAll(items[1..])
  }

  function JsCountEntries(entries: seq<Entry>): (n: nat)
    ensures n >= |entries|
    decreases entries, 0
  {
    if entries == [] then 0 else JsCount(entries[0].value) + JsCountEntries(entries[1..])
  }

  function JsHeight(v: Js): nat
    decreases v, 1
  {
    match v
    case Arr(items) => JsHeightAll(items)
    case Obj(entries) => JsHeightEntries(entries)
    case _ => 0
  }

  function JsHeightAll(items: seq<Js>): nat
    decreases items, 0
  {
    if items == [] then 0 else Max(1 + JsHeight(items[0]), JsHeightAll(items[1..]))
  }

  function JsHeightEntries(entries: seq<Entry>): nat
    decreases entries, 0
  {
    if entries == [] then 0 else Max(1 + JsHeight(entries[0].value), JsHeightEntries(entries[1..]))
  }

  lemma HeadWritten(mt: nat, arg: nat)
    requires mt < 8
    ensures E.EncodeHead(mt, arg) == HeadBytes(mt, Preferred(arg))
  {
    if arg > 0xFFFF_FFFF {
      hide ToBE;
      LowBytes(arg);
    } else {
      FewBytes(arg);
      hide ToBE;
    }
  }

  lemma FewBytes(n: nat)
    ensures ToBE(n, 0) == [] && ToBE(n, 1) == [n % 256]
  {
    assert ToBE(n, 1) == ToBE(n / 256, 0) + [n % 256];
  }

  lemma LowBytes(n: nat)
    ensures ToBE(n / 0x1_0000_0000, 4) + ToBE(n, 4) == ToBE(n % 0x1_0000_0000_0000_0000, 8)
  {
    ToBESplit(n);
    FromToBEMod(n, 8);
    ToFromBE(ToBE(n, 8));
    Pow256Values();
  }

  lemma ToBESplit(n: nat)
    ensures ToBE(n / 0x1_0000_0000, 4) + ToBE(n, 4) == ToBE(n, 8)
  {
    var a, b, c, d := n / 256, n / 0x1_0000, n / 0x100_0000, n / 0x1_0000_0000;
    assert a / 256 == b && b / 256 == c && c / 256 == d;
    assert ToBE(n, 8) == ToBE(b, 6) + [a % 256] + [n % 256];
    assert ToBE(b, 6) == ToBE(d, 4) + [c % 256] + [b % 256];
    assert ToBE(n, 4) == ToBE(b, 2) + [a % 256] + [n % 256];
    assert ToBE(b, 2) == ToBE(d, 0) + [c % 256] + [b % 256];
  }

  lemma {:induction false} ItemOfValid(v: Js)
    requires Representable(v) && JsCount(v) <= MAX_ELEMENTS
    ensures Valid(ItemOf(v))
    decreases v, 1
  {
    match v
    case Arr(items) => ItemsOfValid(items);
    case Obj(entries) => EntryItemsValid(entries);
    case _ =>
  }

  lemma {:induction false} ItemsOfValid(items: seq<Js>)
    requires AllRepresentable(items) && JsCountAll(items) <= MAX_ELEMENTS
    ensures AllValid(ItemsOf(items))
    decreases items, 0
  {
    if items != [] {
      ItemOfValid(items[0]);
      ItemsOfValid(items[1..]);
    }
  }

  lemma {:induction false} EntryItemsValid(entries: seq<Entry>)
    requires AllEntriesRepresentable(entries) && JsCountEntries(entries) <= MAX_ELEMENTS
    ensures AllValid(EntryItems(entries))
    decreases entries, 0
  {
    if entries != [] {
      ItemOfValid(entries[0].value);
      EntryItemsValid(entries[1..]);
      EntryWritten(entries[0].key, ItemOf(entries[0].value), EntryItems(entries[1..]));
    }
  }

  lemma EntryWritten(key: bytes, v: Item, rest: seq<Item>)
    requires |key| <= MAX_SAFE_INTEGER && Valid(v) && AllValid(rest)
    ensures var ws := EntryPair(key, v, rest);
            AllValid(ws) && SerializeAll(ws) == E.EncodeText(key) + Serialize(v) + SerializeAll(rest)
  {
    hide HeadBytes, E.EncodeHead, Preferred;
    HeadWritten(3, |key|);
    var k, tail := StrItem(true, key), [v] + rest;
    var ws := [k] + tail;
    assert ws[1..] == tail && tail[1..] == rest;
    assert SerializeAll(tail) == Serialize(v) + SerializeAll(rest);
    assert Serialize(k) == E.EncodeText(key);
    assert SerializeAll(ws) == Serialize(k) + SerializeAll(tail);
  }

  lemma ScalarWritten(v: Js)
    requires !v.Arr? && !v.Obj? && Representable(v)
    ensures Valid(ItemOf(v)) && E.EncodeScalar(v) == Serialize(ItemOf(v))
  {
    ItemOfValid(v);
    match v
    case Big(n) =>
      HeadWritten(2, |BigBytes(n)|);
      assert HeadBytes(6, Head(0, if n >= 0 then 2 else 3)) == [if n >= 0 then 0xC2 else 0xC3];
    case Num(n) => HeadWritten(if n < 0 then 1 else 0, if n >= 0 then n else E.NegativeArgument(n));
    case Text(utf8) => HeadWritten(3, |utf8|);
    case Buf(data) => HeadWritten(2, |data|);
    case _ =>
  }

  ghost predicate Writes(v: Js, depth: nat, n: nat, r: E.Out)
    requires Representable(v)
  {
    if depth + JsHeight(v) <= 100 && n + JsCount(v) <= 1_000_000
    then Valid(ItemOf(v)) && r == E.Done(Serialize(ItemOf(v)), n + JsCount(v))
    else r.Fail?
  }

  /** The encoder writes exactly `Serialize(ItemOf(v))`, and refuses exactly when a limit is passed. */
  lemma {:induction false} EncodeWrites(v: Js, depth: nat, n: nat)
    requires Representable(v)
    ensures Writes(v, depth, n, E.Encode(v, depth, n))
    decreases v, 1
  {
    if depth <= MAX_DEPTH && n + 1 <= MAX_ELEMENTS {
      match v
      case Arr(items) => ArrayWrites(v, depth, n);
      case Obj(entries) => ObjectWrites(v, depth, n);
      case _ => ScalarWritten(v);
    }
  }

  lemma {:induction false} ArrayWrites(v: Js, depth: nat, n: nat)
    requires v.Arr? && Representable(v) && depth <= MAX_DEPTH && n + 1 <= MAX_ELEMENTS
    ensures Writes(v, depth, n, E.Encode(v, depth, n))
    decreases v, 0
  {
    hide HeadBytes;
    if |v.items| <= MAX_ELEMENTS {
      HeadWritten(4, |v.items|);
      EncodeItemsWrites(v.items, depth, n + 1, E.EncodeHead(4, |v.items|));
      if JsCount(v) <= MAX_ELEMENTS {
        ItemOfValid(v);
        ContainerBytes(ItemOf(v), 4);
      }
    }
  }

  lemma {:induction false} ObjectWrites(v: Js, depth: nat, n: nat)
    requires v.Obj? && Representable(v) && depth <= MAX_DEPTH && n + 1 <= MAX_ELEMENTS
    ensures Writes(v, depth, n, E.Encode(v, depth, n))
    decreases v, 0
  {
    hide HeadBytes;
    if |v.entries| <= MAX_ELEMENTS {
      HeadWritten(5, |v.entries|);
      EncodeEntriesWrites(v.entries, depth, n + 1, E.EncodeHead(5, |v.entries|));
      if JsCount(v) <= MAX_ELEMENTS {
        ItemOfValid(v);
        ContainerBytes(ItemOf(v), 5);
      }
    }
  }

  lemma ContainerBytes(w: Item, mt: nat)
    requires Valid(w) && ((w.Array? && mt == 4) || (w.Map? && mt == 5)) && w.form.Definite?
    ensures Serialize(w) == HeadBytes(mt, w.form.head) + SerializeAll(w.items)
  {
    hide HeadBytes;
    var body := HeadBytes(mt, w.form.head) + SerializeAll(w.items);
    assert body + [] == body;
  }

  lemma {:induction false} EncodeItemsWrites(items: seq<Js>, depth: nat, n: nat, acc: bytes)
    requires AllRepresentable(items)
    requires depth <= MAX_DEPTH && n <= MAX_ELEMENTS
    ensures var r := E.EncodeItems(items, depth + 1, n, acc);
            if depth + JsHeightAll(items) <= MAX_DEPTH && n + JsCountAll(items) <= MAX_ELEMENTS
            then AllValid(ItemsOf(items)) && r == E.Done(acc + SerializeAll(ItemsOf(items)), n + JsCountAll(items))
            else r.Fail?
    decreases items, 0
  {
    if items == [] {
      assert acc + [] == acc;
    } else {
      EncodeWrites(items[0], depth + 1, n);
      var first := E.Encode(items[0], depth + 1, n);
      if first.Done? {
        EncodeItemsWrites(items[1..], depth, first.n, acc + first.data);
        var ws := ItemsOf(items);
        assert ws[1..] == ItemsOf(items[1..]);
        if AllValid(ws) {
          assert acc + first.data + SerializeAll(ws[1..]) == acc + (first.data + SerializeAll(ws[1..]));
        }
      }
    }
  }

  lemma {:induction false} EncodeEntriesWrites(entries: seq<Entry>, depth: nat, n: nat, acc: bytes)
    requires AllEntriesRepresentable(entries)
    requires depth <= MAX_DEPTH && n <= MAX_ELEMENTS
    ensures var r := E.EncodeEntries(entries, depth + 1, n, acc);
            if depth + JsHeightEntries(entries) <= MAX_DEPTH && n + JsCountEntries(entries) <= MAX_ELEMENTS
            then AllValid(EntryItems(entries)) && r == E.Done(acc + SerializeAll(EntryItems(entries)), n + JsCountEntries(entries))
            else r.Fail?
    decreases entries, 0
  {
    hide Utf8.WellFormed, HeadBytes, ItemOf;
    if entries == [] {
      assert acc + [] == acc;
    } else {
      var e := entries[0];
      EncodeWrites(e.value, depth + 1, n);
      var first := E.Encode(e.value, depth + 1, n);
      if first.Done? {
        var text, rest := E.EncodeText(e.key), EntryItems(entries[1..]);
        EncodeEntriesWrites(entries[1..], depth, first.n, acc + text + first.data);
        if AllValid(rest) {
          EntryWritten(e.key, ItemOf(e.value), rest);
          assert acc + text + first.data + SerializeAll(rest) == acc + (text + first.data + SerializeAll(rest));
        }
      }
    }
  }

  // ---- the round trip --------------------------------------------------------------

  /** The value that comes back: undefined is null, and integers past 2^53 are bigints modulo 2^64. */
  function Norm(v: Js): Value
    decreases v, 1
  {
    match v
    case Null => VNull
    case Undefined => VNull
    case Bool(b) => VBool(b)
    case Big(n) => VBig(n)
    case Num(n) =>
      if n < 0 then Negative(E.NegativeArgument(n) % 0x1_0000_0000_0000_0000) else Unsigned(n % 0x1_0000_0000_0000_0000)
    case NaN => VNaN
    case Inf(positive) => VInf(positive)
    case Float(bits) => VDouble(bits)
    case Text(utf8) => VText(utf8)
    case Buf(data) => VBytes(data)
    case Arr(items) => VArr(NormAll(items))
    case Obj(entries) => VObj(NormEntries(entries, []))
  }

  function NormAll(items: seq<Js>): seq<Value>
    decreases items, 0
  {
    if items == [] then [] else [Norm(items[0])] + NormAll(items[1..])
  }

  function NormEntries(entries: seq<Entry>, acc: seq<Field>): seq<Field>
    decreases entries, 0
  {
    if entries == [] then acc
    else NormEntries(entries[1..], Put(acc, entries[0].key, Norm(entries[0].value)))
  }

  lemma {:induction false} FromMinimalBE(n: nat)
    ensures FromBE(E.MinimalBE(n)) == n
  {
    var s := E.MinimalBE(n);
    if n < 256 {
      assert s[..0] == [];
    } else {
      FromMinimalBE(n / 256);
      assert s[..|s| - 1] == E.MinimalBE(n / 256);
    }
  }

  lemma ScalarMeaning(ks: KeyString, v: Js)
    requires !v.Arr? && !v.Obj? && Representable(v) && Valid(ItemOf(v))
    ensures Meaning(ks, ItemOf(v)) == Some(Norm(v))
  {
    hide HalfValue, Utf8.Text, Utf8.WellFormed, Preferred, E.NegativeArgument;
    match v
    case Big(n) => BigMeaning(ks, n);
    case Num(n) => NumberMeaning(ks, n);
    case NaN => SpecialHalf(0x7E);
    case Inf(positive) => SpecialHalf(if positive then 0x7C else 0xFC);
    case Text(utf8) => Utf8.WellFormedKept(utf8);
    case _ =>
  }

  lemma BigMeaning(ks: KeyString, n: int)
    requires Valid(ItemOf(Big(n)))
    ensures Meaning(ks, ItemOf(Big(n))) == Some(Norm(Big(n)))
  {
    hide HalfValue, Utf8.Text, Utf8.WellFormed, Preferred;
    FromMinimalBE(if n >= 0 then n else -1 - n);
  }

  lemma NumberMeaning(ks: KeyString, n: integral)
    requires Valid(ItemOf(Num(n)))
    ensures Meaning(ks, ItemOf(Num(n))) == Some(Norm(Num(n)))
  {
    hide HalfValue, Utf8.Text, Utf8.WellFormed, Preferred, E.NegativeArgument, FitsDouble;
    PreferredArg(if n >= 0 then n else E.NegativeArgument(n));
  }

  lemma SpecialHalf(high: byte)
    requires high == 0x7E || high == 0x7C || high == 0xFC
    ensures HalfValue(FromBE([high, 0x00])) == if high == 0x7E then VNaN else VInf(high == 0x7C)
  {
    TwoBytes(high, 0x00);
  }

  lemma PreferredArg(arg: nat)
    ensures Preferred(arg).arg == arg % 0x1_0000_0000_0000_0000
  {
  }

  lemma TwoBytes(a: byte, b: byte)
    ensures FromBE([a, b]) == a * 256 + b
  {
    var s := [a, b];
    assert s[..1] == [a] && [a][..0] == [];
    assert FromBE([a]) == a;
  }

  /** The item written for a value means its normal form. */
  lemma {:induction false} ItemMeansNorm(ks: KeyString, v: Js)
    requires KeepsText(ks) && Representable(v) && Valid(ItemOf(v))
    ensures Meaning(ks, ItemOf(v)) == Some(Norm(v))
    decreases v, 1
  {
    match v
    case Arr(items) => ItemsMeanNorm(ks, items);
    case Obj(entries) =>
      var vs := EntriesMeanNorm(ks, entries, []);
    case _ => ScalarMeaning(ks, v);
  }

  lemma {:induction false} ItemsMeanNorm(ks: KeyString, items: seq<Js>)
    requires KeepsText(ks) && AllRepresentable(items) && AllValid(ItemsOf(items))
    ensures ArrayMeaning(ks, ItemsOf(items)) == Some(NormAll(items))
    decreases items, 0
  {
    if items != [] {
      var ws := ItemsOf(items);
      assert ws[1..] == ItemsOf(items[1..]);
      ItemMeansNorm(ks, items[0]);
      ItemsMeanNorm(ks, items[1..]);
    }
  }

  lemma {:induction false} EntriesMeanNorm(ks: KeyString, entries: seq<Entry>, acc: seq<Field>) returns (vs: seq<Value>)
    requires KeepsText(ks) && AllEntriesRepresentable(entries) && AllValid(EntryItems(entries))
    ensures ArrayMeaning(ks, EntryItems(entries)) == Some(vs)
    ensures FieldsOf(ks, vs, acc) == Some(NormEntries(entries, acc))
    decreases entries, 0
  {
    hide ItemOf, Norm, Preferred, Utf8.WellFormed, Utf8.Text;
    if entries == [] {
      vs := [];
    } else {
      Utf8.WellFormedKept(entries[0].key);
      var e, rest := entries[0], EntryItems(entries[1..]);
      var ws, tail := EntryItems(entries), [ItemOf(e.value)] + rest;
      assert ws[1..] == tail && tail[1..] == rest;
      ItemMeansNorm(ks, e.value);
      var back := EntriesMeanNorm(ks, entries[1..], Put(acc, e.key, Norm(e.value)));
      assert ArrayMeaning(ks, tail) == Some([Norm(e.value)] + back);
      vs := [VText(e.key)] + ([Norm(e.value)] + back);
      assert vs[2..] == back;
    }
  }

  // ---- limits ----------------------------------------------------------------------

  /** Map entries in the value, at every level. */
  function Entries(v: Js): nat
    decreases v, 1
  {
    match v
    case Arr(items) => EntriesAll(items)
    case Obj(entries) => |entries| + EntriesIn(entries)
    case _ => 0
  }

  function EntriesAll(items: seq<Js>): nat
    decreases items, 0
  {
    if items == [] then 0 else Entries(items[0]) + EntriesAll(items[1..])
  }

  function EntriesIn(entries: seq<Entry>): nat
    decreases entries, 0
  {
    if entries == [] then 0 else Entries(entries[0].value) + EntriesIn(entries[1..])
  }

  /** Bignums in the value, at every level. */
  function Bignums(v: Js): nat
    decreases v, 1
  {
    match v
    case Arr(items) => BignumsAll(items)
    case Obj(entries) => BignumsIn(entries)
    case Big(_) => 1
    case _ => 0
  }

  function BignumsAll(items: seq<Js>): nat
    decreases items, 0
  {
    if items == [] then 0 else Bignums(items[0]) + BignumsAll(items[1..])
  }

  function BignumsIn(entries: seq<Entry>): nat
    decreases entries, 0
  {
    if entries == [] then 0 else Bignums(entries[0].value) + BignumsIn(entries[1..])
  }

  /** Some bignum lies exactly `level` levels below the value. */
  predicate BignumAt(v: Js, level: nat)
    decreases v, 1
  {
    match v
    case Arr(items) => BignumAtAll(items, level)
    case Obj(entries) => BignumAtEntries(entries, level)
    case Big(_) => level == 0
    case _ => false
  }

  predicate BignumAtAll(items: seq<Js>, level: nat)
    decreases items, 0
  {
    items != [] && level > 0 && (BignumAt(items[0], level - 1) || BignumAtAll(items[1..], level))
  }

  predicate BignumAtEntries(entries: seq<Entry>, level: nat)
    decreases entries, 0
  {
    entries != [] && level > 0 && (BignumAt(entries[0].value, level - 1) || BignumAtEntries(entries[1..], level))
  }

  /** The decoder counts what the encoder counted, one more per map entry and one more per bignum. */
  lemma {:induction false} DecoderCount(v: Js)
    ensures Count(ItemOf(v)) == JsCount(v) + Entries(v) + Bignums(v)
    decreases v, 1
  {
    hide Preferred, BigBytes, Utf8.WellFormed, FitsDouble, E.NegativeArgument, ItemsOf, EntryItems, CountAll;
    match v
    case Arr(items) => DecoderCountAll(items);
    case Obj(entries) => DecoderCountEntries(entries);
    case _ =>
  }

  lemma {:induction false} DecoderCountAll(items: seq<Js>)
    ensures CountAll(ItemsOf(items)) == JsCountAll(items) + EntriesAll(items) + BignumsAll(items)
    decreases items, 0
  {
    if items != [] {
      assert ItemsOf(items)[1..] == ItemsOf(items[1..]);
      DecoderCount(items[0]);
      DecoderCountAll(items[1..]);
    }
  }

  lemma PairCosts(key: bytes, w: Item, rest: seq<Item>)
    ensures CountAll(EntryPair(key, w, rest)) == 1 + Count(w) + CountAll(rest)
    ensures HeightAll(EntryPair(key, w, rest)) == Max(1 + Height(w), HeightAll(rest))
  {
    var ws, tail := EntryPair(key, w, rest), [w] + rest;
    assert ws[1..] == tail && tail[1..] == rest;
    assert CountAll(tail) == Count(w) + CountAll(rest);
    assert HeightAll(tail) == Max(1 + Height(w), HeightAll(rest));
  }

  lemma {:induction false} DecoderCountEntries(entries: seq<Entry>)
    ensures CountAll(EntryItems(entries)) == JsCountEntries(entries) + |entries| + EntriesIn(entries) + BignumsIn(entries)
    decreases entries, 0
  {
    if entries != [] {
      DecoderCount(entries[0].value);
      DecoderCountEntries(entries[1..]);
      PairCosts(entries[0].key, ItemOf(entries[0].value), EntryItems(entries[1..]));
    }
  }

  ghost predicate OneDeeper(decoded: nat, encoded: nat, bignum: bool) {
    decoded == if bignum then encoded + 1 else encoded
  }

  lemma {:induction false} NoBignumBelow(v: Js, level: nat)
    requires level > JsHeight(v)
    ensures !BignumAt(v, level)
    decreases v, 1
  {
    match v
    case Arr(items) => NoBignumBelowAll(items, level);
    case Obj(entries) => NoBignumBelowEntries(entries, level);
    case _ =>
  }

  lemma {:induction false} NoBignumBelowAll(items: seq<Js>, level: nat)
    requires level > JsHeightAll(items)
    ensures !BignumAtAll(items, level)
    decreases items, 0
  {
    if items != [] {
      NoBignumBelow(items[0], level - 1);
      NoBignumBelowAll(items[1..], level);
    }
  }

  lemma {:induction false} NoBignumBelowEntries(entries: seq<Entry>, level: nat)
    requires level > JsHeightEntries(entries)
    ensures !BignumAtEntries(entries, level)
    decreases entries, 0
  {
    if entries != [] {
      NoBignumBelow(entries[0].value, level - 1);
      NoBignumBelowEntries(entries[1..], level);
    }
  }

  /** The decoder goes one level deeper than the encoder exactly when a bignum is at the deepest level. */
  lemma {:induction false} DecoderHeight(v: Js)
    ensures OneDeeper(Height(ItemOf(v)), JsHeight(v), BignumAt(v, JsHeight(v)))
    decreases v, 1
  {
    hide Preferred, BigBytes;
    match v
    case Arr(items) => DecoderHeightAll(items);
    case Obj(entries) => DecoderHeightEntries(entries);
    case _ =>
  }

  lemma {:induction false} DecoderHeightAll(items: seq<Js>)
    ensures OneDeeper(HeightAll(ItemsOf(items)), JsHeightAll(items), BignumAtAll(items, JsHeightAll(items)))
    decreases items, 0
  {
    if items != [] {
      assert ItemsOf(items)[1..] == ItemsOf(items[1..]);
      DecoderHeight(items[0]);
      DecoderHeightAll(items[1..]);
      var h, t := 1 + JsHeight(items[0]), JsHeightAll(items[1..]);
      if h > t {
        NoBignumBelowAll(items[1..], h);
      } else if h < t {
        NoBignumBelow(items[0], t - 1);
      }
    }
  }

  lemma FirstEntryHeight(entries: seq<Entry>)
    requires entries != []
    ensures HeightAll(EntryItems(entries))
         == Max(1 + Height(ItemOf(entries[0].value)), HeightAll(EntryItems(entries[1..])))
  {
    hide ItemOf, Height, HeightAll;
    PairCosts(entries[0].key, ItemOf(entries[0].value), EntryItems(entries[1..]));
  }

  lemma DeeperOfTwo(H: nat, h: nat, bh: bool, T: nat, t: nat, bt: bool, atH: bool, atT: bool)
    requires OneDeeper(H, h, bh) && OneDeeper(T, t, bt)
    requires atH == (h >= t && bh) && atT == (t >= h && bt)
    ensures OneDeeper(Max(H, T), if h > t then h else t, atH || atT)
  {
  }

  lemma {:induction false} DecoderHeightEntries(entries: seq<Entry>)
    ensures OneDeeper(HeightAll(EntryItems(entries)), JsHeightEntries(entries), BignumAtEntries(entries, JsHeightEntries(entries)))
    decreases entries, 0
  {
    if entries != [] {
      hide *;
      DecoderHeight(entries[0].value);
      DecoderHeightEntries(entries[1..]);
      EntriesCombine(entries);
    }
  }

  lemma EntriesCombine(entries: seq<Entry>)
    requires entries != []
    requires var v := entries[0].value; OneDeeper(Height(ItemOf(v)), JsHeight(v), BignumAt(v, JsHeight(v)))
    requires var rest := entries[1..];
             OneDeeper(HeightAll(EntryItems(rest)), JsHeightEntries(rest), BignumAtEntries(rest, JsHeightEntries(rest)))
    ensures OneDeeper(HeightAll(EntryItems(entries)), JsHeightEntries(entries), BignumAtEntries(entries, JsHeightEntries(entries)))
  {
    hide *;
    var v, rest := entries[0].value, entries[1..];
    FirstEntryHeight(entries);
    var h, t := 1 + JsHeight(v), JsHeightEntries(rest);
    var top := if h > t then h else t;
    MaxIs(h, t);
    FirstEntry(entries, top);
    if h > t {
      NoBignumBelowEntries(rest, h);
    } else if h < t {
      NoBignumBelow(v, t - 1);
    }
    OneMore(Height(ItemOf(v)), JsHeight(v), BignumAt(v, h - 1));
    DeeperOfTwo(1 + Height(ItemOf(v)), h, BignumAt(v, h - 1), HeightAll(EntryItems(rest)), t, BignumAtEntries(rest, t),
                BignumAt(v, top - 1), BignumAtEntries(rest, top));
  }

  lemma FirstEntry(entries: seq<Entry>, level: nat)
    requires entries != [] && level > 0
    ensures JsHeightEntries(entries) == Max(1 + JsHeight(entries[0].value), JsHeightEntries(entries[1..]))
    ensures BignumAtEntries(entries, level) == (BignumAt(entries[0].value, level - 1) || BignumAtEntries(entries[1..], level))
  {
    hide JsHeight, BignumAt, Utf8.WellFormed;
  }

  lemma MaxIs(h: nat, t: nat)
    ensures Max(h, t) == if h > t then h else t
  {
  }

  lemma OneMore(H: nat, h: nat, b: bool)
    requires OneDeeper(H, h, b)
    ensures OneDeeper(1 + H, 1 + h, b)
  {
  }

  /** The decoder's limits in the encoder's terms, for a value read at nesting `depth` after `n` elements. */
  ghost predicate WithinLimits(v: Js, depth: nat, n: nat) {
    && n + JsCount(v) + Entries(v) + Bignums(v) <= 1_000_000
    && depth + JsHeight(v) + (if BignumAt(v, JsHeight(v)) then 1 else 0) <= 100
  }

  /**
   Round trip: wherever the encoding of `v` stands, the decoder returns the normal form of `v`
   and stops at its last byte exactly when the limits hold; otherwise it fails.
   */
  lemma RoundTrip(ks: KeyString, v: Js, data: bytes, buf: bytes, pos: nat, depth: nat, n: nat)
    requires KeepsText(ks) && Representable(v)
    requires E.Encode(v, 0, 0) == E.Done(data, JsCount(v))
    requires At(buf, pos, data)
    ensures var r := DecodeItem(ks, buf, pos, n, depth);
            if WithinLimits(v, depth, n)
            then r == Done(Norm(v), pos + |data|, n + JsCount(v) + Entries(v) + Bignums(v))
            else r.Fail?
  {
    hide DecodeItem, Meaning, Serialize, Count, Height, ItemOf, Valid, At, Norm, E.Encode, BignumAt;
    EncodeWrites(v, 0, 0);
    ItemReads(ks, buf, pos, n, depth, ItemOf(v));
    ItemMeansNorm(ks, v);
    DecoderCount(v);
    DecoderHeight(v);
  }

  /** The normal form is the value itself when there is no undefined and no integer past 2^53. */
  lemma SafeIntegersKept(n: integral)
    ensures Norm(Num(n)) == VNum(n) <==> -0x20_0000_0000_0000 <= n <= MAX_SAFE_INTEGER
  {
    if n < 0 {
      var m: nat := -n;
      OneLess(m);
    }
    hide FitsDouble, ToDouble;
  }

  /** Below -2^53, down to the width of a head, an integer-valued number comes back one off. */
  lemma NegativesOneOff(n: integral)
    requires -0x1_0000_0000_0000_0000 < n < -0x20_0000_0000_0000
    ensures Norm(Num(n)) == VBig(if n % 4 == 0 then n - 1 else n + 1)
  {
    var m: nat := -n;
    OneLess(m);
    hide FitsDouble, ToDouble;
  }

  function Amount(v: Value): int {
    if v.VNum? then v.num else if v.VBig? then v.n else 0
  }

  lemma AmountOf(n: integral)
    ensures Amount(Norm(Num(n))) == if n < 0 then -1 - E.NegativeArgument(n) % 0x1_0000_0000_0000_0000 else n % 0x1_0000_0000_0000_0000
  {
    hide FitsDouble, ToDouble, E.NegativeArgument;
  }

  /** As an amount, as a number or as a bigint, an integer-valued number comes back exactly in this range. */
  lemma AmountKeptIff(n: integral)
    ensures Amount(Norm(Num(n))) == n <==> -0x20_0000_0000_0000 <= n < 0x1_0000_0000_0000_0000
  {
    AmountOf(n);
    if n < 0 {
      var m: nat := -n;
      OneLess(m);
    }
    hide FitsDouble, ToDouble, Norm, Amount;
  }

  function NormValues(vs: seq<Js>): seq<Value> {
    if vs == [] then [] else [Norm(vs[0])] + NormValues(vs[1..])
  }

  /** Every value's encoding, one after another; None when the encoder refuses one. */
  function EncodeStream(vs: seq<Js>): Option<bytes> {
    if vs == [] then Some([])
    else
      match E.Encode(vs[0], 0, 0)
      case Fail(_) => None
      case Done(data, _) =>
        var rest := EncodeStream(vs[1..]);
        if rest.None? then None else Some(data + rest.value)
  }

  /** Each value's depth is judged alone; the element counter runs through the whole stream. */
  ghost predicate StreamWithinLimits(vs: seq<Js>, n: nat) {
    vs == [] || (WithinLimits(vs[0], 0, n)
                 && StreamWithinLimits(vs[1..], n + JsCount(vs[0]) + Entries(vs[0]) + Bignums(vs[0])))
  }

  lemma StreamStart(vs: seq<Js>, buf: bytes, pos: nat) returns (data: bytes)
    requires vs != [] && AllRepresentable(vs)
    requires EncodeStream(vs).Some? && pos <= |buf| && buf[pos..] == EncodeStream(vs).value
    ensures E.Encode(vs[0], 0, 0) == E.Done(data, JsCount(vs[0])) && data != []
    ensures At(buf, pos, data) && pos + |data| <= |buf|
    ensures EncodeStream(vs[1..]).Some? && buf[pos + |data|..] == EncodeStream(vs[1..]).value
  {
    hide E.Encode;
    EncodeWrites(vs[0], 0, 0);
    data := E.Encode(vs[0], 0, 0).data;
    var rest := EncodeStream(vs[1..]).value;
    AtSlice(buf, pos, data);
    assert buf[pos..pos + |data|] == buf[pos..][..|data|] == data;
    assert buf[pos + |data|..] == buf[pos..][|data|..] == rest;
  }

  lemma {:induction false} StreamRoundTrip(ks: KeyString, vs: seq<Js>, buf: bytes, pos: nat, n: nat, acc: seq<Value>)
    requires KeepsText(ks) && AllRepresentable(vs)
    requires EncodeStream(vs).Some? && pos <= |buf| && buf[pos..] == EncodeStream(vs).value
    ensures var r := DecodeStream(ks, buf, pos, n, acc);
            if StreamWithinLimits(vs, n) then r.Done? && r.value == acc + NormValues(vs) else r.Fail?
    decreases vs
  {
    hide DecodeItem, E.Encode, At, Norm, Representable, WithinLimits;
    if vs == [] {
      assert acc + [] == acc;
    } else {
      var data := StreamStart(vs, buf, pos);
      RoundTrip(ks, vs[0], data, buf, pos, 0, n);
      var r := DecodeItem(ks, buf, pos, n, 0);
      if r.Done? {
        StreamRoundTrip(ks, vs[1..], buf, r.pos, r.n, acc + [r.value]);
        assert acc + [r.value] + NormValues(vs[1..]) == acc + ([r.value] + NormValues(vs[1..]));
      }
    }
  }

  // ---- independence of the form ----------------------------------------------------

  /** A string's data as the pieces in which it stands. */
  function Pieces(w: Item): seq<bytes>
    requires w.Str? || w.Chunked?
  {
    if w.Str? then [w.data] else DataOf(w.chunks)
  }

  function DataOf(chunks: seq<Chunk>): seq<bytes> {
    if chunks == [] then [] else [chunks[0].data] + DataOf(chunks[1..])
  }

  function Whole(pieces: seq<bytes>): bytes {
    if pieces == [] then [] else pieces[0] + Whole(pieces[1..])
  }

  /** The pieces read one by one. */
  function ReadEach(text: bool, pieces: seq<bytes>): bytes {
    if pieces == [] then [] else Content(text, pieces[0]) + ReadEach(text, pieces[1..])
  }

  /** No piece ends inside a unit of the whole: inside a character, that is, if the whole is well formed. */
  predicate CutsFit(pieces: seq<bytes>) {
    pieces == [] || (Utf8.Boundary(Whole(pieces), |pieces[0]|) && CutsFit(pieces[1..]))
  }

  /** The same pieces, or the same bytes cut in any ways, which for text must not cut characters. */
  predicate SameString(a: Item, b: Item)
    requires (a.Str? || a.Chunked?) && (b.Str? || b.Chunked?)
  {
    && a.text == b.text
    && (Pieces(a) == Pieces(b)
        || (Whole(Pieces(a)) == Whole(Pieces(b)) && (a.text ==> CutsFit(Pieces(a)) && CutsFit(Pieces(b)))))
  }

  lemma {:induction false} ReadEachBytes(pieces: seq<bytes>)
    ensures ReadEach(false, pieces) == Whole(pieces)
  {
    if pieces != [] {
      ReadEachBytes(pieces[1..]);
    }
  }

  function UnitsOf(pieces: seq<bytes>): nat {
    if pieces == [] then 0 else Utf8.Units(pieces[0]) + UnitsOf(pieces[1..])
  }

  lemma {:induction false} PiecesUnits(pieces: seq<bytes>)
    ensures UnitsOf(pieces) >= Utf8.Units(Whole(pieces))
    ensures UnitsOf(pieces) == Utf8.Units(Whole(pieces)) <==> CutsFit(pieces)
  {
    hide Utf8.Units, Utf8.Boundary;
    if pieces == [] {
      Utf8.NoUnits();
    } else {
      PiecesUnits(pieces[1..]);
      Utf8.UnitsOfCut(pieces[0], Whole(pieces[1..]));
    }
  }

  lemma {:induction false} PiecesLeads(pieces: seq<bytes>)
    ensures Utf8.Leads(ReadEach(true, pieces)) == UnitsOf(pieces)
  {
    hide Utf8.Leads, Utf8.Units, Utf8.Text;
    if pieces == [] {
      Utf8.NoLeads([]);
    } else {
      PiecesLeads(pieces[1..]);
      Utf8.TextLeads(pieces[0]);
      Utf8.LeadsConcat(Utf8.Text(pieces[0]), ReadEach(true, pieces[1..]));
    }
  }

  lemma {:induction false} FittingPieces(pieces: seq<bytes>)
    requires CutsFit(pieces)
    ensures ReadEach(true, pieces) == Utf8.Text(Whole(pieces))
  {
    hide Utf8.Boundary, Utf8.Text;
    if pieces == [] {
      Utf8.WellFormedKept([]);
    } else {
      FittingPieces(pieces[1..]);
      Utf8.TextOfCut(pieces[0], Whole(pieces[1..]));
    }
  }

  /** Reading text piece by piece gives the text of the whole exactly when no piece ends inside a unit. */
  lemma PiecesReadIff(pieces: seq<bytes>)
    ensures ReadEach(true, pieces) == Utf8.Text(Whole(pieces)) <==> CutsFit(pieces)
  {
    PiecesUnits(pieces);
    PiecesLeads(pieces);
    Utf8.TextLeads(Whole(pieces));
    if CutsFit(pieces) {
      FittingPieces(pieces);
    }
  }

  predicate AllWellFormed(pieces: seq<bytes>) {
    pieces == [] || (Utf8.WellFormed(pieces[0]) && AllWellFormed(pieces[1..]))
  }

  /** For text that is well formed as a whole: exactly when every piece is well formed by itself. */
  lemma {:induction false} WholeCharacters(pieces: seq<bytes>)
    requires Utf8.WellFormed(Whole(pieces))
    ensures CutsFit(pieces) <==> AllWellFormed(pieces)
  {
    hide Utf8.Boundary, Utf8.WellFormed;
    if pieces != [] {
      var rest := Whole(pieces[1..]);
      Utf8.WellFormedCut(pieces[0], rest);
      if Utf8.WellFormed(rest) {
        WholeCharacters(pieces[1..]);
      } else if AllWellFormed(pieces[1..]) {
        JoinedWellFormed(pieces[1..]);
      }
    }
  }

  lemma {:induction false} JoinedWellFormed(pieces: seq<bytes>)
    requires AllWellFormed(pieces)
    ensures Utf8.WellFormed(Whole(pieces))
  {
    if pieces != [] {
      JoinedWellFormed(pieces[1..]);
      Utf8.ConcatWellFormed(pieces[0], Whole(pieces[1..]));
    }
  }

  lemma {:induction false} JoinReads(text: bool, chunks: seq<Chunk>)
    ensures Join(text, chunks) == ReadEach(text, DataOf(chunks))
  {
    hide Content;
    if chunks != [] {
      JoinReads(text, chunks[1..]);
    }
  }

  lemma StringMeaning(ks: KeyString, w: Item)
    requires Valid(w) && (w.Str? || w.Chunked?)
    ensures Meaning(ks, w) == Some(StringValue(w.text, ReadEach(w.text, Pieces(w))))
  {
    hide Content;
    if w.Str? {
      assert [w.data][1..] == [] && Content(w.text, w.data) + [] == Content(w.text, w.data);
    } else {
      JoinReads(w.text, w.chunks);
    }
  }

  /** Chunked text means what the same bytes in one piece mean exactly when no chunk ends inside a unit. */
  lemma ChunkedTextIff(ks: KeyString, a: Item, b: Item)
    requires Valid(a) && Valid(b) && a.Chunked? && b.Str? && a.text && b.text && Whole(DataOf(a.chunks)) == b.data
    ensures Meaning(ks, a) == Meaning(ks, b) <==> CutsFit(DataOf(a.chunks))
  {
    StringMeaning(ks, a);
    PiecesReadIff(DataOf(a.chunks));
  }

  lemma OneByteChunk(buf: bytes, pos: nat, n: nat, acc: bytes)
    requires pos + 2 <= |buf| && buf[pos] == 0x61
    ensures DecodeChunks(buf, pos, n, 3, acc) == DecodeChunks(buf, pos + 2, n, 3, acc + Utf8.Text([buf[pos + 1]]))
  {
    hide Utf8.Text;
    assert buf[pos + 1..pos + 2] == [buf[pos + 1]];
    assert ChunkAt(buf, pos, 3) == ChunkData([buf[pos + 1]], pos + 2);
  }

  /** The letter U+00E9 in one piece, and its two bytes in two chunks, which are read as two U+FFFD. */
  lemma CutInsideCharacter(ks: KeyString)
    ensures DecodeItem(ks, [0x62, 0xC3, 0xA9], 0, 0, 0) == Done(VText([0xC3, 0xA9]), 3, 1)
    ensures DecodeItem(ks, [0x7F, 0x61, 0xC3, 0x61, 0xA9, 0xFF], 0, 0, 0)
         == Done(VText([0xEF, 0xBF, 0xBD, 0xEF, 0xBF, 0xBD]), 6, 1)
  {
    LetterReads(ks);
    hide Utf8.Text;
    var buf, sign := [0x7F, 0x61, 0xC3, 0x61, 0xA9, 0xFF], [0xEF, 0xBF, 0xBD];
    TextOfPart(0xC3);
    TextOfPart(0xA9);
    OneByteChunk(buf, 1, 1, []);
    OneByteChunk(buf, 3, 1, sign);
    assert [] + sign == sign && sign + sign == [0xEF, 0xBF, 0xBD, 0xEF, 0xBF, 0xBD];
    assert DecodeChunks(buf, 5, 1, 3, sign + sign) == Done(sign + sign, 6, 1);
    hide DecodeChunks;
    assert DecodeItem(ks, buf, 0, 0, 0) == DecodeBody(ks, buf, 1, 1, 0, 3, 31);
  }

  lemma TextOfPart(b: byte)
    requires b == 0xC3 || b == 0xA9
    ensures Utf8.Text([b]) == [0xEF, 0xBF, 0xBD]
  {
    assert Utf8.UnitLength([b]) == 1 && [b][1..] == [];
    assert Utf8.Text([]) == [];
  }

  lemma LetterReads(ks: KeyString)
    ensures DecodeItem(ks, [0x62, 0xC3, 0xA9], 0, 0, 0) == Done(VText([0xC3, 0xA9]), 3, 1)
  {
    var buf, data := [0x62, 0xC3, 0xA9], [0xC3, 0xA9];
    assert buf[1..3] == data && data[2..] == [] && data[..2] == data;
    assert Utf8.Text([]) == [];
    assert Utf8.Text(data) == data;
    assert DecodeItem(ks, buf, 0, 0, 0) == DecodeBody(ks, buf, 1, 1, 0, 3, 2);
    assert DecodeString(buf, 1, 1, 3, 2) == Done(data, 3, 1);
  }

  /**
   The same content in whatever form: any head widths, strings whole or cut into chunks, arrays and
   maps of definite or indefinite length, at every nesting.
   */
  predicate SameContent(a: Item, b: Item)
    decreases a, 1
  {
    match a
    case Integer(neg, h) => b.Integer? && b.negative == neg && b.head.arg == h.arg
    case Str(_, _, _) => (b.Str? || b.Chunked?) && SameString(a, b)
    case Chunked(_, _) => (b.Str? || b.Chunked?) && SameString(a, b)
    case Array(_, items) => b.Array? && SameContents(items, b.items)
    case Map(_, items) => b.Map? && SameContents(items, b.items)
    case Tag(h, inner) => b.Tag? && b.head.arg == h.arg && SameContent(inner, b.inner)
    case _ => a == b
  }

  predicate SameContents(a: seq<Item>, b: seq<Item>)
    decreases a, 0
  {
    |a| == |b| && (a == [] || (SameContent(a[0], b[0]) && SameContents(a[1..], b[1..])))
  }

  lemma StringsSame(ks: KeyString, a: Item, b: Item)
    requires Valid(a) && Valid(b) && (a.Str? || a.Chunked?) && (b.Str? || b.Chunked?) && SameString(a, b)
    ensures Meaning(ks, a) == Meaning(ks, b)
  {
    hide Meaning, Valid, CutsFit, Pieces;
    StringMeaning(ks, a);
    StringMeaning(ks, b);
    if !a.text {
      ReadEachBytes(Pieces(a));
      ReadEachBytes(Pieces(b));
    } else if Pieces(a) != Pieces(b) {
      FittingPieces(Pieces(a));
      FittingPieces(Pieces(b));
    }
  }

  lemma {:induction false} SameMeaning(ks: KeyString, a: Item, b: Item)
    requires Valid(a) && Valid(b) && SameContent(a, b)
    ensures Meaning(ks, a) == Meaning(ks, b) && Count(a) == Count(b) && Height(a) == Height(b)
    decreases a, 1
  {
    hide SameString;
    match a
    case Str(_, _, _) => StringsSame(ks, a, b);
    case Chunked(_, _) => StringsSame(ks, a, b);
    case Array(_, items) => SameMeanings(ks, items, b.items);
    case Map(_, items) => SameMeanings(ks, items, b.items);
    case Tag(_, inner) => SameMeaning(ks, inner, b.inner);
    case _ =>
  }

  lemma {:induction false} SameMeanings(ks: KeyString, a: seq<Item>, b: seq<Item>)
    requires AllValid(a) && AllValid(b) && SameContents(a, b)
    ensures ArrayMeaning(ks, a) == ArrayMeaning(ks, b)
    ensures CountAll(a) == CountAll(b) && HeightAll(a) == HeightAll(b)
    decreases a, 0
  {
    if a != [] {
      SameMeaning(ks, a[0], b[0]);
      SameMeanings(ks, a[1..], b[1..]);
    }
  }

  /** Two items with the same content decode alike: value, elements counted, and success. */
  lemma FormIndependence(ks: KeyString, a: Item, b: Item, bufA: bytes, bufB: bytes, posA: nat, posB: nat, n: nat, depth: nat)
    requires Valid(a) && Valid(b) && SameContent(a, b)
    requires At(bufA, posA, Serialize(a)) && At(bufB, posB, Serialize(b))
    ensures var ra, rb := DecodeItem(ks, bufA, posA, n, depth), DecodeItem(ks, bufB, posB, n, depth);
            && (ra.Done? <==> rb.Done?)
            && (ra.Done? ==> ra.value == rb.value && ra.n == rb.n)
            && (ra.Done? ==> ra.pos == posA + |Serialize(a)| && rb.pos == posB + |Serialize(b)|)
  {
    hide DecodeItem, Meaning, Serialize, Count, Height, Valid, At, SameContent;
    ItemReads(ks, bufA, posA, n, depth, a);
    ItemReads(ks, bufB, posB, n, depth, b);
    SameMeaning(ks, a, b);
  }
}
