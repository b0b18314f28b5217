/**
 The 64-bit schema fingerprint: the table-driven loop computes eight single-bit steps per byte,
 the step is a bijection, and a change confined to eight consecutive bytes is always noticed.
 */
module AvroFingerprint {
  import opened Bytes
  import V = AvroVarint

  // A state is a list of 64 bits, the lowest first, so that shifts and xors are list operations.
  type Word = w: seq<bool> | |w| == 64 witness seq(64, _ => false)

  function ToBits(n: nat, k: nat): (w: seq<bool>)
    ensures |w| == k
  {
    if k == 0 then [] else [n % 2 == 1] + ToBits(n / 2, k - 1)
  }

  function Value(w: seq<bool>): nat {
    if w == [] then 0 else (if w[0] then 1 else 0) + 2 * Value(w[1..])
  }

  function Zeros(k: nat): (w: seq<bool>)
    ensures |w| == k && forall i :: 0 <= i < k ==> !w[i]
  {
    seq(k, _ => false)
  }

  function Xor(x: seq<bool>, y: seq<bool>): (z: seq<bool>)
    requires |x| == |y|
    ensures |z| == |x| && forall i :: 0 <= i < |x| ==> z[i] == (x[i] != y[i])
  {
    seq(|x|, i requires 0 <= i < |x| => x[i] != y[i])
  }

  function ShiftRight(w: Word, k: nat): Word
    requires k <= 64
  {
    w[k..] + Zeros(k)
  }

  const POLY: Word := ToBits(0xC96C_5795_D787_0F42, 64)
  const EMPTY: Word := ToBits(0xC15D_213A_A4D7_A795, 64)

  function Step(fp: Word): Word {
    if fp[0] then Xor(ShiftRight(fp, 1), POLY) else ShiftRight(fp, 1)
  }

  function Steps(fp: Word, k: nat): Word
    decreases k
  {
    if k == 0 then fp else Steps(Step(fp), k - 1)
  }

  /** Each byte is mixed into the low end of the state, which then takes eight steps. */
  function Feed(fp: Word, data: bytes): Word
    decreases data
  {
    if data == [] then fp else Feed(Steps(Xor(fp, ToBits(data[0], 64)), 8), data[1..])
  }

  function Fingerprint(data: bytes): Word {
    Feed(EMPTY, data)
  }

  // ---- as numbers ------------------------------------------------------------------

  lemma {:induction false} ValueOfMore(w: seq<bool>, m: nat)
    ensures Value(w + Zeros(m)) == Value(w)
    decreases |w|, m
  {
    if w != [] {
      ValueOfMore(w[1..], m);
      assert (w + Zeros(m))[1..] == w[1..] + Zeros(m);
    } else if m > 0 {
      ValueOfMore(w, m - 1);
      assert (w + Zeros(m))[1..] == w + Zeros(m - 1);
    }
  }

  lemma {:induction false} ValueOfXor(x: seq<bool>, y: seq<bool>)
    requires |x| == |y|
    ensures Value(Xor(x, y)) == V.Xor(Value(x), Value(y), |x|)
    decreases |x|
  {
    if x != [] {
      ValueOfXor(x[1..], y[1..]);
      assert Xor(x, y)[1..] == Xor(x[1..], y[1..]);
    }
  }

  /** A step halves the state as a number; if it was odd the polynomial is mixed in. */
  lemma StepNumber(fp: Word)
    ensures var u := Value(fp);
            Value(Step(fp)) == if u % 2 == 0 then u / 2 else V.Xor(u / 2, 0xC96C_5795_D787_0F42, 64)
  {
    hide ToBits, Value, Xor, ShiftRight, V.Xor;
    LowBit(fp);
    Shifted(fp);
    PolyNumber();
    if fp[0] {
      ValueOfXor(ShiftRight(fp, 1), POLY);
    }
  }

  lemma LowBit(fp: Word)
    ensures Value(fp) % 2 == (if fp[0] then 1 else 0) && Value(fp) / 2 == Value(fp[1..])
  {
  }

  lemma Shifted(fp: Word)
    ensures Value(ShiftRight(fp, 1)) == Value(fp[1..])
  {
    hide Value;
    ValueOfMore(fp[1..], 1);
  }

  lemma PolyNumber()
    ensures Value(POLY) == 0xC96C_5795_D787_0F42
  {
    hide ToBits, Value;
    V.Pow2Values();
    ValueOfBits(0xC96C_5795_D787_0F42, 64);
  }

  /** The state before the first byte. */
  lemma EmptyNumber()
    ensures Value(Fingerprint([])) == 0xC15D_213A_A4D7_A795
  {
    hide ToBits, Value;
    V.Pow2Values();
    ValueOfBits(0xC15D_213A_A4D7_A795, 64);
  }

  // ---- the table-driven form -------------------------------------------------------

  ghost predicate IsTable(table: seq<Word>) {
    |table| == 256 && forall i {:trigger table[i]} :: 0 <= i < 256 ==> table[i] == Steps(ToBits(i, 64), 8)
  }

  method BuildRabinTable() returns (table: array<Word>)
    ensures fresh(table) && IsTable(table[..])
  {
    hide ToBits, Steps, Xor, ShiftRight;
    table := new Word[256](_ => Zeros(64));
    for i := 0 to 256
      invariant forall k {:trigger table[k]} :: 0 <= k < i ==> table[k] == Steps(ToBits(k, 64), 8)
    {
      var fp: Word := ToBits(i, 64);
      for j := 0 to 8
        invariant Steps(fp, 8 - j) == Steps(ToBits(i, 64), 8)
        modifies {}
      {
        var low := fp[0];
        OneStep(fp, 7 - j);
        fp := if low then Xor(ShiftRight(fp, 1), POLY) else ShiftRight(fp, 1);
      }
      NoSteps(fp);
      table[i] := fp;
    }
  }

  lemma NoSteps(fp: Word)
    ensures Steps(fp, 0) == fp
  {
  }

  lemma OneStep(fp: Word, k: nat)
    ensures Steps(fp, k + 1) == Steps(Step(fp), k)
  {
  }

  method RabinFingerprint(table: array<Word>, data: bytes) returns (fp: Word)
    requires IsTable(table[..])
    ensures fp == Fingerprint(data)
  {
    hide Steps, ToBits, Value, Xor, ShiftRight;
    fp := EMPTY;
    for i := 0 to |data|
      invariant Feed(fp, data[i..]) == Fingerprint(data)
    {
      TableStep(fp, data[i]);
      var index := Value(Xor(fp[..8], ToBits(data[i], 8)));
      assert table[..][index] == Steps(ToBits(index, 64), 8);
      assert data[i..][0] == data[i] && data[i..][1..] == data[i + 1..];
      fp := Xor(ShiftRight(fp, 8), table[index]);
    }
  }

  /** Shifting by a byte and looking up the byte that falls out is eight steps. */
  lemma TableStep(fp: Word, b: byte)
    ensures var index := Value(Xor(fp[..8], ToBits(b, 8)));
            && index < 256
            && Xor(ShiftRight(fp, 8), Steps(ToBits(index, 64), 8)) == Steps(Xor(fp, ToBits(b, 64)), 8)
  {
    hide Steps, ToBits, Value;
    var low := Xor(fp[..8], ToBits(b, 8));
    ValueBound(low);
    EightDoublings();
    BitsOfValue(low, 56);
    ByteBits(b, 56);
    var high: Word := Zeros(8) + fp[8..];
    assert Xor(high, low + Zeros(56)) == Xor(fp, ToBits(b, 64));
    StepsXor(high, low + Zeros(56), 8);
    OnlyShifted(high, 8);
    assert ShiftRight(high, 8) == ShiftRight(fp, 8);
  }

  lemma EightDoublings()
    ensures Pow2(8) == 256
  {
    assert Pow2(8) == 2 * Pow2(7) == 4 * Pow2(6) == 8 * Pow2(5) == 16 * Pow2(4);
  }

  lemma {:induction false} ValueBound(w: seq<bool>)
    ensures Value(w) < Pow2(|w|)
  {
    if w != [] {
      ValueBound(w[1..]);
    }
  }

  lemma {:induction false} BitsOfValue(w: seq<bool>, m: nat)
    ensures ToBits(Value(w), |w| + m) == w + Zeros(m)
  {
    if w == [] {
      NoBits(m);
      assert w + Zeros(m) == Zeros(m);
    } else {
      BitsOfValue(w[1..], m);
      assert w + Zeros(m) == [w[0]] + (w[1..] + Zeros(m));
    }
  }

  lemma {:induction false} NoBits(m: nat)
    ensures ToBits(0, m) == Zeros(m)
  {
    if m > 0 {
      NoBits(m - 1);
      assert Zeros(m) == [false] + Zeros(m - 1);
    }
  }

  lemma {:induction false} ValueOfBits(n: nat, k: nat)
    requires n < Pow2(k)
    ensures Value(ToBits(n, k)) == n
  {
    if k > 0 {
      ValueOfBits(n / 2, k - 1);
      assert ToBits(n, k)[1..] == ToBits(n / 2, k - 1);
    }
  }

  lemma ByteBits(b: byte, m: nat)
    ensures Value(ToBits(b, 8)) == b && ToBits(b, 8 + m) == ToBits(b, 8) + Zeros(m)
  {
    EightDoublings();
    ValueOfBits(b, 8);
    BitsOfValue(ToBits(b, 8), m);
  }

  // ---- the step is linear and one to one -------------------------------------------

  lemma StepXor(x: Word, y: Word)
    ensures Step(Xor(x, y)) == Xor(Step(x), Step(y))
  {
  }

  lemma {:induction false} StepsXor(x: Word, y: Word, k: nat)
    ensures Steps(Xor(x, y), k) == Xor(Steps(x, k), Steps(y, k))
    decreases k
  {
    if k > 0 {
      StepXor(x, y);
      StepsXor(Step(x), Step(y), k - 1);
    }
  }

  /** Steps through zero bits only shift. */
  lemma {:induction false} OnlyShifted(w: Word, k: nat)
    requires k <= 64 && forall i :: 0 <= i < k ==> !w[i]
    ensures Steps(w, k) == ShiftRight(w, k)
    decreases k
  {
    if k == 0 {
      assert ShiftRight(w, 0) == w;
    } else {
      var w' := ShiftRight(w, 1);
      OnlyShifted(w', k - 1);
      assert ShiftRight(w', k - 1) == ShiftRight(w, k);
    }
  }

  function Unstep(fp: Word): Word {
    if fp[63] then [true] + Xor(fp, POLY)[..63] else [false] + fp[..63]
  }

  /** The top bit of the polynomial is set, so a step can be undone. */
  lemma PolyTop()
    ensures POLY[63]
  {
    V.Pow2Values();
    TopBit(0xC96C_5795_D787_0F42, 64);
  }

  lemma {:induction false} TopBit(n: nat, k: nat)
    requires k >= 1 && Pow2(k - 1) <= n < Pow2(k)
    ensures ToBits(n, k)[k - 1]
  {
    if k > 1 {
      TopBit(n / 2, k - 1);
    }
  }

  lemma StepUnstep(fp: Word)
    ensures Step(Unstep(fp)) == fp && Unstep(Step(fp)) == fp
  {
    hide ToBits;
    PolyTop();
  }

  function Unsteps(fp: Word, k: nat): Word
    decreases k
  {
    if k == 0 then fp else Unstep(Unsteps(fp, k - 1))
  }

  lemma {:induction false} StepsUnsteps(fp: Word, k: nat)
    ensures Steps(Unsteps(fp, k), k) == fp && Unsteps(Steps(fp, k), k) == fp
    decreases k
  {
    hide Step, Unstep;
    if k > 0 {
      StepUnstep(Unsteps(fp, k - 1));
      StepUnstep(fp);
      StepsUnsteps(fp, k - 1);
      StepsUnsteps(Step(fp), k - 1);
    }
  }

  // ---- what the fingerprint notices ------------------------------------------------

  /** Up to eight bytes as one number, the first byte lowest. */
  function Load(data: bytes): (w: seq<bool>)
    ensures |w| == 8 * |data|
  {
    if data == [] then [] else ToBits(data[0], 8) + Load(data[1..])
  }

  lemma {:induction false} LoadOneToOne(a: bytes, b: bytes)
    requires |a| == |b| && Load(a) == Load(b)
    ensures a == b
  {
    if a != [] {
      ByteBits(a[0], 0);
      ByteBits(b[0], 0);
      assert Load(a)[..8] == ToBits(a[0], 8) && Load(b)[..8] == ToBits(b[0], 8);
      assert Load(a)[8..] == Load(a[1..]) && Load(b)[8..] == Load(b[1..]);
      LoadOneToOne(a[1..], b[1..]);
    }
  }

  function Store(w: seq<bool>): (data: bytes)
    requires |w| % 8 == 0
    ensures |w| == 8 * |data|
  {
    if w == [] then [] else
      ValueBound(w[..8]); EightDoublings();
      [Value(w[..8])] + Store(w[8..])
  }

  lemma {:induction false} LoadStore(w: seq<bool>)
    requires |w| % 8 == 0
    ensures Load(Store(w)) == w
  {
    if w != [] {
      BitsOfValue(w[..8], 0);
      LoadStore(w[8..]);
      assert w[..8] + Zeros(0) == w[..8];
      assert w[..8] + w[8..] == w;
    }
  }

  lemma {:induction false} StepsAdd(fp: Word, j: nat, k: nat)
    ensures Steps(fp, j + k) == Steps(Steps(fp, j), k)
    decreases j
  {
    if j > 0 {
      StepsAdd(Step(fp), j - 1, k);
    }
  }

  /** Feeding up to eight bytes is mixing all of them in at once and then stepping. */
  lemma {:induction false} FeedAtOnce(fp: Word, data: bytes)
    requires |data| <= 8
    ensures Feed(fp, data) == Steps(Xor(fp, Load(data) + Zeros(64 - 8 * |data|)), 8 * |data|)
    decreases data
  {
    hide Step, Steps, ToBits;
    var all: Word := Load(data) + Zeros(64 - 8 * |data|);
    if data == [] {
      NoSteps(fp);
      assert Xor(fp, all) == fp;
    } else {
      var n := 8 * |data| - 8;
      var first, rest: Word := ToBits(data[0], 64), Zeros(8) + Load(data[1..]) + Zeros(64 - 8 * |data|);
      ByteBits(data[0], 56);
      assert Xor(fp, all) == Xor(Xor(fp, first), rest);
      StepsXor(Xor(fp, first), rest, 8);
      OnlyShifted(rest, 8);
      assert ShiftRight(rest, 8) == Load(data[1..]) + Zeros(64 - n);
      StepsAdd(Xor(fp, all), 8, n);
      FeedAtOnce(Steps(Xor(fp, first), 8), data[1..]);
    }
  }

  /** From one state, equally long strings of up to eight bytes lead to different states. */
  lemma BurstSeparates(fp: Word, a: bytes, b: bytes)
    requires |a| == |b| <= 8 && a != b
    ensures Feed(fp, a) != Feed(fp, b)
  {
    hide Steps, Load, Unsteps;
    var pad := Zeros(64 - 8 * |a|);
    var x, y: Word := Xor(fp, Load(a) + pad), Xor(fp, Load(b) + pad);
    FeedAtOnce(fp, a);
    FeedAtOnce(fp, b);
    if Feed(fp, a) == Feed(fp, b) {
      StepsUnsteps(x, 8 * |a|);
      StepsUnsteps(y, 8 * |a|);
      assert Xor(fp, x)[..8 * |a|] == Load(a) && Xor(fp, y)[..8 * |a|] == Load(b);
      LoadOneToOne(a, b);
    }
  }

  /** From different states, the same bytes lead to different states. */
  lemma {:induction false} FeedOneToOne(x: Word, y: Word, data: bytes)
    requires x != y
    ensures Feed(x, data) != Feed(y, data)
    decreases data
  {
    hide Steps, Unsteps, ToBits;
    if data != [] {
      var b: Word := ToBits(data[0], 64);
      StepsUnsteps(Xor(x, b), 8);
      StepsUnsteps(Xor(y, b), 8);
      assert Xor(Xor(x, b), b) == x && Xor(Xor(y, b), b) == y;
      FeedOneToOne(Steps(Xor(x, b), 8), Steps(Xor(y, b), 8), data[1..]);
    }
  }

  lemma {:induction false} FeedConcat(fp: Word, a: bytes, b: bytes)
    ensures Feed(fp, a + b) == Feed(Feed(fp, a), b)
    decreases a
  {
    hide Steps;
    if a == [] {
      assert a + b == b;
    } else {
      assert (a + b)[0] == a[0] && (a + b)[1..] == a[1..] + b;
      FeedConcat(Steps(Xor(fp, ToBits(a[0], 64)), 8), a[1..], b);
    }
  }

  /**
   Strings of one length that agree outside a window of at most eight bytes have different
   fingerprints; a single changed byte is the window of one.
   */
  lemma WindowNoticed(before: bytes, a: bytes, b: bytes, after: bytes)
    requires |a| == |b| <= 8 && a != b
    ensures Fingerprint(before + a + after) != Fingerprint(before + b + after)
  {
    hide Feed;
    var fp := Feed(EMPTY, before);
    FeedConcat(EMPTY, before + a, after);
    FeedConcat(EMPTY, before + b, after);
    FeedConcat(EMPTY, before, a);
    FeedConcat(EMPTY, before, b);
    BurstSeparates(fp, a, b);
    FeedOneToOne(Feed(fp, a), Feed(fp, b), after);
  }

  /** Eight is the limit: after any beginning, exactly one string of eight bytes gives a wanted fingerprint. */
  lemma EightBytesReachAll(before: bytes, goal: Word) returns (data: bytes)
    ensures |data| == 8 && Fingerprint(before + data) == goal
    ensures forall other: bytes :: |other| == 8 && Fingerprint(before + other) == goal ==> other == data
  {
    hide Feed, Steps, Unsteps, Load, Store;
    var fp := Feed(EMPTY, before);
    var w := Xor(fp, Unsteps(goal, 64));
    data := Store(w);
    LoadStore(w);
    FeedAtOnce(fp, data);
    assert w + Zeros(0) == w && Xor(fp, w) == Unsteps(goal, 64);
    StepsUnsteps(goal, 64);
    FeedConcat(EMPTY, before, data);
    forall other: bytes | |other| == 8 && Fingerprint(before + other) == goal
      ensures other == data
    {
      FeedConcat(EMPTY, before, other);
      if other != data {
        BurstSeparates(fp, other, data);
      }
    }
  }
}
