/** Zigzag variable-length integers: the bit formulas, and that the reader inverts the writers. */
module AvroVarint {
  import opened Bytes

  /** The low `bits` bits of a number in two's complement. */
  function Low(v: int, bits: nat): (u: nat)
    ensures u < Pow2(bits)
  {
    v % Pow2(bits)
  }

  /** The number that the low `bits` bits stand for as a signed integer. */
  function AsInt(v: int, bits: nat): int
    requires bits >= 1
  {
    if Low(v, bits) < Pow2(bits - 1) then Low(v, bits) else Low(v, bits) - Pow2(bits)
  }

  predicate Fits(v: int, bits: nat)
    requires bits >= 1
  {
    v < Pow2(bits - 1) && -v <= Pow2(bits - 1)
  }

  function Xor(a: nat, b: nat, bits: nat): nat {
    if bits == 0 then 0 else (if a % 2 == b % 2 then 0 else 1) + 2 * Xor(a / 2, b / 2, bits - 1)
  }

  /** ((v << 1) ^ (v >> bits - 1)), cut to `bits` bits. */
  function ZigZag(v: int, bits: nat): nat
    requires bits >= 1
  {
    Xor(Low(2 * v, bits), Low(v / Pow2(bits - 1), bits), bits)
  }

  /** (z >> 1) ^ -(z & 1). */
  function UnZigZag(z: nat): int {
    if z % 2 == 0 then z / 2 else -(z / 2) - 1
  }

  lemma {:induction false} XorZero(a: nat, bits: nat)
    requires a < Pow2(bits)
    ensures Xor(a, 0, bits) == a
  {
    if bits > 0 {
      XorZero(a / 2, bits - 1);
    }
  }

  lemma {:induction false} XorOnes(a: nat, bits: nat)
    requires a < Pow2(bits)
    ensures Xor(a, Pow2(bits) - 1, bits) == Pow2(bits) - 1 - a
  {
    if bits > 0 {
      assert (Pow2(bits) - 1) / 2 == Pow2(bits - 1) - 1;
      XorOnes(a / 2, bits - 1);
    }
  }

  /** On integers of the given width the bit formula folds the sign into the lowest bit. */
  lemma ZigZagFolds(v: int, bits: nat)
    requires bits >= 1 && Fits(v, bits)
    ensures ZigZag(v, bits) == if v >= 0 then 2 * v else -2 * v - 1
    ensures ZigZag(v, bits) < Pow2(bits)
    ensures UnZigZag(ZigZag(v, bits)) == v
  {
    if v >= 0 {
      ZigZagNonNegative(v, bits);
    } else {
      ZigZagNegative(v, bits);
    }
  }

  lemma ZigZagNonNegative(v: nat, bits: nat)
    requires bits >= 1 && v < Pow2(bits - 1)
    ensures ZigZag(v, bits) == 2 * v
  {
    hide Xor;
    var p := Pow2(bits - 1);
    assert Pow2(bits) == 2 * p;
    SmallDiv(v, p, 0, v);
    SmallMod(2 * v, 2 * p, 0, 2 * v);
    SmallMod(0, 2 * p, 0, 0);
    XorZero(2 * v, bits);
  }

  lemma ZigZagNegative(v: int, bits: nat)
    requires bits >= 1 && v < 0 && -v <= Pow2(bits - 1)
    ensures ZigZag(v, bits) == -2 * v - 1
  {
    hide Xor;
    var p := Pow2(bits - 1);
    assert Pow2(bits) == 2 * p;
    SmallDiv(v, p, -1, v + p);
    SmallMod(2 * v, 2 * p, -1, 2 * v + 2 * p);
    SmallMod(-1, 2 * p, -1, 2 * p - 1);
    XorOnes(2 * v + 2 * p, bits);
  }

  lemma SmallMod(v: int, d: nat, q: int, r: nat)
    requires r < d && v == q * d + r && -1 <= q <= 0
    ensures v % d == r
  {
  }

  lemma SmallDiv(v: int, d: nat, q: int, r: nat)
    requires r < d && v == q * d + r && -1 <= q <= 0
    ensures v / d == q
  {
  }

  /** The 32-bit writer agrees with the 64-bit writer on every 32-bit integer. */
  lemma IntAgreesWithLong(v: int)
    requires Fits(v, 32)
    ensures Fits(v, 64) && ZigZag(v, 32) == ZigZag(v, 64)
  {
    Pow2Grows(31, 63);
    ZigZagFolds(v, 32);
    ZigZagFolds(v, 64);
  }

  lemma {:induction false} Pow2Add(j: nat, k: nat)
    ensures Pow2(j + k) == Pow2(j) * Pow2(k)
  {
    if j > 0 {
      Pow2Add(j - 1, k);
      assert Pow2(j) * Pow2(k) == 2 * (Pow2(j - 1) * Pow2(k));
    }
  }

  lemma Pow2Values()
    ensures Pow2(7) == 128 && Pow2(31) == 0x8000_0000 && Pow2(63) == 0x8000_0000_0000_0000
    ensures Pow2(32) == 0x1_0000_0000 && Pow2(64) == 0x1_0000_0000_0000_0000
  {
    assert Pow2(8) == 256 && Pow2(7) == 128;
    Pow2Add(8, 8);
    Pow2Add(16, 16);
    Pow2Add(32, 32);
    assert Pow2(32) == 2 * Pow2(31) && Pow2(64) == 2 * Pow2(63);
  }

  // ---- the bytes -------------------------------------------------------------------

  /** Seven bits a byte, lowest first, the top bit set on all but the last. */
  function VarBytes(u: nat): (s: bytes)
    ensures |s| >= 1
  {
    if u < 128 then [u] else [u % 128 + 128] + VarBytes(u / 128)
  }

  /** encodeVarUint32 and encodeVarUint64: the argument is cut to the width first. */
  method EncodeVarUint(u: nat, bits: nat) returns (s: bytes)
    ensures s == VarBytes(Low(u, bits))
  {
    s := [];
    var v: nat := Low(u, bits);
    while v >= 128
      invariant s + VarBytes(v) == VarBytes(Low(u, bits))
      decreases v
    {
      s := s + [v % 128 + 128];
      v := v / 128;
    }
    s := s + [v];
  }

  function LongBytes(v: int): (s: bytes)
    ensures |s| >= 1
  {
    VarBytes(ZigZag(v, 64))
  }

  function IntBytes(v: int): bytes {
    VarBytes(ZigZag(AsInt(v, 32), 32))
  }

  lemma IntBytesAreLongBytes(v: int)
    requires Fits(v, 32)
    ensures IntBytes(v) == LongBytes(v)
  {
    AsIntFits(v, 32);
    IntAgreesWithLong(v);
  }

  lemma AsIntFits(v: int, bits: nat)
    requires bits >= 1
    ensures Fits(AsInt(v, bits), bits)
    ensures Fits(v, bits) ==> AsInt(v, bits) == v
  {
    var p := Pow2(bits - 1);
    assert Pow2(bits) == 2 * p;
    if Fits(v, bits) {
      if v >= 0 {
        SmallMod(v, 2 * p, 0, v);
      } else {
        SmallMod(v, 2 * p, -1, v + 2 * p);
      }
    }
  }

  // ---- reading ---------------------------------------------------------------------

  datatype VarError = EndOfData | Overflow

  datatype VarOut = Read(value: int, pos: nat) | Unread(error: VarError)

  /** Up to eleven bytes are taken, so more than 64 bits can be read. */
  function ReadVar(buf: bytes, pos: nat, shift: nat, result: nat): (r: VarOut)
    requires pos <= |buf|
    ensures r.Read? ==> pos < r.pos <= |buf|
    decreases |buf| - pos
  {
    if pos == |buf| then Unread(EndOfData)
    else
      var result' := result + buf[pos] % 128 * Pow2(shift);
      if buf[pos] < 128 then Read(UnZigZag(result'), pos + 1)
      else if shift + 7 > 70 then Unread(Overflow)
      else ReadVar(buf, pos + 1, shift + 7, result')
  }

  function ReadLongAt(buf: bytes, pos: nat): (r: VarOut)
    requires pos <= |buf|
    ensures r.Read? ==> pos < r.pos <= |buf|
  {
    ReadVar(buf, pos, 0, 0)
  }

  lemma SevenMore(u: nat, shift: nat)
    ensures u * Pow2(shift) == u / 128 * Pow2(shift + 7) + u % 128 * Pow2(shift)
    ensures u % 128 * Pow2(shift) >= 0
  {
    hide Pow2;
    var p, q, b := Pow2(shift), u / 128, u % 128;
    Pow2Add(7, shift);
    Pow2Values();
    assert u == 128 * q + b;
    assert (128 * q + b) * p == q * (128 * p) + b * p;
  }

  lemma {:induction false} VarBytesRead(buf: bytes, pos: nat, shift: nat, result: nat, u: nat)
    requires At(buf, pos, VarBytes(u)) && u * Pow2(shift) < Pow2(64)
    ensures ReadVar(buf, pos, shift, result) == Read(UnZigZag(result + u * Pow2(shift)), pos + |VarBytes(u)|)
    decreases u
  {
    hide UnZigZag, Pow2, At;
    var p := Pow2(shift);
    if u < 128 {
      AtByte(buf, pos, u);
    } else {
      var q, b := u / 128, u % 128;
      AtConcat(buf, pos, [b + 128], VarBytes(q));
      AtByte(buf, pos, b + 128);
      SevenMore(u, shift);
      ShiftBound(u, shift);
      VarBytesRead(buf, pos + 1, shift + 7, result + b * p, q);
    }
  }

  lemma ShiftBound(u: nat, shift: nat)
    requires u >= 128 && u * Pow2(shift) < Pow2(64)
    ensures shift + 7 <= 70
  {
    var p := Pow2(shift);
    MulAtLeast(p, u);
    assert p * u == u * p;
    if shift > 63 {
      Pow2Grows(64, shift);
    }
  }

  /** The reader inverts the writer on every 64-bit integer. */
  lemma LongRead(buf: bytes, pos: nat, v: int)
    requires Fits(v, 64) && At(buf, pos, LongBytes(v))
    ensures ReadLongAt(buf, pos) == Read(v, pos + |LongBytes(v)|)
  {
    ZigZagFolds(v, 64);
    assert ZigZag(v, 64) * Pow2(0) == ZigZag(v, 64);
    VarBytesRead(buf, pos, 0, 0, ZigZag(v, 64));
  }

  lemma {:induction false} XorBound(a: nat, b: nat, bits: nat)
    ensures Xor(a, b, bits) < Pow2(bits)
  {
    if bits > 0 {
      XorBound(a / 2, b / 2, bits - 1);
    }
  }

  /** Whatever integer the writer is given, the reader gets back the one its bits stand for. */
  lemma LongReadAny(buf: bytes, pos: nat, v: int)
    requires At(buf, pos, LongBytes(v))
    ensures ReadLongAt(buf, pos) == Read(UnZigZag(ZigZag(v, 64)), pos + |LongBytes(v)|)
    ensures Fits(UnZigZag(ZigZag(v, 64)), 64)
    ensures LongBytes(UnZigZag(ZigZag(v, 64))) == LongBytes(v)
  {
    hide At, ReadVar, Xor, VarBytes, ReadLongAt;
    var z := ZigZag(v, 64);
    XorBound(Low(2 * v, 64), Low(v / Pow2(63), 64), 64);
    assert Pow2(64) == 2 * Pow2(63);
    ZigZagFolds(UnZigZag(z), 64);
    LongRead(buf, pos, UnZigZag(z));
  }
}
