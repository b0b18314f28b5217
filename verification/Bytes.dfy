/** Byte strings, big-endian integers, and the result types shared by the codecs. */
module Bytes {

  type byte = x: int | 0 <= x < 256

  type bytes = seq<byte>

  datatype Option<+T> = None | Some(value: T)

  datatype Result<+T, +E> = Ok(value: T) | Err(error: E)

  /** `part` occurs in `buf` at offset `pos`. */
  ghost predicate At(buf: bytes, pos: int, part: bytes) {
    && 0 <= pos && pos + |part| <= |buf|
    && forall i {:trigger part[i]} :: 0 <= i < |part| ==> buf[pos + i] == part[i]
  }

  lemma AtConcat(buf: bytes, pos: int, a: bytes, b: bytes)
    ensures At(buf, pos, a + b) <==> At(buf, pos, a) && At(buf, pos + |a|, b)
  {
    if At(buf, pos, a + b) {
      assert forall i {:trigger a[i]} :: 0 <= i < |a| ==> a[i] == (a + b)[i];
      assert forall i {:trigger b[i]} :: 0 <= i < |b| ==> b[i] == (a + b)[|a| + i];
    }
  }

  lemma AtSlice(buf: bytes, pos: int, part: bytes)
    ensures At(buf, pos, part) <==> 0 <= pos && pos + |part| <= |buf| && buf[pos..pos + |part|] == part
  {
    if 0 <= pos && pos + |part| <= |buf| && buf[pos..pos + |part|] == part {
      assert forall i {:trigger part[i]} :: 0 <= i < |part| ==> part[i] == buf[pos..pos + |part|][i];
    }
  }

  lemma AtByte(buf: bytes, pos: int, b: byte)
    ensures At(buf, pos, [b]) <==> 0 <= pos < |buf| && buf[pos] == b
  {
    assert [b][0] == b;
  }

  function Pow2(k: nat): (p: nat)
    ensures p >= 1
  {
    if k == 0 then 1 else 2 * Pow2(k - 1)
  }

  lemma {:induction false} Pow2Grows(j: nat, k: nat)
    requires j <= k
    ensures Pow2(j) <= Pow2(k)
    decreases k
  {
    if j < k {
      Pow2Grows(j, k - 1);
    }
  }

  function Pow256(k: nat): (p: nat)
    ensures p >= 1
  {
    if k == 0 then 1 else 256 * Pow256(k - 1)
  }

  /** `n` as exactly `k` big-endian bytes; the high bytes are dropped when `n` does not fit. */
  function ToBE(n: nat, k: nat): (s: bytes)
    ensures |s| == k
  {
    if k == 0 then [] else ToBE(n / 256, k - 1) + [n % 256]
  }

  /** A string of ASCII characters as its bytes. */
  function Ascii(s: string): (b: bytes)
    ensures |b| == |s|
  {
    seq(|s|, i requires 0 <= i < |s| => s[i] as int % 128)
  }

  function FromBE(s: bytes): nat {
    if s == [] then 0 else FromBE(s[..|s| - 1]) * 256 + s[|s| - 1]
  }

  lemma {:induction false} FromToBE(n: nat, k: nat)
    requires n < Pow256(k)
    ensures FromBE(ToBE(n, k)) == n
  {
    if k > 0 {
      FromToBE(n / 256, k - 1);
      var s := ToBE(n, k);
      assert s[..|s| - 1] == ToBE(n / 256, k - 1);
    }
  }

  /** In general `k` bytes keep a number modulo 256^k. */
  lemma {:induction false} FromToBEMod(n: nat, k: nat)
    ensures FromBE(ToBE(n, k)) == n % Pow256(k)
  {
    if k > 0 {
      FromToBEMod(n / 256, k - 1);
      var s := ToBE(n, k);
      assert s[..|s| - 1] == ToBE(n / 256, k - 1);
      ModSplit(n, Pow256(k - 1));
    }
  }

  lemma ModSplit(n: nat, p: nat)
    requires p >= 1
    ensures n % (256 * p) == n / 256 % p * 256 + n % 256
  {
    var q, r := n / 256 / p, n / 256 % p * 256 + n % 256;
    assert n / 256 == p * q + n / 256 % p;
    assert n == (256 * p) * q + r by {
      assert 256 * (p * q) == (256 * p) * q;
    }
    DivModUnique(n, 256 * p, q, r);
  }

  lemma MulAtLeast(d: nat, k: int)
    requires k >= 1
    ensures d * k >= d
  {
    assert d * k == d * (k - 1) + d;
  }

  lemma DivModUnique(n: nat, d: nat, q: nat, r: nat)
    requires n == d * q + r && r < d
    ensures n % d == r && n / d == q
  {
    var q', r' := n / d, n % d;
    assert n == d * q' + r' && 0 <= r' < d;
    assert d * (q - q') == d * q - d * q' && d * (q' - q) == d * q' - d * q;
    if q > q' {
      MulAtLeast(d, q - q');
    } else if q < q' {
      MulAtLeast(d, q' - q);
    }
  }

  lemma {:induction false} FromBEBound(s: bytes)
    ensures FromBE(s) < Pow256(|s|)
  {
    if s != [] {
      FromBEBound(s[..|s| - 1]);
    }
  }

  lemma {:induction false} ToFromBE(s: bytes)
    ensures ToBE(FromBE(s), |s|) == s
  {
    if s != [] {
      ToFromBE(s[..|s| - 1]);
      assert FromBE(s) / 256 == FromBE(s[..|s| - 1]);
      assert FromBE(s) % 256 == s[|s| - 1];
    }
  }

  lemma {:induction false} FromBEConcat(a: bytes, b: bytes)
    ensures FromBE(a + b) == FromBE(a) * Pow256(|b|) + FromBE(b)
  {
    if b == [] {
      assert a + b == a;
    } else {
      var h := b[..|b| - 1];
      assert (a + b)[..|a + b| - 1] == a + h;
      FromBEConcat(a, h);
      calc {
        FromBE(a + b);
        FromBE(a + h) * 256 + b[|b| - 1];
        (FromBE(a) * Pow256(|h|) + FromBE(h)) * 256 + b[|b| - 1];
        FromBE(a) * Pow256(|h|) * 256 + FromBE(b);
        { assert FromBE(a) * Pow256(|h|) * 256 == FromBE(a) * (256 * Pow256(|h|)); }
        FromBE(a) * Pow256(|b|) + FromBE(b);
      }
    }
  }

  lemma Pow256Values()
    ensures Pow256(1) == 0x100 && Pow256(2) == 0x1_0000
    ensures Pow256(4) == 0x1_0000_0000 && Pow256(8) == 0x1_0000_0000_0000_0000
  {
    assert Pow256(3) == 256 * Pow256(2);
    assert Pow256(5) == 256 * Pow256(4);
    assert Pow256(6) == 256 * Pow256(5);
    assert Pow256(7) == 256 * Pow256(6);
  }
}
