/** Base62: digits, then upper case, then lower case letters, with zero padding on the left. */
module Base62 {
  import opened Bytes

  const DIGITS: string := "0123456789"
  const UPPER: string := "ABCDEFGHIJKLMNOPQRSTUVWXYZ"
  const LOWER: string := "abcdefghijklmnopqrstuvwxyz"
  const ALPHABET: string := DIGITS + UPPER + LOWER
  const MAX_NUMBER: nat := 9_999_999_999_999_999_999_999_999_999_999_999_999_999
  const MAX_ENCODED_LENGTH: nat := 1024

  type Digit = d: nat | d < 62

  /** What is encoded, and which of the three inputs it came from: only a number has a limit. */
  datatype Source = Number(n: nat) | Hex(n: nat) | Packed(n: nat)

  datatype Error = NumberTooLarge | Empty | TooLong | BadCharacter(c: char)

  // ---- digits and characters -------------------------------------------------------

  function Symbol(d: Digit): char {
    ALPHABET[d]
  }

  function ValueOf(c: char): Option<Digit> {
    if '0' <= c <= '9' then Some(c as int - 48)
    else if 'A' <= c <= 'Z' then Some(c as int - 55)
    else if 'a' <= c <= 'z' then Some(c as int - 61)
    else None
  }

  lemma UpperAt(d: nat)
    requires d < 26
    ensures UPPER[d] == (d + 65) as char
  {
    assert UPPER == seq(26, i requires 0 <= i < 26 => (i + 65) as char);
  }

  lemma LowerAt(d: nat)
    requires d < 26
    ensures LOWER[d] == (d + 97) as char
  {
    assert LOWER == seq(26, i requires 0 <= i < 26 => (i + 97) as char);
  }

  /** The alphabet is in ascending character order, and each of its symbols has its place as value. */
  lemma SymbolAt(d: Digit)
    ensures Symbol(d) as int == if d < 10 then d + 48 else if d < 36 then d + 55 else d + 61
    ensures ValueOf(Symbol(d)) == Some(d)
  {
    if 10 <= d < 36 {
      assert Symbol(d) == UPPER[d - 10];
      UpperAt(d - 10);
    } else if 36 <= d {
      assert Symbol(d) == LOWER[d - 36];
      LowerAt(d - 36);
    }
  }

  lemma ValueAt(c: char)
    requires ValueOf(c).Some?
    ensures Symbol(ValueOf(c).value) == c
  {
    SymbolAt(ValueOf(c).value);
  }

  lemma SymbolOrder(c: char, d: char)
    requires ValueOf(c).Some? && ValueOf(d).Some?
    ensures c < d <==> ValueOf(c).value < ValueOf(d).value
  {
  }

  ghost predicate IsLookup(lookup: map<char, Digit>) {
    && (forall c :: c in lookup <==> ValueOf(c).Some?)
    && (forall c :: c in lookup ==> lookup[c] == ValueOf(c).value)
  }

  method BuildLookup() returns (lookup: map<char, Digit>)
    ensures IsLookup(lookup)
  {
    lookup := map[];
    for i := 0 to |ALPHABET|
      invariant forall c :: c in lookup <==> ValueOf(c).Some? && ValueOf(c).value < i
      invariant forall c :: c in lookup ==> lookup[c] == ValueOf(c).value
    {
      SymbolAt(i);
      forall c | ValueOf(c) == Some(i)
        ensures c == Symbol(i)
      {
        ValueAt(c);
      }
      lookup := lookup[ALPHABET[i] := i];
    }
  }

  // ---- numbers ---------------------------------------------------------------------

  /** The digits of a number without leading zeros; none for zero. */
  function Digits(n: nat): string {
    if n == 0 then [] else Digits(n / 62) + [Symbol(n % 62)]
  }

  predicate AllSymbols(s: string) {
    forall i :: 0 <= i < |s| ==> ValueOf(s[i]).Some?
  }

  function Value(s: string): nat
    requires AllSymbols(s)
  {
    if s == [] then 0 else Value(s[..|s| - 1]) * 62 + ValueOf(s[|s| - 1]).value
  }

  function ZeroString(k: nat): (s: string)
    ensures |s| == k && forall i :: 0 <= i < k ==> s[i] == '0'
  {
    seq(k, _ => '0')
  }

  function PadStart(s: string, width: int): (r: string)
    ensures |s| <= |r| && (width <= |s| ==> r == s) && (|s| <= width ==> |r| == width)
  {
    if width <= |s| then s else ZeroString(width - |s|) + s
  }

  function Encoded(n: nat, minLength: int): string {
    PadStart(if n == 0 then "0" else Digits(n), minLength)
  }

  function StripZeros(s: string): string {
    if |s| > 1 && s[0] == '0' then StripZeros(s[1..]) else s
  }

  function EncodeSource(source: Source, minLength: int): Result<string, Error> {
    if source.Number? && source.n > MAX_NUMBER then Err(NumberTooLarge) else Ok(Encoded(source.n, minLength))
  }

  function FirstBad(s: string): Option<char> {
    if s == [] then None
    else if ValueOf(s[0]).None? then Some(s[0])
    else FirstBad(s[1..])
  }

  lemma {:induction false} FirstBadNone(s: string)
    ensures FirstBad(s).None? <==> AllSymbols(s)
  {
    if s != [] {
      FirstBadNone(s[1..]);
      assert AllSymbols(s) <==> ValueOf(s[0]).Some? && AllSymbols(s[1..]) by {
        assert forall i :: 1 <= i < |s| ==> s[i] == s[1..][i - 1];
      }
    }
  }

  /** Decoding of a string that has been trimmed. */
  function Decoded(s: string): Result<nat, Error> {
    if s == [] then Err(Empty)
    else if |s| > MAX_ENCODED_LENGTH then Err(TooLong)
    else
      match FirstBad(s)
      case Some(c) => Err(BadCharacter(c))
      case None =>
        FirstBadNone(s);
        Ok(Value(s))
  }

  // ---- the loops -------------------------------------------------------------------

  method Encode(source: Source, minLength: int) returns (r: Result<string, Error>)
    ensures r == EncodeSource(source, minLength)
  {
    if source.Number? && source.n > MAX_NUMBER { return Err(NumberTooLarge); }
    if source.n == 0 {
      return Ok(PadStart("0", if minLength > 1 then minLength else 1));
    }
    var digits, n := [], source.n;
    while n > 0
      invariant Digits(source.n) == Digits(n) + Reversed(digits)
    {
      digits := digits + [ALPHABET[n % 62]];
      assert digits[..|digits| - 1] + [Symbol(n % 62)] == digits;
      n := n / 62;
    }
    var encoded := Reversed(digits);
    assert [] + encoded == encoded;
    r := Ok(PadStart(encoded, if minLength > |encoded| then minLength else |encoded|));
  }

  function Reversed(s: string): string {
    if s == [] then [] else [s[|s| - 1]] + Reversed(s[..|s| - 1])
  }

  method Decode(lookup: map<char, Digit>, s: string) returns (r: Result<nat, Error>)
    requires IsLookup(lookup)
    ensures r == Decoded(s)
  {
    if s == [] { return Err(Empty); }
    if |s| > MAX_ENCODED_LENGTH { return Err(TooLong); }
    for i := 0 to |s|
      invariant FirstBad(s) == FirstBad(s[i..])
    {
      if s[i] !in lookup { return Err(BadCharacter(s[i])); }
      assert s[i..][1..] == s[i + 1..];
    }
    FirstBadNone(s);
    var val: nat := 0;
    for i := 0 to |s|
      invariant val == Value(s[..i])
    {
      assert s[..i + 1][..i] == s[..i];
      val := val * 62 + lookup[s[i]];
    }
    assert s[..|s|] == s;
    return Ok(val);
  }

  // ---- inversion -------------------------------------------------------------------

  lemma {:induction false} DigitsValue(n: nat)
    ensures AllSymbols(Digits(n)) && Value(Digits(n)) == n
  {
    if n > 0 {
      DigitsValue(n / 62);
      SymbolAt(n % 62);
      assert Digits(n)[..|Digits(n)| - 1] == Digits(n / 62);
    }
  }

  lemma {:induction false} ZerosValue(k: nat, s: string)
    requires AllSymbols(s)
    ensures AllSymbols(ZeroString(k) + s) && Value(ZeroString(k) + s) == Value(s)
    decreases |s|, k
  {
    var z := ZeroString(k);
    if s != [] {
      ZerosValue(k, s[..|s| - 1]);
      assert (z + s)[..|z + s| - 1] == z + s[..|s| - 1];
    } else if k > 0 {
      ZerosValue(k - 1, s);
      assert (z + s)[..k - 1] == ZeroString(k - 1) + s;
    }
  }

  lemma ZeroValue()
    ensures AllSymbols("0") && Value("0") == 0
  {
    assert "0"[..0] == [] && Value([]) == 0;
  }

  lemma EncodedValue(n: nat, minLength: int)
    ensures AllSymbols(Encoded(n, minLength)) && Value(Encoded(n, minLength)) == n && Encoded(n, minLength) != []
  {
    hide AllSymbols, Value, ValueOf, Digits;
    var s := if n == 0 then "0" else Digits(n);
    DigitsValue(n);
    ZeroValue();
    ZerosValue(if minLength <= |s| then 0 else minLength - |s|, s);
    assert ZeroString(0) + s == s;
    NoDigits(n);
  }

  lemma NoDigits(n: nat)
    ensures Digits(n) == [] <==> n == 0
  {
  }

  /** Decoding gives the number back for every padding, exactly when the string is within the decoder's limit. */
  lemma DecodeEncoded(n: nat, minLength: int)
    ensures Decoded(Encoded(n, minLength)) == if |Encoded(n, minLength)| <= MAX_ENCODED_LENGTH then Ok(n) else Err(TooLong)
  {
    EncodedValue(n, minLength);
    FirstBadNone(Encoded(n, minLength));
  }

  lemma {:induction false} NoLeadingZero(n: nat)
    requires n > 0
    ensures Digits(n) != [] && Digits(n)[0] != '0'
  {
    SymbolAt(n % 62);
    if n >= 62 {
      NoLeadingZero(n / 62);
      assert Digits(n)[0] == Digits(n / 62)[0];
    } else {
      assert Digits(n / 62) == [];
    }
  }

  /**
   Every source is encoded but a number of more than 40 decimal digits, and decodes to its number within
   the decoder's limit; zeros stand in front only to fill up to the length asked for.
   */
  lemma SourceEncoded(source: Source, minLength: int)
    ensures var r := EncodeSource(source, minLength);
            && (r.Err? <==> source.Number? && source.n >= 10_000_000_000_000_000_000_000_000_000_000_000_000_000)
            && (r.Err? ==> r.error == NumberTooLarge)
            && (r.Ok? ==>
                  var s := r.value;
                  && |s| >= 1 && |s| >= minLength
                  && (|s| > 1 && |s| > minLength ==> s[0] != '0')
                  && AllSymbols(s) && Value(s) == source.n
                  && Decoded(s) == if |s| <= 1024 then Ok(source.n) else Err(TooLong))
  {
    hide AllSymbols, Value, Digits, Decoded;
    var n := source.n;
    EncodedValue(n, minLength);
    DecodeEncoded(n, minLength);
    if n > 0 {
      NoLeadingZero(n);
    }
  }

  lemma DigitsStep(n: nat, c: char)
    requires ValueOf(c).Some? && n * 62 + ValueOf(c).value > 0
    ensures Digits(n * 62 + ValueOf(c).value) == Digits(n) + [c]
  {
    hide Symbol, ValueOf;
    ValueAt(c);
    var d := ValueOf(c).value;
    assert (n * 62 + d) / 62 == n && (n * 62 + d) % 62 == d;
  }

  /** A string with no leading zero is the only way to write its number. */
  lemma {:induction false} ValueDigits(s: string)
    requires AllSymbols(s) && s != [] && s[0] != '0'
    ensures Value(s) > 0 && Digits(Value(s)) == s
    decreases |s|
  {
    hide Digits, Symbol, Value, ValueOf;
    var front, v := s[..|s| - 1], Value(s);
    ValueStep(s);
    if front == [] {
      NotZero(s[0]);
      FrontValue(front);
    } else {
      ValueDigits(front);
    }
    hide AllSymbols;
    DigitsStep(Value(front), s[|s| - 1]);
    assert front + [s[|s| - 1]] == s;
  }

  lemma NotZero(c: char)
    requires ValueOf(c).Some? && c != '0'
    ensures ValueOf(c).value > 0
  {
  }

  lemma FrontValue(front: string)
    requires AllSymbols(front)
    ensures front == [] ==> Value(front) == 0 && Digits(Value(front)) == []
  {
  }

  lemma {:induction false} StrippedParts(s: string) returns (k: nat)
    requires AllSymbols(s) && s != []
    ensures var t := StripZeros(s);
            && s == ZeroString(k) + t && AllSymbols(t) && Value(t) == Value(s)
            && (t == "0" || (t != [] && t[0] != '0'))
  {
    if |s| > 1 && s[0] == '0' {
      var j := StrippedParts(s[1..]);
      k := j + 1;
      assert s == [s[0]] + s[1..] == ZeroString(k) + StripZeros(s);
    } else {
      k := 0;
      if s[0] == '0' {
        assert s == "0";
      }
    }
    ZerosValue(k, StripZeros(s));
  }

  /** Encoding what was decoded gives the string without its leading zeros; padded to its length, the string. */
  lemma EncodeDecoded(s: string)
    requires Decoded(s).Ok?
    ensures Encoded(Decoded(s).value, 0) == StripZeros(s)
    ensures Encoded(Decoded(s).value, |s|) == s
  {
    hide FirstBad, AllSymbols, Value, ValueOf, Digits, StripZeros, Encoded;
    FirstBadNone(s);
    var k := StrippedParts(s);
    var t := StripZeros(s);
    ZeroValue();
    if t != "0" {
      ValueDigits(t);
    }
    EncodedAs(Decoded(s).value, t, k);
  }

  lemma EncodedAs(n: nat, t: string, k: nat)
    requires if n == 0 then t == "0" else Digits(n) == t && t != []
    ensures Encoded(n, 0) == t && Encoded(n, |ZeroString(k) + t|) == ZeroString(k) + t
  {
    hide Digits;
    assert ZeroString(0) + t == t;
  }

  // ---- order -----------------------------------------------------------------------

  predicate LexLess(a: string, b: string) {
    if b == [] then false
    else if a == [] then true
    else a[0] < b[0] || (a[0] == b[0] && LexLess(a[1..], b[1..]))
  }

  function Pow62(k: nat): nat {
    if k == 0 then 1 else 62 * Pow62(k - 1)
  }

  /** The value from the front: the first symbol counts most. */
  lemma {:induction false} ValueFront(s: string)
    requires AllSymbols(s) && s != []
    ensures AllSymbols(s[1..]) && Value(s) == ValueOf(s[0]).value * Pow62(|s| - 1) + Value(s[1..])
    decreases |s|
  {
    assert s[1..] == [] || AllSymbols(s[1..]);
    if |s| == 1 {
      assert s[..0] == [] && s[1..] == [];
    } else {
      var front, x, p := s[..|s| - 1], ValueOf(s[0]).value, Pow62(|s| - 2);
      ValueFront(front);
      assert front[0] == s[0] && front[1..] == s[1..][..|s| - 2];
      ValueStep(s);
      ValueStep(s[1..]);
      hide Value, ValueOf, AllSymbols;
      Carry(x, p, Value(front[1..]), ValueOf(s[|s| - 1]).value);
    }
  }

  lemma Carry(x: nat, p: nat, v: nat, d: nat)
    ensures (x * p + v) * 62 + d == x * (62 * p) + (v * 62 + d)
  {
  }

  lemma ValueStep(s: string)
    requires AllSymbols(s) && s != []
    ensures AllSymbols(s[..|s| - 1]) && Value(s) == Value(s[..|s| - 1]) * 62 + ValueOf(s[|s| - 1]).value
  {
  }

  lemma {:induction false} ValueBound(s: string)
    requires AllSymbols(s)
    ensures Value(s) < Pow62(|s|)
    decreases |s|
  {
    if s != [] {
      ValueBound(s[..|s| - 1]);
    }
  }

  lemma FirstDecides(a: nat, b: nat, p: nat, x: nat, y: nat)
    requires a < b && x < p
    ensures a * p + x < b * p + y
  {
    assert b * p == a * p + (b - a) * p;
    MulAtLeast(p, b - a);
    assert (b - a) * p == p * (b - a);
  }

  /** Strings of one length compare, character by character, as their numbers do. */
  lemma {:induction false} OrderKept(a: string, b: string)
    requires AllSymbols(a) && AllSymbols(b) && |a| == |b|
    ensures LexLess(a, b) <==> Value(a) < Value(b)
    decreases |a|
  {
    if a != [] {
      ValueFront(a);
      ValueFront(b);
      ValueBound(a[1..]);
      ValueBound(b[1..]);
      SymbolOrder(a[0], b[0]);
      SymbolOrder(b[0], a[0]);
      OrderKept(a[1..], b[1..]);
      var x, y, p := ValueOf(a[0]).value, ValueOf(b[0]).value, Pow62(|a| - 1);
      if x < y {
        FirstDecides(x, y, p, Value(a[1..]), Value(b[1..]));
      } else if y < x {
        FirstDecides(y, x, p, Value(b[1..]), Value(a[1..]));
      }
    }
  }

  lemma EncodedOrder(m: nat, n: nat, minLength: int)
    requires |Encoded(m, minLength)| == |Encoded(n, minLength)|
    ensures LexLess(Encoded(m, minLength), Encoded(n, minLength)) <==> m < n
  {
    EncodedValue(m, minLength);
    EncodedValue(n, minLength);
    OrderKept(Encoded(m, minLength), Encoded(n, minLength));
  }
}
