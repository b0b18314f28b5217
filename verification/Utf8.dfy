/**
 Reading bytes as UTF-8 the way the language's runtime does (Unicode, section 3.9, and the WHATWG
 Encoding standard): each maximal part that begins a character without completing it is replaced by
 U+FFFD. The text read is given by its own UTF-8 bytes.
 */
module Utf8 {
  import opened Bytes

  const REPLACEMENT: bytes := [0xEF, 0xBF, 0xBD]

  // ---- units -----------------------------------------------------------------------

  predicate IsTail(b: byte) { 0x80 <= b <= 0xBF }

  /** How many bytes a character with this first byte still needs; None if no character starts so. */
  function Needs(lead: byte): (k: Option<nat>)
    ensures k.Some? ==> k.value <= 3 && !IsTail(lead)
  {
    if lead < 0x80 then Some(0)
    else if 0xC2 <= lead <= 0xDF then Some(1)
    else if 0xE0 <= lead <= 0xEF then Some(2)
    else if 0xF0 <= lead <= 0xF4 then Some(3)
    else None
  }

  /** The second byte is narrower behind some first bytes: no overlong forms, surrogates, or more than U+10FFFF. */
  predicate Continues(lead: byte, second: byte) {
    && IsTail(second)
    && (lead == 0xE0 ==> second >= 0xA0)
    && (lead == 0xED ==> second <= 0x9F)
    && (lead == 0xF0 ==> second >= 0x90)
    && (lead == 0xF4 ==> second <= 0x8F)
  }

  /** The length of the first unit: a character, or a maximal part of one, or a byte that starts none. */
  function UnitLength(s: bytes): (len: nat)
    requires s != []
    ensures 1 <= len <= |s|
    ensures forall i :: 1 <= i < len ==> IsTail(s[i])
  {
    var k := if Needs(s[0]).Some? then Needs(s[0]).value else 0;
    if k < 1 || |s| < 2 || !Continues(s[0], s[1]) then 1
    else if k < 2 || |s| < 3 || !IsTail(s[2]) then 2
    else if k < 3 || |s| < 4 || !IsTail(s[3]) then 3
    else 4
  }

  /** Whether the first unit is a character. */
  predicate Complete(s: bytes)
    requires s != []
  {
    Needs(s[0]) == Some(UnitLength(s) - 1)
  }

  function UnitText(s: bytes): (t: bytes)
    requires s != []
    ensures t != []
  {
    if Complete(s) then s[..UnitLength(s)] else REPLACEMENT
  }

  /** The text read from a byte string. */
  function Text(s: bytes): bytes {
    if s == [] then [] else UnitText(s) + Text(s[UnitLength(s)..])
  }

  predicate WellFormed(s: bytes) {
    s == [] || (Complete(s) && WellFormed(s[UnitLength(s)..]))
  }

  /** Units end at this offset. */
  predicate Boundary(s: bytes, k: nat) {
    k == 0 || (s != [] && UnitLength(s) <= k && Boundary(s[UnitLength(s)..], k - UnitLength(s)))
  }

  function Units(s: bytes): nat {
    if s == [] then 0 else 1 + Units(s[UnitLength(s)..])
  }

  // ---- characters ------------------------------------------------------------------

  /** The numbers that are characters: no surrogates, and at most U+10FFFF. */
  predicate IsScalar(c: nat) {
    c < 0xD800 || 0xE000 <= c < 0x11_0000
  }

  /** The UTF-8 form of a character: its bits, six to a byte from the second on. */
  function Scalar(c: nat): (u: bytes)
    requires IsScalar(c)
    ensures 1 <= |u| <= 4
  {
    if c < 0x80 then [c]
    else if c < 0x800 then [0xC0 + c / 64, 0x80 + c % 64]
    else if c < 0x1_0000 then [0xE0 + c / 4096, 0x80 + c / 64 % 64, 0x80 + c % 64]
    else [0xF0 + c / 262144, 0x80 + c / 4096 % 64, 0x80 + c / 64 % 64, 0x80 + c % 64]
  }

  /** What makes bytes the form of a character, or with fewer of them the beginning of one. */
  predicate Shaped(u: bytes) {
    && 1 <= |u| <= 4 && Needs(u[0]).Some? && |u| <= Needs(u[0]).value + 1
    && (|u| >= 2 ==> Continues(u[0], u[1])) && (|u| >= 3 ==> IsTail(u[2])) && (|u| >= 4 ==> IsTail(u[3]))
  }

  lemma ScalarShaped(c: nat)
    requires IsScalar(c)
    ensures Shaped(Scalar(c)) && Needs(Scalar(c)[0]) == Some(|Scalar(c)| - 1)
  {
  }

  lemma ShapedTwo(u: bytes) returns (c: nat)
    requires Shaped(u) && |u| == 2 && Needs(u[0]) == Some(1)
    ensures IsScalar(c) && Scalar(c) == u
  {
    var a: int, b: int := u[0], u[1];
    c := (a - 0xC0) * 64 + (b - 0x80);
    assert c / 64 == a - 0xC0 && c % 64 == b - 0x80;
  }

  lemma ShapedThree(u: bytes) returns (c: nat)
    requires Shaped(u) && |u| == 3 && Needs(u[0]) == Some(2)
    ensures IsScalar(c) && Scalar(c) == u
  {
    var a: int, b: int, d: int := u[0], u[1], u[2];
    c := (a - 0xE0) * 4096 + (b - 0x80) * 64 + (d - 0x80);
    assert c / 64 == (a - 0xE0) * 64 + (b - 0x80) && c % 64 == d - 0x80;
    assert c / 4096 == a - 0xE0 && c / 64 % 64 == b - 0x80;
  }

  lemma ShapedFour(u: bytes) returns (c: nat)
    requires Shaped(u) && |u| == 4 && Needs(u[0]) == Some(3)
    ensures IsScalar(c) && Scalar(c) == u
  {
    var a: int, b: int, d: int, e: int := u[0], u[1], u[2], u[3];
    c := (a - 0xF0) * 262144 + (b - 0x80) * 4096 + (d - 0x80) * 64 + (e - 0x80);
    assert c / 64 == (a - 0xF0) * 4096 + (b - 0x80) * 64 + (d - 0x80) && c % 64 == e - 0x80;
    assert c / 4096 == (a - 0xF0) * 64 + (b - 0x80) && c / 64 % 64 == d - 0x80;
    assert c / 262144 == a - 0xF0 && c / 4096 % 64 == b - 0x80;
  }

  lemma ShapedScalar(u: bytes) returns (c: nat)
    requires Shaped(u) && Needs(u[0]) == Some(|u| - 1)
    ensures IsScalar(c) && Scalar(c) == u
  {
    if |u| == 1 {
      c := u[0];
    } else if |u| == 2 {
      c := ShapedTwo(u);
    } else if |u| == 3 {
      c := ShapedThree(u);
    } else {
      c := ShapedFour(u);
    }
  }

  ghost predicate Begins(u: bytes, c: nat) {
    IsScalar(c) && u <= Scalar(c)
  }

  /** `u` is the form of a character or the beginning of one. */
  ghost predicate PartOfCharacter(u: bytes) {
    exists c :: Begins(u, c)
  }

  lemma PartIff(u: bytes)
    requires u != []
    ensures PartOfCharacter(u) <==> Shaped(u)
  {
    if PartOfCharacter(u) {
      var c :| Begins(u, c);
      ScalarShaped(c);
      assert forall i :: 0 <= i < |u| ==> u[i] == Scalar(c)[i];
    }
    if Shaped(u) {
      var c := Completed(u);
      assert Begins(u, c);
    }
  }

  lemma Completed(u: bytes) returns (c: nat)
    requires Shaped(u)
    ensures Begins(u, c)
    decreases 4 - |u|
  {
    if Needs(u[0]) == Some(|u| - 1) {
      c := ShapedScalar(u);
    } else if |u| == 1 {
      c := Completed(u + [if u[0] == 0xE0 then 0xA0 else if u[0] == 0xF0 then 0x90 else 0x80]);
    } else {
      c := Completed(u + [0x80]);
    }
  }

  lemma Replacement()
    ensures REPLACEMENT == Scalar(0xFFFD)
  {
  }

  /**
   The first unit of a byte string: complete exactly if the form of a character begins the string, and
   then that form; otherwise the longest beginning of a character there, or one byte that begins none, read as
   U+FFFD.
   */
  lemma UnitIs(s: bytes)
    requires s != []
    ensures Complete(s) <==> exists c :: IsScalar(c) && Scalar(c) <= s
    ensures forall c :: IsScalar(c) && Scalar(c) <= s ==> UnitLength(s) == |Scalar(c)|
    ensures forall j :: 2 <= j <= |s| ==> (PartOfCharacter(s[..j]) <==> j <= UnitLength(s))
    ensures UnitText(s) == if Complete(s) then s[..UnitLength(s)] else Scalar(0xFFFD)
  {
    Replacement();
    hide IsScalar, Scalar, Needs, Continues, IsTail;
    forall c | IsScalar(c) && Scalar(c) <= s
      ensures Complete(s) && UnitLength(s) == |Scalar(c)|
    {
      ScalarShaped(c);
      assert forall i :: 0 <= i < |Scalar(c)| ==> s[i] == Scalar(c)[i];
    }
    if Complete(s) {
      var c := ShapedScalar(s[..UnitLength(s)]);
    }
    forall j | 2 <= j <= |s|
      ensures PartOfCharacter(s[..j]) <==> j <= UnitLength(s)
    {
      PartIff(s[..j]);
    }
  }

  // ---- what is read is well formed, and what is well formed is kept ----------------

  lemma CompleteAlone(u: bytes, more: bytes)
    requires u != [] && Complete(u) && UnitLength(u) == |u|
    ensures Complete(u + more) && UnitLength(u + more) == |u|
  {
  }

  lemma UnitTextComplete(s: bytes)
    requires s != []
    ensures Complete(UnitText(s)) && UnitLength(UnitText(s)) == |UnitText(s)|
  {
  }

  lemma {:induction false} TextWellFormed(s: bytes)
    ensures WellFormed(Text(s))
  {
    hide Complete, UnitLength, UnitText;
    if s != [] {
      var u, rest := UnitText(s), Text(s[UnitLength(s)..]);
      TextWellFormed(s[UnitLength(s)..]);
      UnitTextComplete(s);
      CompleteAlone(u, rest);
      assert (u + rest)[|u|..] == rest;
    }
  }

  lemma {:induction false} WellFormedKept(s: bytes)
    requires WellFormed(s)
    ensures Text(s) == s
  {
    hide UnitLength;
    if s != [] {
      WellFormedKept(s[UnitLength(s)..]);
    }
  }

  /** Reading changes a byte string exactly when it is not well formed; what has been read is. */
  lemma KeptIffWellFormed(s: bytes)
    ensures Text(s) == s <==> WellFormed(s)
    ensures Text(Text(s)) == Text(s)
  {
    TextWellFormed(s);
    WellFormedKept(Text(s));
    if WellFormed(s) {
      WellFormedKept(s);
    }
  }

  // ---- counting characters ---------------------------------------------------------

  /** The bytes that are not continuation bytes. */
  function Leads(t: bytes): nat {
    if t == [] then 0 else (if IsTail(t[0]) then 0 else 1) + Leads(t[1..])
  }

  lemma {:induction false} LeadsConcat(a: bytes, b: bytes)
    ensures Leads(a + b) == Leads(a) + Leads(b)
  {
    if a == [] {
      assert a + b == b;
    } else {
      LeadsConcat(a[1..], b);
      assert (a + b)[1..] == a[1..] + b;
    }
  }

  lemma {:induction false} NoLeads(t: bytes)
    requires forall i :: 0 <= i < |t| ==> IsTail(t[i])
    ensures Leads(t) == 0
  {
    if t != [] {
      NoLeads(t[1..]);
    }
  }

  lemma UnitTextLeads(s: bytes)
    requires s != []
    ensures Leads(UnitText(s)) == 1
  {
    var u := UnitText(s);
    NoLeads(u[1..]);
  }

  lemma NoUnits()
    ensures Units([]) == 0
  {
  }

  /** The text holds one character for each unit. */
  lemma {:induction false} TextLeads(s: bytes)
    ensures Leads(Text(s)) == Units(s)
  {
    hide UnitText, UnitLength, Leads;
    if s != [] {
      UnitTextLeads(s);
      TextLeads(s[UnitLength(s)..]);
      LeadsConcat(UnitText(s), Text(s[UnitLength(s)..]));
    } else {
      NoLeads(Text(s));
    }
  }

  // ---- cutting a byte string -------------------------------------------------------

  /** A unit that ends within the first part is the same without the second. */
  lemma UnitWithin(a: bytes, b: bytes)
    requires a != []
    ensures UnitLength(a) <= UnitLength(a + b)
    ensures UnitLength(a + b) <= |a| ==> UnitLength(a) == UnitLength(a + b) && UnitText(a) == UnitText(a + b)
    ensures UnitLength(a + b) > |a| ==> UnitLength(a) == |a|
  {
    if UnitLength(a + b) <= |a| {
      assert (a + b)[..UnitLength(a + b)] == a[..UnitLength(a + b)];
    }
  }

  lemma {:induction false} TailsAlone(t: bytes, more: bytes)
    requires forall i :: 0 <= i < |t| ==> IsTail(t[i])
    ensures Units(t + more) == |t| + Units(more)
  {
    if t == [] {
      assert t + more == more;
    } else {
      TailsAlone(t[1..], more);
      assert UnitLength(t + more) == 1 && (t + more)[1..] == t[1..] + more;
    }
  }

  /** Cutting never makes units fewer, and leaves their number exactly when it cuts none of them. */
  lemma {:induction false} UnitsOfCut(a: bytes, b: bytes)
    ensures Units(a) + Units(b) >= Units(a + b)
    ensures Units(a) + Units(b) == Units(a + b) <==> Boundary(a + b, |a|)
    decreases |a|
  {
    hide UnitLength;
    if a == [] {
      assert a + b == b;
    } else {
      UnitWithin(a, b);
      var len := UnitLength(a + b);
      if len <= |a| {
        assert (a + b)[len..] == a[len..] + b;
        UnitsOfCut(a[len..], b);
      } else {
        StraddledUnit(a, b);
      }
    }
  }

  lemma StraddledUnit(a: bytes, b: bytes)
    requires a != [] && UnitLength(a + b) > |a|
    ensures Units(a) + Units(b) > Units(a + b) && !Boundary(a + b, |a|)
  {
    hide UnitLength;
    UnitWithin(a, b);
    var len := UnitLength(a + b);
    var t, more := b[..len - |a|], b[len - |a|..];
    assert forall i :: 0 <= i < |t| ==> t[i] == (a + b)[|a| + i];
    TailsAlone(t, more);
    assert t + more == b && (a + b)[len..] == more;
    assert a[|a|..] == [];
  }

  lemma {:induction false} TextOfCut(a: bytes, b: bytes)
    requires Boundary(a + b, |a|)
    ensures Text(a + b) == Text(a) + Text(b)
    decreases |a|
  {
    hide UnitLength, UnitText;
    if a == [] {
      assert a + b == b && [] + Text(b) == Text(b);
    } else {
      UnitWithin(a, b);
      var len := UnitLength(a + b);
      assert (a + b)[len..] == a[len..] + b;
      TextOfCut(a[len..], b);
    }
  }

  /** Reading the two parts by themselves gives the text of the whole exactly when the cut is between units. */
  lemma CutMattersIff(a: bytes, b: bytes)
    ensures Text(a) + Text(b) == Text(a + b) <==> Boundary(a + b, |a|)
  {
    hide Boundary, Units;
    if Boundary(a + b, |a|) {
      TextOfCut(a, b);
    }
    TextLeads(a);
    TextLeads(b);
    TextLeads(a + b);
    LeadsConcat(Text(a), Text(b));
    UnitsOfCut(a, b);
  }

  lemma {:induction false} ConcatWellFormed(a: bytes, b: bytes)
    requires WellFormed(a) && WellFormed(b)
    ensures WellFormed(a + b)
  {
    if a == [] {
      assert a + b == b;
    } else {
      var len := UnitLength(a);
      assert (a + b)[len..] == a[len..] + b;
      ConcatWellFormed(a[len..], b);
      UnitKept(a, b);
    }
  }

  lemma UnitKept(a: bytes, b: bytes)
    requires a != [] && Complete(a)
    ensures Complete(a + b) && UnitLength(a + b) == UnitLength(a)
  {
  }

  /** A whole that is well formed is cut between its units exactly when both parts are well formed. */
  lemma {:induction false} WellFormedCut(a: bytes, b: bytes)
    requires WellFormed(a + b)
    ensures Boundary(a + b, |a|) <==> WellFormed(a) && WellFormed(b)
    decreases |a|
  {
    hide UnitLength;
    if a == [] {
      assert a + b == b;
    } else {
      UnitWithin(a, b);
      var len := UnitLength(a + b);
      if len <= |a| {
        assert (a + b)[len..] == a[len..] + b;
        WellFormedCut(a[len..], b);
      }
    }
  }
}
