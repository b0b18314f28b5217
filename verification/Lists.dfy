/** Filtering, mapping and counting on sequences. */
module Lists {

  function Keep<T>(s: seq<T>, p: T -> bool): seq<T> {
    if s == [] then [] else (if p(s[0]) then [s[0]] else []) + Keep(s[1..], p)
  }

  function Each<T>(s: seq<T>, f: T -> T): (r: seq<T>)
    ensures |r| == |s| && forall i :: 0 <= i < |s| ==> r[i] == f(s[i])
  {
    seq(|s|, i requires 0 <= i < |s| => f(s[i]))
  }

  function Count<T>(s: seq<T>, p: T -> bool): (n: nat)
    ensures n <= |s|
  {
    if s == [] then 0 else (if p(s[0]) then 1 else 0) + Count(s[1..], p)
  }

  predicate NoDup<T(==)>(s: seq<T>) {
    forall i, j :: 0 <= i < j < |s| ==> s[i] != s[j]
  }

  lemma {:induction false} KeepHas<T>(s: seq<T>, p: T -> bool, x: T)
    ensures x in Keep(s, p) <==> x in s && p(x)
    decreases s
  {
    if s != [] {
      KeepHas(s[1..], p, x);
      assert x in s <==> x == s[0] || x in s[1..];
    }
  }

  lemma {:induction false} KeepSame<T(!new)>(s: seq<T>, p: T -> bool, q: T -> bool)
    requires forall x :: p(x) == q(x)
    ensures Keep(s, p) == Keep(s, q)
    decreases s
  {
    if s != [] {
      KeepSame(s[1..], p, q);
    }
  }

  /** Only the elements of the list matter to a filter. */
  lemma {:induction false} KeepAlike<T(!new)>(s: seq<T>, p: T -> bool, q: T -> bool)
    requires forall x :: x in s ==> p(x) == q(x)
    ensures Keep(s, p) == Keep(s, q)
    decreases s
  {
    if s != [] {
      assert s[0] in s && forall x :: x in s[1..] ==> x in s;
      KeepAlike(s[1..], p, q);
    }
  }

  lemma {:induction false} KeepNoDup<T>(s: seq<T>, p: T -> bool)
    requires NoDup(s)
    ensures NoDup(Keep(s, p))
    decreases s
  {
    if s != [] {
      KeepNoDup(s[1..], p);
      KeepHas(s[1..], p, s[0]);
      assert s[0] !in s[1..];
    }
  }

  /** Filtering keeps what holds between an element and every later one. */
  lemma {:induction false} KeepPairs<T(!new)>(s: seq<T>, p: T -> bool, r: (T, T) -> bool)
    requires forall i, j :: 0 <= i < j < |s| ==> r(s[i], s[j])
    ensures forall i, j :: 0 <= i < j < |Keep(s, p)| ==> r(Keep(s, p)[i], Keep(s, p)[j])
    decreases s
  {
    if s != [] {
      KeepPairs(s[1..], p, r);
      forall x | x in Keep(s[1..], p)
        ensures r(s[0], x)
      {
        KeepHas(s[1..], p, x);
        var j :| 0 <= j < |s[1..]| && s[1..][j] == x;
        assert s[j + 1] == x;
      }
    }
  }

  lemma {:induction false} KeepMore<T>(s: seq<T>, x: T, p: T -> bool)
    ensures Keep(s + [x], p) == Keep(s, p) + (if p(x) then [x] else [])
    decreases s
  {
    if s != [] {
      assert (s + [x])[1..] == s[1..] + [x];
      KeepMore(s[1..], x, p);
    }
  }

  lemma {:induction false} CountConcat<T>(a: seq<T>, b: seq<T>, p: T -> bool)
    ensures Count(a + b, p) == Count(a, p) + Count(b, p)
    decreases a
  {
    if a == [] {
      assert a + b == b;
    } else {
      assert (a + b)[1..] == a[1..] + b;
      CountConcat(a[1..], b, p);
    }
  }

  lemma {:induction false} CountNone<T>(s: seq<T>, p: T -> bool)
    requires forall i :: 0 <= i < |s| ==> !p(s[i])
    ensures Count(s, p) == 0
    decreases s
  {
    if s != [] {
      CountNone(s[1..], p);
    }
  }

  /** Filtering and mapping commute when the map leaves the test alone. */
  lemma {:induction false} KeepEach<T>(s: seq<T>, p: T -> bool, f: T -> T)
    requires forall x :: x in s ==> p(f(x)) == p(x)
    ensures Keep(Each(s, f), p) == Each(Keep(s, p), f)
    decreases s
  {
    if s != [] {
      KeepEach(s[1..], p, f);
      assert Each(s, f)[1..] == Each(s[1..], f);
      assert s[0] in s;
    }
  }

  lemma EachConcat<T>(a: seq<T>, b: seq<T>, f: T -> T)
    ensures Each(a + b, f) == Each(a, f) + Each(b, f)
  {
  }

  lemma EachSame<T>(s: seq<T>, f: T -> T)
    requires forall i :: 0 <= i < |s| ==> f(s[i]) == s[i]
    ensures Each(s, f) == s
  {
  }

  lemma {:induction false} OnlyOnce<T>(s: seq<T>, x: T)
    requires NoDup(s)
    ensures multiset(s)[x] <= 1
    decreases s
  {
    if s != [] {
      OnlyOnce(s[1..], x);
      assert s == [s[0]] + s[1..];
      assert s[0] !in s[1..];
    }
  }

  lemma SamePlaces<T>(s: seq<T>, t: seq<T>)
    requires multiset(s) == multiset(t) && NoDup(s)
    ensures NoDup(t)
  {
    forall i, j | 0 <= i < j < |t|
      ensures t[i] != t[j]
    {
      OnlyOnce(s, t[i]);
      if t[i] == t[j] {
        Twice(t, i, j);
      }
    }
  }

  lemma Twice<T>(t: seq<T>, i: nat, j: nat)
    requires i < j < |t| && t[i] == t[j]
    ensures multiset(t)[t[i]] >= 2
  {
    assert t == t[..i] + [t[i]] + t[i + 1..];
    assert t[j] == t[i + 1..][j - i - 1];
    assert multiset(t) == multiset(t[..i]) + multiset{t[i]} + multiset(t[i + 1..]);
    assert t[i] in multiset(t[i + 1..]);
  }

  lemma SameSize<T>(s: seq<T>, t: seq<T>)
    requires multiset(s) == multiset(t)
    ensures |s| == |t|
  {
    assert |multiset(s)| == |s| && |multiset(t)| == |t|;
  }

  lemma WithoutOne<T>(s: seq<T>, t: seq<T>, k: nat)
    requires s != [] && k < |t| && t[k] == s[0] && multiset(s) == multiset(t)
    ensures multiset(s[1..]) == multiset(t[..k] + t[k + 1..])
  {
    assert s == [s[0]] + s[1..];
    assert t == t[..k] + [t[k]] + t[k + 1..];
    var a, b := multiset(s[1..]), multiset(t[..k] + t[k + 1..]);
    assert multiset(s) == multiset{s[0]} + a;
    assert multiset(t) == multiset{s[0]} + b;
    assert a == multiset(s) - multiset{s[0]} && b == multiset(t) - multiset{s[0]};
  }

  lemma CountAround<T>(a: seq<T>, x: T, b: seq<T>, p: T -> bool)
    ensures Count(a + ([x] + b), p) == Count(a + b, p) + (if p(x) then 1 else 0)
  {
    hide Count;
    CountFirst(x, b, p);
    CountConcat(a, [x] + b, p);
    CountConcat(a, b, p);
  }

  lemma Around<T>(t: seq<T>, k: nat)
    requires k < |t|
    ensures t == t[..k] + ([t[k]] + t[k + 1..])
  {
  }

  lemma CountFirst<T>(x: T, b: seq<T>, p: T -> bool)
    ensures Count([x] + b, p) == (if p(x) then 1 else 0) + Count(b, p)
  {
    assert ([x] + b)[1..] == b;
  }

  lemma {:induction false} CountPermuted<T>(s: seq<T>, t: seq<T>, p: T -> bool)
    requires multiset(s) == multiset(t)
    ensures Count(s, p) == Count(t, p)
    decreases s
  {
    if s == [] {
      SameSize(s, t);
    } else {
      assert s[0] in multiset(t);
      var k :| 0 <= k < |t| && t[k] == s[0];
      WithoutOne(s, t, k);
      CountPermuted(s[1..], t[..k] + t[k + 1..], p);
      Around(t, k);
      CountAround(t[..k], t[k], t[k + 1..], p);
    }
  }

  lemma {:induction false} CountKept<T(!new)>(s: seq<T>, p: T -> bool, q: T -> bool)
    requires forall x :: p(x) == q(x)
    ensures |Keep(s, p)| == Count(s, q)
    decreases s
  {
    if s != [] {
      CountKept(s[1..], p, q);
    }
  }

  lemma {:induction false} CountKeptToo<T(!new)>(s: seq<T>, p: T -> bool, q: T -> bool, both: T -> bool)
    requires forall x :: both(x) == (p(x) && q(x))
    ensures Count(Keep(s, p), q) == Count(s, both)
    decreases s
  {
    if s != [] {
      CountKeptToo(s[1..], p, q, both);
      CountConcat(if p(s[0]) then [s[0]] else [], Keep(s[1..], p), q);
    }
  }
}
