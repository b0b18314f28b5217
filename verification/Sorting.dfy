/** The stable sort that the language's own array sort is specified to be. */
module Sorting {

  function Insert<T>(x: T, s: seq<T>, key: T -> int): seq<T> {
    if s == [] || key(x) <= key(s[0]) then [x] + s else [s[0]] + Insert(x, s[1..], key)
  }

  function Sort<T>(s: seq<T>, key: T -> int): seq<T> {
    if s == [] then [] else Insert(s[0], Sort(s[1..], key), key)
  }

  predicate Sorted<T>(s: seq<T>, key: T -> int) {
    forall i, j :: 0 <= i < j < |s| ==> key(s[i]) <= key(s[j])
  }

  /** The elements with one key, in order. */
  function WithKey<T>(s: seq<T>, key: T -> int, k: int): seq<T> {
    if s == [] then [] else (if key(s[0]) == k then [s[0]] else []) + WithKey(s[1..], key, k)
  }

  /** `t` is in order and lists the elements of `s`, those with equal keys as `s` lists them. */
  ghost predicate StablySorts<T>(t: seq<T>, s: seq<T>, key: T -> int) {
    Sorted(t, key) && forall k :: WithKey(t, key, k) == WithKey(s, key, k)
  }

  lemma {:induction false} InsertSame<T>(x: T, s: seq<T>, key: T -> int)
    ensures multiset(Insert(x, s, key)) == multiset{x} + multiset(s)
    decreases s
  {
    if s != [] && key(x) > key(s[0]) {
      InsertSame(x, s[1..], key);
      assert s == [s[0]] + s[1..];
    }
  }

  lemma {:induction false} InsertAtLeast<T>(x: T, s: seq<T>, key: T -> int, low: int)
    requires low <= key(x) && forall i :: 0 <= i < |s| ==> low <= key(s[i])
    ensures forall i :: 0 <= i < |Insert(x, s, key)| ==> low <= key(Insert(x, s, key)[i])
    decreases s
  {
    if s != [] && key(x) > key(s[0]) {
      InsertAtLeast(x, s[1..], key, low);
    }
  }

  lemma {:induction false} InsertSorted<T>(x: T, s: seq<T>, key: T -> int)
    requires Sorted(s, key)
    ensures Sorted(Insert(x, s, key), key)
    decreases s
  {
    if s != [] && key(x) > key(s[0]) {
      InsertSorted(x, s[1..], key);
      InsertAtLeast(x, s[1..], key, key(s[0]));
    }
  }

  lemma {:induction false} InsertWithKey<T>(x: T, s: seq<T>, key: T -> int, k: int)
    requires Sorted(s, key)
    ensures WithKey(Insert(x, s, key), key, k) == WithKey([x] + s, key, k)
    decreases s
  {
    if s == [] || key(x) <= key(s[0]) {
    } else {
      InsertWithKey(x, s[1..], key, k);
      var t := Insert(x, s[1..], key);
      assert ([s[0]] + t)[1..] == t && ([x] + s)[1..] == s && ([x] + s[1..])[1..] == s[1..];
    }
  }

  lemma {:induction false} SortStable<T>(s: seq<T>, key: T -> int)
    ensures StablySorts(Sort(s, key), s, key) && multiset(Sort(s, key)) == multiset(s)
    decreases s
  {
    if s != [] {
      SortStable(s[1..], key);
      var t := Sort(s[1..], key);
      InsertSorted(s[0], t, key);
      InsertSame(s[0], t, key);
      assert s == [s[0]] + s[1..];
      forall k
        ensures WithKey(Sort(s, key), key, k) == WithKey(s, key, k)
      {
        InsertWithKey(s[0], t, key, k);
        assert ([s[0]] + t)[1..] == t;
      }
    }
  }

  lemma {:induction false} FirstOfKey<T>(s: seq<T>, key: T -> int, k: int)
    ensures WithKey(s, key, k) == [] <==> forall i :: 0 <= i < |s| ==> key(s[i]) != k
    ensures WithKey(s, key, k) != [] ==> key(WithKey(s, key, k)[0]) == k
  {
    if s != [] {
      FirstOfKey(s[1..], key, k);
      assert forall i :: 1 <= i < |s| ==> s[i] == s[1..][i - 1];
    }
  }

  lemma TailWithKey<T>(s: seq<T>, key: T -> int, k: int)
    requires s != []
    ensures WithKey(s[1..], key, k) == if key(s[0]) == k then WithKey(s, key, k)[1..] else WithKey(s, key, k)
  {
  }

  /** Only one list is in order and keeps the order of equal keys. */
  lemma {:induction false} OnlyOne<T>(t: seq<T>, u: seq<T>, key: T -> int)
    requires Sorted(t, key) && Sorted(u, key) && forall k :: WithKey(t, key, k) == WithKey(u, key, k)
    ensures t == u
    decreases t
  {
    if t == [] || u == [] {
      if t != [] {
        FirstOfKey(t, key, key(t[0]));
      }
      if u != [] {
        FirstOfKey(u, key, key(u[0]));
      }
    } else {
      SameKeys(t, u, key);
      SameKeys(u, t, key);
      assert WithKey(t, key, key(t[0]))[0] == t[0] && WithKey(u, key, key(u[0]))[0] == u[0];
      assert t[0] == u[0];
      forall k
        ensures WithKey(t[1..], key, k) == WithKey(u[1..], key, k)
      {
        assert WithKey(t, key, k) == WithKey(u, key, k);
        TailWithKey(t, key, k);
        TailWithKey(u, key, k);
      }
      OnlyOne(t[1..], u[1..], key);
    }
  }

  lemma SameKeys<T>(t: seq<T>, u: seq<T>, key: T -> int)
    requires t != [] && u != [] && Sorted(u, key) && forall k :: WithKey(t, key, k) == WithKey(u, key, k)
    ensures key(u[0]) <= key(t[0])
  {
    FirstOfKey(t, key, key(t[0]));
    FirstOfKey(u, key, key(t[0]));
    var i :| 0 <= i < |u| && key(u[i]) == key(t[0]);
  }

  lemma SortedStays<T>(s: seq<T>, key: T -> int)
    requires Sorted(s, key)
    ensures Sort(s, key) == s
  {
    SortIsOnly(s, s, key);
  }

  lemma SortIsOnly<T>(s: seq<T>, t: seq<T>, key: T -> int)
    ensures StablySorts(t, s, key) <==> t == Sort(s, key)
  {
    SortStable(s, key);
    if StablySorts(t, s, key) {
      OnlyOne(t, Sort(s, key), key);
    }
  }
}
