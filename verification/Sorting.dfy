/** Stable sorting by a text key, in an order the caller gives. */
module Sorting {

  type Order = (string, string) -> bool

  ghost predicate IsTotal(before: Order) {
    && (forall a :: !before(a, a))
    && (forall a, b, c :: before(a, b) && before(b, c) ==> before(a, c))
    && (forall a, b :: a != b ==> before(a, b) || before(b, a))
  }

  /** `x` put behind everything it is not to stand before. */
  function Insert<T>(s: seq<T>, x: T, key: T -> string, before: Order): (r: seq<T>)
    ensures multiset(r) == multiset(s) + multiset{x}
  {
    if s == [] then [x]
    else
      var last := s[|s| - 1];
      assert s == s[..|s| - 1] + [last];
      if before(key(x), key(last)) then Insert(s[..|s| - 1], x, key, before) + [last] else s + [x]
  }

  function Sort<T>(s: seq<T>, key: T -> string, before: Order): (r: seq<T>)
    ensures multiset(r) == multiset(s)
  {
    if s == [] then []
    else
      assert s == s[..|s| - 1] + [s[|s| - 1]];
      Insert(Sort(s[..|s| - 1], key, before), s[|s| - 1], key, before)
  }

  function Keys<T>(s: seq<T>, key: T -> string): (r: seq<string>)
    ensures |r| == |s|
  {
    seq(|s|, i requires 0 <= i < |s| => key(s[i]))
  }

  lemma KeyAt<T>(s: seq<T>, key: T -> string, i: nat)
    requires i < |s|
    ensures Keys(s, key)[i] == key(s[i])
  {
  }

  /** No key stands behind one it should stand before. */
  ghost predicate Ascending(keys: seq<string>, before: Order) {
    forall i, j :: 0 <= i < j < |keys| ==> !before(keys[j], keys[i])
  }

  lemma SameMembers<T>(a: seq<T>, b: seq<T>)
    requires multiset(a) == multiset(b)
    ensures |a| == |b| && forall x :: x in a <==> x in b
  {
    assert |multiset(a)| == |multiset(b)|;
    forall x
      ensures x in a <==> x in b
    {
      assert x in a <==> multiset(a)[x] > 0;
      assert x in b <==> multiset(b)[x] > 0;
    }
  }

  lemma AscendingThen<T>(s: seq<T>, x: T, key: T -> string, before: Order)
    requires Ascending(Keys(s, key), before) && forall m :: m in s ==> !before(key(x), key(m))
    ensures Ascending(Keys(s + [x], key), before)
  {
    var ks, all := Keys(s, key), Keys(s + [x], key);
    forall i, j | 0 <= i < j < |all|
      ensures !before(all[j], all[i])
    {
      assert all[i] == ks[i] && s[i] in s;
      if j < |s| { assert all[j] == ks[j]; }
    }
  }

  lemma NoneBefore<T>(s: seq<T>, x: T, key: T -> string, before: Order, m: T)
    requires IsTotal(before) && Ascending(Keys(s, key), before) && s != [] && m in s
    ensures !before(key(s[|s| - 1]), key(m))
    ensures !before(key(x), key(s[|s| - 1])) ==> !before(key(x), key(m))
  {
    var k :| 0 <= k < |s| && s[k] == m;
    assert Keys(s, key)[k] == key(m) && Keys(s, key)[|s| - 1] == key(s[|s| - 1]);
  }

  lemma OneMore<T>(t: seq<T>, s: seq<T>, x: T, m: T)
    requires multiset(t) == multiset(s) + multiset{x}
    ensures m in t <==> m in s || m == x
  {
    assert m in t <==> multiset(t)[m] > 0;
    assert m in s <==> multiset(s)[m] > 0;
  }

  lemma {:induction false} InsertAscends<T>(s: seq<T>, x: T, key: T -> string, before: Order)
    requires IsTotal(before) && Ascending(Keys(s, key), before)
    ensures Ascending(Keys(Insert(s, x, key, before), key), before)
  {
    if s == [] {
    } else {
      var front, last := s[..|s| - 1], s[|s| - 1];
      if before(key(x), key(last)) {
        assert Keys(front, key) == Keys(s, key)[..|s| - 1];
        assert s == front + [last];
        InsertAscends(front, x, key, before);
        var t := Insert(front, x, key, before);
        forall m | m in t
          ensures !before(key(last), key(m))
        {
          OneMore(t, front, x, m);
          if m != x {
            var k :| 0 <= k < |front| && front[k] == m;
            assert s[k] == m;
            NoneBefore(s, x, key, before, m);
          }
        }
        AscendingThen(t, last, key, before);
      } else {
        forall m | m in s
          ensures !before(key(x), key(m))
        {
          NoneBefore(s, x, key, before, m);
        }
        AscendingThen(s, x, key, before);
      }
    }
  }

  lemma {:induction false} SortAscends<T>(s: seq<T>, key: T -> string, before: Order)
    requires IsTotal(before)
    ensures Ascending(Keys(Sort(s, key, before), key), before)
  {
    if s == [] {
    } else {
      SortAscends(s[..|s| - 1], key, before);
      InsertAscends(Sort(s[..|s| - 1], key, before), s[|s| - 1], key, before);
    }
  }

  lemma FirstOut<T>(a: seq<T>)
    requires a != []
    ensures multiset(a[1..]) == multiset(a) - multiset{a[0]}
  {
    assert a == [a[0]] + a[1..];
  }

  lemma FirstIsLeast(a: seq<string>, k: string, before: Order)
    requires Ascending(a, before) && k in a
    ensures k == a[0] || !before(k, a[0])
  {
    var i :| 0 <= i < |a| && a[i] == k;
  }

  /** Two ascending lists of the same keys are one list. */
  lemma {:induction false} AscendingIsOne(a: seq<string>, b: seq<string>, before: Order)
    requires IsTotal(before) && Ascending(a, before) && Ascending(b, before) && multiset(a) == multiset(b)
    ensures a == b
    decreases |a|
  {
    SameMembers(a, b);
    if a == [] {
    } else {
      assert a[0] in b && b[0] in a;
      FirstIsLeast(b, a[0], before);
      FirstIsLeast(a, b[0], before);
      assert a[0] == b[0];
      FirstOut(a);
      FirstOut(b);
      AscendingTail(a, before);
      AscendingTail(b, before);
      AscendingIsOne(a[1..], b[1..], before);
    }
  }

  lemma AscendingTail(a: seq<string>, before: Order)
    requires Ascending(a, before) && a != []
    ensures Ascending(a[1..], before)
  {
  }

  lemma KeysWithout<T>(s: seq<T>, i: nat, key: T -> string)
    requires i < |s|
    ensures multiset(s[..i] + s[i + 1..]) == multiset(s) - multiset{s[i]}
    ensures multiset(Keys(s, key)) == multiset(Keys(s[..i] + s[i + 1..], key)) + multiset{key(s[i])}
  {
    var rest := s[..i] + s[i + 1..];
    assert s == s[..i] + [s[i]] + s[i + 1..];
    var before, after := Keys(s[..i], key), Keys(s[i + 1..], key);
    assert Keys(s, key) == before + [key(s[i])] + after;
    assert Keys(rest, key) == before + after;
  }

  lemma Place<T>(a: seq<T>, b: seq<T>) returns (j: nat)
    requires multiset(a) == multiset(b) && a != []
    ensures j < |b| && b[j] == a[0]
  {
    SameMembers(a, b);
    assert a[0] in a;
    j :| 0 <= j < |b| && b[j] == a[0];
  }

  lemma {:induction false} KeysOfMultiset<T>(a: seq<T>, b: seq<T>, key: T -> string)
    requires multiset(a) == multiset(b)
    ensures multiset(Keys(a, key)) == multiset(Keys(b, key))
    decreases |a|
  {
    hide Keys;
    SameMembers(a, b);
    if a == [] {
      assert b == [];
    } else {
      var j := Place(a, b);
      var rest, more, x := a[1..], b[..j] + b[j + 1..], a[0];
      assert a[..0] + a[0 + 1..] == rest;
      KeysWithout(a, 0, key);
      KeysWithout(b, j, key);
      KeysOfMultiset(rest, more, key);
    }
  }

  /** The keys of a sorted list depend on nothing but which keys there are. */
  lemma SortedKeysAreOne<T>(a: seq<T>, b: seq<T>, key: T -> string, before: Order)
    requires IsTotal(before) && multiset(Keys(a, key)) == multiset(Keys(b, key))
    ensures Keys(Sort(a, key, before), key) == Keys(Sort(b, key, before), key)
  {
    var s, t := Sort(a, key, before), Sort(b, key, before);
    SortAscends(a, key, before);
    SortAscends(b, key, before);
    KeysOfMultiset(s, a, key);
    KeysOfMultiset(t, b, key);
    AscendingIsOne(Keys(s, key), Keys(t, key), before);
  }

  /** Where a key names one element, the order the elements came in is forgotten. */
  lemma SortForgetsOrder<T>(a: seq<T>, b: seq<T>, key: T -> string, before: Order)
    requires IsTotal(before) && multiset(a) == multiset(b)
    requires forall x, y :: x in a && y in a && key(x) == key(y) ==> x == y
    ensures Sort(a, key, before) == Sort(b, key, before)
  {
    hide IsTotal;
    hide Sort;
    var s, t := Sort(a, key, before), Sort(b, key, before);
    KeysOfMultiset(a, b, key);
    SortedKeysAreOne(a, b, key, before);
    SameMembers(s, a);
    SameMembers(t, a);
    forall i | 0 <= i < |s|
      ensures s[i] == t[i]
    {
      assert s[i] in s && t[i] in t;
      assert key(s[i]) == Keys(s, key)[i] == Keys(t, key)[i] == key(t[i]);
    }
  }

  /** `x` after the elements of a key, if it has that key. */
  function IfOfKey<T>(s: seq<T>, x: T, key: T -> string, k: string): seq<T> {
    if key(x) == k then s + [x] else s
  }

  /** The elements of one key, in order. */
  function OfKey<T>(s: seq<T>, key: T -> string, k: string): seq<T> {
    if s == [] then [] else IfOfKey(OfKey(s[..|s| - 1], key, k), s[|s| - 1], key, k)
  }

  lemma {:induction false} NoneOfKey<T>(s: seq<T>, key: T -> string, k: string)
    requires forall m :: m in s ==> key(m) != k
    ensures OfKey(s, key, k) == []
  {
    if s == [] {
    } else {
      assert s == s[..|s| - 1] + [s[|s| - 1]];
      NoneOfKey(s[..|s| - 1], key, k);
    }
  }

  lemma OfKeyThen<T>(s: seq<T>, x: T, key: T -> string, k: string)
    ensures OfKey(s + [x], key, k) == IfOfKey(OfKey(s, key, k), x, key, k)
  {
    assert (s + [x])[..|s + [x]| - 1] == s;
  }

  lemma {:induction false} InOfKey<T>(s: seq<T>, key: T -> string, k: string, x: T)
    ensures x in OfKey(s, key, k) <==> x in s && key(x) == k
    decreases |s|
  {
    if s == [] {
    } else {
      InOfKey(s[..|s| - 1], key, k, x);
      assert s == s[..|s| - 1] + [s[|s| - 1]];
    }
  }

  /** Elements of different keys may change places. */
  lemma InEitherOrder<T>(s: seq<T>, x: T, y: T, key: T -> string, k: string)
    requires key(x) != key(y)
    ensures OfKey(s + [x] + [y], key, k) == OfKey(s + [y] + [x], key, k)
  {
    hide OfKey;
    OfKeyThen(s, x, key, k);
    OfKeyThen(s, y, key, k);
    OfKeyThen(s + [x], y, key, k);
    OfKeyThen(s + [y], x, key, k);
  }

  lemma {:induction false} InsertIsStable<T>(s: seq<T>, x: T, key: T -> string, before: Order, k: string)
    requires IsTotal(before)
    ensures OfKey(Insert(s, x, key, before), key, k) == OfKey(s + [x], key, k)
  {
    assert s == [] ==> [] + [x] == [x];
    if s != [] && before(key(x), key(s[|s| - 1])) {
      var front, last := s[..|s| - 1], s[|s| - 1];
      InsertIsStable(front, x, key, before, k);
      OfKeyThen(front + [x], last, key, k);
      OfKeyThen(Insert(front, x, key, before), last, key, k);
      InEitherOrder(front, x, last, key, k);
      assert s == front + [last];
      hide OfKey;
    }
  }

  /** Elements of one key keep the order they came in. */
  lemma {:induction false} SortIsStable<T>(s: seq<T>, key: T -> string, before: Order, k: string)
    requires IsTotal(before)
    ensures OfKey(Sort(s, key, before), key, k) == OfKey(s, key, k)
  {
    if s == [] {
    } else {
      var front, last := s[..|s| - 1], s[|s| - 1];
      SortIsStable(front, key, before, k);
      InsertIsStable(Sort(front, key, before), last, key, before, k);
      OfKeyThen(Sort(front, key, before), last, key, k);
    }
  }

  /** The last key of an ascending list is a greatest one. */
  lemma LastIsGreatest<T>(s: seq<T>, key: T -> string, before: Order, k: string)
    requires IsTotal(before) && Ascending(Keys(s, key), before) && s != [] && OfKey(s, key, k) != []
    ensures !before(key(s[|s| - 1]), k)
  {
    SomeOfKey(s, key, k);
    hide OfKey;
    var i :| 0 <= i < |s| && key(s[i]) == k;
    assert Keys(s, key)[i] == k && Keys(s, key)[|s| - 1] == key(s[|s| - 1]);
  }

  lemma LastOfKey<T>(s: seq<T>, x: T, k: string, key: T -> string)
    requires s != [] && s[|s| - 1] == x && key(x) == k
    ensures var same := OfKey(s, key, k); same != [] && same[|same| - 1] == x
  {
  }

  lemma WithoutLast<T>(a: seq<T>, b: seq<T>, x: T, key: T -> string, k: string)
    requires IfOfKey(a, x, key, k) == IfOfKey(b, x, key, k)
    ensures a == b
  {
    if key(x) == k {
      assert a == (a + [x])[..|a|] && b == (b + [x])[..|b|];
    }
  }

  lemma SomeOfKey<T>(s: seq<T>, key: T -> string, k: string)
    requires OfKey(s, key, k) != []
    ensures exists i :: 0 <= i < |s| && key(s[i]) == k
  {
    if forall i :: 0 <= i < |s| ==> key(s[i]) != k { NoneOfKey(s, key, k); }
  }

  lemma AscendingFront<T>(s: seq<T>, key: T -> string, before: Order)
    requires s != [] && Ascending(Keys(s, key), before)
    ensures Ascending(Keys(s[..|s| - 1], key), before)
  {
    var front := s[..|s| - 1];
    forall i, j | 0 <= i < j < |front|
      ensures !before(Keys(front, key)[j], Keys(front, key)[i])
    {
      assert Keys(front, key)[i] == Keys(s, key)[i] && Keys(front, key)[j] == Keys(s, key)[j];
    }
  }

  lemma BothAreEmpty<T>(s: seq<T>, t: seq<T>, key: T -> string)
    requires s == [] || t == []
    requires forall k :: OfKey(s, key, k) == OfKey(t, key, k)
    ensures s == t
  {
    if s != [] { LastOfKey(s, s[|s| - 1], key(s[|s| - 1]), key); }
    if t != [] { LastOfKey(t, t[|t| - 1], key(t[|t| - 1]), key); }
  }

  /** Two lists sorted by key, with the same elements of each key in the same order, are one list. */
  lemma {:induction false} SortedByKeyIsOne<T>(s: seq<T>, t: seq<T>, key: T -> string, before: Order)
    requires IsTotal(before) && Ascending(Keys(s, key), before) && Ascending(Keys(t, key), before)
    requires forall k :: OfKey(s, key, k) == OfKey(t, key, k)
    ensures s == t
    decreases |s|
  {
    if s == [] || t == [] {
      BothAreEmpty(s, t, key);
    } else {
      var x, y := s[|s| - 1], t[|t| - 1];
      SameLast(s, t, x, y, key(x), key(y), key, before);
      var front, rest := s[..|s| - 1], t[..|t| - 1];
      assert s == front + [x] && t == rest + [x];
      forall k
        ensures OfKey(front, key, k) == OfKey(rest, key, k)
      {
        assert OfKey(s, key, k) == OfKey(t, key, k);
        OfKeyThen(front, x, key, k);
        OfKeyThen(rest, x, key, k);
        WithoutLast(OfKey(front, key, k), OfKey(rest, key, k), x, key, k);
      }
      AscendingFront(s, key, before);
      AscendingFront(t, key, before);
      SortedByKeyIsOne(front, rest, key, before);
    }
  }

  lemma SameKeyLast<T>(s: seq<T>, t: seq<T>, x: string, y: string, key: T -> string, before: Order)
    requires IsTotal(before) && Ascending(Keys(s, key), before) && Ascending(Keys(t, key), before) && s != [] && t != []
    requires key(s[|s| - 1]) == x && key(t[|t| - 1]) == y
    requires OfKey(s, key, y) != [] && OfKey(t, key, x) != []
    ensures x == y
  {
    hide *;
    LastIsGreatest(s, key, before, y);
    LastIsGreatest(t, key, before, x);
    NeitherBefore(x, y, before);
  }

  lemma SameLast<T>(s: seq<T>, t: seq<T>, x: T, y: T, kx: string, ky: string, key: T -> string, before: Order)
    requires IsTotal(before) && Ascending(Keys(s, key), before) && Ascending(Keys(t, key), before) && s != [] && t != []
    requires s[|s| - 1] == x && t[|t| - 1] == y && key(x) == kx && key(y) == ky
    requires OfKey(s, key, kx) == OfKey(t, key, kx) && OfKey(s, key, ky) == OfKey(t, key, ky)
    ensures x == y
  {
    hide *;
    LastOfKey(s, x, kx, key);
    LastOfKey(t, y, ky, key);
    SameKeyLast(s, t, kx, ky, key, before);
  }

  lemma NeitherBefore(a: string, b: string, before: Order)
    requires IsTotal(before) && !before(a, b) && !before(b, a)
    ensures a == b
  {
  }

  /** A name added to a strictly sorted list of names, unless it is there. */
  method InsertDistinct(names: seq<string>, name: string, before: Order) returns (r: seq<string>)
    requires IsTotal(before) && forall i, j :: 0 <= i < j < |names| ==> before(names[i], names[j])
    ensures forall i, j :: 0 <= i < j < |r| ==> before(r[i], r[j])
    ensures forall x :: x in r <==> x in names || x == name
  {
    var k := 0;
    while k < |names| && before(names[k], name)
      invariant k <= |names|
      invariant forall i :: 0 <= i < k ==> before(names[i], name)
    {
      k := k + 1;
    }
    if k < |names| && names[k] == name { return names; }
    r := names[..k] + [name] + names[k..];
    assert names == names[..k] + names[k..];
    assert k < |names| ==> before(name, names[k]);
    forall i, j | 0 <= i < j < |r|
      ensures before(r[i], r[j])
    {
      if i == k && j > k + 1 { assert before(names[k], names[j - 1]); }
    }
  }
}
