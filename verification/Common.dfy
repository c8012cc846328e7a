/** Shared result types, and lists in which nothing comes twice. */
module Common {

  datatype Option<+T> = None | Some(value: T)

  /** A computation of the source that returns or throws. */
  datatype Result<+T, +E> = Ok(value: T) | Err(error: E)

  ghost predicate NoRepeats<T>(s: seq<T>) {
    forall i, j :: 0 <= i < j < |s| ==> s[i] != s[j]
  }

  lemma AppendNoRepeats<T>(a: seq<T>, b: seq<T>)
    requires NoRepeats(a) && NoRepeats(b) && forall x :: x in a ==> x !in b
    ensures NoRepeats(a + b)
  {
    var all := a + b;
    forall i, j | 0 <= i < j < |all|
      ensures all[i] != all[j]
    {
      if i < |a| && j >= |a| {
        assert a[i] in a && b[j - |a|] in b;
      }
    }
  }

  /** No two elements have one key. */
  ghost predicate NoKeyTwice<T, K(!new)>(s: seq<T>, key: T -> K) {
    forall i, j :: 0 <= i < j < |s| ==> key(s[i]) != key(s[j])
  }

  lemma AppendNoKeyTwice<T, K(!new)>(a: seq<T>, b: seq<T>, key: T -> K)
    requires NoKeyTwice(a, key) && NoKeyTwice(b, key)
    requires forall x, y :: x in a && y in b ==> key(x) != key(y)
    ensures NoKeyTwice(a + b, key)
  {
    var all := a + b;
    forall i, j | 0 <= i < j < |all|
      ensures key(all[i]) != key(all[j])
    {
      if i < |a| && j >= |a| {
        assert a[i] in a && b[j - |a|] in b;
      }
    }
  }
}
