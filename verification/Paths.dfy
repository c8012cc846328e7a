/** Slash-separated paths, split and joined as JavaScript does. */
module Paths {

  predicate IsName(s: string) { s != "" && '/' !in s }

  /** `s.split('/')`. */
  function Split(s: string): (r: seq<string>)
    ensures |r| > 0 && forall k :: 0 <= k < |r| ==> '/' !in r[k]
  {
    if s == "" then [""]
    else
      var rest := Split(s[1..]);
      if s[0] == '/' then [""] + rest else [[s[0]] + rest[0]] + rest[1..]
  }

  /** `segments.join('/')`. */
  function Join(segments: seq<string>): string {
    if segments == [] then ""
    else if |segments| == 1 then segments[0]
    else segments[0] + "/" + Join(segments[1..])
  }

  ghost predicate AreNames(segments: seq<string>) {
    forall k :: 0 <= k < |segments| ==> IsName(segments[k])
  }

  lemma {:induction false} SplitHead(head: string, s: string)
    requires '/' !in head
    ensures Split(head + s) == [head + Split(s)[0]] + Split(s)[1..]
  {
    if head == "" {
      assert head + s == s && head + Split(s)[0] == Split(s)[0];
    } else {
      assert (head + s)[1..] == head[1..] + s;
      SplitHead(head[1..], s);
      assert [head[0]] + (head[1..] + Split(s)[0]) == head + Split(s)[0];
    }
  }

  lemma {:induction false} SplitUndoesJoin(segments: seq<string>)
    requires segments != [] && forall k :: 0 <= k < |segments| ==> '/' !in segments[k]
    ensures Split(Join(segments)) == segments
  {
    if |segments| == 1 {
      SplitHead(segments[0], "");
      assert segments[0] + "" == segments[0];
    } else {
      SplitUndoesJoin(segments[1..]);
      var rest := "/" + Join(segments[1..]);
      SplitHead(segments[0], rest);
      assert rest[1..] == Join(segments[1..]);
      assert Join(segments) == segments[0] + rest;
      assert segments[0] + "" == segments[0];
      assert Split(rest)[1..] == segments[1..];
    }
  }

  lemma {:induction false} JoinUndoesSplit(s: string)
    ensures Join(Split(s)) == s
  {
    if s == "" {
    } else {
      JoinUndoesSplit(s[1..]);
      var rest := Split(s[1..]);
      if s[0] == '/' {
        assert Split(s)[1..] == rest;
      } else {
        assert Split(s)[1..] == rest[1..];
      }
    }
  }

  /** Names joined are told apart, the root's empty path included. */
  lemma JoinIsInjective(a: seq<string>, b: seq<string>)
    requires AreNames(a) && AreNames(b) && Join(a) == Join(b)
    ensures a == b
  {
    JoinIsEmpty(a);
    JoinIsEmpty(b);
    if a != [] {
      SplitUndoesJoin(a);
      SplitUndoesJoin(b);
    }
  }

  lemma JoinIsEmpty(a: seq<string>)
    requires AreNames(a)
    ensures Join(a) == "" <==> a == []
  {
  }

  lemma {:induction false} JoinAppend(a: seq<string>, name: string)
    ensures Join(a + [name]) == if a == [] then name else Join(a) + "/" + name
  {
    if a == [] {
      assert a + [name] == [name];
    } else {
      assert (a + [name])[1..] == a[1..] + [name];
      JoinAppend(a[1..], name);
    }
  }

  /** What parts the segments is the slash and nothing else. */
  lemma SlashesPart(a: string, rest: string)
    requires forall c :: c in a ==> c != '/'
    ensures Split(a) == [a]
    ensures Split(a + "/" + rest) == [a] + Split(rest)
  {
    SplitHead(a, "");
    assert a + "" == a;
    SplitHead(a, "/" + rest);
    assert a + "/" + rest == a + ("/" + rest) && ("/" + rest)[1..] == rest;
  }
}
