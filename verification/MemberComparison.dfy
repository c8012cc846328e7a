/**
 What varied between draws of one document, as `scripts/drive-export-members.ts`
 says it twice: name by name, and by one fingerprint of each draw.
 */
module MemberComparison {
  import opened Common
  import opened Sorting
  import opened ZipMembers

  type Draw = seq<ZipMember>

  // ---------------------------------------------------------------------
  // Sorting by name
  // ---------------------------------------------------------------------

  /** A member as both comparisons see it. */
  datatype Part = Part(name: string, crc32: nat, size: nat)

  function PartOf(m: ZipMember): Part { Part(m.name, m.crc32, m.size) }

  function PartsOf(draw: Draw): seq<Part> {
    seq(|draw|, i requires 0 <= i < |draw| => PartOf(draw[i]))
  }

  function NameOf(m: ZipMember): string { m.name }

  /** The sort both comparisons make: `(a, b) => a.name < b.name ? ...`. */
  function ByName(draw: Draw, before: Order): (r: Draw)
    ensures multiset(r) == multiset(draw)
  {
    Sort(draw, NameOf, before)
  }

  ghost predicate UniqueNames(draw: Draw) { NoKeyTwice(draw, NameOf) }

  function PartName(p: Part): string { p.name }

  /** The parts of one name that a draw holds, in the draw's order. */
  function PartsNamed(draw: Draw, name: string): seq<Part> { OfKey(PartsOf(draw), PartName, name) }

  lemma PartsThen(draw: Draw)
    requires draw != []
    ensures PartsOf(draw) == PartsOf(draw[..|draw| - 1]) + [PartOf(draw[|draw| - 1])]
  {
  }

  lemma PartsNamedThen(short: Draw, m: ZipMember, name: string)
    ensures PartsNamed(short + [m], name) == IfOfKey(PartsNamed(short, name), PartOf(m), PartName, name)
  {
    PartsThen(short + [m]);
    assert (short + [m])[..|short|] == short;
    OfKeyThen(PartsOf(short), PartOf(m), PartName, name);
  }

  lemma {:induction false} PartsOfKey(draw: Draw, name: string)
    ensures PartsNamed(draw, name) == PartsOf(OfKey(draw, NameOf, name))
    decreases |draw|
  {
    if draw == [] {
    } else {
      var short, m := draw[..|draw| - 1], draw[|draw| - 1];
      PartsOfKey(short, name);
      assert draw == short + [m];
      PartsNamedThen(short, m, name);
      OfKeyThen(short, m, NameOf, name);
      hide PartsNamed;
      hide OfKey;
      if m.name == name {
        var same := OfKey(short, NameOf, name);
        PartsThen(same + [m]);
        assert (same + [m])[..|same|] == same;
      }
    }
  }

  /** Sorting leaves the parts of each name as they are. */
  lemma SortKeepsNamed(draw: Draw, before: Order, name: string)
    requires IsTotal(before)
    ensures PartsNamed(ByName(draw, before), name) == PartsNamed(draw, name)
  {
    PartsOfKey(draw, name);
    PartsOfKey(ByName(draw, before), name);
    SortIsStable(draw, NameOf, before, name);
    hide PartsNamed;
  }

  lemma PartsAscend(draw: Draw, before: Order)
    requires IsTotal(before)
    ensures Ascending(Keys(PartsOf(ByName(draw, before)), PartName), before)
  {
    var s := ByName(draw, before);
    SortAscends(draw, NameOf, before);
    hide Sort;
    var ps := PartsOf(s);
    forall i | 0 <= i < |s|
      ensures Keys(ps, PartName)[i] == Keys(s, NameOf)[i]
    {
      KeyAt(ps, PartName, i);
      KeyAt(s, NameOf, i);
      assert ps[i] == PartOf(s[i]) && PartName(ps[i]) == NameOf(s[i]);
    }
    assert Keys(ps, PartName) == Keys(s, NameOf);
  }

  // ---------------------------------------------------------------------
  // The fingerprint's bytes
  // ---------------------------------------------------------------------

  function Digit(d: nat): char
    requires d < 10
  {
    ['0', '1', '2', '3', '4', '5', '6', '7', '8', '9'][d]
  }

  /** A number in decimal, as a template literal writes it. */
  function Decimal(n: nat): (r: string)
    ensures r != "" && forall k :: 0 <= k < |r| ==> '0' <= r[k] <= '9'
  {
    if n < 10 then [Digit(n)] else Decimal(n / 10) + [Digit(n % 10)]
  }

  lemma {:induction false} DecimalIsInjective(a: nat, b: nat)
    requires Decimal(a) == Decimal(b)
    ensures a == b
    decreases a
  {
    var s := Decimal(a);
    assert a < 10 <==> |s| == 1;
    assert b < 10 <==> |s| == 1;
    if a >= 10 {
      assert s[|s| - 1] == Digit(a % 10) == Digit(b % 10);
      assert s[..|s| - 1] == Decimal(a / 10) == Decimal(b / 10);
      DecimalIsInjective(a / 10, b / 10);
    }
  }

  function Value(digits: string): int {
    if digits == "" then 0 else 10 * Value(digits[..|digits| - 1]) + (digits[|digits| - 1] as int - '0' as int)
  }

  lemma ValueThen(digits: string, d: nat)
    requires d < 10
    ensures Value(digits + [Digit(d)]) == 10 * Value(digits) + d
  {
    assert (digits + [Digit(d)])[..|digits|] == digits;
  }

  /** A number is written in digits that say it, with no zero ahead of others. */
  lemma {:induction false} DecimalSaysTheNumber(n: nat)
    ensures Value(Decimal(n)) == n && (Decimal(n)[0] == '0' ==> n == 0)
  {
    if n < 10 {
      ValueThen("", n);
      assert Decimal(n) == "" + [Digit(n)];
    } else {
      DecimalSaysTheNumber(n / 10);
      ValueThen(Decimal(n / 10), n % 10);
      hide Value;
    }
  }

  /** What is fed to the hash for one member, and for a list of them. */
  function Line(p: Part): string {
    p.name + "\n" + (Decimal(p.crc32) + "\n" + (Decimal(p.size) + "\n"))
  }

  function Feed(ps: seq<Part>): string {
    if ps == [] then "" else Line(ps[0]) + Feed(ps[1..])
  }

  lemma SeparatorInside(c: char, a: string, rest: string, b: string, more: string)
    requires |a| < |b| && a + [c] + rest == b + [c] + more
    ensures c in b
  {
    assert (a + [c] + rest)[|a|] == c;
    assert (b + [c] + more)[|a|] == b[|a|];
  }

  /** The text up to a separator, and the text after it, can be told. */
  lemma SplitAt(c: char, a: string, rest: string, b: string, more: string)
    requires c !in a && c !in b && a + [c] + rest == b + [c] + more
    ensures a == b && rest == more
  {
    var s, t := a + [c] + rest, b + [c] + more;
    if |a| < |b| { SeparatorInside(c, a, rest, b, more); }
    if |b| < |a| { SeparatorInside(c, b, more, a, rest); }
    assert a == s[..|a|] && b == t[..|b|];
    assert rest == s[|a| + 1..] && more == t[|b| + 1..];
  }

  lemma LineIsTold(p: Part, q: Part, rest: string, more: string)
    requires '\n' !in p.name && '\n' !in q.name && Line(p) + rest == Line(q) + more
    ensures p == q && rest == more
  {
    hide Decimal;
    var pc, ps, qc, qs := Decimal(p.crc32), Decimal(p.size), Decimal(q.crc32), Decimal(q.size);
    var ps', qs' := ps + "\n" + rest, qs + "\n" + more;
    var pc', qc' := pc + "\n" + ps', qc + "\n" + qs';
    assert Line(p) + rest == p.name + "\n" + pc';
    assert Line(q) + more == q.name + "\n" + qc';
    SplitAt('\n', p.name, pc', q.name, qc');
    SplitAt('\n', pc, ps', qc, qs');
    SplitAt('\n', ps, rest, qs, more);
    DecimalIsInjective(p.crc32, q.crc32);
    DecimalIsInjective(p.size, q.size);
  }

  ghost predicate PlainNames(ps: seq<Part>) {
    forall k :: 0 <= k < |ps| ==> '\n' !in ps[k].name
  }

  lemma {:induction false} FeedIsInjective(a: seq<Part>, b: seq<Part>)
    requires PlainNames(a) && PlainNames(b) && Feed(a) == Feed(b)
    ensures a == b
  {
    if a != [] && b != [] {
      LineIsTold(a[0], b[0], Feed(a[1..]), Feed(b[1..]));
      FeedIsInjective(a[1..], b[1..]);
      assert a == [a[0]] + a[1..] && b == [b[0]] + b[1..];
    }
  }

  /** What `containerNormalisedHash` feeds its hash. */
  function HashInput(draw: Draw, before: Order): string {
    Feed(PartsOf(ByName(draw, before)))
  }

  /** The loop of `containerNormalisedHash`, with the hash as the text fed to it. */
  method FeedHash(draw: Draw, before: Order) returns (fed: string)
    ensures fed == HashInput(draw, before)
  {
    var byName := ByName(draw, before);
    ghost var parts := PartsOf(byName);
    fed := "";
    assert parts[0..] == parts && "" + Feed(parts) == Feed(parts);
    for k := 0 to |byName|
      invariant fed + Feed(parts[k..]) == HashInput(draw, before)
    {
      assert parts[k..][0] == PartOf(byName[k]) && parts[k..][1..] == parts[k + 1..];
      assert fed + (Line(parts[k]) + Feed(parts[k + 1..])) == fed + Line(parts[k]) + Feed(parts[k + 1..]);
      fed := fed + Line(PartOf(byName[k]));
    }
    assert fed + "" == fed;
  }

  lemma {:induction false} FeedOfBoth(a: seq<Part>, b: seq<Part>)
    ensures Feed(a + b) == Feed(a) + Feed(b)
  {
    if a == [] {
      assert a + b == b && "" + Feed(b) == Feed(b);
    } else {
      assert (a + b)[1..] == a[1..] + b;
      FeedOfBoth(a[1..], b);
      assert Line(a[0]) + (Feed(a[1..]) + Feed(b)) == Line(a[0]) + Feed(a[1..]) + Feed(b);
    }
  }

  /** The text of a draw goes on line by line: each member's name, checksum and size, in the order of the names. */
  lemma TextOfOneMore(draw: Draw, before: Order, k: nat)
    requires k < |draw|
    ensures var sorted := ByName(draw, before);
            |sorted| == |draw| &&
            Feed(PartsOf(sorted[..k + 1])) ==
            Feed(PartsOf(sorted[..k])) + sorted[k].name + "\n" + Decimal(sorted[k].crc32) + "\n"
            + Decimal(sorted[k].size) + "\n"
  {
    var sorted := ByName(draw, before);
    SameMembers(sorted, draw);
    var short, m := sorted[..k], sorted[k];
    var p, head := PartOf(m), Feed(PartsOf(short));
    assert PartsOf(sorted[..k + 1]) == PartsOf(short) + [p];
    FeedOfBoth(PartsOf(short), [p]);
    assert [p][1..] == [] && Feed([p]) == Line(p) + "" == Line(p);
    hide *;
    LineIs(p);
    InARow(head, p.name, Decimal(p.crc32), Decimal(p.size));
  }

  lemma InARow(head: string, a: string, b: string, c: string)
    ensures head + (a + "\n" + b + "\n" + c + "\n") == head + a + "\n" + b + "\n" + c + "\n"
  {
  }

  lemma LineIs(p: Part)
    ensures Line(p) == p.name + "\n" + Decimal(p.crc32) + "\n" + Decimal(p.size) + "\n"
  {
    var crc, size := Decimal(p.crc32), Decimal(p.size);
    assert p.name + "\n" + (crc + "\n" + (size + "\n")) == p.name + "\n" + crc + "\n" + size + "\n";
  }

  // ---------------------------------------------------------------------
  // Name by name
  // ---------------------------------------------------------------------

  function Find(draw: Draw, name: string): (r: Option<ZipMember>)
    ensures r.Some? ==> r.value in draw && r.value.name == name
    ensures r.None? ==> forall m :: m in draw ==> m.name != name
  {
    if draw == [] then None
    else if draw[0].name == name then Some(draw[0])
    else Find(draw[1..], name)
  }

  /** The string two members' contents are compared by. */
  function ContentKey(m: ZipMember): string { Decimal(m.crc32) + ":" + Decimal(m.size) }

  lemma ContentKeyIsInjective(m: ZipMember, n: ZipMember)
    requires ContentKey(m) == ContentKey(n)
    ensures m.crc32 == n.crc32 && m.size == n.size
  {
    assert ContentKey(m) == Decimal(m.crc32) + [':'] + Decimal(m.size);
    assert ContentKey(n) == Decimal(n.crc32) + [':'] + Decimal(n.size);
    SplitAt(':', Decimal(m.crc32), Decimal(m.size), Decimal(n.crc32), Decimal(n.size));
    DecimalIsInjective(m.crc32, n.crc32);
    DecimalIsInjective(m.size, n.size);
  }

  datatype Verdict = Absent | Changed | Restamped | Unchanged

  ghost predicate InEvery(draws: seq<Draw>, name: string) {
    forall i :: 0 <= i < |draws| ==> Find(draws[i], name).Some?
  }

  ghost predicate SameContent(draws: seq<Draw>, name: string) {
    forall i, j :: 0 <= i < |draws| && 0 <= j < |draws| && Find(draws[i], name).Some? && Find(draws[j], name).Some? ==>
      ContentKey(Find(draws[i], name).value) == ContentKey(Find(draws[j], name).value)
  }

  ghost predicate SameStamp(draws: seq<Draw>, name: string) {
    forall i, j :: 0 <= i < |draws| && 0 <= j < |draws| && Find(draws[i], name).Some? && Find(draws[j], name).Some? ==>
      Find(draws[i], name).value.stamp == Find(draws[j], name).value.stamp
  }

  ghost function VerdictOf(draws: seq<Draw>, name: string): Verdict {
    if !InEvery(draws, name) then Absent
    else if !SameContent(draws, name) then Changed
    else if !SameStamp(draws, name) then Restamped
    else Unchanged
  }

  /** The first member of a name in each draw, if there is one in every draw. */
  ghost predicate AreFirst(draws: seq<Draw>, name: string, found: seq<ZipMember>) {
    && |found| == |draws|
    && forall i :: 0 <= i < |draws| ==> IsFirstNamed(draws[i], name, found[i])
  }

  ghost predicate IsFirstNamed(draw: Draw, name: string, m: ZipMember) {
    exists k :: 0 <= k < |draw| && draw[k] == m && m.name == name && forall j :: 0 <= j < k ==> draw[j].name != name
  }

  lemma {:induction false} FindIsFirstNamed(draw: Draw, name: string, m: ZipMember)
    ensures Find(draw, name) == Some(m) <==> IsFirstNamed(draw, name, m)
  {
    if draw == [] {
    } else if draw[0].name == name {
      if draw[0] == m { assert draw[0] == m; }
    } else {
      var rest := draw[1..];
      FindIsFirstNamed(rest, name, m);
      if IsFirstNamed(rest, name, m) {
        var k :| 0 <= k < |rest| && rest[k] == m && m.name == name && forall j :: 0 <= j < k ==> rest[j].name != name;
        assert draw[k + 1] == m;
        forall j | 0 <= j < k + 1
          ensures draw[j].name != name
        {
          if j > 0 { assert draw[j] == rest[j - 1]; }
        }
      }
      if IsFirstNamed(draw, name, m) {
        var k :| 0 <= k < |draw| && draw[k] == m && m.name == name && forall j :: 0 <= j < k ==> draw[j].name != name;
        assert rest[k - 1] == m;
        assert forall j :: 0 <= j < k - 1 ==> rest[j] == draw[j + 1];
      }
    }
  }

  predicate NoneIsNamed(draw: Draw, name: string) { forall k :: 0 <= k < |draw| ==> draw[k].name != name }

  /** A name is absent when some draw has no member of it. */
  lemma AbsentMeans(draws: seq<Draw>, name: string)
    ensures VerdictOf(draws, name) == Absent <==> exists i :: 0 <= i < |draws| && NoneIsNamed(draws[i], name)
  {
    hide SameContent;
    hide SameStamp;
    assert VerdictOf(draws, name) == Absent <==> !InEvery(draws, name);
    forall i | 0 <= i < |draws|
      ensures Find(draws[i], name).None? <==> NoneIsNamed(draws[i], name)
    {
      if Find(draws[i], name).Some? {
        var m := Find(draws[i], name).value;
        assert m in draws[i];
      }
    }
  }

  ghost predicate AllAlike(found: seq<ZipMember>, stamps: bool) {
    forall i, j :: 0 <= i < |found| && 0 <= j < |found| ==>
      && found[i].crc32 == found[j].crc32 && found[i].size == found[j].size
      && (stamps ==> found[i].stamp == found[j].stamp)
  }

  /** Otherwise the first members of it, one in each draw, are alike, or alike but for their stamps, or not. */
  lemma VerdictMeans(draws: seq<Draw>, name: string, found: seq<ZipMember>)
    requires AreFirst(draws, name, found)
    ensures VerdictOf(draws, name) == Changed <==> !AllAlike(found, false)
    ensures VerdictOf(draws, name) == Restamped <==> AllAlike(found, false) && !AllAlike(found, true)
    ensures VerdictOf(draws, name) == Unchanged <==> AllAlike(found, true)
  {
    forall i | 0 <= i < |draws|
      ensures Find(draws[i], name) == Some(found[i])
    {
      FindIsFirstNamed(draws[i], name, found[i]);
    }
    hide Find;
    hide IsFirstNamed;
    forall i, j | 0 <= i < |draws| && 0 <= j < |draws|
      ensures ContentKey(found[i]) == ContentKey(found[j]) <==>
              found[i].crc32 == found[j].crc32 && found[i].size == found[j].size
    {
      if ContentKey(found[i]) == ContentKey(found[j]) { ContentKeyIsInjective(found[i], found[j]); }
    }
    hide ContentKey;
    assert SameContent(draws, name) <==> AllAlike(found, false);
    assert SameContent(draws, name) && SameStamp(draws, name) <==> AllAlike(found, true);
  }

  /** Every name in any draw, each once, in the order of the sort. */
  ghost predicate IsEveryName(names: seq<string>, draws: seq<Draw>, before: Order) {
    && (forall i, j :: 0 <= i < j < |names| ==> before(names[i], names[j]))
    && (forall name :: name in names <==> exists i :: 0 <= i < |draws| && Find(draws[i], name).Some?)
  }

  /** The distinct names of all draws, sorted: `[...new Set(...)].sort()`. */
  method EveryName(draws: seq<Draw>, before: Order) returns (names: seq<string>)
    requires IsTotal(before)
    ensures IsEveryName(names, draws, before)
  {
    names := [];
    for d := 0 to |draws|
      invariant forall i, j :: 0 <= i < j < |names| ==> before(names[i], names[j])
      invariant forall name :: name in names <==> exists i :: 0 <= i < d && Find(draws[i], name).Some?
    {
      ghost var had := names;
      for k := 0 to |draws[d]|
        invariant forall i, j :: 0 <= i < j < |names| ==> before(names[i], names[j])
        invariant forall name :: name in names <==> name in had || exists j :: 0 <= j < k && draws[d][j].name == name
      {
        names := InsertDistinct(names, draws[d][k].name, before);
      }
      forall name
        ensures Find(draws[d], name).Some? <==> exists j :: 0 <= j < |draws[d]| && draws[d][j].name == name
      {
        if Find(draws[d], name).Some? {
          var m := Find(draws[d], name).value;
          var j :| 0 <= j < |draws[d]| && draws[d][j] == m;
        }
      }
    }
  }

  /** Whether one value is all there is: `new Set(values).size > 1` is its opposite. */
  method AllSame<T(==)>(values: seq<T>) returns (same: bool)
    ensures same <==> forall i, j :: 0 <= i < |values| && 0 <= j < |values| ==> values[i] == values[j]
  {
    same := true;
    for k := 0 to |values|
      invariant same <==> forall i :: 0 <= i < k ==> values[i] == values[0]
    {
      if values[k] != values[0] { same := false; }
    }
  }

  method Judge(draws: seq<Draw>, name: string) returns (v: Verdict)
    ensures v == VerdictOf(draws, name)
  {
    var contents: seq<string>, stamps: seq<nat> := [], [];
    for i := 0 to |draws|
      invariant |contents| == |stamps| == i
      invariant forall j :: 0 <= j < i ==>
        Find(draws[j], name).Some? && contents[j] == ContentKey(Find(draws[j], name).value)
          && stamps[j] == Find(draws[j], name).value.stamp
    {
      var m := Find(draws[i], name);
      if m.None? { return Absent; }
      contents := contents + [ContentKey(m.value)];
      stamps := stamps + [m.value.stamp];
    }
    var sameContent := AllSame(contents);
    var sameStamp := AllSame(stamps);
    assert sameContent <==> SameContent(draws, name);
    assert sameStamp <==> SameStamp(draws, name);
    if !sameContent { return Changed; }
    if !sameStamp { return Restamped; }
    return Unchanged;
  }

  datatype Comparison = Comparison(changed: seq<string>, restamped: seq<string>, absent: seq<string>, held: nat)

  /** The names of a list that got one verdict, in its order. */
  ghost function Judged(names: seq<string>, draws: seq<Draw>, v: Verdict): (r: seq<string>)
    ensures forall name :: name in r <==> name in names && VerdictOf(draws, name) == v
  {
    if names == [] then []
    else
      var last := names[|names| - 1];
      assert names == names[..|names| - 1] + [last];
      Judged(names[..|names| - 1], draws, v) + (if VerdictOf(draws, last) == v then [last] else [])
  }

  lemma JudgedNone(draws: seq<Draw>)
    ensures forall v :: Judged([], draws, v) == []
  {
  }

  lemma JudgedNext(names: seq<string>, k: nat, draws: seq<Draw>)
    requires k < |names|
    ensures forall v :: Judged(names[..k + 1], draws, v) ==
                        Judged(names[..k], draws, v) + (if VerdictOf(draws, names[k]) == v then [names[k]] else [])
  {
    hide VerdictOf;
    assert names[..k + 1][..k] == names[..k];
  }

  /** `compareMembers`, its sentence aside: `None` where it refuses fewer than two draws. */
  method CompareMembers(draws: seq<Draw>, before: Order) returns (r: Option<Comparison>, ghost names: seq<string>)
    requires IsTotal(before)
    ensures r.None? <==> |draws| < 2
    ensures IsEveryName(names, draws, before)
    ensures r.Some? ==>
      && r.value.changed == Judged(names, draws, Changed)
      && r.value.restamped == Judged(names, draws, Restamped)
      && r.value.absent == Judged(names, draws, Absent)
      && r.value.held == |Judged(names, draws, Unchanged)|
      && |r.value.changed| + |r.value.restamped| + |r.value.absent| + r.value.held == |names|
  {
    hide VerdictOf;
    hide IsEveryName;
    hide Judged;
    var everyName := EveryName(draws, before);
    names := everyName;
    if |draws| < 2 { return None, names; }
    var changed: seq<string>, restamped: seq<string>, absent: seq<string>, held := [], [], [], 0;
    JudgedNone(draws);
    assert everyName[..0] == [];
    for k := 0 to |everyName|
      invariant changed == Judged(everyName[..k], draws, Changed)
      invariant restamped == Judged(everyName[..k], draws, Restamped)
      invariant absent == Judged(everyName[..k], draws, Absent)
      invariant held == |Judged(everyName[..k], draws, Unchanged)|
      invariant |changed| + |restamped| + |absent| + held == k
    {
      JudgedNext(everyName, k, draws);
      var v := Judge(draws, everyName[k]);
      if v == Absent {
        absent := absent + [everyName[k]];
      } else if v == Changed {
        changed := changed + [everyName[k]];
      } else if v == Restamped {
        restamped := restamped + [everyName[k]];
      } else {
        held := held + 1;
      }
    }
    assert everyName[..|everyName|] == everyName;
    return Some(Comparison(changed, restamped, absent, held)), names;
  }

  // ---------------------------------------------------------------------
  // The two comparisons agree
  // ---------------------------------------------------------------------

  ghost predicate NoNewline(draw: Draw) {
    forall m :: m in draw ==> '\n' !in m.name
  }

  lemma SortedIsPlain(a: Draw, before: Order)
    requires NoNewline(a)
    ensures PlainNames(PartsOf(ByName(a, before)))
  {
    var s := ByName(a, before);
    SameMembers(s, a);
    forall k | 0 <= k < |s|
      ensures '\n' !in PartsOf(s)[k].name
    {
      assert s[k] in a;
    }
  }

  ghost predicate SameNamed(a: Draw, b: Draw) {
    forall name :: PartsNamed(a, name) == PartsNamed(b, name)
  }

  /**
   One draw feeds another's text if and only if they hold, for every name, the
   same parts of that name in the same order.
   */
  lemma SameTextExactly(a: Draw, b: Draw, before: Order)
    requires IsTotal(before) && NoNewline(a) && NoNewline(b)
    ensures HashInput(a, before) == HashInput(b, before) <==> SameNamed(a, b)
  {
    hide IsTotal;
    hide PartsNamed;
    hide Ascending;
    var s, t := ByName(a, before), ByName(b, before);
    forall name
      ensures PartsNamed(a, name) == PartsNamed(s, name) && PartsNamed(b, name) == PartsNamed(t, name)
    {
      SortKeepsNamed(a, before, name);
      SortKeepsNamed(b, before, name);
    }
    if HashInput(a, before) == HashInput(b, before) {
      SortedIsPlain(a, before);
      SortedIsPlain(b, before);
      FeedIsInjective(PartsOf(s), PartsOf(t));
      SamePartsSameNamed(s, t);
    }
    if SameNamed(a, b) {
      assert SameNamed(s, t);
      PartsAscend(a, before);
      PartsAscend(b, before);
      SameNamedSameParts(s, t, before);
    }
  }

  lemma SamePartsSameNamed(s: Draw, t: Draw)
    requires PartsOf(s) == PartsOf(t)
    ensures SameNamed(s, t)
  {
  }

  lemma SameNamedSameParts(s: Draw, t: Draw, before: Order)
    requires IsTotal(before) && SameNamed(s, t)
    requires Ascending(Keys(PartsOf(s), PartName), before) && Ascending(Keys(PartsOf(t), PartName), before)
    ensures PartsOf(s) == PartsOf(t)
  {
    hide IsTotal;
    hide Ascending;
    forall name
      ensures OfKey(PartsOf(s), PartName, name) == OfKey(PartsOf(t), PartName, name)
    {
      assert PartsNamed(s, name) == PartsNamed(t, name);
    }
    SortedByKeyIsOne(PartsOf(s), PartsOf(t), PartName, before);
  }

  /** The name by name look-up finds the first part of a name. */
  predicate IsFirstPart(found: Option<ZipMember>, parts: seq<Part>) {
    if found.None? then parts == [] else parts != [] && PartOf(found.value) == parts[0]
  }

  lemma {:induction false} FindThen(short: Draw, m: ZipMember, name: string)
    ensures Find(short + [m], name) ==
            if Find(short, name).Some? then Find(short, name) else if m.name == name then Some(m) else None
    decreases |short|
  {
    if short == [] {
      assert [] + [m] == [m];
      assert Find([m][1..], name) == None;
    } else {
      FindThen(short[1..], m, name);
      assert (short + [m])[1..] == short[1..] + [m];
    }
  }

  lemma {:induction false} FindIsFirst(draw: Draw, name: string)
    ensures IsFirstPart(Find(draw, name), PartsNamed(draw, name))
    decreases |draw|
  {
    if draw == [] {
    } else {
      var short, m := draw[..|draw| - 1], draw[|draw| - 1];
      FindIsFirst(short, name);
      assert draw == short + [m];
      FindThen(short, m, name);
      PartsNamedThen(short, m, name);
      hide PartsNamed;
      hide Find;
    }
  }

  /** Two draws in which a name is looked up alike. */
  ghost predicate SameLookUp(a: Draw, b: Draw, name: string) {
    var f, g := Find(a, name), Find(b, name);
    f.Some? == g.Some? && (f.Some? ==> ContentKey(f.value) == ContentKey(g.value))
  }

  lemma SameNamedSameLookUp(a: Draw, b: Draw, name: string)
    requires PartsNamed(a, name) == PartsNamed(b, name)
    ensures SameLookUp(a, b, name)
  {
    FindIsFirst(a, name);
    FindIsFirst(b, name);
    hide PartsNamed;
    hide Find;
  }

  /** Nothing changed and nothing absent: every name is looked up alike in every draw. */
  lemma NothingMovedExactly(draws: seq<Draw>, names: seq<string>, before: Order)
    requires IsEveryName(names, draws, before)
    ensures Judged(names, draws, Changed) == [] && Judged(names, draws, Absent) == [] <==>
            forall i, j, name :: 0 <= i < |draws| && 0 <= j < |draws| ==> SameLookUp(draws[i], draws[j], name)
  {
    hide ContentKey;
    hide SameStamp;
    var changed, absent := Judged(names, draws, Changed), Judged(names, draws, Absent);
    if changed == [] && absent == [] {
      forall i, j, name | 0 <= i < |draws| && 0 <= j < |draws|
        ensures SameLookUp(draws[i], draws[j], name)
      {
        if Find(draws[i], name).Some? || Find(draws[j], name).Some? {
          assert name in names && name !in changed && name !in absent;
          assert InEvery(draws, name) && SameContent(draws, name);
        }
      }
    } else {
      var bad := if changed != [] then changed[0] else absent[0];
      assert bad in changed || bad in absent;
      SomebodyMoved(draws, bad);
    }
  }

  lemma SomebodyMoved(draws: seq<Draw>, name: string)
    requires exists i :: 0 <= i < |draws| && Find(draws[i], name).Some?
    requires VerdictOf(draws, name) == Changed || VerdictOf(draws, name) == Absent
    ensures exists i, j :: 0 <= i < |draws| && 0 <= j < |draws| && !SameLookUp(draws[i], draws[j], name)
  {
    hide ContentKey;
    hide Find;
    hide SameStamp;
    var i :| 0 <= i < |draws| && Find(draws[i], name).Some?;
    if !InEvery(draws, name) {
      var j :| 0 <= j < |draws| && Find(draws[j], name).None?;
      assert !SameLookUp(draws[i], draws[j], name);
    } else {
      var k, l :| 0 <= k < |draws| && 0 <= l < |draws| && Find(draws[k], name).Some? && Find(draws[l], name).Some?
                  && ContentKey(Find(draws[k], name).value) != ContentKey(Find(draws[l], name).value);
      assert !SameLookUp(draws[k], draws[l], name);
    }
  }

  ghost predicate OneText(draws: seq<Draw>, before: Order) {
    forall i, j :: 0 <= i < |draws| && 0 <= j < |draws| ==> HashInput(draws[i], before) == HashInput(draws[j], before)
  }

  ghost predicate AllSameNamed(draws: seq<Draw>) {
    forall i, j :: 0 <= i < |draws| && 0 <= j < |draws| ==> SameNamed(draws[i], draws[j])
  }

  /**
   What each comparison says, against the other. With no newline in a name: one
   text means nothing changed and nothing absent; and where nothing changed and
   nothing is absent, it is one text if and only if every draw holds the same
   parts of each name in the same order, which a repeated name alone can upset.
   */
  lemma OneTextExactly(draws: seq<Draw>, names: seq<string>, before: Order)
    requires IsTotal(before) && IsEveryName(names, draws, before)
    requires forall i :: 0 <= i < |draws| ==> NoNewline(draws[i])
    ensures OneText(draws, before) <==> AllSameNamed(draws)
    ensures OneText(draws, before) ==> Judged(names, draws, Changed) == [] && Judged(names, draws, Absent) == []
  {
    hide HashInput;
    hide SameNamed;
    hide IsTotal;
    forall i, j | 0 <= i < |draws| && 0 <= j < |draws|
      ensures HashInput(draws[i], before) == HashInput(draws[j], before) <==> SameNamed(draws[i], draws[j])
    {
      SameTextExactly(draws[i], draws[j], before);
    }
    if AllSameNamed(draws) {
      AllSameLookUp(draws);
      NothingMovedExactly(draws, names, before);
    }
  }

  lemma AllSameLookUp(draws: seq<Draw>)
    requires AllSameNamed(draws)
    ensures forall i, j, name :: 0 <= i < |draws| && 0 <= j < |draws| ==> SameLookUp(draws[i], draws[j], name)
  {
    forall i, j, name | 0 <= i < |draws| && 0 <= j < |draws|
      ensures SameLookUp(draws[i], draws[j], name)
    {
      assert SameNamed(draws[i], draws[j]);
      SameNamedSameLookUp(draws[i], draws[j], name);
    }
  }

  // Where no name is repeated, one look-up sees all the parts.

  lemma {:induction false} NamedOnce(draw: Draw, name: string)
    requires UniqueNames(draw)
    ensures |PartsNamed(draw, name)| <= 1
    decreases |draw|
  {
    if draw == [] {
    } else {
      var short, m := draw[..|draw| - 1], draw[|draw| - 1];
      NamedOnce(short, name);
      assert draw == short + [m];
      PartsNamedThen(short, m, name);
      if m.name == name {
        FindIsFirst(short, name);
        assert Find(short, name).None?;
      }
    }
  }

  lemma OneIsTheOther(a: Draw, b: Draw, name: string)
    requires UniqueNames(a) && UniqueNames(b) && forall p :: p in PartsOf(a) <==> p in PartsOf(b)
    ensures PartsNamed(a, name) == PartsNamed(b, name)
  {
    NamedOnce(a, name);
    NamedOnce(b, name);
    forall p
      ensures p in PartsNamed(a, name) <==> p in PartsNamed(b, name)
    {
      InOfKey(PartsOf(a), PartName, name, p);
      InOfKey(PartsOf(b), PartName, name, p);
    }
    var x, y := PartsNamed(a, name), PartsNamed(b, name);
    hide PartsNamed;
    if x != [] { assert x[0] in y; }
    if y != [] { assert y[0] in x; }
  }

  /** So then one draw feeds another's text if and only if they hold the same parts. */
  lemma SameInputIsSameParts(a: Draw, b: Draw, before: Order)
    requires IsTotal(before) && NoNewline(a) && NoNewline(b) && UniqueNames(a) && UniqueNames(b)
    ensures HashInput(a, before) == HashInput(b, before) <==> forall p :: p in PartsOf(a) <==> p in PartsOf(b)
  {
    hide HashInput;
    hide IsTotal;
    SameTextExactly(a, b, before);
    if SameNamed(a, b) {
      forall p
        ensures p in PartsOf(a) <==> p in PartsOf(b)
      {
        assert PartsNamed(a, p.name) == PartsNamed(b, p.name);
        InOfKey(PartsOf(a), PartName, p.name, p);
        InOfKey(PartsOf(b), PartName, p.name, p);
      }
    }
    if forall p :: p in PartsOf(a) <==> p in PartsOf(b) {
      forall name
        ensures PartsNamed(a, name) == PartsNamed(b, name)
      {
        OneIsTheOther(a, b, name);
      }
    }
  }

  lemma SameLookUpSameNamed(a: Draw, b: Draw, name: string)
    requires UniqueNames(a) && UniqueNames(b) && SameLookUp(a, b, name)
    ensures PartsNamed(a, name) == PartsNamed(b, name)
  {
    NamedOnce(a, name);
    NamedOnce(b, name);
    FindIsFirst(a, name);
    FindIsFirst(b, name);
    var f, g := Find(a, name), Find(b, name);
    if f.Some? { ContentKeyIsInjective(f.value, g.value); }
    hide PartsNamed;
    hide ContentKey;
    hide Find;
  }

  /**
   The two comparisons agree: where names are unique in a draw and hold no
   newline, every draw feeds the hash the same bytes exactly when no name is
   absent from a draw or changed, whatever the members' order and stamps.
   */
  lemma TwoComparisonsAgree(draws: seq<Draw>, names: seq<string>, before: Order)
    requires IsTotal(before) && IsEveryName(names, draws, before)
    requires forall i :: 0 <= i < |draws| ==> NoNewline(draws[i]) && UniqueNames(draws[i])
    ensures OneText(draws, before) <==> Judged(names, draws, Changed) == [] && Judged(names, draws, Absent) == []
  {
    hide IsTotal;
    hide OneText;
    hide SameLookUp;
    OneTextExactly(draws, names, before);
    NothingMovedExactly(draws, names, before);
    if Judged(names, draws, Changed) == [] && Judged(names, draws, Absent) == [] {
      forall i, j | 0 <= i < |draws| && 0 <= j < |draws|
        ensures SameNamed(draws[i], draws[j])
      {
        forall name
          ensures PartsNamed(draws[i], name) == PartsNamed(draws[j], name)
        {
          assert SameLookUp(draws[i], draws[j], name);
          SameLookUpSameNamed(draws[i], draws[j], name);
        }
      }
    }
  }

  // ---------------------------------------------------------------------
  // Where they part
  // ---------------------------------------------------------------------

  lemma SortedAlone(m: ZipMember, before: Order)
    ensures ByName([m], before) == [m]
  {
    assert [m][..0] == [];
    assert Sort([m][..0], NameOf, before) == [];
  }

  lemma SortedPair(m: ZipMember, n: ZipMember, before: Order)
    requires !before(n.name, m.name)
    ensures ByName([m, n], before) == [m, n]
  {
    assert [m, n][..1] == [m];
    SortedAlone(m, before);
  }

  lemma FeedOfOne(p: Part)
    ensures Feed([p]) == Line(p)
  {
    assert Line(p) + "" == Line(p);
  }

  lemma FeedOfTwo(p: Part, q: Part)
    ensures Feed([p, q]) == Line(p) + Line(q)
  {
    assert [p, q][1..] == [q];
    FeedOfOne(q);
  }

  const EMPTY_PART := "\n0\n0\n"

  lemma LineOfEmpty(name: string)
    ensures Line(Part(name, 0, 0)) == name + EMPTY_PART
  {
    assert Decimal(0) == "0";
  }

  /** A newline in a name can spell the end of one member and the start of the next: one text, and an absent name. */
  lemma NewlineHidesAMember(a: string, b: string, before: Order)
    requires IsTotal(before) && before(a, b)
    ensures var one, two := [ZipMember(a + EMPTY_PART + b, 0, 0, 0)], [ZipMember(a, 0, 0, 0), ZipMember(b, 0, 0, 0)];
            HashInput(one, before) == HashInput(two, before) && VerdictOf([one, two], a) == Absent
  {
    var one, two := [ZipMember(a + EMPTY_PART + b, 0, 0, 0)], [ZipMember(a, 0, 0, 0), ZipMember(b, 0, 0, 0)];
    hide Sort;
    hide ByName;
    hide Feed;
    hide Line;
    SortedAlone(one[0], before);
    SortedPair(two[0], two[1], before);
    assert PartsOf(one) == [PartOf(one[0])] && PartsOf(two) == [PartOf(two[0]), PartOf(two[1])];
    FeedOfOne(PartOf(one[0]));
    FeedOfTwo(PartOf(two[0]), PartOf(two[1]));
    LineOfEmpty(one[0].name);
    LineOfEmpty(a);
    LineOfEmpty(b);
    assert a + EMPTY_PART + b + EMPTY_PART == (a + EMPTY_PART) + (b + EMPTY_PART);
    assert Find(one, a).None?;
    assert [one, two][0] == one;
  }

  /** A name twice in a draw is looked up once: two texts, and nothing moved. */
  lemma RepeatHidesAChange(before: Order)
    requires IsTotal(before)
    ensures var m, n := ZipMember("a", 0, 0, 0), ZipMember("a", 1, 0, 0);
            HashInput([m], before) != HashInput([m, n], before) && VerdictOf([[m], [m, n]], "a") == Unchanged
  {
    var m, n := ZipMember("a", 0, 0, 0), ZipMember("a", 1, 0, 0);
    SortedAlone(m, before);
    SortedPair(m, n, before);
    hide Sort;
    hide ByName;
    assert PartsOf([m]) == [PartOf(m)] && PartsOf([m, n]) == [PartOf(m), PartOf(n)];
    FeedOfOne(PartOf(m));
    FeedOfTwo(PartOf(m), PartOf(n));
    assert |Line(PartOf(n))| > 0;
    assert Find([m], "a") == Some(m) && Find([m, n], "a") == Some(m);
    hide Feed;
    hide Line;
    hide ContentKey;
    hide Find;
  }
}
