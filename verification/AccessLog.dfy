/**
 What the access log keeps of a URL, as `apps/api/src/access-log.ts` decides:
 the pattern it builds, the matcher that reads the pattern by backtracking, and
 what the two logging functions let through.
 */
module AccessLog {
  import opened Common

  // ---------------------------------------------------------------------
  // Patterns
  // ---------------------------------------------------------------------

  /** A class is a set of characters, or every character outside one; `Many` repeats a class greedily. */
  datatype Pattern =
    | Nothing
    | One(chars: set<char>, inside: bool)
    | Many(chars: set<char>, inside: bool)
    | Cat(left: Pattern, right: Pattern)
    | Alt(left: Pattern, right: Pattern)
    | Opt(body: Pattern)

  function Lower(c: char): char { if 'A' <= c <= 'Z' then c - 'A' + 'a' else c }

  function Upper(c: char): char { if 'a' <= c <= 'z' then c - 'a' + 'A' else c }

  /** A class under the `i` flag, for classes of ASCII characters: `fold` says whether the flag is set. */
  predicate In(c: char, chars: set<char>, inside: bool, fold: bool) {
    (c in chars || (fold && (Lower(c) in chars || Upper(c) in chars))) == inside
  }

  /** A pattern reads exactly `s[i..e]`. */
  ghost predicate Matches(p: Pattern, fold: bool, s: string, i: nat, e: nat)
    requires i <= e <= |s|
  {
    match p
    case Nothing => e == i
    case One(chars, inside) => e == i + 1 && In(s[i], chars, inside, fold)
    case Many(chars, inside) => forall k :: i <= k < e ==> In(s[k], chars, inside, fold)
    case Cat(a, b) => exists m :: i <= m <= e && Matches(a, fold, s, i, m) && Matches(b, fold, s, m, e)
    case Alt(a, b) => Matches(a, fold, s, i, e) || Matches(b, fold, s, i, e)
    case Opt(a) => e == i || Matches(a, fold, s, i, e)
  }

  predicate Within(ends: seq<nat>, low: nat, high: nat) {
    forall k :: 0 <= k < |ends| ==> low <= ends[k] <= high
  }

  /** Where a backtracking matcher can end, in the order it tries. */
  function Ends(p: Pattern, fold: bool, s: string, i: nat): (r: seq<nat>)
    requires i <= |s|
    ensures Within(r, i, |s|)
    decreases p, 0, |s| - i
  {
    match p
    case Nothing => [i]
    case One(chars, inside) => if i < |s| && In(s[i], chars, inside, fold) then [i + 1] else []
    case Many(chars, inside) => if i < |s| && In(s[i], chars, inside, fold) then Ends(p, fold, s, i + 1) + [i] else [i]
    case Cat(a, b) => EndsAfter(b, fold, s, i, Ends(a, fold, s, i))
    case Alt(a, b) => Ends(a, fold, s, i) + Ends(b, fold, s, i)
    case Opt(a) => Ends(a, fold, s, i) + [i]
  }

  /** The ends of `p` from each of `starts` in turn. */
  function EndsAfter(p: Pattern, fold: bool, s: string, i: nat, starts: seq<nat>): (r: seq<nat>)
    requires i <= |s| && Within(starts, i, |s|)
    ensures Within(r, i, |s|)
    decreases p, 1, |starts|
  {
    if starts == [] then []
    else Ends(p, fold, s, starts[0]) + EndsAfter(p, fold, s, i, starts[1..])
  }

  lemma {:induction false} ManyEnds(chars: set<char>, inside: bool, fold: bool, s: string, i: nat, e: nat)
    requires i <= e <= |s|
    ensures e in Ends(Many(chars, inside), fold, s, i) <==> Matches(Many(chars, inside), fold, s, i, e)
    decreases |s| - i
  {
    hide In;
    if i < e { ManyEnds(chars, inside, fold, s, i + 1, e); }
  }

  /** The matcher finds exactly what the pattern reads. */
  lemma {:induction false} EndsAreTheMatches(p: Pattern, fold: bool, s: string, i: nat, e: nat)
    requires i <= e <= |s|
    ensures e in Ends(p, fold, s, i) <==> Matches(p, fold, s, i, e)
    decreases p, 0, |s| - i
  {
    hide In;
    match p
    case Nothing =>
    case One(chars, inside) =>
    case Many(chars, inside) =>
      ManyEnds(chars, inside, fold, s, i, e);
    case Cat(a, b) =>
      var starts := Ends(a, fold, s, i);
      EndsAfterAreTheMatches(b, fold, s, i, starts, e);
      forall m | i <= m <= e
        ensures m in starts <==> Matches(a, fold, s, i, m)
      {
        EndsAreTheMatches(a, fold, s, i, m);
      }
    case Alt(a, b) =>
      EndsAreTheMatches(a, fold, s, i, e);
      EndsAreTheMatches(b, fold, s, i, e);
    case Opt(a) =>
      EndsAreTheMatches(a, fold, s, i, e);
  }

  lemma {:induction false} EndsAfterAreTheMatches(p: Pattern, fold: bool, s: string, i: nat, starts: seq<nat>, e: nat)
    requires i <= e <= |s| && Within(starts, i, |s|)
    ensures e in EndsAfter(p, fold, s, i, starts) <==> exists m :: m in starts && m <= e && Matches(p, fold, s, m, e)
    decreases p, 1, |starts|
  {
    if starts == [] {
    } else {
      var first, rest := starts[0], starts[1..];
      if first <= e { EndsAreTheMatches(p, fold, s, first, e); }
      EndsAfterAreTheMatches(p, fold, s, i, rest, e);
      assert starts == [first] + rest;
    }
  }

  // ---------------------------------------------------------------------
  // The patterns of this file
  // ---------------------------------------------------------------------

  const LETTERS := set c: char | 'a' <= c <= 'z'
  const SCHEME := set c: char | 'a' <= c <= 'z' || '0' <= c <= '9' || c in {'+', '.', '-'}
  const NOT_SLASH := One({'/'}, false)
  const SEGMENT := Cat(NOT_SLASH, Many({'/'}, false))

  function Just(c: char): Pattern { One({c}, true) }

  predicate IsWord(word: string) { forall k :: 0 <= k < |word| ==> 'a' <= word[k] <= 'z' }

  function HexDigit(n: nat): char
    requires n < 16
  {
    if n < 10 then '0' + n as char else 'a' + (n - 10) as char
  }

  /** A letter, or `%` and its code: either case's first digit, and the second they share. */
  function Letter(c: char): Pattern
    requires 'a' <= c <= 'z'
  {
    var lower := c as int;
    var upper := Upper(c) as int;
    var high := {HexDigit(upper / 16), HexDigit(lower / 16)};
    Alt(Just(c), Cat(Just('%'), Cat(One(high, true), Just(HexDigit(lower % 16)))))
  }

  function Spelled(word: string): Pattern
    requires IsWord(word)
  {
    if word == "" then Nothing else Cat(Letter(word[0]), Spelled(word[1..]))
  }

  const LINK_ROUTE :=
    Cat(Just('/'), Cat(Opt(Cat(Spelled("api"), Just('/'))), Cat(Alt(Spelled("grant"), Spelled("view")), Just('/'))))

  const ABSOLUTE_URL :=
    Cat(One(LETTERS, true), Cat(Many(SCHEME, true), Cat(Just(':'), Cat(Just('/'), Just('/')))))

  const ORIGIN := Cat(ABSOLUTE_URL, SEGMENT)

  /** The captured parts of `LINK_SEGMENT` and of `REFERRER_LINK_SEGMENT`. */
  const URL_ROUTE := Cat(Opt(ORIGIN), LINK_ROUTE)
  const REFERRER_ROUTE := Cat(ORIGIN, LINK_ROUTE)

  const LINK := ":link"
  const QUERY_MARK := "?..."

  /** The first way to read one of the captured parts and a segment after it: where each ends. */
  function FirstLink(s: string, routeEnds: seq<nat>): (r: Option<(nat, nat)>)
    requires Within(routeEnds, 0, |s|)
    ensures r.Some? ==> r.value.0 <= r.value.1 <= |s|
  {
    if routeEnds == [] then None
    else
      var first, rest := routeEnds[0], routeEnds[1..];
      var ends := Ends(SEGMENT, true, s, first);
      if ends != [] then Some((first, ends[0])) else FirstLink(s, rest)
  }

  /** `path.replace(…, '$1:link')`. */
  function Kept(route: Pattern, path: string): string {
    match FirstLink(path, Ends(route, true, path, 0))
    case None => path
    case Some(at) => path[..at.0] + LINK + path[at.1..]
  }

  /** The first `c` from `i` on, or the end. */
  function Next(s: string, c: char, i: nat): (j: nat)
    requires i <= |s|
    ensures i <= j <= |s| && (forall k :: i <= k < j ==> s[k] != c) && (j < |s| ==> s[j] == c)
    decreases |s| - i
  {
    if i < |s| && s[i] != c then Next(s, c, i + 1) else i
  }

  function PathOf(url: string): string { url[..Next(url, '?', 0)] }

  predicate HasQuery(url: string) { Next(url, '?', 0) < |url| }

  function LoggableUrl(url: Option<string>): string {
    if url.None? || url.value == "" then "-"
    else Kept(URL_ROUTE, PathOf(url.value)) + if HasQuery(url.value) then QUERY_MARK else ""
  }

  predicate IsAbsolute(url: string) { Ends(ABSOLUTE_URL, false, url, 0) != [] }

  function LoggableReferrer(referrer: Option<string>): string {
    if referrer.None? || referrer.value == "" || !IsAbsolute(referrer.value) then "-"
    else Kept(REFERRER_ROUTE, PathOf(referrer.value)) + if HasQuery(referrer.value) then QUERY_MARK else ""
  }

  // ---------------------------------------------------------------------
  // A spelled word is its percent-decoding
  // ---------------------------------------------------------------------

  function HexValue(c: char): Option<nat> {
    if '0' <= c <= '9' then Some((c - '0') as nat)
    else if 'a' <= c <= 'f' then Some((c - 'a') as nat + 10)
    else if 'A' <= c <= 'F' then Some((c - 'A') as nat + 10)
    else None
  }

  /** Percent-decoding, byte by byte; a `%` without two hex digits is an error. */
  function Decode(s: string): Option<string> {
    if s == "" then Some("")
    else if s[0] != '%' then
      var rest := Decode(s[1..]);
      if rest.None? then None else Some([s[0]] + rest.value)
    else if |s| < 3 || HexValue(s[1]).None? || HexValue(s[2]).None? then None
    else
      var rest := Decode(s[3..]);
      if rest.None? then None else Some([(HexValue(s[1]).value * 16 + HexValue(s[2]).value) as char] + rest.value)
  }

  function LowerAll(s: string): string { if s == "" then "" else [Lower(s[0])] + LowerAll(s[1..]) }

  /** A segment names a word: percent-decoded and lower-cased it is the word. */
  predicate Names(segment: string, word: string) {
    var plain := Decode(segment);
    plain.Some? && LowerAll(plain.value) == word
  }

  /** What a letter's pattern reads, in characters. */
  predicate ReadsLetter(c: char, s: string, i: nat, e: nat)
    requires i <= e <= |s|
  {
    || (e == i + 1 && Lower(s[i]) == c)
    || (e == i + 3 && s[i] == '%' && HexValue(s[i + 1]).Some? && HexValue(s[i + 2]).Some?
        && Lower((HexValue(s[i + 1]).value * 16 + HexValue(s[i + 2]).value) as char) == c)
  }

  lemma HexPair(c: char, h: char, l: char)
    requires 'a' <= c <= 'z'
    ensures var high, low := {HexDigit(Upper(c) as int / 16), HexDigit(c as int / 16)}, {HexDigit(c as int % 16)};
            (In(h, high, true, true) && In(l, low, true, true)) <==>
            (HexValue(h).Some? && HexValue(l).Some?
             && Lower((HexValue(h).value * 16 + HexValue(l).value) as char) == c)
  {
    HighDigit(c, h);
    var n := c as int;
    if HexValue(h).Some? && HexValue(l).Some? {
      var high, low := HexValue(h).value, HexValue(l).value;
      SplitByte(n, high, low);
      SplitByte(n - 32, high, low);
    }
  }

  lemma SplitByte(n: nat, high: nat, low: nat)
    requires low < 16
    ensures high * 16 + low == n <==> high == n / 16 && low == n % 16
  {
  }

  lemma HighDigit(c: char, h: char)
    requires 'a' <= c <= 'z'
    ensures In(h, {HexDigit(Upper(c) as int / 16), HexDigit(c as int / 16)}, true, true)
            <==> HexValue(h) == Some(c as int / 16) || HexValue(h) == Some((c as int - 32) / 16)
  {
  }

  /** One class, and then the rest. */
  lemma OneThen(chars: set<char>, inside: bool, b: Pattern, fold: bool, s: string, i: nat, e: nat)
    requires i <= e <= |s|
    ensures Matches(Cat(One(chars, inside), b), fold, s, i, e)
            <==> i < e && In(s[i], chars, inside, fold) && Matches(b, fold, s, i + 1, e)
  {
    var a := One(chars, inside);
    assert Cat(a, b).left == a && Cat(a, b).right == b;
    if !(i < e && In(s[i], chars, inside, fold) && Matches(b, fold, s, i + 1, e)) {
      forall m | i <= m <= e
        ensures !(Matches(a, fold, s, i, m) && Matches(b, fold, s, m, e))
      {
      }
    } else if i < e && In(s[i], chars, inside, fold) {
      assert Matches(a, fold, s, i, i + 1);
    }
  }

  /** `%` and two classed digits. */
  lemma EscapeReads(high: set<char>, low: char, s: string, i: nat, e: nat)
    requires i <= e <= |s|
    ensures Matches(Cat(Just('%'), Cat(One(high, true), Just(low))), true, s, i, e)
            <==> e == i + 3 && s[i] == '%' && In(s[i + 1], high, true, true) && In(s[i + 2], {low}, true, true)
  {
    OneThen({'%'}, true, Cat(One(high, true), Just(low)), true, s, i, e);
    if i + 1 <= e { OneThen(high, true, Just(low), true, s, i + 1, e); }
  }

  lemma LetterReads(c: char, s: string, i: nat, e: nat)
    requires 'a' <= c <= 'z' && i <= e <= |s|
    ensures Matches(Letter(c), true, s, i, e) <==> ReadsLetter(c, s, i, e)
  {
    var high, low := {HexDigit(Upper(c) as int / 16), HexDigit(c as int / 16)}, HexDigit(c as int % 16);
    EscapeReads(high, low, s, i, e);
    if e == i + 3 { HexPair(c, s[i + 1], s[i + 2]); }
    assert Letter(c) == Alt(Just(c), Cat(Just('%'), Cat(One(high, true), Just(low))));
  }

  /** Decoding takes one character or one escape off the front. */
  lemma NamesAhead(c: char, rest: string, s: string, i: nat, e: nat)
    requires 'a' <= c <= 'z' && i <= e <= |s|
    ensures Names(s[i..e], [c] + rest) <==>
            ((i + 1 <= e && ReadsLetter(c, s, i, i + 1) && Names(s[i + 1..e], rest))
             || (i + 3 <= e && ReadsLetter(c, s, i, i + 3) && Names(s[i + 3..e], rest)))
  {
    var segment := s[i..e];
    if i < e {
      var step := if s[i] == '%' then 3 else 1;
      if i + step <= e {
        assert segment[step..] == s[i + step..e];
        DecodeAhead(segment, c, rest);
      }
    }
  }

  lemma DecodeAhead(segment: string, c: char, rest: string)
    requires 'a' <= c <= 'z' && segment != "" && (segment[0] == '%' ==> |segment| >= 3)
    ensures var step := if segment[0] == '%' then 3 else 1;
            Names(segment, [c] + rest) <==> ReadsLetter(c, segment, 0, step) && Names(segment[step..], rest)
  {
    var plain := Decode(segment);
    if plain.Some? {
      assert LowerAll(plain.value) == [Lower(plain.value[0])] + LowerAll(plain.value[1..]);
      assert ([c] + rest)[1..] == rest && LowerAll(plain.value)[1..] == LowerAll(plain.value[1..]);
    }
  }

  /** The spelled pattern reads a segment exactly when the segment names the word. */
  lemma {:induction false} SpelledReads(word: string, s: string, i: nat, e: nat)
    requires IsWord(word) && i <= e <= |s|
    ensures Matches(Spelled(word), true, s, i, e) <==> Names(s[i..e], word)
    decreases |word|
  {
    if word == "" {
    } else {
      var c, rest := word[0], word[1..];
      assert word == [c] + rest;
      NamesAhead(c, rest, s, i, e);
      hide Names;
      forall m | i <= m <= e
        ensures Matches(Letter(c), true, s, i, m) <==> ReadsLetter(c, s, i, m)
      {
        LetterReads(c, s, i, m);
      }
      hide Matches;
      hide Letter;
      if i + 1 <= e { SpelledReads(rest, s, i + 1, e); }
      if i + 3 <= e { SpelledReads(rest, s, i + 3, e); }
    }
  }

  lemma {:induction false} NamesIsPlain(segment: string, word: string)
    requires IsWord(word) && Names(segment, word)
    ensures '/' !in segment
    decreases |segment|
  {
    if segment == "" {
    } else {
      var step := if segment[0] == '%' then 3 else 1;
      var plain := Decode(segment).value;
      assert LowerAll(plain) == [Lower(plain[0])] + LowerAll(plain[1..]);
      assert LowerAll(plain)[0] == word[0];
      assert word[1..] == LowerAll(plain)[1..] == LowerAll(plain[1..]);
      NamesIsPlain(segment[step..], word[1..]);
      assert segment == segment[..step] + segment[step..];
    }
  }

  // ---------------------------------------------------------------------
  // The captured parts, by segments
  // ---------------------------------------------------------------------

  predicate IsLinkWord(segment: string) { Names(segment, "grant") || Names(segment, "view") }

  /** Where `/grant/`, `/view/`, `/api/grant/` or `/api/view/`, as a router reads them, ends. */
  function RouteEnd(s: string, i: nat): Option<nat>
    requires i <= |s|
  {
    if i == |s| || s[i] != '/' then None
    else
      var j := Next(s, '/', i + 1);
      if j == |s| then None
      else if IsLinkWord(s[i + 1..j]) then Some(j + 1)
      else if !Names(s[i + 1..j], "api") then None
      else
        var k := Next(s, '/', j + 1);
        if k < |s| && IsLinkWord(s[j + 1..k]) then Some(k + 1) else None
  }

  /** Where `<scheme>://` ends, a scheme being read in lower case alone unless folded. */
  function SchemeEnd(s: string, fold: bool): (r: Option<nat>)
    ensures r.Some? ==> 4 <= r.value <= |s| && In(s[0], LETTERS, true, fold)
  {
    if s == "" || !In(s[0], LETTERS, true, fold) then None
    else
      var k := RunEnd(s, 1, fold);
      if k + 3 <= |s| && s[k..k + 3] == "://" then Some(k + 3) else None
  }

  function RunEnd(s: string, i: nat, fold: bool): (k: nat)
    requires i <= |s|
    ensures i <= k <= |s| && (forall n :: i <= n < k ==> In(s[n], SCHEME, true, fold))
    ensures k < |s| ==> !In(s[k], SCHEME, true, fold)
    decreases |s| - i
  {
    if i < |s| && In(s[i], SCHEME, true, fold) then RunEnd(s, i + 1, fold) else i
  }

  /** A request's URL, which may be absolute or not, and a Referer, which is absolute. */
  datatype Kind = Request | Referrer

  function Route(kind: Kind): Pattern { if kind.Request? then URL_ROUTE else REFERRER_ROUTE }

  function RouteOf(kind: Kind, s: string): Option<nat> {
    if kind.Request? && s != "" && s[0] == '/' then RouteEnd(s, 0)
    else
      var scheme := SchemeEnd(s, true);
      if scheme.None? then None
      else
        var j := Next(s, '/', scheme.value);
        if j == scheme.value then None else RouteEnd(s, j)
  }

  lemma ThenOne(a: Pattern, c: char, fold: bool, s: string, i: nat, e: nat)
    requires i <= e <= |s| && Lower(c) == Upper(c)
    ensures Matches(Cat(a, Just(c)), fold, s, i, e) <==> i < e && s[e - 1] == c && Matches(a, fold, s, i, e - 1)
  {
    var b := Just(c);
    if i < e && s[e - 1] == c && Matches(a, fold, s, i, e - 1) {
      assert Matches(b, fold, s, e - 1, e);
    } else {
      forall m | i <= m <= e
        ensures !(Matches(a, fold, s, i, m) && Matches(b, fold, s, m, e))
      {
      }
    }
  }

  lemma OptThen(a: Pattern, b: Pattern, fold: bool, s: string, i: nat, e: nat)
    requires i <= e <= |s|
    ensures Matches(Cat(Opt(a), b), fold, s, i, e) <==> Matches(b, fold, s, i, e) || Matches(Cat(a, b), fold, s, i, e)
  {
    assert Matches(Opt(a), fold, s, i, i);
    forall m | i <= m <= e
      ensures Matches(Opt(a), fold, s, i, m) <==> m == i || Matches(a, fold, s, i, m)
    {
    }
  }

  /** A pattern with one place to end, and then the rest. */
  lemma OnlyThen(a: Pattern, b: Pattern, fold: bool, s: string, i: nat, e: nat, at: Option<nat>)
    requires i <= e <= |s|
    requires forall m :: i <= m <= e ==> (Matches(a, fold, s, i, m) <==> at == Some(m))
    ensures Matches(Cat(a, b), fold, s, i, e) <==> at.Some? && i <= at.value <= e && Matches(b, fold, s, at.value, e)
  {
  }

  lemma LinkWordReads(s: string, i: nat, e: nat)
    requires i <= e <= |s|
    ensures Matches(Alt(Spelled("grant"), Spelled("view")), true, s, i, e) <==> IsLinkWord(s[i..e])
  {
    hide Names;
    hide Spelled;
    SpelledReads("grant", s, i, e);
    SpelledReads("view", s, i, e);
  }

  lemma ApiReads(s: string, i: nat, e: nat)
    requires i <= e <= |s|
    ensures Matches(Cat(Spelled("api"), Just('/')), true, s, i, e) <==>
            (Next(s, '/', i) < |s| && e == Next(s, '/', i) + 1 && Names(s[i..e - 1], "api"))
  {
    hide Names;
    hide Spelled;
    hide Matches;
    ThenOne(Spelled("api"), '/', true, s, i, e);
    if i < e {
      SpelledReads("api", s, i, e - 1);
      if Names(s[i..e - 1], "api") { NamesIsPlain(s[i..e - 1], "api"); }
    }
  }

  lemma WordReads(s: string, i: nat, e: nat)
    requires i <= e <= |s|
    ensures Matches(Cat(Alt(Spelled("grant"), Spelled("view")), Just('/')), true, s, i, e) <==>
            (Next(s, '/', i) < |s| && e == Next(s, '/', i) + 1 && IsLinkWord(s[i..e - 1]))
  {
    hide Names;
    hide Spelled;
    hide Matches;
    ThenOne(Alt(Spelled("grant"), Spelled("view")), '/', true, s, i, e);
    if i < e {
      LinkWordReads(s, i, e - 1);
      if Names(s[i..e - 1], "grant") { NamesIsPlain(s[i..e - 1], "grant"); }
      if Names(s[i..e - 1], "view") { NamesIsPlain(s[i..e - 1], "view"); }
    }
  }

  lemma ApiIsNoLinkWord(segment: string)
    requires Names(segment, "api")
    ensures !IsLinkWord(segment)
  {
  }

  /** The route after its first slash: perhaps `api/`, then a link word and a slash. */
  lemma AfterTheSlash(s: string, i: nat, e: nat)
    requires i <= e <= |s|
    ensures var j := Next(s, '/', i);
            var api, words := Cat(Spelled("api"), Just('/')), Cat(Alt(Spelled("grant"), Spelled("view")), Just('/'));
            Matches(Cat(Opt(api), words), true, s, i, e) <==>
              ((j < |s| && e == j + 1 && IsLinkWord(s[i..j]))
               || (j < |s| && Names(s[i..j], "api") && j < e && Matches(words, true, s, j + 1, e)))
  {
    hide Names;
    hide Spelled;
    hide Matches;
    hide IsLinkWord;
    var api, words := Cat(Spelled("api"), Just('/')), Cat(Alt(Spelled("grant"), Spelled("view")), Just('/'));
    var j := Next(s, '/', i);
    OptThen(api, words, true, s, i, e);
    WordReads(s, i, e);
    var at := if j < |s| && Names(s[i..j], "api") then Some(j + 1) else None;
    forall m | i <= m <= e
      ensures Matches(api, true, s, i, m) <==> at == Some(m)
    {
      ApiReads(s, i, m);
    }
    OnlyThen(api, words, true, s, i, e, at);
  }

  /** The route pattern reads one place, the one the segments give. */
  lemma RouteReads(s: string, i: nat, e: nat)
    requires i <= e <= |s|
    ensures Matches(LINK_ROUTE, true, s, i, e) <==> RouteEnd(s, i) == Some(e)
  {
    hide Names;
    hide Spelled;
    hide Matches;
    hide IsLinkWord;
    var api, words := Cat(Spelled("api"), Just('/')), Cat(Alt(Spelled("grant"), Spelled("view")), Just('/'));
    OneThen({'/'}, true, Cat(Opt(api), words), true, s, i, e);
    if i < e && s[i] == '/' {
      var j := Next(s, '/', i + 1);
      AfterTheSlash(s, i + 1, e);
      if j < |s| {
        if Names(s[i + 1..j], "api") { ApiIsNoLinkWord(s[i + 1..j]); }
        if j + 1 <= e { WordReads(s, j + 1, e); }
      }
    }
  }

  /** A second part that reads from one place alone. */
  lemma OnlyFrom(a: Pattern, b: Pattern, fold: bool, s: string, i: nat, e: nat, k: nat)
    requires i <= e <= |s|
    requires forall m :: i <= m <= e && Matches(a, fold, s, i, m) && Matches(b, fold, s, m, e) ==> m == k
    ensures Matches(Cat(a, b), fold, s, i, e) <==> i <= k <= e && Matches(a, fold, s, i, k) && Matches(b, fold, s, k, e)
  {
  }

  /** A scheme's run of characters, and then a colon. */
  lemma RunThen(b: Pattern, fold: bool, s: string, i: nat, e: nat)
    requires i <= e <= |s|
    ensures var k := RunEnd(s, i, fold);
            Matches(Cat(Many(SCHEME, true), Cat(Just(':'), b)), fold, s, i, e) <==>
            k < e && s[k] == ':' && Matches(b, fold, s, k + 1, e)
  {
    var k := RunEnd(s, i, fold);
    var a, rest := Many(SCHEME, true), Cat(Just(':'), b);
    assert !In(':', SCHEME, true, fold);
    assert In(':', {':'}, true, fold);
    forall m | i <= m <= e && Matches(a, fold, s, i, m) && Matches(rest, fold, s, m, e)
      ensures m == k
    {
      OneThen({':'}, true, b, fold, s, m, e);
      assert s[m] == ':';
      hide In;
    }
    OnlyFrom(a, rest, fold, s, i, e, k);
    if k <= e { OneThen({':'}, true, b, fold, s, k, e); }
  }

  lemma TwoSlashes(fold: bool, s: string, i: nat, e: nat)
    requires i <= e <= |s|
    ensures Matches(Cat(Just('/'), Just('/')), fold, s, i, e) <==> e == i + 2 && s[i] == '/' && s[i + 1] == '/'
  {
    OneThen({'/'}, true, Just('/'), fold, s, i, e);
  }

  lemma SchemeReads(fold: bool, s: string, e: nat)
    requires e <= |s|
    ensures Matches(ABSOLUTE_URL, fold, s, 0, e) <==> SchemeEnd(s, fold) == Some(e)
  {
    hide Matches;
    hide In;
    OneThen(LETTERS, true, Cat(Many(SCHEME, true), Cat(Just(':'), Cat(Just('/'), Just('/')))), fold, s, 0, e);
    if 0 < e {
      RunThen(Cat(Just('/'), Just('/')), fold, s, 1, e);
      var k := RunEnd(s, 1, fold);
      hide RunEnd;
      if k < e { TwoSlashes(fold, s, k + 1, e); }
      if k + 3 <= |s| { Colon(s, k); }
    }
  }

  lemma Colon(s: string, k: nat)
    requires k + 3 <= |s|
    ensures s[k..k + 3] == "://" <==> s[k] == ':' && s[k + 1] == '/' && s[k + 2] == '/'
  {
    var three := s[k..k + 3];
    assert three == [s[k], s[k + 1], s[k + 2]];
    if three == "://" { assert three[0] == ':' && three[1] == '/' && three[2] == '/'; }
  }

  lemma SegmentReads(s: string, i: nat, e: nat)
    requires i <= e <= |s|
    ensures Matches(SEGMENT, true, s, i, e) <==> i < e <= Next(s, '/', i)
  {
    OneThen({'/'}, false, Many({'/'}, false), true, s, i, e);
    assert i < e && e <= Next(s, '/', i) ==> forall k :: i <= k < e ==> s[k] != '/';
  }

  lemma OriginReads(s: string, e: nat)
    requires e <= |s|
    ensures Matches(ORIGIN, true, s, 0, e) <==>
            (SchemeEnd(s, true).Some? && SchemeEnd(s, true).value < e <= Next(s, '/', SchemeEnd(s, true).value))
  {
    hide Matches;
    var scheme := SchemeEnd(s, true);
    forall m | 0 <= m <= e
      ensures Matches(ABSOLUTE_URL, true, s, 0, m) <==> scheme == Some(m)
    {
      SchemeReads(true, s, m);
    }
    OnlyThen(ABSOLUTE_URL, SEGMENT, true, s, 0, e, scheme);
    if scheme.Some? && scheme.value <= e { SegmentReads(s, scheme.value, e); }
  }

  lemma BehindAnOrigin(s: string, e: nat)
    requires e <= |s|
    ensures Matches(REFERRER_ROUTE, true, s, 0, e) <==> RouteOf(Referrer, s) == Some(e)
  {
    hide Matches;
    hide RouteEnd;
    hide SchemeEnd;
    var scheme := SchemeEnd(s, true);
    var k := if scheme.None? then 0 else Next(s, '/', scheme.value);
    forall m | 0 <= m <= e && Matches(ORIGIN, true, s, 0, m) && Matches(LINK_ROUTE, true, s, m, e)
      ensures m == k
    {
      OriginReads(s, m);
      RouteReads(s, m, e);
      RouteStarts(s, m);
    }
    OnlyFrom(ORIGIN, LINK_ROUTE, true, s, 0, e, k);
    RouteStarts(s, k);
    if k <= e {
      OriginReads(s, k);
      RouteReads(s, k, e);
    }
  }

  lemma RouteStarts(s: string, i: nat)
    requires i <= |s|
    ensures RouteEnd(s, i).Some? ==> i < |s| && s[i] == '/' && i < RouteEnd(s, i).value <= |s|
  {
  }

  /** Each captured part reads one place, the one the segments give. */
  lemma RouteOfIsThePattern(kind: Kind, s: string, e: nat)
    requires e <= |s|
    ensures Matches(Route(kind), true, s, 0, e) <==> RouteOf(kind, s) == Some(e)
  {
    hide Matches;
    hide RouteEnd;
    BehindAnOrigin(s, e);
    if kind.Request? {
      OptThen(ORIGIN, LINK_ROUTE, true, s, 0, e);
      RouteReads(s, 0, e);
      RouteStarts(s, 0);
    }
  }

  // ---------------------------------------------------------------------
  // What is kept
  // ---------------------------------------------------------------------

  /** Where the link starts, when a segment follows the route. */
  function LinkAt(kind: Kind, s: string): (r: Option<nat>) {
    var e := RouteOf(kind, s);
    if e.Some? && e.value < |s| && s[e.value] != '/' then e else None
  }

  lemma GreedyRun(s: string, i: nat)
    requires i <= |s|
    ensures Ends(Many({'/'}, false), true, s, i) != [] && Ends(Many({'/'}, false), true, s, i)[0] == Next(s, '/', i)
    decreases |s| - i
  {
    if i < |s| && s[i] != '/' { GreedyRun(s, i + 1); }
  }

  /** The matcher's first answer for a segment is the whole of it. */
  lemma GreedySegment(s: string, i: nat)
    requires i <= |s|
    ensures var ends := Ends(SEGMENT, true, s, i);
            if i < |s| && s[i] != '/' then ends != [] && ends[0] == Next(s, '/', i) else ends == []
  {
    if i < |s| && s[i] != '/' {
      GreedyRun(s, i + 1);
      assert Ends(NOT_SLASH, true, s, i) == [i + 1];
    } else {
      assert Ends(NOT_SLASH, true, s, i) == [];
    }
  }

  lemma {:induction false} FirstLinkIs(kind: Kind, s: string, ends: seq<nat>)
    requires Within(ends, 0, |s|) && forall e :: e in ends ==> RouteOf(kind, s) == Some(e)
    ensures ends == [] || LinkAt(kind, s).None? ==> FirstLink(s, ends) == None
    ensures ends != [] && LinkAt(kind, s).Some? ==>
              FirstLink(s, ends) == Some((LinkAt(kind, s).value, Next(s, '/', LinkAt(kind, s).value)))
    decreases |ends|
  {
    if ends == [] {
    } else {
      hide RouteOf;
      assert ends == [ends[0]] + ends[1..];
      assert ends[0] in ends;
      GreedySegment(s, ends[0]);
      FirstLinkIs(kind, s, ends[1..]);
    }
  }

  lemma EndsAreTheRoute(kind: Kind, s: string)
    ensures var ends := Ends(Route(kind), true, s, 0);
            && (forall e :: e in ends ==> RouteOf(kind, s) == Some(e))
            && (ends == [] ==> RouteOf(kind, s).None?)
  {
    var ends := Ends(Route(kind), true, s, 0);
    forall e | e in ends
      ensures RouteOf(kind, s) == Some(e)
    {
      var k :| 0 <= k < |ends| && ends[k] == e;
      EndsAreTheMatches(Route(kind), true, s, 0, e);
      RouteOfIsThePattern(kind, s, e);
    }
    if ends == [] && RouteOf(kind, s).Some? {
      RouteInside(kind, s);
      var e := RouteOf(kind, s).value;
      EndsAreTheMatches(Route(kind), true, s, 0, e);
      RouteOfIsThePattern(kind, s, e);
    }
  }

  lemma RouteInside(kind: Kind, s: string)
    ensures RouteOf(kind, s).Some? ==> RouteOf(kind, s).value <= |s|
  {
  }

  /** The replacement takes out the one segment after the route, and nothing else. */
  lemma KeptIs(kind: Kind, s: string)
    ensures LinkAt(kind, s).Some? ==> LinkAt(kind, s).value <= |s|
    ensures var at := LinkAt(kind, s);
            Kept(Route(kind), s) == if at.None? then s else s[..at.value] + LINK + s[Next(s, '/', at.value)..]
  {
    hide RouteOf;
    hide Ends;
    hide Route;
    EndsAreTheRoute(kind, s);
    FirstLinkIs(kind, s, Ends(Route(kind), true, s, 0));
  }

  /** What a pattern reads depends on nothing outside it: the same characters elsewhere are read alike. */
  lemma {:induction false} MatchesMoves(p: Pattern, fold: bool, s: string, i: nat, e: nat, t: string, d: int)
    requires i <= e <= |s| && 0 <= i + d && e + d <= |t| && forall k :: i <= k < e ==> s[k] == t[k + d]
    requires Matches(p, fold, s, i, e)
    ensures Matches(p, fold, t, i + d, e + d)
    decreases p
  {
    hide In;
    match p
    case Nothing =>
    case One(_, _) =>
    case Many(chars, inside) =>
      forall n | i + d <= n < e + d
        ensures In(t[n], chars, inside, fold)
      {
        assert s[n - d] == t[n - d + d];
      }
    case Cat(a, b) =>
      forall m | i <= m <= e && Matches(a, fold, s, i, m)
        ensures Matches(a, fold, t, i + d, m + d)
      {
        MatchesMoves(a, fold, s, i, m, t, d);
      }
      forall m | i <= m <= e && Matches(b, fold, s, m, e)
        ensures Matches(b, fold, t, m + d, e + d)
      {
        MatchesMoves(b, fold, s, m, e, t, d);
      }
    case Alt(a, b) =>
      if Matches(a, fold, s, i, e) {
        MatchesMoves(a, fold, s, i, e, t, d);
      } else {
        MatchesMoves(b, fold, s, i, e, t, d);
      }
    case Opt(a) =>
      if e > i { MatchesMoves(a, fold, s, i, e, t, d); }
  }

  // ---------------------------------------------------------------------
  // Non-interference
  // ---------------------------------------------------------------------

  /** A whole route, as far as the link. */
  ghost predicate IsRoute(kind: Kind, route: string) { Matches(Route(kind), true, route, 0, |route|) }

  predicate IsLink(x: string) { x != "" && '/' !in x }

  predicate IsRest(rest: string) { rest == "" || rest[0] == '/' }

  ghost predicate DifferInLink(kind: Kind, p: string, q: string, route: string, x: string, y: string, rest: string) {
    IsRoute(kind, route) && IsLink(x) && IsLink(y) && IsRest(rest) && p == route + x + rest && q == route + y + rest
  }

  /** Two paths that differ in nothing but the segment after a link's route. */
  ghost predicate Alike(kind: Kind, p: string, q: string) {
    p == q || exists route, x, y, rest :: DifferInLink(kind, p, q, route, x, y, rest)
  }

  lemma RouteIsLocal(kind: Kind, s: string, t: string, e: nat)
    requires e <= |s| && e <= |t| && s[..e] == t[..e] && RouteOf(kind, s) == Some(e)
    ensures RouteOf(kind, t) == Some(e)
  {
    hide RouteOf;
    hide Route;
    RouteOfIsThePattern(kind, s, e);
    forall k | 0 <= k < e
      ensures s[k] == t[k + 0]
    {
      assert s[..e][k] == t[..e][k];
    }
    MatchesMoves(Route(kind), true, s, 0, e, t, 0);
    RouteOfIsThePattern(kind, t, e);
  }

  /** A link is kept as `:link`, whatever it says. */
  lemma KeptOfParts(kind: Kind, route: string, x: string, rest: string)
    requires IsRoute(kind, route) && IsLink(x) && IsRest(rest)
    ensures LinkAt(kind, route + x + rest) == Some(|route|)
    ensures Kept(Route(kind), route + x + rest) == route + LINK + rest
  {
    hide RouteOf;
    hide Route;
    var s := route + x + rest;
    RouteOfIsThePattern(kind, route, |route|);
    assert s[..|route|] == route == route[..|route|];
    RouteIsLocal(kind, route, s, |route|);
    assert s[|route|] == x[0];
    KeptIs(kind, s);
    forall k | |route| <= k < |route + x|
      ensures s[k] != '/'
    {
      assert s[k] == x[k - |route|];
    }
    assert s[|route + x|..] == rest;
  }

  /** A path with a link in it is a route, a link and a rest. */
  lemma PartsOf(kind: Kind, s: string) returns (route: string, x: string, rest: string)
    requires LinkAt(kind, s).Some?
    ensures s == route + x + rest && IsRoute(kind, route) && IsLink(x) && IsRest(rest)
  {
    hide Matches;
    hide RouteOf;
    hide Route;
    RouteInside(kind, s);
    var at := LinkAt(kind, s).value;
    var j := Next(s, '/', at);
    route, x, rest := s[..at], s[at..j], s[j..];
    assert s == route + x + rest;
    assert s[..at] == route[..at];
    RouteIsLocal(kind, s, route, at);
    RouteOfIsThePattern(kind, route, at);
    forall k | 0 <= k < |x|
      ensures x[k] != '/'
    {
      assert s[at + k] == x[k];
    }
  }

  lemma KeptOnce(kind: Kind, s: string)
    ensures Kept(Route(kind), Kept(Route(kind), s)) == Kept(Route(kind), s)
  {
    hide LinkAt;
    hide Route;
    hide Kept;
    KeptIs(kind, s);
    if LinkAt(kind, s).Some? {
      var route, x, rest := PartsOf(kind, s);
      KeptOfParts(kind, route, x, rest);
      KeptOfParts(kind, route, LINK, rest);
    }
  }

  lemma KeptDecides(kind: Kind, p: string, q: string)
    ensures Kept(Route(kind), p) == Kept(Route(kind), q) <==> Alike(kind, p, q)
  {
    if Alike(kind, p, q) {
      if p != q { AlikeIsKept(kind, p, q); }
    } else if Kept(Route(kind), p) == Kept(Route(kind), q) {
      KeptAlikeIsAlike(kind, p, q);
    }
  }

  lemma AlikeIsKept(kind: Kind, p: string, q: string)
    requires exists route, x, y, rest :: DifferInLink(kind, p, q, route, x, y, rest)
    ensures Kept(Route(kind), p) == Kept(Route(kind), q)
  {
    hide Kept;
    hide Route;
    hide IsRoute;
    var route, x, y, rest :| DifferInLink(kind, p, q, route, x, y, rest);
    KeptOfParts(kind, route, x, rest);
    KeptOfParts(kind, route, y, rest);
  }

  lemma KeptAlikeIsAlike(kind: Kind, p: string, q: string)
    requires Kept(Route(kind), p) == Kept(Route(kind), q)
    ensures Alike(kind, p, q)
  {
    hide Kept;
    hide Route;
    hide IsRoute;
    hide LinkAt;
    KeptIs(kind, p);
    KeptIs(kind, q);
    if LinkAt(kind, p).Some? {
      var route, x, rest := PartsOf(kind, p);
      KeptOfParts(kind, route, x, rest);
      KeptOfParts(kind, route, LINK, rest);
      var y := LINK;
      if LinkAt(kind, q).Some? {
        var route', x', rest' := PartsOf(kind, q);
        KeptOfParts(kind, route', x', rest');
        KeptOfParts(kind, route', LINK, rest');
        SameParts(route, route', rest, rest');
        y := x';
      }
      assert DifferInLink(kind, p, q, route, x, y, rest);
    } else if LinkAt(kind, q).Some? {
      var route, y, rest := PartsOf(kind, q);
      KeptOfParts(kind, route, y, rest);
      assert DifferInLink(kind, p, q, route, LINK, y, rest);
    }
  }

  lemma SameParts(route: string, route': string, rest: string, rest': string)
    requires |route| == |route'| && route + LINK + rest == route' + LINK + rest'
    ensures route == route' && rest == rest'
  {
    var all := route + LINK + rest;
    assert route == all[..|route|] && route' == all[..|route|];
    assert rest == all[|route + LINK|..] && rest' == all[|route + LINK|..];
  }

  function Mark(url: string): string { if HasQuery(url) then QUERY_MARK else "" }

  /** What either function makes of a URL it does not refuse. */
  function Body(kind: Kind, url: string): string { Kept(Route(kind), PathOf(url)) + Mark(url) }

  lemma KeptHasNoQuery(kind: Kind, s: string)
    requires '?' !in s
    ensures '?' !in Kept(Route(kind), s)
  {
    hide LinkAt;
    hide Kept;
    hide Route;
    KeptIs(kind, s);
    var at := LinkAt(kind, s);
    if at.Some? {
      var a, b := s[..at.value], s[Next(s, '/', at.value)..];
      assert forall c :: c in a || c in b ==> c in s;
      assert '?' !in LINK;
    }
  }

  /** A path and what is put behind it come apart again. */
  lemma PathOfParts(path: string, query: string)
    requires '?' !in path && (query == "" || query[0] == '?')
    ensures PathOf(path + query) == path && (HasQuery(path + query) <==> query != "")
  {
    var url := path + query;
    forall k | 0 <= k < |path|
      ensures url[k] != '?'
    {
      assert url[k] == path[k];
    }
    assert query != "" ==> url[|path|] == query[0];
  }

  lemma BodyParts(kind: Kind, url: string)
    ensures PathOf(Body(kind, url)) == Kept(Route(kind), PathOf(url)) && HasQuery(Body(kind, url)) == HasQuery(url)
  {
    hide Kept;
    hide Route;
    KeptHasNoQuery(kind, PathOf(url));
    PathOfParts(Kept(Route(kind), PathOf(url)), Mark(url));
  }

  /** Two URLs the log may not tell apart: alike but for the link and for what the query says. */
  ghost predicate AlikeButSecrets(kind: Kind, u: string, v: string) {
    HasQuery(u) == HasQuery(v) && Alike(kind, PathOf(u), PathOf(v))
  }

  lemma BodyDecides(kind: Kind, u: string, v: string)
    ensures Body(kind, u) == Body(kind, v) <==> AlikeButSecrets(kind, u, v)
  {
    hide Kept;
    hide Route;
    hide Alike;
    hide PathOf;
    hide HasQuery;
    BodyParts(kind, u);
    BodyParts(kind, v);
    KeptDecides(kind, PathOf(u), PathOf(v));
  }

  lemma BodyOnce(kind: Kind, url: string)
    ensures Body(kind, Body(kind, url)) == Body(kind, url)
  {
    hide Kept;
    hide Route;
    hide PathOf;
    hide HasQuery;
    BodyParts(kind, url);
    KeptOnce(kind, PathOf(url));
  }

  lemma DashIsKept(kind: Kind)
    ensures Body(kind, "-") == "-"
  {
    hide Kept;
    hide Route;
    hide RouteEnd;
    KeptIs(kind, "-");
    assert SchemeEnd("-", true).None? by { hide RunEnd; }
    assert Next("-", '?', 0) == 1;
    assert PathOf("-") == "-";
  }

  /** A URL with its blanks made one. */
  function ShownUrl(url: Option<string>): string { if url.None? || url.value == "" then "-" else url.value }

  lemma UrlIsItsBody(url: Option<string>)
    ensures LoggableUrl(url) == Body(Request, ShownUrl(url))
  {
    DashIsKept(Request);
    hide Kept;
  }

  /**
   The access log tells two request URLs apart exactly when they differ in
   something other than the link and what their queries say.
   */
  lemma UrlLogTellsNoSecret(u: Option<string>, v: Option<string>)
    ensures LoggableUrl(u) == LoggableUrl(v) <==> AlikeButSecrets(Request, ShownUrl(u), ShownUrl(v))
  {
    UrlIsItsBody(u);
    UrlIsItsBody(v);
    BodyDecides(Request, ShownUrl(u), ShownUrl(v));
    hide LoggableUrl;
    hide Body;
    hide AlikeButSecrets;
  }

  lemma BodyIsNotEmpty(kind: Kind, url: string)
    requires url != ""
    ensures Body(kind, url) != ""
  {
    hide LinkAt;
    hide Kept;
    hide Route;
    KeptIs(kind, PathOf(url));
  }

  lemma UrlLogIsIdempotent(url: Option<string>)
    ensures LoggableUrl(Some(LoggableUrl(url))) == LoggableUrl(url)
  {
    var once := LoggableUrl(url);
    UrlIsItsBody(url);
    UrlIsItsBody(Some(once));
    BodyOnce(Request, ShownUrl(url));
    BodyIsNotEmpty(Request, ShownUrl(url));
    hide LoggableUrl;
    hide Body;
  }

  // ---------------------------------------------------------------------
  // The Referer
  // ---------------------------------------------------------------------

  lemma AbsoluteIsAScheme(url: string)
    ensures IsAbsolute(url) <==> SchemeEnd(url, false).Some?
  {
    hide Matches;
    var ends := Ends(ABSOLUTE_URL, false, url, 0);
    if ends != [] {
      var e := ends[0];
      EndsAreTheMatches(ABSOLUTE_URL, false, url, 0, e);
      SchemeReads(false, url, e);
    }
    if SchemeEnd(url, false).Some? {
      var e := SchemeEnd(url, false).value;
      EndsAreTheMatches(ABSOLUTE_URL, false, url, 0, e);
      SchemeReads(false, url, e);
    }
  }

  /** A scheme in lower case is one in any case. */
  lemma FoldedScheme(s: string)
    requires SchemeEnd(s, false).Some?
    ensures SchemeEnd(s, true) == SchemeEnd(s, false)
  {
    var k := SchemeEnd(s, false).value - 3;
    assert s[k..k + 3][0] == ':';
    FoldedRun(s, 1);
  }

  lemma FoldedRun(s: string, i: nat)
    requires i <= |s| && RunEnd(s, i, false) < |s| && s[RunEnd(s, i, false)] == ':'
    ensures RunEnd(s, i, true) == RunEnd(s, i, false)
    decreases |s| - i
  {
    if In(s[i], SCHEME, true, false) { FoldedRun(s, i + 1); }
  }

  lemma SchemeIsLocal(s: string, t: string, h: nat, fold: bool)
    requires h <= |s| && h <= |t| && s[..h] == t[..h] && SchemeEnd(s, fold) == Some(h)
    ensures SchemeEnd(t, fold) == Some(h)
  {
    hide SchemeEnd;
    SchemeReads(fold, s, h);
    forall k | 0 <= k < h
      ensures s[k] == t[k + 0]
    {
      assert s[..h][k] == t[..h][k];
    }
    MatchesMoves(ABSOLUTE_URL, fold, s, 0, h, t, 0);
    SchemeReads(fold, t, h);
  }

  /** No character of a scheme is `?`. */
  lemma SchemeHasNoQuery(s: string)
    requires SchemeEnd(s, false).Some?
    ensures forall k :: 0 <= k < SchemeEnd(s, false).value ==> s[k] != '?'
  {
    var h := SchemeEnd(s, false).value;
    forall k | 0 <= k < h
      ensures s[k] != '?'
    {
      if k >= h - 3 { assert s[k] == s[h - 3..h][k - (h - 3)]; }
    }
  }

  /** The scheme is in the path. */
  lemma PathHasTheScheme(url: string)
    requires SchemeEnd(url, false).Some?
    ensures SchemeEnd(PathOf(url), false) == SchemeEnd(url, false)
    ensures SchemeEnd(url, false).value <= |PathOf(url)|
  {
    hide RunEnd;
    hide Matches;
    var h, path := SchemeEnd(url, false).value, PathOf(url);
    SchemeHasNoQuery(url);
    hide SchemeEnd;
    assert h <= |path|;
    assert url[..h] == path[..h];
    SchemeIsLocal(url, path, h, false);
  }

  /** A link is behind the scheme. */
  lemma LinkIsPastTheScheme(path: string)
    requires SchemeEnd(path, false).Some?
    ensures LinkAt(Referrer, path).Some? ==> SchemeEnd(path, false).value <= LinkAt(Referrer, path).value <= |path|
  {
    FoldedScheme(path);
    hide RunEnd;
    hide RouteEnd;
    hide Matches;
    RouteStarts(path, Next(path, '/', SchemeEnd(path, false).value));
    hide SchemeEnd;
  }

  /** What is kept of an absolute URL is absolute. */
  lemma BodyIsAbsolute(url: string)
    requires SchemeEnd(url, false).Some?
    ensures SchemeEnd(Body(Referrer, url), false).Some?
  {
    hide SchemeEnd;
    hide Route;
    hide RouteOf;
    hide Kept;
    hide LinkAt;
    hide Matches;
    var h, path := SchemeEnd(url, false).value, PathOf(url);
    PathHasTheScheme(url);
    LinkIsPastTheScheme(path);
    hide PathOf;
    KeptIs(Referrer, path);
    var at := LinkAt(Referrer, path);
    if at.Some? { assert path[..at.value][..h] == path[..h]; }
    assert Body(Referrer, url)[..h] == path[..h];
    SchemeIsLocal(path, Body(Referrer, url), h, false);
  }

  /** A Referer with everything that is no URL made one. */
  function ShownReferrer(referrer: Option<string>): string {
    if referrer.None? || !IsAbsolute(referrer.value) then "-" else referrer.value
  }

  lemma ReferrerIsItsBody(referrer: Option<string>)
    ensures LoggableReferrer(referrer) == Body(Referrer, ShownReferrer(referrer))
  {
    DashIsKept(Referrer);
    if referrer.Some? { AbsoluteIsAScheme(referrer.value); }
    hide Kept;
    hide IsAbsolute;
  }

  lemma ReferrerLogTellsNoSecret(u: Option<string>, v: Option<string>)
    ensures LoggableReferrer(u) == LoggableReferrer(v)
            <==> AlikeButSecrets(Referrer, ShownReferrer(u), ShownReferrer(v))
  {
    ReferrerIsItsBody(u);
    ReferrerIsItsBody(v);
    BodyDecides(Referrer, ShownReferrer(u), ShownReferrer(v));
    hide LoggableReferrer;
    hide Body;
    hide AlikeButSecrets;
  }

  lemma ReferrerLogIsIdempotent(referrer: Option<string>)
    ensures LoggableReferrer(Some(LoggableReferrer(referrer))) == LoggableReferrer(referrer)
  {
    var once := LoggableReferrer(referrer);
    var shown := ShownReferrer(referrer);
    ReferrerIsItsBody(referrer);
    ReferrerIsItsBody(Some(once));
    BodyOnce(Referrer, shown);
    DashIsKept(Referrer);
    AbsoluteIsAScheme(shown);
    AbsoluteIsAScheme(once);
    if shown != "-" { BodyIsAbsolute(shown); }
    hide LoggableReferrer;
    hide Body;
    hide IsAbsolute;
    hide SchemeEnd;
  }

  /** A lower-case scheme with its `://`, and a host, which may be empty. */
  ghost predicate IsOrigin(scheme: string, host: string) {
    Matches(ABSOLUTE_URL, false, scheme, 0, |scheme|) && '/' !in host && '?' !in host
  }

  lemma RouteMovesRight(origin: string, p: string, e: nat)
    requires e <= |p| && RouteEnd(p, 0) == Some(e)
    ensures RouteEnd(origin + p, |origin|) == Some(|origin| + e)
  {
    var s, d := origin + p, |origin|;
    hide RouteEnd;
    hide Matches;
    RouteReads(p, 0, e);
    RouteReads(s, d, d + e);
    MatchesMoves(LINK_ROUTE, true, p, 0, e, s, d);
  }

  lemma RouteMovesLeft(origin: string, p: string, e: nat)
    requires e <= |p| && RouteEnd(origin + p, |origin|) == Some(|origin| + e)
    ensures RouteEnd(p, 0) == Some(e)
  {
    var s, d := origin + p, |origin|;
    hide RouteEnd;
    hide Matches;
    RouteReads(p, 0, e);
    RouteReads(s, d, d + e);
    forall k | d <= k < d + e
      ensures s[k] == p[k + -d]
    {
    }
    MatchesMoves(LINK_ROUTE, true, s, d, d + e, p, -d);
  }

  /** A route behind an origin is read where it would be read alone. */
  lemma RouteMoves(origin: string, p: string)
    ensures RouteEnd(origin + p, |origin|) ==
            if RouteEnd(p, 0).None? then None else Some(|origin| + RouteEnd(p, 0).value)
  {
    var s, d := origin + p, |origin|;
    RouteStarts(p, 0);
    RouteStarts(s, d);
    hide RouteEnd;
    if RouteEnd(p, 0).Some? { RouteMovesRight(origin, p, RouteEnd(p, 0).value); }
    else if RouteEnd(s, d).Some? { RouteMovesLeft(origin, p, RouteEnd(s, d).value - d); }
  }

  lemma OriginScheme(scheme: string, host: string, p: string)
    requires IsOrigin(scheme, host)
    ensures SchemeEnd(scheme + host + p, false) == Some(|scheme|)
            && SchemeEnd(scheme + host + p, true) == Some(|scheme|)
    ensures '?' !in scheme
  {
    var s := scheme + host + p;
    hide Matches;
    hide RunEnd;
    SchemeReads(false, scheme, |scheme|);
    SchemeHasNoQuery(scheme);
    assert scheme[..|scheme|] == s[..|scheme|];
    SchemeIsLocal(scheme, s, |scheme|, false);
    FoldedScheme(s);
  }

  lemma RouteBehindAnOrigin(scheme: string, host: string, p: string)
    requires IsOrigin(scheme, host) && p != "" && p[0] == '/'
    ensures var origin := scheme + host;
            RouteOf(Referrer, origin + p) == if host == "" then None else RouteEnd(origin + p, |origin|)
  {
    var origin := scheme + host;
    var s := origin + p;
    OriginScheme(scheme, host, p);
    HostEnds(scheme, host, p);
    hide SchemeEnd;
    hide RouteEnd;
    hide Next;
    hide IsOrigin;
  }

  lemma HostEnds(scheme: string, host: string, p: string)
    requires '/' !in host && p != "" && p[0] == '/'
    ensures Next(scheme + host + p, '/', |scheme|) == |scheme + host|
  {
    var s, n := scheme + host + p, |scheme + host|;
    assert s[n] == '/';
    forall k | |scheme| <= k < n
      ensures s[k] != '/'
    {
      assert s[k] == host[k - |scheme|];
    }
    hide Next;
  }

  lemma RouteOfBehindAnOrigin(scheme: string, host: string, p: string)
    requires IsOrigin(scheme, host) && p != "" && p[0] == '/'
    ensures var origin, e := scheme + host, RouteOf(Request, p);
            RouteOf(Referrer, origin + p) == if host == "" || e.None? then None else Some(|origin| + e.value)
  {
    hide *;
    RouteBehindAnOrigin(scheme, host, p);
    RouteMoves(scheme + host, p);
    RouteOfAPath(p);
  }

  lemma RouteOfAPath(p: string)
    requires p != "" && p[0] == '/'
    ensures RouteOf(Request, p) == RouteEnd(p, 0)
  {
  }

  lemma LinkBehindAnOrigin(scheme: string, host: string, p: string)
    requires IsOrigin(scheme, host) && p != "" && p[0] == '/'
    ensures var origin, at := scheme + host, LinkAt(Request, p);
            LinkAt(Referrer, origin + p) == if host == "" || at.None? then None else Some(|origin| + at.value)
  {
    hide RouteOf;
    hide IsOrigin;
    RouteOfBehindAnOrigin(scheme, host, p);
    var origin, e := scheme + host, RouteOf(Request, p);
    if host != "" && e.Some? && e.value < |p| {
      assert (origin + p)[|origin| + e.value] == p[e.value];
    }
  }

  lemma KeptBehindAnOrigin(scheme: string, host: string, p: string)
    requires IsOrigin(scheme, host) && p != "" && p[0] == '/'
    ensures var origin := scheme + host;
            Kept(Route(Referrer), origin + p) == origin + if host == "" then p else Kept(Route(Request), p)
  {
    hide *;
    var origin := scheme + host;
    LinkBehindAnOrigin(scheme, host, p);
    KeptIs(Referrer, origin + p);
    KeptIs(Request, p);
    if host != "" && LinkAt(Request, p).Some? {
      var at := LinkAt(Request, p).value;
      NextMoves(origin, p, '/', at);
      SpliceMoves(origin, p, at, Next(p, '/', at));
    }
  }

  lemma SpliceMoves(origin: string, p: string, at: nat, j: nat)
    requires at <= j <= |p|
    ensures (origin + p)[..|origin| + at] + LINK + (origin + p)[|origin| + j..] == origin + (p[..at] + LINK + p[j..])
  {
  }

  lemma NextMoves(origin: string, p: string, c: char, i: nat)
    requires i <= |p|
    ensures Next(origin + p, c, |origin| + i) == |origin| + Next(p, c, i)
    decreases |p| - i
  {
    if i < |p| && p[i] != c { NextMoves(origin, p, c, i + 1); }
  }

  /** Both functions on a URL and the same URL behind an origin, by its path. */
  lemma BehindAndAlone(scheme: string, host: string, u: string)
    requires IsOrigin(scheme, host) && u != "" && u[0] == '/'
    ensures LoggableUrl(Some(u)) == Kept(Route(Request), PathOf(u)) + Mark(u)
    ensures LoggableReferrer(Some(scheme + host + u)) == Kept(Route(Referrer), scheme + host + PathOf(u)) + Mark(u)
    ensures PathOf(u) != "" && PathOf(u)[0] == '/'
  {
    var origin, path := scheme + host, PathOf(u);
    var referrer := origin + u;
    OriginScheme(scheme, host, u);
    AbsoluteIsAScheme(referrer);
    assert u == path + u[|path|..];
    assert referrer == (origin + path) + u[|path|..];
    assert '?' !in origin + path;
    PathOfParts(origin + path, u[|path|..]);
    PathOfParts(path, u[|path|..]);
    hide Kept;
    hide IsOrigin;
    hide SchemeEnd;
    hide IsAbsolute;
  }

  /** A path with something to lose: a route of a link, and behind it a segment other than the mark itself. */
  ghost predicate HoldsALink(kind: Kind, path: string) {
    exists route, x, rest :: IsRoute(kind, route) && IsLink(x) && IsRest(rest) && x != LINK && path == route + x + rest
  }

  /** A path is kept as it is if and only if it has no link to lose. */
  lemma KeptWhenNoLink(kind: Kind, path: string)
    ensures Kept(Route(kind), path) != path <==> HoldsALink(kind, path)
  {
    hide Kept;
    hide Route;
    hide IsRoute;
    hide LinkAt;
    if Kept(Route(kind), path) != path {
      KeptIs(kind, path);
      var route, x, rest := PartsOf(kind, path);
      KeptOfParts(kind, route, x, rest);
      assert HoldsALink(kind, path);
    }
    if route, x, rest :| IsRoute(kind, route) && IsLink(x) && IsRest(rest) && x != LINK && path == route + x + rest {
      KeptOfParts(kind, route, x, rest);
      OtherLink(route, x, rest);
    }
  }

  lemma OtherLink(route: string, x: string, rest: string)
    requires x != LINK
    ensures route + x + rest != route + LINK + rest
  {
    if |x| == |LINK| && route + x + rest == route + LINK + rest {
      TheMiddle(route, x, rest);
      TheMiddle(route, LINK, rest);
    }
  }

  lemma TheMiddle(route: string, x: string, rest: string)
    ensures (route + x + rest)[|route|..|route| + |x|] == x
  {
  }

  /**
   A Referer logs as its origin and then what its path logs as, exactly when it
   names a host or its path holds no link.
   */
  lemma ReferrerIsOriginThenUrl(scheme: string, host: string, u: string)
    requires IsOrigin(scheme, host) && u != "" && u[0] == '/'
    ensures LoggableReferrer(Some(scheme + host + u)) == scheme + host + LoggableUrl(Some(u))
            <==> host != "" || !HoldsALink(Request, PathOf(u))
  {
    hide *;
    var origin, path := scheme + host, PathOf(u);
    var kept := Kept(Route(Request), path);
    BehindAndAlone(scheme, host, u);
    KeptBehindAnOrigin(scheme, host, path);
    KeptWhenNoLink(Request, path);
    SameMiddle(origin, if host == "" then path else kept, kept, Mark(u));
  }

  lemma PlainName(word: string)
    requires IsWord(word)
    ensures Names(word, word)
    decreases |word|
  {
    if word == "" {
    } else {
      PlainName(word[1..]);
    }
  }

  lemma GrantIsARoute()
    ensures IsRoute(Request, "/grant/")
  {
    var route := "/grant/";
    assert route[1..6] == "grant";
    PlainName("grant");
    hide Names;
    hide Matches;
    hide Next;
    hide SchemeEnd;
    hide Route;
    assert RouteEnd(route, 0) == Some(7);
    RouteOfAPath(route);
    hide RouteEnd;
    RouteOfIsThePattern(Request, route, |route|);
  }

  lemma HttpIsAScheme()
    ensures IsOrigin("http://", "")
  {
    var s := "http://";
    hide Matches;
    assert RunEnd(s, 4, false) == 4 && RunEnd(s, 3, false) == 4 && RunEnd(s, 2, false) == 4 && RunEnd(s, 1, false) == 4;
    hide RunEnd;
    Colon(s, 4);
    SchemeReads(false, s, |s|);
  }

  lemma NoQuery(u: string)
    requires '?' !in u
    ensures PathOf(u) == u && Mark(u) == ""
  {
    PathOfParts(u, "");
    assert u + "" == u;
  }

  /** With no host the link stays, behind any scheme. */
  lemma AnySchemeKeepsTheLink(scheme: string)
    requires IsOrigin(scheme, "")
    ensures LoggableReferrer(Some(scheme + "" + "/grant/s")) == scheme + "" + "/grant/s"
    ensures LoggableUrl(Some("/grant/s")) == "/grant/:link"
  {
    GrantIsARoute();
    var u := "/grant/s";
    assert IsLink("s") && IsRest("");
    assert u == "/grant/" + "s" + "" && "/grant/" + LINK + "" + "" == "/grant/:link";
    hide *;
    NoQuery(u);
    KeptOfParts(Request, "/grant/", "s", "");
    BehindAndAlone(scheme, "", u);
    KeptBehindAnOrigin(scheme, "", u);
    assert scheme + "" + u + "" == scheme + "" + u;
  }

  /** `http:///grant/s` is kept whole as a Referer, and `/grant/s` is not as a URL. */
  lemma NoHostKeepsTheLink()
    ensures LoggableReferrer(Some("http:///grant/s")) == "http:///grant/s"
    ensures LoggableUrl(Some("/grant/s")) == "/grant/:link"
  {
    HttpIsAScheme();
    AnySchemeKeepsTheLink("http://");
    assert "http://" + "" + "/grant/s" == "http:///grant/s";
    hide *;
  }

  lemma SameMiddle(a: string, x: string, y: string, b: string)
    ensures a + x + b == a + (y + b) <==> x == y
  {
    if a + x + b == a + (y + b) {
      assert x == (a + x + b)[|a|..|a| + |x|];
      assert y == (a + (y + b))[|a|..|a| + |y|];
    }
  }
}
