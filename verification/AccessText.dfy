/**
 The access log's rules in plain text: which characters spell a link's route,
 and what is written for a URL and for a Referer that has one.
 */
module AccessText {
  import opened Common
  import opened AccessLog

  /** Every way to write a letter of `api`, `grant` and `view`: in either case, or as either case's percent escape. */
  function Ways(c: char): set<string> {
    match c
    case 'a' => {"a", "A", "%61", "%41"}
    case 'e' => {"e", "E", "%65", "%45"}
    case 'g' => {"g", "G", "%67", "%47"}
    case 'i' => {"i", "I", "%69", "%49"}
    case 'n' => {"n", "N", "%6e", "%6E", "%4e", "%4E"}
    case 'p' => {"p", "P", "%70", "%50"}
    case 'r' => {"r", "R", "%72", "%52"}
    case 't' => {"t", "T", "%74", "%54"}
    case 'v' => {"v", "V", "%76", "%56"}
    case 'w' => {"w", "W", "%77", "%57"}
    case _ => {}
  }

  ghost predicate IsWritten(text: string, word: string) {
    if word == "" then text == ""
    else exists n: nat :: n <= |text| && text[..n] in Ways(word[0]) && IsWritten(text[n..], word[1..])
  }

  ghost predicate IsLinkText(text: string) { IsWritten(text, "grant") || IsWritten(text, "view") }

  /** `/grant/`, `/view/`, `/api/grant/` or `/api/view/`, however written. */
  ghost predicate IsPathText(text: string) {
    exists word :: IsLinkText(word) && (text == "/" + word + "/" || IsPathUnderApi(text, word))
  }

  ghost predicate IsPathUnderApi(text: string, word: string) {
    exists api :: IsWritten(api, "api") && text == "/" + api + "/" + word + "/"
  }

  predicate IsLetter(c: char, anyCase: bool) { 'a' <= c <= 'z' || (anyCase && 'A' <= c <= 'Z') }

  predicate IsSchemeChar(c: char, anyCase: bool) {
    IsLetter(c, anyCase) || '0' <= c <= '9' || c == '+' || c == '.' || c == '-'
  }

  predicate IsScheme(text: string, anyCase: bool) {
    text != "" && IsLetter(text[0], anyCase) && forall k :: 0 <= k < |text| ==> IsSchemeChar(text[k], anyCase)
  }

  /** `<scheme>://<host>`. */
  ghost predicate IsOriginText(text: string) {
    exists scheme, host :: IsScheme(scheme, true) && IsLink(host) && text == scheme + "://" + host
  }

  /** Where a link may be: in a URL behind its path alone or behind an origin too, in a Referer behind both. */
  ghost predicate IsRouteText(kind: Kind, text: string) {
    || (kind.Request? && IsPathText(text))
    || exists n: nat :: n <= |text| && IsOriginText(text[..n]) && IsPathText(text[n..])
  }

  // ---------------------------------------------------------------------
  // The route's text
  // ---------------------------------------------------------------------

  lemma OneCharacter(c: char, x: char)
    requires Ways(c) != {}
    ensures Lower(x) == c <==> [x] in Ways(c)
  {
    if Lower(x) == c {
      assert [x] == [c] || [x] == [c - 'a' + 'A'];
    }
  }

  predicate IsEscape(c: char, h: char, l: char) {
    && HexValue(h).Some? && HexValue(l).Some?
    && Lower((HexValue(h).value * 16 + HexValue(l).value) as char) == c
  }

  lemma EarlyEscape(c: char, h: char, l: char)
    requires c in {'a', 'e', 'g', 'i', 'n'}
    ensures IsEscape(c, h, l) <==> ['%', h, l] in Ways(c)
  {
  }

  lemma LateEscape(c: char, h: char, l: char)
    requires c in {'p', 'r', 't', 'v', 'w'}
    ensures IsEscape(c, h, l) <==> ['%', h, l] in Ways(c)
  {
  }

  lemma Escape(c: char, h: char, l: char)
    requires Ways(c) != {}
    ensures IsEscape(c, h, l) <==> ['%', h, l] in Ways(c)
  {
    hide IsEscape;
    if c in {'a', 'e', 'g', 'i', 'n'} {
      EarlyEscape(c, h, l);
    } else {
      LateEscape(c, h, l);
    }
  }

  lemma LetterIsWritten(c: char, s: string, i: nat, e: nat)
    requires Ways(c) != {} && i <= e <= |s|
    ensures ReadsLetter(c, s, i, e) <==> s[i..e] in Ways(c)
  {
    if e == i + 1 {
      OneCharacter(c, s[i]);
      assert s[i..e] == [s[i]];
    } else if e == i + 3 {
      Escape(c, s[i + 1], s[i + 2]);
      assert s[i..e] == [s[i], s[i + 1], s[i + 2]];
    }
  }

  predicate HasWays(word: string) { forall k :: 0 <= k < |word| ==> Ways(word[k]) != {} }

  lemma WrittenAhead(c: char, rest: string, t: string)
    ensures IsWritten(t, [c] + rest) <==> exists n: nat :: n <= |t| && t[..n] in Ways(c) && IsWritten(t[n..], rest)
  {
    hide Ways;
    assert ([c] + rest)[1..] == rest;
  }

  /** A segment names a word exactly when it starts with a way to write its first letter and goes on with the rest. */
  lemma NamesOneMore(c: char, rest: string, t: string)
    requires 'a' <= c <= 'z' && Ways(c) != {}
    ensures Names(t, [c] + rest) <==> exists n: nat :: n <= |t| && t[..n] in Ways(c) && Names(t[n..], rest)
  {
    var e := |t|;
    NamesAhead(c, rest, t, 0, e);
    hide Names;
    forall n: nat | n <= e
      ensures t[..n] in Ways(c) <==> ReadsLetter(c, t, 0, n)
      ensures t[n..e] == t[n..]
    {
      LetterIsWritten(c, t, 0, n);
      assert t[0..n] == t[..n];
    }
    hide Ways;
    assert t[0..e] == t;
  }

  /** A segment names a word exactly when it is written in one of the ways. */
  lemma {:induction false} NamesIsWritten(word: string, t: string)
    requires IsWord(word) && HasWays(word)
    ensures Names(t, word) <==> IsWritten(t, word)
    decreases |word|
  {
    if word == "" {
    } else {
      var c, rest := word[0], word[1..];
      assert word == [c] + rest && Ways(c) != {};
      assert IsWord(rest) && HasWays(rest);
      NamesOneMore(c, rest, t);
      WrittenAhead(c, rest, t);
      hide Names;
      hide Ways;
      hide IsWritten;
      forall n: nat | n <= |t|
        ensures IsWritten(t[n..], rest) <==> Names(t[n..], rest)
      {
        NamesIsWritten(rest, t[n..]);
      }
    }
  }

  lemma LinkWordIsText(s: string, i: nat, e: nat)
    requires i <= e <= |s|
    ensures IsLinkWord(s[i..e]) <==> IsLinkText(s[i..e])
  {
    NamesIsWritten("grant", s[i..e]);
    NamesIsWritten("view", s[i..e]);
  }

  lemma WordsReadText(s: string, i: nat, e: nat)
    requires i <= e <= |s|
    ensures Matches(Cat(Alt(Spelled("grant"), Spelled("view")), Just('/')), true, s, i, e) <==>
            i < e && s[e - 1] == '/' && IsLinkText(s[i..e - 1])
  {
    hide Matches;
    hide Spelled;
    hide IsLinkText;
    ThenOne(Alt(Spelled("grant"), Spelled("view")), '/', true, s, i, e);
    if i < e {
      LinkWordReads(s, i, e - 1);
      LinkWordIsText(s, i, e - 1);
    }
  }

  lemma ApiReadsText(s: string, i: nat, e: nat)
    requires i <= e <= |s|
    ensures Matches(Cat(Spelled("api"), Just('/')), true, s, i, e) <==>
            i < e && s[e - 1] == '/' && IsWritten(s[i..e - 1], "api")
  {
    hide Matches;
    hide Spelled;
    hide IsWritten;
    ThenOne(Spelled("api"), '/', true, s, i, e);
    if i < e {
      SpelledReads("api", s, i, e - 1);
      NamesIsWritten("api", s[i..e - 1]);
    }
  }

  /** The pieces of a path's text, by places. */
  ghost predicate IsPathAt(s: string, i: nat, e: nat)
    requires i <= e <= |s|
  {
    && i < e && s[i] == '/'
    && (IsWordAt(s, i + 1, e)
        || exists m: nat :: i + 1 < m <= e && s[m - 1] == '/' && IsWritten(s[i + 1..m - 1], "api") && IsWordAt(s, m, e))
  }

  ghost predicate IsWordAt(s: string, i: nat, e: nat)
    requires i <= e <= |s|
  {
    i < e && s[e - 1] == '/' && IsLinkText(s[i..e - 1])
  }

  lemma RouteReadsPlaces(s: string, i: nat, e: nat)
    requires i <= e <= |s|
    ensures Matches(LINK_ROUTE, true, s, i, e) <==> IsPathAt(s, i, e)
  {
    hide Spelled;
    hide IsLinkText;
    hide IsWritten;
    var api, words := Cat(Spelled("api"), Just('/')), Cat(Alt(Spelled("grant"), Spelled("view")), Just('/'));
    OneThen({'/'}, true, Cat(Opt(api), words), true, s, i, e);
    if i < e && s[i] == '/' {
      OptThen(api, words, true, s, i + 1, e);
      WordsReadText(s, i + 1, e);
      forall m | i + 1 <= m <= e
        ensures Matches(words, true, s, m, e) <==> IsWordAt(s, m, e)
        ensures Matches(api, true, s, i + 1, m) <==>
                i + 1 < m && s[m - 1] == '/' && IsWritten(s[i + 1..m - 1], "api")
      {
        WordsReadText(s, m, e);
        ApiReadsText(s, i + 1, m);
      }
    }
  }

  lemma Slices(s: string, i: nat, e: nat, a: nat, b: nat)
    requires i <= e <= |s| && a <= b <= e - i
    ensures s[i..e][a..b] == s[i + a..i + b]
  {
    var inner, outer := s[i..e][a..b], s[i + a..i + b];
    forall k | 0 <= k < b - a
      ensures inner[k] == outer[k]
    {
      assert inner[k] == s[i..e][a + k];
    }
  }

  lemma OneWord(s: string, i: nat, e: nat)
    requires i + 2 <= e <= |s| && s[i] == '/' && s[e - 1] == '/'
    ensures s[i..e] == "/" + s[i + 1..e - 1] + "/"
  {
  }

  lemma OneWordApart(s: string, i: nat, e: nat, word: string)
    requires i <= e <= |s| && s[i..e] == "/" + word + "/"
    ensures e == i + |word| + 2 && s[i] == '/' && s[e - 1] == '/' && s[i + 1..e - 1] == word
  {
    var t := s[i..e];
    assert s[i] == t[0] && s[e - 1] == t[|t| - 1];
    assert t[1..|t| - 1] == word;
    Slices(s, i, e, 1, |t| - 1);
  }

  lemma TwoWords(s: string, i: nat, m: nat, e: nat)
    requires i + 1 < m < e <= |s| && s[i] == '/' && s[m - 1] == '/' && s[e - 1] == '/'
    ensures s[i..e] == "/" + s[i + 1..m - 1] + "/" + s[m..e - 1] + "/"
  {
  }

  lemma TwoWordsApart(s: string, i: nat, e: nat, api: string, word: string)
    requires i <= e <= |s| && s[i..e] == "/" + api + "/" + word + "/"
    ensures var m := i + 2 + |api|;
            && m < e && s[i] == '/' && s[m - 1] == '/' && s[e - 1] == '/'
            && s[i + 1..m - 1] == api && s[m..e - 1] == word
  {
    var t, n := s[i..e], |api|;
    assert s[i] == t[0] && s[i + 1 + n] == t[1 + n] && s[e - 1] == t[|t| - 1];
    assert t[1..1 + n] == api;
    assert t[2 + n..|t| - 1] == word;
    Slices(s, i, e, 1, 1 + n);
    Slices(s, i, e, 2 + n, |t| - 1);
  }

  lemma PlacesAreText(s: string, i: nat, e: nat)
    requires i <= e <= |s|
    ensures IsPathAt(s, i, e) ==> IsPathText(s[i..e])
  {
    hide IsLinkText;
    hide IsWritten;
    if IsPathAt(s, i, e) {
      if IsWordAt(s, i + 1, e) {
        OneWord(s, i, e);
      } else {
        var m: nat :| i + 1 < m <= e && s[m - 1] == '/' && IsWritten(s[i + 1..m - 1], "api") && IsWordAt(s, m, e);
        var api, word := s[i + 1..m - 1], s[m..e - 1];
        TwoWords(s, i, m, e);
        assert IsPathUnderApi(s[i..e], word);
      }
    }
  }

  lemma TextIsPlaces(s: string, i: nat, e: nat)
    requires i <= e <= |s| && IsPathText(s[i..e])
    ensures IsPathAt(s, i, e)
  {
    hide IsLinkText;
    hide IsWritten;
    var t := s[i..e];
    var word :| IsLinkText(word) && (t == "/" + word + "/" || IsPathUnderApi(t, word));
    if t == "/" + word + "/" {
      OneWordApart(s, i, e, word);
    } else {
      var api :| IsWritten(api, "api") && t == "/" + api + "/" + word + "/";
      TwoWordsApart(s, i, e, api, word);
      assert IsWordAt(s, i + 2 + |api|, e);
    }
  }

  lemma SchemeIsText(s: string, anyCase: bool, n: nat)
    requires n + 3 <= |s|
    ensures SchemeEnd(s, anyCase) == Some(n + 3) <==> IsScheme(s[..n], anyCase) && s[n..n + 3] == "://"
  {
    SchemeCharacters(anyCase);
    if IsScheme(s[..n], anyCase) && s[n..n + 3] == "://" {
      assert s[n] == s[n..n + 3][0] == ':';
      assert s[0] == s[..n][0];
      forall k | 1 <= k < n
        ensures In(s[k], SCHEME, true, anyCase)
      {
        assert s[k] == s[..n][k];
      }
      assert RunEnd(s, 1, anyCase) == n;
    }
  }

  lemma SchemeCharacters(anyCase: bool)
    ensures forall c :: In(c, LETTERS, true, anyCase) <==> IsLetter(c, anyCase)
    ensures forall c :: In(c, SCHEME, true, anyCase) <==> IsSchemeChar(c, anyCase)
  {
  }

  lemma OriginIsText(s: string, n: nat)
    requires n <= |s|
    ensures Matches(ORIGIN, true, s, 0, n) <==> IsOriginText(s[..n])
  {
    hide Matches;
    hide SchemeEnd;
    hide IsScheme;
    OriginReads(s, n);
    if Matches(ORIGIN, true, s, 0, n) {
      var h := SchemeEnd(s, true).value;
      OriginHasText(s, h, n);
    }
    if scheme, host :| IsScheme(scheme, true) && IsLink(host) && s[..n] == scheme + "://" + host {
      TextIsOrigin(s, n, scheme, host);
    }
  }

  lemma OriginHasText(s: string, h: nat, n: nat)
    requires SchemeEnd(s, true) == Some(h) && h < n <= Next(s, '/', h)
    ensures IsOriginText(s[..n])
  {
    assert h >= 4;
    SchemeIsText(s, true, h - 3);
    hide SchemeEnd;
    hide IsScheme;
    var scheme, host := s[..h - 3], s[h..n];
    Spliced(s, h - 3, n);
    forall k | 0 <= k < |host|
      ensures host[k] != '/'
    {
      assert host[k] == s[h + k];
    }
    assert IsLink(host);
  }

  lemma TextIsOrigin(s: string, n: nat, scheme: string, host: string)
    requires n <= |s| && IsScheme(scheme, true) && IsLink(host) && s[..n] == scheme + "://" + host
    ensures SchemeEnd(s, true).Some?
    ensures SchemeEnd(s, true).value < n <= Next(s, '/', SchemeEnd(s, true).value)
  {
    var t, m := s[..n], |scheme|;
    assert t[..m] == scheme && t[m..m + 3] == "://";
    assert s[0..n] == t && s[0..m] == s[..m] && t[0..m] == t[..m];
    Slices(s, 0, n, 0, m);
    Slices(s, 0, n, m, m + 3);
    hide IsScheme;
    SchemeIsText(s, true, m);
    hide SchemeEnd;
    forall k | m + 3 <= k < n
      ensures s[k] != '/'
    {
      assert s[k] == t[k] && t[k] == host[k - m - 3];
    }
  }

  lemma Spliced(s: string, m: nat, n: nat)
    requires m + 3 <= n <= |s| && s[m..m + 3] == "://"
    ensures s[..n] == s[..m] + "://" + s[m + 3..n]
  {
    assert s[..n] == s[..m] + s[m..m + 3] + s[m + 3..n];
  }

  /** What the log takes for a link's route is what is written as one. */
  lemma RoutesAreTheirText(kind: Kind, text: string)
    ensures IsRoute(kind, text) <==> IsRouteText(kind, text)
  {
    hide IsPathText;
    hide IsOriginText;
    var e := |text|;
    forall n: nat | n <= e
      ensures Matches(LINK_ROUTE, true, text, n, e) <==> IsPathText(text[n..])
      ensures Matches(ORIGIN, true, text, 0, n) <==> IsOriginText(text[..n])
    {
      assert text[n..e] == text[n..];
      PathReads(text, n, e);
      OriginIsText(text, n);
    }
    assert text[0..] == text;
    OptThen(ORIGIN, LINK_ROUTE, true, text, 0, e);
    assert Matches(Cat(ORIGIN, LINK_ROUTE), true, text, 0, e) <==>
           exists m: nat :: m <= e && Matches(ORIGIN, true, text, 0, m) && Matches(LINK_ROUTE, true, text, m, e);
  }

  lemma PathReads(s: string, i: nat, e: nat)
    requires i <= e <= |s|
    ensures Matches(LINK_ROUTE, true, s, i, e) <==> IsPathText(s[i..e])
  {
    hide Matches;
    RouteReadsPlaces(s, i, e);
    PlacesAreText(s, i, e);
    if IsPathText(s[i..e]) { TextIsPlaces(s, i, e); }
  }

  // ---------------------------------------------------------------------
  // What is written
  // ---------------------------------------------------------------------

  /** A path that holds a link: the route, the link, and what follows it. */
  ghost predicate HasLinkText(kind: Kind, path: string, route: string, link: string, rest: string) {
    IsRouteText(kind, route) && IsLink(link) && IsRest(rest) && path == route + link + rest
  }

  /** `shown` is the path with `:link` for its link, if it has one, and `?...` for the query, if there is one. */
  ghost predicate IsShown(kind: Kind, path: string, query: string, shown: string) {
    var mark := if query == "" then "" else "?...";
    && (forall route, link, rest :: HasLinkText(kind, path, route, link, rest) ==>
          shown == route + ":link" + rest + mark)
    && ((forall route, link, rest :: !HasLinkText(kind, path, route, link, rest)) ==> shown == path + mark)
  }

  lemma BodyIsShown(kind: Kind, path: string, query: string)
    requires '?' !in path && (query == "" || query[0] == '?')
    ensures IsShown(kind, path, query, Body(kind, path + query))
  {
    hide Kept;
    hide Route;
    hide IsRoute;
    hide IsRouteText;
    PathOfParts(path, query);
    forall route, link, rest | HasLinkText(kind, path, route, link, rest)
      ensures Kept(Route(kind), path) == route + ":link" + rest
    {
      RoutesAreTheirText(kind, route);
      KeptOfParts(kind, route, link, rest);
    }
    KeptWhenNoLink(kind, path);
    if Kept(Route(kind), path) != path {
      var route, x, rest :| IsRoute(kind, route) && IsLink(x) && IsRest(rest) && x != LINK && path == route + x + rest;
      RoutesAreTheirText(kind, route);
      assert HasLinkText(kind, path, route, x, rest);
    }
  }

  /** A request's URL, as the access log has it: a path, and a query from the first `?` on. */
  lemma UrlIsLogged(path: string, query: string)
    requires '?' !in path && (query == "" || query[0] == '?')
    ensures LoggableUrl(None) == LoggableUrl(Some("")) == "-"
    ensures path + query != "" ==> IsShown(Request, path, query, LoggableUrl(Some(path + query)))
  {
    hide IsShown;
    BodyIsShown(Request, path, query);
    UrlIsItsBody(Some(path + query));
  }

  /** A scheme in lower case, and `://`. */
  ghost predicate IsAbsoluteText(url: string) {
    exists scheme, rest :: IsScheme(scheme, false) && url == scheme + "://" + rest
  }

  lemma AbsoluteIsText(url: string)
    ensures IsAbsolute(url) <==> IsAbsoluteText(url)
  {
    AbsoluteIsAScheme(url);
    hide IsAbsolute;
    hide IsScheme;
    hide RunEnd;
    if SchemeEnd(url, false).Some? {
      var n := SchemeEnd(url, false).value - 3;
      SchemeIsText(url, false, n);
      Spliced(url, n, |url|);
      assert url == url[..n] + "://" + url[n + 3..];
    }
    if scheme, rest :| IsScheme(scheme, false) && url == scheme + "://" + rest {
      var n := |scheme|;
      assert url[..n] == scheme && url[n..n + 3] == "://";
      SchemeIsText(url, false, n);
    }
  }

  /** A Referer, as the access log has it: nothing of one that is no absolute URL. */
  lemma ReferrerIsLogged(path: string, query: string)
    requires '?' !in path && (query == "" || query[0] == '?')
    ensures LoggableReferrer(None) == "-"
    ensures if IsAbsoluteText(path + query) then IsShown(Referrer, path, query, LoggableReferrer(Some(path + query)))
            else LoggableReferrer(Some(path + query)) == "-"
  {
    hide IsShown;
    hide IsAbsoluteText;
    BodyIsShown(Referrer, path, query);
    AbsoluteIsText(path + query);
    ReferrerIsItsBody(Some(path + query));
    hide Kept;
    hide IsAbsolute;
  }
}
