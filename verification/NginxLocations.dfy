/**
 The location nginx chooses for a URI, as `scripts/nginx-config.ts` searches
 for it: exact matches, the longest prefix and its nested locations, `^~`, and
 regexes in order. What a regex matches is the engine's to say: a parameter.
 */
module NginxLocations {
  import opened Common
  import opened NginxConfig

  datatype Modifier = Exact | Stop | CaselessRegex | Regex | Plain

  datatype Location = Location(node: Node, modifier: Modifier, pattern: string)

  /** Whether a pattern, read without regard to case or with it, matches a URI. */
  type Engine = (string, bool, string) -> bool

  datatype Choice = Choice(path: seq<Node>, final: bool)

  // ---------------------------------------------------------------------
  // Location blocks
  // ---------------------------------------------------------------------

  /** A modifier written apart from its pattern, or together with it. */
  function Modified(node: Node, modifier: Modifier, sign: string): Option<Location>
    requires |node.args| > 0 && sign <= node.args[0]
  {
    if node.args[0] != sign then Some(Location(node, modifier, node.args[0][|sign|..]))
    else if |node.args| > 1 then Some(Location(node, modifier, node.args[1]))
    else None
  }

  function LocationOf(node: Node): (r: Option<Location>)
    ensures r.Some? ==> node.Block? && r.value.node == node
  {
    if node.Directive? || node.name != "location" || node.args == [] || "@" <= node.args[0] then None
    else if "=" <= node.args[0] then Modified(node, Exact, "=")
    else if "^~" <= node.args[0] then Modified(node, Stop, "^~")
    else if "~*" <= node.args[0] then Modified(node, CaselessRegex, "~*")
    else if "~" <= node.args[0] then Modified(node, Regex, "~")
    else Some(Location(node, Plain, node.args[0]))
  }

  function Locations(level: seq<Node>): (r: seq<Location>)
    ensures forall l :: l in r ==> l.node in level && LocationOf(l.node) == Some(l)
  {
    if level == [] then []
    else
      var rest := Locations(level[1..]);
      match LocationOf(level[0])
      case None => rest
      case Some(l) => [l] + rest
  }

  predicate IsPrefix(l: Location) { l.modifier.Plain? || l.modifier.Stop? }

  predicate IsRegex(l: Location) { l.modifier.Regex? || l.modifier.CaselessRegex? }

  /** Whether a location's own pattern matches the URI. */
  predicate Matches(l: Location, uri: string, engine: Engine) {
    if l.modifier.Exact? then l.pattern == uri
    else if IsPrefix(l) then l.pattern <= uri
    else engine(l.pattern, l.modifier.CaselessRegex?, uri)
  }

  /** A match that ends the search: of an exact location, or of a regex when `regex`. */
  predicate Ends(l: Location, uri: string, engine: Engine, regex: bool) {
    (if regex then IsRegex(l) else l.modifier.Exact?) && Matches(l, uri, engine)
  }

  // ---------------------------------------------------------------------
  // The search
  // ---------------------------------------------------------------------

  function FirstEnd(ls: seq<Location>, uri: string, engine: Engine, regex: bool): (r: Option<Location>)
    ensures r.Some? ==> r.value in ls
  {
    if ls == [] then None
    else if Ends(ls[0], uri, engine, regex) then Some(ls[0])
    else FirstEnd(ls[1..], uri, engine, regex)
  }

  /** Whether `l` takes the place of the longest prefix so far. */
  predicate Improves(l: Location, best: Option<Location>, uri: string) {
    IsPrefix(l) && l.pattern <= uri && (best.Some? ==> |l.pattern| > |best.value.pattern|)
  }

  function LongestPrefix(ls: seq<Location>, uri: string, best: Option<Location>): (r: Option<Location>)
    ensures r.Some? ==> r == best || r.value in ls
  {
    if ls == [] then best
    else LongestPrefix(ls[1..], uri, if Improves(ls[0], best, uri) then Some(ls[0]) else best)
  }

  function Inner(choice: Option<Choice>): seq<Node> {
    match choice case None => [] case Some(c) => c.path
  }

  function Choose(level: seq<Node>, uri: string, engine: Engine): Option<Choice>
    decreases level
  {
    var ls := Locations(level);
    var exact := FirstEnd(ls, uri, engine, false);
    if exact.Some? then Some(Choice([exact.value.node], true))
    else
      var prefix := LongestPrefix(ls, uri, None);
      var inner := if prefix.Some? then Choose(prefix.value.node.children, uri, engine) else None;
      if inner.Some? && inner.value.final then Some(Choice([prefix.value.node] + inner.value.path, true))
      else
        var found := if prefix.Some? then Some(Choice([prefix.value.node] + Inner(inner), false)) else None;
        if prefix.Some? && prefix.value.modifier.Stop? then found
        else
          var regex := FirstEnd(ls, uri, engine, true);
          if regex.None? then found
          else Some(Choice([regex.value.node] + Inner(Choose(regex.value.node.children, uri, engine)), true))
  }

  /** `chooseLocation`, loop by loop. */
  method ChooseLocation(level: seq<Node>, uri: string, engine: Engine) returns (r: Option<Choice>)
    ensures r == Choose(level, uri, engine)
    decreases level
  {
    var locations := Locations(level);
    var exact := Find(locations, uri, engine, false);
    if exact.Some? { return Some(Choice([exact.value.node], true)); }
    var prefix: Option<Location> := None;
    for k := 0 to |locations|
      invariant LongestPrefix(locations, uri, None) == LongestPrefix(locations[k..], uri, prefix)
      invariant prefix.Some? ==> prefix.value in locations
    {
      assert locations[k..][1..] == locations[k + 1..];
      if Improves(locations[k], prefix, uri) {
        prefix := Some(locations[k]);
      }
    }
    assert LongestPrefix(locations, uri, None) == prefix;
    var found: Option<Choice> := None;
    if prefix.Some? {
      var inner := ChooseLocation(prefix.value.node.children, uri, engine);
      if inner.Some? && inner.value.final {
        return Some(Choice([prefix.value.node] + inner.value.path, true));
      }
      found := Some(Choice([prefix.value.node] + Inner(inner), false));
      if prefix.value.modifier.Stop? { return found; }
    }
    var regex := Find(locations, uri, engine, true);
    if regex.Some? {
      var deeper := ChooseLocation(regex.value.node.children, uri, engine);
      return Some(Choice([regex.value.node] + Inner(deeper), true));
    }
    return found;
  }

  method Find(locations: seq<Location>, uri: string, engine: Engine, regex: bool) returns (r: Option<Location>)
    ensures r == FirstEnd(locations, uri, engine, regex)
  {
    for k := 0 to |locations|
      invariant FirstEnd(locations, uri, engine, regex) == FirstEnd(locations[k..], uri, engine, regex)
    {
      if Ends(locations[k], uri, engine, regex) { return Some(locations[k]); }
      assert locations[k..][1..] == locations[k + 1..];
    }
    return None;
  }

  // ---------------------------------------------------------------------
  // What the search finds, by position in the level
  // ---------------------------------------------------------------------

  predicate EndsAt(level: seq<Node>, i: nat, uri: string, engine: Engine, regex: bool) {
    i < |level| && LocationOf(level[i]).Some? && Ends(LocationOf(level[i]).value, uri, engine, regex)
  }

  predicate PrefixAt(level: seq<Node>, i: nat, uri: string) {
    && i < |level|
    && LocationOf(level[i]).Some?
    && IsPrefix(LocationOf(level[i]).value)
    && LocationOf(level[i]).value.pattern <= uri
  }

  ghost predicate FirstAt(level: seq<Node>, i: nat, uri: string, engine: Engine, regex: bool) {
    EndsAt(level, i, uri, engine, regex) && forall j: nat :: EndsAt(level, j, uri, engine, regex) ==> i <= j
  }

  /** The longest matching prefix, the first of them where several are as long. */
  ghost predicate LongestAt(level: seq<Node>, i: nat, uri: string) {
    && PrefixAt(level, i, uri)
    && forall j: nat :: PrefixAt(level, j, uri) ==>
         var p, q := LocationOf(level[i]).value.pattern, LocationOf(level[j]).value.pattern;
         |q| < |p| || (|q| == |p| && i <= j)
  }

  lemma {:induction false} FirstEndIsFirst(level: seq<Node>, uri: string, engine: Engine, regex: bool) returns (i: nat)
    ensures var r := FirstEnd(Locations(level), uri, engine, regex);
            if r.Some? then FirstAt(level, i, uri, engine, regex) && level[i] == r.value.node
            else forall j: nat :: !EndsAt(level, j, uri, engine, regex)
  {
    i := 0;
    if level != [] && !EndsAt(level, 0, uri, engine, regex) {
      var tail := level[1..];
      var k := FirstEndIsFirst(tail, uri, engine, regex);
      i := k + 1;
      forall j: nat | EndsAt(level, j, uri, engine, regex)
        ensures j > 0 && EndsAt(tail, j - 1, uri, engine, regex)
      {
        assert level[j] == tail[j - 1];
      }
      if EndsAt(tail, k, uri, engine, regex) {
        assert level[i] == tail[k];
      }
    }
  }

  /** The location the prefix search holds after the first `k` blocks of a level. */
  ghost predicate LongestOf(level: seq<Node>, k: nat, uri: string, best: Option<Location>)
    requires k <= |level|
  {
    match best
    case None => forall j: nat :: j < k ==> !PrefixAt(level, j, uri)
    case Some(l) =>
      exists i: nat :: i < k && LongestAt(level[..k], i, uri) && LocationOf(level[i]) == best
  }

  lemma LongestOfNext(level: seq<Node>, k: nat, uri: string, best: Option<Location>, next: Option<Location>)
    requires k < |level| && LongestOf(level, k, uri, best)
    requires next == if PrefixAt(level, k, uri)
             && (best.Some? ==> |LocationOf(level[k]).value.pattern| > |best.value.pattern|)
                     then LocationOf(level[k]) else best
    ensures LongestOf(level, k + 1, uri, next)
  {
    var more := level[..k + 1];
    assert forall j: nat :: PrefixAt(more, j, uri) <==> j <= k && PrefixAt(level, j, uri);
    assert forall j: nat :: PrefixAt(level[..k], j, uri) <==> j < k && PrefixAt(level, j, uri);
    if best.Some? {
      var i: nat :| i < k && LongestAt(level[..k], i, uri) && LocationOf(level[i]) == best;
      if next == best {
        assert LongestAt(more, i, uri);
      } else {
        assert LongestAt(more, k, uri);
      }
    } else if next.Some? {
      assert LongestAt(more, k, uri);
    }
  }

  lemma {:induction false} LongestPrefixGoesOn(level: seq<Node>, k: nat, uri: string, best: Option<Location>)
    requires k <= |level| && LongestOf(level, k, uri, best)
    ensures LongestOf(level, |level|, uri, LongestPrefix(Locations(level[k..]), uri, best))
    decreases |level| - k
  {
    hide LocationOf;
    hide LongestOf;
    if k < |level| {
      assert level[k..][1..] == level[k + 1..];
      var l := LocationOf(level[k]);
      var next := if l.Some? && Improves(l.value, best, uri) then l else best;
      if l.Some? {
        assert Locations(level[k..]) == [l.value] + Locations(level[k + 1..]);
        assert Locations(level[k..])[1..] == Locations(level[k + 1..]);
      }
      LongestOfNext(level, k, uri, best, next);
      LongestPrefixGoesOn(level, k + 1, uri, next);
    }
  }

  lemma LongestPrefixIsLongest(level: seq<Node>, uri: string) returns (i: nat)
    ensures var r := LongestPrefix(Locations(level), uri, None);
            if r.Some? then LongestAt(level, i, uri) && LocationOf(level[i]) == r
            else forall j: nat :: !PrefixAt(level, j, uri)
  {
    LongestPrefixGoesOn(level, 0, uri, None);
    assert level[0..] == level && level[..|level|] == level;
    var r := LongestPrefix(Locations(level), uri, None);
    i := 0;
    if r.Some? {
      i :| i < |level| && LongestAt(level[..|level|], i, uri) && LocationOf(level[i]) == r;
    }
  }

  // ---------------------------------------------------------------------
  // The rule
  // ---------------------------------------------------------------------

  /** A location of the level whose own pattern matches. */
  predicate MatchAt(level: seq<Node>, i: nat, uri: string, engine: Engine) {
    i < |level| && LocationOf(level[i]).Some? && Matches(LocationOf(level[i]).value, uri, engine)
  }

  /** The choice a block stands for: itself, then what its own level answers. */
  function Under(node: Node, inner: Option<Choice>, final: bool): Option<Choice> {
    Some(Choice([node] + Inner(inner), final))
  }

  /**
   nginx's rule at one level, by what the level inside each block answers. An
   exact match wins. Else the longest prefix stands, and its nested level's
   answer with it, unless that answer is not final, the prefix is not `^~` and
   a regex of the level matches: then the first such regex wins.
   */
  ghost predicate OneLevel(level: seq<Node>, uri: string, engine: Engine, below: seq<Option<Choice>>, r: Option<Choice>)
    requires |below| == |level|
  {
    if exists i: nat :: EndsAt(level, i, uri, engine, false) then
      exists i: nat :: FirstAt(level, i, uri, engine, false) && r == Some(Choice([level[i]], true))
    else if exists i: nat :: PrefixAt(level, i, uri) then
      exists i: nat ::
        && LongestAt(level, i, uri)
        && if below[i].Some? && below[i].value.final then r == Under(level[i], below[i], true)
           else if LocationOf(level[i]).value.modifier.Stop? then r == Under(level[i], below[i], false)
           else RegexRule(level, uri, engine, below, Under(level[i], below[i], false), r)
    else RegexRule(level, uri, engine, below, None, r)
  }

  ghost predicate RegexRule(level: seq<Node>, uri: string, engine: Engine, below: seq<Option<Choice>>,
                            otherwise: Option<Choice>, r: Option<Choice>)
    requires |below| == |level|
  {
    if exists i: nat :: EndsAt(level, i, uri, engine, true) then
      exists i: nat :: FirstAt(level, i, uri, engine, true) && r == Under(level[i], below[i], true)
    else r == otherwise
  }

  /** nginx's rule at every level. */
  ghost predicate ByTheRule(level: seq<Node>, uri: string, engine: Engine, r: Option<Choice>)
    decreases level
  {
    exists below: seq<Option<Choice>> ::
      && |below| == |level|
      && (forall i :: 0 <= i < |level| ==>
            if level[i].Block? then ByTheRule(level[i].children, uri, engine, below[i]) else below[i] == None)
      && OneLevel(level, uri, engine, below, r)
  }

  /** What the search answers inside each block. */
  function Answers(level: seq<Node>, uri: string, engine: Engine): (below: seq<Option<Choice>>)
    ensures |below| == |level|
    ensures forall i :: 0 <= i < |level| ==>
              below[i] == if level[i].Block? then Choose(level[i].children, uri, engine) else None
  {
    seq(|level|, i requires 0 <= i < |level| =>
          if level[i].Block? then Choose(level[i].children, uri, engine) else None)
  }

  lemma RegexIsOneLevel(level: seq<Node>, uri: string, engine: Engine, otherwise: Option<Choice>)
    ensures var regex := FirstEnd(Locations(level), uri, engine, true);
            RegexRule(level, uri, engine, Answers(level, uri, engine), otherwise,
                      if regex.None? then otherwise
                      else Under(regex.value.node, Choose(regex.value.node.children, uri, engine), true))
  {
    var k := FirstEndIsFirst(level, uri, engine, true);
  }

  lemma ChooseIsOneLevel(level: seq<Node>, uri: string, engine: Engine)
    ensures OneLevel(level, uri, engine, Answers(level, uri, engine), Choose(level, uri, engine))
  {
    hide LocationOf;
    hide RegexRule;
    var r := Choose(level, uri, engine);
    var e := FirstEndIsFirst(level, uri, engine, false);
    var exact := FirstEnd(Locations(level), uri, engine, false);
    if exact.None? {
      var i := LongestPrefixIsLongest(level, uri);
      var prefix := LongestPrefix(Locations(level), uri, None);
      if prefix.Some? {
        var inner := Choose(level[i].children, uri, engine);
        RegexIsOneLevel(level, uri, engine, Under(level[i], inner, false));
      } else {
        RegexIsOneLevel(level, uri, engine, None);
      }
    }
  }

  lemma RegexOneLevelIsOne(level: seq<Node>, uri: string, engine: Engine, otherwise: Option<Choice>,
                           r: Option<Choice>, s: Option<Choice>)
    requires RegexRule(level, uri, engine, Answers(level, uri, engine), otherwise, r)
    requires RegexRule(level, uri, engine, Answers(level, uri, engine), otherwise, s)
    ensures r == s
  {
    hide LocationOf;
    hide Choose;
    var below := Answers(level, uri, engine);
    if i: nat :| FirstAt(level, i, uri, engine, true) && r == Under(level[i], below[i], true) {
      var j: nat :| FirstAt(level, j, uri, engine, true) && s == Under(level[j], below[j], true);
      assert i == j;
    }
  }

  lemma OneLevelIsOne(level: seq<Node>, uri: string, engine: Engine, r: Option<Choice>, s: Option<Choice>)
    requires OneLevel(level, uri, engine, Answers(level, uri, engine), r)
    requires OneLevel(level, uri, engine, Answers(level, uri, engine), s)
    ensures r == s
  {
    hide LocationOf;
    hide Choose;
    hide RegexRule;
    if i: nat :| FirstAt(level, i, uri, engine, false) && r == Some(Choice([level[i]], true)) {
      var j: nat :| FirstAt(level, j, uri, engine, false) && s == Some(Choice([level[j]], true));
      assert i == j;
    } else if i: nat :| LongestAt(level, i, uri) {
      forall j: nat | LongestAt(level, j, uri)
        ensures i == j
      {
      }
      var inner := Choose(level[i].children, uri, engine);
      var other := Under(level[i], inner, false);
      var below := Answers(level, uri, engine);
      if RegexRule(level, uri, engine, below, other, r) && RegexRule(level, uri, engine, below, other, s) {
        RegexOneLevelIsOne(level, uri, engine, other, r, s);
      }
    } else {
      RegexOneLevelIsOne(level, uri, engine, None, r, s);
    }
  }

  lemma OneLevelIsTheSearch(level: seq<Node>, uri: string, engine: Engine, r: Option<Choice>)
    ensures OneLevel(level, uri, engine, Answers(level, uri, engine), r) <==> r == Choose(level, uri, engine)
  {
    hide OneLevel;
    ChooseIsOneLevel(level, uri, engine);
    if OneLevel(level, uri, engine, Answers(level, uri, engine), r) {
      OneLevelIsOne(level, uri, engine, r, Choose(level, uri, engine));
    }
  }

  /** The rule leaves one answer at every level, so it is the search. */
  lemma {:induction false} RuleIsTheSearch(level: seq<Node>, uri: string, engine: Engine, r: Option<Choice>)
    ensures ByTheRule(level, uri, engine, r) <==> r == Choose(level, uri, engine)
    decreases level
  {
    hide OneLevel;
    hide Choose;
    var answers := Answers(level, uri, engine);
    OneLevelIsTheSearch(level, uri, engine, r);
    forall i, inner | 0 <= i < |level| && level[i].Block?
      ensures ByTheRule(level[i].children, uri, engine, inner) <==> inner == answers[i]
    {
      RuleIsTheSearch(level[i].children, uri, engine, inner);
    }
    if ByTheRule(level, uri, engine, r) {
      var below: seq<Option<Choice>> :|
        && |below| == |level|
        && (forall i :: 0 <= i < |level| ==>
              if level[i].Block? then ByTheRule(level[i].children, uri, engine, below[i]) else below[i] == None)
        && OneLevel(level, uri, engine, below, r);
      assert below == answers;
    }
  }

  lemma ChooseIsByTheRule(level: seq<Node>, uri: string, engine: Engine)
    ensures ByTheRule(level, uri, engine, Choose(level, uri, engine))
  {
    RuleIsTheSearch(level, uri, engine, Choose(level, uri, engine));
  }

  /** No location is chosen exactly when none of the level matches. */
  lemma NoneIsChosenWhenNoneMatches(level: seq<Node>, uri: string, engine: Engine)
    ensures Choose(level, uri, engine).None? <==> forall i: nat :: !MatchAt(level, i, uri, engine)
  {
    hide LocationOf;
    hide Choose;
    ChooseIsOneLevel(level, uri, engine);
    forall i: nat
      ensures MatchAt(level, i, uri, engine) <==>
              EndsAt(level, i, uri, engine, false) || EndsAt(level, i, uri, engine, true) || PrefixAt(level, i, uri)
    {
    }
  }

  /** Every block on the path is a location that matches, and lies in the one before it. */
  predicate IsMatchingPath(level: seq<Node>, path: seq<Node>, uri: string, engine: Engine) {
    path == [] ||
    (&& path[0] in level
     && LocationOf(path[0]).Some?
     && Matches(LocationOf(path[0]).value, uri, engine)
     && IsMatchingPath(path[0].children, path[1..], uri, engine))
  }

  predicate EndsFinally(node: Node) {
    LocationOf(node).Some? && !IsPrefix(LocationOf(node).value)
  }

  /** Whether an exact or a regex location is on the path. */
  predicate HasFinal(path: seq<Node>) {
    path != [] && (EndsFinally(path[0]) || HasFinal(path[1..]))
  }

  lemma UnderMatches(level: seq<Node>, i: nat, inner: Option<Choice>, final: bool, uri: string, engine: Engine)
    requires MatchAt(level, i, uri, engine)
    requires inner.Some? ==> IsMatchingPath(level[i].children, inner.value.path, uri, engine)
    ensures var c := Under(level[i], inner, final).value;
            && IsMatchingPath(level, c.path, uri, engine)
            && (HasFinal(c.path) <==> EndsFinally(level[i]) || HasFinal(Inner(inner)))
  {
    hide LocationOf;
    assert ([level[i]] + Inner(inner))[1..] == Inner(inner);
  }

  /** The rule's answer is some matching location, alone or with what its own level answers. */
  ghost predicate IsUnder(level: seq<Node>, i: nat, inner: Option<Choice>, uri: string, engine: Engine, c: Choice) {
    && MatchAt(level, i, uri, engine)
    && Some(c) == Under(level[i], inner, c.final)
    && (inner.Some? ==> inner == Choose(level[i].children, uri, engine))
    && (c.final <==> EndsFinally(level[i]) || (inner.Some? && inner.value.final))
  }

  lemma AloneIsUnder(level: seq<Node>, i: nat, uri: string, engine: Engine)
    requires EndsAt(level, i, uri, engine, false)
    ensures IsUnder(level, i, None, uri, engine, Choice([level[i]], true))
  {
    hide LocationOf;
    hide Choose;
    assert [level[i]] + [] == [level[i]];
  }

  lemma RegexIsUnder(level: seq<Node>, i: nat, uri: string, engine: Engine)
    requires EndsAt(level, i, uri, engine, true)
    ensures var inner := Choose(level[i].children, uri, engine);
            IsUnder(level, i, inner, uri, engine, Under(level[i], inner, true).value)
  {
    hide LocationOf;
    hide Choose;
  }

  lemma PrefixIsUnder(level: seq<Node>, i: nat, uri: string, engine: Engine)
    requires PrefixAt(level, i, uri)
    ensures var inner := Choose(level[i].children, uri, engine);
            IsUnder(level, i, inner, uri, engine, Under(level[i], inner, inner.Some? && inner.value.final).value)
  {
    hide LocationOf;
    hide Choose;
  }

  lemma RegexRuleIsUnder(level: seq<Node>, uri: string, engine: Engine, otherwise: Option<Choice>, c: Choice)
    requires RegexRule(level, uri, engine, Answers(level, uri, engine), otherwise, Some(c))
    ensures otherwise == Some(c) || exists i: nat, inner :: IsUnder(level, i, inner, uri, engine, c)
  {
    hide Choose;
    hide IsUnder;
    if otherwise != Some(c) {
      var below := Answers(level, uri, engine);
      var i: nat :| FirstAt(level, i, uri, engine, true) && Some(c) == Under(level[i], below[i], true);
      RegexIsUnder(level, i, uri, engine);
    }
  }

  lemma ChosenIsUnder(level: seq<Node>, uri: string, engine: Engine, c: Choice)
    requires OneLevel(level, uri, engine, Answers(level, uri, engine), Some(c))
    ensures exists i: nat, inner :: IsUnder(level, i, inner, uri, engine, c)
  {
    hide Choose;
    hide IsUnder;
    hide RegexRule;
    if exists i: nat :: EndsAt(level, i, uri, engine, false) {
      var i: nat :| FirstAt(level, i, uri, engine, false) && c == Choice([level[i]], true);
      AloneIsUnder(level, i, uri, engine);
    } else if exists i: nat :: PrefixAt(level, i, uri) {
      PrefixedIsUnder(level, uri, engine, c);
    } else {
      RegexRuleIsUnder(level, uri, engine, None, c);
    }
  }

  lemma PrefixedIsUnder(level: seq<Node>, uri: string, engine: Engine, c: Choice)
    requires exists i: nat :: PrefixAt(level, i, uri)
    requires OneLevel(level, uri, engine, Answers(level, uri, engine), Some(c))
    requires !exists i: nat :: EndsAt(level, i, uri, engine, false)
    ensures exists i: nat, inner :: IsUnder(level, i, inner, uri, engine, c)
  {
    hide Choose;
    hide IsUnder;
    hide RegexRule;
    hide LocationOf;
    var i: nat :|
      && LongestAt(level, i, uri)
      && var inner := Choose(level[i].children, uri, engine);
         if inner.Some? && inner.value.final then Some(c) == Under(level[i], inner, true)
         else if LocationOf(level[i]).value.modifier.Stop? then Some(c) == Under(level[i], inner, false)
         else RegexRule(level, uri, engine, Answers(level, uri, engine), Under(level[i], inner, false), Some(c));
    var inner := Choose(level[i].children, uri, engine);
    PrefixIsUnder(level, i, uri, engine);
    if !(inner.Some? && inner.value.final) && !LocationOf(level[i]).value.modifier.Stop? {
      RegexRuleIsUnder(level, uri, engine, Under(level[i], inner, false), c);
    }
  }

  /**
   The chosen path is one of nested matching locations, and the search is final
   exactly when the path holds an exact or a regex location.
   */
  lemma {:induction false} ChosenPathMatches(level: seq<Node>, uri: string, engine: Engine)
    requires Choose(level, uri, engine).Some?
    ensures var c := Choose(level, uri, engine).value;
            && c.path != []
            && IsMatchingPath(level, c.path, uri, engine)
            && (c.final <==> HasFinal(c.path))
    decreases level
  {
    hide LocationOf;
    hide Choose;
    hide IsMatchingPath;
    hide OneLevel;
    ChooseIsOneLevel(level, uri, engine);
    var c := Choose(level, uri, engine).value;
    ChosenIsUnder(level, uri, engine, c);
    var i: nat, inner :| IsUnder(level, i, inner, uri, engine, c);
    if inner.Some? { ChosenPathMatches(level[i].children, uri, engine); }
    UnderMatches(level, i, inner, c.final, uri, engine);
  }

  // ---------------------------------------------------------------------
  // The order of a level's blocks
  // ---------------------------------------------------------------------

  /** The same block, up to the order of the blocks inside it. */
  ghost predicate Alike(a: Node, b: Node)
    decreases a, 2
  {
    && a.name == b.name
    && a.args == b.args
    && (a.Block? <==> b.Block?)
    && (a.Block? ==> Shuffled(a.children, b.children))
  }

  ghost predicate Shuffled(a: seq<Node>, b: seq<Node>)
    decreases a, 1
  {
    exists to: seq<nat>, from: seq<nat> :: ShuffledBy(a, b, to, from)
  }

  /** `to` sends each block of `a` to its place in `b`, `from` sends it back, and regexes keep their order. */
  ghost predicate ShuffledBy(a: seq<Node>, b: seq<Node>, to: seq<nat>, from: seq<nat>)
    decreases a, 0
  {
    && |a| == |b| == |to| == |from|
    && (forall i :: 0 <= i < |a| ==> to[i] < |b| && from[to[i]] == i)
    && (forall j :: 0 <= j < |b| ==> from[j] < |a| && to[from[j]] == j)
    && (forall i :: 0 <= i < |a| ==> Alike(a[i], b[to[i]]))
    && (forall i, j :: 0 <= i < j < |a| && RegexBlock(a[i]) && RegexBlock(a[j]) ==> to[i] < to[j])
  }

  predicate RegexBlock(n: Node) { LocationOf(n).Some? && IsRegex(LocationOf(n).value) }

  /** At every depth, no two exact locations share a pattern and no two prefixes do. */
  predicate Unambiguous(level: seq<Node>) {
    && (forall i, j :: 0 <= i < j < |level| ==> !SameKey(level[i], level[j]))
    && (forall n :: n in level && n.Block? ==> Unambiguous(n.children))
  }

  predicate SameKey(a: Node, b: Node) {
    && LocationOf(a).Some? && LocationOf(b).Some?
    && var l, m := LocationOf(a).value, LocationOf(b).value;
       && l.pattern == m.pattern
       && ((l.modifier.Exact? && m.modifier.Exact?) || (IsPrefix(l) && IsPrefix(m)))
  }

  ghost predicate AlikePaths(p: seq<Node>, q: seq<Node>) {
    |p| == |q| && forall k :: 0 <= k < |p| ==> Alike(p[k], q[k])
  }

  ghost predicate AlikeChoices(r: Option<Choice>, s: Option<Choice>) {
    match (r, s)
    case (Some(c), Some(d)) => c.final == d.final && AlikePaths(c.path, d.path)
    case (None, None) => true
    case _ => false
  }

  /** Two blocks whose own levels answer alike. */
  ghost predicate AlikeInside(m: Node, n: Node, uri: string, engine: Engine) {
    m.Block? && n.Block? && AlikeChoices(Choose(m.children, uri, engine), Choose(n.children, uri, engine))
  }

  lemma AlikeLocations(a: Node, b: Node)
    requires Alike(a, b)
    ensures LocationOf(a).Some? == LocationOf(b).Some?
    ensures LocationOf(a).Some? ==>
              && LocationOf(a).value.modifier == LocationOf(b).value.modifier
              && LocationOf(a).value.pattern == LocationOf(b).value.pattern
  {
    hide Shuffled;
  }

  /** Alike blocks match the same URIs in the same way. */
  lemma AlikeMatches(a: seq<Node>, b: seq<Node>, to: seq<nat>, from: seq<nat>, i: nat, uri: string, engine: Engine)
    requires ShuffledBy(a, b, to, from) && i < |a|
    ensures to[i] < |b| && Alike(a[i], b[to[i]])
    ensures forall regex :: EndsAt(a, i, uri, engine, regex) == EndsAt(b, to[i], uri, engine, regex)
    ensures PrefixAt(a, i, uri) == PrefixAt(b, to[i], uri)
    ensures LocationOf(a[i]).Some? ==>
              && LocationOf(b[to[i]]).Some?
              && LocationOf(a[i]).value.modifier == LocationOf(b[to[i]]).value.modifier
              && LocationOf(a[i]).value.pattern == LocationOf(b[to[i]]).value.pattern
  {
    hide LocationOf;
    hide Alike;
    AlikeLocations(a[i], b[to[i]]);
  }

  lemma NotTheSame(level: seq<Node>, i: nat, j: nat)
    requires Unambiguous(level) && i < |level| && j < |level| && i != j
    ensures !SameKey(level[i], level[j])
  {
    hide LocationOf;
    if j < i {
      assert !SameKey(level[j], level[i]);
    }
  }

  lemma AlikeFirst(a: seq<Node>, b: seq<Node>, to: seq<nat>, from: seq<nat>, i: nat, uri: string, engine: Engine,
                   regex: bool)
    requires ShuffledBy(a, b, to, from) && FirstAt(a, i, uri, engine, regex) && Unambiguous(a)
    ensures to[i] < |b| && FirstAt(b, to[i], uri, engine, regex)
  {
    hide LocationOf;
    hide Alike;
    AlikeMatches(a, b, to, from, i, uri, engine);
    forall j: nat | EndsAt(b, j, uri, engine, regex)
      ensures to[i] <= j
    {
      var k := from[j];
      AlikeMatches(a, b, to, from, k, uri, engine);
      if i < k { NotTheSame(a, i, k); }
    }
  }

  lemma PrefixesOfOne(p: string, q: string, uri: string)
    requires p <= uri && q <= uri && |p| == |q|
    ensures p == q
  {
    assert p == uri[..|p|];
  }

  lemma AlikeLongest(a: seq<Node>, b: seq<Node>, to: seq<nat>, from: seq<nat>, i: nat, uri: string, engine: Engine)
    requires ShuffledBy(a, b, to, from) && LongestAt(a, i, uri) && Unambiguous(a)
    ensures to[i] < |b| && LongestAt(b, to[i], uri)
  {
    hide LocationOf;
    hide Alike;
    AlikeMatches(a, b, to, from, i, uri, engine);
    forall j: nat | PrefixAt(b, j, uri)
      ensures var p, q := LocationOf(b[to[i]]).value.pattern, LocationOf(b[j]).value.pattern;
              |q| < |p| || (|q| == |p| && to[i] <= j)
    {
      var k := from[j];
      AlikeMatches(a, b, to, from, k, uri, engine);
      var p, q := LocationOf(a[i]).value.pattern, LocationOf(a[k]).value.pattern;
      if |p| == |q| && i != k {
        PrefixesOfOne(p, q, uri);
        NotTheSame(a, i, k);
      }
    }
  }

  lemma AlikeUnder(a: Node, b: Node, r: Option<Choice>, s: Option<Choice>, final: bool)
    requires Alike(a, b) && AlikeChoices(r, s)
    ensures AlikeChoices(Under(a, r, final), Under(b, s, final))
  {
    hide Alike;
    var p, q := [a] + Inner(r), [b] + Inner(s);
    forall k | 0 <= k < |p|
      ensures |p| == |q| && Alike(p[k], q[k])
    {
    }
  }

  lemma AlikeRegex(a: seq<Node>, b: seq<Node>, to: seq<nat>, from: seq<nat>, uri: string, engine: Engine,
                   r: Option<Choice>, s: Option<Choice>)
    requires ShuffledBy(a, b, to, from) && Unambiguous(a) && AlikeChoices(r, s)
    requires forall i: nat :: i < |a| && EndsAt(a, i, uri, engine, true) ==>
               to[i] < |b| && AlikeInside(a[i], b[to[i]], uri, engine)
    ensures var x, y := Answers(a, uri, engine), Answers(b, uri, engine);
            forall c, d ::
              RegexRule(a, uri, engine, x, r, c) && RegexRule(b, uri, engine, y, s, d) ==> AlikeChoices(c, d)
  {
    hide Unambiguous;
    hide Under;
    hide AlikeChoices;
    hide LocationOf;
    hide Alike;
    hide AlikePaths;
    hide Choose;
    forall c, d | RegexRule(a, uri, engine, Answers(a, uri, engine), r, c)
      && RegexRule(b, uri, engine, Answers(b, uri, engine), s, d)
      ensures AlikeChoices(c, d)
    {
      if i: nat :| FirstAt(a, i, uri, engine, true) && c == Under(a[i], Choose(a[i].children, uri, engine), true) {
        AlikeFirst(a, b, to, from, i, uri, engine, true);
        AlikeUnder(a[i], b[to[i]], Choose(a[i].children, uri, engine), Choose(b[to[i]].children, uri, engine), true);
      } else {
        forall j: nat | EndsAt(b, j, uri, engine, true)
          ensures EndsAt(a, from[j], uri, engine, true)
        {
          AlikeMatches(a, b, to, from, from[j], uri, engine);
        }
      }
    }
  }

  lemma AlikePrefix(a: seq<Node>, b: seq<Node>, to: seq<nat>, from: seq<nat>, i: nat, uri: string, engine: Engine)
    requires ShuffledBy(a, b, to, from) && Unambiguous(a) && LongestAt(a, i, uri)
    requires forall j: nat :: !EndsAt(a, j, uri, engine, false)
    requires forall j: nat :: j < |a| && (j == i || EndsAt(a, j, uri, engine, true)) ==>
               to[j] < |b| && AlikeInside(a[j], b[to[j]], uri, engine)
    ensures AlikeChoices(Choose(a, uri, engine), Choose(b, uri, engine))
  {
    hide LocationOf;
    hide Alike;
    hide AlikePaths;
    hide Choose;
    hide RegexRule;
    AlikeLongest(a, b, to, from, i, uri, engine);
    forall j: nat | EndsAt(b, j, uri, engine, false)
      ensures EndsAt(a, from[j], uri, engine, false)
    {
      AlikeMatches(a, b, to, from, from[j], uri, engine);
    }
    AlikeMatches(a, b, to, from, i, uri, engine);
    ChooseIsOneLevel(a, uri, engine);
    ChooseIsOneLevel(b, uri, engine);
    var r, s := Choose(a[i].children, uri, engine), Choose(b[to[i]].children, uri, engine);
    AlikeUnder(a[i], b[to[i]], r, s, true);
    AlikeUnder(a[i], b[to[i]], r, s, false);
    AlikeRegex(a, b, to, from, uri, engine, Under(a[i], r, false), Under(b[to[i]], s, false));
  }

  /**
   Where no pattern is ambiguous, the blocks of every level may be put in any
   order that keeps its regexes in theirs: the same locations are chosen, and
   the search is final for the same URIs.
   */
  lemma {:induction false} ChoiceForgetsOrder(a: seq<Node>, b: seq<Node>, uri: string, engine: Engine)
    requires Shuffled(a, b) && Unambiguous(a)
    ensures AlikeChoices(Choose(a, uri, engine), Choose(b, uri, engine))
    decreases a
  {
    hide LocationOf;
    hide Choose;
    hide AlikePaths;
    var to, from :| ShuffledBy(a, b, to, from);
    forall i: nat | i < |a| && a[i].Block?
      ensures to[i] < |b| && AlikeInside(a[i], b[to[i]], uri, engine)
    {
      assert Alike(a[i], b[to[i]]);
      ChoiceForgetsOrder(a[i].children, b[to[i]].children, uri, engine);
    }
    ChoiceForgetsOrderAtTop(a, b, to, from, uri, engine);
  }

  lemma ChoiceForgetsOrderAtTop(a: seq<Node>, b: seq<Node>, to: seq<nat>, from: seq<nat>, uri: string, engine: Engine)
    requires ShuffledBy(a, b, to, from) && Unambiguous(a)
    requires forall i: nat :: i < |a| && a[i].Block? ==>
               to[i] < |b| && AlikeInside(a[i], b[to[i]], uri, engine)
    ensures AlikeChoices(Choose(a, uri, engine), Choose(b, uri, engine))
  {
    hide LocationOf;
    hide Choose;
    hide Alike;
    hide RegexRule;
    var e := FirstEndIsFirst(a, uri, engine, false);
    if FirstAt(a, e, uri, engine, false) {
      AlikeExact(a, b, to, from, e, uri, engine);
    } else {
      var i := LongestPrefixIsLongest(a, uri);
      if LongestAt(a, i, uri) {
        AlikePrefix(a, b, to, from, i, uri, engine);
      } else {
        AlikeWithoutPrefix(a, b, to, from, uri, engine);
      }
    }
  }

  lemma AlikeExact(a: seq<Node>, b: seq<Node>, to: seq<nat>, from: seq<nat>, e: nat, uri: string, engine: Engine)
    requires ShuffledBy(a, b, to, from) && Unambiguous(a) && FirstAt(a, e, uri, engine, false)
    ensures AlikeChoices(Choose(a, uri, engine), Choose(b, uri, engine))
  {
    hide LocationOf;
    hide Choose;
    hide Alike;
    hide RegexRule;
    AlikeFirst(a, b, to, from, e, uri, engine, false);
    AlikeMatches(a, b, to, from, e, uri, engine);
    OneLevelIsTheSearch(a, uri, engine, Some(Choice([a[e]], true)));
    OneLevelIsTheSearch(b, uri, engine, Some(Choice([b[to[e]]], true)));
  }

  lemma AlikeWithoutPrefix(a: seq<Node>, b: seq<Node>, to: seq<nat>, from: seq<nat>, uri: string, engine: Engine)
    requires ShuffledBy(a, b, to, from) && Unambiguous(a)
    requires forall j: nat :: !EndsAt(a, j, uri, engine, false) && !PrefixAt(a, j, uri)
    requires forall i: nat :: i < |a| && a[i].Block? ==> to[i] < |b| && AlikeInside(a[i], b[to[i]], uri, engine)
    ensures AlikeChoices(Choose(a, uri, engine), Choose(b, uri, engine))
  {
    hide LocationOf;
    hide Choose;
    hide Alike;
    hide RegexRule;
    forall j: nat | EndsAt(b, j, uri, engine, false) || PrefixAt(b, j, uri)
      ensures EndsAt(a, from[j], uri, engine, false) || PrefixAt(a, from[j], uri)
    {
      AlikeMatches(a, b, to, from, from[j], uri, engine);
    }
    ChooseIsOneLevel(a, uri, engine);
    ChooseIsOneLevel(b, uri, engine);
    AlikeRegex(a, b, to, from, uri, engine, None, None);
  }

  /** Two prefixes of one pattern are answered by the first: there the order shows. */
  lemma AmbiguousOrderShows(a: Node, b: Node, uri: string, engine: Engine)
    requires LocationOf(a) == Some(Location(a, Plain, uri)) && LocationOf(b) == Some(Location(b, Plain, uri))
    ensures Choose([a, b], uri, engine).Some? && Choose([a, b], uri, engine).value.path[..1] == [a]
    ensures Choose([b, a], uri, engine).Some? && Choose([b, a], uri, engine).value.path[..1] == [b]
  {
    FirstOfTwo(a, b, uri, engine);
    FirstOfTwo(b, a, uri, engine);
  }

  lemma FirstOfTwo(a: Node, b: Node, uri: string, engine: Engine)
    requires LocationOf(a) == Some(Location(a, Plain, uri)) && LocationOf(b) == Some(Location(b, Plain, uri))
    ensures Choose([a, b], uri, engine).Some? && Choose([a, b], uri, engine).value.path[..1] == [a]
  {
    hide LocationOf;
    var x, y := Location(a, Plain, uri), Location(b, Plain, uri);
    assert [a, b][1..] == [b] && [b][1..] == [];
    assert Locations([b]) == [y];
    assert Locations([a, b]) == [x, y];
    assert [x, y][1..] == [y] && [y][1..] == [];
    assert FirstEnd([x, y], uri, engine, false).None? && FirstEnd([x, y], uri, engine, true).None?;
    assert uri <= uri;
    assert LongestPrefix([y], uri, Some(x)) == LongestPrefix([], uri, Some(x)) == Some(x);
    assert LongestPrefix([x, y], uri, None) == LongestPrefix([y], uri, Some(x));
  }

  // ---------------------------------------------------------------------
  // What a location's words say
  // ---------------------------------------------------------------------

  /** A block chosen, with what its own level answers. */
  function With(n: Node, inner: Option<Choice>, final: bool): Option<Choice> {
    Some(Choice([n] + (if inner.Some? then inner.value.path else []), final))
  }

  lemma Alone(n: Node, l: Location, uri: string, engine: Engine)
    requires LocationOf(n) == Some(l)
    ensures var inner := Choose(n.children, uri, engine);
            Choose([n], uri, engine) ==
            match l.modifier
            case Exact => if l.pattern == uri then Some(Choice([n], true)) else None
            case Regex => if engine(l.pattern, false, uri) then With(n, inner, true) else None
            case CaselessRegex => if engine(l.pattern, true, uri) then With(n, inner, true) else None
            case _ => if l.pattern <= uri then With(n, inner, inner.Some? && inner.value.final) else None
  {
    hide LocationOf;
    assert [n][1..] == [] && [l][1..] == [];
    assert Locations([n]) == [l];
    assert FirstEnd([], uri, engine, false).None? && FirstEnd([], uri, engine, true).None?;
    assert LongestPrefix([], uri, None).None? && LongestPrefix([], uri, Some(l)) == Some(l);
    assert [n] + [] == [n];
  }

  lemma NotALocation(n: Node, uri: string, engine: Engine)
    requires LocationOf(n).None?
    ensures Choose([n], uri, engine) == None
  {
    hide LocationOf;
    assert [n][1..] == [];
    assert Locations([n]) == [];
  }

  /** A pattern with no modifier is a prefix, and the search goes on inside; words after it say nothing. */
  lemma PlainIsAPrefix(p: string, more: seq<string>, cs: seq<Node>, uri: string, engine: Engine)
    requires !("@" <= p) && !("=" <= p) && !("^~" <= p) && !("~" <= p)
    ensures var n, inner := Block("location", [p] + more, cs), Choose(cs, uri, engine);
            Choose([n], uri, engine) == if p <= uri then With(n, inner, inner.Some? && inner.value.final) else None
  {
    var n := Block("location", [p] + more, cs);
    assert n.args[0] == p;
    Alone(n, Location(n, Plain, p), uri, engine);
  }

  /** Each modifier written apart from its pattern. */
  lemma ModifiersApart(p: string, more: seq<string>, cs: seq<Node>, uri: string, engine: Engine)
    ensures var n := Block("location", ["=", p] + more, cs);
            Choose([n], uri, engine) == if p == uri then Some(Choice([n], true)) else None
    ensures var n, inner := Block("location", ["~", p] + more, cs), Choose(cs, uri, engine);
            Choose([n], uri, engine) == if engine(p, false, uri) then With(n, inner, true) else None
    ensures var n, inner := Block("location", ["~*", p] + more, cs), Choose(cs, uri, engine);
            Choose([n], uri, engine) == if engine(p, true, uri) then With(n, inner, true) else None
    ensures var n, inner := Block("location", ["^~", p] + more, cs), Choose(cs, uri, engine);
            Choose([n], uri, engine) == if p <= uri then With(n, inner, inner.Some? && inner.value.final) else None
  {
    ReadApart("=", Exact, p, more, cs);
    ReadApart("~", Regex, p, more, cs);
    ReadApart("~*", CaselessRegex, p, more, cs);
    ReadApart("^~", Stop, p, more, cs);
    hide LocationOf;
    hide Choose;
    var e, r := Block("location", ["=", p] + more, cs), Block("location", ["~", p] + more, cs);
    var c, s := Block("location", ["~*", p] + more, cs), Block("location", ["^~", p] + more, cs);
    Alone(e, Location(e, Exact, p), uri, engine);
    Alone(r, Location(r, Regex, p), uri, engine);
    Alone(c, Location(c, CaselessRegex, p), uri, engine);
    Alone(s, Location(s, Stop, p), uri, engine);
  }

  predicate IsSign(sign: string, modifier: Modifier) {
    (sign, modifier) in {("=", Exact), ("^~", Stop), ("~*", CaselessRegex), ("~", Regex)}
  }

  lemma ReadApart(sign: string, modifier: Modifier, p: string, more: seq<string>, cs: seq<Node>)
    requires IsSign(sign, modifier)
    ensures var n := Block("location", [sign, p] + more, cs); LocationOf(n) == Some(Location(n, modifier, p))
  {
    var args := [sign, p] + more;
    assert args[0] == sign && args[1] == p;
    BeginsAs(sign, modifier, "");
    assert sign + "" == sign;
  }

  /** Which sign a word begins with. */
  lemma BeginsAs(sign: string, modifier: Modifier, p: string)
    requires IsSign(sign, modifier) && !(sign == "~" && p != "" && p[0] == '*')
    ensures var w := sign + p;
            && !("@" <= w) && ("=" <= w <==> modifier == Exact) && ("^~" <= w <==> modifier == Stop)
            && ("~*" <= w <==> modifier == CaselessRegex)
            && ("~" <= w <==> modifier == CaselessRegex || modifier == Regex)
  {
    var w := sign + p;
    assert w[0] == sign[0];
    assert modifier == Stop || modifier == CaselessRegex ==> w[1] == sign[1];
    assert modifier == Regex && |w| > 1 ==> w[1] == p[0];
  }

  lemma ReadTogether(sign: string, modifier: Modifier, p: string, more: seq<string>, cs: seq<Node>)
    requires IsSign(sign, modifier) && p != "" && !(sign == "~" && p[0] == '*')
    ensures var n := Block("location", [sign + p] + more, cs); LocationOf(n) == Some(Location(n, modifier, p))
  {
    var args := [sign + p] + more;
    assert args[0] == sign + p && args[0][|sign|..] == p && |args[0]| == |sign| + |p|;
    BeginsAs(sign, modifier, p);
  }

  /** A modifier and its pattern in one word choose as they do apart; `~*` is not `~` and a star. */
  lemma ModifiersTogether(sign: string, p: string, cs: seq<Node>, uri: string, engine: Engine)
    requires sign in {"=", "^~", "~*", "~"} && p != "" && !(sign == "~" && p[0] == '*')
    ensures var apart := Choose([Block("location", [sign, p], cs)], uri, engine);
            var together := Choose([Block("location", [sign + p], cs)], uri, engine);
            && together.Some? == apart.Some?
            && (together.Some? ==>
                  && together.value.final == apart.value.final
                  && together.value.path[..1] == [Block("location", [sign + p], cs)]
                  && together.value.path[1..] == apart.value.path[1..])
  {
    var modifier :=
      if sign == "=" then Exact else if sign == "^~" then Stop else if sign == "~" then Regex else CaselessRegex;
    var a, t := Block("location", [sign, p], cs), Block("location", [sign + p], cs);
    ReadApart(sign, modifier, p, [], cs);
    ReadTogether(sign, modifier, p, [], cs);
    assert [sign, p] + [] == [sign, p] && [sign + p] + [] == [sign + p];
    hide LocationOf;
    hide Choose;
    Alone(a, Location(a, modifier, p), uri, engine);
    Alone(t, Location(t, modifier, p), uri, engine);
  }

  /** A named location, a modifier with no pattern, a directive and a block of another name are never chosen. */
  lemma NeverChosen(n: Node, uri: string, engine: Engine)
    requires n.Directive? || n.name != "location" || n.args == [] || "@" <= n.args[0]
             || n.args in {["="], ["^~"], ["~*"], ["~"]}
    ensures Choose([n], uri, engine) == None
  {
    NotALocation(n, uri, engine);
  }

  /** A matching `^~` keeps out a regex that matches too, whichever is written first; a plain prefix does not. */
  lemma StopKeepsRegexesOut(p: string, q: string, sign: string, cs: seq<Node>, ds: seq<Node>, uri: string,
                            engine: Engine)
    requires p <= uri && sign in {"~", "~*"} && engine(q, sign == "~*", uri)
    requires !("@" <= p) && !("=" <= p) && !("^~" <= p) && !("~" <= p)
    ensures var stop, plain := Block("location", ["^~", p], cs), Block("location", [p], cs);
            var regex := Block("location", [sign, q], ds);
            var inner, other := Choose(cs, uri, engine), Choose(ds, uri, engine);
            var final := inner.Some? && inner.value.final;
            && Choose([stop, regex], uri, engine) == Choose([regex, stop], uri, engine) == With(stop, inner, final)
            && Choose([plain, regex], uri, engine) == Choose([regex, plain], uri, engine)
               == if final then With(plain, inner, true) else With(regex, other, true)
  {
    var modifier := if sign == "~" then Regex else CaselessRegex;
    var stop, plain := Block("location", ["^~", p], cs), Block("location", [p], cs);
    var regex := Block("location", [sign, q], ds);
    ReadApart("^~", Stop, p, [], cs);
    ReadApart(sign, modifier, q, [], ds);
    assert ["^~", p] + [] == ["^~", p] && [sign, q] + [] == [sign, q];
    assert LocationOf(plain) == Some(Location(plain, Plain, p));
    hide LocationOf;
    PrefixAndRegex(stop, Location(stop, Stop, p), regex, Location(regex, modifier, q), uri, engine);
    PrefixAndRegex(plain, Location(plain, Plain, p), regex, Location(regex, modifier, q), uri, engine);
  }

  lemma LocationsOfTwo(a: Node, x: Location, b: Node, y: Location)
    requires LocationOf(a) == Some(x) && LocationOf(b) == Some(y)
    ensures Locations([a, b]) == [x, y]
  {
    hide LocationOf;
    assert [a, b][1..] == [b] && [b][1..] == [];
    assert Locations([b]) == [y];
  }

  lemma PrefixAndRegex(a: Node, x: Location, b: Node, y: Location, uri: string, engine: Engine)
    requires LocationOf(a) == Some(x) && IsPrefix(x) && x.pattern <= uri
    requires LocationOf(b) == Some(y) && IsRegex(y) && engine(y.pattern, y.modifier.CaselessRegex?, uri)
    ensures var inner, other := Choose(a.children, uri, engine), Choose(b.children, uri, engine);
            var final := inner.Some? && inner.value.final;
            Choose([a, b], uri, engine) == Choose([b, a], uri, engine)
            == if final || x.modifier.Stop? then With(a, inner, final) else With(b, other, true)
  {
    LocationsOfTwo(a, x, b, y);
    LocationsOfTwo(b, y, a, x);
    hide LocationOf;
    hide Locations;
    assert [x, y][1..] == [y] && [y, x][1..] == [x] && [x][1..] == [] && [y][1..] == [];
    assert FirstEnd([], uri, engine, false).None? && FirstEnd([], uri, engine, true).None?;
    assert FirstEnd([x], uri, engine, false).None? && FirstEnd([y], uri, engine, false).None?;
    assert FirstEnd([x], uri, engine, true).None? && FirstEnd([y], uri, engine, true) == Some(y);
    assert LongestPrefix([], uri, None).None? && LongestPrefix([], uri, Some(x)) == Some(x);
    assert LongestPrefix([x], uri, None) == Some(x) && LongestPrefix([y], uri, Some(x)) == Some(x);
  }
}
