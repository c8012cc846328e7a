/**
 The headers nginx adds to its answer for a URI, as `headersFor` in
 `scripts/nginx-config.ts` finds them: the server, the one level whose
 `add_header` lines apply, and the variables in their values.
 */
module NginxHeaders {
  import opened Common
  import opened NginxConfig
  import NginxLocations

  function Children(n: Node): seq<Node> { if n.Block? then n.children else [] }

  // ---------------------------------------------------------------------
  // The server
  // ---------------------------------------------------------------------

  predicate IsServer(n: Node) { n.Block? && n.name == "server" }

  predicate IsHttp(n: Node) { n.Block? && n.name == "http" }

  /** The levels below `nodes` that lead to the first server, its own last. */
  function ServerChain(nodes: seq<Node>): (r: Option<seq<seq<Node>>>)
    ensures r.Some? ==> r.value != []
    decreases nodes
  {
    if nodes == [] then None
    else if IsServer(nodes[0]) then Some([nodes[0].children])
    else
      var inside := if IsHttp(nodes[0]) then ServerChain(nodes[0].children) else None;
      if inside.Some? then Some([nodes[0].children] + inside.value) else ServerChain(nodes[1..])
  }

  /** The two variables the search writes. */
  class ServerSearch {
    var levels: seq<seq<Node>>
    var server: Option<Node>

    constructor (top: seq<Node>)
      ensures levels == [top] && server == None
    {
      levels, server := [top], None;
    }

    /** Goes on where no server has been found, pushing a level and taking it back when it leads to none. */
    method Find(nodes: seq<Node>)
      requires server.Some? ==> IsServer(server.value)
      modifies this
      ensures server.Some? ==> IsServer(server.value)
      ensures var found := if old(server).Some? then None else ServerChain(nodes);
              if found.None? then levels == old(levels) && server == old(server)
              else
                && levels == old(levels) + found.value && server.Some?
                && server.value.children == found.value[|found.value| - 1]
      decreases nodes
    {
      ghost var open := server.None?;
      for k := 0 to |nodes|
        invariant server.Some? ==> IsServer(server.value)
        invariant !open ==> levels == old(levels) && server == old(server)
        invariant open && server.None? ==> levels == old(levels) && ServerChain(nodes) == ServerChain(nodes[k..])
        invariant open && server.Some? ==>
                  var found := ServerChain(nodes);
                  found.Some? && levels == old(levels) + found.value
                    && server.value.children == found.value[|found.value| - 1]
      {
        var node := nodes[k];
        assert nodes[k..][0] == node && nodes[k..][1..] == nodes[k + 1..];
        if server.Some? || node.Directive? { continue; }
        if node.name == "server" {
          server := Some(node);
          levels := levels + [node.children];
        } else if node.name == "http" {
          levels := levels + [node.children];
          Find(node.children);
          if server.None? { levels := levels[..|levels| - 1]; }
        }
      }
      assert nodes[|nodes|..] == [];
    }
  }

  predicate LeadsToAServer(n: Node)
    decreases n
  {
    IsServer(n) || (IsHttp(n) && exists m :: m in n.children && LeadsToAServer(m))
  }

  /** A chain of levels to a server, with none before it on any level. */
  ghost predicate IsFirstChain(nodes: seq<Node>, chain: seq<seq<Node>>)
    decreases |chain|
  {
    chain != [] && exists k: nat :: FirstStep(nodes, chain, k)
  }

  ghost predicate FirstStep(nodes: seq<Node>, chain: seq<seq<Node>>, k: nat)
    requires chain != []
    decreases |chain|, 0
  {
    && k < |nodes| && nodes[k].Block? && chain[0] == nodes[k].children
    && (forall j :: 0 <= j < k ==> !LeadsToAServer(nodes[j]))
    && if |chain| == 1 then IsServer(nodes[k])
       else IsHttp(nodes[k]) && IsFirstChain(nodes[k].children, chain[1..])
  }

  lemma {:induction false} NoChainNoServer(nodes: seq<Node>)
    ensures ServerChain(nodes).None? <==> forall j :: 0 <= j < |nodes| ==> !LeadsToAServer(nodes[j])
    decreases nodes
  {
    if nodes == [] {
    } else {
      var first, rest := nodes[0], nodes[1..];
      NoChainNoServer(rest);
      if IsHttp(first) {
        NoChainNoServer(first.children);
        forall m | m in first.children
          ensures exists j :: 0 <= j < |first.children| && first.children[j] == m
        {
        }
      }
      assert nodes == [first] + rest;
    }
  }

  /** The search answers with the first server, by the chain of blocks that holds it, whenever there is one. */
  lemma {:induction false} ServerIsTheFirst(nodes: seq<Node>)
    ensures ServerChain(nodes).Some? ==> IsFirstChain(nodes, ServerChain(nodes).value)
    ensures ServerChain(nodes).None? <==> forall j :: 0 <= j < |nodes| ==> !LeadsToAServer(nodes[j])
    decreases nodes
  {
    NoChainNoServer(nodes);
    if ServerChain(nodes).Some? {
      var chain := ServerChain(nodes).value;
      if IsServer(nodes[0]) {
        assert FirstStep(nodes, chain, 0);
      } else if IsHttp(nodes[0]) && ServerChain(nodes[0].children).Some? {
        ServerIsTheFirst(nodes[0].children);
        assert chain[1..] == ServerChain(nodes[0].children).value;
        assert FirstStep(nodes, chain, 0);
      } else {
        FirstOfTheRest(nodes, chain);
      }
    }
  }

  lemma FirstOfTheRest(nodes: seq<Node>, chain: seq<seq<Node>>)
    requires nodes != [] && !IsServer(nodes[0]) && (IsHttp(nodes[0]) ==> ServerChain(nodes[0].children).None?)
    requires ServerChain(nodes[1..]) == Some(chain)
    ensures IsFirstChain(nodes, chain)
    decreases nodes, 0
  {
    var rest := nodes[1..];
    ServerIsTheFirst(rest);
    if IsHttp(nodes[0]) { NoChainNoServer(nodes[0].children); }
    assert !LeadsToAServer(nodes[0]);
    var k: nat :| FirstStep(rest, chain, k);
    assert rest[k] == nodes[k + 1];
    assert forall j :: 1 <= j < k + 1 ==> nodes[j] == rest[j - 1];
    assert FirstStep(nodes, chain, k + 1);
  }

  // ---------------------------------------------------------------------
  // Variables
  // ---------------------------------------------------------------------

  predicate Sets(n: Node) { n.name == "set" && n.args != [] && "$" <= n.args[0] }

  function SetName(n: Node): string
    requires Sets(n)
  {
    n.args[0][1..]
  }

  function SetValue(n: Node): string { if |n.args| > 1 then n.args[1] else "" }

  /** What the `set` lines of some nodes leave, in order. */
  function Variables(nodes: seq<Node>): map<string, string> {
    if nodes == [] then map[]
    else
      var before, last := Variables(nodes[..|nodes| - 1]), nodes[|nodes| - 1];
      if Sets(last) then before[SetName(last) := SetValue(last)] else before
  }

  function Flat(scopes: seq<seq<Node>>): seq<Node> {
    if scopes == [] then [] else Flat(scopes[..|scopes| - 1]) + scopes[|scopes| - 1]
  }

  method GatherVariables(scopes: seq<seq<Node>>) returns (variables: map<string, string>)
    ensures variables == Variables(Flat(scopes))
  {
    variables := map[];
    for k := 0 to |scopes|
      invariant variables == Variables(Flat(scopes[..k]))
    {
      variables := GatherScope(scopes[k], variables, Flat(scopes[..k]));
      assert scopes[..k + 1][..k] == scopes[..k];
    }
    assert scopes[..|scopes|] == scopes;
  }

  method GatherScope(scope: seq<Node>, outer: map<string, string>, ghost nodes: seq<Node>)
    returns (variables: map<string, string>)
    requires outer == Variables(nodes)
    ensures variables == Variables(nodes + scope)
  {
    hide Variables;
    variables := outer;
    assert nodes + scope[..0] == nodes;
    for n := 0 to |scope|
      invariant variables == Variables(nodes + scope[..n])
    {
      OneMoreNode(nodes + scope[..n], scope[n]);
      assert nodes + scope[..n + 1] == nodes + scope[..n] + [scope[n]];
      if Sets(scope[n]) { variables := variables[SetName(scope[n]) := SetValue(scope[n])]; }
    }
    assert scope[..|scope|] == scope;
  }

  lemma OneMoreNode(nodes: seq<Node>, n: Node)
    ensures Variables(nodes + [n]) == if Sets(n) then Variables(nodes)[SetName(n) := SetValue(n)] else Variables(nodes)
  {
    assert (nodes + [n])[..|nodes|] == nodes;
  }

  /** The `i`th node is the last to set a variable. */
  predicate SetsLast(nodes: seq<Node>, i: nat, name: string) {
    && i < |nodes| && Sets(nodes[i]) && SetName(nodes[i]) == name
    && forall j :: i < j < |nodes| && Sets(nodes[j]) ==> SetName(nodes[j]) != name
  }

  /** A variable has the value its last `set` line gives, and none without one. */
  lemma {:induction false} VariableIsTheLastSet(nodes: seq<Node>, name: string)
    ensures name in Variables(nodes) <==> exists i: nat :: SetsLast(nodes, i, name)
    ensures forall i: nat :: SetsLast(nodes, i, name) ==>
              name in Variables(nodes) && Variables(nodes)[name] == SetValue(nodes[i])
    decreases |nodes|
  {
    if nodes == [] {
    } else {
      var short, last := nodes[..|nodes| - 1], nodes[|nodes| - 1];
      VariableIsTheLastSet(short, name);
      LastSetIsLastOf(nodes, name);
      var before := Variables(short);
      assert Variables(nodes) == if Sets(last) then before[SetName(last) := SetValue(last)] else before;
      hide Variables;
      hide SetsLast;
    }
  }

  lemma LastSetIsLastOf(nodes: seq<Node>, name: string)
    requires nodes != []
    ensures var short, last := nodes[..|nodes| - 1], nodes[|nodes| - 1];
            if Sets(last) && SetName(last) == name then
              SetsLast(nodes, |nodes| - 1, name) && forall i: nat :: SetsLast(nodes, i, name) ==> i == |nodes| - 1
            else
              forall i: nat :: SetsLast(nodes, i, name) <==> SetsLast(short, i, name)
  {
    var short, last := nodes[..|nodes| - 1], nodes[|nodes| - 1];
    forall i: nat
      ensures !(Sets(last) && SetName(last) == name) ==> (SetsLast(nodes, i, name) <==> SetsLast(short, i, name))
    {
      if i < |short| { assert short[i] == nodes[i]; }
      if SetsLast(short, i, name) && !(Sets(last) && SetName(last) == name) {
        forall j | i < j < |nodes| && Sets(nodes[j])
          ensures SetName(nodes[j]) != name
        {
          if j < |short| { assert short[j] == nodes[j]; }
        }
      }
    }
  }

  // ---------------------------------------------------------------------
  // Values
  // ---------------------------------------------------------------------

  /** A value is read as characters and variables, in braces or not. */
  datatype Piece = Text(c: char) | Variable(name: string, braced: bool)

  predicate IsWordChar(c: char) { 'a' <= c <= 'z' || 'A' <= c <= 'Z' || '0' <= c <= '9' || c == '_' }

  function WordLength(s: string): (n: nat)
    ensures n <= |s| && (forall k :: 0 <= k < n ==> IsWordChar(s[k])) && (n < |s| ==> !IsWordChar(s[n]))
  {
    if s != "" && IsWordChar(s[0]) then 1 + WordLength(s[1..]) else 0
  }

  /** The first piece of a value, and how many characters spell it. */
  function FirstPiece(s: string): (r: (Piece, nat))
    requires s != ""
    ensures 0 < r.1 <= |s| && SpelledPiece(r.0) == s[..r.1]
  {
    var bare := if s[0] == '$' then WordLength(s[1..]) else 0;
    var inside := if s[0] == '$' && |s| > 1 && s[1] == '{' then WordLength(s[2..]) else 0;
    if inside > 0 && 2 + inside < |s| && s[2 + inside] == '}' then
      assert s[..3 + inside] == "${" + s[2..2 + inside] + "}";
      (Variable(s[2..2 + inside], true), 3 + inside)
    else if bare > 0 then
      assert s[..1 + bare] == "$" + s[1..1 + bare];
      (Variable(s[1..1 + bare], false), 1 + bare)
    else
      (Text(s[0]), 1)
  }

  function Pieces(s: string): seq<Piece> {
    if s == "" then []
    else
      var (piece, length) := FirstPiece(s);
      [piece] + Pieces(s[length..])
  }

  function SpelledPiece(p: Piece): string {
    match p
    case Text(c) => [c]
    case Variable(name, braced) => if braced then "${" + name + "}" else "$" + name
  }

  function Spelled(ps: seq<Piece>): string {
    if ps == [] then "" else SpelledPiece(ps[0]) + Spelled(ps[1..])
  }

  /** Reading a value in pieces loses nothing of it. */
  lemma {:induction false} PiecesSpellTheValue(s: string)
    ensures Spelled(Pieces(s)) == s
    decreases |s|
  {
    hide FirstPiece;
    hide SpelledPiece;
    if s == "" {
    } else {
      var (piece, length) := FirstPiece(s);
      PiecesSpellTheValue(s[length..]);
      assert Pieces(s) == [piece] + Pieces(s[length..]);
      SpelledAhead(piece, Pieces(s[length..]));
      hide Pieces;
      hide Spelled;
      assert s == s[..length] + s[length..];
    }
  }

  lemma SpelledAhead(p: Piece, ps: seq<Piece>)
    ensures Spelled([p] + ps) == SpelledPiece(p) + Spelled(ps)
  {
    assert ([p] + ps)[1..] == ps;
  }

  /** A value resolved, the variable nothing sets, or a value that goes deeper than was asked. */
  datatype Outcome = Done(text: string) | Unknown(name: string) | Deeper

  /** A value with its variables replaced, and theirs in turn, `depth` deep; the first that fails decides. */
  function Resolve(variables: map<string, string>, ps: seq<Piece>, depth: nat): Outcome
    decreases depth, |ps|
  {
    if ps == [] then Done("")
    else
      var head := ResolvePiece(variables, ps[0], depth);
      if !head.Done? then head
      else
        var tail := Resolve(variables, ps[1..], depth);
        if tail.Done? then Done(head.text + tail.text) else tail
  }

  function ResolvePiece(variables: map<string, string>, p: Piece, depth: nat): Outcome
    decreases depth, 0
  {
    match p
    case Text(c) => Done([c])
    case Variable(name, _) =>
      if name !in variables then Unknown(name)
      else if depth == 0 then Deeper
      else Resolve(variables, Pieces(variables[name]), depth - 1)
  }

  function ValueAt(variables: map<string, string>, name: string, depth: nat): Outcome
    requires name in variables
  {
    Resolve(variables, Pieces(variables[name]), depth)
  }

  /** The variables whose values go deeper than `depth`. */
  function DeeperThan(variables: map<string, string>, depth: nat): set<string> {
    set name | name in variables && ValueAt(variables, name, depth).Deeper?
  }

  /** More depth changes nothing but what was too deep. */
  lemma {:induction false} DepthOnlyHelps(variables: map<string, string>, ps: seq<Piece>, depth: nat)
    requires !Resolve(variables, ps, depth).Deeper?
    ensures Resolve(variables, ps, depth + 1) == Resolve(variables, ps, depth)
    decreases depth, |ps|
  {
    if ps == [] {
    } else {
      if depth > 0 && ps[0].Variable? && ps[0].name in variables {
        DepthOnlyHelps(variables, Pieces(variables[ps[0].name]), depth - 1);
      }
      if ResolvePiece(variables, ps[0], depth).Done? { DepthOnlyHelps(variables, ps[1..], depth); }
    }
  }

  /** What a value resolves to one deeper depends on its variables' values alone. */
  lemma {:induction false} DepthIsTheVariables(variables: map<string, string>, ps: seq<Piece>, a: nat, b: nat)
    requires forall name :: name in variables ==> ValueAt(variables, name, a) == ValueAt(variables, name, b)
    ensures Resolve(variables, ps, a + 1) == Resolve(variables, ps, b + 1)
    decreases |ps|
  {
    if ps == [] {
    } else {
      if ps[0].Variable? && ps[0].name in variables {
        assert ValueAt(variables, ps[0].name, a) == ValueAt(variables, ps[0].name, b);
      }
      DepthIsTheVariables(variables, ps[1..], a, b);
    }
  }

  predicate IsSettled(variables: map<string, string>, depth: nat) {
    forall name :: name in variables ==> ValueAt(variables, name, depth) == ValueAt(variables, name, depth + 1)
  }

  lemma {:induction false} SettledStays(variables: map<string, string>, depth: nat, more: nat)
    requires IsSettled(variables, depth)
    ensures forall name :: name in variables ==>
              ValueAt(variables, name, depth) == ValueAt(variables, name, depth + more)
    decreases more
  {
    if more == 0 {
    } else {
      SettledStays(variables, depth, more - 1);
      forall name | name in variables
        ensures ValueAt(variables, name, depth) == ValueAt(variables, name, depth + more)
      {
        DepthIsTheVariables(variables, Pieces(variables[name]), depth, depth + more - 1);
      }
    }
  }

  /** Each depth settles a variable or they are all settled. */
  lemma DeeperShrinks(variables: map<string, string>, depth: nat)
    ensures DeeperThan(variables, depth + 1) <= DeeperThan(variables, depth)
    ensures DeeperThan(variables, depth + 1) == DeeperThan(variables, depth) ==> IsSettled(variables, depth)
  {
    forall name | name in variables && !ValueAt(variables, name, depth).Deeper?
      ensures ValueAt(variables, name, depth + 1) == ValueAt(variables, name, depth)
    {
      DepthOnlyHelps(variables, Pieces(variables[name]), depth);
    }
    if DeeperThan(variables, depth + 1) == DeeperThan(variables, depth) {
      forall name | name in variables
        ensures ValueAt(variables, name, depth) == ValueAt(variables, name, depth + 1)
      {
        if ValueAt(variables, name, depth).Deeper? { assert name in DeeperThan(variables, depth + 1); }
      }
    }
  }

  lemma {:induction false} SettledByThen(variables: map<string, string>, depth: nat)
    ensures |DeeperThan(variables, depth)| + depth <= |variables| || IsSettled(variables, depth)
    decreases depth
  {
    hide Resolve;
    if depth == 0 {
      DeeperAreVariables(variables);
    } else {
      SettledByThen(variables, depth - 1);
      DeeperShrinks(variables, depth - 1);
      if IsSettled(variables, depth - 1) {
        StillSettled(variables, depth - 1);
      } else {
        hide DeeperThan;
        Smaller(DeeperThan(variables, depth), DeeperThan(variables, depth - 1));
      }
    }
  }

  lemma StillSettled(variables: map<string, string>, depth: nat)
    requires IsSettled(variables, depth)
    ensures IsSettled(variables, depth + 1)
  {
    hide ValueAt;
    SettledStays(variables, depth, 1);
    SettledStays(variables, depth, 2);
  }

  lemma DeeperAreVariables(variables: map<string, string>)
    ensures |DeeperThan(variables, 0)| <= |variables|
  {
    assert DeeperThan(variables, 0) <= variables.Keys;
    Smaller(DeeperThan(variables, 0), variables.Keys);
    assert |variables.Keys| == |variables|;
  }

  lemma {:induction false} Smaller(a: set<string>, b: set<string>)
    requires a <= b
    ensures |a| <= |b| && (a != b ==> |a| < |b|)
  {
    assert b == a + (b - a);
    if a != b { assert b - a != {}; }
  }

  /**
   A value goes no deeper than there are variables: what is too deep one past
   their number names itself on the way, and no depth is enough for it.
   */
  lemma DepthIsEnough(variables: map<string, string>, value: string, depth: nat)
    requires depth > |variables|
    ensures Resolve(variables, Pieces(value), depth) == Resolve(variables, Pieces(value), |variables| + 1)
  {
    hide Resolve;
    hide ValueAt;
    var n := |variables|;
    AllSettled(variables);
    SettledStays(variables, n, depth - 1 - n);
    assert n + (depth - 1 - n) == depth - 1;
    DepthIsTheVariables(variables, Pieces(value), n, depth - 1);
  }

  lemma AllSettled(variables: map<string, string>)
    ensures IsSettled(variables, |variables|)
  {
    hide IsSettled;
    hide ValueAt;
    var n := |variables|;
    SettledByThen(variables, n);
    DeeperShrinks(variables, n);
    Smaller(DeeperThan(variables, n + 1), DeeperThan(variables, n));
  }

  /** A value resolved as deep as there are variables to name. */
  function Resolved(variables: map<string, string>, value: string): Outcome {
    Resolve(variables, Pieces(value), |variables| + 1)
  }

  // ---------------------------------------------------------------------
  // When a value resolves, and to what
  // ---------------------------------------------------------------------

  /** Every variable a value names has a rank lower than `limit`. */
  ghost predicate Below(ps: seq<Piece>, rank: map<string, nat>, limit: nat) {
    forall k :: 0 <= k < |ps| && ps[k].Variable? ==> ps[k].name in rank && rank[ps[k].name] < limit
  }

  /** Ranks for some of the variables: the values of each name only variables of lower rank. */
  ghost predicate IsRanking(variables: map<string, string>, rank: map<string, nat>) {
    forall name :: name in rank ==> name in variables && Below(Pieces(variables[name]), rank, rank[name])
  }

  /** A value names only variables that have a rank. */
  ghost predicate Grounded(variables: map<string, string>, value: string, rank: map<string, nat>) {
    && IsRanking(variables, rank)
    && forall k :: 0 <= k < |Pieces(value)| && Pieces(value)[k].Variable? ==> Pieces(value)[k].name in rank
  }

  ghost predicate IsGrounded(variables: map<string, string>, value: string) {
    exists rank :: Grounded(variables, value, rank)
  }

  lemma BelowTail(ps: seq<Piece>, rank: map<string, nat>, limit: nat)
    requires ps != [] && Below(ps, rank, limit)
    ensures Below(ps[1..], rank, limit)
    ensures ps[0].Variable? ==> ps[0].name in rank && rank[ps[0].name] < limit
  {
    assert forall k :: 0 <= k < |ps| - 1 ==> ps[1..][k] == ps[k + 1];
  }

  lemma BelowLess(ps: seq<Piece>, rank: map<string, nat>, limit: nat, more: nat)
    requires Below(ps, rank, limit) && limit <= more
    ensures Below(ps, rank, more)
  {
  }

  lemma {:induction false} BelowResolves(variables: map<string, string>, ps: seq<Piece>, rank: map<string, nat>,
                                         depth: nat)
    requires IsRanking(variables, rank) && Below(ps, rank, depth)
    ensures Resolve(variables, ps, depth).Done?
    decreases depth, |ps|
  {
    if ps == [] {
    } else {
      BelowTail(ps, rank, depth);
      hide Below;
      hide Pieces;
      if ps[0].Variable? {
        var value := Pieces(variables[ps[0].name]);
        BelowLess(value, rank, rank[ps[0].name], depth - 1);
        BelowResolves(variables, value, rank, depth - 1);
      }
      BelowResolves(variables, ps[1..], rank, depth);
    }
  }

  /** What resolves names only variables that are set and resolve one level up. */
  lemma {:induction false} DonePieces(variables: map<string, string>, ps: seq<Piece>, depth: nat, k: nat)
    requires Resolve(variables, ps, depth).Done? && k < |ps| && ps[k].Variable?
    ensures ps[k].name in variables && depth > 0 && ValueAt(variables, ps[k].name, depth - 1).Done?
    decreases |ps|
  {
    if k == 0 {
    } else {
      DonePieces(variables, ps[1..], depth, k - 1);
    }
  }

  lemma {:induction false} StaysDone(variables: map<string, string>, ps: seq<Piece>, depth: nat, more: nat)
    requires depth <= more && !Resolve(variables, ps, depth).Deeper?
    ensures Resolve(variables, ps, more) == Resolve(variables, ps, depth)
    decreases more
  {
    if depth == more {
    } else {
      StaysDone(variables, ps, depth, more - 1);
      DepthOnlyHelps(variables, ps, more - 1);
    }
  }

  /** The least depth at which a variable's value resolves. */
  function Least(variables: map<string, string>, name: string, depth: nat): (r: nat)
    requires name in variables && ValueAt(variables, name, depth).Done?
    ensures r <= depth && ValueAt(variables, name, r).Done?
    ensures forall d :: 0 <= d < r ==> !ValueAt(variables, name, d).Done?
  {
    if depth == 0 then 0
    else if ValueAt(variables, name, depth - 1).Done? then Least(variables, name, depth - 1)
    else
      assert forall d :: 0 <= d < depth ==> !ValueAt(variables, name, d).Done? by {
        NotDoneBefore(variables, name, depth - 1);
      }
      depth
  }

  lemma NotDoneBefore(variables: map<string, string>, name: string, depth: nat)
    requires name in variables && !ValueAt(variables, name, depth).Done?
    ensures forall d :: 0 <= d <= depth ==> !ValueAt(variables, name, d).Done?
  {
    forall d | 0 <= d <= depth
      ensures !ValueAt(variables, name, d).Done?
    {
      if ValueAt(variables, name, d).Done? { StaysDone(variables, Pieces(variables[name]), d, depth); }
    }
  }

  /** The variables that resolve by some depth, ranked by the least that does. */
  function Ranks(variables: map<string, string>, depth: nat): map<string, nat> {
    map name | name in variables && ValueAt(variables, name, depth).Done? :: Least(variables, name, depth)
  }

  lemma RanksRank(variables: map<string, string>, depth: nat)
    ensures IsRanking(variables, Ranks(variables, depth))
  {
    var rank := Ranks(variables, depth);
    forall name | name in rank
      ensures Below(Pieces(variables[name]), rank, rank[name])
    {
      var ps := Pieces(variables[name]);
      forall k | 0 <= k < |ps| && ps[k].Variable?
        ensures ps[k].name in rank && rank[ps[k].name] < rank[name]
      {
        DonePieces(variables, ps, rank[name], k);
        StaysDone(variables, Pieces(variables[ps[k].name]), rank[name] - 1, depth);
      }
    }
  }

  lemma GroundedByThen(variables: map<string, string>, value: string)
    requires Resolved(variables, value).Done?
    ensures Grounded(variables, value, Ranks(variables, |variables|))
  {
    var n, ps := |variables|, Pieces(value);
    RanksRank(variables, n);
    forall k | 0 <= k < |ps| && ps[k].Variable?
      ensures ps[k].name in Ranks(variables, n)
    {
      DonePieces(variables, ps, n + 1, k);
    }
  }

  /**
   A value resolves, at any depth at all, if and only if its variables can be
   ranked, all of them set and each one's value naming only variables of lower
   rank: if and only if nothing it leads to is unset or leads back to itself.
   */
  lemma ResolvesWhenGrounded(variables: map<string, string>, value: string)
    ensures Resolved(variables, value).Done? <==> IsGrounded(variables, value)
  {
    var n := |variables|;
    var ps := Pieces(value);
    if Resolved(variables, value).Done? { GroundedByThen(variables, value); }
    if rank :| Grounded(variables, value, rank) {
      var depth := Ceiling(ps, rank);
      BelowResolves(variables, ps, rank, depth);
      StaysDone(variables, ps, depth, depth + n + 1);
      DepthIsEnough(variables, value, depth + n + 1);
    }
  }

  /** A rank above those of all the variables a value names. */
  lemma {:induction false} Ceiling(ps: seq<Piece>, rank: map<string, nat>) returns (limit: nat)
    requires forall k :: 0 <= k < |ps| && ps[k].Variable? ==> ps[k].name in rank
    ensures Below(ps, rank, limit)
  {
    if ps == [] {
      limit := 0;
    } else {
      limit := Ceiling(ps[1..], rank);
      assert ps == [ps[0]] + ps[1..];
      if ps[0].Variable? && rank[ps[0].name] >= limit { limit := rank[ps[0].name] + 1; }
    }
  }

  /** A value with each variable replaced by a given text. */
  function Filled(ps: seq<Piece>, texts: map<string, string>): string {
    if ps == [] then ""
    else
      (match ps[0] case Text(c) => [c] case Variable(name, _) => if name in texts then texts[name] else "")
      + Filled(ps[1..], texts)
  }

  /** Texts for the ranked variables, each its own value with the others' texts filled in. */
  ghost predicate Solves(variables: map<string, string>, rank: map<string, nat>, texts: map<string, string>) {
    && IsRanking(variables, rank)
    && forall name :: name in rank ==> name in texts && texts[name] == Filled(Pieces(variables[name]), texts)
  }

  /** What resolves resolves to its text with the texts its variables resolve to filled in. */
  lemma {:induction false} DoneIsFilled(variables: map<string, string>, ps: seq<Piece>, depth: nat,
                                        texts: map<string, string>)
    requires Resolve(variables, ps, depth).Done?
    requires depth > 0 ==> forall name :: name in variables && ValueAt(variables, name, depth - 1).Done? ==>
               name in texts && texts[name] == ValueAt(variables, name, depth - 1).text
    ensures Resolve(variables, ps, depth).text == Filled(ps, texts)
    decreases |ps|
  {
    hide Pieces;
    if ps == [] {
    } else {
      if ps[0].Variable? { DonePieces(variables, ps, depth, 0); }
      DoneIsFilled(variables, ps[1..], depth, texts);
    }
  }

  /** What each variable resolves to, of those that do. */
  function Texts(variables: map<string, string>, depth: nat): map<string, string> {
    map name | name in variables && ValueAt(variables, name, depth).Done? :: ValueAt(variables, name, depth).text
  }

  lemma TextsSolve(variables: map<string, string>, depth: nat)
    ensures Solves(variables, Ranks(variables, depth), Texts(variables, depth))
  {
    var rank, texts := Ranks(variables, depth), Texts(variables, depth);
    RanksRank(variables, depth);
    hide Pieces;
    hide Filled;
    forall name | name in rank
      ensures texts[name] == Filled(Pieces(variables[name]), texts)
    {
      forall q | depth > 0 && q in variables && ValueAt(variables, q, depth - 1).Done?
        ensures q in texts && texts[q] == ValueAt(variables, q, depth - 1).text
      {
        StaysDone(variables, Pieces(variables[q]), depth - 1, depth);
      }
      DoneIsFilled(variables, Pieces(variables[name]), depth, texts);
    }
    hide IsRanking;
  }

  lemma SolvedAt(variables: map<string, string>, rank: map<string, nat>, texts: map<string, string>, name: string)
    requires Solves(variables, rank, texts) && name in rank
    ensures name in variables && name in texts && texts[name] == Filled(Pieces(variables[name]), texts)
    ensures Below(Pieces(variables[name]), rank, rank[name])
  {
    hide Pieces;
    hide Filled;
  }

  lemma {:induction false} ResolvesToTheSolution(variables: map<string, string>, ps: seq<Piece>, rank: map<string, nat>,
                                                 texts: map<string, string>, depth: nat)
    requires Solves(variables, rank, texts) && Below(ps, rank, depth)
    ensures Resolve(variables, ps, depth) == Done(Filled(ps, texts))
    decreases depth, |ps|
  {
    hide Solves;
    hide Pieces;
    if ps == [] {
    } else {
      BelowTail(ps, rank, depth);
      hide Below;
      if ps[0].Variable? {
        var name := ps[0].name;
        SolvedAt(variables, rank, texts, name);
        BelowLess(Pieces(variables[name]), rank, rank[name], depth - 1);
        ResolvesToTheSolution(variables, Pieces(variables[name]), rank, texts, depth - 1);
      }
      ResolvesToTheSolution(variables, ps[1..], rank, texts, depth);
    }
  }

  /** A text is a value's when every variable it leads to can be ranked and the texts that solve them are filled in. */
  ghost predicate IsTextOf(variables: map<string, string>, value: string, text: string) {
    exists rank, texts ::
      Grounded(variables, value, rank) && Solves(variables, rank, texts) && text == Filled(Pieces(value), texts)
  }

  lemma AnySolutionIsResolved(variables: map<string, string>, value: string, rank: map<string, nat>,
                              texts: map<string, string>)
    requires Grounded(variables, value, rank) && Solves(variables, rank, texts)
    ensures Resolved(variables, value) == Done(Filled(Pieces(value), texts))
  {
    var n, ps := |variables|, Pieces(value);
    var depth := Ceiling(ps, rank);
    ResolvesToTheSolution(variables, ps, rank, texts, depth);
    StaysDone(variables, ps, depth, depth + n + 1);
    DepthIsEnough(variables, value, depth + n + 1);
  }

  /** A value resolves to a text if and only if that is its text with every variable's text filled in; so it has one. */
  lemma ResolvedIsTheText(variables: map<string, string>, value: string, text: string)
    ensures Resolved(variables, value) == Done(text) <==> IsTextOf(variables, value, text)
  {
    var n, ps := |variables|, Pieces(value);
    if Resolved(variables, value) == Done(text) {
      var rank, texts := Ranks(variables, n), Texts(variables, n);
      TextsSolve(variables, n);
      DoneIsFilled(variables, ps, n + 1, texts);
      GroundedByThen(variables, value);
      assert Grounded(variables, value, rank) && Solves(variables, rank, texts) && text == Filled(ps, texts);
    }
    if rank, texts :|
      Grounded(variables, value, rank) && Solves(variables, rank, texts) && text == Filled(Pieces(value), texts)
    {
      AnySolutionIsResolved(variables, value, rank, texts);
    }
  }

  /** Each of some variables names another of them. */
  ghost predicate GoesRound(variables: map<string, string>, round: set<string>) {
    forall name :: name in round ==> name in variables && NamesOne(Pieces(variables[name]), round)
  }

  ghost predicate NamesOne(ps: seq<Piece>, round: set<string>) {
    exists k :: 0 <= k < |ps| && ps[k].Variable? && ps[k].name in round
  }

  lemma {:induction false} NoneIsLowest(variables: map<string, string>, round: set<string>, rank: map<string, nat>,
                                        name: string)
    requires IsRanking(variables, rank) && GoesRound(variables, round) && name in round && name in rank
    ensures false
    decreases rank[name]
  {
    hide Pieces;
    var ps := Pieces(variables[name]);
    var k :| 0 <= k < |ps| && ps[k].Variable? && ps[k].name in round;
    NoneIsLowest(variables, round, rank, ps[k].name);
  }

  /** Variables that go round, through however many, resolve at no depth, and nor does a value that names one. */
  lemma RoundHasNoEnd(variables: map<string, string>, round: set<string>, value: string)
    requires GoesRound(variables, round) && NamesOne(Pieces(value), round)
    ensures !Resolved(variables, value).Done?
  {
    ResolvesWhenGrounded(variables, value);
    hide Pieces;
    hide Resolved;
    hide GoesRound;
    hide IsRanking;
    forall rank | Grounded(variables, value, rank)
      ensures false
    {
      var ps := Pieces(value);
      var k :| 0 <= k < |ps| && ps[k].Variable? && ps[k].name in round;
      NoneIsLowest(variables, round, rank, ps[k].name);
    }
  }

  // ---------------------------------------------------------------------
  // The headers
  // ---------------------------------------------------------------------

  /** One header as nginx sends it; a line with no name has none. */
  datatype Header = Header(name: Option<string>, value: string, always: bool)

  /** `Endless` is a value that names itself: no recursion resolves it. */
  datatype HeaderError = NoServer | UnknownVariable(name: string) | Endless

  predicate AddsHeader(n: Node) { n.name == "add_header" }

  predicate HasHeader(scope: seq<Node>) { exists n :: n in scope && AddsHeader(n) }

  function HeaderLines(scope: seq<Node>): (r: seq<Node>)
    ensures r != [] <==> HasHeader(scope)
  {
    if scope == [] then []
    else
      assert scope == [scope[0]] + scope[1..];
      if AddsHeader(scope[0]) then [scope[0]] + HeaderLines(scope[1..]) else HeaderLines(scope[1..])
  }

  /** The innermost scope that adds a header, or none. */
  function Innermost(scopes: seq<seq<Node>>): seq<Node> {
    if scopes == [] then []
    else if HeaderLines(scopes[|scopes| - 1]) != [] then scopes[|scopes| - 1]
    else Innermost(scopes[..|scopes| - 1])
  }

  function LineName(n: Node): Option<string> { if n.args != [] then Some(n.args[0]) else None }

  function LineValue(n: Node): string { if |n.args| > 1 then n.args[1] else "" }

  predicate LineAlways(n: Node) { |n.args| > 2 && n.args[2] == "always" }

  function Send(lines: seq<Node>, variables: map<string, string>): Result<seq<Header>, HeaderError> {
    if lines == [] then Ok([])
    else
      var n := lines[0];
      var value := Resolved(variables, LineValue(n));
      if value.Unknown? then Err(UnknownVariable(value.name))
      else if value.Deeper? then Err(Endless)
      else
        var rest := Send(lines[1..], variables);
        if rest.Err? then rest else Ok([Header(LineName(n), value.text, LineAlways(n))] + rest.value)
  }

  /** The levels of the file from its top to the server, and then those of the chosen locations. */
  function Scopes(top: seq<Node>, chain: seq<seq<Node>>, path: seq<Node>): seq<seq<Node>> {
    [top] + chain + seq(|path|, k requires 0 <= k < |path| => Children(path[k]))
  }

  /** What decides the headers: every level that encloses the URI's answer, and the variables in reach. */
  datatype View = View(scopes: seq<seq<Node>>, variables: map<string, string>)

  /** No server is an error, and no location no view. */
  function ViewOf(top: seq<Node>, uri: string, engine: NginxLocations.Engine): Result<Option<View>, HeaderError> {
    var chain := ServerChain(top);
    if chain.None? then Err(NoServer)
    else
      var chosen := NginxLocations.Choose(chain.value[|chain.value| - 1], uri, engine);
      if chosen.None? then Ok(None)
      else
        var scopes := Scopes(top, chain.value, chosen.value.path);
        Ok(Some(View(scopes, Variables(Flat(scopes[|chain.value|..])))))
  }

  function HeadersOf(top: seq<Node>, uri: string,
                     engine: NginxLocations.Engine): Result<Option<seq<Header>>, HeaderError> {
    var view := ViewOf(top, uri, engine);
    if view.Err? then Err(view.error)
    else if view.value.None? then Ok(None)
    else
      var sent := Send(HeaderLines(Innermost(view.value.value.scopes)), view.value.value.variables);
      if sent.Err? then Err(sent.error) else Ok(Some(sent.value))
  }

  method HeadersFor(top: seq<Node>, uri: string, engine: NginxLocations.Engine)
    returns (r: Result<Option<seq<Header>>, HeaderError>)
    ensures r == HeadersOf(top, uri, engine)
  {
    hide Variables;
    hide Innermost;
    hide Send;
    hide HeaderLines;
    hide NginxLocations.Choose;
    hide ServerChain;
    var search := new ServerSearch(top);
    search.Find(top);
    if search.server.None? { return Err(NoServer); }
    var levels, server := search.levels, search.server.value;
    var chosen := NginxLocations.ChooseLocation(server.children, uri, engine);
    if chosen.None? { return Ok(None); }
    var path := chosen.value.path;
    var scopes := levels + seq(|path|, k requires 0 <= k < |path| => Children(path[k]));
    var variables := GatherVariables(scopes[|levels| - 1..]);
    var own := OwnScope(scopes);
    var sent := Send(HeaderLines(own), variables);
    if sent.Err? { return Err(sent.error); }
    return Ok(Some(sent.value));
  }

  /** From the innermost scope outwards, the first that adds a header. */
  method OwnScope(scopes: seq<seq<Node>>) returns (own: seq<Node>)
    ensures own == Innermost(scopes)
  {
    var k := |scopes|;
    assert scopes[..k] == scopes;
    while k > 0
      invariant 0 <= k <= |scopes| && Innermost(scopes) == Innermost(scopes[..k])
    {
      k := k - 1;
      assert scopes[..k + 1][..k] == scopes[..k];
      if HeaderLines(scopes[k]) != [] { return scopes[k]; }
    }
    return [];
  }

  /** A level that adds even one header keeps every outer level's out; one that adds none inherits. */
  ghost predicate IsOwn(scopes: seq<seq<Node>>, k: nat) {
    k < |scopes| && HasHeader(scopes[k]) && forall j :: k < j < |scopes| ==> !HasHeader(scopes[j])
  }

  lemma {:induction false} OneLevelApplies(scopes: seq<seq<Node>>)
    ensures forall k: nat :: IsOwn(scopes, k) ==> Innermost(scopes) == scopes[k]
    ensures (forall k :: 0 <= k < |scopes| ==> !HasHeader(scopes[k])) ==> Innermost(scopes) == []
    ensures (exists k: nat :: IsOwn(scopes, k)) <==> exists k :: 0 <= k < |scopes| && HasHeader(scopes[k])
    decreases |scopes|
  {
    if scopes == [] {
    } else {
      var short, n := scopes[..|scopes| - 1], |scopes| - 1;
      OneLevelApplies(short);
      OwnOfOneMore(short, scopes[n]);
      hide HasHeader;
      hide IsOwn;
      hide HeaderLines;
      assert short + [scopes[n]] == scopes;
      assert forall k :: 0 <= k < n ==> short[k] == scopes[k];
    }
  }

  lemma OwnOfOneMore(short: seq<seq<Node>>, last: seq<Node>)
    ensures HasHeader(last) ==>
              IsOwn(short + [last], |short|) && forall k: nat :: IsOwn(short + [last], k) ==> k == |short|
    ensures !HasHeader(last) ==> forall k: nat :: IsOwn(short + [last], k) <==> IsOwn(short, k)
  {
    hide HasHeader;
    var scopes := short + [last];
    assert forall j :: 0 <= j < |short| ==> short[j] == scopes[j];
    assert scopes[|short|] == last;
  }

  /** The lines of a level go out in order, each with its own name and its own value's text, or none does. */
  lemma {:induction false} LinesAreSent(lines: seq<Node>, variables: map<string, string>)
    ensures var sent := Send(lines, variables);
            && (sent.Ok? <==> AllGrounded(lines, variables))
            && (sent.Ok? ==> AreSent(sent.value, lines, variables))
    decreases |lines|
  {
    hide Resolved;
    hide IsGrounded;
    hide IsTextOf;
    if lines == [] {
    } else {
      var line, rest := lines[0], lines[1..];
      var value := LineValue(line);
      LinesAreSent(rest, variables);
      ResolvesWhenGrounded(variables, value);
      OneMoreSent(line, rest, variables);
      if Resolved(variables, value).Done? { ResolvedIsTheText(variables, value, Resolved(variables, value).text); }
      assert lines == [line] + rest;
      hide AreSent;
      hide AllGrounded;
    }
  }

  lemma OneMoreSent(line: Node, rest: seq<Node>, variables: map<string, string>)
    ensures AllGrounded([line] + rest, variables) <==>
              IsGrounded(variables, LineValue(line)) && AllGrounded(rest, variables)
    ensures forall h, hs :: IsSent(h, line, variables) && AreSent(hs, rest, variables) ==>
              AreSent([h] + hs, [line] + rest, variables)
  {
    hide IsGrounded;
    hide IsSent;
    forall h, hs | IsSent(h, line, variables) && AreSent(hs, rest, variables)
      ensures AreSent([h] + hs, [line] + rest, variables)
    {
    }
  }

  /** No line's value leads to a variable that is unset, or back to one it came by. */
  ghost predicate AllGrounded(lines: seq<Node>, variables: map<string, string>) {
    forall n :: n in lines ==> IsGrounded(variables, LineValue(n))
  }

  ghost predicate AreSent(hs: seq<Header>, lines: seq<Node>, variables: map<string, string>) {
    |hs| == |lines| && forall k :: 0 <= k < |lines| ==> IsSent(hs[k], lines[k], variables)
  }

  ghost predicate IsSent(h: Header, line: Node, variables: map<string, string>) {
    h.name == LineName(line) && h.always == LineAlways(line) && IsTextOf(variables, LineValue(line), h.value)
  }

  /**
   What is sent for a URI is the lines of one level between the file's top and
   the innermost chosen location, the innermost that has any, in their order:
   all of them, or none when one of them names a variable without a value.
   When no level has a line, nothing is sent.
   */
  lemma HeadersAreOfOneLevel(top: seq<Node>, uri: string, engine: NginxLocations.Engine)
    requires ViewOf(top, uri, engine).Ok? && ViewOf(top, uri, engine).value.Some?
    ensures var view := ViewOf(top, uri, engine).value.value;
            var sent := HeadersOf(top, uri, engine);
            && (forall k: nat :: IsOwn(view.scopes, k) ==>
                  var lines := HeaderLines(view.scopes[k]);
                  && (sent.Ok? <==> AllGrounded(lines, view.variables))
                  && (sent.Ok? ==> sent.value.Some? && AreSent(sent.value.value, lines, view.variables)))
            && ((forall k :: 0 <= k < |view.scopes| ==> !HasHeader(view.scopes[k])) ==> sent == Ok(Some([])))
  {
    hide ViewOf;
    var view := ViewOf(top, uri, engine).value.value;
    hide Innermost;
    hide Resolved;
    hide IsOwn;
    hide AreSent;
    hide AllGrounded;
    OneLevelApplies(view.scopes);
    var own := HeaderLines(Innermost(view.scopes));
    LinesAreSent(own, view.variables);
    assert own == [] ==> Send(own, view.variables) == Ok([]);
    hide Send;
    forall k: nat | IsOwn(view.scopes, k)
      ensures HeaderLines(view.scopes[k]) == own
    {
    }
    hide HeaderLines;
  }

  // ---------------------------------------------------------------------
  // The lines a view is made of
  // ---------------------------------------------------------------------

  /** A line that gives a variable its value. */
  predicate IsSetLine(n: Node, name: string) { n.name == "set" && n.args != [] && n.args[0] == "$" + name }

  /** Of all the lines of some scopes, one after another, the last that sets a variable. */
  ghost predicate LastSet(reach: seq<seq<Node>>, i: nat, j: nat, name: string) {
    && i < |reach| && j < |reach[i]| && IsSetLine(reach[i][j], name)
    && (forall b :: j < b < |reach[i]| ==> !IsSetLine(reach[i][b], name))
    && (forall a, b :: i < a < |reach| && 0 <= b < |reach[a]| ==> !IsSetLine(reach[a][b], name))
  }

  /** Each variable has the second word of the last line that sets it, if it has one, and none is set otherwise. */
  ghost predicate AreSetBy(variables: map<string, string>, reach: seq<seq<Node>>) {
    forall name ::
      && (name in variables <==> exists i: nat, j: nat :: LastSet(reach, i, j, name))
      && (forall i: nat, j: nat :: LastSet(reach, i, j, name) ==>
            name in variables && variables[name] == if |reach[i][j].args| > 1 then reach[i][j].args[1] else "")
  }

  lemma SetLineIsSet(n: Node, name: string)
    ensures IsSetLine(n, name) <==> Sets(n) && SetName(n) == name
  {
    if Sets(n) { assert n.args[0] == "$" + n.args[0][1..]; }
    if IsSetLine(n, name) { assert n.args[0][1..] == name; }
  }

  /** What is set in `b` counts, and what is not is as it was. */
  lemma {:induction false} VariablesAppend(a: seq<Node>, b: seq<Node>, name: string)
    ensures forall j: nat :: SetsLast(b, j, name) ==>
              name in Variables(a + b) && Variables(a + b)[name] == SetValue(b[j])
    ensures (forall j: nat :: !SetsLast(b, j, name)) ==>
              (name in Variables(a + b) <==> name in Variables(a))
              && (name in Variables(a) ==> Variables(a + b)[name] == Variables(a)[name])
    decreases |b|
  {
    if b == [] {
      assert a + b == a;
    } else {
      var short, last := b[..|b| - 1], b[|b| - 1];
      VariablesAppend(a, short, name);
      LastSetIsLastOf(b, name);
      assert a + b == (a + short) + [last];
      OneMoreNode(a + short, last);
      hide Variables;
      hide SetsLast;
    }
  }

  lemma LastOfOneMore(front: seq<seq<Node>>, scope: seq<Node>, name: string)
    ensures forall j: nat :: SetsLast(scope, j, name) ==> LastSet(front + [scope], |front|, j, name)
    ensures forall i: nat, j: nat :: LastSet(front + [scope], i, j, name) ==>
              if i == |front| then SetsLast(scope, j, name)
              else LastSet(front, i, j, name) && forall b: nat :: !SetsLast(scope, b, name)
    ensures (forall b: nat :: !SetsLast(scope, b, name)) ==>
              forall i: nat, j: nat :: LastSet(front, i, j, name) ==> LastSet(front + [scope], i, j, name)
  {
    var reach := front + [scope];
    assert forall k :: 0 <= k < |front| ==> reach[k] == front[k];
    assert reach[|front|] == scope;
    forall n: Node
      ensures IsSetLine(n, name) <==> Sets(n) && SetName(n) == name
    {
      SetLineIsSet(n, name);
    }
    hide IsSetLine;
    if forall b: nat :: !SetsLast(scope, b, name) { NoneSets(scope, name); }
  }

  lemma {:induction false} NoneSets(nodes: seq<Node>, name: string)
    requires forall b: nat :: !SetsLast(nodes, b, name)
    ensures forall b :: 0 <= b < |nodes| ==> !(Sets(nodes[b]) && SetName(nodes[b]) == name)
    decreases |nodes|
  {
    if nodes == [] {
    } else {
      LastSetIsLastOf(nodes, name);
      var short := nodes[..|nodes| - 1];
      NoneSets(short, name);
      assert forall b :: 0 <= b < |short| ==> short[b] == nodes[b];
    }
  }

  lemma {:induction false} FlatIsSetBy(reach: seq<seq<Node>>, name: string)
    ensures name in Variables(Flat(reach)) <==> exists i: nat, j: nat :: LastSet(reach, i, j, name)
    ensures forall i: nat, j: nat :: LastSet(reach, i, j, name) ==>
              name in Variables(Flat(reach)) && Variables(Flat(reach))[name] == SetValue(reach[i][j])
    decreases |reach|
  {
    if reach == [] {
      assert Flat(reach) == [];
    } else {
      var front, scope := reach[..|reach| - 1], reach[|reach| - 1];
      FlatIsSetBy(front, name);
      assert reach == front + [scope];
      VariablesAppend(Flat(front), scope, name);
      LastOfOneMore(front, scope, name);
      hide LastSet;
      hide SetsLast;
      hide Variables;
      if j: nat :| SetsLast(scope, j, name) { assert LastSet(reach, |front|, j, name); }
    }
  }

  lemma FlatIsAllSetBy(reach: seq<seq<Node>>)
    ensures AreSetBy(Variables(Flat(reach)), reach)
  {
    forall name
      ensures name in Variables(Flat(reach)) <==> exists i: nat, j: nat :: LastSet(reach, i, j, name)
      ensures forall i: nat, j: nat :: LastSet(reach, i, j, name) ==>
                name in Variables(Flat(reach)) && Variables(Flat(reach))[name] == SetValue(reach[i][j])
    {
      FlatIsSetBy(reach, name);
    }
    hide LastSet;
    hide Variables;
  }

  /**
   The levels run from the file's top through the first server to the chosen
   locations, each in the one before, and the variables are those that the
   lines of the server and then of the chosen locations set, and no others.
   */
  lemma ViewIsOfTheFirstServer(top: seq<Node>, uri: string, engine: NginxLocations.Engine)
    requires ViewOf(top, uri, engine).Ok? && ViewOf(top, uri, engine).value.Some?
    ensures exists chain, path, final :: IsViewOf(top, uri, engine, chain, path, final)
  {
    var chain := ServerChain(top).value;
    var chosen := NginxLocations.Choose(chain[|chain| - 1], uri, engine).value;
    ServerIsTheFirst(top);
    NginxLocations.ChooseIsByTheRule(chain[|chain| - 1], uri, engine);
    FlatIsAllSetBy(Reach(chain, chosen.path));
    ViewScopes(top, uri, engine);
    hide NginxLocations.Choose;
    hide ServerChain;
    hide AreSetBy;
    hide Variables;
    hide Scopes;
    hide Flat;
    hide IsFirstChain;
    hide NginxLocations.ByTheRule;
    hide ViewOf;
    hide Reach;
    assert IsViewOf(top, uri, engine, chain, chosen.path, chosen.final);
  }

  lemma ViewScopes(top: seq<Node>, uri: string, engine: NginxLocations.Engine)
    requires ViewOf(top, uri, engine).Ok? && ViewOf(top, uri, engine).value.Some?
    ensures ServerChain(top).Some?
    ensures var chain, view := ServerChain(top).value, ViewOf(top, uri, engine).value.value;
            var chosen := NginxLocations.Choose(chain[|chain| - 1], uri, engine);
            && chosen.Some?
            && view.scopes == [top] + chain[..|chain| - 1] + Reach(chain, chosen.value.path)
            && view.variables == Variables(Flat(Reach(chain, chosen.value.path)))
  {
    hide NginxLocations.Choose;
    hide ServerChain;
    hide Variables;
    hide Flat;
    var chain := ServerChain(top).value;
    var chosen := NginxLocations.Choose(chain[|chain| - 1], uri, engine).value;
    var reach := Reach(chain, chosen.path);
    assert Scopes(top, chain, chosen.path) == [top] + chain[..|chain| - 1] + reach;
    assert Scopes(top, chain, chosen.path)[|chain|..] == reach;
  }

  /** The server's lines, and then those of each chosen location. */
  function Reach(chain: seq<seq<Node>>, path: seq<Node>): seq<seq<Node>>
    requires chain != []
  {
    [chain[|chain| - 1]] + seq(|path|, k requires 0 <= k < |path| => if path[k].Block? then path[k].children else [])
  }

  ghost predicate IsViewOf(top: seq<Node>, uri: string, engine: NginxLocations.Engine,
                           chain: seq<seq<Node>>, path: seq<Node>, final: bool)
    requires ViewOf(top, uri, engine).Ok? && ViewOf(top, uri, engine).value.Some?
  {
    var view := ViewOf(top, uri, engine).value.value;
    && IsFirstChain(top, chain)
    && NginxLocations.ByTheRule(chain[|chain| - 1], uri, engine, Some(NginxLocations.Choice(path, final)))
    && view.scopes == [top] + chain[..|chain| - 1] + Reach(chain, path)
    && AreSetBy(view.variables, Reach(chain, path))
  }

  /** Which blocks the server is looked for in, and which is one. */
  lemma ServersByName(name: string, args: seq<string>, cs: seq<Node>, inner: seq<string>)
    ensures ServerChain([Block("server", args, cs)]) == Some([cs])
    ensures ServerChain([Directive(name, args)]) == None
    ensures var server := [Block("server", inner, cs)];
            && ServerChain([Block("http", args, server)]) == Some([server, cs])
            && (name != "server" && name != "http" ==> ServerChain([Block(name, args, server)]) == None)
  {
    var server := [Block("server", inner, cs)];
    assert [Block("server", args, cs)][1..] == [] && server[1..] == [];
    assert [Directive(name, args)][1..] == [] && [Block("http", args, server)][1..] == [];
    assert [Block(name, args, server)][1..] == [];
    assert ServerChain([]) == None;
    assert ServerChain(server) == Some([cs]) && [server] + [cs] == [server, cs];
  }

  lemma LineByName(n: Node)
    ensures HeaderLines([n]) == if n.name == "add_header" then [n] else []
  {
    assert [n][1..] == [] && HeaderLines([]) == [] && [n] + [] == [n];
  }

  /** A scope's lines are those named `add_header`, in their order. */
  lemma {:induction false} LinesByName(a: seq<Node>, b: seq<Node>, n: Node)
    ensures HeaderLines(a + b) == HeaderLines(a) + HeaderLines(b)
    ensures HeaderLines([n]) == if n.name == "add_header" then [n] else []
    decreases |a|
  {
    hide HasHeader;
    LineByName(n);
    if a == [] {
      assert a + b == b;
    } else {
      var x, rest := a[0], a[1..];
      assert a == [x] + rest && a + b == [x] + (rest + b);
      LinesByName(rest, b, n);
      LinesAhead(x, rest);
      LinesAhead(x, rest + b);
      hide HeaderLines;
    }
  }

  lemma LinesAhead(x: Node, rest: seq<Node>)
    ensures HeaderLines([x] + rest) == HeaderLines([x]) + HeaderLines(rest)
  {
    hide HasHeader;
    hide AddsHeader;
    assert ([x] + rest)[1..] == rest && [x][1..] == [];
  }

  // ---------------------------------------------------------------------
  // The characters of a value
  // ---------------------------------------------------------------------

  predicate IsName(x: string) {
    x != "" && forall k :: 0 <= k < |x| ==> IsNameChar(x[k])
  }

  predicate IsNameChar(c: char) { 'a' <= c <= 'z' || 'A' <= c <= 'Z' || '0' <= c <= '9' || c == '_' }

  function AsText(s: string): seq<Piece> { seq(|s|, k requires 0 <= k < |s| => Text(s[k])) }

  lemma FirstIsText(s: string)
    requires s != "" && s[0] != '$'
    ensures FirstPiece(s) == (Text(s[0]), 1) && Pieces(s) == [Text(s[0])] + Pieces(s[1..])
  {
  }

  lemma {:induction false} PiecesOfText(pre: string, s: string)
    requires '$' !in pre
    ensures Pieces(pre + s) == AsText(pre) + Pieces(s)
    decreases |pre|
  {
    hide FirstPiece;
    if pre == "" {
      assert pre + s == s && AsText(pre) == [];
    } else {
      var all := pre + s;
      assert pre[0] in pre && all[0] == pre[0] && all[1..] == pre[1..] + s;
      FirstIsText(all);
      PiecesOfText(pre[1..], s);
      assert AsText(pre) == [Text(pre[0])] + AsText(pre[1..]);
      hide Pieces;
    }
  }

  lemma {:induction false} ResolvedText(variables: map<string, string>, pre: string, ps: seq<Piece>, depth: nat)
    requires Resolve(variables, ps, depth).Done?
    ensures Resolve(variables, AsText(pre) + ps, depth) == Done(pre + Resolve(variables, ps, depth).text)
    decreases |pre|
  {
    if pre == "" {
      assert AsText(pre) + ps == ps;
    } else {
      ResolvedText(variables, pre[1..], ps, depth);
      assert (AsText(pre) + ps)[1..] == AsText(pre[1..]) + ps;
      assert pre == [pre[0]] + pre[1..];
    }
  }

  /** A value without a `$` says itself. */
  lemma TextSaysItself(variables: map<string, string>, s: string, depth: nat)
    requires '$' !in s
    ensures Resolve(variables, Pieces(s), depth) == Done(s)
  {
    assert s + "" == s && Pieces("") == [];
    PiecesOfText(s, "");
    ResolvedText(variables, s, [], depth);
  }

  lemma {:induction false} NameEnds(x: string, rest: string)
    requires (forall k :: 0 <= k < |x| ==> IsNameChar(x[k])) && (rest == "" || !IsNameChar(rest[0]))
    ensures WordLength(x + rest) == |x|
    decreases |x|
  {
    if x == "" {
      assert x + rest == rest;
    } else {
      assert (x + rest)[1..] == x[1..] + rest;
      NameEnds(x[1..], rest);
    }
  }

  lemma FirstIsBare(s: string, x: string, rest: string)
    requires IsName(x) && (rest == "" || !IsNameChar(rest[0])) && s == "$" + x + rest
    ensures FirstPiece(s) == (Variable(x, false), 1 + |x|) && s[1 + |x|..] == rest
  {
    NameEnds(x, rest);
    assert s[1..] == x + rest && s[1] == x[0] && IsNameChar(x[0]);
    assert s[1..1 + |x|] == x;
    hide WordLength;
  }

  lemma FirstIsBraced(s: string, x: string, rest: string)
    requires IsName(x) && s == "${" + x + "}" + rest
    ensures FirstPiece(s) == (Variable(x, true), 3 + |x|) && s[3 + |x|..] == rest
  {
    NameEnds(x, "}" + rest);
    assert s[2..] == x + ("}" + rest) && s[1] == '{' && s[2 + |x|] == '}';
    assert s[2..2 + |x|] == x;
    hide WordLength;
  }

  lemma FirstThen(s: string, piece: Piece, length: nat, rest: string)
    requires s != "" && FirstPiece(s) == (piece, length) && s[length..] == rest
    ensures Pieces(s) == [piece] + Pieces(rest)
  {
    hide FirstPiece;
  }

  lemma BarePiece(x: string, rest: string)
    requires IsName(x) && (rest == "" || !IsNameChar(rest[0]))
    ensures Pieces("$" + x + rest) == [Variable(x, false)] + Pieces(rest)
  {
    hide FirstPiece;
    hide Pieces;
    var s := "$" + x + rest;
    FirstIsBare(s, x, rest);
    FirstThen(s, Variable(x, false), 1 + |x|, rest);
  }

  lemma BracedPiece(x: string, rest: string)
    requires IsName(x)
    ensures Pieces("${" + x + "}" + rest) == [Variable(x, true)] + Pieces(rest)
  {
    hide FirstPiece;
    hide Pieces;
    var s := "${" + x + "}" + rest;
    FirstIsBraced(s, x, rest);
    FirstThen(s, Variable(x, true), 3 + |x|, rest);
  }

  lemma ReplacedBare(variables: map<string, string>, pre: string, x: string, rest: string, depth: nat)
    requires IsName(x) && x in variables && '$' !in variables[x] && '$' !in pre && '$' !in rest && depth > 0
    requires rest == "" || !IsNameChar(rest[0])
    ensures Resolve(variables, Pieces(pre + ("$" + x + rest)), depth) == Done(pre + variables[x] + rest)
  {
    TextSaysItself(variables, variables[x], depth - 1);
    TextSaysItself(variables, rest, depth);
    OneVariable(variables, pre, Variable(x, false), rest, depth);
    BarePiece(x, rest);
    PiecesOfText(pre, "$" + x + rest);
    hide Pieces;
    hide Resolve;
  }

  lemma ReplacedBraced(variables: map<string, string>, pre: string, x: string, rest: string, depth: nat)
    requires IsName(x) && x in variables && '$' !in variables[x] && '$' !in pre && '$' !in rest && depth > 0
    ensures Resolve(variables, Pieces(pre + ("${" + x + "}" + rest)), depth) == Done(pre + variables[x] + rest)
  {
    TextSaysItself(variables, variables[x], depth - 1);
    TextSaysItself(variables, rest, depth);
    OneVariable(variables, pre, Variable(x, true), rest, depth);
    BracedPiece(x, rest);
    PiecesOfText(pre, "${" + x + "}" + rest);
    hide Pieces;
    hide Resolve;
  }

  lemma DollarSaysItself(variables: map<string, string>, pre: string, c: char, rest: string, depth: nat)
    requires '$' !in pre && '$' !in rest && !IsNameChar(c) && c != '{' && c != '$'
    ensures Resolve(variables, Pieces(pre + ("$" + [c] + rest)), depth) == Done(pre + ("$" + [c] + rest))
  {
    hide Pieces;
    hide Resolve;
    LoneDollar(c, rest);
    PiecesOfText(pre, "$" + [c] + rest);
    TextSaysItself(variables, [c] + rest, depth);
    assert "$" + [c] + rest == "$" + ([c] + rest);
    ResolvedText(variables, "$", Pieces([c] + rest), depth);
    ResolvedText(variables, pre, AsText("$") + Pieces([c] + rest), depth);
  }

  /**
   A `$` and a name, in braces or up to the first character that is no letter,
   digit or `_`, stands for the variable's value; before anything else it is
   itself.
   */
  lemma NamesAreReplaced(variables: map<string, string>, pre: string, x: string, rest: string, c: char)
    requires IsName(x) && x in variables && '$' !in variables[x] && '$' !in pre && '$' !in rest
    requires !IsNameChar(c) && c != '{' && c != '$'
    ensures rest == "" || !IsNameChar(rest[0]) ==>
              Resolved(variables, pre + ("$" + x + rest)) == Done(pre + variables[x] + rest)
    ensures Resolved(variables, pre + ("${" + x + "}" + rest)) == Done(pre + variables[x] + rest)
    ensures Resolved(variables, pre + ("$" + [c] + rest)) == Done(pre + ("$" + [c] + rest))
  {
    hide Pieces;
    hide Resolve;
    if rest == "" || !IsNameChar(rest[0]) { ReplacedBare(variables, pre, x, rest, |variables| + 1); }
    ReplacedBraced(variables, pre, x, rest, |variables| + 1);
    DollarSaysItself(variables, pre, c, rest, |variables| + 1);
  }

  lemma LoneDollar(c: char, rest: string)
    requires !IsNameChar(c) && c != '{'
    ensures Pieces("$" + [c] + rest) == AsText("$") + Pieces([c] + rest)
  {
    var s := "$" + [c] + rest;
    assert s[1..] == [c] + rest && s[1] == c;
    assert AsText("$") == [Text('$')];
  }

  lemma OneVariable(variables: map<string, string>, pre: string, v: Piece, rest: string, depth: nat)
    requires v.Variable? && v.name in variables && depth > 0
    requires ValueAt(variables, v.name, depth - 1).Done? && Resolve(variables, Pieces(rest), depth) == Done(rest)
    ensures Resolve(variables, AsText(pre) + ([v] + Pieces(rest)), depth) ==
            Done(pre + ValueAt(variables, v.name, depth - 1).text + rest)
  {
    var ps := [v] + Pieces(rest);
    assert ps[1..] == Pieces(rest);
    assert Resolve(variables, ps, depth) == Done(ValueAt(variables, v.name, depth - 1).text + rest);
    ResolvedText(variables, pre, ps, depth);
    var value := ValueAt(variables, v.name, depth - 1).text;
    assert pre + (value + rest) == pre + value + rest;
  }

  // ---------------------------------------------------------------------
  // Word by word
  // ---------------------------------------------------------------------

  /** A line's words: the header's name, its value, and `always` where the third is that. */
  lemma WordsOfALine(name: string, value: string, more: seq<string>, variables: map<string, string>)
    requires '$' !in value
    ensures Send([Directive("add_header", [name, value] + more)], variables) ==
            Ok([Header(Some(name), value, more != [] && more[0] == "always")])
    ensures Send([Directive("add_header", [name])], variables) == Ok([Header(Some(name), "", false)])
    ensures Send([Directive("add_header", [])], variables) == Ok([Header(None, "", false)])
  {
    TextSaysItself(variables, value, |variables| + 1);
    TextSaysItself(variables, "", |variables| + 1);
    var line := Directive("add_header", [name, value] + more);
    assert line.args[0] == name && line.args[1] == value;
    if more != [] { assert line.args[2] == more[0]; }
    hide Resolve;
    hide Pieces;
    SendOne(line, variables, value);
    SendOne(Directive("add_header", [name]), variables, "");
    SendOne(Directive("add_header", []), variables, "");
  }

  lemma SendOne(line: Node, variables: map<string, string>, text: string)
    requires Resolved(variables, LineValue(line)) == Done(text)
    ensures Send([line], variables) == Ok([Header(LineName(line), text, LineAlways(line))])
  {
    hide Resolved;
    assert [line][1..] == [];
    assert Send([], variables) == Ok([]);
    var h := Header(LineName(line), text, LineAlways(line));
    assert [h] + [] == [h];
  }

  /** With no server in it a file answers no request, and a server with no location for a URI says nothing of it. */
  lemma WithoutAView(top: seq<Node>, uri: string, engine: NginxLocations.Engine)
    ensures (forall j :: 0 <= j < |top| ==> !LeadsToAServer(top[j])) <==> ViewOf(top, uri, engine) == Err(NoServer)
    ensures ViewOf(top, uri, engine) == Err(NoServer) ==> HeadersOf(top, uri, engine) == Err(NoServer)
    ensures var chain := ServerChain(top);
            chain.Some? ==>
              var server := chain.value[|chain.value| - 1];
              ViewOf(top, uri, engine) == Ok(None) <==> forall i: nat :: !NginxLocations.MatchAt(server, i, uri, engine)
    ensures ViewOf(top, uri, engine) == Ok(None) ==> HeadersOf(top, uri, engine) == Ok(None)
  {
    NoChainNoServer(top);
    hide NginxLocations.Choose;
    hide NginxLocations.MatchAt;
    hide ServerChain;
    var chain := ServerChain(top);
    if chain.Some? {
      NginxLocations.NoneIsChosenWhenNoneMatches(chain.value[|chain.value| - 1], uri, engine);
    }
  }
}
