/**
 An nginx config as `scripts/nginx-config.ts` reads it: words, punctuation,
 comments and quotes, and the tree of directives and blocks they spell.
 */
module NginxConfig {
  import opened Common

  datatype Node =
    | Directive(name: string, args: seq<string>)
    | Block(name: string, args: seq<string>, children: seq<Node>)

  datatype Token = Word(text: string) | Semicolon | OpenBrace | CloseBrace

  datatype Fault =
    | EmptyDirective
    | NamelessBlock
    | NoSemicolon(words: seq<string>)
    | StrayClose
    | UnclosedQuote
    | UnclosedVariable
    | UnclosedBlock

  // ---------------------------------------------------------------------
  // Characters and words
  // ---------------------------------------------------------------------

  /** JavaScript's `\s`. */
  predicate IsSpace(c: char) {
    || '\t' <= c <= '\r' || c == ' ' || c == '\U{A0}' || c == '\U{1680}'
    || '\U{2000}' <= c <= '\U{200A}' || c == '\U{2028}' || c == '\U{2029}'
    || c == '\U{202F}' || c == '\U{205F}' || c == '\U{3000}' || c == '\U{FEFF}'
  }

  predicate IsQuote(c: char) { c == '"' || c == '\'' }

  /** What ends a bare word. */
  predicate EndsWord(c: char) { IsSpace(c) || c == ';' || c == '{' || c == '}' }

  /** `${`, which makes what follows part of the word up to its closing brace. */
  predicate OpensVariable(s: string) { 1 < |s| && s[0] == '$' && s[1] == '{' }

  /** The text after a comment: the newline that ends it, or nothing. */
  function AfterComment(s: string): (r: string)
    ensures |r| <= |s|
    ensures s != "" && s[0] != '\n' ==> |r| < |s|
  {
    if s == "" || s[0] == '\n' then s else AfterComment(s[1..])
  }

  /** A word read off the front of the text, and the text after it. */
  datatype Taken = Taken(word: string, rest: string)

  function Before(w: string, t: Option<Taken>): Option<Taken> {
    match t
    case None => None
    case Some(Taken(word, rest)) => Some(Taken(w + word, rest))
  }

  /** A quoted word, its opening quote `q` already read; `None` when it never closes. */
  function TakeQuoted(s: string, q: char): (r: Option<Taken>)
    ensures r.Some? ==> |r.value.rest| < |s|
  {
    if s == "" then None
    else if s[0] == q then Some(Taken("", s[1..]))
    else if s[0] == '\\' && 1 < |s| then Before([s[1]], TakeQuoted(s[2..], q))
    else Before([s[0]], TakeQuoted(s[1..], q))
  }

  /** How far off the next closing brace is; the text's length when there is none. */
  function BraceAt(s: string): (k: nat)
    ensures k <= |s| && (k < |s| ==> s[k] == '}')
  {
    if s == "" || s[0] == '}' then 0 else 1 + BraceAt(s[1..])
  }

  /** `${name}` up to and with its closing brace; `None` when there is none. */
  function TakeVariable(s: string): (r: Option<Taken>)
    ensures r.Some? ==> |r.value.rest| < |s|
  {
    var k := BraceAt(s);
    if k == |s| then None else Some(Taken(s[..k + 1], s[k + 1..]))
  }

  /** A bare word; `None` when a `${` in it never closes. */
  function TakeBare(s: string): (r: Option<Taken>)
    ensures r.Some? ==> |r.value.rest| <= |s|
    ensures r.Some? && s != "" && !EndsWord(s[0]) ==> |r.value.rest| < |s|
    decreases |s|
  {
    if s == "" || EndsWord(s[0]) then Some(Taken("", s))
    else if OpensVariable(s) then
      match TakeVariable(s)
      case None => None
      case Some(v) => Before(v.word, TakeBare(v.rest))
    else Before([s[0]], TakeBare(s[1..]))
  }

  // ---------------------------------------------------------------------
  // The tokens of a text
  // ---------------------------------------------------------------------

  /** The tokens in front of the first word that never ends, if there is one. */
  datatype Lexed = Lexed(tokens: seq<Token>, fault: Option<Fault>)

  function Lex(s: string): Lexed
    decreases |s|
  {
    if s == "" then Lexed([], None)
    else if s[0] == '#' then Lex(AfterComment(s))
    else if IsSpace(s[0]) then Lex(s[1..])
    else if s[0] == ';' then Also(Semicolon, Lex(s[1..]))
    else if s[0] == '{' then Also(OpenBrace, Lex(s[1..]))
    else if s[0] == '}' then Also(CloseBrace, Lex(s[1..]))
    else if IsQuote(s[0]) then
      match TakeQuoted(s[1..], s[0])
      case None => Lexed([], Some(UnclosedQuote))
      case Some(t) => Also(Word(t.word), Lex(t.rest))
    else
      match TakeBare(s)
      case None => Lexed([], Some(UnclosedVariable))
      case Some(t) => Also(Word(t.word), Lex(t.rest))
  }

  function Also(t: Token, l: Lexed): Lexed { Lexed([t] + l.tokens, l.fault) }

  // ---------------------------------------------------------------------
  // The tree the tokens spell
  // ---------------------------------------------------------------------

  /** An open block, and its children so far. The file itself is the first one. */
  datatype Frame = Frame(name: string, args: seq<string>, done: seq<Node>)

  datatype Reading = Reading(frames: seq<Frame>, words: seq<string>)

  function Push(frames: seq<Frame>, n: Node): (r: seq<Frame>)
    requires |frames| > 0
    ensures |r| == |frames|
  {
    var top := frames[|frames| - 1];
    frames[|frames| - 1 := top.(done := top.done + [n])]
  }

  function Step(st: Reading, t: Token): (r: Result<Reading, Fault>)
    requires |st.frames| > 0
    ensures r.Ok? ==> |r.value.frames| > 0
  {
    match t
    case Word(w) => Ok(st.(words := st.words + [w]))
    case Semicolon =>
      if st.words == [] then Err(EmptyDirective)
      else Ok(Reading(Push(st.frames, Directive(st.words[0], st.words[1..])), []))
    case OpenBrace =>
      if st.words == [] then Err(NamelessBlock)
      else Ok(Reading(st.frames + [Frame(st.words[0], st.words[1..], [])], []))
    case CloseBrace =>
      if st.words != [] then Err(NoSemicolon(st.words))
      else if |st.frames| == 1 then Err(StrayClose)
      else
        var top := st.frames[|st.frames| - 1];
        Ok(Reading(Push(st.frames[..|st.frames| - 1], Block(top.name, top.args, top.done)), []))
  }

  function Run(st: Reading, l: Lexed): Result<seq<Node>, Fault>
    requires |st.frames| > 0
    decreases |l.tokens|
  {
    if l.tokens != [] then
      match Step(st, l.tokens[0])
      case Err(f) => Err(f)
      case Ok(next) => Run(next, l.(tokens := l.tokens[1..]))
    else if l.fault.Some? then Err(l.fault.value)
    else if |st.frames| != 1 then Err(UnclosedBlock)
    else if st.words != [] then Err(NoSemicolon(st.words))
    else Ok(st.frames[0].done)
  }

  const START := Reading([Frame("", [], [])], [])

  function Parse(conf: string): Result<seq<Node>, Fault> { Run(START, Lex(conf)) }

  // ---------------------------------------------------------------------
  // The parser itself: one scan, and a stack of child lists pushed in place
  // ---------------------------------------------------------------------

  /** A node as the scan builds it: the child list of an open block is also on the stack. */
  datatype Cell = Cell(name: string, args: seq<string>, children: NodeList?)

  class NodeList {
    var nodes: seq<Cell>

    constructor ()
      ensures nodes == []
    {
      nodes := [];
    }
  }

  /** The cells are the nodes, block by block, with every child list in `closed`. */
  ghost predicate Models(cells: seq<Cell>, nodes: seq<Node>, closed: set<NodeList>)
    reads closed
    decreases nodes, 0
  {
    |cells| == |nodes| && forall k :: 0 <= k < |cells| ==> ModelsNode(cells[k], nodes[k], closed)
  }

  ghost predicate ModelsNode(c: Cell, n: Node, closed: set<NodeList>)
    reads closed
    decreases n, 1
  {
    && c.name == n.name
    && c.args == n.args
    && match n
       case Directive(_, _) => c.children == null
       case Block(_, _, children) =>
         c.children != null && c.children in closed && Models(c.children.nodes, children, closed)
  }

  /** So child lists stand for one forest alone. */
  lemma {:induction false} ModelsOne(cells: seq<Cell>, a: seq<Node>, b: seq<Node>, closedA: set<NodeList>,
                                     closedB: set<NodeList>)
    requires Models(cells, a, closedA) && Models(cells, b, closedB)
    ensures a == b
    decreases a
  {
    forall k | 0 <= k < |a|
      ensures a[k] == b[k]
    {
      assert ModelsNode(cells[k], a[k], closedA) && ModelsNode(cells[k], b[k], closedB);
      if a[k].Block? && b[k].Block? {
        ModelsOne(cells[k].children.nodes, a[k].children, b[k].children, closedA, closedB);
      }
    }
  }

  /** Level `k` of the stack holds the finished children of open block `k`, then the next open block. */
  ghost predicate MirrorsAt(stack: seq<NodeList>, frames: seq<Frame>, closed: set<NodeList>, k: nat)
    requires k < |stack| == |frames|
    reads stack[k], closed
  {
    var nodes, done := stack[k].nodes, frames[k].done;
    && |nodes| == |done| + (if k == |stack| - 1 then 0 else 1)
    && Models(nodes[..|done|], done, closed)
    && (k < |stack| - 1 ==>
          nodes[|done|] == Cell(frames[k + 1].name, frames[k + 1].args, stack[k + 1]))
  }

  ghost predicate Mirrors(stack: seq<NodeList>, frames: seq<Frame>, closed: set<NodeList>)
    reads stack, closed
  {
    && |stack| == |frames| > 0
    && (forall j, k :: 0 <= j < k < |stack| ==> stack[j] != stack[k])
    && (forall k :: 0 <= k < |stack| ==> stack[k] !in closed)
    && (forall k :: 0 <= k < |stack| ==> MirrorsAt(stack, frames, closed, k))
  }

  lemma {:induction false} ModelsMore(cells: seq<Cell>, nodes: seq<Node>, closed: set<NodeList>, more: set<NodeList>)
    requires Models(cells, nodes, closed) && closed <= more
    ensures Models(cells, nodes, more)
    decreases nodes
  {
    forall k | 0 <= k < |nodes|
      ensures ModelsNode(cells[k], nodes[k], more)
    {
      if nodes[k].Block? {
        ModelsMore(cells[k].children.nodes, nodes[k].children, closed, more);
      }
    }
  }

  /** Pushing a finished node onto the child list on top of the stack. */
  method PushCell(stack: seq<NodeList>, ghost frames: seq<Frame>, ghost closed: set<NodeList>, c: Cell, ghost n: Node)
    requires Mirrors(stack, frames, closed) && ModelsNode(c, n, closed)
    modifies stack[|stack| - 1]
    ensures Mirrors(stack, Push(frames, n), closed)
  {
    var top := stack[|stack| - 1];
    ghost var done := frames[|frames| - 1].done;
    assert MirrorsAt(stack, frames, closed, |stack| - 1);
    top.nodes := top.nodes + [c];
    assert Models(old(top.nodes)[..|done|], done, closed);
    assert top.nodes[..|done| + 1] == old(top.nodes)[..|done|] + [c];
    forall k | 0 <= k < |stack|
      ensures MirrorsAt(stack, Push(frames, n), closed, k)
    {
      assert old(MirrorsAt(stack, frames, closed, k));
    }
  }

  /** A block opened: pushed with a child list of its own, which goes on the stack. */
  method OpenCell(stack: seq<NodeList>, ghost frames: seq<Frame>, ghost closed: set<NodeList>,
                  name: string, args: seq<string>) returns (deeper: seq<NodeList>)
    requires Mirrors(stack, frames, closed)
    modifies stack[|stack| - 1]
    ensures |deeper| == |stack| + 1 && deeper[..|stack|] == stack && fresh(deeper[|stack|])
    ensures Mirrors(deeper, frames + [Frame(name, args, [])], closed)
  {
    var children := new NodeList();
    var top := stack[|stack| - 1];
    top.nodes := top.nodes + [Cell(name, args, children)];
    deeper := stack + [children];
    ghost var more := frames + [Frame(name, args, [])];
    forall k | 0 <= k < |deeper|
      ensures MirrorsAt(deeper, more, closed, k)
    {
      if k < |stack| {
        assert old(MirrorsAt(stack, frames, closed, k));
        var done := frames[k].done;
        assert deeper[k].nodes[..|done|] == old(stack[k].nodes[..|done|]);
      }
    }
  }

  /** A block closed: its child list leaves the stack and is never written again. */
  lemma CloseCell(stack: seq<NodeList>, frames: seq<Frame>, closed: set<NodeList>)
    requires Mirrors(stack, frames, closed) && |stack| > 1
    ensures var last := |stack| - 1; var top := frames[last];
            Mirrors(stack[..last], Push(frames[..last], Block(top.name, top.args, top.done)), closed + {stack[last]})
  {
    var last := |stack| - 1;
    var top := frames[last];
    var more := closed + {stack[last]};
    var shorter, outer := stack[..last], Push(frames[..last], Block(top.name, top.args, top.done));
    forall k | 0 <= k < last
      ensures MirrorsAt(shorter, outer, more, k)
    {
      assert MirrorsAt(stack, frames, closed, k);
      var nodes, done := stack[k].nodes, frames[k].done;
      ModelsMore(nodes[..|done|], done, closed, more);
      if k == last - 1 {
        assert MirrorsAt(stack, frames, closed, last);
        assert stack[last].nodes[..|top.done|] == stack[last].nodes;
        ModelsMore(stack[last].nodes, top.done, closed, more);
        assert nodes[..|done| + 1] == nodes[..|done|] + [nodes[|done|]];
      }
    }
  }

  lemma StartMirrors(stack: seq<NodeList>, frames: seq<Frame>)
    requires |stack| == 1 && stack[0].nodes == [] && frames == START.frames
    ensures Mirrors(stack, frames, {})
  {
  }

  lemma MirrorsAlone(stack: seq<NodeList>, frames: seq<Frame>, closed: set<NodeList>)
    requires Mirrors(stack, frames, closed) && |stack| == 1
    ensures Models(stack[0].nodes, frames[0].done, closed)
  {
    assert MirrorsAt(stack, frames, closed, 0);
    assert stack[0].nodes[..|frames[0].done|] == stack[0].nodes;
  }

  method SkipComment(conf: string, start: nat) returns (i: nat)
    requires start < |conf| && conf[start] != '\n'
    ensures start < i <= |conf| && conf[i..] == AfterComment(conf[start..])
  {
    i := start;
    while i < |conf| && conf[i] != '\n'
      invariant start <= i <= |conf|
      invariant AfterComment(conf[start..]) == AfterComment(conf[i..])
    {
      assert conf[i..][1..] == conf[i + 1..];
      i := i + 1;
    }
  }

  lemma BeforeNothing(t: Option<Taken>)
    ensures Before("", t) == t
  {
    if t.Some? {
      assert "" + t.value.word == t.value.word;
    }
  }

  lemma BeforeTwice(a: string, b: string, t: Option<Taken>)
    ensures Before(a, Before(b, t)) == Before(a + b, t)
  {
    if t.Some? {
      assert a + (b + t.value.word) == a + b + t.value.word;
    }
  }

  /** One turn of the loop in a quoted word. */
  lemma QuotedGoesOn(conf: string, j: nat, q: char, word: string)
    requires j < |conf| && conf[j] != q
    ensures Before(word, TakeQuoted(conf[j..], q)) ==
            if conf[j] == '\\' && j + 1 < |conf| then Before(word + [conf[j + 1]], TakeQuoted(conf[j + 2..], q))
            else Before(word + [conf[j]], TakeQuoted(conf[j + 1..], q))
  {
    if conf[j] == '\\' && j + 1 < |conf| {
      assert conf[j..][2..] == conf[j + 2..];
      BeforeTwice(word, [conf[j + 1]], TakeQuoted(conf[j + 2..], q));
    } else {
      assert conf[j..][1..] == conf[j + 1..];
      BeforeTwice(word, [conf[j]], TakeQuoted(conf[j + 1..], q));
    }
  }

  lemma QuotedEnds(conf: string, j: nat, q: char, word: string)
    requires j <= |conf| && (j < |conf| ==> conf[j] == q)
    ensures Before(word, TakeQuoted(conf[j..], q)) == if j < |conf| then Some(Taken(word, conf[j + 1..])) else None
  {
    if j < |conf| {
      assert conf[j..][1..] == conf[j + 1..];
      assert word + "" == word;
    }
  }

  /** The quoted word whose opening quote is at `start`; a position past the end when it never closes. */
  method ReadQuoted(conf: string, start: nat) returns (word: string, i: nat)
    requires start < |conf|
    ensures match TakeQuoted(conf[start + 1..], conf[start])
            case None => i > |conf|
            case Some(t) => start < i <= |conf| && word == t.word && conf[i..] == t.rest
  {
    hide TakeQuoted;
    hide Before;
    var q := conf[start];
    ghost var all := TakeQuoted(conf[start + 1..], q);
    word := "";
    var j := start + 1;
    BeforeNothing(all);
    while j < |conf| && conf[j] != q
      invariant start < j <= |conf|
      invariant all == Before(word, TakeQuoted(conf[j..], q))
    {
      QuotedGoesOn(conf, j, q, word);
      if conf[j] == '\\' && j + 1 < |conf| {
        word := word + [conf[j + 1]];
        j := j + 2;
      } else {
        word := word + [conf[j]];
        j := j + 1;
      }
    }
    QuotedEnds(conf, j, q, word);
    i := j + 1;
  }

  /** `conf.indexOf('}', start)`, the text's length standing for none. */
  method IndexOfBrace(conf: string, start: nat) returns (i: nat)
    requires start <= |conf|
    ensures start <= i <= |conf| && i == start + BraceAt(conf[start..])
    ensures TakeVariable(conf[start..]) ==
            if i == |conf| then None else Some(Taken(conf[start..i + 1], conf[i + 1..]))
  {
    i := start;
    while i < |conf| && conf[i] != '}'
      invariant start <= i <= |conf|
      invariant start + BraceAt(conf[start..]) == i + BraceAt(conf[i..])
    {
      assert conf[i..][1..] == conf[i + 1..];
      i := i + 1;
    }
    VariableTaken(conf, start, i);
  }

  lemma VariableTaken(conf: string, start: nat, i: nat)
    requires start <= i <= |conf| && i == start + BraceAt(conf[start..])
    ensures TakeVariable(conf[start..]) ==
            if i == |conf| then None else Some(Taken(conf[start..i + 1], conf[i + 1..]))
  {
    if i < |conf| {
      assert conf[start..][..i + 1 - start] == conf[start..i + 1];
      assert conf[start..][i + 1 - start..] == conf[i + 1..];
    }
  }

  /** One turn of the loop in a bare word, where no `${` opens. */
  lemma BareGoesOn(conf: string, i: nat, word: string)
    requires i < |conf| && !EndsWord(conf[i]) && !OpensVariable(conf[i..])
    ensures Before(word, TakeBare(conf[i..])) == Before(word + [conf[i]], TakeBare(conf[i + 1..]))
  {
    assert conf[i..][1..] == conf[i + 1..];
    BeforeTwice(word, [conf[i]], TakeBare(conf[i + 1..]));
  }

  /** One turn of the loop in a bare word, over a whole `${name}` or an open one. */
  lemma BareGoesOver(conf: string, i: nat, word: string, end: nat)
    requires i < |conf| && !EndsWord(conf[i]) && OpensVariable(conf[i..]) && i <= end <= |conf|
    requires TakeVariable(conf[i..]) == if end == |conf| then None else Some(Taken(conf[i..end + 1], conf[end + 1..]))
    ensures Before(word, TakeBare(conf[i..])) ==
            if end == |conf| then None else Before(word + conf[i..end + 1], TakeBare(conf[end + 1..]))
  {
    hide TakeVariable;
    if end < |conf| { BeforeTwice(word, conf[i..end + 1], TakeBare(conf[end + 1..])); }
  }

  lemma BareEnds(conf: string, i: nat, word: string)
    requires i <= |conf| && (i < |conf| ==> EndsWord(conf[i]))
    ensures Before(word, TakeBare(conf[i..])) == Some(Taken(word, conf[i..]))
  {
    assert word + "" == word;
  }

  /** The bare word at `start`; a position past the end when a `${` in it never closes. */
  method ReadBare(conf: string, start: nat) returns (word: string, i: nat)
    requires start < |conf| && !EndsWord(conf[start])
    ensures match TakeBare(conf[start..])
            case None => i > |conf|
            case Some(t) => start < i <= |conf| && word == t.word && conf[i..] == t.rest
  {
    hide EndsWord;
    hide TakeVariable;
    hide TakeBare;
    hide Before;
    ghost var all := TakeBare(conf[start..]);
    word := "";
    i := start;
    BeforeNothing(all);
    while i < |conf| && !EndsWord(conf[i])
      invariant start <= i <= |conf|
      invariant i == start ==> i < |conf| && !EndsWord(conf[i])
      invariant all == Before(word, TakeBare(conf[i..]))
    {
      if conf[i] == '$' && i + 1 < |conf| && conf[i + 1] == '{' {
        var end := IndexOfBrace(conf, i);
        BareGoesOver(conf, i, word, end);
        if end == |conf| { return word, |conf| + 1; }
        word := word + conf[i..end + 1];
        i := end + 1;
      } else {
        BareGoesOn(conf, i, word);
        word := word + [conf[i]];
        i := i + 1;
      }
    }
    BareEnds(conf, i, word);
  }

  /** The word at `start`, quoted or bare: the one the text's tokens begin with, or its fault. */
  method ReadWord(conf: string, start: nat) returns (fault: Option<Fault>, word: string, i: nat)
    requires start < |conf| && conf[start] != '#' && !EndsWord(conf[start])
    ensures fault.Some? ==> Lex(conf[start..]) == Lexed([], fault)
    ensures fault.None? ==> start < i <= |conf| && Lex(conf[start..]) == Also(Word(word), Lex(conf[i..]))
  {
    hide IsSpace;
    ghost var s := conf[start..];
    assert s[0] == conf[start] && s[1..] == conf[start + 1..];
    if IsQuote(conf[start]) {
      word, i := ReadQuoted(conf, start);
      fault := if i > |conf| then Some(UnclosedQuote) else None;
    } else {
      word, i := ReadBare(conf, start);
      fault := if i > |conf| then Some(UnclosedVariable) else None;
    }
  }

  lemma Consumes(st: Reading, t: Token, l: Lexed)
    requires |st.frames| > 0
    ensures Step(st, t).Err? ==> Run(st, Also(t, l)) == Err(Step(st, t).error)
    ensures Step(st, t).Ok? ==> Run(st, Also(t, l)) == Run(Step(st, t).value, l)
  {
    var all := Also(t, l);
    assert all.(tokens := all.tokens[1..]) == l;
  }

  /** One character of punctuation is one step of the reading. */
  lemma Scans(conf: string, i: nat, st: Reading, t: Token)
    requires i < |conf| && |st.frames| > 0
    requires match t
             case Semicolon => conf[i] == ';'
             case OpenBrace => conf[i] == '{'
             case CloseBrace => conf[i] == '}'
             case Word(_) => false
    ensures Step(st, t).Err? ==> Run(st, Lex(conf[i..])) == Err(Step(st, t).error)
    ensures Step(st, t).Ok? ==> Run(st, Lex(conf[i..])) == Run(Step(st, t).value, Lex(conf[i + 1..]))
  {
    assert conf[i..][1..] == conf[i + 1..];
    Consumes(st, t, Lex(conf[i + 1..]));
  }

  lemma Faults(st: Reading, f: Fault)
    requires |st.frames| > 0
    ensures Run(st, Lexed([], Some(f))) == Err(f)
  {
  }

  lemma AtEnd(st: Reading)
    requires |st.frames| > 0
    ensures Run(st, Lex("")) ==
            if |st.frames| != 1 then Err(UnclosedBlock)
            else if st.words != [] then Err(NoSemicolon(st.words))
            else Ok(st.frames[0].done)
  {
  }

  lemma Skips(conf: string, i: nat)
    requires i < |conf|
    ensures conf[i] == '#' ==> Lex(conf[i..]) == Lex(AfterComment(conf[i..]))
    ensures IsSpace(conf[i]) ==> Lex(conf[i..]) == Lex(conf[i + 1..])
  {
    assert conf[i..][1..] == conf[i + 1..];
  }

  /** `parseNginx`: the child lists it returns are the forest `Parse` gives, or it throws `Parse`'s fault. */
  method ParseNginx(conf: string) returns (r: Result<NodeList, Fault>)
    ensures match Parse(conf)
            case Err(f) => r == Err(f)
            case Ok(forest) =>
              r.Ok? && exists closed: set<NodeList> :: r.value !in closed && Models(r.value.nodes, forest, closed)
  {
    hide IsSpace;
    hide MirrorsAt;
    hide Models;
    hide Lex;
    hide Run;
    var top := new NodeList();
    var stack := [top];
    var words: seq<string> := [];
    ghost var frames := START.frames;
    ghost var closed: set<NodeList> := {};
    assert Mirrors(stack, frames, closed) by {
      StartMirrors(stack, frames);
    }
    var i := 0;
    assert conf[0..] == conf;
    while i < |conf|
      invariant i <= |conf|
      invariant Mirrors(stack, frames, closed) && stack[0] == top
      invariant fresh(stack)
      invariant Parse(conf) == Run(Reading(frames, words), Lex(conf[i..]))
      decreases |conf| - i
    {
      var c := conf[i];
      ghost var st := Reading(frames, words);
      if c == '#' {
        Skips(conf, i);
        i := SkipComment(conf, i);
      } else if IsSpace(c) {
        Skips(conf, i);
        i := i + 1;
      } else if c == ';' {
        Scans(conf, i, st, Semicolon);
        if words == [] { return Err(EmptyDirective); }
        PushCell(stack, frames, closed, Cell(words[0], words[1..], null), Directive(words[0], words[1..]));
        frames := Push(frames, Directive(words[0], words[1..]));
        words := [];
        i := i + 1;
      } else if c == '{' {
        Scans(conf, i, st, OpenBrace);
        if words == [] { return Err(NamelessBlock); }
        stack := OpenCell(stack, frames, closed, words[0], words[1..]);
        frames := frames + [Frame(words[0], words[1..], [])];
        words := [];
        i := i + 1;
      } else if c == '}' {
        Scans(conf, i, st, CloseBrace);
        if words != [] { return Err(NoSemicolon(words)); }
        if |stack| == 1 { return Err(StrayClose); }
        CloseCell(stack, frames, closed);
        ghost var block := frames[|frames| - 1];
        closed := closed + {stack[|stack| - 1]};
        frames := Push(frames[..|frames| - 1], Block(block.name, block.args, block.done));
        stack := stack[..|stack| - 1];
        i := i + 1;
      } else {
        var fault, word, j := ReadWord(conf, i);
        if fault.Some? {
          Faults(st, fault.value);
          return Err(fault.value);
        }
        Consumes(st, Word(word), Lex(conf[j..]));
        words := words + [word];
        i := j;
      }
    }
    assert conf[i..] == "";
    AtEnd(Reading(frames, words));
    if |stack| != 1 { return Err(UnclosedBlock); }
    if words != [] { return Err(NoSemicolon(words)); }
    MirrorsAlone(stack, frames, closed);
    assert top !in closed && Models(top.nodes, frames[0].done, closed);
    return Ok(top);
  }
}
