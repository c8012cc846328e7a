/**
 What the parser of `NginxConfig` means, said by printing: the texts it accepts
 are exactly the layouts of a forest, and each gives that forest back.
 */
module NginxPrint {
  import opened Common
  import opened NginxConfig

  // ---------------------------------------------------------------------
  // A forest as tokens
  // ---------------------------------------------------------------------

  function WordsOf(ws: seq<string>): (r: seq<Token>)
    ensures |r| == |ws|
  {
    seq(|ws|, i requires 0 <= i < |ws| => Word(ws[i]))
  }

  function Flatten(forest: seq<Node>): seq<Token>
    decreases forest, 0
  {
    if forest == [] then [] else FlattenNode(forest[0]) + Flatten(forest[1..])
  }

  function FlattenNode(n: Node): seq<Token>
    decreases n, 1
  {
    WordsOf([n.name] + n.args) +
    match n
    case Directive(_, _) => [Semicolon]
    case Block(_, _, children) => [OpenBrace] + Flatten(children) + [CloseBrace]
  }

  lemma {:induction false} FlattenAppend(a: seq<Node>, b: seq<Node>)
    ensures Flatten(a + b) == Flatten(a) + Flatten(b)
  {
    if a == [] {
      assert a + b == b;
    } else {
      assert (a + b)[1..] == a[1..] + b;
      FlattenAppend(a[1..], b);
    }
  }

  // ---------------------------------------------------------------------
  // Tokens of a forest are read back as the forest
  // ---------------------------------------------------------------------

  function PushAll(frames: seq<Frame>, ns: seq<Node>): (r: seq<Frame>)
    requires |frames| > 0
    ensures |r| == |frames|
  {
    var top := frames[|frames| - 1];
    frames[|frames| - 1 := top.(done := top.done + ns)]
  }

  lemma {:induction false} RunWords(frames: seq<Frame>, before: seq<string>, ws: seq<string>, rest: Lexed)
    requires |frames| > 0
    ensures Run(Reading(frames, before), rest.(tokens := WordsOf(ws) + rest.tokens))
            == Run(Reading(frames, before + ws), rest)
    decreases |ws|
  {
    if ws == [] {
      assert WordsOf(ws) + rest.tokens == rest.tokens;
      assert before + ws == before;
    } else {
      var more := rest.(tokens := WordsOf(ws[1..]) + rest.tokens);
      assert WordsOf(ws) + rest.tokens == [Word(ws[0])] + more.tokens by {
        assert WordsOf(ws) == [Word(ws[0])] + WordsOf(ws[1..]);
      }
      Consumes(Reading(frames, before), Word(ws[0]), more);
      RunWords(frames, before + [ws[0]], ws[1..], rest);
      assert before + [ws[0]] + ws[1..] == before + ws;
    }
  }

  lemma {:induction false} RunForest(frames: seq<Frame>, ns: seq<Node>, rest: Lexed)
    requires |frames| > 0
    ensures Run(Reading(frames, []), rest.(tokens := Flatten(ns) + rest.tokens))
            == Run(Reading(PushAll(frames, ns), []), rest)
    decreases ns, 0
  {
    if ns == [] {
      assert Flatten(ns) + rest.tokens == rest.tokens;
      var top := frames[|frames| - 1];
      assert top.done + ns == top.done;
      assert PushAll(frames, ns) == frames[|frames| - 1 := top] == frames;
    } else {
      var more := rest.(tokens := Flatten(ns[1..]) + rest.tokens);
      assert Flatten(ns) + rest.tokens == FlattenNode(ns[0]) + more.tokens;
      RunNode(frames, ns[0], more);
      RunForest(Push(frames, ns[0]), ns[1..], rest);
      var done := frames[|frames| - 1].done;
      assert done + [ns[0]] + ns[1..] == done + ns;
      assert PushAll(Push(frames, ns[0]), ns[1..]) == PushAll(frames, ns);
    }
  }

  lemma RunHeader(frames: seq<Frame>, ws: seq<string>, t: Token, rest: Lexed)
    requires |frames| > 0 && ws != [] && (t == Semicolon || t == OpenBrace)
    ensures Run(Reading(frames, []), rest.(tokens := WordsOf(ws) + [t] + rest.tokens))
            == Run(Step(Reading(frames, ws), t).value, rest)
  {
    var end := Also(t, rest);
    assert WordsOf(ws) + [t] + rest.tokens == WordsOf(ws) + end.tokens;
    RunWords(frames, [], ws, end);
    assert [] + ws == ws;
    Consumes(Reading(frames, ws), t, rest);
  }

  lemma {:induction false} RunNode(frames: seq<Frame>, n: Node, rest: Lexed)
    requires |frames| > 0
    ensures Run(Reading(frames, []), rest.(tokens := FlattenNode(n) + rest.tokens))
            == Run(Reading(Push(frames, n), []), rest)
    decreases n, 1
  {
    hide Run;
    var ws := [n.name] + n.args;
    match n
    case Directive(_, _) =>
      RunHeader(frames, ws, Semicolon, rest);
    case Block(name, args, children) =>
      var close := Also(CloseBrace, rest);
      var inside := rest.(tokens := Flatten(children) + close.tokens);
      assert FlattenNode(n) + rest.tokens == WordsOf(ws) + [OpenBrace] + inside.tokens;
      RunHeader(frames, ws, OpenBrace, inside);
      RunForest(frames + [Frame(name, args, [])], children, close);
      var full := frames + [Frame(name, args, children)];
      assert [] + children == children;
      assert PushAll(frames + [Frame(name, args, [])], children) == full;
      Consumes(Reading(full, []), CloseBrace, rest);
      assert full[..|full| - 1] == frames;
  }

  // ---------------------------------------------------------------------
  // What has been read is the tokens of what has been built
  // ---------------------------------------------------------------------

  function FrameTokens(frames: seq<Frame>): seq<Token>
    requires |frames| > 0
  {
    var last := frames[|frames| - 1];
    if |frames| == 1 then Flatten(last.done)
    else FrameTokens(frames[..|frames| - 1]) + WordsOf([last.name] + last.args) + [OpenBrace] + Flatten(last.done)
  }

  function ReadSoFar(st: Reading): seq<Token>
    requires |st.frames| > 0
  {
    FrameTokens(st.frames) + WordsOf(st.words)
  }

  lemma PushTokens(frames: seq<Frame>, n: Node)
    requires |frames| > 0
    ensures FrameTokens(Push(frames, n)) == FrameTokens(frames) + FlattenNode(n)
  {
    var last := |frames| - 1;
    FlattenAppend(frames[last].done, [n]);
    assert Flatten([n]) == FlattenNode(n) by {
      assert [n][1..] == [];
    }
    assert Push(frames, n)[..last] == frames[..last];
  }

  /** A block's head and what it holds so far, closed into a node. */
  lemma CloseReads(st: Reading)
    requires |st.frames| > 1 && st.words == []
    ensures ReadSoFar(Step(st, CloseBrace).value) == ReadSoFar(st) + [CloseBrace]
  {
    var last := |st.frames| - 1;
    var top := st.frames[last];
    PushTokens(st.frames[..last], Block(top.name, top.args, top.done));
    hide Push;
    hide Flatten;
  }

  lemma SemicolonReads(st: Reading)
    requires |st.frames| > 0 && st.words != []
    ensures ReadSoFar(Step(st, Semicolon).value) == ReadSoFar(st) + [Semicolon]
  {
    var n := Directive(st.words[0], st.words[1..]);
    PushTokens(st.frames, n);
    assert [n.name] + n.args == st.words;
    hide Push;
    hide FrameTokens;
    hide Flatten;
  }

  lemma OpenReads(st: Reading)
    requires |st.frames| > 0 && st.words != []
    ensures ReadSoFar(Step(st, OpenBrace).value) == ReadSoFar(st) + [OpenBrace]
  {
    var next := Step(st, OpenBrace).value;
    assert next.frames[..|st.frames|] == st.frames;
    assert [st.words[0]] + st.words[1..] == st.words;
  }

  lemma StepReads(st: Reading, t: Token)
    requires |st.frames| > 0 && Step(st, t).Ok?
    ensures ReadSoFar(Step(st, t).value) == ReadSoFar(st) + [t]
  {
    hide FrameTokens;
    hide Push;
    match t
    case Word(w) => assert WordsOf(Step(st, t).value.words) == WordsOf(st.words) + [t];
    case Semicolon => SemicolonReads(st);
    case OpenBrace => OpenReads(st);
    case CloseBrace => CloseReads(st);
  }

  lemma {:induction false} RunReads(st: Reading, l: Lexed)
    requires |st.frames| > 0 && Run(st, l).Ok?
    ensures l.fault == None && ReadSoFar(st) + l.tokens == Flatten(Run(st, l).value)
    decreases |l.tokens|
  {
    if l.tokens == [] {
    } else {
      StepReads(st, l.tokens[0]);
      RunReads(Step(st, l.tokens[0]).value, l.(tokens := l.tokens[1..]));
      assert [l.tokens[0]] + l.tokens[1..] == l.tokens;
    }
  }

  /** A text parses as a forest exactly when its words and punctuation are that forest's. */
  lemma ParseIsInverseOfFlatten(conf: string, forest: seq<Node>)
    ensures Parse(conf) == Ok(forest) <==> Lex(conf) == Lexed(Flatten(forest), None)
  {
    if Parse(conf) == Ok(forest) {
      RunReads(START, Lex(conf));
      assert ReadSoFar(START) == [];
    }
    if Lex(conf) == Lexed(Flatten(forest), None) {
      RunForest(START.frames, forest, Lexed([], None));
      assert Flatten(forest) + [] == Flatten(forest);
      assert [] + forest == forest;
    }
  }

  /** So the parser refuses a text exactly when no forest has its words and punctuation, or a word in it never ends. */
  lemma ParseRefusesTheRest(conf: string)
    ensures Parse(conf).Err? <==> !exists forest :: Lex(conf) == Lexed(Flatten(forest), None)
  {
    if Parse(conf).Ok? {
      ParseIsInverseOfFlatten(conf, Parse(conf).value);
    }
    forall forest | Lex(conf) == Lexed(Flatten(forest), None)
      ensures Parse(conf) == Ok(forest)
    {
      ParseIsInverseOfFlatten(conf, forest);
    }
  }

  // ---------------------------------------------------------------------
  // A text as a layout of tokens
  // ---------------------------------------------------------------------

  datatype Piece =
    | Blank(c: char)
    | Comment(text: string)
    | Mark(t: Token)
    | Quoted(q: char, raw: string)
    | Bare(raw: string)

  /** What a quoted text says: each backslash stands before a character that is taken as it is. */
  function Unescape(raw: string, q: char): Option<string> {
    if raw == "" then Some("")
    else if raw[0] == q then None
    else if raw[0] == '\\' then
      if |raw| == 1 then None
      else match Unescape(raw[2..], q) case None => None case Some(w) => Some([raw[1]] + w)
    else match Unescape(raw[1..], q) case None => None case Some(w) => Some([raw[0]] + w)
  }

  /** Characters that end no word, and whole `${name}`s; `inside` when a `${` is open. */
  predicate BareText(raw: string, inside: bool) {
    if raw == "" then !inside
    else if inside then BareText(raw[1..], raw[0] != '}')
    else if OpensVariable(raw) then BareText(raw[1..], true)
    else !EndsWord(raw[0]) && BareText(raw[1..], false)
  }

  predicate LegalPiece(p: Piece) {
    match p
    case Blank(c) => IsSpace(c)
    case Comment(text) => '\n' !in text
    case Mark(t) => !t.Word?
    case Quoted(q, raw) => IsQuote(q) && Unescape(raw, q).Some?
    case Bare(raw) => raw != "" && raw[0] != '#' && !IsQuote(raw[0]) && !EndsWord(raw[0]) && BareText(raw, false)
  }

  /** What ends a bare word stands after it, and opens no `${` with its last character. */
  predicate EndsBare(raw: string, rest: string) {
    rest == "" || (EndsWord(rest[0]) && (rest[0] == '{' && raw != "" ==> raw[|raw| - 1] != '$'))
  }

  /** What may stand after a piece: a comment runs to its line's end, a bare word to what ends it. */
  predicate MayPrecede(p: Piece, rest: string) {
    match p
    case Comment(_) => rest == "" || rest[0] == '\n'
    case Bare(raw) => EndsBare(raw, rest)
    case _ => true
  }

  predicate Legal(ps: seq<Piece>) {
    ps == [] || (LegalPiece(ps[0]) && MayPrecede(ps[0], Text(ps[1..])) && Legal(ps[1..]))
  }

  function PieceText(p: Piece): string {
    match p
    case Blank(c) => [c]
    case Comment(text) => "#" + text
    case Mark(t) => (match t case Semicolon => ";" case OpenBrace => "{" case CloseBrace => "}" case Word(_) => "")
    case Quoted(q, raw) => [q] + raw + [q]
    case Bare(raw) => raw
  }

  function PieceTokens(p: Piece): seq<Token> {
    match p
    case Blank(_) => []
    case Comment(_) => []
    case Mark(t) => [t]
    case Quoted(q, raw) => (match Unescape(raw, q) case None => [] case Some(w) => [Word(w)])
    case Bare(raw) => [Word(raw)]
  }

  function Text(ps: seq<Piece>): string {
    if ps == [] then "" else PieceText(ps[0]) + Text(ps[1..])
  }

  function TokensIn(ps: seq<Piece>): seq<Token> {
    if ps == [] then [] else PieceTokens(ps[0]) + TokensIn(ps[1..])
  }

  // ---------------------------------------------------------------------
  // Every layout is read as its tokens
  // ---------------------------------------------------------------------

  lemma {:induction false} CommentEnds(text: string, rest: string)
    requires '\n' !in text && (rest == "" || rest[0] == '\n')
    ensures AfterComment(text + rest) == rest
  {
    if text == "" {
      assert text + rest == rest;
    } else {
      assert (text + rest)[1..] == text[1..] + rest;
      CommentEnds(text[1..], rest);
    }
  }

  lemma {:induction false} QuoteEnds(raw: string, q: char, rest: string)
    requires IsQuote(q) && Unescape(raw, q).Some?
    ensures TakeQuoted(raw + [q] + rest, q) == Some(Taken(Unescape(raw, q).value, rest))
    decreases |raw|
  {
    var s := raw + [q] + rest;
    if raw == "" {
      assert s[1..] == rest;
    } else if raw[0] == '\\' {
      assert s[2..] == raw[2..] + [q] + rest;
      QuoteEnds(raw[2..], q, rest);
    } else {
      assert s[1..] == raw[1..] + [q] + rest;
      QuoteEnds(raw[1..], q, rest);
    }
  }

  /** An open `${` ends at its first closing brace, and a bare text goes on after it. */
  lemma {:induction false} BraceEnds(raw: string, rest: string)
    requires BareText(raw, true)
    ensures BraceAt(raw + rest) == BraceAt(raw) < |raw| && BareText(raw[BraceAt(raw) + 1..], false)
  {
    assert (raw + rest)[1..] == raw[1..] + rest;
    if raw[0] != '}' {
      BraceEnds(raw[1..], rest);
      assert raw[BraceAt(raw) + 1..] == raw[1..][BraceAt(raw[1..]) + 1..];
    }
  }

  lemma VariableEnds(raw: string, rest: string) returns (v: string, more: string)
    requires OpensVariable(raw) && BareText(raw, false)
    ensures raw == v + more && v != "" && BareText(more, false)
    ensures TakeVariable(raw + rest) == Some(Taken(v, more + rest))
    ensures raw[|v| - 1] == '}' && !EndsWord(raw[0])
  {
    BraceEnds(raw[1..], rest);
    var s := raw + rest;
    assert s[1..] == raw[1..] + rest;
    var k := 1 + BraceAt(raw[1..]);
    assert BraceAt(s) == k;
    v, more := raw[..k + 1], raw[k + 1..];
    assert more == raw[1..][k..];
    assert s[..k + 1] == v && s[k + 1..] == more + rest;
  }

  lemma {:induction false} BareEnds(raw: string, rest: string)
    requires BareText(raw, false) && EndsBare(raw, rest)
    ensures TakeBare(raw + rest) == Some(Taken(raw, rest))
    decreases |raw|
  {
    hide IsSpace;
    hide TakeVariable;
    var s := raw + rest;
    if raw == "" {
      assert s == rest;
    } else {
      assert s[1..] == raw[1..] + rest;
      assert OpensVariable(s) == OpensVariable(raw);
      if OpensVariable(raw) {
        var v, more := VariableEnds(raw, rest);
        assert more != "" ==> more[|more| - 1] == raw[|raw| - 1];
        BareEnds(more, rest);
      } else {
        BareEnds(raw[1..], rest);
        assert [raw[0]] + raw[1..] == raw;
      }
    }
  }

  lemma WordIsRead(p: Piece, rest: string)
    requires LegalPiece(p) && MayPrecede(p, rest) && (p.Quoted? || p.Bare?)
    ensures Lex(PieceText(p) + rest) == Lexed(PieceTokens(p) + Lex(rest).tokens, Lex(rest).fault)
  {
    hide TakeQuoted;
    hide TakeBare;
    var s := PieceText(p) + rest;
    if p.Quoted? {
      assert s[0] == p.q && s[1..] == p.raw + [p.q] + rest;
      QuoteEnds(p.raw, p.q, rest);
    } else {
      assert s[0] == p.raw[0];
      BareEnds(p.raw, rest);
    }
  }

  lemma PieceIsRead(p: Piece, rest: string)
    requires LegalPiece(p) && MayPrecede(p, rest)
    ensures Lex(PieceText(p) + rest) == Lexed(PieceTokens(p) + Lex(rest).tokens, Lex(rest).fault)
  {
    var s := PieceText(p) + rest;
    if p.Quoted? || p.Bare? {
      WordIsRead(p, rest);
    } else if p.Comment? {
      CommentEnds(PieceText(p), rest);
    } else {
      assert s[0] == PieceText(p)[0] && s[1..] == rest;
    }
  }

  lemma {:induction false} LayoutIsRead(ps: seq<Piece>)
    requires Legal(ps)
    ensures Lex(Text(ps)) == Lexed(TokensIn(ps), None)
  {
    if ps == [] {
    } else {
      LayoutIsRead(ps[1..]);
      PieceIsRead(ps[0], Text(ps[1..]));
    }
  }

  // ---------------------------------------------------------------------
  // Every text that is read cleanly is a layout
  // ---------------------------------------------------------------------

  lemma {:induction false} QuotedIsLaid(s: string, q: char) returns (raw: string)
    requires TakeQuoted(s, q).Some? && IsQuote(q)
    ensures var t := TakeQuoted(s, q).value; s == raw + [q] + t.rest && Unescape(raw, q) == Some(t.word)
    decreases |s|
  {
    if s[0] == q {
      raw := "";
    } else if s[0] == '\\' && 1 < |s| {
      var more := QuotedIsLaid(s[2..], q);
      raw := s[..2] + more;
      assert raw[2..] == more;
    } else {
      var more := QuotedIsLaid(s[1..], q);
      raw := [s[0]] + more;
      assert raw[1..] == more;
    }
  }

  lemma {:induction false} BraceIsLaid(s: string, more: string)
    requires BraceAt(s) < |s| && BareText(more, false)
    ensures BareText(s[..BraceAt(s) + 1] + more, true)
  {
    hide IsSpace;
    var k := BraceAt(s);
    var word := s[..k + 1] + more;
    if s[0] == '}' {
      assert word[1..] == more;
    } else {
      BraceIsLaid(s[1..], more);
      assert word[1..] == s[1..][..k] + more;
    }
  }

  lemma VariableIsLaid(s: string, more: string)
    requires OpensVariable(s) && TakeVariable(s).Some? && BareText(more, false)
    ensures var v := TakeVariable(s).value;
            s == v.word + v.rest && |v.word| > 1 && v.word[|v.word| - 1] == '}' && BareText(v.word + more, false)
  {
    hide IsSpace;
    var k := BraceAt(s);
    assert k == 1 + BraceAt(s[1..]) && BraceAt(s[1..]) == 1 + BraceAt(s[1..][1..]);
    BraceIsLaid(s[1..], more);
    var word := s[..k + 1] + more;
    assert word[1..] == s[1..][..k] + more;
    assert word[0] == s[0] && word[1] == s[1];
  }

  lemma {:induction false} BareIsLaid(s: string)
    requires TakeBare(s).Some?
    ensures var t := TakeBare(s).value; s == t.word + t.rest && BareText(t.word, false) && EndsBare(t.word, t.rest)
    decreases |s|
  {
    hide IsSpace;
    hide TakeVariable;
    var t := TakeBare(s).value;
    if s == "" || EndsWord(s[0]) {
    } else if OpensVariable(s) {
      var v := TakeVariable(s).value;
      BareIsLaid(v.rest);
      VariableIsLaid(s, TakeBare(v.rest).value.word);
    } else {
      BareIsLaid(s[1..]);
      var u := TakeBare(s[1..]).value;
      CharacterIsLaid(s, u);
      hide BareText;
      hide EndsBare;
    }
  }

  lemma CharacterIsLaid(s: string, u: Taken)
    requires s != "" && !EndsWord(s[0]) && !OpensVariable(s)
    requires s[1..] == u.word + u.rest && BareText(u.word, false) && EndsBare(u.word, u.rest)
    ensures s == [s[0]] + u.word + u.rest && BareText([s[0]] + u.word, false) && EndsBare([s[0]] + u.word, u.rest)
  {
    hide IsSpace;
    var word := [s[0]] + u.word;
    assert word[1..] == u.word;
    assert u.word != "" ==> u.word[0] == s[1];
    assert u.word == "" && u.rest != "" ==> u.rest[0] == s[1];
  }

  lemma {:induction false} CommentIsLaid(s: string) returns (text: string)
    ensures s == text + AfterComment(s) && '\n' !in text
    ensures AfterComment(s) == "" || AfterComment(s)[0] == '\n'
  {
    if s == "" || s[0] == '\n' {
      text := "";
    } else {
      var more := CommentIsLaid(s[1..]);
      text := [s[0]] + more;
    }
  }

  lemma WordIsLaid(s: string) returns (p: Piece, rest: string)
    requires s != "" && s[0] != '#' && !EndsWord(s[0]) && Lex(s).fault == None
    ensures s == PieceText(p) + rest && p != Blank('\n') && |rest| < |s|
    ensures LegalPiece(p) && MayPrecede(p, rest)
  {
    hide IsSpace;
    hide TakeQuoted;
    hide TakeBare;
    if IsQuote(s[0]) {
      var raw := QuotedIsLaid(s[1..], s[0]);
      p, rest := Quoted(s[0], raw), TakeQuoted(s[1..], s[0]).value.rest;
    } else {
      BareIsLaid(s);
      var t := TakeBare(s).value;
      p, rest := Bare(t.word), t.rest;
      assert s[0] == t.word[0] by { assert |t.word| > 0; }
    }
  }

  lemma FirstIsLaid(s: string) returns (p: Piece, rest: string)
    requires s != "" && Lex(s).fault == None
    ensures s == PieceText(p) + rest && |rest| < |s|
    ensures LegalPiece(p) && MayPrecede(p, rest)
  {
    hide IsSpace;
    if s[0] == '#' {
      var text := CommentIsLaid(s);
      p, rest := Comment(text[1..]), AfterComment(s);
      assert text == "#" + text[1..];
    } else if IsSpace(s[0]) {
      p, rest := Blank(s[0]), s[1..];
    } else if s[0] == ';' {
      p, rest := Mark(Semicolon), s[1..];
    } else if s[0] == '{' {
      p, rest := Mark(OpenBrace), s[1..];
    } else if s[0] == '}' {
      p, rest := Mark(CloseBrace), s[1..];
    } else {
      p, rest := WordIsLaid(s);
    }
  }

  lemma {:induction false} CleanTextIsLaid(s: string) returns (ps: seq<Piece>)
    requires Lex(s).fault == None
    ensures Legal(ps) && Text(ps) == s && TokensIn(ps) == Lex(s).tokens
    decreases |s|
  {
    hide IsSpace;
    if s == "" { return []; }
    var p, rest := FirstIsLaid(s);
    PieceIsRead(p, rest);
    var more := CleanTextIsLaid(rest);
    ps := [p] + more;
    assert ps[1..] == more;
  }

  // ---------------------------------------------------------------------
  // The parser's meaning
  // ---------------------------------------------------------------------

  ghost predicate IsLayoutOf(ps: seq<Piece>, conf: string, forest: seq<Node>) {
    Legal(ps) && Text(ps) == conf && TokensIn(ps) == Flatten(forest)
  }

  /**
   A text parses as a forest exactly when it is some layout of that forest:
   its words quoted or bare, with any blanks and comments between.
   */
  lemma ParseAcceptsExactlyTheLayouts(conf: string, forest: seq<Node>)
    ensures Parse(conf) == Ok(forest) <==> exists ps :: IsLayoutOf(ps, conf, forest)
  {
    ParseIsInverseOfFlatten(conf, forest);
    if Parse(conf) == Ok(forest) {
      var ps := CleanTextIsLaid(conf);
      assert IsLayoutOf(ps, conf, forest);
    }
    if ps :| IsLayoutOf(ps, conf, forest) {
      LayoutIsRead(ps);
    }
  }

  // ---------------------------------------------------------------------
  // Printing with every word in quotes
  // ---------------------------------------------------------------------

  function Escape(w: string, q: char): string {
    if w == "" then ""
    else (if w[0] == '\\' || w[0] == q then ['\\', w[0]] else [w[0]]) + Escape(w[1..], q)
  }

  lemma {:induction false} EscapeIsUndone(w: string, q: char)
    requires q != '\\'
    ensures Unescape(Escape(w, q), q) == Some(w)
  {
    if w == "" {
    } else {
      EscapeIsUndone(w[1..], q);
      var e := Escape(w, q);
      if w[0] == '\\' || w[0] == q {
        assert e[2..] == Escape(w[1..], q);
      } else {
        assert e[1..] == Escape(w[1..], q);
      }
      assert [w[0]] + w[1..] == w;
    }
  }

  /** Blanks and whole comment lines, put between two tokens. */
  predicate IsGap(gap: seq<Piece>) {
    gap == [] ||
    (&& IsGap(gap[1..])
     && match gap[0]
        case Blank(c) => IsSpace(c)
        case Comment(text) => '\n' !in text && 1 < |gap| && gap[1] == Blank('\n')
        case _ => false)
  }

  function TokenPiece(t: Token, q: char): Piece {
    match t case Word(w) => Quoted(q, Escape(w, q)) case _ => Mark(t)
  }

  /** The tokens in order, words in quotes of either kind, with a gap before each and one after the last. */
  function Print(toks: seq<Token>, gaps: seq<seq<Piece>>, quotes: seq<char>): seq<Piece>
    requires |gaps| == |toks| + 1 && |quotes| == |toks|
  {
    if toks == [] then gaps[0]
    else gaps[0] + [TokenPiece(toks[0], quotes[0])] + Print(toks[1..], gaps[1..], quotes[1..])
  }

  lemma {:induction false} GapHasNoTokens(gap: seq<Piece>, ps: seq<Piece>)
    requires IsGap(gap)
    ensures TokensIn(gap + ps) == TokensIn(ps)
  {
    if gap == [] {
      assert gap + ps == ps;
    } else {
      GapHasNoTokens(gap[1..], ps);
      assert (gap + ps)[1..] == gap[1..] + ps;
    }
  }

  /** A blank may stand before anything, and a comment before the newline that follows it in a gap. */
  lemma GapPrecedes(gap: seq<Piece>, ps: seq<Piece>)
    requires gap != [] && IsGap(gap)
    ensures IsGap(gap[1..]) && LegalPiece(gap[0]) && MayPrecede(gap[0], Text(gap[1..] + ps))
  {
    hide IsSpace;
    if gap[0].Comment? { assert (gap[1..] + ps)[0] == gap[1] == Blank('\n'); }
  }

  lemma {:induction false} GapIsLegal(gap: seq<Piece>, ps: seq<Piece>)
    requires IsGap(gap) && Legal(ps)
    ensures Legal(gap + ps)
  {
    hide IsSpace;
    if gap == [] {
      assert gap + ps == ps;
    } else {
      var all, rest := gap + ps, gap[1..] + ps;
      assert IsGap(gap[1..]);
      GapIsLegal(gap[1..], ps);
      assert all[0] == gap[0] && all[1..] == rest;
      GapPrecedes(gap, ps);
      hide Text;
      hide IsGap;
      hide LegalPiece;
      hide MayPrecede;
    }
  }

  lemma PieceThenLayout(p: Piece, more: seq<Piece>)
    requires LegalPiece(p) && Legal(more) && MayPrecede(p, Text(more))
    ensures Legal([p] + more) && TokensIn([p] + more) == PieceTokens(p) + TokensIn(more)
  {
    assert ([p] + more)[1..] == more;
  }

  lemma TokenIsLegal(t: Token, q: char, rest: string)
    requires IsQuote(q)
    ensures var p := TokenPiece(t, q); LegalPiece(p) && PieceTokens(p) == [t] && MayPrecede(p, rest)
  {
    if t.Word? { EscapeIsUndone(t.text, q); }
  }

  lemma {:induction false} PrintIsLayout(toks: seq<Token>, gaps: seq<seq<Piece>>, quotes: seq<char>)
    requires |gaps| == |toks| + 1 && |quotes| == |toks|
    requires forall k :: 0 <= k < |gaps| ==> IsGap(gaps[k])
    requires forall k :: 0 <= k < |quotes| ==> IsQuote(quotes[k])
    ensures Legal(Print(toks, gaps, quotes)) && TokensIn(Print(toks, gaps, quotes)) == toks
  {
    hide IsSpace;
    if toks == [] {
      GapHasNoTokens(gaps[0], []);
      GapIsLegal(gaps[0], []);
      assert gaps[0] + [] == gaps[0];
    } else {
      var p, more := TokenPiece(toks[0], quotes[0]), Print(toks[1..], gaps[1..], quotes[1..]);
      PrintIsLayout(toks[1..], gaps[1..], quotes[1..]);
      TokenIsLegal(toks[0], quotes[0], Text(more));
      PieceThenLayout(p, more);
      hide TokenPiece;
      hide LegalPiece;
      hide Legal;
      hide Text;
      GapHasNoTokens(gaps[0], [p] + more);
      GapIsLegal(gaps[0], [p] + more);
      assert Print(toks, gaps, quotes) == gaps[0] + ([p] + more);
    }
  }

  /**
   Print and parse undo each other, whatever blanks and comments stand between
   the tokens and whichever quotes each word is put in.
   */
  lemma ParseUndoesPrint(forest: seq<Node>, gaps: seq<seq<Piece>>, quotes: seq<char>)
    requires |gaps| == |Flatten(forest)| + 1 && |quotes| == |Flatten(forest)|
    requires forall k :: 0 <= k < |gaps| ==> IsGap(gaps[k])
    requires forall k :: 0 <= k < |quotes| ==> IsQuote(quotes[k])
    ensures Parse(Text(Print(Flatten(forest), gaps, quotes))) == Ok(forest)
  {
    var ps := Print(Flatten(forest), gaps, quotes);
    PrintIsLayout(Flatten(forest), gaps, quotes);
    ParseAcceptsExactlyTheLayouts(Text(ps), forest);
    assert IsLayoutOf(ps, Text(ps), forest);
  }
}
