/**
 What the characters of an nginx config mean to the parser of
 `scripts/nginx-config.ts`, character by character.
 */
module NginxText {
  import opened Common
  import opened NginxConfig
  import opened NginxPrint

  /** The code points JavaScript's `\s` stands for. */
  const BLANKS := {
    '\t', '\n', '\U{0B}', '\U{0C}', '\r', ' ', '\U{A0}', '\U{1680}',
    '\U{2000}', '\U{2001}', '\U{2002}', '\U{2003}', '\U{2004}', '\U{2005}', '\U{2006}', '\U{2007}', '\U{2008}',
    '\U{2009}', '\U{200A}', '\U{2028}', '\U{2029}', '\U{202F}', '\U{205F}', '\U{3000}', '\U{FEFF}'
  }

  /** Letters, digits and four marks: characters that mean only themselves. */
  predicate IsPlain(w: string) {
    w != "" && forall k :: 0 <= k < |w| ==> IsPlainChar(w[k])
  }

  predicate IsPlainChar(c: char) {
    'a' <= c <= 'z' || 'A' <= c <= 'Z' || '0' <= c <= '9' || c in {'_', '.', '/', '-'}
  }

  lemma SpacesAreTheBlanks(c: char)
    ensures IsSpace(c) <==> c in BLANKS
  {
  }

  // ---------------------------------------------------------------------
  // Layouts of a few pieces
  // ---------------------------------------------------------------------

  lemma PlainEndsNoWord(c: char)
    requires IsPlainChar(c)
    ensures !EndsWord(c) && !IsQuote(c) && c != '#' && c != '$' && c != '}' && c != '\\'
  {
  }

  lemma {:induction false} NoEndIsBare(w: string)
    requires forall k :: 0 <= k < |w| ==> !EndsWord(w[k])
    ensures BareText(w, false)
  {
    hide IsSpace;
    if w == "" {
    } else {
      NoEndIsBare(w[1..]);
    }
  }

  lemma PlainIsBare(w: string)
    requires IsPlain(w)
    ensures LegalPiece(Bare(w)) && BareText(w, false)
  {
    hide EndsWord;
    forall k | 0 <= k < |w|
      ensures !EndsWord(w[k]) && !IsQuote(w[k]) && w[k] != '#'
    {
      PlainEndsNoWord(w[k]);
    }
    NoEndIsBare(w);
  }

  lemma FlattenDirective(name: string, args: seq<string>)
    ensures Flatten([Directive(name, args)]) == WordsOf([name] + args) + [Semicolon]
  {
    assert [Directive(name, args)][1..] == [];
  }

  lemma WordsOfOne(w: string)
    ensures WordsOf([w]) == [Word(w)] && [w] + [] == [w]
  {
    assert [w][1..] == [];
  }

  /** A layout of one directive. */
  lemma LaidDirective(ps: seq<Piece>, conf: string, name: string, args: seq<string>)
    requires Legal(ps) && Text(ps) == conf && TokensIn(ps) == WordsOf([name] + args) + [Semicolon]
    ensures Parse(conf) == Ok([Directive(name, args)])
  {
    hide Parse;
    FlattenDirective(name, args);
    ParseAcceptsExactlyTheLayouts(conf, [Directive(name, args)]);
    assert IsLayoutOf(ps, conf, [Directive(name, args)]);
  }

  lemma EndMark(t: Token)
    requires !t.Word?
    ensures Legal([Mark(t)]) && Text([Mark(t)]) == PieceText(Mark(t)) && TokensIn([Mark(t)]) == [t]
  {
    assert [Mark(t)][1..] == [];
  }

  /** One more piece in front of a layout. */
  lemma InFront(p: Piece, ps: seq<Piece>)
    requires LegalPiece(p) && Legal(ps) && MayPrecede(p, Text(ps))
    ensures Legal([p] + ps) && Text([p] + ps) == PieceText(p) + Text(ps)
    ensures TokensIn([p] + ps) == PieceTokens(p) + TokensIn(ps)
  {
    assert ([p] + ps)[1..] == ps;
  }

  /** A bare word and its semicolon. */
  lemma BareEnd(w: string) returns (ps: seq<Piece>)
    requires LegalPiece(Bare(w))
    ensures Legal(ps) && Text(ps) == w + ";" && TokensIn(ps) == [Word(w), Semicolon]
  {
    hide Legal;
    hide Text;
    hide TokensIn;
    hide BareText;
    EndMark(Semicolon);
    ps := [Bare(w), Mark(Semicolon)];
    InFront(Bare(w), [Mark(Semicolon)]);
    assert [Bare(w)] + [Mark(Semicolon)] == ps;
  }

  lemma BareDirective(w: string)
    requires LegalPiece(Bare(w))
    ensures Parse(w + ";") == Ok([Directive(w, [])])
  {
    var ps := BareEnd(w);
    WordsOfOne(w);
    LaidDirective(ps, w + ";", w, []);
  }

  // ---------------------------------------------------------------------
  // Between two words
  // ---------------------------------------------------------------------

  /** A blank parts two words. */
  lemma BlanksPartWords(a: string, b: string, c: char)
    requires IsPlain(a) && IsPlain(b) && c in BLANKS
    ensures Parse(a + [c] + b + ";") == Ok([Directive(a, [b])])
  {
    hide Legal;
    hide Text;
    hide TokensIn;
    hide BareText;
    SpacesAreTheBlanks(c);
    PlainIsBare(a);
    PlainIsBare(b);
    var ps := BareEnd(b);
    var blank := [Blank(c)] + ps;
    InFront(Blank(c), ps);
    hide IsSpace;
    InFront(Bare(a), blank);
    assert a + [c] + b + ";" == a + ([c] + (b + ";"));
    assert [a] + [b] == [a, b] && [a, b][1..] == [b] && [b][1..] == [];
    LaidDirective([Bare(a)] + blank, a + [c] + b + ";", a, [b]);
  }

  /** Anything else but `;`, `{` and `}` is one more character of one word, a quote, a `#` and a lone `$` too. */
  lemma OthersJoinWords(a: string, b: string, c: char)
    requires IsPlain(a) && IsPlain(b) && c !in BLANKS && c !in {';', '{', '}'}
    ensures Parse(a + [c] + b + ";") == Ok([Directive(a + [c] + b, [])])
  {
    SpacesAreTheBlanks(c);
    assert !EndsWord(c);
    var w := a + [c] + b;
    PlainIsBare(a);
    hide EndsWord;
    forall k | 0 <= k < |w|
      ensures !EndsWord(w[k])
    {
      if k < |a| {
        PlainEndsNoWord(a[k]);
      } else if k > |a| {
        PlainEndsNoWord(b[k - |a| - 1]);
      }
    }
    NoEndIsBare(w);
    assert w[0] == a[0];
    BareDirective(w);
  }

  /** A semicolon ends a directive, and braces hold a block's children. */
  lemma MarksShapeTheTree(a: string, b: string)
    requires IsPlain(a) && IsPlain(b)
    ensures Parse(a + ";" + b + ";") == Ok([Directive(a, []), Directive(b, [])])
    ensures Parse(a + "{" + b + ";" + "}") == Ok([Block(a, [], [Directive(b, [])])])
  {
    PlainIsBare(a);
    PlainIsBare(b);
    var d, e := Directive(a, []), Directive(b, []);
    var ps := BareEnd(b);
    SemicolonParts(a, b, ps);
    BracesHold(a, b);
  }

  lemma SemicolonParts(a: string, b: string, ps: seq<Piece>)
    requires LegalPiece(Bare(a)) && Legal(ps) && Text(ps) == b + ";" && TokensIn(ps) == [Word(b), Semicolon]
    ensures Parse(a + ";" + b + ";") == Ok([Directive(a, []), Directive(b, [])])
  {
    hide Legal;
    hide Text;
    hide TokensIn;
    hide BareText;
    hide Flatten;
    var conf, forest := a + ";" + b + ";", [Directive(a, []), Directive(b, [])];
    var marked := [Mark(Semicolon)] + ps;
    InFront(Mark(Semicolon), ps);
    InFront(Bare(a), marked);
    assert conf == a + (";" + (b + ";"));
    assert forest == [Directive(a, [])] + [Directive(b, [])];
    FlattenAppend([Directive(a, [])], [Directive(b, [])]);
    FlattenDirective(a, []);
    FlattenDirective(b, []);
    WordsOfOne(a);
    WordsOfOne(b);
    hide Flatten;
    hide FlattenNode;
    ParseAcceptsExactlyTheLayouts(conf, forest);
    assert IsLayoutOf([Bare(a)] + marked, conf, forest);
  }

  lemma FlattenBlock(a: string, b: string)
    ensures Flatten([Block(a, [], [Directive(b, [])])]) == [Word(a), OpenBrace, Word(b), Semicolon, CloseBrace]
  {
    var n := Block(a, [], [Directive(b, [])]);
    assert [n][1..] == [];
    FlattenDirective(b, []);
    WordsOfOne(a);
    WordsOfOne(b);
    assert Flatten([n]) == FlattenNode(n);
  }

  lemma BracesHold(a: string, b: string)
    requires IsPlain(a) && IsPlain(b)
    ensures Parse(a + "{" + b + ";" + "}") == Ok([Block(a, [], [Directive(b, [])])])
  {
    hide Legal;
    hide Text;
    hide TokensIn;
    hide BareText;
    hide Flatten;
    hide Parse;
    PlainIsBare(a);
    PlainIsBare(b);
    PlainEndsNoWord(a[|a| - 1]);
    var conf, forest := a + "{" + b + ";" + "}", [Block(a, [], [Directive(b, [])])];
    var close := [Mark(CloseBrace)];
    EndMark(CloseBrace);
    var end := [Mark(Semicolon)] + close;
    InFront(Mark(Semicolon), close);
    var word := [Bare(b)] + end;
    InFront(Bare(b), end);
    var opening := [Mark(OpenBrace)] + word;
    InFront(Mark(OpenBrace), word);
    InFront(Bare(a), opening);
    var whole := [Bare(a)] + opening;
    assert Text(whole) == a + ("{" + (b + (";" + "}"))) == conf;
    FlattenBlock(a, b);
    assert TokensIn(whole) == [Word(a), OpenBrace, Word(b), Semicolon, CloseBrace];
    hide PieceText;
    hide PieceTokens;
    assert IsLayoutOf(whole, conf, forest);
    ParseAcceptsExactlyTheLayouts(conf, forest);
  }

  // ---------------------------------------------------------------------
  // Comments, quotes and variables
  // ---------------------------------------------------------------------

  /** A `#` that begins a word takes the text with it up to the line's end. */
  lemma CommentsSayNothing(text: string, a: string)
    requires '\n' !in text && IsPlain(a)
    ensures Parse("#" + text + "\n" + a + ";") == Ok([Directive(a, [])])
  {
    hide Legal;
    hide Text;
    hide TokensIn;
    hide BareText;
    PlainIsBare(a);
    var ps := BareEnd(a);
    var blank := [Blank('\n')] + ps;
    InFront(Blank('\n'), ps);
    InFront(Comment(text), blank);
    var conf := "#" + text + "\n" + a + ";";
    assert conf == ("#" + text) + (['\n'] + (a + ";"));
    hide BareText;
    WordsOfOne(a);
    LaidDirective([Comment(text)] + blank, conf, a, []);
  }

  lemma {:induction false} BackslashTakesNext(x: string, c: char, y: string, q: char)
    requires q !in x && '\\' !in x && q !in y && '\\' !in y && q != '\\'
    ensures Unescape(x + ['\\', c] + y, q) == Some(x + [c] + y)
    decreases |x| + |y|
  {
    var raw := x + ['\\', c] + y;
    if x != "" {
      BackslashTakesNext(x[1..], c, y, q);
      assert raw[1..] == x[1..] + ['\\', c] + y;
      assert x[0] in x && x + [c] + y == [x[0]] + (x[1..] + [c] + y);
    } else {
      UnescapedIsItself(y, q);
      assert raw[2..] == y && raw == ['\\', c] + y;
      assert x + [c] + y == [c] + y;
    }
  }

  lemma {:induction false} UnescapedIsItself(y: string, q: char)
    requires q !in y && '\\' !in y
    ensures Unescape(y, q) == Some(y)
  {
    if y == "" {
    } else {
      assert y[0] in y && y == [y[0]] + y[1..];
      UnescapedIsItself(y[1..], q);
    }
  }

  /** Between two quotes of a kind every character is itself, and one behind a backslash is itself whatever it is. */
  lemma QuotesHoldAnything(x: string, c: char, y: string, q: char)
    requires q == '"' || q == '\''
    requires q !in x && '\\' !in x && q !in y && '\\' !in y
    ensures Parse([q] + x + [q] + ";") == Ok([Directive(x, [])])
    ensures Parse([q] + (x + ['\\', c] + y) + [q] + ";") == Ok([Directive(x + [c] + y, [])])
  {
    UnescapedIsItself(x, q);
    BackslashTakesNext(x, c, y, q);
    QuotedDirective(x, q);
    QuotedDirective(x + ['\\', c] + y, q);
  }

  lemma QuotedDirective(raw: string, q: char)
    requires (q == '"' || q == '\'') && Unescape(raw, q).Some?
    ensures Parse([q] + raw + [q] + ";") == Ok([Directive(Unescape(raw, q).value, [])])
  {
    hide Legal;
    hide Text;
    hide TokensIn;
    EndMark(Semicolon);
    InFront(Quoted(q, raw), [Mark(Semicolon)]);
    WordsOfOne(Unescape(raw, q).value);
    LaidDirective([Quoted(q, raw)] + [Mark(Semicolon)], [q] + raw + [q] + ";", Unescape(raw, q).value, []);
  }

  lemma {:induction false} InsideBraces(x: string, b: string)
    requires '}' !in x && BareText(b, false)
    ensures BareText(x + "}" + b, true)
  {
    hide IsSpace;
    var raw := x + "}" + b;
    if x == "" {
      assert raw[1..] == b;
    } else {
      assert x[0] in x && raw[1..] == x[1..] + "}" + b;
      InsideBraces(x[1..], b);
    }
  }

  lemma {:induction false} VariableInside(a: string, x: string, b: string)
    requires (forall k :: 0 <= k < |a| ==> IsPlainChar(a[k])) && '}' !in x && BareText(b, false)
    ensures BareText(a + "${" + x + "}" + b, false)
    decreases |a|
  {
    hide IsSpace;
    var raw := a + "${" + x + "}" + b;
    if a == "" {
      InsideBraces("{" + x, b);
      assert raw[1..] == ("{" + x) + "}" + b;
    } else {
      PlainEndsNoWord(a[0]);
      assert raw[1..] == a[1..] + "${" + x + "}" + b;
      VariableInside(a[1..], x, b);
    }
  }

  /** `${` to the next `}` is part of its word, blanks, braces and semicolons in it too. */
  lemma VariablesStayWhole(a: string, x: string, b: string)
    requires IsPlain(a) && IsPlain(b) && '}' !in x
    ensures Parse(a + "${" + x + "}" + b + ";") == Ok([Directive(a + "${" + x + "}" + b, [])])
  {
    PlainIsBare(a);
    PlainIsBare(b);
    var w := a + "${" + x + "}" + b;
    VariableInside(a, x, b);
    assert w[0] == a[0];
    BareDirective(w);
  }

  // ---------------------------------------------------------------------
  // Faults
  // ---------------------------------------------------------------------

  lemma MarkAlone()
    ensures Parse(";") == Err(EmptyDirective) && Parse("{") == Err(NamelessBlock) && Parse("}") == Err(StrayClose)
  {
    assert ";"[1..] == "" && "{"[1..] == "" && "}"[1..] == "";
    assert Lex(";") == Lexed([Semicolon], None) && Lex("{") == Lexed([OpenBrace], None);
    assert Lex("}") == Lexed([CloseBrace], None);
  }

  lemma WordAlone(rest: string)
    requires rest == "" || rest == "}" || rest == "{"
    ensures Lex("a" + rest) == Also(Word("a"), Lex(rest))
  {
    var s := "a" + rest;
    assert s[1..] == rest;
    assert TakeBare(rest) == Some(Taken("", rest));
    assert ['a'] + "" == "a";
    assert TakeBare(s) == Some(Taken("a", rest));
  }

  lemma AfterAWord(l: Lexed)
    ensures Run(START, Also(Word("a"), l)) == Run(Reading(START.frames, ["a"]), l)
  {
    assert START.words + ["a"] == ["a"];
    Consumes(START, Word("a"), l);
  }

  /** A word with no semicolon after it, and a block with no brace. */
  lemma WordUnended()
    ensures Parse("a") == Err(NoSemicolon(["a"])) && Parse("a}") == Err(NoSemicolon(["a"]))
    ensures Parse("a{") == Err(UnclosedBlock)
  {
    WordAlone("");
    WordAlone("}");
    WordAlone("{");
    AfterAWord(Lex(""));
    AfterAWord(Lex("}"));
    AfterAWord(Lex("{"));
    assert "a" + "" == "a" && "a" + "}" == "a}" && "a" + "{" == "a{";
    assert "}"[1..] == "" && "{"[1..] == "";
    assert Lex("}") == Lexed([CloseBrace], None) && Lex("{") == Lexed([OpenBrace], None);
  }

  /** A quote with no other, and `${` with no brace after it. */
  lemma WordUnclosed()
    ensures Parse("\"") == Err(UnclosedQuote) && Parse("'") == Err(UnclosedQuote)
    ensures Parse("${") == Err(UnclosedVariable)
  {
    assert "\""[1..] == "" && "'"[1..] == "";
    assert TakeQuoted("", '"') == None && TakeQuoted("", '\'') == None;
    var v := "${";
    assert v[1..] == "{" && v[1..][1..] == "";
    assert BraceAt(v[1..][1..]) == 0 && BraceAt(v[1..]) == 1 && BraceAt(v) == 2;
    assert TakeBare(v).None?;
    Faults(START, UnclosedVariable);
    Faults(START, UnclosedQuote);
  }
}
