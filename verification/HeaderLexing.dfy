/** What the C++ lexer makes of the generated text. */
module HeaderLexing {
  import opened CppLexer
  import opened HeaderText

  // ----- words and punctuators -----

  predicate IsWord(text: string) {
    text != "" && forall i :: 0 <= i < |text| ==> IsWordChar(text[i])
  }

  predicate IsLexeme(text: string) {
    text != "" &&
    if IsWordChar(text[0]) then IsWord(text)
    else if |text| == 1 then StandsAlone(text[0]) || MayPair(text[0])
    else |text| == 2 && IsPair(text[0], text[1])
  }

  /** Whether `c` right after `text` would be read as part of it. */
  predicate Glues(text: string, c: char)
    requires text != ""
  {
    if IsWordChar(text[0]) then IsWordChar(c) || c == '\"'
    else |text| == 1 && IsPair(text[0], c)
  }

  /** Every word is a word, and no blank is missing where two would be read as one. */
  predicate Separated(ls: Lexemes) {
    match ls
    case End => true
    case Spaced(text, rest) => IsLexeme(text) && Separated(rest)
    case Tight(text, rest) => IsLexeme(text) && Separated(rest) && Apart(text, rest)
  }

  predicate Apart(text: string, rest: Lexemes)
    requires text != ""
  {
    rest.End? || (rest.text != "" && !Glues(text, rest.text[0]))
  }

  /** Whether `c` after all of these would be read as part of the last. */
  predicate GluesAfter(ls: Lexemes, c: char) {
    match ls
    case End => false
    case Spaced(_, rest) => GluesAfter(rest, c)
    case Tight(text, rest) => if rest.End? then text != "" && Glues(text, c) else GluesAfter(rest, c)
  }

  predicate EndsSpaced(ls: Lexemes) { !ls.End? && if ls.rest.End? then ls.Spaced? else EndsSpaced(ls.rest) }

  function Plains(ls: Lexemes): seq<Token> {
    if ls.End? then [] else [Plain(ls.text)] + Plains(ls.rest)
  }

  /** A text of complete tokens that ends between tokens, so that anything may follow. */
  predicate Closed(text: string, tokens: seq<Token>) {
    Run(START, text) == State(tokens, Between)
  }

  lemma {:induction false} WordRun(w: string)
    requires IsWord(w)
    ensures Run(START, w) == State([], InWord(w))
    decreases |w|
  {
    var n := |w| - 1;
    assert w == w[..n] + [w[n]];
    RunAppend(START, w[..n], [w[n]]);
    RunChar(Run(START, w[..n]), w[n], "");
    if n > 0 {
      WordRun(w[..n]);
    } else {
      assert w[..0] == "";
    }
  }

  lemma LexemeLexes(text: string)
    requires IsLexeme(text)
    ensures Lexes(text, [Plain(text)])
    ensures forall c :: Extends(Run(START, text).mode, c) ==> Glues(text, c)
  {
    if IsWordChar(text[0]) {
      WordRun(text);
    } else {
      assert text == [text[0]] + text[1..];
      RunChar(START, text[0], text[1..]);
      if |text| == 1 {
        assert text[1..] == "" && text == [text[0]];
      } else {
        assert text[1..] == [text[1]] && text == [text[0], text[1]];
        RunChar(Step(START, text[0]), text[1], "");
      }
    }
  }

  lemma SpacedLexes(text: string)
    requires IsLexeme(text)
    ensures Closed(text + " ", [Plain(text)])
  {
    LexemeLexes(text);
    Blanks(" ");
    assert [Plain(text)] + [] == [Plain(text)];
    LexesAppend(text, [Plain(text)], " ", []);
  }

  predicate IsBlank(text: string) {
    forall i :: 0 <= i < |text| ==> text[i] == ' ' || text[i] == '\n'
  }

  lemma {:induction false} Blanks(text: string)
    requires IsBlank(text)
    ensures Run(START, text) == START && Lexes(text, [])
    decreases |text|
  {
    if text != "" {
      assert Step(START, text[0]) == START;
      Blanks(text[1..]);
    }
  }

  lemma {:induction false} SpellingLexes(ls: Lexemes)
    requires Separated(ls)
    ensures Lexes(Spelling(ls), Plains(ls))
    ensures forall c :: Extends(Run(START, Spelling(ls)).mode, c) ==> GluesAfter(ls, c)
    ensures EndsSpaced(ls) ==> Closed(Spelling(ls), Plains(ls))
    ensures !ls.End? ==> ls.text != "" && Spelling(ls) != "" && Spelling(ls)[0] == ls.text[0]
  {
    match ls
    case End => Blanks("");
    case Spaced(text, rest) =>
      SpacedLexes(text);
      SpellingLexes(rest);
      LexesAppend(text + " ", [Plain(text)], Spelling(rest), Plains(rest));
    case Tight(text, rest) =>
      LexemeLexes(text);
      SpellingLexes(rest);
      LexesAppend(text, [Plain(text)], Spelling(rest), Plains(rest));
  }

  lemma ClosedAppend(a: string, x: seq<Token>, b: string, y: seq<Token>)
    requires Closed(a, x) && Closed(b, y)
    ensures Closed(a + b, x + y)
  {
    LexesAppend(a, x, b, y);
    if b == "" { assert a + b == a; }
  }

  lemma BlankAfter(a: string, x: seq<Token>, b: string)
    requires Lexes(a, x) && b != "" && IsBlank(b)
    ensures Closed(a + b, x)
  {
    Blanks(b);
    assert x + [] == x;
    LexesAppend(a, x, b, []);
  }

  lemma LineLexes(indent: string, ls: Lexemes)
    requires IsBlank(indent) && Separated(ls)
    ensures Closed(Line(indent, ls), Plains(ls))
  {
    Blanks(indent);
    SpellingLexes(ls);
    LexesAppend(indent, [], Spelling(ls), Plains(ls));
    assert [] + Plains(ls) == Plains(ls);
    BlankAfter(indent + Spelling(ls), Plains(ls), "\n");
  }

  // ----- directives -----

  /** A word of a directive. */
  predicate IsDirectiveWord(text: string) { text != "" && ' ' !in text && '\n' !in text }

  /** Words with a blank after each but the last. */
  predicate DirectiveWords(ls: Lexemes) {
    match ls
    case End => true
    case Spaced(text, rest) => IsDirectiveWord(text) && DirectiveWords(rest)
    case Tight(text, rest) => IsDirectiveWord(text) && rest.End?
  }

  function Texts(ls: Lexemes): seq<string> { if ls.End? then [] else [ls.text] + Texts(ls.rest) }

  lemma {:induction false} DirectiveWordRun(words: seq<string>, word: string, text: string)
    requires ' ' !in text && '\n' !in text
    ensures Run(State([], InDirective(words, word)), text) == State([], InDirective(words, word + text))
    decreases |text|
  {
    if text == "" {
      assert word + text == word;
    } else {
      DirectiveWordRun(words, word + [text[0]], text[1..]);
      assert word + [text[0]] + text[1..] == word + text;
    }
  }

  lemma WordsSplit(ls: Lexemes)
    requires DirectiveWords(ls)
    ensures ls.Spaced? ==> IsDirectiveWord(ls.text) && DirectiveWords(ls.rest)
    ensures ls.Tight? ==> IsDirectiveWord(ls.text) && ls.rest.End?
  {
  }

  /** The words of a directive and the end of its line. */
  lemma {:induction false} DirectiveRun(words: seq<string>, ls: Lexemes)
    requires DirectiveWords(ls)
    ensures Run(State([], InDirective(words, "")), Spelling(ls) + "\n")
         == State([Directive(words + Texts(ls))], Between)
    decreases ls
  {
    hide Run, DirectiveWords;
    WordsSplit(ls);
    var s := State([], InDirective(words, ""));
    match ls
    case End =>
      assert Spelling(ls) + "\n" == "\n" == "\n" + "";
      RunChar(s, '\n', "");
      assert words + [] == words;
    case Spaced(text, rest) =>
      assert Spelling(ls) + "\n" == text + (" " + (Spelling(rest) + "\n"));
      RunAppend(s, text, " " + (Spelling(rest) + "\n"));
      DirectiveWordRun(words, "", text);
      assert "" + text == text;
      RunChar(State([], InDirective(words, text)), ' ', Spelling(rest) + "\n");
      DirectiveRun(words + [text], rest);
      assert words + [text] + Texts(rest) == words + Texts(ls);
    case Tight(text, rest) =>
      assert Spelling(ls) + "\n" == text + "\n";
      RunAppend(s, text, "\n");
      DirectiveWordRun(words, "", text);
      assert "" + text == text;
      RunChar(State([], InDirective(words, text)), '\n', "");
      assert Texts(ls) == [text];
  }

  lemma DirectiveLexes(ls: Lexemes)
    requires DirectiveWords(ls)
    ensures Closed(DirectiveLine(ls), [Directive(Texts(ls))])
  {
    assert DirectiveLine(ls) == "#" + (Spelling(ls) + "\n");
    RunChar(START, '#', Spelling(ls) + "\n");
    DirectiveRun([], ls);
    assert [] + Texts(ls) == Texts(ls);
  }
}
