/** Lexing the whole header, part by part. */
module HeaderComplete {
  import opened Numerals
  import opened CppLexer
  import opened HeaderText
  import opened HeaderLexing
  import opened LiteralReading
  import opened HeaderTokens

  lemma NewLine(a: string, x: seq<Token>)
    requires Closed(a, x)
    ensures Closed(a + "\n", x)
  {
    BlankAfter(a, x, "\n");
  }

  lemma NothingBefore(a: string, b: string, y: seq<Token>)
    requires Closed(a, []) && Closed(b, y)
    ensures Closed(a + b, y)
  {
    ClosedAppend(a, [], b, y);
    assert [] + y == y;
  }

  // ----- definitions -----

  lemma {:induction false} LegalRun(v: string, name: string)
    requires Legal(name)
    ensures Run(State([], InLiteral(v)), name) == State([], InLiteral(v + name))
    decreases |name|
  {
    if name == "" {
      assert v + name == v;
    } else {
      assert name[0] in name;
      LegalRun(v + [name[0]], name[1..]);
      assert v + [name[0]] + name[1..] == v + name;
    }
  }

  /** The printed name, without escapes, is one literal that stands for `value`. */
  predicate Spells(name: string, value: string) {
    Run(State([], InLiteral("")), name + "\"") == State([], AfterLiteral(value))
  }

  lemma LegalSpells(name: string)
    requires Legal(name)
    ensures Spells(name, name)
  {
    RunAppend(State([], InLiteral("")), name, "\"");
    LegalRun("", name);
    assert "" + name == name;
    RunChar(State([], InLiteral(name)), '\"', "");
  }

  lemma QuotedLexes(name: string, value: string)
    requires Spells(name, value)
    ensures Run(START, Quoted(name)) == State([], AfterLiteral(value))
    ensures Lexes(Quoted(name), [Literal(value)])
  {
    assert Quoted(name) == "\"" + (name + "\"");
    RunChar(START, '\"', name + "\"");
  }

  lemma StringDefinitionGlues(symbol: string, rest: Lexemes, c: char)
    ensures GluesAfter(StringDefinition(symbol, rest), c) == GluesAfter(rest, c)
  {
    var a := Spaced(symbol, Spaced("=", rest));
    assert GluesAfter(a, c) == GluesAfter(rest, c);
    var b := Tight("std", Tight("::", Spaced("string", a)));
    assert GluesAfter(Tight("::", Spaced("string", a)), c) == GluesAfter(a, c);
    assert GluesAfter(b, c) == GluesAfter(a, c);
    assert GluesAfter(Spaced("static", Spaced("const", b)), c) == GluesAfter(b, c);
  }

  lemma NameDefinitionLexes(i: nat, name: string, value: string)
    requires Spells(name, value)
    ensures Closed(NameDefinition(i, name), NameTokens(i, value))
  {
    var ls := StringDefinition(NameSymbol(i), End);
    SymbolsAreWords(i);
    StringDefinitionSeparated(NameSymbol(i), End);
    SpellingLexes(ls);
    QuotedLexes(name, value);
    StringDefinitionGlues(NameSymbol(i), End, '\"');
    LexesAppend(Spelling(ls), Plains(ls), Quoted(name), [Literal(value)]);
    SemicolonLexes(Spelling(ls) + Quoted(name), Plains(ls) + [Literal(value)]);
  }

  lemma SemicolonLexes(a: string, x: seq<Token>)
    requires Lexes(a, x) && Run(START, a).mode.AfterLiteral?
    ensures Closed(a + Line("", SEMICOLON), x + Plains(SEMICOLON))
  {
    Punctuators();
    LineLexes("", SEMICOLON);
    assert Line("", SEMICOLON)[0] == ';';
    LexesAppend(a, x, Line("", SEMICOLON), Plains(SEMICOLON));
  }

  lemma DataTailLexes(n: nat)
    ensures Closed(DataTail(n), Plains(Size(n)))
    ensures DataTail(n)[0] == ','
  {
    hide Run;
    var a, b := Tight(",", End), Tight(Decimal(n), Tight(")", SEMICOLON));
    SizeSeparated(n);
    LineLexes("", a);
    LineLexes("  ", b);
    NewLine(Line("  ", b), Plains(b));
    ClosedAppend(Line("", a), Plains(a), Line("  ", b) + "\n", Plains(b));
    assert Line("", a)[0] == ',';
  }

  lemma DataHeadLexes(i: nat)
    ensures Lexes(DataHead(i), Plains(StringDefinition(DataSymbol(i), STRING_CALL)))
    ensures !Extends(Run(START, DataHead(i)).mode, '\n') && !Extends(Run(START, DataHead(i)).mode, '\"')
  {
    var ls := StringDefinition(DataSymbol(i), STRING_CALL);
    SymbolsAreWords(i);
    CallSeparated();
    StringDefinitionSeparated(DataSymbol(i), STRING_CALL);
    SpellingLexes(ls);
    StringDefinitionGlues(DataSymbol(i), STRING_CALL, '\n');
    StringDefinitionGlues(DataSymbol(i), STRING_CALL, '\"');
  }

  lemma {:induction false} DataBodyStart(bytes: seq<Octet>)
    requires bytes != []
    ensures DataBody(bytes) != "" && DataBody(bytes)[0] == '\n'
    decreases |bytes|
  {
    if |bytes| > 1 {
      DataBodyStart(bytes[..|bytes| - 1]);
    }
  }

  lemma DataDefinitionLexes(i: nat, bytes: seq<Octet>)
    requires bytes != []
    ensures Closed(DataDefinition(i, bytes), DataTokens(i, Literals(Chunks(bytes)), |bytes|))
  {
    hide DataHead, DataBody, Chunks, Literals, Plains;
    var head := Plains(StringDefinition(DataSymbol(i), STRING_CALL));
    var literals := Literals(Chunks(bytes));
    DataThroughQuote(i, bytes);
    DataTailLexes(|bytes|);
    LexesAppend(DataHead(i) + DataBody(bytes) + "\"", head + literals, DataTail(|bytes|), Plains(Size(|bytes|)));
  }

  lemma DataThroughQuote(i: nat, bytes: seq<Octet>)
    requires bytes != []
    ensures var text := DataHead(i) + DataBody(bytes) + "\"";
            && Lexes(text, Plains(StringDefinition(DataSymbol(i), STRING_CALL)) + Literals(Chunks(bytes)))
            && Run(START, text).mode.AfterLiteral?
  {
    var head := Plains(StringDefinition(DataSymbol(i), STRING_CALL));
    DataHeadLexes(i);
    DataLexes(bytes);
    DataBodyStart(bytes);
    var body := DataBody(bytes) + "\"";
    assert body[0] == '\n';
    LexesAppend(DataHead(i), head, body, Literals(Chunks(bytes)));
    assert DataHead(i) + DataBody(bytes) + "\"" == DataHead(i) + body;
  }

  /** The same files, under the names that their printed names stand for. */
  predicate SpelledAs(files: seq<File>, values: seq<File>) {
    |values| == |files| &&
    forall i :: 0 <= i < |files| ==>
      values[i].contents == files[i].contents && Spells(files[i].name, values[i].name)
  }

  lemma ReadableSpelled(files: seq<File>)
    requires AllReadable(files)
    ensures AllBindable(files) && SpelledAs(files, files)
  {
    hide Spells;
    forall i | 0 <= i < |files|
      ensures Bindable(files[i]) && Spells(files[i].name, files[i].name)
    {
      assert Readable(files[i]);
      LegalSpells(files[i].name);
    }
  }

  lemma {:induction false} DefinitionsLexes(files: seq<File>, values: seq<File>)
    requires AllBindable(values) && SpelledAs(files, values)
    ensures Closed(Definitions(files), LexedTokens(values))
    decreases |files|
  {
    hide NameDefinition, DataDefinition, NameTokens, DataTokens, Spells, Closed;
    if files == [] {
      NothingLexes();
    } else {
      var n := |files|;
      var f, v := files[n - 1], values[n - 1];
      assert Bindable(v);
      DefinitionsLexes(files[..n - 1], values[..n - 1]);
      NameDefinitionLexes(n, f.name, v.name);
      DataDefinitionLexes(n, f.contents);
      ClosedAppend(Definitions(files[..n - 1]), LexedTokens(values[..n - 1]),
                   NameDefinition(n, f.name), NameTokens(n, v.name));
      ClosedAppend(Definitions(files[..n - 1]) + NameDefinition(n, f.name),
                   LexedTokens(values[..n - 1]) + NameTokens(n, v.name),
                   DataDefinition(n, f.contents), DataTokens(n, Literals(Chunks(f.contents)), |f.contents|));
    }
  }

  lemma NothingLexes()
    ensures Closed("", [])
  {
    Blanks("");
  }

  // ----- the rest -----

  lemma GuardIsWord()
    ensures IsDirectiveWord("TRANSLATION_FILES_H") && IsIdentifier("TRANSLATION_FILES_H")
  {
  }

  lemma DirectiveNames()
    ensures IsDirectiveWord("ifndef") && IsDirectiveWord("define") && IsDirectiveWord("include")
    ensures IsDirectiveWord("<string>") && IsDirectiveWord("endif") && IsDirectiveWord("/*") && IsDirectiveWord("*/")
  {
  }

  lemma DirectivesAreWords()
    ensures DirectiveWords(IFNDEF) && DirectiveWords(DEFINE) && DirectiveWords(INCLUDE) && DirectiveWords(ENDIF_WORDS)
  {
    hide IsDirectiveWord, IsIdentifier;
    GuardIsWord();
    DirectiveNames();
  }

  lemma PreambleLexes()
    ensures Closed(PREAMBLE, PREAMBLE_TOKENS)
  {
    hide Run, Closed, DirectiveLine, Texts, DirectiveWords;
    DirectivesAreWords();
    DirectiveLexes(IFNDEF);
    DirectiveLexes(DEFINE);
    DirectiveLexes(INCLUDE);
    var a, b, c := [Directive(Texts(IFNDEF))], [Directive(Texts(DEFINE))], [Directive(Texts(INCLUDE))];
    NewLine(DirectiveLine(DEFINE), b);
    NewLine(DirectiveLine(INCLUDE), c);
    ClosedAppend(DirectiveLine(IFNDEF), a, DirectiveLine(DEFINE) + "\n", b);
    ClosedAppend(DirectiveLine(IFNDEF) + (DirectiveLine(DEFINE) + "\n"), a + b, DirectiveLine(INCLUDE) + "\n", c);
    assert a + b + c == PREAMBLE_TOKENS;
  }

  lemma TableHeadLexes()
    ensures Closed(TABLE_HEAD, HEAD_TOKENS)
  {
    hide Run, Closed, Plains, Line;
    var a, b, c, d := TABLE_OPENS, PointerField("name"), PointerField("data"), ARRAY_OPENS;
    TableHeadSeparated();
    Names();
    PointerFieldSeparated("name");
    PointerFieldSeparated("data");
    LineLexes("", a);
    LineLexes("  ", b);
    LineLexes("  ", c);
    LineLexes("", d);
    ClosedAppendFour(Line("", a), Plains(a), Line("  ", b), Plains(b),
                     Line("  ", c), Plains(c), Line("", d), Plains(d));
  }

  lemma {:induction false} RowsLex(n: nat)
    ensures Closed(Rows(n), RowTokens(n))
  {
    if n == 0 {
      Blanks("");
    } else {
      RowsLex(n - 1);
      RowSeparated(n);
      LineLexes("  ", RowLine(n));
      ClosedAppend(Rows(n - 1), RowTokens(n - 1), Line("  ", RowLine(n)), Plains(RowLine(n)));
    }
  }

  lemma TableTailLexes()
    ensures Closed(TABLE_TAIL, TAIL_TOKENS)
  {
    TableTailSeparated();
    LineLexes("  ", SENTINEL);
    LineLexes("", TABLE_CLOSES);
    NewLine(Line("", TABLE_CLOSES), Plains(TABLE_CLOSES));
    ClosedAppend(Line("  ", SENTINEL), Plains(SENTINEL), Line("", TABLE_CLOSES) + "\n", Plains(TABLE_CLOSES));
  }

  /** One more line of fixed text. */
  lemma AddLine(a: string, x: seq<Token>, indent: string, ls: Lexemes)
    requires Closed(a, x) && IsBlank(indent) && Separated(ls)
    ensures Closed(a + Line(indent, ls), x + Plains(ls))
  {
    LineLexes(indent, ls);
    ClosedAppend(a, x, Line(indent, ls), Plains(ls));
  }

  lemma LookupHeadLexes()
    ensures Closed(LOOKUP_HEAD, LOOKUP_HEAD_TOKENS)
  {
    hide Run, Lexes, Plains, Line, Spelling;
    SignatureSeparated();
    OutParameterSeparated();
    LoopSeparated();
    CursorSeparated();
    SpellingLexes(SIGNATURE);
    var s, t := Spelling(SIGNATURE), Plains(SIGNATURE);
    AddLine(s, t, "", OUT_PARAMETER);
    s, t := s + Line("", OUT_PARAMETER), t + Plains(OUT_PARAMETER);
    AddLine(s, t, "  ", CURSOR_LINE);
    s, t := s + Line("  ", CURSOR_LINE), t + Plains(CURSOR_LINE);
    SpellingLexes(LOOP);
    Blanks("  ");
    NothingBefore("  ", Spelling(LOOP), Plains(LOOP));
    ClosedAppend(s, t, "  " + Spelling(LOOP), Plains(LOOP));
    AddLine(s + ("  " + Spelling(LOOP)), t + Plains(LOOP), "", LOOP_STEP);
  }

  lemma LookupBodyLexes()
    ensures Closed(LOOKUP_BODY, LOOKUP_BODY_TOKENS)
  {
    hide Run, Closed, Plains, Line;
    BodySeparated();
    ReturnsSeparated();
    LineLexes("    ", TEST);
    var s, t := Line("    ", TEST), Plains(TEST);
    AddLine(s, t, "      ", ASSIGNMENT);
    s, t := s + Line("      ", ASSIGNMENT), t + Plains(ASSIGNMENT);
    AddLine(s, t, "      ", FOUND);
    s, t := s + Line("      ", FOUND), t + Plains(FOUND);
    AddLine(s, t, "    ", BRACE);
    s, t := s + Line("    ", BRACE), t + Plains(BRACE);
    AddLine(s, t, "  ", BRACE);
    s, t := s + Line("  ", BRACE), t + Plains(BRACE);
    AddLine(s, t, "  ", NOT_FOUND);
    s, t := s + Line("  ", NOT_FOUND), t + Plains(NOT_FOUND);
    AddLine(s, t, "", BRACE);
  }

  lemma LookupLexes()
    ensures Closed(LOOKUP, LOOKUP_TOKENS)
  {
    hide Run, Closed;
    LookupHeadLexes();
    LookupBodyLexes();
    ClosedAppend(LOOKUP_HEAD, LOOKUP_HEAD_TOKENS, LOOKUP_BODY, LOOKUP_BODY_TOKENS);
  }

  lemma TableLexes(n: nat)
    ensures Closed(Table(n), TableTokens(n) + [ENDIF_TOKEN])
  {
    hide Run, Closed, Rows, RowTokens;
    TableHeadLexes();
    RowsLex(n);
    TableTailLexes();
    LookupLexes();
    NewLine(LOOKUP, LOOKUP_TOKENS);
    ClosedAppendFour(TABLE_HEAD, HEAD_TOKENS, Rows(n), RowTokens(n), TABLE_TAIL, TAIL_TOKENS,
                     LOOKUP + "\n", LOOKUP_TOKENS);
    EndifLexes();
    ClosedAppend(TABLE_HEAD + Rows(n) + TABLE_TAIL + (LOOKUP + "\n"), TableTokens(n), ENDIF, [ENDIF_TOKEN]);
  }

  lemma EndifLexes()
    ensures Closed(ENDIF, [ENDIF_TOKEN])
  {
    hide Closed, Run;
    DirectivesAreWords();
    DirectiveLexes(ENDIF_WORDS);
  }

  lemma ClosedAppendFour(a: string, x: seq<Token>, b: string, y: seq<Token>,
                         c: string, z: seq<Token>, d: string, w: seq<Token>)
    requires Closed(a, x) && Closed(b, y) && Closed(c, z) && Closed(d, w)
    ensures Closed(a + b + c + d, x + y + z + w)
  {
    ClosedAppend(a, x, b, y);
    ClosedAppend(a + b, x + y, c, z);
    ClosedAppend(a + b + c, x + y + z, d, w);
  }

  lemma HeaderLexes(files: seq<File>, values: seq<File>)
    requires AllBindable(values) && SpelledAs(files, values)
    ensures Closed(Header(files), PREAMBLE_TOKENS + LexedTokens(values) + (TableTokens(|files|) + [ENDIF_TOKEN]))
  {
    hide Run, Closed, Definitions, LexedTokens, Table, TableTokens, SpelledAs;
    PreambleLexes();
    DefinitionsLexes(files, values);
    TableLexes(|files|);
    ClosedAppend(PREAMBLE, PREAMBLE_TOKENS, Definitions(files), LexedTokens(values));
    ClosedAppend(PREAMBLE + Definitions(files), PREAMBLE_TOKENS + LexedTokens(values),
                 Table(|files|), TableTokens(|files|) + [ENDIF_TOKEN]);
  }
}
