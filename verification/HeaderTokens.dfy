/** The tokens of the whole header: what lexing and phase 6 turn the generated text into. */
module HeaderTokens {
  import opened Numerals
  import opened CppLexer
  import opened HeaderText
  import opened HeaderLexing
  import opened LiteralReading

  /** Names are printed as they are, so these three characters would not come back. */
  predicate Legal(name: string) { '\"' !in name && '\\' !in name && '\n' !in name }

  /** Arguments of a program are C strings. */
  predicate IsCString(s: string) { 0 as char !in s }

  predicate Bindable(f: File) { IsCString(f.name) && f.contents != [] }

  predicate AllBindable(files: seq<File>) {
    forall i :: 0 <= i < |files| ==> Bindable(files[i])
  }

  predicate Readable(f: File) { Legal(f.name) && Bindable(f) }

  predicate AllReadable(files: seq<File>) {
    forall i :: 0 <= i < |files| ==> Readable(files[i])
  }

  // ----- the tokens -----

  function NameTokens(i: nat, name: string): seq<Token> {
    Plains(StringDefinition(NameSymbol(i), End)) + [Literal(name)] + Plains(SEMICOLON)
  }

  function Size(n: nat): Lexemes { Tight(",", Tight(Decimal(n), Tight(")", SEMICOLON))) }

  function DataTokens(i: nat, literals: seq<Token>, n: nat): seq<Token> {
    Plains(StringDefinition(DataSymbol(i), STRING_CALL)) + literals + Plains(Size(n))
  }

  /** The definitions as they are lexed, with one literal for each line of data. */
  function LexedTokens(files: seq<File>): seq<Token>
    requires AllBindable(files)
  {
    if files == [] then []
    else
      var n := |files|;
      var f := files[n - 1];
      LexedTokens(files[..n - 1]) + NameTokens(n, f.name) + DataTokens(n, Literals(Chunks(f.contents)), |f.contents|)
  }

  /** The definitions after phase 6. */
  function DefinitionTokens(files: seq<File>): seq<Token> {
    if files == [] then []
    else
      var n := |files|;
      var f := files[n - 1];
      DefinitionTokens(files[..n - 1]) + NameTokens(n, f.name) + DataTokens(n, [Literal(f.contents)], |f.contents|)
  }

  const HEAD_TOKENS :=
    Plains(TABLE_OPENS) + Plains(PointerField("name")) + Plains(PointerField("data")) + Plains(ARRAY_OPENS)

  function RowTokens(n: nat): seq<Token> {
    if n == 0 then [] else RowTokens(n - 1) + Plains(RowLine(n))
  }

  const TAIL_TOKENS := Plains(SENTINEL) + Plains(TABLE_CLOSES)

  const LOOKUP_HEAD_TOKENS :=
    Plains(SIGNATURE) + Plains(OUT_PARAMETER) + Plains(CURSOR_LINE) + Plains(LOOP) + Plains(LOOP_STEP)

  const LOOKUP_BODY_TOKENS :=
    Plains(TEST) + Plains(ASSIGNMENT) + Plains(FOUND) + Plains(BRACE)
    + Plains(BRACE) + Plains(NOT_FOUND) + Plains(BRACE)

  const LOOKUP_TOKENS := LOOKUP_HEAD_TOKENS + LOOKUP_BODY_TOKENS

  const PREAMBLE_TOKENS := [Directive(Texts(IFNDEF)), Directive(Texts(DEFINE)), Directive(Texts(INCLUDE))]

  const ENDIF_TOKEN := Directive(Texts(ENDIF_WORDS))

  function TableTokens(n: nat): seq<Token> { HEAD_TOKENS + RowTokens(n) + TAIL_TOKENS + LOOKUP_TOKENS }

  // ----- fixed text -----

  lemma Keywords()
    ensures IsLexeme("static") && IsLexeme("const") && IsLexeme("struct") && IsLexeme("bool")
    ensures IsLexeme("std") && IsLexeme("string") && IsLexeme("for") && IsLexeme("if") && IsLexeme("return")
    ensures IsLexeme("true") && IsLexeme("false") && IsLexeme("NULL")
  {
  }

  lemma Names()
    ensures IsLexeme("embedded_file") && IsLexeme("embedded_files") && IsLexeme("name") && IsLexeme("data")
    ensures IsLexeme("p")
  {
  }

  lemma FunctionName()
    ensures IsLexeme("find_embedded_file")
  {
  }

  lemma Punctuators()
    ensures IsLexeme("::") && IsLexeme("->") && IsLexeme("++") && IsLexeme("==") && IsLexeme("!=")
    ensures IsLexeme("{") && IsLexeme("}") && IsLexeme("(") && IsLexeme(")") && IsLexeme("[") && IsLexeme("]")
    ensures IsLexeme(";") && IsLexeme(",") && IsLexeme("*") && IsLexeme("=") && IsLexeme("&")
  {
  }

  lemma SymbolIsWord(prefix: string, i: nat)
    requires IsWord(prefix)
    ensures IsLexeme(prefix + Decimal(i)) && IsWord(prefix + Decimal(i))
  {
    forall k | 0 <= k < |prefix + Decimal(i)|
      ensures IsWordChar((prefix + Decimal(i))[k])
    {
      if k >= |prefix| {
        assert IsDigit(Decimal(i)[k - |prefix|]);
      }
    }
  }

  lemma SymbolsAreWords(i: nat)
    ensures IsLexeme(NameSymbol(i)) && IsLexeme(DataSymbol(i))
    ensures IsWordChar(NameSymbol(i)[0]) && IsWordChar(DataSymbol(i)[0])
  {
    SymbolIsWord("translation_file_name_", i);
    SymbolIsWord("translation_file_data_", i);
  }

  lemma TableHeadSeparated()
    ensures Separated(TABLE_OPENS) && Separated(ARRAY_OPENS)
  {
    Keywords();
    Names();
    Punctuators();
  }

  lemma PointerFieldSeparated(name: string)
    requires IsLexeme(name) && IsWordChar(name[0])
    ensures Separated(PointerField(name))
  {
    Keywords();
    Punctuators();
    assert Separated(Tight(name, SEMICOLON));
    assert Separated(Spaced("string", Tight("*", Tight(name, SEMICOLON))));
    assert Separated(Tight("::", Spaced("string", Tight("*", Tight(name, SEMICOLON)))));
  }

  lemma TableTailSeparated()
    ensures Separated(SENTINEL) && Separated(TABLE_CLOSES)
  {
    Keywords();
    Punctuators();
  }

  lemma SignatureSeparated()
    ensures Separated(SIGNATURE) && EndsSpaced(SIGNATURE)
  {
    Keywords();
    Names();
    FunctionName();
    Punctuators();
  }

  lemma OutParameterSeparated()
    ensures Separated(OUT_PARAMETER)
  {
    Keywords();
    Names();
    Punctuators();
  }

  lemma LoopSeparated()
    ensures Separated(LOOP) && EndsSpaced(LOOP) && Separated(LOOP_STEP)
  {
    Keywords();
    Names();
    Punctuators();
  }

  lemma CursorSeparated()
    ensures Separated(CURSOR_LINE)
  {
    Keywords();
    Names();
    Punctuators();
  }

  lemma BodySeparated()
    ensures Separated(TEST) && Separated(ASSIGNMENT)
  {
    Keywords();
    Names();
    Punctuators();
  }

  lemma ReturnsSeparated()
    ensures Separated(FOUND) && Separated(NOT_FOUND) && Separated(BRACE)
  {
    Keywords();
    Punctuators();
  }

  lemma StringDefinitionSeparated(symbol: string, rest: Lexemes)
    requires IsLexeme(symbol) && Separated(rest)
    ensures Separated(StringDefinition(symbol, rest))
  {
    Keywords();
    Punctuators();
    var a := Spaced(symbol, Spaced("=", rest));
    assert Separated(a);
    var b := Tight("::", Spaced("string", a));
    assert Separated(b);
    assert Separated(Tight("std", b));
  }

  lemma CallSeparated()
    ensures Separated(STRING_CALL)
  {
    Keywords();
    Punctuators();
  }

  lemma RowSeparated(i: nat)
    ensures Separated(RowLine(i))
  {
    Punctuators();
    SymbolsAreWords(i);
    var a := Tight(DataSymbol(i), Tight("}", Tight(",", End)));
    assert Separated(a);
    var b := Tight(NameSymbol(i), Spaced(",", Tight("&", a)));
    assert Separated(b);
    assert Separated(Tight("&", b));
  }

  lemma SizeSeparated(n: nat)
    ensures Separated(Tight(",", End)) && Separated(Tight(Decimal(n), Tight(")", SEMICOLON)))
  {
    Punctuators();
    assert IsLexeme(Decimal(n));
  }
}
