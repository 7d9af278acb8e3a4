/** What the tokens of the generated header mean: its strings, its table, its lookup. */
module HeaderMeaning {
  import opened Numerals
  import opened CppLexer
  import opened CppPreprocessor
  import opened CppHeader
  import opened HeaderText
  import opened HeaderLexing
  import opened LiteralReading
  import opened HeaderTokens
  import opened HeaderComplete

  // ----- phase 6 -----

  lemma {:induction false} PlainsNoLiteral(ls: Lexemes)
    ensures NoLiteral(Plains(ls))
  {
    if !ls.End? {
      PlainsNoLiteral(ls.rest);
    }
  }

  lemma MergeLiterals(head: seq<Token>, values: seq<string>, tail: seq<Token>, rest: seq<Token>)
    requires NoLiteral(head) && NoLiteral(tail) && values != [] && tail != []
    ensures Concatenate(head + Literals(values) + tail + rest)
         == head + [Literal(Joined(values))] + tail + Concatenate(rest)
  {
    var vs := Literals(values);
    assert head + vs + tail + rest == head + (vs + (tail + rest));
    ConcatenatePlain(head, vs + (tail + rest));
    ConcatenateLiterals(values, tail + rest);
    ConcatenatePlain(tail, rest);
  }

  lemma MergeName(i: nat, name: string, rest: seq<Token>)
    ensures Concatenate(NameTokens(i, name) + rest) == NameTokens(i, name) + Concatenate(rest)
  {
    var head := Plains(StringDefinition(NameSymbol(i), End));
    PlainsNoLiteral(StringDefinition(NameSymbol(i), End));
    PlainsNoLiteral(SEMICOLON);
    MergeLiterals(head, [name], Plains(SEMICOLON), rest);
    assert Literals([name]) == [Literal(name)];
    assert [name][1..] == [] && Joined([name]) == name + "" == name;
  }

  lemma MergeData(i: nat, bytes: seq<Octet>, rest: seq<Token>)
    requires bytes != []
    ensures Concatenate(DataTokens(i, Literals(Chunks(bytes)), |bytes|) + rest)
         == DataTokens(i, [Literal(bytes)], |bytes|) + Concatenate(rest)
  {
    var head := StringDefinition(DataSymbol(i), STRING_CALL);
    PlainsNoLiteral(head);
    PlainsNoLiteral(Size(|bytes|));
    MergeLiterals(Plains(head), Chunks(bytes), Plains(Size(|bytes|)), rest);
  }

  lemma {:induction false} MergeDefinitions(files: seq<File>, rest: seq<Token>)
    requires AllBindable(files)
    ensures Concatenate(LexedTokens(files) + rest) == DefinitionTokens(files) + Concatenate(rest)
    decreases |files|
  {
    if files == [] {
      assert LexedTokens(files) + rest == rest;
      assert DefinitionTokens(files) + Concatenate(rest) == Concatenate(rest);
    } else {
      var n := |files|;
      var f := files[n - 1];
      assert Bindable(f);
      var name := NameTokens(n, f.name);
      var lexed := DataTokens(n, Literals(Chunks(f.contents)), |f.contents|);
      var merged := DataTokens(n, [Literal(f.contents)], |f.contents|);
      Regroup(LexedTokens(files[..n - 1]), name, lexed, rest);
      MergeDefinitions(files[..n - 1], name + (lexed + rest));
      MergeName(n, f.name, lexed + rest);
      MergeData(n, f.contents, rest);
      Regroup(DefinitionTokens(files[..n - 1]), name, merged, Concatenate(rest));
    }
  }

  lemma Regroup(a: seq<Token>, b: seq<Token>, c: seq<Token>, d: seq<Token>)
    ensures a + b + c + d == a + (b + (c + d))
  {
  }

  lemma {:induction false} RowTokensNoLiteral(n: nat)
    ensures NoLiteral(RowTokens(n))
  {
    if n > 0 {
      RowTokensNoLiteral(n - 1);
      PlainsNoLiteral(RowLine(n));
    }
  }

  lemma {:induction false} LexedNoDirective(files: seq<File>)
    requires AllBindable(files)
    ensures NoDirective(LexedTokens(files))
    decreases |files|
  {
    hide Chunks, Plains;
    if files != [] {
      var n := |files|;
      LexedNoDirective(files[..n - 1]);
      DataNoDirective(n, files[n - 1].contents);
      NameNoDirective(n, files[n - 1].name);
    }
  }

  lemma NameNoDirective(i: nat, name: string)
    ensures NoDirective(NameTokens(i, name))
  {
    PlainsNoLiteral(StringDefinition(NameSymbol(i), End));
    PlainsNoLiteral(SEMICOLON);
  }

  lemma DataNoDirective(i: nat, bytes: seq<Octet>)
    requires bytes != []
    ensures NoDirective(DataTokens(i, Literals(Chunks(bytes)), |bytes|))
  {
    hide Chunks, Plains;
    PlainsNoLiteral(StringDefinition(DataSymbol(i), STRING_CALL));
    PlainsNoLiteral(Size(|bytes|));
  }

  // ----- phase 4 -----

  const GUARD := "TRANSLATION_FILES_H"

  lemma GuardDirectives()
    ensures IsIfndef(Directive(Texts(IFNDEF))) && Texts(IFNDEF)[1] == GUARD
    ensures IsDefine(Directive(Texts(DEFINE))) && Texts(DEFINE)[1] == GUARD
    ensures IsIncludeString(Directive(Texts(INCLUDE))) && !IsDefine(Directive(Texts(INCLUDE)))
    ensures IsEndif(ENDIF_TOKEN)
  {
    hide IsIdentifier;
    GuardIsWord();
    var g := Tight(GUARD, End);
    assert Texts(g) == [GUARD];
    assert Texts(Tight("<string>", End)) == ["<string>"];
    assert "include"[0] != "define"[0];
    var end := Tight("*/", End);
    assert Texts(end) == ["*/"];
    assert Texts(Spaced(GUARD, end)) == [GUARD, "*/"];
    assert Texts(Spaced("/*", Spaced(GUARD, end))) == ["/*", GUARD, "*/"];
    assert Texts(ENDIF_WORDS)[1..] == ["/*", GUARD, "*/"];
    assert |GUARD| == 19 && |"*/"| == 2;
  }

  lemma GuardedTwoMore(b: Token, c: Token, z: seq<Token>, macros: set<string>, g: string)
    requires IsDefine(b) && b.words[1] == g && IsIncludeString(c) && !IsDefine(c) && NoDirective(z)
    ensures AllSimple([b] + ([c] + z))
    ensures Guarded([b] + ([c] + z), macros, false) == Some(Included(z, macros + {g}))
  {
    hide IsDefine, IsIncludeString;
    var inner := [b] + ([c] + z);
    assert inner[1..] == [c] + z && ([c] + z)[1..] == z;
    Simples(b, c);
    GuardedPlain(z, macros + {g});
    assert Guarded([c] + z, macros + {g}, false) == Some(Included(z, macros + {g}));
  }

  lemma Simples(b: Token, c: Token)
    requires IsDefine(b) && IsIncludeString(c)
    ensures b.Directive? && c.Directive? && IsSimple(b) && IsSimple(c)
  {
  }

  /** The printed guard, around any text: the text is there the first time, and nothing of it afterwards. */
  lemma GuardWorks(x: seq<Token>, y: seq<Token>, macros: set<string>)
    requires NoDirective(x) && NoDirective(y)
    ensures Preprocess(PREAMBLE_TOKENS + x + (y + [ENDIF_TOKEN]), macros)
         == if GUARD in macros then Some(Included([], macros)) else Some(Included(x + y, macros + {GUARD}))
  {
    hide IsIfndef, IsDefine, IsIncludeString, IsEndif, Texts, NoDirective, AllSimple, Guarded;
    GuardDirectives();
    var a, b, c := Directive(Texts(IFNDEF)), Directive(Texts(DEFINE)), Directive(Texts(INCLUDE));
    var t := PREAMBLE_TOKENS + x + (y + [ENDIF_TOKEN]);
    var inner := [b] + ([c] + (x + y));
    assert t == [a] + inner + [ENDIF_TOKEN];
    assert t[1..|t| - 1] == inner;
    BothUndirected(x, y);
    GuardedTwoMore(b, c, x + y, macros, GUARD);
  }

  lemma BothUndirected(x: seq<Token>, y: seq<Token>)
    requires NoDirective(x) && NoDirective(y)
    ensures NoDirective(x + y)
  {
  }

  lemma HeadNoLiteral()
    ensures NoLiteral(HEAD_TOKENS) && NoLiteral(TAIL_TOKENS)
  {
    PlainsNoLiteral(TABLE_OPENS);
    PlainsNoLiteral(PointerField("name"));
    PlainsNoLiteral(PointerField("data"));
    PlainsNoLiteral(ARRAY_OPENS);
    PlainsNoLiteral(SENTINEL);
    PlainsNoLiteral(TABLE_CLOSES);
  }

  lemma LookupNoLiteral()
    ensures NoLiteral(LOOKUP_HEAD_TOKENS) && NoLiteral(LOOKUP_BODY_TOKENS)
  {
    PlainsNoLiteral(SIGNATURE);
    PlainsNoLiteral(OUT_PARAMETER);
    PlainsNoLiteral(CURSOR_LINE);
    PlainsNoLiteral(LOOP);
    PlainsNoLiteral(LOOP_STEP);
    PlainsNoLiteral(TEST);
    PlainsNoLiteral(ASSIGNMENT);
    PlainsNoLiteral(FOUND);
    PlainsNoLiteral(BRACE);
    PlainsNoLiteral(NOT_FOUND);
  }

  lemma NoLiteralAppend(a: seq<Token>, b: seq<Token>)
    requires NoLiteral(a) && NoLiteral(b)
    ensures NoLiteral(a + b)
  {
  }

  lemma MergeNothing(t: seq<Token>)
    requires NoLiteral(t)
    ensures Concatenate(t) == t
  {
    ConcatenatePlain(t, []);
    assert t + [] == t;
  }

  lemma TableNoLiteral(n: nat)
    ensures NoLiteral(TableTokens(n))
  {
    HeadNoLiteral();
    LookupNoLiteral();
    RowTokensNoLiteral(n);
    NoLiteralAppend(HEAD_TOKENS, RowTokens(n));
    NoLiteralAppend(HEAD_TOKENS + RowTokens(n), TAIL_TOKENS);
    NoLiteralAppend(LOOKUP_HEAD_TOKENS, LOOKUP_BODY_TOKENS);
    NoLiteralAppend(HEAD_TOKENS + RowTokens(n) + TAIL_TOKENS, LOOKUP_TOKENS);
  }

  // ----- matching fixed text -----

  /** The line begins with the words of the pattern. */
  predicate Fits(ls: Lexemes, p: Pattern) {
    match p
    case Stop => true
    case Word(text, rest) => !ls.End? && ls.text == text && Fits(ls.rest, rest)
    case Any(rest) => !ls.End? && Fits(ls.rest, rest)
  }

  function Captured(ls: Lexemes, p: Pattern): seq<string>
    requires Fits(ls, p)
  {
    match p
    case Stop => []
    case Word(_, rest) => Captured(ls.rest, rest)
    case Any(rest) => [ls.text] + Captured(ls.rest, rest)
  }

  function Left(ls: Lexemes, p: Pattern): Lexemes
    requires Fits(ls, p)
  {
    if p.Stop? then ls else Left(ls.rest, p.rest)
  }

  lemma {:induction false} MatchLine(ls: Lexemes, p: Pattern, rest: seq<Token>)
    requires Fits(ls, p)
    ensures Match(Plains(ls) + rest, p) == Some((Captured(ls, p), Plains(Left(ls, p)) + rest))
  {
    if !p.Stop? {
      var t := Plains(ls) + rest;
      assert Plains(ls) == [Plain(ls.text)] + Plains(ls.rest);
      assert t[0] == Plain(ls.text);
      assert t[1..] == Plains(ls.rest) + rest;
      MatchLine(ls.rest, p.rest, rest);
    }
  }

  lemma MatchWhole(ls: Lexemes, p: Pattern, rest: seq<Token>)
    requires Fits(ls, p) && Left(ls, p) == End
    ensures Match(Plains(ls) + rest, p) == Some((Captured(ls, p), rest))
  {
    MatchLine(ls, p, rest);
    assert Plains(End) + rest == rest;
  }

  /** A line that fits, with one more word in front. */
  lemma FitsWord(text: string, ls: Lexemes, p: Pattern)
    requires Fits(ls, p)
    ensures var t, s, w := Tight(text, ls), Spaced(text, ls), Word(text, p);
            && Fits(t, w) && Captured(t, w) == Captured(ls, p) && Left(t, w) == Left(ls, p)
            && Fits(s, w) && Captured(s, w) == Captured(ls, p) && Left(s, w) == Left(ls, p)
  {
  }

  lemma FitsAny(text: string, ls: Lexemes, p: Pattern)
    requires Fits(ls, p)
    ensures var t, s, a := Tight(text, ls), Spaced(text, ls), Any(p);
            && Fits(t, a) && Captured(t, a) == [text] + Captured(ls, p) && Left(t, a) == Left(ls, p)
            && Fits(s, a) && Captured(s, a) == [text] + Captured(ls, p) && Left(s, a) == Left(ls, p)
  {
  }

  // ----- definitions -----

  lemma SymbolIsIdentifier(i: nat)
    ensures IsIdentifier(NameSymbol(i)) && IsIdentifier(DataSymbol(i))
  {
    SymbolIsWord("translation_file_name_", i);
    SymbolIsWord("translation_file_data_", i);
  }

  lemma SymbolsDiffer(i: nat, j: nat)
    ensures NameSymbol(i) != DataSymbol(j)
    ensures i != j ==> NameSymbol(i) != NameSymbol(j) && DataSymbol(i) != DataSymbol(j)
  {
    assert NameSymbol(i)[17] == 'n' && DataSymbol(j)[17] == 'd';
    assert NameSymbol(i)[22..] == Decimal(i) && NameSymbol(j)[22..] == Decimal(j);
    assert DataSymbol(i)[22..] == Decimal(i) && DataSymbol(j)[22..] == Decimal(j);
    if Decimal(i) == Decimal(j) {
      DecimalInjective(i, j);
    }
  }

  lemma DefinesFits(tail: Lexemes)
    ensures var ls := Spaced("static", Spaced("const", Tight("std", Tight("::", Spaced("string", tail)))));
            Fits(ls, DEFINES) && Left(ls, DEFINES) == tail
  {
    var l0, p0 := Spaced("string", tail), Word("string", Stop);
    FitsWord("string", tail, Stop);
    var l1, p1 := Tight("::", l0), Word("::", p0);
    FitsWord("::", l0, p0);
    var l2, p2 := Tight("std", l1), Word("std", p1);
    FitsWord("std", l1, p1);
    FitsWord("const", l2, p2);
    FitsWord("static", Spaced("const", l2), Word("const", p2));
  }

  lemma InitialFits(symbol: string, call: Lexemes)
    ensures var ls := Spaced(symbol, Spaced("=", call));
            Fits(ls, INITIAL) && Captured(ls, INITIAL) == [symbol] && Left(ls, INITIAL) == call
  {
    FitsWord("=", call, Stop);
    FitsAny(symbol, Spaced("=", call), Word("=", Stop));
  }

  /** Both kinds of definition begin alike. */
  lemma ReadHead(symbol: string, call: Lexemes, rest: seq<Token>)
    ensures var d := Match(Plains(StringDefinition(symbol, call)) + rest, DEFINES);
            d.Some? && Match(d.value.1, INITIAL) == Some(([symbol], Plains(call) + rest))
  {
    var tail := Spaced(symbol, Spaced("=", call));
    DefinesFits(tail);
    MatchLine(StringDefinition(symbol, call), DEFINES, rest);
    InitialFits(symbol, call);
    MatchLine(tail, INITIAL, rest);
  }

  lemma {:induction false} CStringWhole(s: string)
    requires IsCString(s)
    ensures UpToNull(s) == s
    decreases |s|
  {
    if s != "" {
      assert s[0] in s;
      CStringWhole(s[1..]);
    }
  }

  lemma ReadName(i: nat, name: string, rest: seq<Token>)
    requires IsCString(name)
    ensures ReadDefinition(NameTokens(i, name) + rest) == Some(Definition(NameSymbol(i), name, rest))
  {
    var end := Plains(SEMICOLON) + rest;
    var tail := [Literal(name)] + end;
    ReadHead(NameSymbol(i), End, tail);
    Regroup(Plains(StringDefinition(NameSymbol(i), End)), [Literal(name)], Plains(SEMICOLON), rest);
    assert Plains(End) + tail == tail;
    assert tail[1..] == end;
    SymbolIsIdentifier(i);
    ReadSemicolon(rest);
    CStringWhole(name);
  }

  lemma ReadSemicolon(rest: seq<Token>)
    ensures Match(Plains(SEMICOLON) + rest, Word(";", Stop)) == Some(([], rest))
  {
    MatchWhole(SEMICOLON, Word(";", Stop), rest);
  }

  lemma NumberOfDecimal(n: nat)
    ensures Number(Decimal(n)) == Some(n)
  {
    DecimalValue(n);
  }

  lemma ReadData(i: nat, bytes: seq<Octet>, rest: seq<Token>)
    ensures ReadDefinition(DataTokens(i, [Literal(bytes)], |bytes|) + rest)
         == Some(Definition(DataSymbol(i), bytes, rest))
  {
    hide Decimal, StringDefinition, DataSymbol, Match, Plains, Number, IsIdentifier;
    var n := |bytes|;
    var tail := [Literal(bytes)] + (Plains(Size(n)) + rest);
    ReadHead(DataSymbol(i), STRING_CALL, tail);
    var all := DataTokens(i, [Literal(bytes)], n) + rest;
    assert all == Plains(StringDefinition(DataSymbol(i), STRING_CALL)) + tail;
    SymbolIsIdentifier(i);
    ReadCall(tail);
    assert tail[1..] == Plains(Size(n)) + rest;
    ReadSize(n, rest);
    NumberOfDecimal(n);
    assert (bytes + [0 as char])[..n] == bytes;
  }

  lemma ReadCall(tail: seq<Token>)
    ensures Match(Plains(STRING_CALL) + tail, CALLS) == Some(([], tail))
    ensures Plains(STRING_CALL) != [] && (Plains(STRING_CALL) + tail)[0] == Plain("std")
  {
    MatchWhole(STRING_CALL, CALLS, tail);
  }

  lemma ReadSize(n: nat, rest: seq<Token>)
    ensures Match(Plains(Size(n)) + rest, SIZE) == Some(([Decimal(n)], rest))
  {
    var l0, p0 := Tight(")", SEMICOLON), Word(")", Word(";", Stop));
    FitsWord(";", End, Stop);
    FitsWord(")", SEMICOLON, Word(";", Stop));
    FitsAny(Decimal(n), l0, p0);
    FitsWord(",", Tight(Decimal(n), l0), Any(p0));
    assert [Decimal(n)] + [] == [Decimal(n)];
    MatchWhole(Size(n), SIZE, rest);
  }

  /** The strings that the first definitions bind. */
  function Known(files: seq<File>): Strings {
    if files == [] then map[]
    else
      var n := |files|;
      Known(files[..n - 1])[NameSymbol(n) := files[n - 1].name][DataSymbol(n) := files[n - 1].contents]
  }

  /** A symbol of a later file is not defined yet. */
  lemma {:induction false} KnownFresh(files: seq<File>, i: nat)
    requires i > |files|
    ensures NameSymbol(i) !in Known(files) && DataSymbol(i) !in Known(files)
    decreases |files|
  {
    if files != [] {
      KnownFresh(files[..|files| - 1], i);
      SymbolsDiffer(i, |files|);
      SymbolsDiffer(|files|, i);
    }
  }

  /** Symbol resolution: the symbols with number `i` stand for the name and the data of argument `i`. */
  lemma {:induction false} KnownHas(files: seq<File>, i: nat)
    requires 1 <= i <= |files|
    ensures NameSymbol(i) in Known(files) && Known(files)[NameSymbol(i)] == files[i - 1].name
    ensures DataSymbol(i) in Known(files) && Known(files)[DataSymbol(i)] == files[i - 1].contents
    decreases |files|
  {
    var n := |files|;
    SymbolsDiffer(i, n);
    SymbolsDiffer(n, i);
    if i < n {
      KnownHas(files[..n - 1], i);
    }
  }

  lemma {:induction false} ReadAllDefinitions(files: seq<File>, rest: seq<Token>)
    requires AllBindable(files)
    ensures ReadDefinitions(DefinitionTokens(files) + rest, map[]) == ReadDefinitions(rest, Known(files))
    decreases |files|
  {
    if files == [] {
      assert DefinitionTokens(files) + rest == rest;
    } else {
      var n := |files|;
      var f := files[n - 1];
      assert Bindable(f);
      var before := files[..n - 1];
      var name, data := NameTokens(n, f.name), DataTokens(n, [Literal(f.contents)], |f.contents|);
      Regroup(DefinitionTokens(before), name, data, rest);
      ReadAllDefinitions(before, name + (data + rest));
      KnownFresh(before, n);
      SymbolsDiffer(n, n);
      ReadNameNext(n, f.name, data + rest, Known(before));
      ReadDataNext(n, f.contents, rest, Known(before)[NameSymbol(n) := f.name]);
    }
  }

  lemma ReadNameNext(i: nat, name: string, rest: seq<Token>, known: Strings)
    requires IsCString(name) && NameSymbol(i) !in known
    ensures ReadDefinitions(NameTokens(i, name) + rest, known) == ReadDefinitions(rest, known[NameSymbol(i) := name])
  {
    ReadName(i, name, rest);
  }

  lemma ReadDataNext(i: nat, bytes: seq<Octet>, rest: seq<Token>, known: Strings)
    requires DataSymbol(i) !in known
    ensures ReadDefinitions(DataTokens(i, [Literal(bytes)], |bytes|) + rest, known)
         == ReadDefinitions(rest, known[DataSymbol(i) := bytes])
  {
    ReadData(i, bytes, rest);
  }

  // ----- the table -----

  const HEAD := TableHead("embedded_file", "name", "data", "embedded_files")

  lemma ReadHeadTokens(rest: seq<Token>)
    ensures Match(HEAD_TOKENS + rest, DEFINES).None?
    ensures ReadTableHead(HEAD_TOKENS + rest) == Some((HEAD, rest))
  {
    var b, c, d := Plains(PointerField("name")), Plains(PointerField("data")), Plains(ARRAY_OPENS);
    var t3 := d + rest;
    var t2 := c + t3;
    var t1 := b + t2;
    RegroupFour(Plains(TABLE_OPENS), b, c, d, rest);
    NotADefinition(t1);
    ReadStruct(t1);
    ReadField("name", t2);
    ReadField("data", t3);
    ReadArray(rest);
    HeadIdentifiers();
  }

  lemma RegroupFour(a: seq<Token>, b: seq<Token>, c: seq<Token>, d: seq<Token>, e: seq<Token>)
    ensures a + b + c + d + e == a + (b + (c + (d + e)))
  {
  }

  lemma HeadIdentifiers()
    ensures IsIdentifier("embedded_file") && IsIdentifier("embedded_files")
    ensures IsIdentifier("name") && IsIdentifier("data") && "name" != "data"
  {
    assert "name"[0] != "data"[0];
  }

  lemma ReadStruct(rest: seq<Token>)
    ensures Match(Plains(TABLE_OPENS) + rest, STRUCT) == Some((["embedded_file"], rest))
  {
    MatchWhole(TABLE_OPENS, STRUCT, rest);
    assert Captured(TABLE_OPENS, STRUCT) == ["embedded_file"];
  }

  lemma ReadField(name: string, rest: seq<Token>)
    ensures Match(Plains(PointerField(name)) + rest, FIELD) == Some(([name], rest))
  {
    var l0, p0 := Tight(name, SEMICOLON), Any(Word(";", Stop));
    FitsWord(";", End, Stop);
    FitsAny(name, SEMICOLON, Word(";", Stop));
    var l1, p1 := Tight("*", l0), Word("*", p0);
    FitsWord("*", l0, p0);
    var l2, p2 := Spaced("string", l1), Word("string", p1);
    FitsWord("string", l1, p1);
    var l3, p3 := Tight("::", l2), Word("::", p2);
    FitsWord("::", l2, p2);
    FitsWord("std", l3, p3);
    FitsWord("const", Tight("std", l3), Word("std", p3));
    assert [name] + [] == [name];
    MatchWhole(PointerField(name), FIELD, rest);
  }

  lemma ReadArray(rest: seq<Token>)
    ensures Match(Plains(ARRAY_OPENS) + rest, ARRAY) == Some((["embedded_files"], rest))
  {
    MatchWhole(ARRAY_OPENS, ARRAY, rest);
    assert Captured(ARRAY_OPENS, ARRAY) == ["embedded_files"];
  }

  lemma NotADefinition(rest: seq<Token>)
    ensures Match(Plains(TABLE_OPENS) + rest, DEFINES).None?
  {
    var t := Plains(TABLE_OPENS) + rest;
    var u := t[1..][1..];
    assert u == Plains(TABLE_OPENS.rest.rest) + rest;
    assert u[0] == Plain("struct") && |"struct"| != |"std"|;
    assert Match(u, Word("std", Word("::", Word("string", Stop)))).None?;
    assert t[1..][0] == Plain("const");
  }

  /** The table that the source asks for: a row for each argument, then the null row. */
  function TableRows(files: seq<File>): (r: seq<Row>)
    ensures |r| == |files|
    ensures forall i :: 0 <= i < |r| ==> r[i] == Row(Some(files[i].name), Some(files[i].contents))
  {
    seq(|files|, i requires 0 <= i < |files| => Row(Some(files[i].name), Some(files[i].contents)))
  }

  const NULL_ROW := Row(None, None)

  lemma RowPattern(i: nat, rest: seq<Token>)
    ensures Match(Plains(RowLine(i)) + rest, NULLS).None?
    ensures Match(Plains(RowLine(i)) + rest, ADDRESSES)
         == Some(([NameSymbol(i), DataSymbol(i)], [Plain(",")] + rest))
  {
    var t := Plains(RowLine(i)) + rest;
    assert Plains(RowLine(i)) == [Plain("{")] + ([Plain("&")] + Plains(RowLine(i).rest.rest));
    assert t[1] == Plain("&") && "&"[0] != "NULL"[0];
    assert Match(t[1..], NULLS.rest).None?;
    RowFits(i);
    MatchLine(RowLine(i), ADDRESSES, rest);
    assert Plains(Tight(",", End)) == [Plain(",")] + [] == [Plain(",")];
  }

  lemma RowFits(i: nat)
    ensures Fits(RowLine(i), ADDRESSES) && Left(RowLine(i), ADDRESSES) == Tight(",", End)
    ensures Captured(RowLine(i), ADDRESSES) == [NameSymbol(i), DataSymbol(i)]
  {
    var l0, p0 := Tight("}", Tight(",", End)), Word("}", Stop);
    FitsWord("}", Tight(",", End), Stop);
    var l1, p1 := Tight(DataSymbol(i), l0), Any(p0);
    FitsAny(DataSymbol(i), l0, p0);
    var l2, p2 := Tight("&", l1), Word("&", p1);
    FitsWord("&", l1, p1);
    var l3, p3 := Spaced(",", l2), Word(",", p2);
    FitsWord(",", l2, p2);
    var l4, p4 := Tight(NameSymbol(i), l3), Any(p3);
    FitsAny(NameSymbol(i), l3, p3);
    FitsWord("&", l4, p4);
    FitsWord("{", Tight("&", l4), Word("&", p4));
  }

  /** The symbols of the first `n` arguments are defined. */
  predicate RowsKnown(known: Strings, n: nat) {
    forall i :: 1 <= i <= n ==> NameSymbol(i) in known && DataSymbol(i) in known
  }

  /** The rows that point to them. */
  function KnownRows(known: Strings, n: nat): (r: seq<Row>)
    requires RowsKnown(known, n)
    ensures |r| == n
    ensures forall i :: 1 <= i <= n ==> r[i - 1] == Row(Some(known[NameSymbol(i)]), Some(known[DataSymbol(i)]))
  {
    seq(n, i requires 0 <= i < n => Row(Some(known[NameSymbol(i + 1)]), Some(known[DataSymbol(i + 1)])))
  }

  lemma KnownTable(files: seq<File>)
    ensures RowsKnown(Known(files), |files|) && KnownRows(Known(files), |files|) == TableRows(files)
  {
    hide NameSymbol, DataSymbol, Known;
    forall i | 1 <= i <= |files|
      ensures NameSymbol(i) in Known(files) && Known(files)[NameSymbol(i)] == files[i - 1].name
      ensures DataSymbol(i) in Known(files) && Known(files)[DataSymbol(i)] == files[i - 1].contents
    {
      KnownHas(files, i);
    }
    forall i | 0 <= i < |files|
      ensures KnownRows(Known(files), |files|)[i] == TableRows(files)[i]
    {
      assert KnownRows(Known(files), |files|)[(i + 1) - 1] == TableRows(files)[i];
    }
  }

  lemma ReadOneRow(known: Strings, i: nat, rest: seq<Token>)
    ensures ReadRow(Plains(RowLine(i)) + rest, known)
         == if NameSymbol(i) in known && DataSymbol(i) in known
            then Some((Row(Some(known[NameSymbol(i)]), Some(known[DataSymbol(i)])), [Plain(",")] + rest)) else None
  {
    RowPattern(i, rest);
    var words := [NameSymbol(i), DataSymbol(i)];
    assert At(words, 0) == NameSymbol(i) && At(words, 1) == DataSymbol(i);
  }

  /** The rows end with the null row, whatever was read before. */
  lemma ReadTail(known: Strings, rows: seq<Row>, rest: seq<Token>)
    ensures ReadRows(TAIL_TOKENS + rest, known, rows) == Some((rows + [NULL_ROW], rest))
  {
    var end := Plains(TABLE_CLOSES) + rest;
    assert TAIL_TOKENS + rest == Plains(SENTINEL) + end;
    MatchWhole(SENTINEL, NULLS, end);
    MatchWhole(TABLE_CLOSES, CLOSES, rest);
  }

  /** Rows that are followed by another row. */
  lemma ReadRowNext(known: Strings, i: nat, rows: seq<Row>, rest: seq<Token>)
    requires rest != [] && rest[0] == Plain("{")
    ensures ReadRows(Plains(RowLine(i)) + rest, known, rows)
         == if NameSymbol(i) in known && DataSymbol(i) in known
            then ReadRows(rest, known, rows + [Row(Some(known[NameSymbol(i)]), Some(known[DataSymbol(i)]))]) else None
  {
    hide RowLine, NameSymbol, DataSymbol;
    ReadOneRow(known, i, rest);
    var t := [Plain(",")] + rest;
    assert "{"[0] != "}"[0] && ","[0] != "}"[0];
    assert Match(t, CLOSES).None?;
    assert t[1..] == rest;
    assert Match(t, Word(",", Stop)) == Some(([], rest));
    assert Match(rest, CLOSES).None?;
  }

  lemma RowOpens(i: nat)
    ensures Plains(RowLine(i)) != [] && Plains(RowLine(i))[0] == Plain("{")
  {
  }

  /** The printed rows, read with any definitions: they fail just when a symbol is not defined. */
  lemma {:induction false} ReadAllRows(known: Strings, n: nat, rest: seq<Token>)
    requires rest != [] && rest[0] == Plain("{")
    ensures ReadRows(RowTokens(n) + rest, known, [])
         == if RowsKnown(known, n) then ReadRows(rest, known, KnownRows(known, n)) else None
  {
    hide ReadRows, RowLine, NameSymbol, DataSymbol;
    if n == 0 {
      assert RowTokens(n) + rest == rest;
      assert KnownRows(known, 0) == [];
    } else {
      var row := Plains(RowLine(n));
      assert RowTokens(n) + rest == RowTokens(n - 1) + (row + rest);
      RowOpens(n);
      ReadAllRows(known, n - 1, row + rest);
      if RowsKnown(known, n - 1) {
        ReadRowNext(known, n, KnownRows(known, n - 1), rest);
        if RowsKnown(known, n) {
          KnownRowsNext(known, n);
        }
      }
    }
  }

  lemma KnownRowsNext(known: Strings, n: nat)
    requires n > 0 && RowsKnown(known, n)
    ensures KnownRows(known, n)
         == KnownRows(known, n - 1) + [Row(Some(known[NameSymbol(n)]), Some(known[DataSymbol(n)]))]
  {
    hide NameSymbol, DataSymbol;
    forall i | 0 <= i < n - 1
      ensures KnownRows(known, n)[i] == KnownRows(known, n - 1)[i]
    {
      assert KnownRows(known, n)[(i + 1) - 1] == KnownRows(known, n - 1)[(i + 1) - 1];
    }
  }

  lemma ReadTable(known: Strings, n: nat, rest: seq<Token>)
    ensures ReadRows(RowTokens(n) + (TAIL_TOKENS + rest), known, [])
         == if RowsKnown(known, n) then Some((KnownRows(known, n) + [NULL_ROW], rest)) else None
  {
    hide NameSymbol, DataSymbol;
    assert (TAIL_TOKENS + rest)[0] == Plain("{");
    ReadAllRows(known, n, TAIL_TOKENS + rest);
    if RowsKnown(known, n) {
      ReadTail(known, KnownRows(known, n), rest);
    }
  }
}
