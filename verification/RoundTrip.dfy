/** The round trip of the whole header, for any names: exactly when it holds, and what goes wrong otherwise. */
module RoundTrip {
  import opened Numerals
  import opened CppLexer
  import opened CppPreprocessor
  import opened CppHeader
  import opened HeaderText
  import opened HeaderLexing
  import opened LiteralReading
  import opened HeaderTokens
  import opened HeaderComplete
  import opened HeaderMeaning
  import opened LookupReading
  import opened EndToEnd
  import opened Conditions

  // ----- the line of a name -----

  /** What was read since an opening quote begins with a literal, or is still inside it. */
  predicate BeginsInside(s: State) {
    if s.tokens != [] then s.tokens[0].Literal?
    else
      match s.mode
      case Between => false
      case InWord(_) => false
      case InPunctuator(_) => false
      case InDirective(_, _) => false
      case _ => true
  }

  lemma {:induction false} RunBeginsInside(s: State, text: string)
    requires BeginsInside(s)
    ensures BeginsInside(Run(s, text))
    decreases |text|
  {
    if text != "" {
      StepBeginsInside(s, text[0]);
      RunBeginsInside(Step(s, text[0]), text[1..]);
    }
  }

  lemma StepBeginsInside(s: State, c: char)
    requires BeginsInside(s)
    ensures BeginsInside(Step(s, c))
  {
  }

  /** The text that follows a name. */
  const NAME_ENDS := "\";\n"

  lemma NameEndsRun(s: State)
    ensures Run(s, NAME_ENDS) == Step(Step(Step(s, '\"'), ';'), '\n')
  {
    RunChar(s, '\"', ";\n");
    RunChar(Step(s, '\"'), ';', "\n");
    RunChar(Step(Step(s, '\"'), ';'), '\n', "");
    assert NAME_ENDS == "\"" + (";" + "\n") && ";\n" == ";" + "\n";
  }

  /** The end of the line adds nothing to any value, unless it leaves a literal open. */
  lemma NameEndsPayload(s: State)
    ensures var e := Run(s, NAME_ENDS);
            e.mode.Bad? || (e.mode.Between? && LiteralLengths(e.tokens) <= Payload(s))
  {
    hide Run, Step, Payload;
    NameEndsRun(s);
    QuoteStep(s);
    LineStep(Step(s, '\"'));
  }

  /** A quote closes the literal that is under way, goes unseen in a directive, or opens a literal. */
  lemma QuoteStep(s: State)
    ensures var q := Step(s, '\"');
            match q.mode
            case AfterLiteral(v) => LiteralLengths(q.tokens) + |v| == Payload(s)
            case InDirective(_, _) => LiteralLengths(q.tokens) == Payload(s)
            case InLiteral(_) => true
            case Bad => true
            case _ => false
  {
  }

  lemma LineStep(q: State)
    requires q.mode.AfterLiteral? || q.mode.InDirective? || q.mode.InLiteral? || q.mode.Bad?
    ensures var e := Step(Step(q, ';'), '\n');
            match q.mode
            case AfterLiteral(v) => e.mode.Between? && LiteralLengths(e.tokens) == LiteralLengths(q.tokens) + |v|
            case InDirective(_, _) => e.mode.Between? && LiteralLengths(e.tokens) == LiteralLengths(q.tokens)
            case _ => e.mode.Bad?
  {
    if q.mode.AfterLiteral? {
      var v := q.mode.value;
      LiteralLengthsAppend(q.tokens, Literal(v));
      LiteralLengthsAppend(q.tokens + [Literal(v)], Plain(";"));
    } else if q.mode.InDirective? {
      LiteralLengthsAppend(q.tokens, Directive(Ended(q.mode.words, q.mode.word + ";")));
    }
  }

  /** The whole line of a name that is not printable, from its opening quote on. */
  lemma NameLine(name: string)
    requires !Legal(name)
    ensures var e := Run(State([], InLiteral("")), name + NAME_ENDS);
            || e.mode.Bad?
            || (e.mode.Between? && e.tokens != [] && e.tokens[0].Literal? && LiteralLengths(e.tokens) < |name|)
  {
    var s := State([], InLiteral(""));
    RunAppend(s, name, NAME_ENDS);
    NameEndsPayload(Run(s, name));
    IllegalShrinks(name);
    RunBeginsInside(s, name + NAME_ENDS);
  }

  lemma NameHeadClosed(i: nat)
    ensures var ls := StringDefinition(NameSymbol(i), End); Closed(Spelling(ls), Plains(ls))
  {
    hide Run, Closed;
    var ls := StringDefinition(NameSymbol(i), End);
    SymbolsAreWords(i);
    StringDefinitionSeparated(NameSymbol(i), End);
    var a := Spaced(NameSymbol(i), Spaced("=", End));
    assert EndsSpaced(a);
    var b := Tight("::", Spaced("string", a));
    assert EndsSpaced(b);
    assert EndsSpaced(Spaced("const", Tight("std", b)));
    SpellingLexes(ls);
  }

  /** A name definition after complete tokens. */
  lemma NameLineLexes(a: string, x: seq<Token>, i: nat, name: string)
    requires Closed(a, x)
    ensures Run(START, a + NameDefinition(i, name))
         == Prepend(x + Plains(StringDefinition(NameSymbol(i), End)), Run(State([], InLiteral("")), name + NAME_ENDS))
  {
    hide Run, NameSymbol;
    var ls := StringDefinition(NameSymbol(i), End);
    var head, y := Spelling(ls), x + Plains(ls);
    NameHeadClosed(i);
    ClosedAppend(a, x, head, Plains(ls));
    NameText(a, head, name);
    RunAppend(START, a + head, "\"" + (name + NAME_ENDS));
    RunChar(State(y, Between), '\"', name + NAME_ENDS);
    assert State(y, InLiteral("")) == Prepend(y, State([], InLiteral(""))) by { assert y + [] == y; }
    RunPrepend(y, State([], InLiteral("")), name + NAME_ENDS);
  }

  lemma NameText(a: string, head: string, name: string)
    ensures a + (head + Quoted(name) + Line("", SEMICOLON)) == (a + head) + ("\"" + (name + NAME_ENDS))
  {
    assert Line("", SEMICOLON) == ";\n";
  }

  // ----- what follows the last literal -----

  function AfterLast(t: seq<Token>): seq<Token> {
    if NoLiteral(t) then t else AfterLast(t[1..])
  }

  lemma {:induction false} AfterLastAppend(a: seq<Token>, b: seq<Token>)
    requires !NoLiteral(b)
    ensures !NoLiteral(a + b) && AfterLast(a + b) == AfterLast(b)
    decreases |a|
  {
    if a == [] {
      assert a + b == b;
    } else {
      assert (a + b)[1..] == a[1..] + b;
      AfterLastAppend(a[1..], b);
    }
  }

  lemma AfterThis(v: string, b: seq<Token>)
    requires NoLiteral(b)
    ensures !NoLiteral([Literal(v)] + b) && AfterLast([Literal(v)] + b) == b
  {
    assert ([Literal(v)] + b)[0] == Literal(v);
    assert ([Literal(v)] + b)[1..] == b;
  }

  lemma AfterFirst(t: seq<Token>)
    requires t != []
    ensures NoLiteral(t) <==> t[0].Plain? && NoLiteral(t[1..])
    ensures !NoLiteral(t) ==> AfterLast(t) == AfterLast(t[1..])
  {
    assert t == [t[0]] + t[1..];
  }

  lemma {:induction false} ConcatenateAfter(t: seq<Token>)
    ensures NoLiteral(Concatenate(t)) <==> NoLiteral(t)
    ensures AfterLast(Concatenate(t)) == AfterLast(t)
    decreases |t|
  {
    if t != [] {
      var r := Concatenate(t[1..]);
      ConcatenateAfter(t[1..]);
      AfterFirst(t);
      var c := Concatenate(t);
      AfterFirst(c);
      if t[0].Literal? && r != [] && r[0].Literal? {
        AfterFirst(r);
        assert c[1..] == r[1..];
      } else {
        assert c[1..] == r;
        if NoLiteral(t) {
          MergeNothing(t);
        }
      }
    }
  }

  // ----- what the reader can have consumed -----

  /** A pattern takes no literals. */
  lemma {:induction false} MatchKeeps(t: seq<Token>, p: Pattern)
    requires Match(t, p).Some?
    ensures var r := Match(t, p).value.1;
            (NoLiteral(t) <==> NoLiteral(r)) && (!NoLiteral(t) ==> AfterLast(t) == AfterLast(r))
  {
    if !p.Stop? {
      AfterFirst(t);
      MatchKeeps(t[1..], p.rest);
    }
  }

  /** The end of a definition: a semicolon, or a size and a semicolon. */
  predicate EndsDefinition(t: seq<Token>, rest: seq<Token>) {
    t != [] && (t[0] == Plain(";") || (t[0] == Plain(",") && |t| >= 4)) &&
    rest == if t[0] == Plain(";") then t[1..] else t[4..]
  }

  lemma SemicolonEnds(t: seq<Token>)
    requires Match(t, Word(";", Stop)).Some?
    ensures EndsDefinition(t, Match(t, Word(";", Stop)).value.1)
  {
  }

  lemma SizeEnds(t: seq<Token>)
    requires Match(t, SIZE).Some?
    ensures EndsDefinition(t, Match(t, SIZE).value.1)
  {
    var p1 := Any(Word(")", Word(";", Stop)));
    var m1 := Match(t[1..], p1);
    assert m1.Some? && m1.value.1 == Match(t, SIZE).value.1;
    var t2 := t[1..][1..];
    var m2 := Match(t2, Word(")", Word(";", Stop)));
    assert m2.Some? && m2.value.1 == m1.value.1;
    var m3 := Match(t2[1..], Word(";", Stop));
    assert m3.Some? && m3.value.1 == m2.value.1;
    SemicolonEnds(t2[1..]);
    assert m3.value.1 == t2[1..][1..];
    assert t2[1..][1..] == t[4..];
    assert t[0] == Plain(",") && ","[0] != ";"[0];
  }

  /** What a literal leaves behind it. */
  lemma LiteralThen(t: seq<Token>, rest: seq<Token>)
    requires t != [] && t[0].Literal? && EndsDefinition(t[1..], rest)
    requires NoLiteral(t[1..]) <==> NoLiteral(rest)
    requires !NoLiteral(t[1..]) ==> AfterLast(t[1..]) == AfterLast(rest)
    ensures !NoLiteral(t)
    ensures if NoLiteral(rest) then EndsDefinition(AfterLast(t), rest) else AfterLast(t) == AfterLast(rest)
  {
    AfterFirst(t);
  }

  /** A definition takes exactly one literal. */
  lemma DefinitionKeeps(t: seq<Token>)
    requires ReadDefinition(t).Some?
    ensures var rest := ReadDefinition(t).value.rest;
            && !NoLiteral(t)
            && if NoLiteral(rest) then EndsDefinition(AfterLast(t), rest) else AfterLast(t) == AfterLast(rest)
  {
    hide Match, NoLiteral, AfterLast, EndsDefinition, Number, FirstChars, IsIdentifier, UpToNull;
    var d := Match(t, DEFINES);
    MatchKeeps(t, DEFINES);
    MatchKeeps(d.value.1, INITIAL);
    var u := Match(d.value.1, INITIAL).value.1;
    if u[0].Literal? {
      MatchKeeps(u[1..], Word(";", Stop));
      SemicolonEnds(u[1..]);
      LiteralThen(u, ReadDefinition(t).value.rest);
    } else {
      MatchKeeps(u, CALLS);
      var c := Match(u, CALLS).value.1;
      MatchKeeps(c[1..], SIZE);
      SizeEnds(c[1..]);
      LiteralThen(c, ReadDefinition(t).value.rest);
    }
  }

  /** Definitions that take all literals end where the last of them ends. */
  lemma {:induction false} DefinitionsEnd(t: seq<Token>, known: Strings)
    requires ReadDefinitions(t, known).Some?
    requires NoLiteral(ReadDefinitions(t, known).value.1) && !NoLiteral(t)
    ensures EndsDefinition(AfterLast(t), ReadDefinitions(t, known).value.1)
    decreases |t|
  {
    hide ReadDefinition, AfterLast, EndsDefinition, NoLiteral;
    var d := ReadDefinition(t).value;
    DefinitionKeeps(t);
    if NoLiteral(d.rest) {
      if Match(d.rest, DEFINES).Some? {
        DefinitionKeeps(d.rest);
      }
    } else {
      DefinitionsEnd(d.rest, known[d.symbol := d.value]);
    }
  }

  /** What is defined stays defined. */
  lemma {:induction false} DefinitionsGrow(t: seq<Token>, known: Strings, symbol: string)
    requires ReadDefinitions(t, known).Some? && symbol in known
    ensures var all := ReadDefinitions(t, known).value.0; symbol in all && all[symbol] == known[symbol]
    decreases |t|
  {
    hide ReadDefinition, Match;
    if Match(t, DEFINES).Some? {
      var d := ReadDefinition(t).value;
      DefinitionsGrow(d.rest, known[d.symbol := d.value], symbol);
    }
  }

  lemma HeadPlain(t: seq<Token>)
    requires ReadTableHead(t).Some?
    ensures NoLiteral(t) <==> NoLiteral(ReadTableHead(t).value.1)
  {
    hide Match, NoLiteral, IsIdentifier;
    var a := Match(t, STRUCT);
    MatchKeeps(t, STRUCT);
    var b := Match(a.value.1, FIELD);
    MatchKeeps(a.value.1, FIELD);
    var c := Match(b.value.1, FIELD);
    MatchKeeps(b.value.1, FIELD);
    MatchKeeps(c.value.1, ARRAY);
  }

  lemma RowPlain(t: seq<Token>, known: Strings)
    requires ReadRow(t, known).Some?
    ensures NoLiteral(t) <==> NoLiteral(ReadRow(t, known).value.1)
  {
    hide Match, NoLiteral;
    if Match(t, NULLS).Some? {
      MatchKeeps(t, NULLS);
    } else {
      MatchKeeps(t, ADDRESSES);
    }
  }

  lemma {:induction false} RowsPlain(t: seq<Token>, known: Strings, rows: seq<Row>)
    requires ReadRows(t, known, rows).Some?
    ensures NoLiteral(t) <==> NoLiteral(ReadRows(t, known, rows).value.1)
    decreases |t|
  {
    hide Match, NoLiteral, ReadRow;
    var r := ReadRow(t, known).value;
    RowPlain(t, known);
    var all := rows + [r.0];
    if Match(r.1, CLOSES).Some? {
      MatchKeeps(r.1, CLOSES);
    } else {
      var comma := Match(r.1, Word(",", Stop)).value;
      MatchKeeps(r.1, Word(",", Stop));
      if Match(comma.1, CLOSES).Some? {
        MatchKeeps(comma.1, CLOSES);
      } else {
        RowsPlain(comma.1, known, all);
      }
    }
  }

  lemma LoopHeadPlain(t: seq<Token>, h: TableHead)
    requires ReadLoopHead(t, h).Some?
    ensures NoLiteral(t) <==> NoLiteral(ReadLoopHead(t, h).value.1)
  {
    hide Match, NoLiteral, LoopHeadOf;
    var f := Match(t, FUNCTION);
    MatchKeeps(t, FUNCTION);
    var o := Match(f.value.1, RESULT);
    MatchKeeps(f.value.1, RESULT);
    var c := Match(o.value.1, CURSOR);
    MatchKeeps(o.value.1, CURSOR);
    var l := Match(c.value.1, FOR);
    MatchKeeps(c.value.1, FOR);
    MatchKeeps(l.value.1, WHILE);
  }

  lemma LoopBodyPlain(t: seq<Token>, h: TableHead, l: LoopHead)
    requires ReadLoopBody(t, h, l).Some?
    ensures NoLiteral(t)
  {
    hide Match, WalkOf;
    var i := Match(t, IF);
    MatchKeeps(t, IF);
    var a := Match(i.value.1, ASSIGN);
    MatchKeeps(i.value.1, ASSIGN);
    var r := Match(a.value.1, RETURN);
    MatchKeeps(a.value.1, RETURN);
    var b1 := Match(r.value.1, CLOSE);
    MatchKeeps(r.value.1, CLOSE);
    var b2 := Match(b1.value.1, CLOSE);
    MatchKeeps(b1.value.1, CLOSE);
    var e := Match(b2.value.1, RETURN);
    MatchKeeps(b2.value.1, RETURN);
    MatchKeeps(e.value.1, CLOSE);
  }

  /** A table and a function that are read to the end of the text hold no literal. */
  lemma ProgramPlain(t: seq<Token>, known: Strings)
    requires ReadProgram(t, known).Some?
    ensures NoLiteral(t)
  {
    hide NoLiteral, ReadTableHead, ReadRows, ReadLoopHead, ReadLoopBody;
    var h := ReadTableHead(t).value;
    HeadPlain(t);
    var r := ReadRows(h.1, known, []).value;
    RowsPlain(h.1, known, []);
    var l := ReadLoopHead(r.1, h.0).value;
    LoopHeadPlain(r.1, h.0);
    LoopBodyPlain(l.1, h.0, l.0);
  }

  lemma SizeTokens(size: nat)
    ensures var t := Plains(Size(size)); |t| == 4 && t[0] == Plain(",")
  {
    hide Decimal;
    var end := Tight(")", SEMICOLON);
    assert |Plains(SEMICOLON)| == 1;
    assert |Plains(end)| == 2;
  }

  /**
    A text whose last literal is followed by the size of its definition and by the printed table: if it
    reads at all, then the table that was read is the printed one.
   */
  lemma ReadsPrintedTable(t: seq<Token>, size: nat, n: nat)
    requires !NoLiteral(t) && AfterLast(t) == Plains(Size(size)) + TableTokens(n)
    requires ReadTokens(t).Some?
    ensures ReadDefinitions(t, map[]).Some? && ReadDefinitions(t, map[]).value.1 == TableTokens(n)
  {
    hide ReadDefinitions, ReadProgram, TableTokens, AfterLast, NoLiteral, Decimal;
    var d := ReadDefinitions(t, map[]).value;
    ProgramPlain(d.1, d.0);
    DefinitionsEnd(t, map[]);
    var tail := Plains(Size(size));
    SizeTokens(size);
    assert ","[0] != ";"[0];
    assert (tail + TableTokens(n))[4..] == TableTokens(n);
  }

  // ----- a name that is not printable -----

  lemma {:induction false} LiteralLengthsFirst(t: Token, x: seq<Token>)
    ensures LiteralLengths([t] + x) == (if t.Literal? then |t.value| else 0) + LiteralLengths(x)
    decreases |x|
  {
    if x == [] {
      assert [] + [t] == [t] + x;
      LiteralLengthsAppend([], t);
    } else {
      var n := |x| - 1;
      LiteralLengthsFirst(t, x[..n]);
      assert x == x[..n] + [x[n]] && [t] + x == ([t] + x[..n]) + [x[n]];
      LiteralLengthsAppend(x[..n], x[n]);
      LiteralLengthsAppend([t] + x[..n], x[n]);
    }
  }

  /** The literals at the front, joined, are no longer than all literals there. */
  lemma {:induction false} FrontJoined(x: seq<Token>, b: seq<Token>)
    requires x != [] && x[0].Literal? && b != [] && b[0].Plain?
    ensures var c := Concatenate(x + b); c != [] && c[0].Literal? && |c[0].value| <= LiteralLengths(x)
    decreases |x|
  {
    assert x == [x[0]] + x[1..];
    LiteralLengthsFirst(x[0], x[1..]);
    assert (x + b)[1..] == x[1..] + b;
    if x[1..] != [] && x[1].Literal? {
      FrontJoined(x[1..], b);
    }
  }

  lemma {:induction false} UpToNullShorter(s: string)
    ensures |UpToNull(s)| <= |s|
    decreases |s|
  {
    if s != "" && s[0] != 0 as char {
      UpToNullShorter(s[1..]);
    }
  }

  /** What the symbol of the name is bound to in the end. */
  lemma NameBound(i: nat, v: string, rest: seq<Token>, known: Strings)
    requires var t := Plains(StringDefinition(NameSymbol(i), End)) + ([Literal(v)] + rest);
             ReadDefinitions(t, known).Some?
    ensures var t := Plains(StringDefinition(NameSymbol(i), End)) + ([Literal(v)] + rest);
            var all := ReadDefinitions(t, known).value.0;
            NameSymbol(i) in all && all[NameSymbol(i)] == UpToNull(v)
  {
    hide StringDefinition, NameSymbol, Plains, IsIdentifier, UpToNull;
    var tail := [Literal(v)] + rest;
    var t := Plains(StringDefinition(NameSymbol(i), End)) + tail;
    ReadHead(NameSymbol(i), End, tail);
    assert Plains(End) == [] by { NoPlains(); }
    assert Plains(End) + tail == tail;
    var d := ReadDefinition(t).value;
    assert d.symbol == NameSymbol(i) && d.value == UpToNull(v);
    DefinitionsGrow(d.rest, known[d.symbol := d.value], NameSymbol(i));
  }

  lemma NoPlains()
    ensures Plains(End) == []
  {
  }

  /** The header up to the last name, whose line ends it; then its data; then the table. */
  lemma LastLines(files: seq<File>)
    requires files != [] && files[|files| - 1].contents != []
    ensures var n := |files|; var f := files[n - 1];
            var before := PREAMBLE + (Definitions(files[..n - 1]) + NameDefinition(n, f.name));
            var s, e := Run(START, before), Run(START, Header(files));
            || e.mode.Bad?
            || (&& s.mode.Between? && e.mode.Between?
                && e.tokens == s.tokens + DataTokens(n, Literals(Chunks(f.contents)), |f.contents|)
                               + (TableTokens(n) + [ENDIF_TOKEN]))
  {
    hide Run, Definitions, NameDefinition, DataDefinition, Table, TableTokens, DataTokens, Chunks, Literals;
    var n := |files|;
    var f := files[n - 1];
    var earlier, name := Definitions(files[..n - 1]), NameDefinition(n, f.name);
    var data := DataDefinition(n, f.contents);
    var before := PREAMBLE + (earlier + name);
    var s := Run(START, before);
    DefinitionsLast(files);
    Nested(PREAMBLE, earlier, name, data, Table(n));
    NameEndsLine(PREAMBLE, earlier, n, f.name);
    LineEnds(before);
    if s.mode.Between? {
      var x := DataTokens(n, Literals(Chunks(f.contents)), |f.contents|);
      DataDefinitionLexes(n, f.contents);
      TableLexes(n);
      ClosedAppend(before, s.tokens, data, x);
      ClosedAppend(before + data, s.tokens + x, Table(n), TableTokens(n) + [ENDIF_TOKEN]);
    } else {
      RunAppend(START, before, data + Table(n));
      BadForever(s.tokens, data + Table(n));
    }
  }

  lemma DefinitionsLast(files: seq<File>)
    requires files != []
    ensures var n := |files|; var f := files[n - 1];
            Definitions(files)
              == Definitions(files[..n - 1]) + NameDefinition(n, f.name) + DataDefinition(n, f.contents)
  {
  }

  lemma Nested(a: string, b: string, c: string, d: string, e: string)
    ensures a + (b + c + d) + e == a + (b + c) + d + e
    ensures a + (b + c) + d + e == a + (b + c) + (d + e)
  {
  }

  /** So the last literal of the whole header is followed by the printed table. */
  lemma HeaderAfterLast(files: seq<File>)
    requires files != [] && files[|files| - 1].contents != [] && !Run(START, Header(files)).mode.Bad?
    ensures var t := Concatenate(Undirected(Run(START, Header(files)).tokens));
            && !NoLiteral(t)
            && AfterLast(t) == Plains(Size(|files[|files| - 1].contents|)) + TableTokens(|files|)
  {
    hide Run, Header, NoLiteral, AfterLast, TableTokens, Concatenate, NameDefinition, DataTokens, Undirected, Chunks;
    var n := |files|;
    var f := files[n - 1];
    LastLines(files);
    var before := PREAMBLE + (Definitions(files[..n - 1]) + NameDefinition(n, f.name));
    var x := Run(START, before).tokens;
    LastUndirected(x, n, f.contents);
    LastLiteral(Undirected(x), n, f.contents);
    ConcatenateAfter(Undirected(Run(START, Header(files)).tokens));
  }

  lemma LastUndirected(x: seq<Token>, n: nat, bytes: seq<Octet>)
    requires bytes != []
    ensures var data := DataTokens(n, Literals(Chunks(bytes)), |bytes|);
            Undirected(x + data + (TableTokens(n) + [ENDIF_TOKEN])) == Undirected(x) + data + TableTokens(n)
  {
    hide DataTokens, TableTokens, Chunks, Undirected, NoDirective, Texts;
    var data := DataTokens(n, Literals(Chunks(bytes)), |bytes|);
    UndirectedAppend(x + data, TableTokens(n) + [ENDIF_TOKEN]);
    UndirectedAppend(x, data);
    UndirectedAppend(TableTokens(n), [ENDIF_TOKEN]);
    DataNoDirective(n, bytes);
    UndirectedSame(data);
    TableNoDirective(n);
    UndirectedSame(TableTokens(n));
    OnlyDirective(ENDIF_TOKEN);
    assert TableTokens(n) + [] == TableTokens(n);
  }

  lemma TableNoDirective(n: nat)
    ensures NoDirective(TableTokens(n))
  {
    hide TableTokens;
    TableNoLiteral(n);
  }

  lemma LastLiteral(x: seq<Token>, n: nat, bytes: seq<Octet>)
    requires bytes != []
    ensures var t := x + DataTokens(n, Literals(Chunks(bytes)), |bytes|) + TableTokens(n);
            !NoLiteral(t) && AfterLast(t) == Plains(Size(|bytes|)) + TableTokens(n)
  {
    hide AfterLast, TableTokens, NoLiteral, Chunks;
    var literals := Literals(Chunks(bytes));
    var last := |literals| - 1;
    var front := x + Plains(StringDefinition(DataSymbol(n), STRING_CALL)) + literals[..last];
    var tail := Plains(Size(|bytes|)) + TableTokens(n);
    PlainTail(|bytes|, n);
    AfterThis(literals[last].value, tail);
    AfterLastAppend(front, [literals[last]] + tail);
    assert literals == literals[..last] + [literals[last]];
    assert x + DataTokens(n, literals, |bytes|) + TableTokens(n) == front + ([literals[last]] + tail);
  }

  lemma PlainTail(size: nat, n: nat)
    ensures NoLiteral(Plains(Size(size)) + TableTokens(n))
  {
    hide NoLiteral, TableTokens;
    PlainsNoLiteral(Size(size));
    TableNoLiteral(n);
    NoLiteralAppend(Plains(Size(size)), TableTokens(n));
  }

  lemma BeforeName(files: seq<File>, k: nat)
    requires k < |files| && AllReadable(files[..k])
    ensures AllBindable(files[..k])
    ensures Closed(PREAMBLE + Definitions(files[..k]), PREAMBLE_TOKENS + LexedTokens(files[..k]))
  {
    hide Run, Closed, Definitions, LexedTokens, SpelledAs;
    ReadableSpelled(files[..k]);
    PreambleLexes();
    DefinitionsLexes(files[..k], files[..k]);
    ClosedAppend(PREAMBLE, PREAMBLE_TOKENS, Definitions(files[..k]), LexedTokens(files[..k]));
  }

  lemma RunFrom(y: seq<Token>, text: string)
    ensures Run(State(y, Between), text) == Prepend(y, Run(START, text))
  {
    RunPrepend(y, START, text);
    assert y + [] == y;
  }

  lemma StaticFirst(i: nat, bytes: seq<Octet>, rest: string)
    ensures var t := Run(START, DataDefinition(i, bytes) + rest).tokens; t != [] && t[0].Plain?
  {
    hide Run;
    Keywords();
    SpacedLexes("static");
    var text := DataDefinition(i, bytes) + rest;
    StaticText(i, bytes, rest);
    RunAppend(START, "static" + " ", text[7..]);
    RunFrom([Plain("static")], text[7..]);
  }

  lemma StaticText(i: nat, bytes: seq<Octet>, rest: string)
    ensures var text := DataDefinition(i, bytes) + rest; |text| >= 7 && text == ("static" + " ") + text[7..]
  {
    hide DataBody, DataTail, DataSymbol;
    var more := StringDefinition(DataSymbol(i), STRING_CALL).rest;
    assert DataHead(i) == "static" + " " + Spelling(more);
    StartsWith("static" + " ", Spelling(more), DataBody(bytes) + "\"" + DataTail(|bytes|), rest);
    assert DataDefinition(i, bytes) == DataHead(i) + (DataBody(bytes) + "\"" + DataTail(|bytes|));
  }

  lemma StartsWith(a: string, b: string, c: string, d: string)
    ensures var text := (a + b) + c + d; |text| >= |a| && text == a + text[|a|..]
  {
  }

  lemma UndirectedFirst(t: seq<Token>)
    requires t != [] && !t[0].Directive?
    ensures Undirected(t) != [] && Undirected(t)[0] == t[0]
  {
  }

  lemma {:induction false} UndirectedLengths(t: seq<Token>)
    ensures LiteralLengths(Undirected(t)) == LiteralLengths(t)
    decreases |t|
  {
    if t != [] {
      UndirectedLengths(t[1..]);
      assert t == [t[0]] + t[1..];
      LiteralLengthsFirst(t[0], t[1..]);
      if !t[0].Directive? {
        LiteralLengthsFirst(t[0], Undirected(t[1..]));
      } else {
        assert [] + Undirected(t[1..]) == Undirected(t[1..]);
      }
    }
  }

  lemma UndirectedIllegal(files: seq<File>, i: nat, x: seq<Token>, z: seq<Token>)
    requires AllBindable(files)
    ensures var head := Plains(StringDefinition(NameSymbol(i), End));
            Undirected((PREAMBLE_TOKENS + LexedTokens(files) + head + x) + z)
            == (LexedTokens(files) + head + Undirected(x)) + Undirected(z)
  {
    hide LexedTokens, NameSymbol, Undirected, Texts, NoDirective;
    var head := Plains(StringDefinition(NameSymbol(i), End));
    var lexed := LexedTokens(files);
    UndirectedAppend(PREAMBLE_TOKENS + lexed + head + x, z);
    UndirectedAppend(PREAMBLE_TOKENS + lexed + head, x);
    UndirectedAppend(PREAMBLE_TOKENS + lexed, head);
    UndirectedAppend(PREAMBLE_TOKENS, lexed);
    PreambleUndirected();
    LexedNoDirective(files);
    UndirectedSame(lexed);
    HeadNoDirective(i);
    UndirectedSame(head);
    assert [] + lexed == lexed;
  }

  lemma PreambleUndirected()
    ensures Undirected(PREAMBLE_TOKENS) == []
  {
    hide Texts;
    var t := PREAMBLE_TOKENS;
    assert t[1..][1..][1..] == [];
    assert Undirected(t[1..][1..]) == [];
    assert Undirected(t[1..]) == [];
  }

  lemma HeadNoDirective(i: nat)
    ensures NoDirective(Plains(StringDefinition(NameSymbol(i), End)))
  {
    PlainsNoLiteral(StringDefinition(NameSymbol(i), End));
  }

  lemma MergeIllegal(files: seq<File>, i: nat, x: seq<Token>, z: seq<Token>)
    requires AllBindable(files)
    ensures var head := Plains(StringDefinition(NameSymbol(i), End));
            Concatenate((LexedTokens(files) + head + x) + z) == DefinitionTokens(files) + (head + Concatenate(x + z))
  {
    hide LexedTokens, DefinitionTokens, Concatenate, NameSymbol;
    var head := Plains(StringDefinition(NameSymbol(i), End));
    Regroup(LexedTokens(files), head, x, z);
    MergeDefinitions(files, head + (x + z));
    PlainsNoLiteral(StringDefinition(NameSymbol(i), End));
    ConcatenatePlain(head, x + z);
  }

  /** The header up to a name that is not printable: its tokens begin with those of the files before it. */
  lemma IllegalNameTokens(files: seq<File>, k: nat)
    requires k < |files| && AllReadable(files[..k]) && !Legal(files[k].name)
    requires !Run(START, Header(files)).mode.Bad?
    ensures AllBindable(files[..k])
    ensures exists v: string, rest: seq<Token> ::
              && |v| < |files[k].name|
              && Concatenate(Undirected(Run(START, Header(files)).tokens))
                 == DefinitionTokens(files[..k])
                    + (Plains(StringDefinition(NameSymbol(k + 1), End)) + ([Literal(v)] + rest))
  {
    hide Run, Header, Definitions, NameDefinition, DataDefinition, LexedTokens, DefinitionTokens, Concatenate;
    hide SpelledAs, LiteralLengths, NameSymbol, StringDefinition, Plains, Legal, Undirected, Texts;
    var i, name := k + 1, files[k].name;
    ReadableSpelled(files[..k]);
    BeforeName(files, k);
    var earlier := Definitions(files[..k]);
    var head := Plains(StringDefinition(NameSymbol(i), End));
    var x := PREAMBLE_TOKENS + LexedTokens(files[..k]);
    NameLineLexes(PREAMBLE + earlier, x, i, name);
    Assoc(PREAMBLE, earlier, NameDefinition(i, name));
    var before := PREAMBLE + (earlier + NameDefinition(i, name));
    var e := Run(State([], InLiteral("")), name + NAME_ENDS);
    NameLine(name);
    var rest := HeaderSplit(files, k);
    var more := DataDefinition(i, files[k].contents) + rest;
    Assoc(before, DataDefinition(i, files[k].contents), rest);
    RunAppend(START, before, more);
    if e.mode.Bad? {
      BadForever(Run(START, before).tokens, more);
    } else {
      var y := x + head + e.tokens;
      RunFrom(y, more);
      var z := Run(START, more).tokens;
      StaticFirst(i, files[k].contents, rest);
      UndirectedIllegal(files[..k], i, e.tokens, z);
      var x', z' := Undirected(e.tokens), Undirected(z);
      UndirectedFirst(e.tokens);
      UndirectedFirst(z);
      UndirectedLengths(e.tokens);
      MergeIllegal(files[..k], i, x', z');
      FrontJoined(x', z');
      var c := Concatenate(x' + z');
      assert c == [Literal(c[0].value)] + c[1..];
    }
  }

  /** A header that reads is the program of the printed table, with the symbols as they are bound. */
  lemma HeaderProgram(files: seq<File>)
    requires files != [] && files[|files| - 1].contents != [] && Read(Header(files)).Some?
    ensures !Run(START, Header(files)).mode.Bad?
    ensures var d := ReadDefinitions(Concatenate(Undirected(Run(START, Header(files)).tokens)), map[]);
            && d.Some? && RowsKnown(d.value.0, |files|)
            && Read(Header(files)) == Some(Program(KnownRows(d.value.0, |files|) + [NULL_ROW], WALK))
  {
    hide Run, Header, Concatenate, NoLiteral, AfterLast, TableTokens, ReadDefinitions, ReadProgram, DataTokens;
    hide RowsKnown, KnownRows, NameDefinition, Definitions, Include, Undirected;
    var s := Run(START, Header(files));
    LastLines(files);
    IncludeKeeps(Header(files));
    var t := Concatenate(Undirected(s.tokens));
    HeaderAfterLast(files);
    ReadsPrintedTable(t, |files[|files| - 1].contents|, |files|);
    TableMeans(ReadDefinitions(t, map[]).value.0, |files|);
  }

  /** The first name that is not printable is filed under a shorter name, if the header reads at all. */
  lemma IllegalNameMisfiled(files: seq<File>, k: nat)
    requires k < |files| && AllReadable(files[..k]) && !Legal(files[k].name)
    ensures var r := Read(Header(files));
            r.Some? ==> |r.value.rows| == |files| + 1 && r.value.rows[k].first.Some?
                        && |r.value.rows[k].first.value| < |files[k].name|
  {
    hide Run, Header, Read, Concatenate, ReadDefinitions, DefinitionTokens, NameSymbol, DataSymbol, Legal, AllReadable;
    hide StringDefinition, Plains, UpToNull, AllBindable, Undirected;
    var n := |files|;
    if files[n - 1].contents == [] {
      EmptyFileBreaks(files, n - 1);
    } else if Read(Header(files)).Some? {
      HeaderProgram(files);
      IllegalNameTokens(files, k);
      var t := Concatenate(Undirected(Run(START, Header(files)).tokens));
      var v, rest :| |v| < |files[k].name| && t == DefinitionTokens(files[..k])
                     + (Plains(StringDefinition(NameSymbol(k + 1), End)) + ([Literal(v)] + rest));
      ReadAllDefinitions(files[..k], Plains(StringDefinition(NameSymbol(k + 1), End)) + ([Literal(v)] + rest));
      NameBound(k + 1, v, rest, Known(files[..k]));
      UpToNullShorter(v);
      var all := ReadDefinitions(t, map[]).value.0;
      assert KnownRows(all, n)[(k + 1) - 1].first == Some(all[NameSymbol(k + 1)]);
    }
  }

  function FirstUnreadable(files: seq<File>): (k: nat)
    requires !AllReadable(files)
    ensures k < |files| && !Readable(files[k]) && AllReadable(files[..k])
  {
    if !Readable(files[0]) then 0
    else
      assert forall i :: 0 < i < |files| ==> files[i] == files[1..][i - 1];
      var k := 1 + FirstUnreadable(files[1..]);
      assert files[..k] == [files[0]] + files[1..][..k - 1];
      k
  }

  /**
    The round trip of the whole header, for every list of files that a command line can name: it means
    the files if and only if none is empty and no name has a quote, a backslash or a line break.
   */
  lemma RoundTripIff(files: seq<File>)
    requires forall i :: 0 <= i < |files| ==> IsCString(files[i].name)
    ensures Read(Header(files)) == Some(Meaning(files)) <==> AllReadable(files)
  {
    hide Header, Read, Legal, IsCString;
    if AllReadable(files) {
      HeaderMeans(files);
    } else {
      var k := FirstUnreadable(files);
      if files[k].contents == [] {
        EmptyFileBreaks(files, k);
      } else {
        IllegalNameMisfiled(files, k);
        assert Meaning(files).rows[k] == TableRows(files)[k];
      }
    }
  }

  // ----- a name that reads, but as another -----

  lemma EscapeSpells(p: string, q: string)
    requires Legal(p) && Legal(q)
    ensures Spells(p + ("\\n" + q), p + "\n" + q)
  {
    hide Run;
    var s := State([], InLiteral(""));
    Assoc(p, "\\n" + q, "\"");
    RunAppend(s, p, "\\n" + q + "\"");
    LegalRun("", p);
    assert "" + p == p;
    assert "\\n" + q + "\"" == "\\" + ("n" + (q + "\""));
    RunChar(State([], InLiteral(p)), '\\', "n" + (q + "\""));
    RunChar(State([], AfterBackslash(p)), 'n', q + "\"");
    var v := p + "\n";
    RunAppend(State([], InLiteral(v)), q, "\"");
    LegalRun(v, q);
    RunChar(State([], InLiteral(v + q)), '\"', "");
  }

  /**
    A name with a backslash and an `n` in it: the header reads, but files the contents under the name
    with a line feed, and the lookup of the name that was given finds nothing.
   */
  lemma EscapedNameMisfiled(p: string, q: string, bytes: seq<Octet>, data: string)
    requires Legal(p) && Legal(q) && IsCString(p) && IsCString(q) && bytes != []
    ensures var name, filed := p + ("\\n" + q), p + "\n" + q;
            var program := Meaning([File(filed, bytes)]);
            && Read(Header([File(name, bytes)])) == Some(program)
            && Call(program, name, data) == Some((false, data))
            && Call(program, filed, data) == Some((true, bytes))
  {
    hide Header, Read, Meaning, Spells, Legal;
    var name, filed := p + ("\\n" + q), p + "\n" + q;
    var values := [File(filed, bytes)];
    EscapeSpells(p, q);
    HeaderSpells([File(name, bytes)], values);
    WalkFinds(values, name, data, 0);
    WalkFinds(values, filed, data, 0);
    assert values[0..] == values && values[1..] == [];
    assert |name| == |p| + 2 + |q| && |filed| == |p| + 1 + |q|;
  }
}
