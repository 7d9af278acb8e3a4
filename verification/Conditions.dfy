/** The exact conditions of the round trip: an empty file or a name with a quote in it breaks the header. */
module Conditions {
  import opened Numerals
  import opened CppLexer
  import opened CppHeader
  import opened HeaderText
  import opened HeaderLexing
  import opened HeaderTokens
  import opened HeaderComplete
  import opened EndToEnd

  // ----- empty files -----

  lemma {:induction false} BadForever(t: seq<Token>, text: string)
    ensures Run(State(t, Bad), text) == State(t, Bad)
    decreases |text|
  {
    if text != "" {
      BadForever(t, text[1..]);
    }
  }

  /** No bytes: the quote after the loop opens a literal that the next line break leaves open. */
  lemma EmptyDataBreaks(a: string, x: seq<Token>, i: nat)
    requires Closed(a, x)
    ensures Run(START, a + DataDefinition(i, [])).mode == Bad
  {
    hide Run, Closed, Lexes, Extends, DataHead, DataTail, DataDefinition;
    var quote := "\"" + DataTail(0);
    DataHeadLexes(i);
    OpenLiteral();
    DataHeadNotEmpty(i);
    TwoParts(a, x, DataHead(i), Plains(StringDefinition(DataSymbol(i), STRING_CALL)), quote);
    EmptyDefinition(i);
    Assoc(a, DataHead(i), quote);
  }

  lemma EmptyDefinition(i: nat)
    ensures DataDefinition(i, []) == DataHead(i) + ("\"" + DataTail(0))
  {
    hide DataHead, DataTail;
  }

  lemma DataHeadNotEmpty(i: nat)
    ensures DataHead(i) != ""
  {
  }

  lemma TwoParts(a: string, x: seq<Token>, b: string, y: seq<Token>, c: string)
    requires Closed(a, x) && Lexes(b, y) && b != ""
    requires c != "" && !Extends(Run(START, b).mode, c[0]) && Run(START, c).mode == Bad
    ensures Run(START, a + b + c).mode == Bad
  {
    LexesAppend(a, x, b, y);
    RunAfter(a + b, x + y, c);
  }

  lemma OpenLiteral()
    ensures Run(START, "\"" + DataTail(0)).mode == Bad
  {
    hide Run;
    var line := Line("  ", Tight(Decimal(0), Tight(")", SEMICOLON))) + "\n";
    assert Spelling(Tight(",", End)) == "," + "" == ",";
    assert Line("", Tight(",", End)) == ",\n";
    assert "\"" + DataTail(0) == "\"" + ("," + ("\n" + line));
    OpenLine(line);
  }

  lemma OpenLine(line: string)
    ensures Run(START, "\"" + ("," + ("\n" + line))).mode == Bad
  {
    RunChar(START, '\"', "," + ("\n" + line));
    RunChar(State([], InLiteral("")), ',', "\n" + line);
    RunChar(State([], InLiteral(",")), '\n', line);
    BadForever([], line);
  }

  lemma PrefixBreaks(prefix: string, rest: string)
    requires Run(START, prefix).mode == Bad
    ensures Read(prefix + rest) == None
  {
    RunAppend(START, prefix, rest);
    BadForever(Run(START, prefix).tokens, rest);
  }

  /** Whatever came before, a line break leaves the lexer between tokens, or the text is wrong. */
  lemma LineEnds(text: string)
    requires text != "" && text[|text| - 1] == '\n'
    ensures Run(START, text).mode.Between? || Run(START, text).mode.Bad?
  {
    var n := |text| - 1;
    assert text == text[..n] + "\n";
    RunAppend(START, text[..n], "\n");
    RunChar(Run(START, text[..n]), '\n', "");
  }

  lemma NameEndsLine(a: string, b: string, i: nat, name: string)
    ensures var text := a + (b + NameDefinition(i, name)); text != "" && text[|text| - 1] == '\n'
  {
  }

  /** The header up to and with the definitions of file `k`, and the rest of it. */
  lemma HeaderSplit(files: seq<File>, k: nat) returns (rest: string)
    requires k < |files|
    ensures Header(files) == PREAMBLE + (Definitions(files[..k]) + NameDefinition(k + 1, files[k].name))
                             + DataDefinition(k + 1, files[k].contents) + rest
  {
    hide NameDefinition, DataDefinition, Table;
    var now := files[..k + 1];
    assert now[..k] == files[..k] && now[k] == files[k];
    var name, data := NameDefinition(k + 1, files[k].name), DataDefinition(k + 1, files[k].contents);
    assert Definitions(now) == Definitions(files[..k]) + name + data;
    var more := DefinitionsSplit(files, k + 1);
    rest := more + Table(|files|);
    Nest(PREAMBLE, Definitions(files[..k]) + name, data, more, Table(|files|));
  }

  lemma Nest(a: string, b: string, c: string, d: string, e: string)
    ensures a + (b + c + d) + e == a + b + c + (d + e)
  {
  }

  /** One empty file, and nothing can be read from the header, whatever the names are. */
  lemma EmptyFileBreaks(files: seq<File>, k: nat)
    requires k < |files| && files[k].contents == []
    ensures Read(Header(files)) == None
  {
    hide Run, Closed, NameDefinition, DataDefinition, Definitions, Header;
    var i, name, earlier := k + 1, files[k].name, Definitions(files[..k]);
    var before := PREAMBLE + (earlier + NameDefinition(i, name));
    NameEndsLine(PREAMBLE, earlier, i, name);
    LineEnds(before);
    if Run(START, before).mode.Between? {
      assert Closed(before, Run(START, before).tokens) by { IsClosed(before); }
      EmptyDataBreaks(before, Run(START, before).tokens, i);
    } else {
      RunAppend(START, before, DataDefinition(i, []));
      BadForever(Run(START, before).tokens, DataDefinition(i, []));
    }
    var rest := HeaderSplit(files, k);
    PrefixBreaks(before + DataDefinition(i, []), rest);
  }

  lemma IsClosed(text: string)
    requires Run(START, text).mode.Between?
    ensures Closed(text, Run(START, text).tokens)
  {
  }

  /**
    No header with an empty file can be read. With names that can be printed, the header can be read
    exactly when no file is empty, and then it means the files.
   */
  lemma HeaderReadsIff(files: seq<File>)
    ensures (exists i :: 0 <= i < |files| && files[i].contents == []) ==> Read(Header(files)) == None
    ensures (forall i :: 0 <= i < |files| ==> Legal(files[i].name) && IsCString(files[i].name)) ==>
              (Read(Header(files)) == Some(Meaning(files))
               <==> forall i :: 0 <= i < |files| ==> files[i].contents != [])
  {
    hide Header, Read, Meaning, Legal, IsCString;
    if i :| 0 <= i < |files| && files[i].contents == [] {
      EmptyFileBreaks(files, i);
    } else if forall i :: 0 <= i < |files| ==> Legal(files[i].name) && IsCString(files[i].name) {
      assert AllReadable(files);
      HeaderMeans(files);
    }
  }

  /** The smallest such header. */
  lemma EmptyFileLost()
    ensures Read(Header([File("fr.qm", [])])) == None
  {
    hide Header, Read;
    EmptyFileBreaks([File("fr.qm", [])], 0);
  }

  // ----- names -----

  function LiteralLengths(tokens: seq<Token>): nat {
    if tokens == [] then 0
    else
      var last := tokens[|tokens| - 1];
      LiteralLengths(tokens[..|tokens| - 1]) + if last.Literal? then |last.value| else 0
  }

  lemma LiteralLengthsAppend(tokens: seq<Token>, t: Token)
    ensures LiteralLengths(tokens + [t]) == LiteralLengths(tokens) + if t.Literal? then |t.value| else 0
  {
    assert (tokens + [t])[..|tokens|] == tokens;
  }

  function Pending(m: Mode): nat {
    match m
    case InLiteral(v) => |v|
    case AfterBackslash(v) => |v|
    case AfterBackslashX(v) => |v|
    case InHex(v, _) => |v| + 1
    case InOctal(v, _, _) => |v| + 1
    case AfterLiteral(v) => |v|
    case _ => 0
  }

  /** How many characters of string values have been read. */
  function Payload(s: State): nat { LiteralLengths(s.tokens) + Pending(s.mode) }

  lemma BeginPayload(tokens: seq<Token>, c: char)
    ensures Payload(Begin(tokens, c)) == LiteralLengths(tokens)
  {
    hide LiteralLengths, IsWordStart, StandsAlone, MayPair;
    LiteralLengthsAppend(tokens, Plain([c]));
  }

  lemma AfterCodePending(v: string, code: nat, c: char)
    ensures Pending(AfterCode(v, code, c)) <= |v| + 2
  {
  }

  lemma EscapePending(v: string, c: char)
    ensures Pending(Escape(v, c)) <= |v| + 1
  {
  }

  lemma AppendPayload(tokens: seq<Token>, t: Token, c: char)
    ensures Payload(Begin(tokens + [t], c)) == LiteralLengths(tokens) + if t.Literal? then |t.value| else 0
  {
    LiteralLengthsAppend(tokens, t);
    BeginPayload(tokens + [t], c);
  }

  /** Where no string value is under way. */
  predicate IsOutside(m: Mode) {
    m.Between? || m.InWord? || m.InPunctuator? || m.AfterLiteral? || m.InDirective?
  }

  lemma StepOutside(s: State, c: char)
    requires IsOutside(s.mode)
    ensures Payload(Step(s, c)) <= Payload(s)
  {
    match s.mode
    case Between => BeginPayload(s.tokens, c);
    case InWord(w) => AppendPayload(s.tokens, Plain(w), c);
    case InPunctuator(p) =>
      AppendPayload(s.tokens, Plain([p]), c);
      LiteralLengthsAppend(s.tokens, Plain([p, c]));
    case AfterLiteral(v) => AppendPayload(s.tokens, Literal(v), c);
    case InDirective(words, word) => LiteralLengthsAppend(s.tokens, Directive(Ended(words, word)));
  }

  lemma StepInside(s: State, c: char)
    requires !IsOutside(s.mode)
    ensures Step(s, c).tokens == s.tokens
    ensures Pending(Step(s, c).mode) <= Pending(s.mode) + 1
  {
    match s.mode
    case AfterBackslash(v) => EscapePending(v, c);
    case InHex(v, code) => AfterCodePending(v, code, c);
    case InOctal(v, code, _) => AfterCodePending(v, code, c);
    case _ =>
  }

  lemma StepPayload(s: State, c: char)
    ensures Payload(Step(s, c)) <= Payload(s) + 1
  {
    if IsOutside(s.mode) {
      StepOutside(s, c);
    } else {
      StepInside(s, c);
    }
  }

  lemma {:induction false} RunPayload(s: State, text: string)
    ensures Payload(Run(s, text)) <= Payload(s) + |text|
    decreases |text|
  {
    if text != "" {
      StepPayload(s, text[0]);
      RunPayload(Step(s, text[0]), text[1..]);
    }
  }

  lemma FinishPayload(s: State)
    requires Finish(s).mode == Between
    ensures LiteralLengths(Finish(s).tokens) == Payload(s)
  {
    match s.mode
    case InWord(w) => LiteralLengthsAppend(s.tokens, Plain(w));
    case InPunctuator(p) => LiteralLengthsAppend(s.tokens, Plain([p]));
    case AfterLiteral(v) => LiteralLengthsAppend(s.tokens, Literal(v));
    case _ =>
  }

  /** A quote that completes the text adds nothing to any value. */
  lemma QuotePayload(s: State)
    requires Finish(Step(s, '\"')).mode == Between
    ensures Payload(Step(s, '\"')) <= Payload(s)
  {
  }

  /** The first character that is not printed as itself. */
  function FirstIllegal(name: string): (k: nat)
    requires !Legal(name)
    ensures k < |name| && (name[k] == '\"' || name[k] == '\\' || name[k] == '\n') && Legal(name[..k])
  {
    if name[0] == '\"' || name[0] == '\\' || name[0] == '\n' then 0
    else
      assert name == [name[0]] + name[1..];
      var k := 1 + FirstIllegal(name[1..]);
      assert name[..k] == [name[0]] + name[1..][..k - 1];
      k
  }

  lemma IllegalStep(v: string, c: char)
    requires c == '\"' || c == '\\' || c == '\n'
    ensures Payload(Step(State([], InLiteral(v)), c)) <= |v|
  {
  }

  lemma IllegalShrinks(name: string)
    requires !Legal(name)
    ensures Payload(Run(State([], InLiteral("")), name)) < |name|
  {
    hide Run, Step, Payload;
    var k := FirstIllegal(name);
    var s := State([], InLiteral(""));
    assert name == name[..k] + ([name[k]] + name[k + 1..]);
    RunAppend(s, name[..k], [name[k]] + name[k + 1..]);
    LegalRun("", name[..k]);
    assert "" + name[..k] == name[..k];
    var s1 := State([], InLiteral(name[..k]));
    RunChar(s1, name[k], name[k + 1..]);
    IllegalStep(name[..k], name[k]);
    RunPayload(Step(s1, name[k]), name[k + 1..]);
  }

  /** The printed literal stands for the name exactly when the name has no quote, backslash or line break. */
  lemma NameReadsIff(name: string)
    ensures Lexes(Quoted(name), [Literal(name)]) <==> Legal(name)
  {
    if Legal(name) {
      LegalSpells(name);
      QuotedLexes(name, name);
    } else if Lexes(Quoted(name), [Literal(name)]) {
      var s := State([], InLiteral(""));
      assert Quoted(name) == "\"" + (name + "\"");
      RunChar(START, '\"', name + "\"");
      RunAppend(s, name, "\"");
      var s1 := Run(s, name);
      RunChar(s1, '\"', "");
      QuotePayload(s1);
      FinishPayload(Step(s1, '\"'));
      assert [] + [Literal(name)] == [Literal(name)];
      LiteralLengthsAppend([], Literal(name));
      IllegalShrinks(name);
    }
  }

  lemma QuotedNameLost()
    ensures !Lexes(Quoted("a\"b"), [Literal("a\"b")])
  {
    hide Lexes, Quoted;
    assert "a\"b"[1] == '\"';
    NameReadsIff("a\"b");
  }
}
