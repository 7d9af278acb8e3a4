/**
  A reader for the lexical part of C++, as far as the generated header goes: sections 5.2,
  5.4, 5.12, 5.13.3 and 5.13.5 of ISO/IEC 14882:2017. It takes one character at a time.
  A hexadecimal escape has no length limit: it ends at the first character that is not a
  hexadecimal digit. The reader knows nothing of how the header is printed.
 */
module CppLexer {

  /** A preprocessing token. Escapes of a string literal are already converted (phase 5). */
  datatype Token = Plain(text: string) | Literal(value: string) | Directive(words: seq<string>)

  datatype Mode =
    | Between
    | InWord(text: string)
    | InPunctuator(first: char)
    | InLiteral(value: string)
    | AfterBackslash(value: string)
    | AfterBackslashX(value: string)
    | InHex(value: string, code: nat)
    | InOctal(value: string, code: nat, digits: nat)
    | AfterLiteral(value: string)
    | InDirective(words: seq<string>, word: string)
    | Bad

  datatype State = State(tokens: seq<Token>, mode: Mode)

  const START := State([], Between)

  predicate IsWordStart(c: char) { 'a' <= c <= 'z' || 'A' <= c <= 'Z' || c == '_' }

  predicate IsWordChar(c: char) { IsWordStart(c) || '0' <= c <= '9' }

  predicate IsIdentifier(s: string) {
    s != "" && IsWordStart(s[0]) && forall i :: 0 <= i < |s| ==> IsWordChar(s[i])
  }

  predicate IsHexDigit(c: char) { '0' <= c <= '9' || 'a' <= c <= 'f' || 'A' <= c <= 'F' }

  function HexValue(c: char): (v: nat)
    requires IsHexDigit(c)
  {
    if c <= '9' then c as int - '0' as int
    else if c <= 'F' then c as int - 'A' as int + 10
    else c as int - 'a' as int + 10
  }

  /** Punctuators of one character that no character extends. */
  predicate StandsAlone(c: char) {
    c == '{' || c == '}' || c == '(' || c == ')' || c == '[' || c == ']' || c == ';' || c == ','
  }

  predicate IsPair(p: char, c: char) {
    match p
    case ':' => c == ':'
    case '-' => c == '-' || c == '>' || c == '='
    case '+' => c == '+' || c == '='
    case '&' => c == '&' || c == '='
    case '=' => c == '='
    case '!' => c == '='
    case '*' => c == '='
    case _ => false
  }

  predicate MayPair(c: char) {
    c == ':' || c == '-' || c == '+' || c == '&' || c == '=' || c == '!' || c == '*'
  }

  /** The simple escapes of section 5.13.3. */
  function SimpleEscape(c: char): string {
    match c
    case 'n' => "\n"
    case 't' => "\t"
    case 'r' => "\r"
    case 'a' => [7 as char]
    case 'b' => [8 as char]
    case 'v' => [11 as char]
    case 'f' => [12 as char]
    case '\\' => "\\"
    case '\'' => "\'"
    case '\"' => "\""
    case '?' => "?"
    case _ => ""
  }

  /** The first character of something new. */
  function Begin(tokens: seq<Token>, c: char): State {
    if c == ' ' || c == '\n' then State(tokens, Between)
    else if c == '#' then State(tokens, InDirective([], ""))
    else if c == '\"' then State(tokens, InLiteral(""))
    else if IsWordChar(c) then State(tokens, InWord([c]))
    else if MayPair(c) then State(tokens, InPunctuator(c))
    else if StandsAlone(c) then State(tokens + [Plain([c])], Between)
    else State(tokens, Bad)
  }

  /** A character inside a string literal, where no escape is under way. */
  function Inside(value: string, c: char): Mode {
    match c
    case '\"' => AfterLiteral(value)
    case '\\' => AfterBackslash(value)
    case '\n' => Bad
    case _ => InLiteral(value + [c])
  }

  /** The first character after a numeric escape with the given code. */
  function AfterCode(value: string, code: nat, c: char): Mode {
    if code < 256 then Inside(value + [code as char], c) else Bad
  }

  function Escape(value: string, c: char): Mode {
    if c == 'x' then AfterBackslashX(value)
    else if '0' <= c <= '7' then InOctal(value, c as int - '0' as int, 1)
    else if SimpleEscape(c) != "" then InLiteral(value + SimpleEscape(c))
    else Bad
  }

  /** The words of a directive, with the one that ends here. */
  function Ended(words: seq<string>, word: string): seq<string> { if word == "" then words else words + [word] }

  function Step(s: State, c: char): State {
    match s.mode
    case Between => Begin(s.tokens, c)
    case InWord(w) =>
      if IsWordChar(c) then State(s.tokens, InWord(w + [c]))
      else if c == '\"' then State(s.tokens, Bad)  // an encoding prefix or a raw literal
      else Begin(s.tokens + [Plain(w)], c)
    case InPunctuator(p) =>
      if IsPair(p, c) then State(s.tokens + [Plain([p, c])], Between)
      else Begin(s.tokens + [Plain([p])], c)
    case AfterLiteral(v) =>
      if IsWordStart(c) then State(s.tokens, Bad)  // a user-defined literal
      else Begin(s.tokens + [Literal(v)], c)
    case InDirective(words, word) =>
      if c == '\n' then State(s.tokens + [Directive(Ended(words, word))], Between)
      else if c == ' ' then State(s.tokens, InDirective(Ended(words, word), ""))
      else State(s.tokens, InDirective(words, word + [c]))
    case InLiteral(v) => State(s.tokens, Inside(v, c))
    case AfterBackslash(v) => State(s.tokens, Escape(v, c))
    case AfterBackslashX(v) =>
      State(s.tokens, if IsHexDigit(c) then InHex(v, HexValue(c)) else Bad)
    case InHex(v, code) =>
      State(s.tokens, if IsHexDigit(c) then InHex(v, 16 * code + HexValue(c)) else AfterCode(v, code, c))
    case InOctal(v, code, digits) =>
      State(s.tokens, if '0' <= c <= '7' && digits < 3
                      then InOctal(v, 8 * code + (c as int - '0' as int), digits + 1)
                      else AfterCode(v, code, c))
    case Bad => s
  }

  function Run(s: State, text: string): State
    decreases text
  {
    if text == "" then s else Run(Step(s, text[0]), text[1..])
  }

  /** Whether `c` would become part of the token under way. */
  predicate Extends(m: Mode, c: char) {
    match m
    case InWord(_) => IsWordChar(c) || c == '\"'
    case InPunctuator(p) => IsPair(p, c)
    case AfterLiteral(_) => IsWordStart(c)
    case _ => false
  }

  /** What the end of the text makes of the token under way. */
  function Finish(s: State): State {
    match s.mode
    case Between => s
    case InWord(w) => State(s.tokens + [Plain(w)], Between)
    case InPunctuator(p) => State(s.tokens + [Plain([p])], Between)
    case AfterLiteral(v) => State(s.tokens + [Literal(v)], Between)
    case _ => State(s.tokens, Bad)
  }

  /** The whole text is a sequence of complete tokens, these. */
  predicate Lexes(text: string, tokens: seq<Token>) {
    Finish(Run(START, text)) == State(tokens, Between)
  }

  /** Phase 6: adjacent string literals become one. */
  function Concatenate(tokens: seq<Token>): (r: seq<Token>)
    ensures r == [] <==> tokens == []
    ensures tokens != [] ==> (r[0].Literal? <==> tokens[0].Literal?)
  {
    if tokens == [] then []
    else
      var rest := Concatenate(tokens[1..]);
      if tokens[0].Literal? && rest != [] && rest[0].Literal?
      then [Literal(tokens[0].value + rest[0].value)] + rest[1..]
      else [tokens[0]] + rest
  }

  // ----- how reading composes -----

  lemma {:induction false} RunAppend(s: State, a: string, b: string)
    ensures Run(s, a + b) == Run(Run(s, a), b)
    decreases |a|
  {
    if a == "" {
      assert a + b == b;
    } else {
      assert (a + b)[0] == a[0] && (a + b)[1..] == a[1..] + b;
      RunAppend(Step(s, a[0]), a[1..], b);
    }
  }

  lemma RunChar(s: State, c: char, rest: string)
    ensures Run(s, [c] + rest) == Run(Step(s, c), rest)
    ensures Run(s, [c]) == Step(s, c)
  {
    assert ([c] + rest)[1..] == rest;
    assert [c][1..] == "";
  }

  function Prepend(tokens: seq<Token>, s: State): State { State(tokens + s.tokens, s.mode) }

  lemma StepPrepend(t: seq<Token>, s: State, c: char)
    ensures Step(Prepend(t, s), c) == Prepend(t, Step(s, c))
  {
    BeginPrepend(t, s.tokens, c);
    match s.mode
    case InWord(w) => BeginPrepend(t, s.tokens + [Plain(w)], c); Assoc(t, s.tokens, [Plain(w)]);
    case InPunctuator(p) =>
      BeginPrepend(t, s.tokens + [Plain([p])], c);
      Assoc(t, s.tokens, [Plain([p])]);
      Assoc(t, s.tokens, [Plain([p, c])]);
    case AfterLiteral(v) => BeginPrepend(t, s.tokens + [Literal(v)], c); Assoc(t, s.tokens, [Literal(v)]);
    case InDirective(words, word) => Assoc(t, s.tokens, [Directive(Ended(words, word))]);
    case _ =>
  }

  lemma Assoc<T>(a: seq<T>, b: seq<T>, c: seq<T>)
    ensures (a + b) + c == a + (b + c)
  {
  }

  lemma BeginPrepend(t: seq<Token>, u: seq<Token>, c: char)
    ensures Begin(t + u, c) == Prepend(t, Begin(u, c))
  {
    Assoc(t, u, [Plain([c])]);
  }

  lemma {:induction false} RunPrepend(t: seq<Token>, s: State, text: string)
    ensures Run(Prepend(t, s), text) == Prepend(t, Run(s, text))
    decreases text
  {
    if text != "" {
      StepPrepend(t, s, text[0]);
      RunPrepend(t, Step(s, text[0]), text[1..]);
    }
  }

  /** Reading `b` after complete tokens is reading `b` alone, unless it extends the last one. */
  lemma RunAfter(a: string, x: seq<Token>, b: string)
    requires Lexes(a, x) && b != ""
    requires !Extends(Run(START, a).mode, b[0])
    ensures Run(START, a + b) == Prepend(x, Run(START, b))
  {
    RunAppend(START, a, b);
    var s := Run(START, a);
    assert Step(s, b[0]) == Begin(x, b[0]) == Step(State(x, Between), b[0]);
    RunPrepend(x, START, b);
    assert Prepend(x, START) == State(x, Between) by { assert x + [] == x; }
  }

  lemma LexesAppend(a: string, x: seq<Token>, b: string, y: seq<Token>)
    requires Lexes(a, x) && Lexes(b, y)
    requires b != "" ==> !Extends(Run(START, a).mode, b[0])
    ensures Lexes(a + b, x + y)
    ensures Run(START, a + b).mode == Run(START, if b == "" then a else b).mode
  {
    if b == "" {
      assert a + b == a && x + y == x;
    } else {
      RunAfter(a, x, b);
      var s := Run(START, b);
      assert forall t: Token :: x + (s.tokens + [t]) == (x + s.tokens) + [t];
    }
  }

  // ----- how concatenation composes -----

  predicate NoLiteral(tokens: seq<Token>) {
    forall i :: 0 <= i < |tokens| ==> tokens[i].Plain?
  }

  function Joined(values: seq<string>): string {
    if values == [] then "" else values[0] + Joined(values[1..])
  }

  function Literals(values: seq<string>): (r: seq<Token>)
    ensures |r| == |values| && forall i :: 0 <= i < |r| ==> r[i] == Literal(values[i])
  {
    seq(|values|, i requires 0 <= i < |values| => Literal(values[i]))
  }

  lemma {:induction false} ConcatenatePlain(a: seq<Token>, b: seq<Token>)
    requires NoLiteral(a)
    ensures Concatenate(a + b) == a + Concatenate(b)
    decreases |a|
  {
    if a == [] {
      assert a + b == b;
      assert a + Concatenate(b) == Concatenate(b);
    } else {
      assert (a + b)[1..] == a[1..] + b;
      ConcatenatePlain(a[1..], b);
      assert [a[0]] + (a[1..] + Concatenate(b)) == a + Concatenate(b);
    }
  }

  lemma {:induction false} ConcatenateLiterals(values: seq<string>, b: seq<Token>)
    requires values != []
    requires b != [] ==> b[0].Plain?
    ensures Concatenate(Literals(values) + b) == [Literal(Joined(values))] + Concatenate(b)
    decreases |values|
  {
    var a := Literals(values);
    assert (a + b)[1..] == Literals(values[1..]) + b;
    if |values| == 1 {
      assert Literals(values[1..]) + b == b;
      assert values[1..] == [] && Joined(values) == values[0] + "" == values[0];
      assert (a + b)[0] == Literal(values[0]);
    } else {
      ConcatenateLiterals(values[1..], b);
    }
  }
}
