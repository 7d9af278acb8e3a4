/** Reading the tokens of the generated lookup function. */
module LookupReading {
  import opened Numerals
  import opened CppLexer
  import opened CppHeader
  import opened HeaderText
  import opened HeaderLexing
  import opened HeaderTokens
  import opened HeaderMeaning

  // ----- the lookup function, as read -----

  const WALK := Walk(First, First, Second, true, false)

  lemma ReadSignature(rest: seq<Token>)
    ensures Match(Plains(SIGNATURE) + rest, FUNCTION) == Some((["find_embedded_file", "name"], rest))
  {
    MatchWhole(SIGNATURE, FUNCTION, rest);
    assert Captured(SIGNATURE, FUNCTION) == ["find_embedded_file", "name"];
  }

  lemma ReadResult(rest: seq<Token>)
    ensures Match(Plains(OUT_PARAMETER) + rest, RESULT) == Some((["data"], rest))
  {
    MatchWhole(OUT_PARAMETER, RESULT, rest);
    assert Captured(OUT_PARAMETER, RESULT) == ["data"];
  }

  lemma ReadPointer(rest: seq<Token>)
    ensures Match(Plains(CURSOR_LINE) + rest, CURSOR) == Some((["embedded_file", "p"], rest))
  {
    MatchWhole(CURSOR_LINE, CURSOR, rest);
    assert Captured(CURSOR_LINE, CURSOR) == ["embedded_file", "p"];
  }

  lemma ReadLoop(rest: seq<Token>)
    ensures Match(Plains(LOOP) + rest, FOR) == Some((["p", "embedded_files"], rest))
    ensures Match(Plains(LOOP_STEP) + rest, WHILE) == Some((["p", "name", "p"], rest))
  {
    MatchWhole(LOOP, FOR, rest);
    assert Captured(LOOP, FOR) == ["p", "embedded_files"];
    MatchWhole(LOOP_STEP, WHILE, rest);
    assert Captured(LOOP_STEP, WHILE) == ["p", "name", "p"];
  }

  lemma ReadTest(rest: seq<Token>)
    ensures Match(Plains(TEST) + rest, IF) == Some((["p", "name", "name"], rest))
  {
    MatchWhole(TEST, IF, rest);
    assert Captured(TEST, IF) == ["p", "name", "name"];
  }

  lemma ReadAssignment(rest: seq<Token>)
    ensures Match(Plains(ASSIGNMENT) + rest, ASSIGN) == Some((["data", "p", "data"], rest))
  {
    MatchWhole(ASSIGNMENT, ASSIGN, rest);
    assert Captured(ASSIGNMENT, ASSIGN) == ["data", "p", "data"];
  }

  lemma ReadReturn(rest: seq<Token>)
    ensures Match(Plains(FOUND) + rest, RETURN) == Some((["true"], rest))
    ensures Match(Plains(NOT_FOUND) + rest, RETURN) == Some((["false"], rest))
  {
    MatchWhole(FOUND, RETURN, rest);
    assert Captured(FOUND, RETURN) == ["true"];
    MatchWhole(NOT_FOUND, RETURN, rest);
    assert Captured(NOT_FOUND, RETURN) == ["false"];
  }

  lemma ReadBrace(rest: seq<Token>)
    ensures Match(Plains(BRACE) + rest, CLOSE) == Some(([], rest))
  {
    MatchWhole(BRACE, CLOSE, rest);
  }

  lemma Identifiers()
    ensures IsIdentifier("find_embedded_file") && IsIdentifier("p")
    ensures "name" != "p" && "data" != "p" && "true" != "false"
  {
    assert |"name"| != |"p"| && |"data"| != |"p"| && |"true"| != |"false"|;
  }

  lemma RegroupFive(a: seq<Token>, b: seq<Token>, c: seq<Token>, d: seq<Token>, e: seq<Token>, f: seq<Token>)
    ensures a + b + c + d + e + f == a + (b + (c + (d + (e + f))))
  {
    Regroup(a + b + c, d, e, f);
    Regroup(a, b, c, d + (e + f));
  }

  lemma RegroupSix(a: seq<Token>, b: seq<Token>, c: seq<Token>, d: seq<Token>, e: seq<Token>)
    ensures a + b + c + d + d + e + d == a + (b + (c + (d + (d + (e + d)))))
  {
    RegroupFive(a, b, c, d, d, e + d);
    Assoc(a + b + c + d + d, e, d);
  }

  const LOOP_HEAD := LoopHead("name", "data", "p", First)

  lemma HeadNames()
    ensures LoopHeadOf(HEAD, ["find_embedded_file", "name"], ["data"], ["embedded_file", "p"], ["p", "embedded_files"],
                       ["p", "name", "p"]) == Some(LOOP_HEAD)
  {
    HeadIdentifiers();
    Identifiers();
  }

  lemma ReadLookupHead(rest: seq<Token>)
    ensures ReadLoopHead(LOOKUP_HEAD_TOKENS + rest, HEAD) == Some((LOOP_HEAD, rest))
  {
    var t4 := Plains(LOOP_STEP) + rest;
    var t3 := Plains(LOOP) + t4;
    var t2 := Plains(CURSOR_LINE) + t3;
    var t1 := Plains(OUT_PARAMETER) + t2;
    RegroupFive(Plains(SIGNATURE), Plains(OUT_PARAMETER), Plains(CURSOR_LINE), Plains(LOOP), Plains(LOOP_STEP), rest);
    ReadSignature(t1);
    ReadResult(t2);
    ReadPointer(t3);
    ReadLoop(t4);
    ReadLoop(rest);
    HeadNames();
  }

  lemma BodyNames()
    ensures WalkOf(HEAD, LOOP_HEAD, ["p", "name", "name"], ["data", "p", "data"], ["true"], ["false"]) == Some(WALK)
  {
    HeadIdentifiers();
    Identifiers();
  }

  lemma ReadLookupBody()
    ensures ReadLoopBody(LOOKUP_BODY_TOKENS, HEAD, LOOP_HEAD) == Some(WALK)
  {
    var t6 := Plains(BRACE);
    var t5 := Plains(NOT_FOUND) + t6;
    var t4 := Plains(BRACE) + t5;
    var t3 := Plains(BRACE) + t4;
    var t2 := Plains(FOUND) + t3;
    var t1 := Plains(ASSIGNMENT) + t2;
    RegroupSix(Plains(TEST), Plains(ASSIGNMENT), Plains(FOUND), Plains(BRACE), Plains(NOT_FOUND));
    ReadTest(t1);
    ReadAssignment(t2);
    ReadReturn(t3);
    ReadBrace(t4);
    ReadBrace(t5);
    ReadReturn(t6);
    ReadBrace([]);
    assert t6 + [] == t6;
    BodyNames();
  }

  lemma ReadLookup()
    ensures ReadFunction(LOOKUP_TOKENS, HEAD) == Some(WALK)
  {
    ReadLookupHead(LOOKUP_BODY_TOKENS);
    ReadLookupBody();
  }
}
