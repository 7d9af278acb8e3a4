/**
  A reader and an interpreter for the declarations of the generated header: constant strings,
  one table of pointers to them, and one function that walks the table. It takes tokens after
  phase 6 and gives a meaning to what it reads, whoever wrote it.
 */
module CppHeader {
  import opened Numerals
  import opened CppLexer
  import opened CppPreprocessor

  /** An entry of the table: two pointers, each null or to a string. */
  datatype Row = Row(first: Option<string>, second: Option<string>)

  /** `*p` for the row's field of that number. */
  datatype Field = First | Second

  function Get(row: Row, f: Field): Option<string> { if f.First? then row.first else row.second }

  /** The walk: stop when `guard` is null, compare `key`, hand out `value`. */
  datatype Walk = Walk(guard: Field, key: Field, value: Field, onMatch: bool, onEnd: bool)

  datatype Program = Program(rows: seq<Row>, walk: Walk)

  // ----- tokens -----

  /** Fixed words, and places where any word may stand. */
  datatype Pattern = Stop | Word(text: string, rest: Pattern) | Any(rest: Pattern)

  /** The tokens begin like the pattern: the words at its open places, and the tokens that follow. */
  function Match(t: seq<Token>, p: Pattern): (r: Option<(seq<string>, seq<Token>)>)
    ensures r.Some? ==> |r.value.1| <= |t|
    ensures r.Some? && !p.Stop? ==> |r.value.1| < |t|
  {
    match p
    case Stop => Some(([], t))
    case Word(text, rest) => if t != [] && t[0] == Plain(text) then Match(t[1..], rest) else None
    case Any(rest) =>
      if t == [] || !t[0].Plain? then None
      else
        var m :- Match(t[1..], rest);
        Some(([t[0].text] + m.0, m.1))
  }

  /** The word at an open place. */
  function At(words: seq<string>, i: nat): string { if i < |words| then words[i] else "" }

  /** A decimal literal. One that starts with a zero would be octal. */
  function Number(s: string): Option<nat> {
    if s != "" && (forall i :: 0 <= i < |s| ==> IsDigit(s[i])) && (s[0] == '0' ==> |s| == 1)
    then Some(DigitsValue(s)) else None
  }

  // ----- constant strings -----

  /** `std::string(const char *)`: up to the first null character. */
  function UpToNull(s: string): (r: string)
    ensures |r| <= |s| && r == s[..|r|] && 0 as char !in r && (|r| < |s| ==> s[|r|] == 0 as char)
  {
    if s == "" || s[0] == 0 as char then "" else [s[0]] + UpToNull(s[1..])
  }

  /** `std::string(const char *, size_t)` of a literal, which ends in a null character. */
  function FirstChars(s: string, n: nat): Option<string> {
    if n <= |s| + 1 then Some((s + [0 as char])[..n]) else None
  }

  datatype Definition = Definition(symbol: string, value: string, rest: seq<Token>)

  const DEFINES := Word("static", Word("const", Word("std", Word("::", Word("string", Stop)))))

  const INITIAL := Any(Word("=", Stop))

  const CALLS := Word("std", Word("::", Word("string", Word("(", Stop))))

  const SIZE := Word(",", Any(Word(")", Word(";", Stop))))

  function ReadDefinition(t: seq<Token>): (r: Option<Definition>)
    ensures r.Some? ==> |r.value.rest| < |t|
  {
    var d :- Match(t, DEFINES);
    var i :- Match(d.1, INITIAL);
    var symbol, t1 := At(i.0, 0), i.1;
    if !IsIdentifier(symbol) || t1 == [] then None
    else if t1[0].Literal? then
      var end :- Match(t1[1..], Word(";", Stop));
      Some(Definition(symbol, UpToNull(t1[0].value), end.1))
    else
      var c :- Match(t1, CALLS);
      if c.1 == [] || !c.1[0].Literal? then None
      else
        var size :- Match(c.1[1..], SIZE);
        var n :- Number(At(size.0, 0));
        var value :- FirstChars(c.1[0].value, n);
        Some(Definition(symbol, value, size.1))
  }

  type Strings = map<string, string>

  /** All the definitions at the front. A symbol may be defined only once. */
  function ReadDefinitions(t: seq<Token>, known: Strings): (r: Option<(Strings, seq<Token>)>)
    ensures r.Some? ==> |r.value.1| <= |t|
    decreases |t|
  {
    if Match(t, DEFINES).None? then Some((known, t))
    else
      var d :- ReadDefinition(t);
      if d.symbol in known then None
      else ReadDefinitions(d.rest, known[d.symbol := d.value])
  }

  // ----- the table -----

  datatype TableHead = TableHead(structure: string, first: string, second: string, table: string)

  const STRUCT := Word("static", Word("const", Word("struct", Any(Word("{", Stop)))))

  const FIELD := Word("const", Word("std", Word("::", Word("string", Word("*", Any(Word(";", Stop)))))))

  const ARRAY := Word("}", Any(Word("[", Word("]", Word("=", Word("{", Stop))))))

  function ReadTableHead(t: seq<Token>): Option<(TableHead, seq<Token>)> {
    var a :- Match(t, STRUCT);
    var b :- Match(a.1, FIELD);
    var c :- Match(b.1, FIELD);
    var d :- Match(c.1, ARRAY);
    var h := TableHead(At(a.0, 0), At(b.0, 0), At(c.0, 0), At(d.0, 0));
    if IsIdentifier(h.structure) && IsIdentifier(h.first) && IsIdentifier(h.second) && IsIdentifier(h.table)
       && h.first != h.second
    then Some((h, d.1)) else None
  }

  const NULLS := Word("{", Word("NULL", Word(",", Word("NULL", Word("}", Stop)))))

  const ADDRESSES := Word("{", Word("&", Any(Word(",", Word("&", Any(Word("}", Stop)))))))

  /** One row: two null pointers, or the addresses of two strings that are defined. */
  function ReadRow(t: seq<Token>, known: Strings): (r: Option<(Row, seq<Token>)>)
    ensures r.Some? ==> |r.value.1| < |t|
  {
    var nulls := Match(t, NULLS);
    if nulls.Some? then Some((Row(None, None), nulls.value.1))
    else
      var m :- Match(t, ADDRESSES);
      if At(m.0, 0) in known && At(m.0, 1) in known
      then Some((Row(Some(known[At(m.0, 0)]), Some(known[At(m.0, 1)])), m.1)) else None
  }

  const CLOSES := Word("}", Word(";", Stop))

  function ReadRows(t: seq<Token>, known: Strings, rows: seq<Row>): Option<(seq<Row>, seq<Token>)>
    decreases |t|
  {
    var r :- ReadRow(t, known);
    var all := rows + [r.0];
    var end := Match(r.1, CLOSES);
    if end.Some? then Some((all, end.value.1))
    else
      var comma :- Match(r.1, Word(",", Stop));
      var end := Match(comma.1, CLOSES);
      if end.Some? then Some((all, end.value.1)) else ReadRows(comma.1, known, all)
  }

  // ----- the lookup function -----

  function FieldOf(h: TableHead, name: string): Option<Field> {
    if name == h.first then Some(First) else if name == h.second then Some(Second) else None
  }

  function Boolean(s: string): Option<bool> {
    if s == "true" then Some(true) else if s == "false" then Some(false) else None
  }

  const FUNCTION :=
    Word("static", Word("bool", Any(Word("(", Word("const", Word("std", Word("::", Word("string", Word("&",
    Any(Word(",", Stop)))))))))))

  const RESULT := Word("std", Word("::", Word("string", Word("&", Any(Word(")", Word("{", Stop)))))))

  const CURSOR := Word("const", Word("struct", Any(Word("*", Any(Word(";", Stop))))))

  const FOR := Word("for", Word("(", Any(Word("=", Any(Word(";", Stop))))))

  const WHILE :=
    Any(Word("->", Any(Word("!=", Word("NULL", Word(";", Any(Word("++", Word(")", Word("{", Stop))))))))))

  const IF := Word("if", Word("(", Word("*", Any(Word("->", Any(Word("==", Any(Word(")", Word("{", Stop))))))))))

  const ASSIGN := Any(Word("=", Word("*", Any(Word("->", Any(Word(";", Stop)))))))

  const RETURN := Word("return", Any(Word(";", Stop)))

  const CLOSE := Word("}", Stop)

  /** A function with parameters `wanted` and `out_`, and a loop that moves `cursor` until `guard` is null. */
  datatype LoopHead = LoopHead(wanted: string, out_: string, cursor: string, guard: Field)

  function ReadLoopHead(t: seq<Token>, h: TableHead): Option<(LoopHead, seq<Token>)> {
    var f :- Match(t, FUNCTION);
    var o :- Match(f.1, RESULT);
    var c :- Match(o.1, CURSOR);
    var l :- Match(c.1, FOR);
    var w :- Match(l.1, WHILE);
    var head :- LoopHeadOf(h, f.0, o.0, c.0, l.0, w.0);
    Some((head, w.1))
  }

  /** The names in the head must be those of the table, of the parameters and of one cursor. */
  function LoopHeadOf(h: TableHead, f: seq<string>, o: seq<string>, c: seq<string>, l: seq<string>, w: seq<string>)
    : Option<LoopHead>
  {
    var wanted, out_, p := At(f, 1), At(o, 0), At(c, 1);
    var guard :- FieldOf(h, At(w, 1));
    if && IsIdentifier(At(f, 0)) && IsIdentifier(wanted) && IsIdentifier(out_) && IsIdentifier(p)
       && wanted != out_ && wanted != p && out_ != p
       && At(c, 0) == h.structure && At(l, 1) == h.table
       && At(l, 0) == At(w, 0) == At(w, 2) == p
    then Some(LoopHead(wanted, out_, p, guard)) else None
  }

  /** The loop compares one field with `wanted`, and copies another to `out_` where they are equal. */
  function ReadLoopBody(t: seq<Token>, h: TableHead, l: LoopHead): Option<Walk> {
    var i :- Match(t, IF);
    var a :- Match(i.1, ASSIGN);
    var r :- Match(a.1, RETURN);
    var b1 :- Match(r.1, CLOSE);
    var b2 :- Match(b1.1, CLOSE);
    var e :- Match(b2.1, RETURN);
    var end :- Match(e.1, CLOSE);
    if end.1 == [] then WalkOf(h, l, i.0, a.0, r.0, e.0) else None
  }

  function WalkOf(h: TableHead, l: LoopHead, i: seq<string>, a: seq<string>, r: seq<string>, e: seq<string>)
    : Option<Walk>
  {
    var key :- FieldOf(h, At(i, 1));
    var value :- FieldOf(h, At(a, 2));
    var onMatch :- Boolean(At(r, 0));
    var onEnd :- Boolean(At(e, 0));
    if At(i, 0) == At(a, 1) == l.cursor && At(i, 2) == l.wanted && At(a, 0) == l.out_
    then Some(Walk(l.guard, key, value, onMatch, onEnd)) else None
  }

  function ReadFunction(t: seq<Token>, h: TableHead): Option<Walk> {
    var l :- ReadLoopHead(t, h);
    ReadLoopBody(l.1, h, l.0)
  }

  /** The table and the function, where these strings are defined. */
  function ReadProgram(t: seq<Token>, known: Strings): Option<Program> {
    var h :- ReadTableHead(t);
    var r :- ReadRows(h.1, known, []);
    var w :- ReadFunction(r.1, h.0);
    Some(Program(r.0, w))
  }

  function ReadTokens(t: seq<Token>): Option<Program> {
    var d :- ReadDefinitions(t, map[]);
    ReadProgram(d.1, d.0)
  }

  /** What is left of a text after phase 4: literals are joined, then the declarations are read. */
  function ReadIncluded(i: Included): Option<Program> { ReadTokens(Concatenate(i.tokens)) }

  /** The whole header, included where no macro is defined. */
  function Read(text: string): Option<Program> {
    var i :- Include(text, {});
    ReadIncluded(i)
  }

  // ----- running the lookup -----

  /**
    The function called with `wanted` and `data`, from row `p` on: its result and what `data` then
    holds. No result when a row past the end is read or a null pointer followed.
   */
  function Execute(g: Program, wanted: string, data: string, p: nat): Option<(bool, string)>
    decreases |g.rows| - p
  {
    if p >= |g.rows| then None
    else if Get(g.rows[p], g.walk.guard).None? then Some((g.walk.onEnd, data))
    else
      var key :- Get(g.rows[p], g.walk.key);
      if key != wanted then Execute(g, wanted, data, p + 1)
      else
        var value :- Get(g.rows[p], g.walk.value);
        Some((g.walk.onMatch, value))
  }

  function Call(g: Program, wanted: string, data: string): Option<(bool, string)> { Execute(g, wanted, data, 0) }
}
