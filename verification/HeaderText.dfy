/**
  The text of the generated header, line by line. Fixed text is written as a chain of words
  and punctuators, each followed by a blank (`Spaced`) or by nothing (`Tight`).
 */
module HeaderText {
  import opened Numerals

  /** A file that was opened: the name on the command line, and its bytes. */
  datatype File = File(name: string, contents: seq<Octet>)

  datatype Lexemes = End | Tight(text: string, rest: Lexemes) | Spaced(text: string, rest: Lexemes)

  lemma NestLeft(a: string, b: string, c: string, d: string)
    ensures a + b + c + d == a + (b + c + d)
  {
  }

  function Spelling(ls: Lexemes): string {
    match ls
    case End => ""
    case Tight(text, rest) => text + Spelling(rest)
    case Spaced(text, rest) => text + " " + Spelling(rest)
  }

  function Line(indent: string, ls: Lexemes): string { indent + Spelling(ls) + "\n" }

  function DirectiveLine(ls: Lexemes): string { "#" + Line("", ls) }

  const IFNDEF := Spaced("ifndef", Tight("TRANSLATION_FILES_H", End))

  const DEFINE := Spaced("define", Tight("TRANSLATION_FILES_H", End))

  const INCLUDE := Spaced("include", Tight("<string>", End))

  const PREAMBLE := DirectiveLine(IFNDEF) + (DirectiveLine(DEFINE) + "\n") + (DirectiveLine(INCLUDE) + "\n")

  // ----- the two definitions of one file -----

  function NameSymbol(i: nat): string { "translation_file_name_" + Decimal(i) }

  function DataSymbol(i: nat): string { "translation_file_data_" + Decimal(i) }

  function StringDefinition(symbol: string, rest: Lexemes): Lexemes {
    Spaced("static", Spaced("const", Tight("std", Tight("::", Spaced("string", Spaced(symbol, Spaced("=", rest)))))))
  }

  const STRING_CALL := Tight("std", Tight("::", Tight("string", Tight("(", End))))

  const SEMICOLON := Tight(";", End)

  function Quoted(text: string): string { "\"" + text + "\"" }

  function NameDefinition(i: nat, name: string): string {
    Spelling(StringDefinition(NameSymbol(i), End)) + Quoted(name) + Line("", SEMICOLON)
  }

  /** What goes before byte `j`: every sixteenth byte opens a literal on a new line. */
  function Separator(j: nat): string {
    if j % 16 != 0 then "" else if j > 0 then "\"" + "\n  \"" else "\n  \""
  }

  /** What the byte loop has written after these bytes. The last literal is still open. */
  function DataBody(bytes: seq<Octet>): string {
    if bytes == [] then ""
    else
      var j := |bytes| - 1;
      DataBody(bytes[..j]) + Separator(j) + Escaped(bytes[j])
  }

  function DataHead(i: nat): string { Spelling(StringDefinition(DataSymbol(i), STRING_CALL)) }

  function DataTail(n: nat): string {
    Line("", Tight(",", End)) + (Line("  ", Tight(Decimal(n), Tight(")", SEMICOLON))) + "\n")
  }

  function DataDefinition(i: nat, bytes: seq<Octet>): string {
    DataHead(i) + DataBody(bytes) + "\"" + DataTail(|bytes|)
  }

  function Definitions(files: seq<File>): string {
    if files == [] then ""
    else
      var n := |files|;
      Definitions(files[..n - 1])
      + NameDefinition(n, files[n - 1].name)
      + DataDefinition(n, files[n - 1].contents)
  }

  /** The definitions of the first files come first. */
  lemma {:induction false} DefinitionsSplit(files: seq<File>, k: nat) returns (rest: string)
    requires k <= |files|
    ensures Definitions(files) == Definitions(files[..k]) + rest
    decreases |files|
  {
    hide NameDefinition, DataDefinition;
    if k == |files| {
      assert files[..k] == files;
      rest := "";
    } else {
      var n := |files|;
      var f := files[n - 1];
      rest := DefinitionsSplit(files[..n - 1], k);
      assert files[..n - 1][..k] == files[..k];
      var name, data := NameDefinition(n, f.name), DataDefinition(n, f.contents);
      NestLeft(Definitions(files[..k]), rest, name, data);
      rest := rest + name + data;
    }
  }

  // ----- the table and the lookup function -----

  function PointerField(name: string): Lexemes {
    Spaced("const", Tight("std", Tight("::", Spaced("string", Tight("*", Tight(name, SEMICOLON))))))
  }

  const TABLE_OPENS := Spaced("static", Spaced("const", Spaced("struct", Spaced("embedded_file", Tight("{", End)))))

  const ARRAY_OPENS := Spaced("}", Tight("embedded_files", Tight("[", Spaced("]", Spaced("=", Tight("{", End))))))

  const TABLE_HEAD :=
    Line("", TABLE_OPENS) + Line("  ", PointerField("name")) + Line("  ", PointerField("data")) + Line("", ARRAY_OPENS)

  function RowLine(i: nat): Lexemes {
    Tight("{", Tight("&", Tight(NameSymbol(i), Spaced(",",
    Tight("&", Tight(DataSymbol(i), Tight("}", Tight(",", End))))))))
  }

  function Rows(n: nat): string {
    if n == 0 then "" else Rows(n - 1) + Line("  ", RowLine(n))
  }

  const SENTINEL := Tight("{", Tight("NULL", Spaced(",", Tight("NULL", Tight("}", End)))))

  const TABLE_CLOSES := Tight("}", SEMICOLON)

  const TABLE_TAIL := Line("  ", SENTINEL) + (Line("", TABLE_CLOSES) + "\n")

  const SIGNATURE :=
    Spaced("static", Spaced("bool", Tight("find_embedded_file", Tight("(", Spaced("const", Tight("std", Tight("::",
    Spaced("string", Tight("&", Tight("name", Spaced(",", End)))))))))))

  const OUT_PARAMETER :=
    Tight("std", Tight("::", Spaced("string", Tight("&", Tight("data", Spaced(")", Tight("{", End)))))))

  const CURSOR_LINE := Spaced("const", Spaced("struct", Spaced("embedded_file", Tight("*", Tight("p", SEMICOLON)))))

  const LOOP := Spaced("for", Tight("(", Spaced("p", Spaced("=", Tight("embedded_files", Spaced(";", End))))))

  const LOOP_STEP :=
    Tight("p", Tight("->", Spaced("name", Spaced("!=", Tight("NULL", Spaced(";",
    Tight("p", Tight("++", Spaced(")", Tight("{", End))))))))))

  const TEST :=
    Spaced("if", Tight("(", Tight("*", Tight("p", Tight("->", Spaced("name", Spaced("==",
    Tight("name", Spaced(")", Tight("{", End))))))))))

  const ASSIGNMENT := Spaced("data", Spaced("=", Tight("*", Tight("p", Tight("->", Tight("data", SEMICOLON))))))

  const FOUND := Spaced("return", Tight("true", SEMICOLON))

  const NOT_FOUND := Spaced("return", Tight("false", SEMICOLON))

  const BRACE := Tight("}", End)

  const LOOKUP_HEAD :=
    Spelling(SIGNATURE) + Line("", OUT_PARAMETER) + Line("  ", CURSOR_LINE)
    + ("  " + Spelling(LOOP)) + Line("", LOOP_STEP)

  const LOOKUP_BODY :=
    Line("    ", TEST) + Line("      ", ASSIGNMENT) + Line("      ", FOUND) + Line("    ", BRACE)
    + Line("  ", BRACE) + Line("  ", NOT_FOUND) + Line("", BRACE)

  const LOOKUP := LOOKUP_HEAD + LOOKUP_BODY

  const ENDIF_WORDS := Spaced("endif", Spaced("/*", Spaced("TRANSLATION_FILES_H", Tight("*/", End))))

  const ENDIF := DirectiveLine(ENDIF_WORDS)

  function Table(n: nat): string { TABLE_HEAD + Rows(n) + TABLE_TAIL + (LOOKUP + "\n") + ENDIF }

  function Header(files: seq<File>): string { PREAMBLE + Definitions(files) + Table(|files|) }

  // ----- runs in which a file cannot be opened -----

  /** One argument of the command line: its contents, if the file can be opened. */
  datatype Argument = Argument(name: string, contents: Option<seq<Octet>>)

  function Unreadable(args: seq<Argument>): (i: nat)
    ensures i <= |args|
    ensures forall k :: 0 <= k < i ==> args[k].contents.Some?
    ensures i < |args| ==> args[i].contents.None?
  {
    if args == [] || args[0].contents.None? then 0 else 1 + Unreadable(args[1..])
  }

  function Files(args: seq<Argument>): (fs: seq<File>)
    requires forall k :: 0 <= k < |args| ==> args[k].contents.Some?
    ensures |fs| == |args|
    ensures forall k :: 0 <= k < |fs| ==> fs[k] == File(args[k].name, args[k].contents.value)
  {
    seq(|args|, k requires 0 <= k < |args| => File(args[k].name, args[k].contents.value))
  }

  /** Everything that a run on these arguments writes. */
  function Written(args: seq<Argument>): string {
    var i := Unreadable(args);
    if i == |args| then Header(Files(args)) else PREAMBLE + Definitions(Files(args[..i]))
  }
}
