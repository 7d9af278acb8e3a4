/** The generator: a program that prints the header file by file and byte by byte. */
module Generator {
  import opened Numerals
  import opened HeaderText

  /** The output stream. */
  class Output {
    var text: string

    constructor ()
      ensures text == ""
    {
      text := "";
    }

    method Print(s: string)
      modifies this
      ensures text == old(text) + s
    {
      text := text + s;
    }
  }

  datatype ExitCode = ExitSuccess | ExitFailure

  /** The largest value of a C `int`, the type of both loop counters. */
  const INT_MAX := 0x7fff_ffff

  predicate CountsFit(args: seq<Argument>) {
    |args| < INT_MAX &&
    forall i :: 0 <= i < |args| && args[i].contents.Some? ==> |args[i].contents.value| <= INT_MAX
  }

  /** The byte loop: sixteen bytes to a line. It leaves the last literal open. */
  method WriteBytes(out: Output, bytes: seq<Octet>) returns (j: int)
    requires |bytes| <= INT_MAX
    modifies out
    ensures j == |bytes|
    ensures out.text == old(out.text) + DataBody(bytes)
  {
    hide Escaped;
    j := 0;
    while j < |bytes|
      invariant 0 <= j <= |bytes|
      invariant out.text == old(out.text) + DataBody(bytes[..j])
    {
      ghost var before := out.text;
      if j % 16 == 0 {
        if j > 0 {
          out.Print("\"");
        }
        out.Print("\n  \"");
      }
      assert out.text == before + Separator(j);
      out.Print(Escaped(bytes[j]));
      assert bytes[..j + 1][..j] == bytes[..j];
      NestLeft(old(out.text), DataBody(bytes[..j]), Separator(j), Escaped(bytes[j]));
      j := j + 1;
    }
    assert bytes[..j] == bytes;
  }

  method WriteFile(out: Output, i: int, f: File)
    requires 0 < i && |f.contents| <= INT_MAX
    modifies out
    ensures out.text == old(out.text) + NameDefinition(i, f.name) + DataDefinition(i, f.contents)
  {
    hide NameDefinition, DataHead, DataBody, DataTail;
    out.Print(NameDefinition(i, f.name));
    ghost var named := out.text;
    out.Print(DataHead(i));
    var j := WriteBytes(out, f.contents);
    out.Print("\"" + DataTail(j));
    DataNested(named, DataHead(i), DataBody(f.contents), "\"", DataTail(j));
  }

  lemma DataNested(a: string, b: string, c: string, d: string, e: string)
    ensures a + b + c + (d + e) == a + (b + c + d + e)
  {
  }

  method WriteTable(out: Output, argc: int)
    requires 0 < argc <= INT_MAX
    modifies out
    ensures out.text == old(out.text) + Table(argc - 1)
  {
    hide Line, RowLine;
    out.Print(TABLE_HEAD);
    var i := 1;
    while i < argc
      invariant 1 <= i <= argc
      invariant out.text == old(out.text) + (TABLE_HEAD + Rows(i - 1))
    {
      out.Print(Line("  ", RowLine(i)));
      RowNested(old(out.text), TABLE_HEAD, Rows(i - 1), Line("  ", RowLine(i)));
      i := i + 1;
    }
    out.Print(TABLE_TAIL);
    out.Print(LOOKUP + "\n");
    out.Print(ENDIF);
    DataNested(old(out.text), TABLE_HEAD + Rows(i - 1), TABLE_TAIL, LOOKUP + "\n", ENDIF);
    TailNested(old(out.text), TABLE_HEAD + Rows(i - 1), TABLE_TAIL, LOOKUP + "\n", ENDIF);
  }

  lemma RowNested(a: string, b: string, c: string, d: string)
    ensures a + (b + c) + d == a + (b + (c + d))
  {
  }

  lemma TailNested(a: string, b: string, c: string, d: string, e: string)
    ensures a + b + c + d + e == a + (b + c + d + e)
  {
  }

  /** The text when the first `i` files have been written. */
  ghost function Progress(args: seq<Argument>, i: nat): string
    requires i <= |args| && forall k :: 0 <= k < i ==> args[k].contents.Some?
  {
    PREAMBLE + Definitions(Files(args[..i]))
  }

  lemma ProgressStart(args: seq<Argument>)
    ensures Progress(args, 0) == PREAMBLE
  {
    assert Definitions(Files(args[..0])) == "";
  }

  lemma ProgressStep(args: seq<Argument>, i: nat)
    requires i < |args| && forall k :: 0 <= k <= i ==> args[k].contents.Some?
    ensures Progress(args, i + 1) == Progress(args, i) + NameDefinition(i + 1, args[i].name)
                                     + DataDefinition(i + 1, args[i].contents.value)
  {
    hide NameDefinition, DataDefinition;
    var before, f := Files(args[..i]), File(args[i].name, args[i].contents.value);
    var now := Files(args[..i + 1]);
    assert now == before + [f];
    assert now[..i] == before && |now| == i + 1 && now[i] == f;
    NestLeft(PREAMBLE, Definitions(before), NameDefinition(i + 1, f.name), DataDefinition(i + 1, f.contents));
  }

  lemma {:induction false} StoppedAt(args: seq<Argument>, i: nat)
    requires i <= |args| && (i < |args| ==> args[i].contents.None?)
    requires forall k :: 0 <= k < i ==> args[k].contents.Some?
    ensures Unreadable(args) == i
  {
    if i > 0 {
      StoppedAt(args[1..], i - 1);
    }
  }

  lemma WrittenOf(args: seq<Argument>, i: nat)
    requires i <= |args| && (i < |args| ==> args[i].contents.None?)
    requires forall k :: 0 <= k < i ==> args[k].contents.Some?
    ensures Written(args) == if i < |args| then Progress(args, i) else Progress(args, i) + Table(i)
  {
    hide Definitions, Table;
    StoppedAt(args, i);
    assert i == |args| ==> args[..i] == args;
  }

  /** The whole program, for the arguments after its own name. `opens`: the output file can be opened. */
  method Generate(args: seq<Argument>, opens: bool) returns (exit: ExitCode, out: Output?)
    requires CountsFit(args)
    ensures !opens ==> exit == ExitFailure && out == null
    ensures opens ==> out != null && fresh(out) && out.text == Written(args)
    ensures opens ==> (exit == ExitSuccess <==> forall k :: 0 <= k < |args| ==> args[k].contents.Some?)
  {
    hide NameDefinition, DataDefinition, Table, Progress, Written;
    if !opens {
      return ExitFailure, null;
    }
    var argc := |args| + 1;
    var o := new Output();
    o.Print(PREAMBLE);
    ProgressStart(args);
    var i := 1;
    while i < argc
      invariant 1 <= i <= argc
      invariant forall k :: 0 <= k < i - 1 ==> args[k].contents.Some?
      invariant o.text == Progress(args, i - 1)
    {
      if args[i - 1].contents.None? {
        WrittenOf(args, i - 1);
        return ExitFailure, o;
      }
      WriteFile(o, i, File(args[i - 1].name, args[i - 1].contents.value));
      ProgressStep(args, i - 1);
      i := i + 1;
    }
    WriteTable(o, argc);
    WrittenOf(args, argc - 1);
    return ExitSuccess, o;
  }

  /**
    Failure prefix: a run that stops at a file it cannot open has written a proper prefix of what
    any run with the same files before that point, and all files readable, writes.
   */
  lemma FailurePrefix(args: seq<Argument>, others: seq<Argument>)
    requires Unreadable(args) < |args| && Unreadable(others) == |others|
    requires Unreadable(args) <= |others| && args[..Unreadable(args)] == others[..Unreadable(args)]
    ensures Written(args) < Written(others)
  {
    hide Definitions, Table;
    var i := Unreadable(args);
    var files := Files(others);
    assert Files(args[..i]) == files[..i];
    var rest := DefinitionsSplit(files, i);
    TableNotEmpty(|files|);
    ProperPrefix(PREAMBLE, Definitions(files[..i]), rest, Table(|files|));
  }

  lemma TableNotEmpty(n: nat)
    ensures Table(n) != ""
  {
    assert |ENDIF| > 0;
  }

  lemma ProperPrefix(a: string, b: string, c: string, d: string)
    requires d != ""
    ensures a + b < a + (b + c) + d
  {
  }
}
