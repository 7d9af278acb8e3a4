/** From the files to the answers of the generated lookup, and exactly when that works. */
module EndToEnd {
  import opened Numerals
  import opened CppLexer
  import opened CppPreprocessor
  import opened CppHeader
  import opened HeaderText
  import opened HeaderTokens
  import opened HeaderComplete
  import opened HeaderMeaning
  import opened LookupReading

  /** What the header should mean: a row for each file, the null row, and the walk over them. */
  function Meaning(files: seq<File>): Program { Program(TableRows(files) + [NULL_ROW], WALK) }

  /** The printed table and function, read with any definitions. */
  lemma TableMeans(known: Strings, n: nat)
    ensures Match(TableTokens(n), DEFINES).None?
    ensures ReadProgram(TableTokens(n), known)
         == if RowsKnown(known, n) then Some(Program(KnownRows(known, n) + [NULL_ROW], WALK)) else None
  {
    hide ReadFunction, Match, ReadProgram, RowsKnown, KnownRows;
    ReadLookup();
    TableThen(known, n, LOOKUP_TOKENS);
  }

  lemma TableThen(known: Strings, n: nat, lookup: seq<Token>)
    requires ReadFunction(lookup, HEAD) == Some(WALK)
    ensures var t := HEAD_TOKENS + RowTokens(n) + TAIL_TOKENS + lookup;
            && Match(t, DEFINES).None?
            && ReadProgram(t, known)
               == if RowsKnown(known, n) then Some(Program(KnownRows(known, n) + [NULL_ROW], WALK)) else None
  {
    hide RowsKnown, KnownRows;
    Regroup(HEAD_TOKENS, RowTokens(n), TAIL_TOKENS, lookup);
    ReadHeadTokens(RowTokens(n) + (TAIL_TOKENS + lookup));
    ReadTable(known, n, lookup);
  }

  lemma TokensMean(files: seq<File>, table: seq<Token>)
    requires AllBindable(files)
    requires Match(table, DEFINES).None?
    ensures ReadTokens(DefinitionTokens(files) + table) == ReadProgram(table, Known(files))
  {
    ReadAllDefinitions(files, table);
  }

  lemma NothingDirected(files: seq<File>)
    requires AllBindable(files)
    ensures NoDirective(LexedTokens(files)) && NoDirective(TableTokens(|files|))
  {
    hide LexedTokens, TableTokens;
    LexedNoDirective(files);
    TableNoLiteral(|files|);
  }

  /** Where the header is included, with some macros defined. */
  lemma HeaderIncludes(files: seq<File>, values: seq<File>, macros: set<string>)
    requires AllBindable(values) && SpelledAs(files, values)
    ensures Include(Header(files), macros)
         == if GUARD in macros then Some(Included([], macros))
            else Some(Included(LexedTokens(values) + TableTokens(|files|), macros + {GUARD}))
  {
    hide Header, LexedTokens, TableTokens, SpelledAs, Preprocess;
    HeaderLexes(files, values);
    assert |values| == |files| by { SameNumber(files, values); }
    NothingDirected(values);
    GuardWorks(LexedTokens(values), TableTokens(|files|), macros);
  }

  lemma SameNumber(files: seq<File>, values: seq<File>)
    requires SpelledAs(files, values)
    ensures |values| == |files|
  {
  }

  lemma TokensMerge(values: seq<File>, macros: set<string>)
    requires AllBindable(values)
    ensures ReadIncluded(Included(LexedTokens(values) + TableTokens(|values|), macros))
         == ReadTokens(DefinitionTokens(values) + TableTokens(|values|))
  {
    hide LexedTokens, DefinitionTokens, TableTokens;
    MergeDefinitions(values, TableTokens(|values|));
    TableNoLiteral(|values|);
    MergeNothing(TableTokens(|values|));
  }

  /** The tokens of the header mean the files. */
  lemma TokensSpell(values: seq<File>, macros: set<string>)
    requires AllBindable(values)
    ensures ReadIncluded(Included(LexedTokens(values) + TableTokens(|values|), macros)) == Some(Meaning(values))
  {
    hide LexedTokens, TableTokens, DefinitionTokens, ReadTokens, ReadIncluded, ReadProgram, KnownRows, Known;
    TokensMerge(values, macros);
    KnownTable(values);
    TableMeans(Known(values), |values|);
    TokensMean(values, TableTokens(|values|));
  }

  /** The header means the files under the names that their printed names stand for. */
  lemma HeaderSpells(files: seq<File>, values: seq<File>)
    requires AllBindable(values) && SpelledAs(files, values)
    ensures Read(Header(files)) == Some(Meaning(values))
  {
    hide Header, Include, Meaning, LexedTokens, TableTokens, ReadIncluded, SpelledAs, AllBindable;
    SameNumber(files, values);
    HeaderIncludes(files, values, {});
    TokensSpell(values, {} + {GUARD});
  }

  /**
    The include guard: where its macro is not defined, the header means the files, whatever other macros
    are. Included once more after that, it adds nothing at all.
   */
  lemma IncludedTwice(files: seq<File>, macros: set<string>)
    requires AllReadable(files) && "TRANSLATION_FILES_H" !in macros
    ensures var first := Include(Header(files), macros);
            && first.Some? && ReadIncluded(first.value) == Some(Meaning(files))
            && first.value.macros == macros + {"TRANSLATION_FILES_H"}
            && Include(Header(files), first.value.macros) == Some(Included([], first.value.macros))
  {
    hide Header, Include, Meaning, LexedTokens, TableTokens, ReadIncluded, SpelledAs, AllBindable;
    ReadableSpelled(files);
    HeaderIncludes(files, files, macros);
    HeaderIncludes(files, files, macros + {GUARD});
    TokensSpell(files, macros + {GUARD});
  }

  lemma HeaderMeans(files: seq<File>)
    requires AllReadable(files)
    ensures Read(Header(files)) == Some(Meaning(files))
  {
    hide Header, Read, Meaning, SpelledAs;
    ReadableSpelled(files);
    HeaderSpells(files, files);
  }

  // ----- the lookup -----

  /** The contents of the first file with that name. */
  function FirstMatch(files: seq<File>, name: string): Option<string> {
    if files == [] then None
    else if files[0].name == name then Some(files[0].contents)
    else FirstMatch(files[1..], name)
  }

  /** The answer of the lookup, and what `data` then holds. */
  function Answer(found: Option<string>, data: string): (bool, string) {
    if found.Some? then (true, found.value) else (false, data)
  }

  lemma {:induction false} WalkFinds(files: seq<File>, name: string, data: string, p: nat)
    requires p <= |files|
    ensures Execute(Meaning(files), name, data, p) == Some(Answer(FirstMatch(files[p..], name), data))
    decreases |files| - p
  {
    if p < |files| {
      assert files[p..][0] == files[p] && files[p..][1..] == files[p + 1..];
      WalkFinds(files, name, data, p + 1);
    }
  }

  /** What is found is the first of that name, and nothing is found just when there is none. */
  lemma {:induction false} FirstMatchIsFirst(files: seq<File>, name: string, i: nat)
    requires i < |files| && files[i].name == name
    requires forall k :: 0 <= k < i ==> files[k].name != name
    ensures FirstMatch(files, name) == Some(files[i].contents)
  {
    if i > 0 {
      FirstMatchIsFirst(files[1..], name, i - 1);
    }
  }

  lemma {:induction false} FirstMatchNone(files: seq<File>, name: string)
    ensures FirstMatch(files, name) == None <==> forall k :: 0 <= k < |files| ==> files[k].name != name
    decreases |files|
  {
    if files != [] && files[0].name != name {
      FirstMatchNone(files[1..], name);
      forall k | 0 <= k < |files[1..]|
        ensures files[1..][k] == files[k + 1]
      {
      }
      if k :| 0 <= k < |files| && files[k].name == name {
        assert files[1..][k - 1].name == name;
      }
    }
  }

  /**
    End to end: compile the header that was written for these files and call its lookup. For any
    name, it terminates inside the table and answers with the bytes of the first file of that name,
    or with false and `data` as it was.
   */
  lemma EmbeddedFilesAreFound(files: seq<File>, name: string, data: string)
    requires AllReadable(files)
    ensures Read(Header(files)).Some?
    ensures Call(Read(Header(files)).value, name, data) == Some(Answer(FirstMatch(files, name), data))
  {
    hide Header, Read, Meaning, FirstMatch;
    HeaderMeans(files);
    WalkFinds(files, name, data, 0);
    assert files[0..] == files;
  }

  /** Different files never give the same header. */
  lemma HeaderInjective(files: seq<File>, others: seq<File>)
    requires AllReadable(files) && AllReadable(others)
    requires Header(files) == Header(others)
    ensures files == others
  {
    hide Run, Header, Read, Meaning;
    HeaderMeans(files);
    HeaderMeans(others);
    MeaningInjective(files, others);
  }

  lemma MeaningInjective(files: seq<File>, others: seq<File>)
    requires Meaning(files) == Meaning(others)
    ensures files == others
  {
    var a, b := Meaning(files).rows, Meaning(others).rows;
    assert |a| == |files| + 1 && |b| == |others| + 1;
    forall i | 0 <= i < |files|
      ensures files[i] == others[i]
    {
      assert a[i] == TableRows(files)[i] && b[i] == TableRows(others)[i];
    }
  }
}
