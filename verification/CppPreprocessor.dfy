/**
  The preprocessor, as far as the generated header goes: section 19 of ISO/IEC 14882:2017. A header is
  read where some macros are already defined. All of it must stand in one `#ifndef`; inside that,
  macros without a replacement may be defined and `<string>` included. Other directives are refused.
 */
module CppPreprocessor {
  import opened Numerals
  import opened CppLexer

  /** What including a text gives: the tokens that are left of it, and the macros that are then defined. */
  datatype Included = Included(tokens: seq<Token>, macros: set<string>)

  predicate IsIfndef(t: Token) {
    t.Directive? && |t.words| == 2 && t.words[0] == "ifndef" && IsIdentifier(t.words[1])
  }

  predicate IsDefine(t: Token) {
    t.Directive? && |t.words| == 2 && t.words[0] == "define" && IsIdentifier(t.words[1])
  }

  predicate IsIncludeString(t: Token) {
    t.Directive? && |t.words| == 2 && t.words[0] == "include" && t.words[1] == "<string>"
  }

  predicate IsEndif(t: Token) {
    t.Directive? && t.words != [] && t.words[0] == "endif" && IsComment(t.words[1..])
  }

  predicate IsComment(words: seq<string>) {
    words == [] ||
    (|words| >= 2 && words[0] == "/*" && words[|words| - 1] == "*/"
     && forall i :: 0 < i < |words| - 1 ==> words[i] != "*/")
  }

  /** A directive that may stand in the guarded text. The one without words does nothing. */
  predicate IsSimple(t: Token) { t.Directive? && (t.words == [] || IsDefine(t) || IsIncludeString(t)) }

  predicate AllSimple(t: seq<Token>) {
    forall i :: 0 <= i < |t| && t[i].Directive? ==> IsSimple(t[i])
  }

  /** The text in the guard. No name of the library may be used before `<string>` is included. */
  function Guarded(t: seq<Token>, macros: set<string>, included: bool): Option<Included>
    decreases |t|
  {
    if t == [] then Some(Included([], macros))
    else if t[0].Directive? then
      if !IsSimple(t[0]) then None
      else if IsDefine(t[0]) then Guarded(t[1..], macros + {t[0].words[1]}, included)
      else Guarded(t[1..], macros, included || IsIncludeString(t[0]))
    else if t[0] == Plain("std") && !included then None
    else
      var r :- Guarded(t[1..], macros, included);
      Some(Included([t[0]] + r.tokens, r.macros))
  }

  /** Phase 4. If the macro of the guard is defined, all of the text is skipped. */
  function Preprocess(t: seq<Token>, macros: set<string>): Option<Included> {
    if |t| < 2 || !IsIfndef(t[0]) || !IsEndif(t[|t| - 1]) || !AllSimple(t[1..|t| - 1]) then None
    else if t[0].words[1] in macros then Some(Included([], macros))
    else Guarded(t[1..|t| - 1], macros, false)
  }

  /** The text included, in the order of the phases of translation. */
  function Include(text: string, macros: set<string>): Option<Included> {
    var s := Finish(Run(START, text));
    if s.mode.Bad? then None else Preprocess(s.tokens, macros)
  }

  // ----- tokens without directives -----

  predicate NoDirective(t: seq<Token>) {
    forall i :: 0 <= i < |t| ==> !t[i].Directive?
  }

  /** The tokens that are not directives. */
  function Undirected(t: seq<Token>): (r: seq<Token>)
    ensures NoDirective(r)
  {
    if t == [] then [] else (if t[0].Directive? then [] else [t[0]]) + Undirected(t[1..])
  }

  lemma {:induction false} UndirectedAppend(a: seq<Token>, b: seq<Token>)
    ensures Undirected(a + b) == Undirected(a) + Undirected(b)
    decreases |a|
  {
    if a == [] {
      assert a + b == b;
    } else {
      assert (a + b)[1..] == a[1..] + b;
      UndirectedAppend(a[1..], b);
    }
  }

  lemma {:induction false} UndirectedSame(t: seq<Token>)
    requires NoDirective(t)
    ensures Undirected(t) == t
    decreases |t|
  {
    if t != [] {
      UndirectedSame(t[1..]);
    }
  }

  lemma {:induction false} GuardedKeeps(t: seq<Token>, macros: set<string>, included: bool)
    requires Guarded(t, macros, included).Some?
    ensures Guarded(t, macros, included).value.tokens == Undirected(t)
    decreases |t|
  {
    hide IsSimple, IsDefine, IsIncludeString;
    if t != [] {
      if t[0].Directive? {
        if IsDefine(t[0]) {
          GuardedKeeps(t[1..], macros + {DefinedBy(t[0])}, included);
        } else {
          GuardedKeeps(t[1..], macros, included || IsIncludeString(t[0]));
        }
      } else {
        GuardedKeeps(t[1..], macros, included);
      }
    }
  }

  function DefinedBy(t: Token): string
    requires IsDefine(t)
  {
    t.words[1]
  }

  lemma {:induction false} GuardedPlain(t: seq<Token>, macros: set<string>)
    requires NoDirective(t)
    ensures Guarded(t, macros, true) == Some(Included(t, macros))
    decreases |t|
  {
    if t != [] {
      GuardedPlain(t[1..], macros);
      assert t == [t[0]] + t[1..];
    }
  }

  /** Including a text where no macro is defined leaves its tokens without the directives. */
  lemma IncludeKeeps(text: string)
    requires Include(text, {}).Some?
    ensures var s := Finish(Run(START, text));
            !s.mode.Bad? && Include(text, {}).value.tokens == Undirected(s.tokens)
  {
    hide Run, IsIfndef, IsEndif, AllSimple;
    var t := Finish(Run(START, text)).tokens;
    var inner := t[1..|t| - 1];
    GuardedKeeps(inner, {}, false);
    assert t == [t[0]] + (inner + [t[|t| - 1]]);
    OnlyDirective(t[0]) by { GuardTokens(t); }
    OnlyDirective(t[|t| - 1]) by { GuardTokens(t); }
    UndirectedAppend([t[0]], inner + [t[|t| - 1]]);
    UndirectedAppend(inner, [t[|t| - 1]]);
    assert Undirected(inner) + [] == Undirected(inner);
  }

  lemma GuardTokens(t: seq<Token>)
    requires |t| >= 2 && IsIfndef(t[0]) && IsEndif(t[|t| - 1])
    ensures t[0].Directive? && t[|t| - 1].Directive?
  {
  }

  lemma OnlyDirective(t: Token)
    requires t.Directive?
    ensures Undirected([t]) == []
  {
    assert [t][1..] == [];
  }
}
