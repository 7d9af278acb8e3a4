/** Reading back the string literals of the header: names as they are, data escaped byte by byte. */
module LiteralReading {
  import opened Numerals
  import opened CppLexer
  import opened HeaderText

  // ----- escapes -----

  lemma HexCharValue(d: nat)
    requires d < 16
    ensures IsHexDigit(HexChar(d)) && HexValue(HexChar(d)) == d
  {
  }

  lemma RunFour(s: State, text: string)
    requires |text| == 4
    ensures Run(s, text) == Step(Step(Step(Step(s, text[0]), text[1]), text[2]), text[3])
  {
    var t := text[1..];
    var u := t[1..];
    var v := u[1..];
    assert t[0] == text[1] && u[0] == text[2] && v[0] == text[3] && v[1..] == "";
    var s1 := Step(s, text[0]);
    var s2 := Step(s1, text[1]);
    var s3 := Step(s2, text[2]);
    assert Run(s, text) == Run(s1, t);
    assert Run(s1, t) == Run(s2, u);
    assert Run(s2, u) == Run(s3, v);
    assert Run(s3, v) == Step(s3, text[3]);
  }

  /** The value that a mode inside a literal has read so far. */
  predicate HasRead(m: Mode, value: string) {
    match m
    case InLiteral(v) => v == value
    case InHex(v, code) => code < 256 && value == v + [code as char]
    case _ => false
  }

  /** Whatever byte came before, an escape is read as exactly one more byte. */
  lemma EscapedRun(t: seq<Token>, m: Mode, value: string, c: Octet)
    requires HasRead(m, value)
    ensures Run(State(t, m), Escaped(c)) == State(t, InHex(value, c as int))
  {
    HexCharValue(c as int / 16);
    HexCharValue(c as int % 16);
    var e := Escaped(c);
    RunFour(State(t, m), e);
    assert Step(State(t, m), '\\') == State(t, AfterBackslash(value));
    assert Step(State(t, AfterBackslash(value)), 'x') == State(t, AfterBackslashX(value));
    assert 16 * (c as int / 16) + c as int % 16 == c as int;
  }

  // ----- the chunks of a data literal -----

  /** The first `q` lines of sixteen bytes. */
  function FullChunks(bytes: seq<Octet>, q: nat): (r: seq<string>)
    requires 16 * q <= |bytes|
    ensures |r| == q && forall i :: 0 <= i < q ==> r[i] == bytes[16 * i..16 * i + 16]
  {
    seq(q, i requires 0 <= i < q => bytes[16 * i..16 * i + 16])
  }

  /** The layout in lines: sixteen bytes on every line but the last, and some on the last. */
  function Chunks(bytes: seq<Octet>): (r: seq<string>)
    requires bytes != []
    ensures |r| == (|bytes| + 15) / 16
    ensures forall i :: 0 <= i < |r| - 1 ==> |r[i]| == 16
    ensures 1 <= |r[|r| - 1]| <= 16
    ensures Joined(r) == bytes
  {
    var q := (|bytes| - 1) / 16;
    FullChunksJoined(bytes, q);
    JoinedAppend(FullChunks(bytes, q), bytes[16 * q..]);
    assert bytes[..16 * q] + bytes[16 * q..] == bytes;
    FullChunks(bytes, q) + [bytes[16 * q..]]
  }

  lemma {:induction false} JoinedAppend(a: seq<string>, b: string)
    ensures Joined(a + [b]) == Joined(a) + b
    decreases |a|
  {
    if a == [] {
      assert [b][1..] == [] && a + [b] == [b];
    } else {
      assert (a + [b])[1..] == a[1..] + [b];
      JoinedAppend(a[1..], b);
    }
  }

  lemma {:induction false} FullChunksJoined(bytes: seq<Octet>, q: nat)
    requires 16 * q <= |bytes|
    ensures Joined(FullChunks(bytes, q)) == bytes[..16 * q]
  {
    if q > 0 {
      FullChunksJoined(bytes, q - 1);
      JoinedAppend(FullChunks(bytes, q - 1), bytes[16 * (q - 1)..16 * q]);
      assert FullChunks(bytes, q) == FullChunks(bytes, q - 1) + [bytes[16 * (q - 1)..16 * q]];
    }
  }

  lemma FullChunksPrefix(bytes: seq<Octet>, c: Octet, q: nat)
    requires 16 * q <= |bytes|
    ensures FullChunks(bytes + [c], q) == FullChunks(bytes, q)
  {
    forall i | 0 <= i < q
      ensures FullChunks(bytes + [c], q)[i] == FullChunks(bytes, q)[i]
    {
      assert (bytes + [c])[16 * i..16 * i + 16] == bytes[16 * i..16 * i + 16];
    }
  }

  /** Where the reader stands when the byte loop has written these bytes. */
  function Standing(bytes: seq<Octet>): State
    requires bytes != []
  {
    var n := |bytes|;
    var q := (n - 1) / 16;
    State(Literals(FullChunks(bytes, q)), InHex(bytes[16 * q..n - 1], bytes[n - 1] as int))
  }

  lemma StandingHasRead(bytes: seq<Octet>)
    requires bytes != []
    ensures HasRead(Standing(bytes).mode, bytes[16 * ((|bytes| - 1) / 16)..])
  {
  }

  lemma FirstByte(c: Octet)
    ensures Run(START, "\n  \"" + Escaped(c)) == Standing([c])
  {
    RunAppend(START, "\n  \"", Escaped(c));
    RunFour(START, "\n  \"");
    EscapedRun([], InLiteral(""), "", c);
    assert Literals(FullChunks([c], 0)) == [];
    assert [c][0..0] == "";
  }

  lemma SameLine(bytes: seq<Octet>, c: Octet)
    requires |bytes| % 16 != 0
    ensures Run(Standing(bytes), Escaped(c)) == Standing(bytes + [c])
  {
    var all := bytes + [c];
    var q := (|bytes| - 1) / 16;
    assert q == (|all| - 1) / 16;
    StandingHasRead(bytes);
    EscapedRun(Standing(bytes).tokens, Standing(bytes).mode, bytes[16 * q..], c);
    FullChunksPrefix(bytes, c, q);
    assert all[16 * q..|bytes|] == bytes[16 * q..];
  }

  lemma LineBreak(t: seq<Token>, m: Mode, read: string)
    requires HasRead(m, read)
    ensures Run(State(t, m), "\"" + "\n  \"") == State(t + [Literal(read)], InLiteral(""))
  {
    RunChar(State(t, m), '\"', "\n  \"");
    RunFour(State(t, AfterLiteral(read)), "\n  \"");
  }

  lemma NextLine(bytes: seq<Octet>, c: Octet)
    requires |bytes| % 16 == 0 && bytes != []
    ensures Run(Standing(bytes), "\"" + "\n  \"" + Escaped(c)) == Standing(bytes + [c])
  {
    hide Run, Escaped;
    var all := bytes + [c];
    var q := |bytes| / 16 - 1;
    assert (|bytes| - 1) / 16 == q && (|all| - 1) / 16 == q + 1;
    var s := Standing(bytes);
    var read := bytes[16 * q..];
    StandingHasRead(bytes);
    LineBreak(s.tokens, s.mode, read);
    RunAppend(s, "\"" + "\n  \"", Escaped(c));
    EscapedRun(s.tokens + [Literal(read)], InLiteral(""), "", c);
    FullChunksPrefix(bytes, c, q + 1);
    assert FullChunks(bytes, q + 1) == FullChunks(bytes, q) + [read];
    assert s.tokens + [Literal(read)] == Literals(FullChunks(all, q + 1));
    assert all[16 * (q + 1)..|bytes|] == "";
  }

  /** After any number of bytes the text ends inside an open literal, with exactly those bytes read. */
  lemma {:induction false} DataBodyRun(bytes: seq<Octet>)
    requires bytes != []
    ensures Run(START, DataBody(bytes)) == Standing(bytes)
    decreases |bytes|
  {
    var n := |bytes| - 1;
    var c := bytes[n];
    if n == 0 {
      assert bytes[..0] == [] && bytes == [c];
      assert DataBody(bytes) == "" + "\n  \"" + Escaped(c) == "\n  \"" + Escaped(c);
      FirstByte(c);
    } else {
      var before := bytes[..n];
      assert bytes == before + [c];
      DataBodyRun(before);
      assert DataBody(bytes) == DataBody(before) + (Separator(n) + Escaped(c));
      RunAppend(START, DataBody(before), Separator(n) + Escaped(c));
      if n % 16 != 0 {
        assert Separator(n) + Escaped(c) == Escaped(c);
        SameLine(before, c);
      } else {
        NextLine(before, c);
      }
    }
  }

  lemma ClosingQuote(bytes: seq<Octet>)
    requires bytes != []
    ensures var s := Run(Standing(bytes), "\"");
            s.mode.AfterLiteral? && Finish(s) == State(Literals(Chunks(bytes)), Between)
  {
    var q := (|bytes| - 1) / 16;
    var s := Standing(bytes);
    StandingHasRead(bytes);
    RunChar(s, '\"', "");
    assert Step(s, '\"') == State(s.tokens, AfterLiteral(bytes[16 * q..]));
    ChunkTokens(bytes);
  }

  lemma ChunkTokens(bytes: seq<Octet>)
    requires bytes != []
    ensures Literals(Chunks(bytes)) == Standing(bytes).tokens + [Literal(bytes[16 * ((|bytes| - 1) / 16)..])]
  {
  }

  /** One closing quote after any number of bytes makes them a complete run of literals. */
  lemma DataLexes(bytes: seq<Octet>)
    requires bytes != []
    ensures Lexes(DataBody(bytes) + "\"", Literals(Chunks(bytes)))
    ensures Run(START, DataBody(bytes) + "\"").mode.AfterLiteral?
  {
    DataBodyRun(bytes);
    RunAppend(START, DataBody(bytes), "\"");
    ClosingQuote(bytes);
  }

  /** Data round trip: after phase 6 the emitted literals are one string, the bytes that went in. */
  lemma DataRoundTrip(bytes: seq<Octet>)
    requires bytes != []
    ensures Concatenate(Finish(Run(START, DataBody(bytes) + "\"")).tokens) == [Literal(bytes)]
    ensures Finish(Run(START, DataBody(bytes) + "\"")).mode == Between
  {
    DataLexes(bytes);
    ConcatenateLiterals(Chunks(bytes), []);
    assert Literals(Chunks(bytes)) + [] == Literals(Chunks(bytes));
  }
}
