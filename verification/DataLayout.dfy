/** Where everything stands in the text of one data literal. */
module DataLayout {
  import opened Numerals
  import opened HeaderText

  /** The lines that `n` bytes take. */
  function Lines(n: nat): nat { (n + 15) / 16 }

  /** Where the escape of byte `k` begins: four characters for each byte, five for each line. */
  function Offset(k: nat): nat { 4 * k + 5 * (k / 16) + 4 }

  lemma LinesOf(j: nat)
    ensures Lines(j + 1) == j / 16 + 1
    ensures j > 0 ==> Lines(j) == (j - 1) / 16 + 1
    ensures j > 0 ==> j / 16 == (j - 1) / 16 + if j % 16 == 0 then 1 else 0
  {
  }

  lemma {:induction false} BodySize(bytes: seq<Octet>)
    requires bytes != []
    ensures |DataBody(bytes)| == Offset(|bytes| - 1) + 4
    decreases |bytes|
  {
    var j := |bytes| - 1;
    var before := DataBody(bytes[..j]);
    assert |DataBody(bytes)| == |before| + |Separator(j)| + 4;
    if j > 0 {
      BodySize(bytes[..j]);
      LinesOf(j);
      assert |Separator(j)| == (if j % 16 == 0 then 5 else 0);
    } else {
      assert bytes[..0] == [] && before == "";
    }
  }

  /** From the first line break to the closing quote, `n` bytes take `4n` characters and five for each line. */
  lemma DataSize(bytes: seq<Octet>)
    ensures |DataBody(bytes) + "\""| == if bytes == [] then 1 else 4 * |bytes| + 5 * Lines(|bytes|)
  {
    var text := DataBody(bytes);
    assert |text + "\""| == |text| + 1;
    if bytes != [] {
      BodySize(bytes);
      LinesOf(|bytes| - 1);
    }
  }

  /** What was written for the first bytes stays in front. */
  lemma {:induction false} BodyPrefix(bytes: seq<Octet>, k: nat) returns (rest: string)
    requires k <= |bytes|
    ensures DataBody(bytes) == DataBody(bytes[..k]) + rest
    ensures k < |bytes| ==> rest != "" && rest[0] == (Separator(k) + Escaped(bytes[k]))[0]
    decreases |bytes|
  {
    hide Separator, Escaped;
    if k == |bytes| {
      assert bytes[..k] == bytes;
      rest := "";
    } else {
      var j := |bytes| - 1;
      var more := BodyPrefix(bytes[..j], k);
      assert bytes[..j][..k] == bytes[..k];
      rest := more + Separator(j) + Escaped(bytes[j]);
      NestLeft(DataBody(bytes[..k]), more, Separator(j), Escaped(bytes[j]));
      if k == j {
        SuffixOfSame(DataBody(bytes[..j]), more);
      }
    }
  }

  lemma SuffixOfSame(a: string, b: string)
    requires a == a + b
    ensures b == ""
  {
    assert |a| == |a| + |b|;
  }

  /**
    Escape safety: the escape of every byte has exactly two digits, and what follows it is the
    backslash of the next escape or a quote, never a hexadecimal digit.
   */
  lemma EscapeAt(bytes: seq<Octet>, k: nat)
    requires k < |bytes|
    ensures var text := DataBody(bytes) + "\"";
            && Offset(k) + 4 < |text|
            && text[Offset(k)..Offset(k) + 4] == Escaped(bytes[k])
            && (text[Offset(k) + 4] == '\\' || text[Offset(k) + 4] == '\"')
  {
    var now := bytes[..k + 1];
    var rest := BodyPrefix(bytes, k + 1);
    BodySize(now);
    LastEscape(bytes, k);
    if k + 1 < |bytes| {
      NextBegins(k + 1, bytes[k + 1]);
    } else {
      assert bytes == now;
      SuffixOfSame(DataBody(now), rest);
    }
    AtTheSeam(DataBody(bytes), DataBody(now), rest);
  }

  lemma LastEscape(bytes: seq<Octet>, k: nat)
    requires k < |bytes|
    ensures var text := DataBody(bytes[..k + 1]);
            |text| >= 4 && text[|text| - 4..] == Escaped(bytes[k])
  {
    var now := bytes[..k + 1];
    assert now[k] == bytes[k];
  }

  lemma NextBegins(j: nat, c: Octet)
    ensures (Separator(j) + Escaped(c))[0] == if j % 16 != 0 then '\\' else if j > 0 then '\"' else '\n'
  {
  }

  lemma AtTheSeam(text: string, a: string, rest: string)
    requires |a| >= 4 && text == a + rest
    ensures (text + "\"")[|a| - 4..|a|] == a[|a| - 4..]
    ensures (text + "\"")[|a|] == if rest == "" then '\"' else rest[0]
  {
  }

  // ----- quotes -----

  function Quotes(text: string): nat {
    if text == "" then 0
    else Quotes(text[..|text| - 1]) + if text[|text| - 1] == '\"' then 1 else 0
  }

  lemma {:induction false} QuotesAppend(a: string, b: string)
    ensures Quotes(a + b) == Quotes(a) + Quotes(b)
    decreases |b|
  {
    if b == "" {
      assert a + b == a;
    } else {
      var n := |b| - 1;
      assert (a + b)[..|a + b| - 1] == a + b[..n];
      QuotesAppend(a, b[..n]);
    }
  }

  lemma {:induction false} NoQuotes(text: string)
    requires '\"' !in text
    ensures Quotes(text) == 0
    decreases |text|
  {
    if text != "" {
      NoQuotes(text[..|text| - 1]);
    }
  }

  lemma SeparatorQuotes(j: nat)
    ensures Quotes(Separator(j)) == if j % 16 != 0 then 0 else if j > 0 then 2 else 1
  {
    NoQuotes("\n  ");
    QuotesAppend("\n  ", "\"");
    assert "\n  " + "\"" == "\n  \"";
    assert "\""[..0] == "" && Quotes("\"") == 1;
    QuotesAppend("\"", "\n  \"");
  }

  lemma {:induction false} BodyQuotes(bytes: seq<Octet>)
    ensures Quotes(DataBody(bytes)) == if bytes == [] then 0 else 2 * Lines(|bytes|) - 1
    decreases |bytes|
  {
    hide Separator, Escaped, Quotes;
    NothingQuoted();
    if bytes != [] {
      var j := |bytes| - 1;
      BodyQuotes(bytes[..j]);
      QuotesAppend(DataBody(bytes[..j]) + Separator(j), Escaped(bytes[j]));
      QuotesAppend(DataBody(bytes[..j]), Separator(j));
      SeparatorQuotes(j);
      EscapedQuotes(bytes[j]);
      LinesOf(j);
      assert j > 0 ==> Lines(j + 1) == Lines(j) + if j % 16 == 0 then 1 else 0;
    }
  }

  lemma EscapedQuotes(c: Octet)
    ensures Quotes(Escaped(c)) == 0
  {
    NoQuotes(Escaped(c));
  }

  lemma NothingQuoted()
    ensures Quotes("") == 0
  {
  }

  /** Literal balance: two quotes for each line, but a single one when there are no bytes. */
  lemma DataQuotes(bytes: seq<Octet>)
    ensures Quotes(DataBody(bytes) + "\"") == if bytes == [] then 1 else 2 * Lines(|bytes|)
  {
    BodyQuotes(bytes);
    OneMoreQuote(DataBody(bytes));
  }

  lemma OneMoreQuote(text: string)
    ensures Quotes(text + "\"") == Quotes(text) + 1
  {
    assert (text + "\"")[..|text|] == text;
  }
}
