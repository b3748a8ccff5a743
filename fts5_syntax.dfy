/** The part of SQLite's FTS5 query syntax that the formatted query relies on: a string is
    written between double quotes, and a double quote inside it is written twice; a `*`
    right after the closing quote makes the phrase a prefix query; phrases side by side,
    separated by spaces, must all match. `ReadPhrases` reads exactly the shape the formatter
    means to produce (prefix phrases separated by single spaces) and gives back the text of
    each phrase. Matching, tokenisation and ranking are not modelled.

    This is where the formatter's missing escape shows. A lone `"` in a term ends its string
    early, and the query does not read at all (`QuoteInTermSplitsPhrase`, on `a"b`). A
    doubled `""` in a term reads as one `"`, so the query searches a different term than the
    one typed (`DoubledQuoteInTerm`, on `a""b`). The same formatter with quotes doubled reads
    back as the user's terms for every input without a NUL character
    (`EscapedQueryReadsBack`). */
module Fts5Syntax {
  import opened PyStr
  import opened QueryFormat

  /** The outcome of reading a prefix of the query text: the value read and the text after
      it, or failure. */
  datatype Reading<T> = Fail | Read(value: T, rest: string)

  datatype Option<T> = None | Some(value: T)

  function PrependChar(c: char, r: Reading<string>): Reading<string> {
    match r
    case Fail => Fail
    case Read(v, rest) => Read([c] + v, rest)
  }

  /** Reads the body of a string whose opening quote has been consumed, up to and including
      the closing quote; `""` stands for one `"`. Fails when the string is never closed:
      FTS5's tokenizer treats a NUL character as the end of the query text, so a string that
      reaches one is unterminated as well. */
  function ReadStringBody(q: string): (r: Reading<string>)
    ensures r.Read? ==> |r.rest| < |q|
  {
    if q == [] || q[0] == '\0' then Fail
    else if q[0] == '"' then
      if |q| > 1 && q[1] == '"' then PrependChar('"', ReadStringBody(q[2..]))
      else Read("", q[1..])
    else PrependChar(q[0], ReadStringBody(q[1..]))
  }

  /** Reads the FTS5 string that opens `q`. */
  function ReadString(q: string): (r: Reading<string>)
    ensures r.Read? ==> |r.rest| < |q|
  {
    if q == [] || q[0] != '"' then Fail else ReadStringBody(q[1..])
  }

  /** Reads a prefix phrase `"…"*` and gives its text. */
  function ReadPrefixPhrase(q: string): (r: Reading<string>)
    ensures r.Read? ==> |r.rest| < |q|
  {
    match ReadString(q)
    case Fail => Fail
    case Read(text, rest) => if rest != [] && rest[0] == '*' then Read(text, rest[1..]) else Fail
  }

  /** Reads a whole query made of prefix phrases separated by single spaces. */
  function ReadPhrases(q: string): Option<seq<string>>
    decreases |q|
  {
    if q == [] then Some([])
    else
      match ReadPrefixPhrase(q)
      case Fail => None
      case Read(text, rest) =>
        if rest == [] then Some([text])
        else if rest[0] == ' ' && |rest| > 1 then
          match ReadPhrases(rest[1..])
          case None => None
          case Some(more) => Some([text] + more)
        else None
  }

  // ---------------------------------------------------------------------------------------
  // The corrected formatter: double every `"` of the term before quoting it.

  function EscapeQuotes(term: string): string {
    if term == [] then ""
    else (if term[0] == '"' then "\"\"" else [term[0]]) + EscapeQuotes(term[1..])
  }

  function EscapedToken(term: string): string {
    "\"" + EscapeQuotes(term) + "\"*"
  }

  function EscapedTokens(terms: seq<string>): seq<string> {
    seq(|terms|, i requires 0 <= i < |terms| => EscapedToken(terms[i]))
  }

  function FormatQueryEscaped(searchQuery: string): string {
    Join(EscapedTokens(Split(searchQuery)), " ")
  }

  lemma {:induction false} EscapeQuotesInverse(term: string, r: string)
    requires '\0' !in term
    requires r == [] || r[0] != '"'
    ensures ReadStringBody(EscapeQuotes(term) + "\"" + r) == Read(term, r)
  {
    if term == [] {
      assert EscapeQuotes(term) + "\"" + r == "\"" + r;
      ReadClosingQuote(r);
    } else {
      assert '\0' !in term[1..];
      EscapeQuotesInverse(term[1..], r);
      if term[0] == '"' {
        QuoteStep(term, r);
      } else {
        PlainStep(term, r);
      }
    }
  }

  lemma QuoteStep(term: string, r: string)
    requires term != [] && term[0] == '"'
    requires ReadStringBody(EscapeQuotes(term[1..]) + "\"" + r) == Read(term[1..], r)
    ensures ReadStringBody(EscapeQuotes(term) + "\"" + r) == Read(term, r)
  {
    var rest := EscapeQuotes(term[1..]) + "\"" + r;
    assert EscapeQuotes(term) + "\"" + r == "\"\"" + rest;
    ReadDoubledQuote(rest);
    assert [term[0]] + term[1..] == term;
  }

  lemma PlainStep(term: string, r: string)
    requires term != [] && term[0] != '"' && term[0] != '\0'
    requires ReadStringBody(EscapeQuotes(term[1..]) + "\"" + r) == Read(term[1..], r)
    ensures ReadStringBody(EscapeQuotes(term) + "\"" + r) == Read(term, r)
  {
    var rest := EscapeQuotes(term[1..]) + "\"" + r;
    assert EscapeQuotes(term) + "\"" + r == [term[0]] + rest;
    ReadPlainChar(term[0], rest);
    assert [term[0]] + term[1..] == term;
  }

  lemma ReadClosingQuote(r: string)
    requires r == [] || r[0] != '"'
    ensures ReadStringBody("\"" + r) == Read("", r)
  {
    assert ("\"" + r)[1..] == r;
  }

  lemma ReadDoubledQuote(rest: string)
    ensures ReadStringBody("\"\"" + rest) == PrependChar('"', ReadStringBody(rest))
  {
    assert ("\"\"" + rest)[2..] == rest;
  }

  lemma ReadPlainChar(c: char, rest: string)
    requires c != '"' && c != '\0'
    ensures ReadStringBody([c] + rest) == PrependChar(c, ReadStringBody(rest))
  {
    assert ([c] + rest)[1..] == rest;
  }

  /** An escaped token reads back as a prefix phrase whose text is the term, whatever the
      term holds but a NUL, and leaves what follows it untouched. */
  lemma EscapedTokenReadsBack(term: string, r: string)
    requires '\0' !in term
    ensures ReadPrefixPhrase(EscapedToken(term) + r) == Read(term, r)
  {
    var q := EscapedToken(term) + r;
    assert q == "\"" + (EscapeQuotes(term) + "\"" + ("*" + r));
    assert q[1..] == EscapeQuotes(term) + "\"" + ("*" + r);
    EscapeQuotesInverse(term, "*" + r);
    assert ("*" + r)[1..] == r;
  }

  lemma {:induction false} EscapedTokensReadBack(terms: seq<string>)
    requires forall i :: 0 <= i < |terms| ==> '\0' !in terms[i]
    ensures ReadPhrases(Join(EscapedTokens(terms), " ")) == Some(terms)
  {
    if |terms| == 1 {
      OneTokenReadsBack(terms);
    } else if |terms| > 1 {
      EscapedTokensReadBack(terms[1..]);
      MoreTokensReadBack(terms);
    }
  }

  lemma OneTokenReadsBack(terms: seq<string>)
    requires |terms| == 1 && '\0' !in terms[0]
    ensures ReadPhrases(Join(EscapedTokens(terms), " ")) == Some(terms)
  {
    var toks := EscapedTokens(terms);
    EscapedTokenReadsBack(terms[0], "");
    assert toks[0] + "" == toks[0];
    assert Join(toks, " ") == toks[0] && toks[0] != [];
    assert terms == [terms[0]];
  }

  lemma MoreTokensReadBack(terms: seq<string>)
    requires |terms| > 1 && '\0' !in terms[0]
    requires ReadPhrases(Join(EscapedTokens(terms[1..]), " ")) == Some(terms[1..])
    ensures ReadPhrases(Join(EscapedTokens(terms), " ")) == Some(terms)
  {
    var toks := EscapedTokens(terms);
    var more := Join(EscapedTokens(terms[1..]), " ");
    assert toks[1..] == EscapedTokens(terms[1..]);
    assert more != [] by {
      JoinEnds(EscapedTokens(terms[1..]), " ");
    }
    assert Join(toks, " ") == EscapedToken(terms[0]) + (" " + more);
    EscapedTokenReadsBack(terms[0], " " + more);
    ReadPhrasesCons(Join(toks, " "), terms[0], more, terms[1..]);
    assert [terms[0]] + terms[1..] == terms;
  }

  lemma ReadPhrasesCons(q: string, text: string, more: string, texts: seq<string>)
    requires more != [] && ReadPrefixPhrase(q) == Read(text, " " + more)
    requires ReadPhrases(more) == Some(texts)
    ensures ReadPhrases(q) == Some([text] + texts)
  {
    assert (" " + more)[1..] == more;
  }

  /** The corrected formatter: reading its output gives back exactly the user's terms, for
      every text without a NUL character. */
  lemma EscapedQueryReadsBack(searchQuery: string)
    requires '\0' !in searchQuery
    ensures ReadPhrases(FormatQueryEscaped(searchQuery)) == Some(Split(searchQuery))
  {
    SplitKeepsCharacters(searchQuery, '\0');
    EscapedTokensReadBack(Split(searchQuery));
  }

  // ---------------------------------------------------------------------------------------
  // The formatter as written agrees with the corrected one when the input has no `"` ...

  lemma {:induction false} EscapeQuotesNoQuote(term: string)
    requires '"' !in term
    ensures EscapeQuotes(term) == term
  {
    if term != [] {
      assert term[0] != '"';
      assert '"' !in term[1..];
      EscapeQuotesNoQuote(term[1..]);
      assert [term[0]] + term[1..] == term;
    }
  }

  /** Every character of a term comes from the input. */
  lemma {:induction false} SplitKeepsCharacters(s: string, c: char)
    requires c !in s
    decreases |s|
    ensures forall i :: 0 <= i < |Split(s)| ==> c !in Split(s)[i]
  {
    if s != [] {
      assert c !in s[1..];
      if IsSpace(s[0]) {
        SplitKeepsCharacters(s[1..], c);
      } else {
        var n := WordLength(s);
        assert c !in s[n..];
        SplitKeepsCharacters(s[n..], c);
        var terms := Split(s);
        assert terms == [s[..n]] + Split(s[n..]);
        assert c !in s[..n];
        forall i | 0 < i < |terms| ensures c !in terms[i] {
          assert terms[i] == Split(s[n..])[i - 1];
        }
      }
    }
  }

  /** For input without `"`, the query as written is the corrected one, and so reads back as
      the user's terms when there is no NUL either. */
  lemma FormatQueryReadsBack(searchQuery: string)
    requires '"' !in searchQuery
    ensures FormatQuery(searchQuery) == FormatQueryEscaped(searchQuery)
    ensures '\0' !in searchQuery ==> ReadPhrases(FormatQuery(searchQuery)) == Some(Split(searchQuery))
  {
    var terms := Split(searchQuery);
    SplitKeepsCharacters(searchQuery, '"');
    forall i | 0 <= i < |terms| ensures Tokens(terms)[i] == EscapedTokens(terms)[i] {
      EscapeQuotesNoQuote(terms[i]);
    }
    assert Tokens(terms) == EscapedTokens(terms);
    if '\0' !in searchQuery {
      EscapedQueryReadsBack(searchQuery);
    }
  }

  // ... and goes wrong when a term holds one.

  /** Typing `a"b` yields the query `"a"b"*`. */
  lemma QuoteInTermFormat()
    ensures FormatQuery("a\"b") == "\"a\"b\"*"
  {
    var s := "a\"b";
    assert !IsSpace('a') && !IsSpace('"') && !IsSpace('b');
    assert s[1..] == "\"b" && s[1..][1..] == "b" && s[1..][1..][1..] == [];
    assert WordLength("b") == 1;
    assert WordLength(s[1..]) == 2;
    assert WordLength(s) == 3;
    assert s[..3] == s && s[3..] == [];
    assert Split(s) == [s];
    assert Token(s) == "\"a\"b\"*";
    assert Tokens([s]) == ["\"a\"b\"*"];
  }

  /** The query typed as `a"b`: its first string is just `a`, followed by `b"*`, whose `"`
      opens a string that is never closed; the query does not read as the prefix phrase
      `a"b`. */
  lemma QuoteInTermSplitsPhrase()
    ensures FormatQuery("a\"b") == "\"a\"b\"*"
    ensures ReadString(FormatQuery("a\"b")) == Read("a", "b\"*")
    ensures ReadString(FormatQuery("a\"b")[4..]) == Fail
    ensures ReadPhrases(FormatQuery("a\"b")) == None
  {
    QuoteInTermFormat();
    var q := "\"a\"b\"*";
    var body := q[1..];
    assert body == "a\"b\"*" && body[0] == 'a';
    assert body[1..] == "\"b\"*";
    assert ReadStringBody(body[1..]) == Read("", "b\"*");
    assert ['a'] + "" == "a";
    assert ReadStringBody(body) == Read("a", "b\"*");
    assert ReadString(q) == Read("a", "b\"*");
    assert ReadPrefixPhrase(q) == Fail;
    assert "\"*"[1..] == "*" && "*"[1..] == [];
    assert ReadStringBody("*") == PrependChar('*', ReadStringBody(""));
  }

  /** The query typed as `a""b` is `"a""b"*`, one well-formed prefix phrase whose text is
      `a"b`: the term searched is not the term typed, and nothing reports it. */
  lemma DoubledQuoteInTerm()
    ensures Split("a\"\"b") == ["a\"\"b"]
    ensures FormatQuery("a\"\"b") == "\"a\"\"b\"*"
    ensures ReadPhrases(FormatQuery("a\"\"b")) == Some(["a\"b"])
  {
    var typed, meant := "a\"\"b", "a\"b";
    DoubledQuoteFormat();
    DoubledQuoteEscape();
    var tok := Token(typed);
    assert tok == EscapedToken(meant);
    assert EscapedTokens([meant]) == [tok];
    OneTokenReadsBack([meant]);
  }

  /** `a""b` is one term, and its query is its one token. */
  lemma DoubledQuoteFormat()
    ensures Split("a\"\"b") == ["a\"\"b"]
    ensures FormatQuery("a\"\"b") == Token("a\"\"b") == "\"a\"\"b\"*"
  {
    var typed := "a\"\"b";
    assert typed[0] == 'a' && typed[1] == '"' && typed[2] == '"' && typed[3] == 'b';
    assert IsWord(typed);
    JoinSplitRoundTrip([typed]);
    assert Tokens([typed]) == [Token(typed)];
  }

  /** Escaping `a"b` gives `a""b`. */
  lemma DoubledQuoteEscape()
    ensures EscapeQuotes("a\"b") == "a\"\"b"
  {
    var meant := "a\"b";
    assert meant[1..] == "\"b" && meant[1..][1..] == "b" && meant[1..][1..][1..] == [];
  }
}
