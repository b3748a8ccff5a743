/** The search page's query formatter (app.py, line 108):
    `' '.join([f'"{term}"*' for term in search_query.split()])`.
    Each whitespace-separated term becomes an FTS5 quoted string followed by the prefix
    marker `*`; the tokens are joined with single spaces, which FTS5 reads as AND. The term
    is copied as it is: an embedded `"` is not escaped (see module Fts5Syntax). */
module QueryFormat {
  import opened PyStr

  /** `f'"{term}"*'`: the term, as it is, between an opening `"` and the closing `"*`. */
  function Token(term: string): (t: string)
    ensures |t| == |term| + 3 && t[0] == '"' && t[1..|t| - 2] == term
    ensures t[|t| - 2] == '"' && t[|t| - 1] == '*'
  {
    "\"" + term + "\"*"
  }

  function Tokens(terms: seq<string>): seq<string> {
    seq(|terms|, i requires 0 <= i < |terms| => Token(terms[i]))
  }

  /** The MATCH argument built from the text the user typed. */
  function FormatQuery(searchQuery: string): string {
    Join(Tokens(Split(searchQuery)), " ")
  }

  /** A token of a term is itself a term: `split()` cannot cut inside it. */
  lemma TokenIsWord(term: string)
    requires IsWord(term)
    ensures IsWord(Token(term))
  {
    var t := Token(term);
    forall i | 0 <= i < |t| ensures !IsSpace(t[i]) {
      if 0 < i < |t| - 2 {
        assert t[i] == term[i - 1];
      }
    }
  }

  lemma TokensAreWords(terms: seq<string>)
    requires forall i :: 0 <= i < |terms| ==> IsWord(terms[i])
    ensures forall i :: 0 <= i < |terms| ==> IsWord(Tokens(terms)[i])
  {
    forall i | 0 <= i < |terms| ensures IsWord(Tokens(terms)[i]) {
      TokenIsWord(terms[i]);
    }
  }

  /** Splitting the formatted query again gives one token per term of the input, in the
      input's order, each the term unchanged between `"` and `"*`; the tokens are separated
      by exactly one space, with no whitespace before the first or after the last. */
  lemma FormatQueryTokens(searchQuery: string)
    ensures var q, terms := FormatQuery(searchQuery), Split(searchQuery);
      |Split(q)| == |terms| &&
      (forall i :: 0 <= i < |terms| ==> Split(q)[i] == "\"" + terms[i] + "\"*") &&
      Gaps(q) == SingleSpaceGaps(|terms|)
  {
    var terms := Split(searchQuery);
    TokensAreWords(terms);
    JoinSplitRoundTrip(Tokens(terms));
  }

  /** The formatted query is empty exactly when the input is whitespace only (the empty
      input included); otherwise it opens with a quote and ends with the prefix marker. */
  lemma FormatQueryEmpty(searchQuery: string)
    ensures FormatQuery(searchQuery) == "" <==> AllSpace(searchQuery)
    ensures FormatQuery(searchQuery) != "" ==>
      FormatQuery(searchQuery)[0] == '"' && FormatQuery(searchQuery)[|FormatQuery(searchQuery)| - 1] == '*'
  {
    var terms := Split(searchQuery);
    var toks := Tokens(terms);
    TokensAreWords(terms);
    JoinSplitRoundTrip(toks);
    if toks != [] {
      JoinEnds(toks, " ");
      assert toks[0][0] == '"';
      assert toks[|toks| - 1][|toks[|toks| - 1]| - 1] == '*';
    }
  }
}
