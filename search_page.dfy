/** The search page's handling of one submitted text (app.py, lines 98-110): a non-empty
    text is formatted into an FTS5 query and handed to the statement builder together with
    the year and chamber selections, and an empty text starts no search. The page currently
    fixes both selections to empty lists (lines 98-99); they are parameters here. Rendering
    the results and running the statement are not modelled. */
module SearchPage {
  import opened PyStr
  import opened QueryFormat
  import opened SearchSql

  /** What the page does with the text: nothing, or run `sql` with `params`. */
  datatype Submission = Idle | Run(sql: string, params: seq<SqlValue>)

  /** Lines 98-110. The guard looks at the raw text, not at its terms, so a text made only
      of whitespace passes it and is searched with an empty MATCH argument. */
  method Submit(searchQuery: string, anos: seq<int>, camaras: seq<string>) returns (s: Submission)
    ensures s.Idle? <==> searchQuery == ""
    ensures s.Run? ==> (s.sql == StatementText(|anos|, |camaras|) &&
                        s.params == BoundParams(FormatQuery(searchQuery), anos, camaras))
    ensures s.Run? ==> |s.params| == 1 + |anos| + |camaras|
    ensures searchQuery != "" && AllSpace(searchQuery) ==> s.Run? && s.params[0] == Text("")
    ensures !AllSpace(searchQuery) ==>
              (s.Run? && s.params[0].Text? && s.params[0].text != "" && s.params[0].text[0] == '"')
  {
    if searchQuery == "" {
      return Idle;
    }
    var query := FormatQuery(searchQuery);
    var sql, params := BuildStatement(query, anos, camaras);
    FormatQueryEmpty(searchQuery);
    s := Run(sql, params);
  }
}
