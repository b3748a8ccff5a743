/** The statement builder of `search_jurisprudencia` (app.py, lines 46-69): the SQL text and
    the list of values bound to its `?` placeholders, built from the formatted query and the
    selected years and chambers. Executing the statement is SQLite's business and is not
    modelled.

    The SQL text depends only on how many years and chambers are selected; the values
    themselves reach the database only through the parameter list. Reading the text back at
    its placeholders (`Segments`, `PlaceholderColumns`) shows that the k-th placeholder sits
    in the predicate of the column whose value is the k-th parameter
    (`PlaceholdersBindParams`).

    The statement's shape is stated over its fixed texts (`SqlTexts`) and proved for any
    texts that are `Plain`; `SourceTextsPlain` checks the texts app.py uses. */
module SearchSql {
  import opened PyStr

  /** A value bound to a placeholder: the query string and the chamber names are text, the
      years are integers. */
  datatype SqlValue = Text(text: string) | Integer(number: int)

  /** The predicate a placeholder is an argument of, as read from the text before it. */
  datatype Column = MatchText | Year | Chamber | Unbound

  // The base statement, lines 46-57, kept line by line. The triple-quoted text opens with a
  // newline and ends with a newline and the four spaces before the closing quotes.
  const SelectList: string :=
    "\n    SELECT\n" + "        fts.nome_arquivo,\n" + "        fts.ano,\n" + "        fts.camara,\n" +
    "        fts.acordao,\n" + "        fts.processo,\n" +
    "        snippet(jurisprudencia_fts, 5, " + "'<b>', '</b>', '...', 25) as snippet,\n" +
    "        fts.texto_completo\n"
  const FromClause: string := "    FROM jurisprudencia_fts fts\n"
  const MatchCondition: string := "    WHERE fts.texto_completo MATCH "
  /** The base statement up to its only placeholder, and what follows that placeholder. */
  const SelectHead: string := SelectList + FromClause + MatchCondition
  const SelectTail: string := "\n    "

  /** Lines 62 and 66, up to the placeholder list. */
  const YearOpen: string := " AND fts.ano IN ("
  const ChamberOpen: string := " AND fts.camara IN ("
  /** Line 69, up to its final semicolon. */
  const OrderLimit: string := " ORDER BY fts.ano DESC," + " fts.acordao DESC LIMIT 200"
  const OrderSuffix: string := OrderLimit + ";"

  /** The fixed texts the statement is assembled from. */
  datatype SqlTexts = SqlTexts(head: string, tail: string, yearOpen: string,
                               chamberOpen: string, orderLimit: string)

  const SourceTexts: SqlTexts := SqlTexts(SelectHead, SelectTail, YearOpen, ChamberOpen, OrderLimit)

  function Repeat<T>(x: T, n: nat): seq<T> {
    seq(n, _ => x)
  }

  /** `','.join(['?'] * n)`. */
  function Placeholders(n: nat): string {
    Join(Repeat("?", n), ",")
  }

  /** The filter appended for one dimension: nothing when nothing is selected (lines 61
      and 65), otherwise the f-string of line 62 or 66. */
  function InFilter(open: string, n: nat): string {
    if n == 0 then "" else open + Placeholders(n) + ")"
  }

  function StatementOf(t: SqlTexts, years: nat, chambers: nat): string {
    t.head + "?" + t.tail + InFilter(t.yearOpen, years) + InFilter(t.chamberOpen, chambers) +
    (t.orderLimit + ";")
  }

  /** The SQL text the builder ends with for `years` selected years and `chambers` selected
      chambers. */
  function StatementText(years: nat, chambers: nat): string {
    StatementOf(SourceTexts, years, chambers)
  }

  /** The parameter list the builder ends with. */
  function BoundParams(query: string, anos: seq<int>, camaras: seq<string>): seq<SqlValue> {
    [Text(query)] + YearValues(anos) + ChamberValues(camaras)
  }

  function YearValues(anos: seq<int>): seq<SqlValue> {
    seq(|anos|, i requires 0 <= i < |anos| => Integer(anos[i]))
  }

  function ChamberValues(camaras: seq<string>): seq<SqlValue> {
    seq(|camaras|, i requires 0 <= i < |camaras| => Text(camaras[i]))
  }

  /** Lines 46-69: the statement and its parameters, grown step by step as the source does.
      The text is fixed by the number of selected values alone, so no selected value and no
      part of the query ever enters it; the values go to `params`, in order. */
  method BuildStatement(query: string, anos: seq<int>, camaras: seq<string>)
    returns (sql: string, params: seq<SqlValue>)
    ensures sql == StatementText(|anos|, |camaras|)
    ensures params == BoundParams(query, anos, camaras)
    ensures |params| == 1 + |anos| + |camaras| && params[0] == Text(query)
  {
    sql := SelectHead + "?" + SelectTail;
    params := [Text(query)];
    if |anos| > 0 {
      sql := sql + (YearOpen + Placeholders(|anos|) + ")");
      params := params + YearValues(anos);
    } else {
      AppendNothing(params, YearValues(anos));
    }
    assert sql == SelectHead + "?" + SelectTail + InFilter(YearOpen, |anos|);
    assert params == [Text(query)] + YearValues(anos);
    if |camaras| > 0 {
      sql := sql + (ChamberOpen + Placeholders(|camaras|) + ")");
      params := params + ChamberValues(camaras);
    } else {
      AppendNothing(params, ChamberValues(camaras));
    }
    assert sql == SelectHead + "?" + SelectTail + InFilter(YearOpen, |anos|) + InFilter(ChamberOpen, |camaras|);
    assert params == BoundParams(query, anos, camaras);
    sql := sql + OrderSuffix;
    BoundParamsLayout(query, anos, camaras);
  }

  /** The query first, then each selected year, then each selected chamber, in the order
      of selection. */
  lemma BoundParamsLayout(query: string, anos: seq<int>, camaras: seq<string>)
    ensures var params := BoundParams(query, anos, camaras);
      |params| == 1 + |anos| + |camaras| && params[0] == Text(query) &&
      (forall k :: 0 <= k < |anos| ==> params[1 + k] == Integer(anos[k])) &&
      (forall k :: 0 <= k < |camaras| ==> params[1 + |anos| + k] == Text(camaras[k]))
  {
  }

  lemma RepeatCons<T>(x: T, n: nat)
    ensures [x] + Repeat(x, n) == Repeat(x, n + 1)
  {
  }

  lemma AppendNothing<T>(s: seq<T>, none: seq<T>)
    requires |none| == 0
    ensures s + none == s
  {
  }

  // ---------------------------------------------------------------------------------------
  // Reading the statement back at its placeholders.

  predicate EndsWith(s: string, suffix: string) {
    |suffix| <= |s| && s[|s| - |suffix|..] == suffix
  }

  /** `sql.split('?')`: the texts before, between and after the placeholders. */
  function Segments(s: string): (segs: seq<string>)
    ensures |segs| >= 1
  {
    if s == [] then [""]
    else
      assert s == [s[0]] + s[1..];
      var r := Segments(s[1..]);
      if s[0] == '?' then [""] + r else [[s[0]] + r[0]] + r[1..]
  }

  /** The column whose filter a text opens when a placeholder follows it. */
  function Opener(text: string): Column {
    if EndsWith(text, "MATCH ") then MatchText
    else if EndsWith(text, "fts.ano IN (") then Year
    else if EndsWith(text, "fts.camara IN (") then Chamber
    else Unbound
  }

  /** The columns of the placeholders that follow `segs`, one by one: a lone comma goes on
      with the list of the placeholder before it. */
  function ColumnsOf(segs: seq<string>, previous: Column): (cols: seq<Column>)
    ensures |cols| == |segs|
  {
    if segs == [] then []
    else
      var c := if segs[0] == "," then previous else Opener(segs[0]);
      [c] + ColumnsOf(segs[1..], c)
  }

  /** The column each placeholder of `sql` binds, in the order of the placeholders. */
  function PlaceholderColumns(sql: string): (cols: seq<Column>)
    ensures |cols| == |Segments(sql)| - 1
  {
    var segs := Segments(sql);
    ColumnsOf(segs[..|segs| - 1], Unbound)
  }

  // ---------------------------------------------------------------------------------------
  // What the proofs need of the fixed texts, and the check that app.py's texts have it.

  /** No placeholder and no semicolon in the fixed texts, and each text before a
      placeholder names the column it filters. */
  predicate Plain(t: SqlTexts) {
    NoMarks(t) && Opens(t)
  }

  /** Neither a placeholder nor a semicolon. */
  predicate Unmarked(s: string) {
    '?' !in s && ';' !in s
  }

  predicate NoMarks(t: SqlTexts) {
    Unmarked(t.head) && Unmarked(t.tail) && Unmarked(t.yearOpen) && Unmarked(t.chamberOpen) &&
    Unmarked(t.orderLimit)
  }

  predicate Opens(t: SqlTexts) {
    Opener(t.head) == MatchText && |t.yearOpen| >= 15 && Opener(t.yearOpen) == Year &&
    |t.chamberOpen| >= 15 && Opener(t.chamberOpen) == Chamber
  }

  /** Checking a literal character by character, one short literal at a time. */
  lemma UnmarkedText(s: string)
    requires forall i :: 0 <= i < |s| ==> s[i] != '?' && s[i] != ';'
    ensures Unmarked(s)
  {
  }

  // The literals of lines 46-57 and 69 are checked one short piece per lemma, not whole: the
  // verifier's effort on a string literal grows much faster than its length, and facts about
  // the pieces combine cheaply across `+` (SelectListUnmarked, OtherTextsUnmarked).
  lemma SelectLine1() ensures Unmarked("\n    SELECT\n") { UnmarkedText("\n    SELECT\n"); }
  lemma SelectLine2() ensures Unmarked("        fts.nome_arquivo,\n") { UnmarkedText("        fts.nome_arquivo,\n"); }
  lemma SelectLine3() ensures Unmarked("        fts.ano,\n") { UnmarkedText("        fts.ano,\n"); }
  lemma SelectLine4() ensures Unmarked("        fts.camara,\n") { UnmarkedText("        fts.camara,\n"); }
  lemma SelectLine5() ensures Unmarked("        fts.acordao,\n") { UnmarkedText("        fts.acordao,\n"); }
  lemma SelectLine6() ensures Unmarked("        fts.processo,\n") { UnmarkedText("        fts.processo,\n"); }
  lemma SelectLine7a()
    ensures Unmarked("        snippet(jurisprudencia_fts, 5, ")
  {
    UnmarkedText("        snippet(jurisprudencia_fts, 5, ");
  }
  lemma SelectLine7b()
    ensures Unmarked("'<b>', '</b>', '...', 25) as snippet,\n")
  {
    UnmarkedText("'<b>', '</b>', '...', 25) as snippet,\n");
  }
  lemma SelectLine8() ensures Unmarked("        fts.texto_completo\n") { UnmarkedText("        fts.texto_completo\n"); }
  lemma OrderLimit1() ensures Unmarked(" ORDER BY fts.ano DESC,") { UnmarkedText(" ORDER BY fts.ano DESC,"); }
  lemma OrderLimit2() ensures Unmarked(" fts.acordao DESC LIMIT 200") { UnmarkedText(" fts.acordao DESC LIMIT 200"); }

  lemma SelectListUnmarked()
    ensures Unmarked(SelectList)
  {
    SelectLine1(); SelectLine2(); SelectLine3(); SelectLine4(); SelectLine5(); SelectLine6();
    SelectLine7a(); SelectLine7b(); SelectLine8();
  }

  lemma OtherTextsUnmarked()
    ensures Unmarked(FromClause) && Unmarked(MatchCondition) && Unmarked(OrderLimit)
  {
    UnmarkedText(FromClause);
    UnmarkedText(MatchCondition);
    OrderLimit1(); OrderLimit2();
  }

  lemma FilterTextsUnmarked()
    ensures Unmarked(SelectTail) && Unmarked(YearOpen) && Unmarked(ChamberOpen)
  {
    UnmarkedText(SelectTail);
    UnmarkedText(YearOpen);
    UnmarkedText(ChamberOpen);
  }

  lemma MatchConditionOpens()
    ensures EndsWith(MatchCondition, "MATCH ")
  {
  }

  lemma YearOpenOpens()
    ensures Opener(YearOpen) == Year
  {
  }

  lemma ChamberOpenOpens()
    ensures Opener(ChamberOpen) == Chamber
  {
  }

  lemma EndsWithAppend(x: string, y: string, suffix: string)
    requires |suffix| <= |y|
    ensures EndsWith(x + y, suffix) <==> EndsWith(y, suffix)
  {
    assert (x + y)[|x + y| - |suffix|..] == y[|y| - |suffix|..];
  }

  /** The texts of app.py have what the proofs need. */
  lemma SourceTextsPlain()
    ensures Plain(SourceTexts)
  {
    SelectListUnmarked();
    OtherTextsUnmarked();
    FilterTextsUnmarked();
    MatchConditionOpens();
    YearOpenOpens();
    ChamberOpenOpens();
    EndsWithAppend(SelectList + FromClause, MatchCondition, "MATCH ");
  }

  // ---------------------------------------------------------------------------------------
  // Counting placeholders, and the end of the statement.

  lemma {:induction false} PlaceholdersUnfold(n: nat)
    requires n >= 2
    ensures Placeholders(n) == "?" + "," + Placeholders(n - 1)
  {
    assert Repeat("?", n)[1..] == Repeat("?", n - 1);
  }

  /** `','.join(['?'] * n)` holds `n` placeholders and no semicolon. */
  lemma {:induction false} PlaceholdersText(n: nat)
    ensures multiset(Placeholders(n))['?'] == n
    ensures ';' !in Placeholders(n)
  {
    if n == 1 {
      assert Placeholders(1) == "?";
    } else if n >= 2 {
      PlaceholdersUnfold(n);
      PlaceholdersText(n - 1);
    }
  }

  lemma InFilterText(open: string, n: nat)
    requires '?' !in open && ';' !in open
    ensures multiset(InFilter(open, n))['?'] == n
    ensures ';' !in InFilter(open, n)
  {
    PlaceholdersText(n);
  }

  lemma StatementCount(t: SqlTexts, years: nat, chambers: nat)
    requires NoMarks(t)
    ensures multiset(StatementOf(t, years, chambers))['?'] == 1 + years + chambers
  {
    InFilterText(t.yearOpen, years);
    InFilterText(t.chamberOpen, chambers);
    assert multiset(t.head)['?'] == 0 && multiset(t.tail)['?'] == 0;
    assert multiset(t.orderLimit + ";")['?'] == 0;
  }

  /** Lines 56, 62 and 66: one placeholder for the MATCH argument and one per selected
      value, so as many placeholders as parameters. */
  lemma PlaceholderCount(years: nat, chambers: nat)
    ensures multiset(StatementText(years, chambers))['?'] == 1 + years + chambers
  {
    SourceTextsPlain();
    StatementCount(SourceTexts, years, chambers);
  }

  /** Lines 61 and 65: with no year and no chamber selected, the statement is the base
      statement followed directly by the ORDER BY/LIMIT suffix. */
  lemma NoFilterStatement()
    ensures StatementText(0, 0) == SelectHead + "?" + SelectTail + OrderSuffix
  {
    NoFilterStatementOf(SourceTexts);
  }

  lemma NoFilterStatementOf(t: SqlTexts)
    ensures StatementOf(t, 0, 0) == t.head + "?" + t.tail + (t.orderLimit + ";")
  {
    AppendNothing(t.head + "?" + t.tail, InFilter(t.yearOpen, 0));
    AppendNothing(t.head + "?" + t.tail + InFilter(t.yearOpen, 0), InFilter(t.chamberOpen, 0));
  }

  lemma StatementEndingOf(t: SqlTexts, years: nat, chambers: nat)
    requires NoMarks(t)
    ensures var sql := StatementOf(t, years, chambers);
      EndsWith(sql, t.orderLimit + ";") && sql[|sql| - 1] == ';' &&
      forall k :: 0 <= k < |sql| - 1 ==> sql[k] != ';'
  {
    var prefix := t.head + "?" + t.tail + InFilter(t.yearOpen, years) + InFilter(t.chamberOpen, chambers);
    var sql := StatementOf(t, years, chambers);
    InFilterText(t.yearOpen, years);
    InFilterText(t.chamberOpen, chambers);
    assert ';' !in prefix + t.orderLimit;
    Assoc(prefix, t.orderLimit, ";");
    EndsWithAppend(prefix, t.orderLimit + ";", t.orderLimit + ";");
    forall k | 0 <= k < |sql| - 1 ensures sql[k] != ';' {
      assert sql[k] == (prefix + t.orderLimit)[k];
    }
  }

  /** Line 69: the ORDER BY / LIMIT suffix ends the statement, and its semicolon is the only
      one in the statement. */
  lemma StatementEnding(years: nat, chambers: nat)
    ensures var sql := StatementText(years, chambers);
      EndsWith(sql, OrderSuffix) && sql[|sql| - 1] == ';' &&
      forall k :: 0 <= k < |sql| - 1 ==> sql[k] != ';'
  {
    SourceTextsPlain();
    StatementEndingOf(SourceTexts, years, chambers);
  }

  /** A text ending in the statement's only semicolon occurs only at the statement's end. */
  lemma OccursOnlyAtEnd(sql: string, suffix: string, i: nat)
    requires forall k :: 0 <= k < |sql| - 1 ==> sql[k] != ';'
    requires suffix != [] && suffix[|suffix| - 1] == ';'
    requires i + |suffix| <= |sql| && sql[i..i + |suffix|] == suffix
    ensures i + |suffix| == |sql|
  {
    assert sql[i + |suffix| - 1] == sql[i..i + |suffix|][|suffix| - 1];
  }

  /** The suffix is appended exactly once: it occurs in the statement only at its end. */
  lemma SuffixOnce(years: nat, chambers: nat, i: nat)
    requires var sql := StatementText(years, chambers);
      i + |OrderSuffix| <= |sql| && sql[i..i + |OrderSuffix|] == OrderSuffix
    ensures i + |OrderSuffix| == |StatementText(years, chambers)|
  {
    StatementEnding(years, chambers);
    OccursOnlyAtEnd(StatementText(years, chambers), OrderSuffix, i);
  }

  // ---------------------------------------------------------------------------------------
  // The statement split at its placeholders, and the column of each placeholder.

  lemma {:induction false} SegmentsNoMark(x: string)
    requires '?' !in x
    ensures Segments(x) == [x]
  {
    if x != [] {
      assert '?' !in x[1..];
      SegmentsNoMark(x[1..]);
      assert [x[0]] + x[1..] == x;
    }
  }

  lemma {:induction false} SegmentsPlain(x: string, y: string)
    requires '?' !in x
    ensures Segments(x + y) == [x + Segments(y)[0]] + Segments(y)[1..]
  {
    if x != [] {
      assert '?' !in x[1..];
      SegmentsPlain(x[1..], y);
      var r := Segments(x[1..] + y);
      assert (x + y)[1..] == x[1..] + y;
      assert r[0] == x[1..] + Segments(y)[0] && r[1..] == Segments(y)[1..];
      assert Segments(x + y) == [[x[0]] + r[0]] + r[1..];
      assert [x[0]] + (x[1..] + Segments(y)[0]) == x + Segments(y)[0];
    } else {
      assert x + y == y;
      assert x + Segments(y)[0] == Segments(y)[0];
      assert [Segments(y)[0]] + Segments(y)[1..] == Segments(y);
    }
  }

  lemma SegmentsMark(y: string)
    ensures Segments("?" + y) == [""] + Segments(y)
  {
    assert ("?" + y)[1..] == y;
  }

  /** One more `?,` in front of a text whose segments start with an empty one. */
  lemma SegmentsMarkComma(rest: string, more: seq<string>)
    requires Segments(rest) == [""] + more
    ensures Segments("?" + ("," + rest)) == [""] + ([","] + more)
  {
    Uncons("", more);
    SegmentsPlain(",", rest);
    assert "," + "" == ",";
    SegmentsMark("," + rest);
  }

  lemma PlaceholdersThen(n: nat, y: string)
    requires n >= 2
    ensures Placeholders(n) + y == "?" + ("," + (Placeholders(n - 1) + y))
  {
    PlaceholdersUnfold(n);
    Assoc("?" + ",", Placeholders(n - 1), y);
    Assoc("?", ",", Placeholders(n - 1) + y);
  }

  lemma {:induction false} SegmentsPlaceholders(n: nat, y: string)
    requires n >= 1
    ensures Segments(Placeholders(n) + y) == [""] + (Repeat(",", n - 1) + Segments(y))
  {
    if n == 1 {
      assert Placeholders(1) == "?";
      SegmentsMark(y);
      assert Repeat(",", 0) + Segments(y) == Segments(y);
    } else {
      PlaceholdersThen(n, y);
      SegmentsPlaceholders(n - 1, y);
      SegmentsMarkComma(Placeholders(n - 1) + y, Repeat(",", n - 2) + Segments(y));
      Assoc([","], Repeat(",", n - 2), Segments(y));
      RepeatCons(",", n - 2);
    }
  }

  /** The segments a selected filter contributes: the text that opens its list, then one
      lone comma per further placeholder. */
  function FilterSegments(lead: string, open: string, n: nat): seq<string> {
    if n == 0 then [] else [lead + open] + Repeat(",", n - 1)
  }

  lemma FilterSplit(lead: string, open: string, n: nat, z: string)
    requires '?' !in lead && '?' !in open
    ensures n == 0 ==> Segments(lead + InFilter(open, n) + z) == Segments(lead + z)
    ensures n > 0 ==> (Segments(lead + InFilter(open, n) + z) ==
      FilterSegments(lead, open, n) + Segments(")" + z))
  {
    if n > 0 {
      var y := Placeholders(n) + (")" + z);
      assert lead + InFilter(open, n) + z == (lead + open) + y;
      var more := Repeat(",", n - 1) + Segments(")" + z);
      SegmentsPlaceholders(n, ")" + z);
      Uncons("", more);
      SegmentsPlain(lead + open, y);
      assert lead + open + "" == lead + open;
      Assoc([lead + open], Repeat(",", n - 1), Segments(")" + z));
    } else {
      assert lead + "" + z == lead + z;
    }
  }

  /** The text after the last selected list (or after the MATCH placeholder). */
  function LeadAfter(t: SqlTexts, years: nat, chambers: nat): string {
    if chambers > 0 || years > 0 then ")" else t.tail
  }

  lemma ChamberSplit(t: SqlTexts, lead: string, chambers: nat)
    requires NoMarks(t) && '?' !in lead
    ensures var e := t.orderLimit + ";";
      Segments(lead + InFilter(t.chamberOpen, chambers) + e) ==
      FilterSegments(lead, t.chamberOpen, chambers) +
      [(if chambers > 0 then ")" else lead) + e]
  {
    var e := t.orderLimit + ";";
    FilterSplit(lead, t.chamberOpen, chambers, e);
    if chambers > 0 {
      SegmentsNoMark(")" + e);
    } else {
      SegmentsNoMark(lead + e);
    }
  }

  /** What follows the MATCH placeholder. */
  function AfterMatch(t: SqlTexts, years: nat, chambers: nat): string {
    t.tail + InFilter(t.yearOpen, years) + (InFilter(t.chamberOpen, chambers) + (t.orderLimit + ";"))
  }

  lemma MatchSplit(t: SqlTexts, years: nat, chambers: nat)
    requires '?' !in t.head
    ensures Segments(StatementOf(t, years, chambers)) == [t.head] + Segments(AfterMatch(t, years, chambers))
  {
    var r := AfterMatch(t, years, chambers);
    assert StatementOf(t, years, chambers) == t.head + ("?" + r);
    SegmentsMark(r);
    Uncons("", Segments(r));
    SegmentsPlain(t.head, "?" + r);
    assert t.head + "" == t.head;
  }

  lemma FiltersSplit(t: SqlTexts, years: nat, chambers: nat)
    requires NoMarks(t)
    ensures Segments(AfterMatch(t, years, chambers)) ==
      FilterSegments(t.tail, t.yearOpen, years) +
      FilterSegments(if years > 0 then ")" else t.tail, t.chamberOpen, chambers) +
      [LeadAfter(t, years, chambers) + t.orderLimit + ";"]
  {
    var e := t.orderLimit + ";";
    var cf := InFilter(t.chamberOpen, chambers);
    var la := if years > 0 then ")" else t.tail;
    var fy := FilterSegments(t.tail, t.yearOpen, years);
    var fc := FilterSegments(la, t.chamberOpen, chambers);
    var last := (if chambers > 0 then ")" else la) + e;
    FilterSplit(t.tail, t.yearOpen, years, cf + e);
    Assoc(la, cf, e);
    ChamberSplit(t, la, chambers);
    assert Segments(la + (cf + e)) == fc + [last];
    if years > 0 {
      Assoc(fy, fc, [last]);
    } else {
      assert fy + fc == fc;
    }
    Assoc(LeadAfter(t, years, chambers), t.orderLimit, ";");
  }

  /** `sql.split('?')` of the statement: the text before the MATCH placeholder, the
      segments of each selected filter, and the closing text. */
  lemma StatementSegments(t: SqlTexts, years: nat, chambers: nat)
    requires NoMarks(t)
    ensures Segments(StatementOf(t, years, chambers)) ==
      [t.head] + FilterSegments(t.tail, t.yearOpen, years) +
      FilterSegments(if years > 0 then ")" else t.tail, t.chamberOpen, chambers) +
      [LeadAfter(t, years, chambers) + t.orderLimit + ";"]
  {
    MatchSplit(t, years, chambers);
    FiltersSplit(t, years, chambers);
  }

  lemma OpenerAppend(x: string, y: string)
    requires |y| >= 15
    ensures Opener(x + y) == Opener(y)
  {
    EndsWithAppend(x, y, "MATCH ");
    EndsWithAppend(x, y, "fts.ano IN (");
    EndsWithAppend(x, y, "fts.camara IN (");
  }

  lemma {:induction false} ColumnsOfCommas(k: nat, rest: seq<string>, col: Column)
    ensures ColumnsOf(Repeat(",", k) + rest, col) == Repeat(col, k) + ColumnsOf(rest, col)
  {
    if k > 0 {
      RepeatCons(",", k - 1);
      Assoc([","], Repeat(",", k - 1), rest);
      Uncons(",", Repeat(",", k - 1) + rest);
      ColumnsOfCommas(k - 1, rest, col);
      RepeatCons(col, k - 1);
      Assoc([col], Repeat(col, k - 1), ColumnsOf(rest, col));
    } else {
      assert Repeat(",", 0) + rest == rest;
      assert Repeat(col, 0) + ColumnsOf(rest, col) == ColumnsOf(rest, col);
    }
  }

  /** A selected filter's placeholders all bind its column. */
  lemma ColumnsOfFilter(lead: string, open: string, n: nat, rest: seq<string>, previous: Column)
    requires |open| >= 15
    ensures ColumnsOf(FilterSegments(lead, open, n) + rest, previous) ==
      Repeat(Opener(open), n) + ColumnsOf(rest, if n == 0 then previous else Opener(open))
  {
    var col := Opener(open);
    if n > 0 {
      var more := Repeat(",", n - 1) + rest;
      OpenerAppend(lead, open);
      assert |lead + open| >= 15;
      Assoc([lead + open], Repeat(",", n - 1), rest);
      Uncons(lead + open, more);
      ColumnsOfCommas(n - 1, rest, col);
      RepeatCons(col, n - 1);
      Assoc([col], Repeat(col, n - 1), ColumnsOf(rest, col));
    } else {
      assert FilterSegments(lead, open, n) + rest == rest;
      assert Repeat(col, 0) + ColumnsOf(rest, previous) == ColumnsOf(rest, previous);
    }
  }

  lemma StatementColumns(t: SqlTexts, years: nat, chambers: nat)
    requires Plain(t)
    ensures PlaceholderColumns(StatementOf(t, years, chambers)) ==
      [MatchText] + Repeat(Year, years) + Repeat(Chamber, chambers)
  {
    var la := if years > 0 then ")" else t.tail;
    var fy := FilterSegments(t.tail, t.yearOpen, years);
    var fc := FilterSegments(la, t.chamberOpen, chambers);
    var last := LeadAfter(t, years, chambers) + t.orderLimit + ";";
    var segs := Segments(StatementOf(t, years, chambers));
    StatementSegments(t, years, chambers);
    assert segs == ([t.head] + fy + fc) + [last];
    DropLast([t.head] + fy + fc, last);
    Assoc([t.head], fy, fc);
    var after := if years > 0 then Year else MatchText;
    ColumnsOfHead(t.head, fy + fc);
    ColumnsOfFilter(t.tail, t.yearOpen, years, fc, MatchText);
    ColumnsOfFilter(la, t.chamberOpen, chambers, [], after);
    AppendNothing(fc, []);
    AppendNothing(Repeat(Chamber, chambers), ColumnsOf([], if chambers == 0 then after else Chamber));
    Assoc([MatchText], Repeat(Year, years), Repeat(Chamber, chambers));
  }

  lemma ColumnsOfHead(head: string, rest: seq<string>)
    requires Opener(head) == MatchText
    ensures ColumnsOf([head] + rest, Unbound) == [MatchText] + ColumnsOf(rest, MatchText)
  {
    assert head != ",";
    Uncons(head, rest);
  }

  lemma DropLast<T>(s: seq<T>, x: T)
    ensures (s + [x])[..|s + [x]| - 1] == s
  {
  }

  lemma ColumnsLayout(cols: seq<Column>, years: nat, chambers: nat)
    requires cols == [MatchText] + Repeat(Year, years) + Repeat(Chamber, chambers)
    ensures |cols| == 1 + years + chambers && cols[0] == MatchText
    ensures forall k :: 1 <= k <= years ==> cols[k] == Year
    ensures forall k :: 1 + years <= k < |cols| ==> cols[k] == Chamber
  {
  }

  /** Lines 59-69 together with line 56: the k-th placeholder of the statement is an argument
      of the predicate on the column the k-th parameter belongs to, so the query is matched
      against the text, each selected year against `fts.ano` and each selected chamber
      against `fts.camara`, in order. */
  lemma PlaceholdersBindParams(query: string, anos: seq<int>, camaras: seq<string>)
    ensures var cols := PlaceholderColumns(StatementText(|anos|, |camaras|));
      var params := BoundParams(query, anos, camaras);
      |cols| == |params| &&
      cols[0] == MatchText && params[0] == Text(query) &&
      (forall k :: 0 <= k < |anos| ==> cols[1 + k] == Year && params[1 + k] == Integer(anos[k])) &&
      (forall k :: 0 <= k < |camaras| ==>
        cols[1 + |anos| + k] == Chamber && params[1 + |anos| + k] == Text(camaras[k]))
  {
    SourceTextsPlain();
    StatementColumns(SourceTexts, |anos|, |camaras|);
    ColumnsLayout(PlaceholderColumns(StatementText(|anos|, |camaras|)), |anos|, |camaras|);
    BoundParamsLayout(query, anos, camaras);
  }
}
