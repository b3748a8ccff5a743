# Search-request builder of the jurisprudence search page

The Streamlit page `app.py` searches an SQLite FTS5 table of tax-council rulings
(`jurisprudencia_fts`). When the user submits a non-empty text, the page does three things:

1. It turns every whitespace-separated term into an FTS5 prefix phrase `"term"*`. It joins
   these phrases with single spaces (line 108).
2. It hands that query, together with the year and chamber selections, to
   `search_jurisprudencia`.
3. `search_jurisprudencia` assembles one SQL statement with `?` placeholders and a parameter
   list (lines 46-69).

This project models those three steps and proves what they guarantee:

- **`PyStr`** models Python's `str.split()` and `str.join`.
  - `Split` follows CPython's scan, using CPython's whitespace set.
  - It is characterised completely: every text is the unique interleaving of its whitespace
    gaps and its terms.
- **`QueryFormat`** models the formatter of line 108 as written.
  - It proves one token per term, in the input's order.
  - Each token is the term between `"` and `"*`.
  - Tokens are separated by exactly one space, with none leading or trailing.
  - The formatted query is empty exactly when the input is all whitespace.
- **`Fts5Syntax`** models a reader for the FTS5 string syntax the query relies on.
  - A string is written between double quotes, and a quote inside it is doubled.
  - A trailing `*` makes the phrase a prefix phrase.
  - The reader shows that the formatter reads back as the user's terms when the input holds
    neither `"` nor NUL.
  - A lone `"` in a term ends its string early: on `a"b` the query does not read at all.
  - A doubled `""` in a term reads as one `"`: `a""b` silently searches the term `a"b`
    (see Findings).
  - It also defines the corrected formatter and proves that it reads back for every input
    without a NUL character (FTS5 ends the query text at a NUL).
- **`SearchSql`** models the statement builder of lines 46-69 as an imperative method,
  `BuildStatement`.
  - The method grows the SQL text and the parameter list step by step, as the source does.
  - It is proved against the specification functions `StatementText` and `BoundParams`.
  - Lemmas about those functions count the placeholders.
  - They show that the ORDER BY/LIMIT suffix ends the statement and occurs only there.
  - They read the statement back at its placeholders and show that the k-th placeholder
    belongs to the predicate of the column that the k-th parameter is meant for: the MATCH
    argument, then each selected year in `fts.ano IN (…)`, then each selected chamber in
    `fts.camara IN (…)`.
  - The SQL text is a function of the two selection sizes alone. So no user value (query,
    year or chamber) ever becomes part of the SQL text; values reach SQLite only as bound
    parameters.
- **`SearchPage`** models the guard of line 104 and the call of line 110.
  - An empty text starts no search.
  - Any other text, including one made only of whitespace, runs the statement.
  - A text made only of whitespace gets an empty MATCH argument.

## Model

| member | source | states |
|---|---|---|
| PyStr.Join | app.py:108 | `sep.join(parts)`: the parts in order with `sep` between each two, and `""` for no parts; `','.join` at lines 62 and 66 is the same function (its properties are the rows below) |
| PyStr.Split | app.py:108 | every term `str.split()` yields is non-empty and free of whitespace, and there are no terms exactly when the text is all whitespace |
| PyStr.SplitDecomposes | app.py:108 | every text is its whitespace gaps interleaved with its terms; the inner gaps are non-empty |
| PyStr.SplitInterleave | app.py:108 | splitting any well-separated interleaving of gaps and words gives back exactly those words (the terms are unique) |
| PyStr.GapsInterleave | app.py:108 | the gaps of such an interleaving are exactly the gaps it was built from |
| PyStr.JoinSplitRoundTrip | app.py:108 | `' '.join` of whitespace-free words splits back into the same words, and its gaps are one space between words and nothing at either end |
| PyStr.JoinEnds | app.py:108 | a join of non-empty parts starts with the first part's first character and ends with the last part's last character |
| QueryFormat.Token | app.py:108 | the f-string `f'"{term}"*'`: three characters longer than the term, an opening `"`, the term unchanged, then `"*` |
| QueryFormat.FormatQuery | app.py:108 | the MATCH argument: `' '.join` of the tokens of the `split()` terms, in order (its properties are FormatQueryTokens and FormatQueryEmpty) |
| QueryFormat.TokenIsWord | app.py:108 | the token `"term"*` of a term is itself whitespace-free, so `split()` cannot cut inside it |
| QueryFormat.FormatQueryTokens | app.py:108 | the formatted query has one token per input term, in input order; token i is `"` + term i + `"*`; single spaces between tokens, none leading or trailing |
| QueryFormat.FormatQueryEmpty | app.py:108 | the formatted query is empty if and only if the input is all whitespace; otherwise it starts with `"` and ends with `*` |
| Fts5Syntax.EscapeQuotesInverse | app.py:108 | reading an FTS5 string body whose quotes are doubled gives back the original text and stops right after the closing quote |
| Fts5Syntax.EscapedTokenReadsBack | app.py:108 | a token with doubled quotes reads as one prefix phrase whose text is the term, whatever the term holds except a NUL |
| Fts5Syntax.FormatQueryEscaped | app.py:108 | the corrected formatter: the same as line 108 except that every `"` inside a term is doubled (its property is EscapedQueryReadsBack) |
| Fts5Syntax.EscapedQueryReadsBack | app.py:108 | the corrected formatter's output reads as exactly the user's terms, as prefix phrases, for every input without a NUL character |
| Fts5Syntax.SplitKeepsCharacters | app.py:108 | a character absent from the input is absent from every term |
| Fts5Syntax.FormatQueryReadsBack | app.py:108 | for input without `"`, the formatter as written equals the corrected one, and then, without a NUL as well, reads back as the user's terms |
| Fts5Syntax.QuoteInTermSplitsPhrase | app.py:108 | for the input `a"b`, the query as written is `"a"b"*`, its first string is just `a`, the query's trailing `"*` is an unterminated string, and the query does not read as prefix phrases at all |
| Fts5Syntax.DoubledQuoteInTerm | app.py:108 | for the input `a""b` (one term), the query as written is `"a""b"*`, which reads as one well-formed prefix phrase whose text is `a"b`, not the term typed |
| SearchSql.Placeholders | app.py:62-66 | `','.join(['?'] * n)`: n question marks separated by commas (PlaceholdersText counts them) |
| SearchSql.PlaceholdersText | app.py:62-66 | the placeholder list of n values holds exactly n `?` and no `;` |
| SearchSql.InFilter | app.py:61-67 | one optional filter: nothing when the selection is empty, otherwise the opener, the placeholder list and `)` |
| SearchSql.InFilterText | app.py:61-67 | a filter for n values adds exactly n `?` and no `;` to the statement |
| SearchSql.StatementText | app.py:46-69 | the final `sql_query`: base statement with its MATCH placeholder, the year filter, the chamber filter, then the ORDER BY/LIMIT suffix; it depends only on the two selection sizes |
| SearchSql.BoundParams | app.py:59-67 | the final `params`: the query, then the selected years, then the selected chambers (BoundParamsLayout states each position) |
| SearchSql.NoFilterStatement | app.py:61-69 | with no year and no chamber selected, the statement is the base statement followed directly by the ORDER BY/LIMIT suffix |
| SearchSql.BuildStatement | app.py:46-69 | the SQL text is `StatementText` of the two selection sizes, so no value enters it; the parameters are the query, then the years, then the chambers; there are 1 + years + chambers parameters |
| SearchSql.BoundParamsLayout | app.py:59-67 | parameter 0 is the query, parameter 1+k is year k, and parameter 1+years+k is chamber k |
| SearchSql.PlaceholderCount | app.py:56-66 | the statement holds exactly 1 + years + chambers `?`, as many as there are parameters |
| SearchSql.StatementCount | app.py:56-66 | the same count for any fixed texts free of `?` and `;` |
| SearchSql.StatementEnding | app.py:69 | the statement ends with ` ORDER BY fts.ano DESC, fts.acordao DESC LIMIT 200;`, and that final `;` is its only semicolon |
| SearchSql.SuffixOnce | app.py:69 | wherever the ORDER BY/LIMIT suffix occurs in the statement, it ends there, so it is appended exactly once, last |
| SearchSql.StatementColumns | app.py:46-69 | read at its placeholders, the statement binds first the MATCH argument, then `years` placeholders in the year filter, then `chambers` in the chamber filter, in that clause order; an empty selection contributes no clause and no placeholder |
| SearchSql.PlaceholdersBindParams | app.py:46-69 | there are as many placeholders as parameters, and the k-th placeholder sits in the predicate of the column the k-th parameter is for: query to MATCH, year k to `fts.ano`, chamber k to `fts.camara` |
| SearchSql.SourceTextsPlain | app.py:46-69 | the fixed texts of the source contain no `?` or `;`, and each opener ends in the predicate it introduces |
| SearchPage.Submit | app.py:98-110 | no search exactly when the text is empty; otherwise it runs the builder's statement on the formatted query; a whitespace-only text passes the guard and binds an empty MATCH argument; any other text binds a query that opens with `"` |

## Left out

- The page's rendering (title, sidebar, result cards, `st.*` calls) is not modelled. It only displays results.
- `get_connection` and `get_filter_options` are not modelled. They open the database and read option lists. The call to `get_connection_meta` at line 90 is commented out, and app.py does not define that function.
- `pd.read_sql_query` is not modelled, nor is the fallback to an empty DataFrame when it raises. Executing the statement is SQLite's and pandas' work.
- FTS5 matching, tokenisation, `snippet`, `ORDER BY` and `LIMIT` semantics are not modelled. Only the query string's syntax is modelled.
- The JOIN with `metadados` that the comments mention is not modelled, because the code does not perform it.
- Streamlit's `@st.cache_data` caching and its threads are not modelled. They do not change the request.
- SearchPage.Submit takes the year and chamber selections as parameters. The page fixes both to empty lists (lines 98-99), and the multiselect widgets are commented out. The model covers every selection the builder could receive, the empty one included.
- Years are modelled as unbounded integers and chambers as strings. pandas value types are not modelled.
- SearchSql.BuildStatement: its contract does not count the `?` placeholders or state the suffix's position itself. It ties `sql` to `StatementText`, and `PlaceholderCount`, `StatementEnding`, `SuffixOnce` and `PlaceholdersBindParams` prove those properties of that text.
- PyStr.IsSpace is CPython's `str.isspace()` set, and a Dafny `char` is one Unicode code point, as a Python character is. The one difference is that a Python `str` can hold lone surrogates (U+D800 to U+DFFF) and a Dafny string cannot. None of them is whitespace, so `split()` treats them like any other character.
- Fts5Syntax.FormatQueryEscaped leaves a NUL character in a term as it is. FTS5 ends the query text at a NUL, so no quoting can carry one, and the read-back lemmas require input without NUL.

## Findings

| source | as written | input that shows it | evidently intended | confidence | as-written member | corrected member |
|---|---|---|---|---|---|---|
| app.py:108 | a `"` inside a term is copied into the FTS5 string unescaped | `a"b` gives `"a"b"*`, whose first string is `a` and whose last `"` is never closed, so by the FTS5 string rule it is not a well-formed query (SQLite would report a syntax error, which the page shows as its search error); and `a""b` gives `"a""b"*`, which reads as the phrase `a"b`, so a different term is searched without any error | double every `"` inside the term (`"a""b"*`), so the phrase is the term itself | high, not executed | Fts5Syntax.QuoteInTermSplitsPhrase | Fts5Syntax.EscapedQueryReadsBack |

`SearchPage.Submit` keeps the formatter as written at line 108, so that the page model does
what the page does. `Fts5Syntax.FormatQueryReadsBack` proves that it agrees with the corrected
formatter `Fts5Syntax.FormatQueryEscaped` on every input without `"`.
