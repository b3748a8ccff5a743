/** Python's `str.split()` (no separator argument) and `str.join`, as the search page uses
    them on the text the user types. `split()` cuts the text at runs of whitespace and drops
    leading and trailing whitespace; `sep.join(parts)` glues the parts with `sep`.

    The definition of `Split` follows CPython's scan: skip whitespace, take the maximal run
    of non-whitespace characters as one term, repeat. It is characterised completely by
    `Gaps`: every text is the interleaving of its whitespace gaps and its terms
    (`SplitDecomposes`), and that interleaving is unique (`SplitInterleave`, `GapsInterleave`). */
module PyStr {

  /** The characters CPython's `str.isspace()` accepts, which is what `split()` cuts at:
      U+0009..U+000D, U+001C..U+0020, U+0085, U+00A0, U+1680, U+2000..U+200A, U+2028,
      U+2029, U+202F, U+205F and U+3000. */
  predicate IsSpace(c: char) {
    ('\t' <= c <= '\r') || ('\U{1C}' <= c <= ' ') || c == '\U{85}' || c == '\U{A0}' ||
    c == '\U{1680}' || ('\U{2000}' <= c <= '\U{200A}') || c == '\U{2028}' ||
    c == '\U{2029}' || c == '\U{202F}' || c == '\U{205F}' || c == '\U{3000}'
  }

  predicate AllSpace(s: string) {
    forall i :: 0 <= i < |s| ==> IsSpace(s[i])
  }

  /** A term as `split()` produces it: non-empty and free of whitespace. */
  predicate IsWord(w: string) {
    w != [] && forall i :: 0 <= i < |w| ==> !IsSpace(w[i])
  }

  /** Length of the run of non-whitespace characters that starts `s`. */
  function WordLength(s: string): (n: nat)
    ensures n <= |s|
    ensures forall i :: 0 <= i < n ==> !IsSpace(s[i])
    ensures n < |s| ==> IsSpace(s[n])
  {
    if s == [] || IsSpace(s[0]) then 0 else 1 + WordLength(s[1..])
  }

  /** `s.split()`. */
  function Split(s: string): (terms: seq<string>)
    decreases |s|
    ensures forall i :: 0 <= i < |terms| ==> IsWord(terms[i])
    ensures terms == [] <==> AllSpace(s)
  {
    if s == [] then []
    else if IsSpace(s[0]) then Split(s[1..])
    else
      var n := WordLength(s);
      [s[..n]] + Split(s[n..])
  }

  /** The whitespace runs around the terms of `s`: one before the first term, one between
      each two terms and one after the last (the outer two may be empty). */
  function Gaps(s: string): (gaps: seq<string>)
    decreases |s|
    ensures |gaps| >= 1
  {
    if s == [] then [""]
    else if IsSpace(s[0]) then
      var g := Gaps(s[1..]);
      [[s[0]] + g[0]] + g[1..]
    else
      [""] + Gaps(s[WordLength(s)..])
  }

  /** `gaps[0] + words[0] + gaps[1] + ... + words[n-1] + gaps[n]`. */
  function Interleave(gaps: seq<string>, words: seq<string>): string
    requires |gaps| == |words| + 1
  {
    if words == [] then gaps[0]
    else gaps[0] + words[0] + Interleave(gaps[1..], words[1..])
  }

  /** What `split()` needs of a decomposition: whitespace gaps, the inner ones non-empty,
      and terms that are words. */
  predicate WellSeparated(gaps: seq<string>, words: seq<string>) {
    |gaps| == |words| + 1 &&
    (forall i :: 0 <= i < |gaps| ==> AllSpace(gaps[i])) &&
    (forall i :: 0 < i < |words| ==> gaps[i] != []) &&
    (forall i :: 0 <= i < |words| ==> IsWord(words[i]))
  }

  /** `sep.join(parts)`. */
  function Join(parts: seq<string>, sep: string): (r: string)
  {
    if parts == [] then ""
    else if |parts| == 1 then parts[0]
    else parts[0] + sep + Join(parts[1..], sep)
  }

  /** The gaps of `' '.join(words)`: empty at both ends, a single space between words. */
  function SingleSpaceGaps(n: nat): (gaps: seq<string>)
  {
    seq(n + 1, i requires 0 <= i <= n => if i == 0 || i == n then "" else " ")
  }

  lemma Uncons<T>(x: T, s: seq<T>)
    ensures ([x] + s)[0] == x && ([x] + s)[1..] == s
  {
  }

  lemma Assoc<T>(a: seq<T>, b: seq<T>, c: seq<T>)
    ensures a + (b + c) == a + b + c
  {
  }

  lemma ConsTail<T>(x: seq<T>, y: seq<T>)
    requires x != []
    ensures [x[0]] + (x[1..] + y) == x + y
  {
    assert [x[0]] + x[1..] == x;
  }

  // ---------------------------------------------------------------------------------------
  // Every text is the interleaving of its gaps and its terms.

  lemma InterleaveConsGap(x: string, gaps: seq<string>, words: seq<string>)
    requires |gaps| == |words| + 1
    ensures Interleave([x + gaps[0]] + gaps[1..], words) == x + Interleave(gaps, words)
  {
    var g' := [x + gaps[0]] + gaps[1..];
    assert g'[1..] == gaps[1..];
  }

  lemma {:induction false} SplitDecomposes(s: string)
    decreases |s|
    ensures WellSeparated(Gaps(s), Split(s))
    ensures Interleave(Gaps(s), Split(s)) == s
  {
    if s == [] {
    } else if IsSpace(s[0]) {
      SplitDecomposes(s[1..]);
      DecomposesSpace(s);
    } else {
      var n := WordLength(s);
      SplitDecomposes(s[n..]);
      DecomposesWord(s);
    }
  }

  lemma DecomposesSpace(s: string)
    requires s != [] && IsSpace(s[0])
    requires WellSeparated(Gaps(s[1..]), Split(s[1..]))
    requires Interleave(Gaps(s[1..]), Split(s[1..])) == s[1..]
    ensures WellSeparated(Gaps(s), Split(s))
    ensures Interleave(Gaps(s), Split(s)) == s
  {
    assert [s[0]] + s[1..] == s;
    LeadingSpace(s[0], s[1..]);
    SpaceStep(s[0], s[1..], Gaps(s[1..]), Split(s[1..]));
  }

  lemma SpaceStep(c: char, r: string, gaps: seq<string>, words: seq<string>)
    requires IsSpace(c) && WellSeparated(gaps, words) && Interleave(gaps, words) == r
    ensures WellSeparated([[c] + gaps[0]] + gaps[1..], words)
    ensures Interleave([[c] + gaps[0]] + gaps[1..], words) == [c] + r
  {
    InterleaveConsGap([c], gaps, words);
    WidenFirstGap([c], gaps, words);
  }

  lemma DecomposesWord(s: string)
    requires s != [] && !IsSpace(s[0])
    requires WellSeparated(Gaps(s[WordLength(s)..]), Split(s[WordLength(s)..]))
    requires Interleave(Gaps(s[WordLength(s)..]), Split(s[WordLength(s)..])) == s[WordLength(s)..]
    ensures WellSeparated(Gaps(s), Split(s))
    ensures Interleave(Gaps(s), Split(s)) == s
  {
    var n := WordLength(s);
    var rest := s[n..];
    var g, w := Gaps(rest), Split(rest);
    assert Gaps(s) == [""] + g;
    assert Split(s) == [s[..n]] + w;
    assert s[..n] + rest == s;
    if w != [] {
      assert IsSpace(rest[0]);
    }
    PrependWord(s[..n], g, w);
  }

  /** A leading whitespace character joins the first gap and leaves the terms alone. */
  lemma LeadingSpace(c: char, t: string)
    requires IsSpace(c)
    ensures Gaps([c] + t) == [[c] + Gaps(t)[0]] + Gaps(t)[1..]
    ensures Split([c] + t) == Split(t)
  {
    assert ([c] + t)[1..] == t;
  }

  /** Widening the leading gap by whitespace keeps a decomposition well separated. */
  lemma WidenFirstGap(x: string, gaps: seq<string>, words: seq<string>)
    requires AllSpace(x) && WellSeparated(gaps, words)
    ensures WellSeparated([x + gaps[0]] + gaps[1..], words)
  {
    var g' := [x + gaps[0]] + gaps[1..];
    forall i | 0 <= i < |g'| ensures AllSpace(g'[i]) {
      if i > 0 { assert g'[i] == gaps[i]; }
    }
    forall i | 0 < i < |words| ensures g'[i] != [] {
      assert g'[i] == gaps[i];
    }
  }

  /** A word in front of a decomposition whose text starts with whitespace (or is empty)
      gives a decomposition with an empty leading gap. */
  lemma PrependWord(word: string, gaps: seq<string>, words: seq<string>)
    requires IsWord(word) && WellSeparated(gaps, words)
    requires words != [] ==> gaps[0] != []
    ensures WellSeparated([""] + gaps, [word] + words)
    ensures Interleave([""] + gaps, [word] + words) == word + Interleave(gaps, words)
  {
    var g', w' := [""] + gaps, [word] + words;
    assert g'[1..] == gaps && w'[1..] == words;
    forall i | 0 <= i < |g'| ensures AllSpace(g'[i]) {
      if i > 0 { assert g'[i] == gaps[i - 1]; }
    }
    forall i | 0 < i < |w'| ensures g'[i] != [] {
      assert g'[i] == gaps[i - 1];
    }
    forall i | 0 <= i < |w'| ensures IsWord(w'[i]) {
      if i > 0 { assert w'[i] == words[i - 1]; }
    }
  }

  // ---------------------------------------------------------------------------------------
  // ... and that interleaving is the only one: `split()` recovers the terms and `Gaps` the
  // gaps of any well-separated interleaving.

  lemma {:induction false} SplitSpacePrefix(x: string, r: string)
    requires AllSpace(x)
    ensures Split(x + r) == Split(r)
  {
    if x != [] {
      assert (x + r)[1..] == x[1..] + r;
      SplitSpacePrefix(x[1..], r);
    } else {
      assert x + r == r;
    }
  }

  /** The word that starts `w + r` is exactly `w` when `r` is empty or starts with
      whitespace. */
  lemma {:induction false} WordLengthOfPrefix(w: string, r: string)
    requires forall i :: 0 <= i < |w| ==> !IsSpace(w[i])
    requires r == [] || IsSpace(r[0])
    ensures WordLength(w + r) == |w|
  {
    if w == [] {
      assert w + r == r;
    } else {
      assert (w + r)[0] == w[0];
      assert (w + r)[1..] == w[1..] + r;
      WordLengthOfPrefix(w[1..], r);
    }
  }

  lemma SplitWordPrefix(w: string, r: string)
    requires IsWord(w)
    requires r == [] || IsSpace(r[0])
    ensures Split(w + r) == [w] + Split(r)
  {
    var s := w + r;
    WordLengthOfPrefix(w, r);
    assert s[0] == w[0];
    assert s[..|w|] == w && s[|w|..] == r;
  }

  lemma {:induction false} GapsSpacePrefix(x: string, r: string)
    requires AllSpace(x)
    ensures Gaps(x + r) == [x + Gaps(r)[0]] + Gaps(r)[1..]
  {
    var G := Gaps(r);
    if x == [] {
      assert x + r == r;
      assert x + G[0] == G[0];
      assert [x + G[0]] + G[1..] == G;
    } else {
      assert (x + r)[1..] == x[1..] + r;
      GapsSpacePrefix(x[1..], r);
      GapsSpaceStep(x, r);
    }
  }

  lemma GapsSpaceStep(x: string, r: string)
    requires x != [] && AllSpace(x)
    requires Gaps(x[1..] + r) == [x[1..] + Gaps(r)[0]] + Gaps(r)[1..]
    ensures Gaps(x + r) == [x + Gaps(r)[0]] + Gaps(r)[1..]
  {
    var G := Gaps(r);
    ConsTail(x, r);
    LeadingSpace(x[0], x[1..] + r);
    Uncons(x[1..] + G[0], G[1..]);
    ConsTail(x, G[0]);
  }

  lemma GapsWordPrefix(w: string, r: string)
    requires IsWord(w)
    requires r == [] || IsSpace(r[0])
    ensures Gaps(w + r) == [""] + Gaps(r)
  {
    var s := w + r;
    WordLengthOfPrefix(w, r);
    assert s[0] == w[0];
    assert s[|w|..] == r;
  }

  /** The text after the first gap and term starts with whitespace or is empty. */
  lemma InterleaveTailStartsWithSpace(gaps: seq<string>, words: seq<string>)
    requires WellSeparated(gaps, words) && words != []
    ensures var r := Interleave(gaps[1..], words[1..]); r == [] || IsSpace(r[0])
  {
    var r := Interleave(gaps[1..], words[1..]);
    if |words| == 1 {
      assert r == gaps[1];
    } else {
      assert gaps[1] != [];
      assert r == gaps[1] + (words[1] + Interleave(gaps[2..], words[2..]));
      assert r[0] == gaps[1][0];
    }
  }

  lemma WellSeparatedTail(gaps: seq<string>, words: seq<string>)
    requires WellSeparated(gaps, words) && words != []
    ensures WellSeparated(gaps[1..], words[1..])
  {
    forall i | 0 < i < |words| - 1 ensures gaps[1..][i] != [] {
      assert gaps[1..][i] == gaps[i + 1];
    }
  }

  lemma {:induction false} SplitInterleave(gaps: seq<string>, words: seq<string>)
    requires WellSeparated(gaps, words)
    ensures Split(Interleave(gaps, words)) == words
  {
    if words == [] {
      SplitSpacePrefix(gaps[0], "");
      assert gaps[0] + "" == gaps[0];
    } else {
      var r := Interleave(gaps[1..], words[1..]);
      assert Interleave(gaps, words) == gaps[0] + (words[0] + r);
      SplitSpacePrefix(gaps[0], words[0] + r);
      InterleaveTailStartsWithSpace(gaps, words);
      SplitWordPrefix(words[0], r);
      WellSeparatedTail(gaps, words);
      SplitInterleave(gaps[1..], words[1..]);
    }
  }

  lemma {:induction false} GapsInterleave(gaps: seq<string>, words: seq<string>)
    requires WellSeparated(gaps, words)
    ensures Gaps(Interleave(gaps, words)) == gaps
  {
    if words == [] {
      GapsSpacePrefix(gaps[0], "");
      assert gaps[0] + "" == gaps[0];
    } else {
      var r := Interleave(gaps[1..], words[1..]);
      assert Interleave(gaps, words) == gaps[0] + (words[0] + r);
      InterleaveTailStartsWithSpace(gaps, words);
      GapsWordPrefix(words[0], r);
      WellSeparatedTail(gaps, words);
      GapsInterleave(gaps[1..], words[1..]);
      var G := Gaps(words[0] + r);
      assert G == [""] + gaps[1..];
      assert G[0] == "" && G[1..] == gaps[1..];
      GapsSpacePrefix(gaps[0], words[0] + r);
      assert gaps[0] + "" == gaps[0];
      assert [gaps[0]] + gaps[1..] == gaps;
    }
  }

  // ---------------------------------------------------------------------------------------
  // `' '.join` and `split()` are inverse on words.

  lemma SingleSpaceGapsTail(n: nat)
    requires n >= 2
    ensures SingleSpaceGaps(n)[1..] == [" " + SingleSpaceGaps(n - 1)[0]] + SingleSpaceGaps(n - 1)[1..]
  {
    var g, g1 := SingleSpaceGaps(n), SingleSpaceGaps(n - 1);
    var rhs := [" " + g1[0]] + g1[1..];
    assert |g[1..]| == |rhs|;
    forall i | 0 <= i < n ensures g[1..][i] == rhs[i] {
      if i == 0 {
        assert g[1] == " ";
      } else {
        assert rhs[i] == g1[i];
      }
    }
  }

  lemma {:induction false} JoinSingleSpace(words: seq<string>)
    ensures Join(words, " ") == Interleave(SingleSpaceGaps(|words|), words)
  {
    var n := |words|;
    var g := SingleSpaceGaps(n);
    if n == 0 {
    } else if n == 1 {
      assert g[1..] == [""];
    } else {
      JoinSingleSpace(words[1..]);
      var g1 := SingleSpaceGaps(n - 1);
      SingleSpaceGapsTail(n);
      InterleaveConsGap(" ", g1, words[1..]);
    }
  }

  lemma SingleSpaceGapsSeparate(words: seq<string>)
    requires forall i :: 0 <= i < |words| ==> IsWord(words[i])
    ensures WellSeparated(SingleSpaceGaps(|words|), words)
  {
    var g := SingleSpaceGaps(|words|);
    forall i | 0 <= i < |g| ensures AllSpace(g[i]) {
      assert g[i] == "" || g[i] == " ";
    }
    forall i | 0 < i < |words| ensures g[i] != [] {
      assert g[i] == " ";
    }
  }

  /** Splitting a space-joined list of words gives the words back, and the text between
      them is one space each, with nothing before the first or after the last. */
  lemma JoinSplitRoundTrip(words: seq<string>)
    requires forall i :: 0 <= i < |words| ==> IsWord(words[i])
    ensures Split(Join(words, " ")) == words
    ensures Gaps(Join(words, " ")) == SingleSpaceGaps(|words|)
  {
    JoinSingleSpace(words);
    SingleSpaceGapsSeparate(words);
    SplitInterleave(SingleSpaceGaps(|words|), words);
    GapsInterleave(SingleSpaceGaps(|words|), words);
  }

  /** A join of non-empty parts starts where the first part starts and ends where the last
      part ends. */
  lemma {:induction false} JoinEnds(parts: seq<string>, sep: string)
    requires parts != [] && forall i :: 0 <= i < |parts| ==> parts[i] != []
    ensures var r := Join(parts, sep); var last := parts[|parts| - 1];
      r != [] && r[0] == parts[0][0] && r[|r| - 1] == last[|last| - 1]
  {
    if |parts| > 1 {
      JoinEnds(parts[1..], sep);
      var r := Join(parts[1..], sep);
      assert Join(parts, sep) == parts[0] + (sep + r);
    }
  }
}
