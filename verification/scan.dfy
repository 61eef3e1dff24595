/** The two global regular expressions the import rewriter runs over a
    file's text with `matchAll`:

      relative imports   from\s+["']\.?\.\/([^"']+)["']
      legacy imports     https:\/\/deno\.land\/std@\$STD_VERSION\/([^"'\s]+)

    Each is modelled by a matcher that decides, at one position, whether a
    match starts there and where it ends, together with a declarative
    description of the matched text; `Scan` is the global search. */
module ImportScan {
  import opened Wrappers
  import opened Strings

  datatype Pattern = RelativeImport | LegacyImport

  /** A match of a pattern: `text[start..end]`, with capture group 1. */
  datatype Match = Match(start: nat, end: nat, capture: string)

  const LegacyPrefix: string := "https://deno.land/std@$STD_VERSION/"

  /** The characters `\s` matches in a JavaScript regular expression. */
  predicate IsJsSpace(c: char) {
    c == ' ' || c == '\t' || c == '\n' || c == '\r' || c == '\U{000B}' || c == '\U{000C}' ||
    c == '\U{00A0}' || c == '\U{1680}' || ('\U{2000}' <= c <= '\U{200A}') ||
    c == '\U{2028}' || c == '\U{2029}' || c == '\U{202F}' || c == '\U{205F}' ||
    c == '\U{3000}' || c == '\U{FEFF}'
  }

  predicate IsQuote(c: char) {
    c == '"' || c == '\''
  }

  predicate NotQuote(c: char) {
    !IsQuote(c)
  }

  /** `[^"'\s]`. */
  predicate IsSpecifierChar(c: char) {
    !IsQuote(c) && !IsJsSpace(c)
  }

  /** End of the longest run of characters satisfying `p` from `i`: what a
      greedy `p+` or `p*` consumes. */
  function SpanEnd(text: string, i: nat, p: char -> bool): (e: nat)
    requires i <= |text|
    ensures i <= e <= |text|
    ensures forall k :: i <= k < e ==> p(text[k])
    ensures e < |text| ==> !p(text[e])
    decreases |text| - i
  {
    if i == |text| || !p(text[i]) then i else SpanEnd(text, i + 1, p)
  }

  /** A run with a given end is the longest one. */
  lemma {:induction false} SpanEndUnique(text: string, i: nat, e: nat, p: char -> bool)
    requires i <= e <= |text|
    requires forall k :: i <= k < e ==> p(text[k])
    requires e < |text| ==> !p(text[e])
    ensures SpanEnd(text, i, p) == e
    decreases |text| - i
  {
    if i < e {
      SpanEndUnique(text, i + 1, e, p);
    }
  }

  /** Whether the relative-import expression matches at `i`. Backtracking
      never changes the outcome: the whitespace run must stop at a quote,
      `\.?\.\/` is `../` or else `./`, and the capture must stop at a quote. */
  function MatchRelativeAt(text: string, i: nat): (r: Option<Match>)
    ensures r.Some? ==> r.value.start == i && i < r.value.end <= |text|
  {
    if !OccursAt(text, "from", i) then None
    else MatchAfterFrom(text, i, SpanEnd(text, i + 4, IsJsSpace))
  }

  /** The rest of the match once `from` and the whitespace run ending at
      `q` are consumed. */
  function MatchAfterFrom(text: string, i: nat, q: nat): (r: Option<Match>)
    requires i + 4 <= q <= |text|
    ensures r.Some? ==> r.value.start == i && i < r.value.end <= |text|
  {
    if q == i + 4 || q == |text| || !IsQuote(text[q]) then None
    else if !OccursAt(text, DotsAt(text, q), q + 1) then None
    else MatchCapture(text, i, q + 1 + |DotsAt(text, q)|)
  }

  /** `([^"']+)["']` from `c`. */
  function MatchCapture(text: string, i: nat, c: nat): (r: Option<Match>)
    requires i < c <= |text|
    ensures r.Some? ==> r.value.start == i && i < r.value.end <= |text|
  {
    var e := SpanEnd(text, c, NotQuote);
    if e == c || e == |text| then None
    else Some(Match(i, e + 1, text[c..e]))
  }

  /** Whether the legacy-import expression matches at `i`. */
  function MatchLegacyAt(text: string, i: nat): (r: Option<Match>)
    ensures r.Some? ==> r.value.start == i && i < r.value.end <= |text|
  {
    if !OccursAt(text, LegacyPrefix, i) then None
    else
      var c := i + |LegacyPrefix|;
      var e := SpanEnd(text, c, IsSpecifierChar);
      if e == c then None else Some(Match(i, e, text[c..e]))
  }

  function MatchAt(pattern: Pattern, text: string, i: nat): (r: Option<Match>)
    ensures r.Some? ==> r.value.start == i && i < r.value.end <= |text|
  {
    match pattern
    case RelativeImport => MatchRelativeAt(text, i)
    case LegacyImport => MatchLegacyAt(text, i)
  }

  /** `text[m.start..m.end]` is `from`, `n` whitespace characters, a quote,
      `dots`, the capture (at least one character, no quote) and a quote. */
  predicate RelativeForm(text: string, m: Match, n: nat, dots: string) {
    var q := m.start + 4 + n;
    var c := q + 1 + |dots|;
    (dots == "../" || dots == "./") && n > 0 &&
    OccursAt(text, "from", m.start) && q < |text| &&
    (forall k :: m.start + 4 <= k < q ==> IsJsSpace(text[k])) &&
    IsQuote(text[q]) && OccursAt(text, dots, q + 1) &&
    |m.capture| > 0 && (forall k :: 0 <= k < |m.capture| ==> NotQuote(m.capture[k])) &&
    OccursAt(text, m.capture, c) && m.end == c + |m.capture| + 1 && m.end <= |text| &&
    IsQuote(text[m.end - 1])
  }

  /** `text[m.start..m.end]` is the legacy prefix followed by the capture,
      the longest non-empty run of characters other than quotes and
      whitespace. */
  predicate LegacyForm(text: string, m: Match) {
    var c := m.start + |LegacyPrefix|;
    OccursAt(text, LegacyPrefix, m.start) &&
    |m.capture| > 0 && (forall k :: 0 <= k < |m.capture| ==> IsSpecifierChar(m.capture[k])) &&
    OccursAt(text, m.capture, c) && m.end == c + |m.capture| &&
    (m.end < |text| ==> !IsSpecifierChar(text[m.end]))
  }

  lemma CharsAt(text: string, pat: string, i: nat)
    requires OccursAt(text, pat, i)
    ensures forall k :: 0 <= k < |pat| ==> text[i + k] == pat[k]
  {
    forall k | 0 <= k < |pat|
      ensures text[i + k] == pat[k]
    {
      assert text[i..i + |pat|][k] == text[i + k];
    }
  }

  /** Every relative-import match has the described form. */
  lemma MatchRelativeSound(text: string, i: nat)
    requires MatchRelativeAt(text, i).Some?
    ensures exists n, dots :: RelativeForm(text, MatchRelativeAt(text, i).value, n, dots)
  {
    var m := MatchRelativeAt(text, i).value;
    var q := SpanEnd(text, i + 4, IsJsSpace);
    assert MatchAfterFrom(text, i, q) == Some(m);
    var dots := DotsAt(text, q);
    var c := q + 1 + |dots|;
    var e := SpanEnd(text, c, NotQuote);
    forall k | 0 <= k < |m.capture|
      ensures NotQuote(m.capture[k])
    {
      assert m.capture[k] == text[c + k];
    }
    assert RelativeForm(text, m, q - (i + 4), dots);
  }

  /** The matcher's choice of `../` or `./` after the opening quote. */
  function DotsAt(text: string, q: nat): string {
    if q + 2 < |text| && text[q + 2] == '.' then "../" else "./"
  }

  lemma DotsAtForm(text: string, q: nat, dots: string)
    requires dots == "../" || dots == "./"
    requires OccursAt(text, dots, q + 1)
    ensures DotsAt(text, q) == dots
  {
    CharsAt(text, dots, q + 1);
    assert text[q + 2] == dots[1];
  }

  /** A non-empty quote-free capture followed by a quote is exactly what
      `([^"']+)["']` consumes. */
  lemma CaptureSpan(text: string, c: nat, cap: string)
    requires OccursAt(text, cap, c) && c + |cap| < |text| && IsQuote(text[c + |cap|])
    requires forall k :: 0 <= k < |cap| ==> NotQuote(cap[k])
    ensures SpanEnd(text, c, NotQuote) == c + |cap|
  {
    CharsAt(text, cap, c);
    forall k | c <= k < c + |cap|
      ensures NotQuote(text[k])
    {
      assert text[k] == cap[k - c];
    }
    SpanEndUnique(text, c, c + |cap|, NotQuote);
  }

  /** The part after the dots: the capture and its closing quote. */
  lemma RelativeFormCapture(text: string, m: Match, n: nat, dots: string)
    requires RelativeForm(text, m, n, dots)
    ensures MatchCapture(text, m.start, m.start + 4 + n + 1 + |dots|) == Some(m)
  {
    var c := m.start + 4 + n + 1 + |dots|;
    CaptureSpan(text, c, m.capture);
    assert text[c..c + |m.capture|] == m.capture;
  }

  /** The part after `from`: the whitespace run, the quote and the dots. */
  lemma RelativeFormAfterFrom(text: string, m: Match, n: nat, dots: string)
    requires RelativeForm(text, m, n, dots)
    ensures MatchAfterFrom(text, m.start, m.start + 4 + n) == Some(m)
  {
    var q := m.start + 4 + n;
    DotsAtForm(text, q, dots);
    RelativeFormCapture(text, m, n, dots);
  }

  /** Conversely, text of the described form is matched at its start, and
      the match is the described one. */
  lemma MatchRelativeComplete(text: string, m: Match, n: nat, dots: string)
    requires RelativeForm(text, m, n, dots)
    ensures MatchRelativeAt(text, m.start) == Some(m)
  {
    var i := m.start;
    SpanEndUnique(text, i + 4, i + 4 + n, IsJsSpace);
    RelativeFormAfterFrom(text, m, n, dots);
  }

  /** Every legacy-import match has the described form. */
  lemma MatchLegacySound(text: string, i: nat)
    requires MatchLegacyAt(text, i).Some?
    ensures LegacyForm(text, MatchLegacyAt(text, i).value)
  {
    var m := MatchLegacyAt(text, i).value;
    var c := i + |LegacyPrefix|;
    forall k | 0 <= k < |m.capture|
      ensures IsSpecifierChar(m.capture[k])
    {
      assert m.capture[k] == text[c + k];
    }
  }

  lemma MatchLegacyComplete(text: string, m: Match)
    requires LegacyForm(text, m)
    ensures MatchLegacyAt(text, m.start) == Some(m)
  {
    var c := m.start + |LegacyPrefix|;
    CharsAt(text, m.capture, c);
    SpanEndUnique(text, c, m.end, IsSpecifierChar);
    assert text[c..m.end] == m.capture;
  }

  /** Position `j` lies inside one of the matches. */
  predicate Covered(ms: seq<Match>, j: nat) {
    exists k :: 0 <= k < |ms| && ms[k].start <= j < ms[k].end
  }

  lemma CoveredCons(m: Match, rest: seq<Match>, j: nat)
    requires m.start <= j < m.end || Covered(rest, j)
    ensures Covered([m] + rest, j)
  {
    var r := [m] + rest;
    if m.start <= j < m.end {
      assert r[0] == m;
    } else {
      var k :| 0 <= k < |rest| && rest[k].start <= j < rest[k].end;
      assert r[k + 1] == rest[k];
    }
  }

  /** What a table of per-position results must satisfy: a match found at
      `i` starts at `i` and ends after it, within the text. */
  predicate Consistent(table: seq<Option<Match>>) {
    forall i :: 0 <= i < |table| && table[i].Some? ==>
      table[i].value.start == i && i < table[i].value.end <= |table|
  }

  /** What the expression finds at each of the first `n` positions of
      `text`. */
  function MatchTable(pattern: Pattern, text: string, n: nat): (table: seq<Option<Match>>)
    requires n <= |text|
    ensures |table| == n
    ensures forall i :: 0 <= i < n && table[i].Some? ==>
              table[i].value.start == i && i < table[i].value.end <= |text|
    decreases n
  {
    if n == 0 then [] else MatchTable(pattern, text, n - 1) + [MatchAt(pattern, text, n - 1)]
  }

  lemma {:induction false} MatchTableAt(pattern: Pattern, text: string, n: nat, i: nat)
    requires i < n <= |text|
    ensures MatchTable(pattern, text, n)[i] == MatchAt(pattern, text, i)
    decreases n
  {
    var t := MatchTable(pattern, text, n - 1);
    var x := MatchAt(pattern, text, n - 1);
    assert MatchTable(pattern, text, n) == t + [x];
    if i < n - 1 {
      MatchTableAt(pattern, text, n - 1, i);
      assert (t + [x])[i] == t[i];
    } else {
      assert (t + [x])[i] == x;
    }
  }

  /** Matches in increasing order, none overlapping the next. */
  predicate Ordered(ms: seq<Match>) {
    forall i, k :: 0 <= i < k < |ms| ==> ms[i].end <= ms[k].start
  }

  lemma OrderedCons(m: Match, rest: seq<Match>)
    requires Ordered(rest) && forall x :: x in rest ==> m.end <= x.start
    ensures Ordered([m] + rest)
  {
    var r := [m] + rest;
    forall i, k | 0 <= i < k < |r|
      ensures r[i].end <= r[k].start
    {
      assert r[k] == rest[k - 1];
      if i > 0 {
        assert r[i] == rest[i - 1];
      } else {
        assert r[k] in rest;
      }
    }
  }

  /** The global search from `pos` on: take the leftmost match, resume the
      search where it ends. */
  function ScanFrom(table: seq<Option<Match>>, pos: nat): (r: seq<Match>)
    requires Consistent(table)
    ensures forall m :: m in r ==> pos <= m.start < |table| && table[m.start] == Some(m)
    ensures Ordered(r)
    decreases |table| - pos
  {
    if pos >= |table| then []
    else
      match table[pos]
      case None => ScanFrom(table, pos + 1)
      case Some(m) =>
        var rest := ScanFrom(table, m.end);
        OrderedCons(m, rest);
        [m] + rest
  }

  /** No match is skipped: every position from `pos` on where the table
      holds a match lies inside one of the returned matches. */
  lemma {:induction false} ScanFromComplete(table: seq<Option<Match>>, pos: nat, j: nat)
    requires Consistent(table)
    requires pos <= j < |table| && table[j].Some?
    ensures Covered(ScanFrom(table, pos), j)
    decreases |table| - pos
  {
    match table[pos]
    case None =>
      assert j != pos;
      assert ScanFrom(table, pos) == ScanFrom(table, pos + 1);
      ScanFromComplete(table, pos + 1, j);
    case Some(m) =>
      var rest := ScanFrom(table, m.end);
      assert ScanFrom(table, pos) == [m] + rest;
      if m.end <= j {
        ScanFromComplete(table, m.end, j);
      }
      CoveredCons(m, rest, j);
  }

  /** `text.matchAll(re)`: matches in increasing, non-overlapping order
      within the text. */
  function Scan(pattern: Pattern, text: string): (r: seq<Match>)
    ensures forall k :: 0 <= k < |r| ==> r[k].start < r[k].end <= |text|
    ensures Ordered(r)
  {
    var r := ScanFrom(MatchTable(pattern, text, |text|), 0);
    assert forall k :: 0 <= k < |r| ==> r[k] in r;
    r
  }

  /** Every match `matchAll` returns is a real match of the expression. */
  lemma ScanSound(pattern: Pattern, text: string, k: nat)
    requires k < |Scan(pattern, text)|
    ensures MatchAt(pattern, text, Scan(pattern, text)[k].start) == Some(Scan(pattern, text)[k])
  {
    var r := Scan(pattern, text);
    assert r[k] in r;
    MatchTableAt(pattern, text, |text|, r[k].start);
  }

  /** `matchAll` misses nothing: every position where the expression
      matches lies inside one of the returned matches. */
  lemma ScanComplete(pattern: Pattern, text: string, j: nat)
    requires MatchAt(pattern, text, j).Some?
    ensures Covered(Scan(pattern, text), j)
  {
    MatchTableAt(pattern, text, |text|, j);
    ScanFromComplete(MatchTable(pattern, text, |text|), 0, j);
  }

  /** An import clause on its own: `from "<spec>"`. */
  function ImportLine(spec: string): string {
    "from \"" + spec + "\""
  }

  /** No two slashes in a row. */
  predicate NoDoubleSlash(text: string) {
    forall j :: 0 <= j && j + 1 < |text| ==> text[j] != '/' || text[j + 1] != '/'
  }

  /** An import clause on its own, `from "<dots><cap>"`, is one match
      spanning the whole text, with capture `cap`. */
  lemma SingleImportScan(dots: string, cap: string)
    requires dots == "../" || dots == "./"
    requires |cap| > 0 && forall k :: 0 <= k < |cap| ==> NotQuote(cap[k])
    ensures Scan(RelativeImport, ImportLine(dots + cap)) == [Match(0, |ImportLine(dots + cap)|, cap)]
  {
    var t := ImportLine(dots + cap);
    var c := 6 + |dots|;
    var m := Match(0, |t|, cap);
    assert t[..4] == "from" && t[4] == ' ' && t[5] == '"' && t[6..c] == dots;
    assert t[c..c + |cap|] == cap && t[|t| - 1] == '"';
    assert RelativeForm(t, m, 1, dots);
    MatchRelativeComplete(t, m, 1, dots);
    var table := MatchTable(RelativeImport, t, |t|);
    MatchTableAt(RelativeImport, t, |t|, 0);
    assert ScanFrom(table, 0) == [m] + ScanFrom(table, |t|);
  }

  /** The legacy prefix holds two slashes in a row. */
  lemma NoLegacyAt(text: string, i: nat)
    requires NoDoubleSlash(text)
    ensures MatchAt(LegacyImport, text, i) == None
  {
    if i + |LegacyPrefix| <= |text| {
      var w := text[i..i + |LegacyPrefix|];
      assert w[6] == text[i + 6] && w[7] == text[i + 7];
      assert LegacyPrefix[6] == '/' && LegacyPrefix[7] == '/';
    }
  }

  /** A text without two slashes in a row holds no legacy URL. */
  lemma NoLegacyWithoutDoubleSlash(text: string)
    requires NoDoubleSlash(text)
    ensures Scan(LegacyImport, text) == []
  {
    if |Scan(LegacyImport, text)| > 0 {
      ScanSound(LegacyImport, text, 0);
      NoLegacyAt(text, Scan(LegacyImport, text)[0].start);
      assert false;
    }
  }
}
