/**
 * The two fixed patterns of the extractor and `re.findall` over them.
 *
 * Both patterns have the same shape `before(inside\d+)trail`: fixed text
 * before the captured group, fixed text that opens the group, a greedy run of
 * one or more ASCII digits that closes it, and fixed text after it.  In the
 * link pattern every '.' is an unescaped regular-expression dot, which under
 * `re.DOTALL` matches any character (newline included); nothing else in
 * either pattern is special.  The scan tries each start position from left to
 * right and, after a match, resumes at the end of that match, returning the
 * captured group of each match in document order.
 */
module PatternMatcher {

  type Text = seq<char>

  /** `\d` without `re.UNICODE`: an ASCII digit. */
  predicate IsDigit(c: char) {
    '0' <= c <= '9'
  }

  predicate AllDigits(s: Text) {
    forall k | 0 <= k < |s| :: IsDigit(s[k])
  }

  /** Every character of `s` from position `j` up to (not including) `e` is a digit. */
  predicate DigitsBetween(s: Text, j: nat, e: nat) {
    forall k | j <= k < e && k < |s| :: IsDigit(s[k])
  }

  /** `w` occurs in `s` starting at position `i`. */
  predicate StartsAt(s: Text, i: nat, w: Text) {
    i + |w| <= |s| && s[i..i + |w|] == w
  }

  /** `t` is matched by `pattern`, read as a regular expression in which only '.' is special. */
  predicate FitsPattern(t: Text, pattern: Text) {
    |t| == |pattern| && forall k | 0 <= k < |t| :: pattern[k] == '.' || t[k] == pattern[k]
  }

  /** The regular expression `before(inside\d+)trail`. */
  datatype Pattern = Pattern(before: Text, inside: Text, trail: Text)

  /** `<dc:ostiId>(\d+)</dc:ostiId>` */
  const IDENTIFIER_PATTERN: Pattern := Pattern("<dc:ostiId>", "", "</dc:ostiId>")

  /** The URL part of the link pattern, before its digits. */
  const LINK_URL_PATTERN: Text := "http://www.osti.gov/scitech/servlets/purl/"

  /** `\>(http://www.osti.gov/scitech/servlets/purl/\d+)\<` (the escaped `\>` and `\<` are plain characters). */
  const LINK_PATTERN: Pattern := Pattern(">", LINK_URL_PATTERN, "<")

  /** The fixed text a match starts with, before its digit run. */
  function Lead(p: Pattern): Text {
    p.before + p.inside
  }

  /** The length of the longest run of ASCII digits that starts at position `j`. */
  function DigitRun(s: Text, j: nat): (n: nat)
    requires j <= |s|
    ensures j + n <= |s| && DigitsBetween(s, j, j + n)
    ensures j + n == |s| || !IsDigit(s[j + n])
    decreases |s| - j
  {
    if j < |s| && IsDigit(s[j]) then 1 + DigitRun(s, j + 1) else 0
  }

  /**
   * The pattern matches at position `i`, reading its digit run greedily: the
   * longest run of digits after the lead, followed by the trail.
   */
  predicate MatchesAt(p: Pattern, s: Text, i: nat)
    ensures MatchesAt(p, s, i) ==> i + |Lead(p)| < |s| && IsDigit(s[i + |Lead(p)|])
  {
    var lead := Lead(p);
    i + |lead| <= |s| && FitsPattern(s[i..i + |lead|], lead) &&
    var n := DigitRun(s, i + |lead|);
    n > 0 && StartsAt(s, i + |lead| + n, p.trail)
  }

  /** One past the last character of the match at `i`. */
  function End(p: Pattern, s: Text, i: nat): (e: nat)
    requires MatchesAt(p, s, i)
    ensures i < e <= |s|
  {
    i + |Lead(p)| + DigitRun(s, i + |Lead(p)|) + |p.trail|
  }

  /** What a captured group looks like: text that fits `inside`, then one or more digits. */
  predicate WellFormed(p: Pattern, c: Text) {
    |c| > |p.inside| && FitsPattern(c[..|p.inside|], p.inside) && AllDigits(c[|p.inside|..])
  }

  /** The captured group (the part inside the parentheses) of the match at `i`. */
  function Capture(p: Pattern, s: Text, i: nat): (c: Text)
    requires MatchesAt(p, s, i)
    ensures WellFormed(p, c)
  {
    CaptureShape(p, s, i);
    s[i + |p.before|..i + |Lead(p)| + DigitRun(s, i + |Lead(p)|)]
  }

  /** `re.findall(pattern, s[i..], re.DOTALL)`: the captures of the non-overlapping matches, left to right. */
  function ScanFrom(p: Pattern, s: Text, i: nat): (r: seq<Text>)
    requires i <= |s|
    ensures forall k | 0 <= k < |r| :: WellFormed(p, r[k])
    decreases |s| - i
  {
    if i == |s| then []
    else if MatchesAt(p, s, i) then [Capture(p, s, i)] + ScanFrom(p, s, End(p, s, i))
    else ScanFrom(p, s, i + 1)
  }

  function Scan(p: Pattern, s: Text): (r: seq<Text>)
    ensures forall k | 0 <= k < |r| :: WellFormed(p, r[k])
  {
    ScanFrom(p, s, 0)
  }

  // ---------------------------------------------------------------------------
  // Reference definitions: where the pattern occurs, said without the scan.

  /** The pattern occurs at `i` with digit run `d` (any `d`, not only the longest). */
  ghost predicate OccursAt(p: Pattern, s: Text, i: nat, d: Text) {
    var lead := Lead(p);
    |d| > 0 && AllDigits(d) &&
    i + |lead| <= |s| && FitsPattern(s[i..i + |lead|], lead) &&
    StartsAt(s, i + |lead|, d) && StartsAt(s, i + |lead| + |d|, p.trail)
  }

  /** Every position in `s[i..]` at which the pattern matches, in increasing order. */
  function PositionsFrom(p: Pattern, s: Text, i: nat): (ps: seq<nat>)
    requires i <= |s|
    ensures forall q :: q in ps <==> i <= q < |s| && MatchesAt(p, s, q)
    ensures forall a, b | 0 <= a < b < |ps| :: ps[a] < ps[b]
    decreases |s| - i
  {
    if i == |s| then []
    else
      var rest := PositionsFrom(p, s, i + 1);
      assert forall b | 0 <= b < |rest| :: rest[b] in rest;
      if MatchesAt(p, s, i) then [i] + rest else rest
  }

  function Positions(p: Pattern, s: Text): seq<nat> {
    PositionsFrom(p, s, 0)
  }

  /**
   * The shape both patterns of the extractor have, on which the scan's
   * properties rest: the trail starts with a non-digit, so the greedy digit
   * run is the only one that can be followed by the trail; and the first two
   * characters of the lead are plain non-digits that cannot both be matched
   * again at any later position of the lead or of the trail, so no match
   * starts inside another.
   */
  predicate Separated(p: Pattern) {
    var lead, trail := Lead(p), p.trail;
    && |lead| >= 2 && |trail| >= 1 && !IsDigit(trail[0])
    && lead[0] != '.' && lead[1] != '.' && !IsDigit(lead[0]) && !IsDigit(lead[1])
    && (forall k | 0 < k < |lead| - 1 ::
          (lead[k] != '.' && lead[k] != lead[0]) || (lead[k + 1] != '.' && lead[k + 1] != lead[1]))
    && lead[|lead| - 1] != '.' && lead[|lead| - 1] != lead[0]
    && (forall m | 0 <= m < |trail| :: trail[m] != lead[0] || (m + 1 < |trail| && trail[m + 1] != lead[1]))
  }

  // ---------------------------------------------------------------------------
  // Lemmas

  /** A run of `n` digits followed by a non-digit (or the end) is exactly what `DigitRun` measures. */
  lemma {:induction false} DigitRunExact(s: Text, j: nat, n: nat)
    requires j + n <= |s| && DigitsBetween(s, j, j + n)
    requires j + n == |s| || !IsDigit(s[j + n])
    ensures DigitRun(s, j) == n
    decreases n
  {
    if n > 0 {
      DigitRunExact(s, j + 1, n - 1);
    }
  }

  /**
   * The greedy reading is the regular expression's: the pattern matches at `i`
   * exactly when it occurs there with some digit run, and then that digit run
   * is the captured one.
   */
  lemma MatchesIffOccurs(p: Pattern, s: Text, i: nat, d: Text)
    requires |p.trail| > 0 && !IsDigit(p.trail[0])
    ensures MatchesAt(p, s, i) ==> OccursAt(p, s, i, s[i + |Lead(p)|..i + |Lead(p)| + DigitRun(s, i + |Lead(p)|)])
    ensures OccursAt(p, s, i, d) ==> MatchesAt(p, s, i) && DigitRun(s, i + |Lead(p)|) == |d|
  {
    if MatchesAt(p, s, i) {
      MatchOccurs(p, s, i);
    }
    if OccursAt(p, s, i, d) {
      OccursMatches(p, s, i, d);
    }
  }

  lemma OccursMatches(p: Pattern, s: Text, i: nat, d: Text)
    requires |p.trail| > 0 && !IsDigit(p.trail[0]) && OccursAt(p, s, i, d)
    ensures MatchesAt(p, s, i) && DigitRun(s, i + |Lead(p)|) == |d|
  {
    var start := i + |Lead(p)|;
    var e := start + |d|;
    assert s[e] == s[e..e + |p.trail|][0];
    forall k | start <= k < e
      ensures IsDigit(s[k])
    {
      assert s[k] == s[start..e][k - start];
    }
    DigitRunExact(s, start, |d|);
  }

  lemma MatchOccurs(p: Pattern, s: Text, i: nat)
    requires MatchesAt(p, s, i)
    ensures OccursAt(p, s, i, s[i + |Lead(p)|..i + |Lead(p)| + DigitRun(s, i + |Lead(p)|)])
  {
    var start := i + |Lead(p)|;
    var e := start + DigitRun(s, start);
    var d := s[start..e];
    assert forall k | 0 <= k < |d| :: d[k] == s[start + k];
  }

  lemma CaptureShape(p: Pattern, s: Text, i: nat)
    requires MatchesAt(p, s, i)
    ensures var start := i + |Lead(p)|;
      WellFormed(p, s[i + |p.before|..start + DigitRun(s, start)])
  {
    var start := i + |Lead(p)|;
    var n := DigitRun(s, start);
    var c := s[i + |p.before|..start + n];
    var b, u := |p.before|, |p.inside|;
    forall k | 0 <= k < u
      ensures p.inside[k] == '.' || c[k] == p.inside[k]
    {
      assert c[k] == s[i..start][b + k];
      assert Lead(p)[b + k] == p.inside[k];
    }
    assert forall k | 0 <= k < n :: c[u..][k] == s[start + k];
  }

  /** The positions list skips straight from a match to its end: nothing in between matches. */
  lemma {:induction false} SkipMatch(p: Pattern, s: Text, i: nat, j: nat)
    requires Separated(p) && MatchesAt(p, s, i) && i < j <= End(p, s, i)
    ensures PositionsFrom(p, s, j) == PositionsFrom(p, s, End(p, s, i))
    decreases End(p, s, i) - j
  {
    if j < End(p, s, i) {
      NoOverlap(p, s, i, j);
      SkipMatch(p, s, i, j + 1);
    }
  }

  /** The scan from `i` captures, in order, at every position from `i` on where the pattern matches. */
  ghost predicate ScanAgrees(p: Pattern, s: Text, i: nat)
    requires i <= |s|
  {
    var r, ps := ScanFrom(p, s, i), PositionsFrom(p, s, i);
    |r| == |ps| && forall k | 0 <= k < |r| :: ps[k] in ps && r[k] == Capture(p, s, ps[k])
  }

  lemma {:induction false} ScanFromFindsEveryMatch(p: Pattern, s: Text, i: nat)
    requires Separated(p) && i <= |s|
    ensures ScanAgrees(p, s, i)
    decreases |s| - i
  {
    if i == |s| {
    } else if MatchesAt(p, s, i) {
      ScanFromFindsEveryMatch(p, s, End(p, s, i));
      ScanStepMatch(p, s, i);
    } else {
      ScanFromFindsEveryMatch(p, s, i + 1);
      assert ScanFrom(p, s, i) == ScanFrom(p, s, i + 1);
      assert PositionsFrom(p, s, i) == PositionsFrom(p, s, i + 1);
    }
  }

  lemma ScanStepMatch(p: Pattern, s: Text, i: nat)
    requires Separated(p) && i < |s| && MatchesAt(p, s, i) && ScanAgrees(p, s, End(p, s, i))
    ensures ScanAgrees(p, s, i)
  {
    var e := End(p, s, i);
    var r, ps := ScanFrom(p, s, e), PositionsFrom(p, s, i + 1);
    SkipMatch(p, s, i, i + 1);
    assert ps == PositionsFrom(p, s, e);
    var r', ps' := ScanFrom(p, s, i), PositionsFrom(p, s, i);
    assert r' == [Capture(p, s, i)] + r;
    assert ps' == [i] + ps;
    forall k | 0 <= k < |r'|
      ensures ps'[k] in ps' && r'[k] == Capture(p, s, ps'[k])
    {
      if k > 0 {
        assert r'[k] == r[k - 1] && ps'[k] == ps[k - 1];
      }
    }
  }

  /**
   * `re.findall` over a whole document returns one capture per position at
   * which the pattern matches, in document order and with duplicates kept; it
   * returns nothing exactly when the pattern matches nowhere.
   */
  lemma ScanFindsEveryMatch(p: Pattern, s: Text)
    requires Separated(p)
    ensures |Scan(p, s)| == |Positions(p, s)|
    ensures forall k | 0 <= k < |Scan(p, s)| ::
      MatchesAt(p, s, Positions(p, s)[k]) && Scan(p, s)[k] == Capture(p, s, Positions(p, s)[k])
    ensures Scan(p, s) == [] <==> forall q | 0 <= q < |s| :: !MatchesAt(p, s, q)
  {
    ScanFromFindsEveryMatch(p, s, 0);
    var ps := Positions(p, s);
    if ps != [] {
      assert ps[0] in ps;
    }
  }

  /**
   * Where the `k`-th result sits in the document: at its match position the
   * document holds the text before the group, then the result itself, then
   * the trail.
   */
  lemma ScanInContext(p: Pattern, s: Text, k: nat)
    requires Separated(p) && k < |Scan(p, s)|
    ensures k < |Positions(p, s)|
    ensures var q, c := Positions(p, s)[k], Scan(p, s)[k];
      && q + |p.before| <= |s| && FitsPattern(s[q..q + |p.before|], p.before)
      && StartsAt(s, q + |p.before|, c)
      && StartsAt(s, q + |p.before| + |c|, p.trail)
  {
    ScanAt(p, s, k);
    CaptureInContext(p, s, Positions(p, s)[k]);
  }

  /** The `k`-th result is the capture at the `k`-th match position. */
  lemma ScanAt(p: Pattern, s: Text, k: nat)
    requires Separated(p) && k < |Scan(p, s)|
    ensures k < |Positions(p, s)|
    ensures MatchesAt(p, s, Positions(p, s)[k]) && Scan(p, s)[k] == Capture(p, s, Positions(p, s)[k])
  {
    ScanFindsEveryMatch(p, s);
  }

  lemma CaptureInContext(p: Pattern, s: Text, q: nat)
    requires MatchesAt(p, s, q)
    ensures var c, b := Capture(p, s, q), |p.before|;
      && q + b <= |s| && FitsPattern(s[q..q + b], p.before)
      && StartsAt(s, q + b, c)
      && StartsAt(s, q + b + |c|, p.trail)
  {
    var lead, b := Lead(p), |p.before|;
    var window := s[q..q + |lead|];
    forall k | 0 <= k < b
      ensures p.before[k] == '.' || s[q..q + b][k] == p.before[k]
    {
      assert s[q..q + b][k] == window[k];
      assert lead[k] == p.before[k];
    }
  }

  /** Each result of the link scan sits between a '>' and the '<' right after it. */
  lemma LinkScanBetweenBrackets(s: Text, k: nat)
    requires k < |Scan(LINK_PATTERN, s)|
    ensures k < |Positions(LINK_PATTERN, s)|
    ensures var q, c := Positions(LINK_PATTERN, s)[k], Scan(LINK_PATTERN, s)[k];
      && q + |c| + 1 < |s|
      && s[q] == '>' && s[q + 1..q + 1 + |c|] == c && s[q + 1 + |c|] == '<'
  {
    LinkSeparated();
    ScanInContext(LINK_PATTERN, s, k);
    var q, c := Positions(LINK_PATTERN, s)[k], Scan(LINK_PATTERN, s)[k];
    assert s[q..q + 1][0] == s[q];
    assert s[q + 1 + |c|..q + 1 + |c| + 1][0] == s[q + 1 + |c|];
  }

  /** Each result of the identifier scan is the digit string of a complete `<dc:ostiId>...</dc:ostiId>` marker. */
  lemma IdentifierScanInMarker(s: Text, k: nat)
    requires k < |Scan(IDENTIFIER_PATTERN, s)|
    ensures k < |Positions(IDENTIFIER_PATTERN, s)|
    ensures var q, c := Positions(IDENTIFIER_PATTERN, s)[k], Scan(IDENTIFIER_PATTERN, s)[k];
      && |c| > 0 && AllDigits(c)
      && StartsAt(s, q, "<dc:ostiId>") && StartsAt(s, q + 11, c) && StartsAt(s, q + 11 + |c|, "</dc:ostiId>")
  {
    IdentifierSeparated();
    ScanInContext(IDENTIFIER_PATTERN, s, k);
    IdentifierCapture(Scan(IDENTIFIER_PATTERN, s)[k]);
    var q := Positions(IDENTIFIER_PATTERN, s)[k];
    var marker := IDENTIFIER_PATTERN.before;
    assert marker == "<dc:ostiId>" && |marker| == 11;
    assert s[q..q + 11] == marker by {
      assert forall j | 0 <= j < 11 :: marker[j] != '.';
    }
  }

  /** A document that is exactly one occurrence of the pattern yields exactly its capture. */
  lemma ScanOfOneMatch(p: Pattern, lead: Text, d: Text)
    requires FitsPattern(lead, Lead(p)) && |d| > 0 && AllDigits(d)
    requires |p.trail| > 0 && !IsDigit(p.trail[0])
    ensures Scan(p, lead + d + p.trail) == [(lead + d)[|p.before|..]]
  {
    var s := lead + d + p.trail;
    OneMatch(p, lead, d);
    assert ScanFrom(p, s, |s|) == [];
  }

  lemma OneMatch(p: Pattern, lead: Text, d: Text)
    requires FitsPattern(lead, Lead(p)) && |d| > 0 && AllDigits(d)
    requires |p.trail| > 0 && !IsDigit(p.trail[0])
    ensures var s := lead + d + p.trail;
      MatchesAt(p, s, 0) && End(p, s, 0) == |s| && Capture(p, s, 0) == (lead + d)[|p.before|..]
  {
    var body := lead + d;
    var s := body + p.trail;
    var n, e := |Lead(p)|, |body|;
    assert |lead| == n && e == n + |d| && |s| == e + |p.trail|;
    assert s[..e] == body;
    assert body[..n] == lead && body[n..] == d;
    assert s[n..n + |d|] == d;
    assert FitsPattern(s[0..n], Lead(p)) by {
      assert s[0..n] == lead;
    }
    assert s[e..e + |p.trail|] == p.trail && s[e] == p.trail[0];
    assert OccursAt(p, s, 0, d);
    OccursMatches(p, s, 0, d);
    assert body[|p.before|..] == s[|p.before|..e];
  }

  /** Every text fits itself read as a pattern. */
  lemma FitsItself(t: Text)
    ensures FitsPattern(t, t)
  {
  }

  /** The identifier marker around a digit string is found, and only that digit string is returned. */
  lemma ScanOfIdentifierMarker(d: Text)
    requires |d| > 0 && AllDigits(d)
    ensures Scan(IDENTIFIER_PATTERN, "<dc:ostiId>" + d + "</dc:ostiId>") == [d]
  {
    var p := IDENTIFIER_PATTERN;
    assert Lead(p) == "<dc:ostiId>";
    FitsItself(Lead(p));
    ScanOfOneMatch(p, Lead(p), d);
    assert (Lead(p) + d)[|p.before|..] == d;
  }

  /** An identifier capture is a non-empty digit string. */
  lemma IdentifierCapture(c: Text)
    ensures WellFormed(IDENTIFIER_PATTERN, c) <==> |c| > 0 && AllDigits(c)
  {
    assert c[|IDENTIFIER_PATTERN.inside|..] == c;
  }

  /** The identifier pattern has the separated shape. */
  lemma IdentifierSeparated()
    ensures Separated(IDENTIFIER_PATTERN)
  {
    var lead, trail := Lead(IDENTIFIER_PATTERN), IDENTIFIER_PATTERN.trail;
    assert lead == "<dc:ostiId>";
    forall k | 0 < k < |lead| - 1
      ensures lead[k] != '.' && lead[k] != lead[0]
    {
      IdentifierChar(k);
    }
    forall m | 0 <= m < |trail|
      ensures trail[m] != lead[0] || (m + 1 < |trail| && trail[m + 1] != lead[1])
    {
      IdentifierChar(m);
    }
  }

  /** The characters of the identifier marker: '<' only at its start, and no dot. */
  lemma IdentifierChar(k: nat)
    ensures 0 < k < |"<dc:ostiId>"| ==> "<dc:ostiId>"[k] != '.' && "<dc:ostiId>"[k] != '<'
    ensures 0 < k < |"</dc:ostiId>"| ==> "</dc:ostiId>"[k] != '<'
    ensures "</dc:ostiId>"[1] == '/'
  {
  }

  /** The link pattern has the separated shape: its two dots are each followed by a plain letter other than 'h'. */
  lemma LinkSeparated()
    ensures Separated(LINK_PATTERN)
  {
    var lead := Lead(LINK_PATTERN);
    assert lead == ">" + LINK_URL_PATTERN;
    LinkUrlChar(0);
    assert lead[1] == LINK_URL_PATTERN[0] && lead[|lead| - 1] == LINK_URL_PATTERN[|LINK_URL_PATTERN| - 1];
    forall k | 0 < k < |lead| - 1
      ensures (lead[k] != '.' && lead[k] != lead[0]) || (lead[k + 1] != '.' && lead[k + 1] != lead[1])
    {
      LinkUrlChar(k - 1);
    }
  }

  /** The characters of the link URL: no '>', and each of its two dots is followed by a letter other than 'h'. */
  lemma LinkUrlChar(k: nat)
    requires k < |LINK_URL_PATTERN|
    ensures LINK_URL_PATTERN[0] == 'h' && LINK_URL_PATTERN[|LINK_URL_PATTERN| - 1] == '/'
    ensures LINK_URL_PATTERN[k] != '>'
    ensures LINK_URL_PATTERN[k] == '.' ==>
      k + 1 < |LINK_URL_PATTERN| && LINK_URL_PATTERN[k + 1] != '.' && LINK_URL_PATTERN[k + 1] != 'h'
  {
  }

  /** Python resumes the scan at the end of a match; no other match starts inside it. */
  lemma NoOverlap(p: Pattern, s: Text, i: nat, j: nat)
    requires Separated(p) && MatchesAt(p, s, i) && i < j < End(p, s, i)
    ensures !MatchesAt(p, s, j)
  {
    var lead := Lead(p);
    var start := i + |lead|;
    var n := DigitRun(s, start);
    if j < start {
      InsideLead(p, s, i, j);
    } else if j < start + n {
      assert s[start..start + n][j - start] == s[j];
    } else {
      InsideTrail(p, s, start + n, j);
    }
    MatchHead(p, s, j);
  }

  /** A match starts with the first two characters of its lead, neither of them a wildcard. */
  lemma MatchHead(p: Pattern, s: Text, j: nat)
    requires Separated(p)
    ensures MatchesAt(p, s, j) ==> j + 1 < |s| && s[j] == Lead(p)[0] && s[j + 1] == Lead(p)[1]
  {
    if MatchesAt(p, s, j) {
      var lead := Lead(p);
      assert s[j..j + |lead|][0] == s[j] && s[j..j + |lead|][1] == s[j + 1];
    }
  }

  /** Inside the lead of a match, no character pair can begin another lead. */
  lemma InsideLead(p: Pattern, s: Text, i: nat, j: nat)
    requires Separated(p) && MatchesAt(p, s, i) && i < j < i + |Lead(p)|
    ensures j + 1 < |s| ==> s[j] != Lead(p)[0] || s[j + 1] != Lead(p)[1]
  {
    var lead := Lead(p);
    var k := j - i;
    var window := s[i..i + |lead|];
    assert window[k] == s[j];
    if k + 1 < |lead| {
      assert window[k + 1] == s[j + 1];
    } else {
      var start := i + |lead|;
      assert s[start..start + DigitRun(s, start)][0] == s[j + 1];
    }
  }

  /** Inside the trail of a match, no character pair can begin a lead. */
  lemma InsideTrail(p: Pattern, s: Text, t: nat, j: nat)
    requires Separated(p) && StartsAt(s, t, p.trail) && t <= j < t + |p.trail|
    ensures j + 1 < |s| ==> s[j] != Lead(p)[0] || s[j + 1] != Lead(p)[1]
  {
    var m := j - t;
    var window := s[t..t + |p.trail|];
    assert window[m] == s[j];
    if m + 1 < |p.trail| {
      assert window[m + 1] == s[j + 1];
    }
  }
}
