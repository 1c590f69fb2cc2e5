/**
 The version marker of a hook script and the search for it.

 The source searches the hook text with the regular expression
 `{\s*version\s*=\s*?(\d+)\s*}$` compiled with MULTILINE, and reads the digit
 group of the leftmost match. Here that search is written out: `MatchAt`
 matches the pattern at one start position, `FindMarker` returns the leftmost
 start position that matches. `MarkerIn` states declaratively what a match is,
 and the lemmas below show the matcher accepts exactly those.

 Whitespace (`\s`) is the ASCII set space, tab, newline, carriage return,
 vertical tab and form feed; digits (`\d`) are `0`..`9`. The `$` anchor under
 MULTILINE holds at the end of the text and just before a newline.
 */
module VersionPattern {
  import opened Wrappers

  predicate IsSpace(c: char)
  {
    c == ' ' || c == '\t' || c == '\n' || c == '\r' || c == '\U{0B}' || c == '\U{0C}'
  }

  predicate IsDigit(c: char)
  {
    '0' <= c <= '9'
  }

  predicate SpacesBetween(s: string, i: nat, j: nat)
    requires i <= j <= |s|
  {
    forall k :: i <= k < j ==> IsSpace(s[k])
  }

  predicate DigitsBetween(s: string, i: nat, j: nat)
    requires i <= j <= |s|
  {
    forall k :: i <= k < j ==> IsDigit(s[k])
  }

  /** End of the run of whitespace that starts at `i` (what a greedy `\s*` consumes). */
  function SkipSpaces(s: string, i: nat): (j: nat)
    requires i <= |s|
    ensures i <= j <= |s|
    ensures SpacesBetween(s, i, j)
    ensures j == |s| || !IsSpace(s[j])
    decreases |s| - i
  {
    if i < |s| && IsSpace(s[i]) then SkipSpaces(s, i + 1) else i
  }

  /** End of the run of digits that starts at `i` (what a greedy `\d+` consumes). */
  function SkipDigits(s: string, i: nat): (j: nat)
    requires i <= |s|
    ensures i <= j <= |s|
    ensures DigitsBetween(s, i, j)
    ensures j == |s| || !IsDigit(s[j])
    decreases |s| - i
  {
    if i < |s| && IsDigit(s[i]) then SkipDigits(s, i + 1) else i
  }

  /** A run that stops at the first character outside its class has only one possible end. */
  lemma SkipSpacesExact(s: string, i: nat, j: nat)
    requires i <= j <= |s|
    requires SpacesBetween(s, i, j)
    requires j == |s| || !IsSpace(s[j])
    ensures SkipSpaces(s, i) == j
  {
  }

  lemma SkipDigitsExact(s: string, i: nat, j: nat)
    requires i <= j <= |s|
    requires DigitsBetween(s, i, j)
    requires j == |s| || !IsDigit(s[j])
    ensures SkipDigits(s, i) == j
  {
  }

  /** The digit group `(\d+)` of a match, as indices into the text. */
  datatype Span = Span(start: nat, end: nat)

  /**
   The shape of one occurrence of the marker in the text: it starts with `{`
   at `start`, and the whitespace runs around `version`, `=` and the digits
   have the given lengths.
   */
  datatype Marker = Marker(start: nat, lead: nat, beforeEq: nat, afterEq: nat, digits: nat, trail: nat)
  {
    function WordStart(): nat { start + 1 + lead }
    function EqAt(): nat { WordStart() + 7 + beforeEq }
    function DigitsStart(): nat { EqAt() + 1 + afterEq }
    function DigitsEnd(): nat { DigitsStart() + digits }
    function CloseAt(): nat { DigitsEnd() + trail }
  }

  /** `m` is a match of the version pattern in `s`. */
  predicate MarkerIn(s: string, m: Marker)
  {
    && m.CloseAt() < |s|
    && s[m.start] == '{'
    && SpacesBetween(s, m.start + 1, m.WordStart())
    && s[m.WordStart()..m.WordStart() + 7] == "version"
    && SpacesBetween(s, m.WordStart() + 7, m.EqAt())
    && s[m.EqAt()] == '='
    && SpacesBetween(s, m.EqAt() + 1, m.DigitsStart())
    && m.digits > 0
    && DigitsBetween(s, m.DigitsStart(), m.DigitsEnd())
    && SpacesBetween(s, m.DigitsEnd(), m.CloseAt())
    && s[m.CloseAt()] == '}'
    && (m.CloseAt() + 1 == |s| || s[m.CloseAt() + 1] == '\n')
  }

  /** The pattern matched at start position `p`: the digit group, or None. */
  function MatchAt(s: string, p: nat): (r: Option<Span>)
    requires p < |s|
    ensures r.Some? ==> p < r.value.start < r.value.end <= |s|
    ensures r.Some? ==> DigitsBetween(s, r.value.start, r.value.end)
  {
    if s[p] != '{' then None
    else
      var w := SkipSpaces(s, p + 1);
      if !(w + 7 <= |s| && s[w..w + 7] == "version") then None
      else
        var eq := SkipSpaces(s, w + 7);
        if !(eq < |s| && s[eq] == '=') then None
        else
          var d := SkipSpaces(s, eq + 1);
          var e := SkipDigits(s, d);
          if e == d then None
          else
            var c := SkipSpaces(s, e);
            if c < |s| && s[c] == '}' && (c + 1 == |s| || s[c + 1] == '\n') then Some(Span(d, e))
            else None
  }

  /** Every match the matcher reports is a marker; the lemma returns its shape. */
  lemma MatchAtSound(s: string, p: nat) returns (m: Marker)
    requires p < |s| && MatchAt(s, p).Some?
    ensures m.start == p && MarkerIn(s, m)
    ensures MatchAt(s, p) == Some(Span(m.DigitsStart(), m.DigitsEnd()))
  {
    var w := SkipSpaces(s, p + 1);
    var eq := SkipSpaces(s, w + 7);
    var d := SkipSpaces(s, eq + 1);
    var e := SkipDigits(s, d);
    var c := SkipSpaces(s, e);
    assert s[p] == '{' && s[w..w + 7] == "version" && s[eq] == '=' && d < e;
    assert s[c] == '}' && (c + 1 == |s| || s[c + 1] == '\n');
    m := Marker(p, w - (p + 1), eq - (w + 7), d - (eq + 1), e - d, c - e);
    assert m.WordStart() == w && m.EqAt() == eq && m.DigitsStart() == d;
    assert m.DigitsEnd() == e && m.CloseAt() == c;
  }

  /** Every marker is found by the matcher at its start, with its digit group. */
  lemma MatchAtComplete(s: string, m: Marker)
    requires MarkerIn(s, m)
    ensures MatchAt(s, m.start) == Some(Span(m.DigitsStart(), m.DigitsEnd()))
  {
    MarkerRuns(s, m);
    MatchAtSteps(s, m.start, m.WordStart(), m.EqAt(), m.DigitsStart(), m.DigitsEnd(), m.CloseAt());
  }

  /** The greedy runs of the matcher end exactly where the marker's runs end. */
  lemma MarkerRuns(s: string, m: Marker)
    requires MarkerIn(s, m)
    ensures SkipSpaces(s, m.start + 1) == m.WordStart()
    ensures SkipSpaces(s, m.WordStart() + 7) == m.EqAt()
    ensures SkipSpaces(s, m.EqAt() + 1) == m.DigitsStart()
    ensures SkipDigits(s, m.DigitsStart()) == m.DigitsEnd()
    ensures SkipSpaces(s, m.DigitsEnd()) == m.CloseAt()
  {
    assert s[m.WordStart()] == 'v';
    SkipSpacesExact(s, m.start + 1, m.WordStart());
    assert s[m.EqAt()] == '=';
    SkipSpacesExact(s, m.WordStart() + 7, m.EqAt());
    assert IsDigit(s[m.DigitsStart()]);
    SkipSpacesExact(s, m.EqAt() + 1, m.DigitsStart());
    assert !IsDigit(s[m.DigitsEnd()]) by {
      if m.trail > 0 {
        assert IsSpace(s[m.DigitsEnd()]);
      }
    }
    SkipDigitsExact(s, m.DigitsStart(), m.DigitsEnd());
    SkipSpacesExact(s, m.DigitsEnd(), m.CloseAt());
  }

  /** The matcher's result, read off the positions its steps reach. */
  lemma MatchAtSteps(s: string, p: nat, w: nat, eq: nat, d: nat, e: nat, c: nat)
    requires p < |s| && s[p] == '{'
    requires p + 1 <= |s| && w == SkipSpaces(s, p + 1)
    requires w + 7 <= |s| && s[w..w + 7] == "version"
    requires eq == SkipSpaces(s, w + 7) && eq < |s| && s[eq] == '='
    requires d == SkipSpaces(s, eq + 1) && e == SkipDigits(s, d) && e != d
    requires c == SkipSpaces(s, e) && c < |s| && s[c] == '}'
    requires c + 1 == |s| || s[c + 1] == '\n'
    ensures MatchAt(s, p) == Some(Span(d, e))
  {
  }

  /** The leftmost start position at or after `from` where the pattern matches. */
  function FindMarker(s: string, from: nat): (r: Option<nat>)
    requires from <= |s|
    ensures r.None? ==> forall q :: from <= q < |s| ==> MatchAt(s, q).None?
    ensures r.Some? ==> from <= r.value < |s| && MatchAt(s, r.value).Some?
    ensures r.Some? ==> forall q :: from <= q < r.value ==> MatchAt(s, q).None?
    decreases |s| - from
  {
    if from == |s| then None
    else if MatchAt(s, from).Some? then Some(from)
    else FindMarker(s, from + 1)
  }

  /** Python's `int(...)` on a run of ASCII digits: its decimal value (leading zeros allowed). */
  function DecimalValue(d: string): (v: nat)
    requires forall k :: 0 <= k < |d| ==> IsDigit(d[k])
    ensures v < Pow10(|d|)
  {
    if d == [] then 0
    else
      assert IsDigit(d[|d| - 1]);
      var high := DecimalValue(d[..|d| - 1]);
      assert high + 1 <= Pow10(|d| - 1);
      assert 10 * (high + 1) <= 10 * Pow10(|d| - 1);
      10 * high + (d[|d| - 1] as int - '0' as int)
  }

  /** Ten to the power `n`: the first number with `n + 1` decimal digits. */
  function Pow10(n: nat): nat
  {
    if n == 0 then 1 else 10 * Pow10(n - 1)
  }

  /** Python's `str(n)` for a natural number: its decimal digits without leading zeros. */
  function DecimalString(n: nat): (d: string)
    ensures |d| > 0 && forall k :: 0 <= k < |d| ==> IsDigit(d[k])
  {
    var last := (('0' as int) + n % 10) as char;
    if n < 10 then [last] else DecimalString(n / 10) + [last]
  }

  /** Reading back the digits of a number gives the number. */
  lemma {:induction false} DecimalRoundTrip(n: nat)
    ensures DecimalValue(DecimalString(n)) == n
  {
    var d := DecimalString(n);
    if n >= 10 {
      DecimalRoundTrip(n / 10);
      assert d[..|d| - 1] == DecimalString(n / 10);
    }
  }

  /**
   The search of the pattern over the whole text: the digit group of the
   leftmost match, or None when nothing matches.
   */
  function Search(s: string): (r: Option<Span>)
    ensures r.Some? ==> r.value.start < r.value.end <= |s|
    ensures r.Some? ==> DigitsBetween(s, r.value.start, r.value.end)
  {
    match FindMarker(s, 0)
    case None => None
    case Some(p) => MatchAt(s, p)
  }

  /** The search finds nothing exactly when the text holds no marker. */
  lemma SearchAbsent(s: string)
    ensures Search(s).None? <==> forall m :: !MarkerIn(s, m)
  {
    if Search(s).None? {
      forall m | MarkerIn(s, m) ensures false {
        MatchAtComplete(s, m);
      }
    } else {
      var m := MatchAtSound(s, FindMarker(s, 0).value);
    }
  }

  /**
   When the search finds something, it is the digit group of the leftmost
   marker in the text; the lemma returns that marker.
   */
  lemma SearchLeftmost(s: string) returns (m: Marker)
    requires Search(s).Some?
    ensures MarkerIn(s, m)
    ensures Search(s) == Some(Span(m.DigitsStart(), m.DigitsEnd()))
    ensures forall m' :: MarkerIn(s, m') ==> m.start <= m'.start
  {
    var p := FindMarker(s, 0).value;
    m := MatchAtSound(s, p);
    forall m' | MarkerIn(s, m') ensures m.start <= m'.start {
      MatchAtComplete(s, m');
    }
  }

  /** The marker line `{ version = N }` in the form this pattern reads. */
  function VersionMarker(n: nat): string
  {
    "{ version = " + DecimalString(n) + " }"
  }

  /** Where the parts of the marker for `n` sit. */
  lemma VersionMarkerLayout(n: nat)
    ensures var mk, d := VersionMarker(n), DecimalString(n);
            && |mk| == 14 + |d|
            && mk[0] == '{' && mk[1] == ' ' && mk[2..9] == "version" && mk[9] == ' '
            && mk[10] == '=' && mk[11] == ' ' && mk[12..12 + |d|] == d
            && mk[12 + |d|] == ' ' && mk[13 + |d|] == '}'
  {
  }

  /** A slice of a slice is a slice of the whole. */
  lemma SubSlice(s: string, i: nat, j: nat, k: nat, l: nat)
    requires i <= j <= |s| && k <= l <= j - i
    ensures s[i..j][k..l] == s[i + k..i + l]
  {
    assert forall x :: 0 <= x < l - k ==> s[i..j][k..l][x] == s[i + k + x];
  }

  /** The marker with single spaces, read off character by character. */
  lemma MarkerFromParts(s: string, b: nat, d: string)
    requires |d| > 0 && forall k :: 0 <= k < |d| ==> IsDigit(d[k])
    requires b + 14 + |d| <= |s|
    requires s[b] == '{' && s[b + 1] == ' ' && s[b + 2..b + 9] == "version" && s[b + 9] == ' '
    requires s[b + 10] == '=' && s[b + 11] == ' ' && s[b + 12..b + 12 + |d|] == d
    requires s[b + 12 + |d|] == ' ' && s[b + 13 + |d|] == '}'
    requires b + 14 + |d| == |s| || s[b + 14 + |d|] == '\n'
    ensures MarkerIn(s, Marker(b, 1, 1, 1, |d|, 1))
  {
    var m := Marker(b, 1, 1, 1, |d|, 1);
    assert DigitsBetween(s, m.DigitsStart(), m.DigitsEnd()) by {
      forall k | b + 12 <= k < b + 12 + |d| ensures IsDigit(s[k]) {
        assert s[k] == s[b + 12..b + 12 + |d|][k - (b + 12)];
      }
    }
  }

  /** The marker for `n` placed after `body` is a match of the pattern. */
  lemma VersionMarkerIn(body: string, n: nat, tail: string) returns (m: Marker)
    requires tail == [] || tail[0] == '\n'
    ensures m.start == |body| && MarkerIn(body + VersionMarker(n) + tail, m)
    ensures (body + VersionMarker(n) + tail)[m.DigitsStart()..m.DigitsEnd()] == DecimalString(n)
  {
    var d := DecimalString(n);
    var s := body + VersionMarker(n) + tail;
    var b := |body|;
    VersionMarkerChars(body, n, tail);
    VersionMarkerSlices(body, n, tail);
    MarkerFromParts(s, b, d);
    m := Marker(b, 1, 1, 1, |d|, 1);
  }

  /** The single characters of the marker for `n`, read at their places in the text. */
  lemma VersionMarkerChars(body: string, n: nat, tail: string)
    requires tail == [] || tail[0] == '\n'
    ensures var s, b, d := body + VersionMarker(n) + tail, |body|, DecimalString(n);
            && b + 14 + |d| <= |s|
            && s[b] == '{' && s[b + 1] == ' ' && s[b + 9] == ' '
            && s[b + 10] == '=' && s[b + 11] == ' '
            && s[b + 12 + |d|] == ' ' && s[b + 13 + |d|] == '}'
            && (b + 14 + |d| == |s| || s[b + 14 + |d|] == '\n')
  {
    var d := DecimalString(n);
    var mk := VersionMarker(n);
    var s := body + mk + tail;
    var b := |body|;
    VersionMarkerLayout(n);
    assert s[b] == mk[0] && s[b + 1] == mk[1] && s[b + 9] == mk[9];
    assert s[b + 10] == mk[10] && s[b + 11] == mk[11];
    assert s[b + 12 + |d|] == mk[12 + |d|] && s[b + 13 + |d|] == mk[13 + |d|];
    if tail != [] {
      assert s[b + 14 + |d|] == tail[0];
    }
  }

  /** The word `version` and the digits of `n`, read as slices of the text. */
  lemma VersionMarkerSlices(body: string, n: nat, tail: string)
    ensures var s, b, d := body + VersionMarker(n) + tail, |body|, DecimalString(n);
            && b + 14 + |d| <= |s|
            && s[b + 2..b + 9] == "version" && s[b + 12..b + 12 + |d|] == d
  {
    var mk := VersionMarker(n);
    var s := body + mk + tail;
    var b := |body|;
    VersionMarkerLayout(n);
    assert s[b..b + |mk|] == mk;
    SubSlice(s, b, b + |mk|, 2, 9);
    SubSlice(s, b, b + |mk|, 12, 12 + |DecimalString(n)|);
  }

  /** A match with no `{` before it is the leftmost one. */
  lemma FirstBraceMatch(s: string, p: nat)
    requires p < |s| && MatchAt(s, p).Some?
    requires forall q :: 0 <= q < p ==> s[q] != '{'
    ensures FindMarker(s, 0) == Some(p)
  {
  }

  /**
   In text that ends with the marker for `n`, or has it followed by a newline,
   and has no `{` before it, the search finds the digits of `n`.
   */
  lemma SearchMarkedText(body: string, n: nat, tail: string)
    requires '{' !in body
    requires tail == [] || tail[0] == '\n'
    ensures var s := body + VersionMarker(n) + tail;
            Search(s).Some? && s[Search(s).value.start..Search(s).value.end] == DecimalString(n)
  {
    var s := body + VersionMarker(n) + tail;
    var m := VersionMarkerIn(body, n, tail);
    MatchAtComplete(s, m);
    forall q | 0 <= q < |body| ensures s[q] != '{' {
      assert s[q] == body[q];
    }
    FirstBraceMatch(s, |body|);
  }

}
