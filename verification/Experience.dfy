/** `extractExperience`: the largest number of years stated in a text by a phrase
    matching the regular expression `(\d+)\s*\+?\s*years?`, or 0 when there is none.

    The regular-expression engine is replaced by an explicit scanner, and
    `SearchIsLeftmostLongest` proves it agrees with the pattern stated directly
    (`PatternSpan`). `regex_search` returns the leftmost match, and a match can
    only start where a run of digits starts: when one starts inside a run, so
    does one at the run's first digit. Once started, the greedy `\d+` takes the
    whole run, since what follows the digits must be whitespace, `+` or `y`,
    never a digit. What follows is then fixed: skip whitespace, at most one `+`,
    whitespace again, the word `year`, and an `s` if there is one (the greedy
    `s?` takes it).

    The loop searches `temp = match.suffix()`. A suffix is modelled as the
    position `from` where it begins in the original text: a search of the suffix
    sees the text from `from` on, and the start of the suffix counts as the start
    of a text. */
module Experience {
  import opened Maybe
  import opened Text

  /** The end of the run of digits that begins at `i`. */
  function DigitsEnd(t: string, i: nat): (j: nat)
    requires i <= |t|
    ensures i <= j <= |t|
    ensures forall k :: i <= k < j ==> IsDigit(t[k])
    ensures j == |t| || !IsDigit(t[j])
    decreases |t| - i
  {
    if i == |t| || !IsDigit(t[i]) then i else DigitsEnd(t, i + 1)
  }

  /** The end of the run of whitespace that begins at `i` (`\s*`). */
  function SpacesEnd(t: string, i: nat): (j: nat)
    requires i <= |t|
    ensures i <= j <= |t|
    ensures forall k :: i <= k < j ==> IsSpace(t[k])
    ensures j == |t| || !IsSpace(t[j])
    decreases |t| - i
  {
    if i == |t| || !IsSpace(t[i]) then i else SpacesEnd(t, i + 1)
  }

  /** Where the part `\s*\+?\s*years?` of the pattern ends when it matches at
      position `i`, if it does. */
  function UnitEnd(t: string, i: nat): (e: Option<nat>)
    requires i <= |t|
    ensures e.Some? ==> i + 4 <= e.value <= |t|
    ensures e.Some? ==> forall k :: i <= k < e.value ==> !IsDigit(t[k])
    ensures e.Some? ==> t[e.value - 1] == 'r' || t[e.value - 1] == 's'
  {
    var a := SpacesEnd(t, i);
    var b := if a < |t| && t[a] == '+' then a + 1 else a;
    var c := SpacesEnd(t, b);
    if c + 4 <= |t| && t[c] == 'y' && t[c + 1] == 'e' && t[c + 2] == 'a' && t[c + 3] == 'r' then
      Some(if c + 4 < |t| && t[c + 4] == 's' then c + 5 else c + 4)
    else
      None
  }

  /** A match of the pattern: it covers `start` up to `end` (exclusive) and its
      digit group reads `years`. */
  datatype Match = Match(start: nat, end: nat, years: nat)

  /** Position `i` starts a run of digits of the text that begins at `from`. */
  predicate RunStart(t: string, from: nat, i: nat)
    requires from <= i < |t|
  {
    IsDigit(t[i]) && (i == from || !IsDigit(t[i - 1]))
  }

  /** The match of the pattern at position `i` of the text that begins at
      `from`, if any. */
  function MatchAt(t: string, from: nat, i: nat): (m: Option<Match>)
    ensures m.Some? ==> from <= i < |t| && RunStart(t, from, i)
    ensures m.Some? ==> m.value.start == i && i < m.value.end <= |t|
  {
    if from <= i < |t| && RunStart(t, from, i) then
      var d := DigitsEnd(t, i);
      match UnitEnd(t, d)
      case None => None
      case Some(e) => Some(Match(i, e, DecimalValue(t[i..d])))
    else
      None
  }

  /** The leftmost match at or after position `i` of the text that begins at `from`. */
  function SearchFrom(t: string, from: nat, i: nat): (m: Option<Match>)
    ensures m.Some? ==> i <= m.value.start && MatchAt(t, from, m.value.start) == m
    ensures m.Some? ==> forall j: nat :: i <= j < m.value.start ==> MatchAt(t, from, j).None?
    ensures m.None? ==> forall j: nat :: i <= j ==> MatchAt(t, from, j).None?
    decreases |t| - i
  {
    if i >= |t| then None
    else if MatchAt(t, from, i).Some? then MatchAt(t, from, i)
    else SearchFrom(t, from, i + 1)
  }

  /** `regex_search(temp, match, expPattern)` on the suffix `temp` that begins at `from`. */
  function Search(t: string, from: nat): (m: Option<Match>)
    ensures m.Some? ==> from <= m.value.start && MatchAt(t, from, m.value.start) == m
  {
    SearchFrom(t, from, from)
  }

  /** The regular expression itself: `t[i..e]` splits at `d`, `a`, `b` and `c`
      into `\d+`, `\s*`, `\+?`, `\s*` and `years?`, and the first group is `t[i..d]`. */
  ghost predicate PatternSpan(t: string, i: nat, d: nat, a: nat, b: nat, c: nat, e: nat) {
    && i < d <= a <= b <= c && c + 4 <= e <= |t|
    && (forall k :: i <= k < d ==> IsDigit(t[k]))
    && (forall k :: d <= k < a ==> IsSpace(t[k]))
    && (b == a || (b == a + 1 && t[a] == '+'))
    && (forall k :: b <= k < c ==> IsSpace(t[k]))
    && t[c] == 'y' && t[c + 1] == 'e' && t[c + 2] == 'a' && t[c + 3] == 'r'
    && (e == c + 4 || (e == c + 5 && t[c + 4] == 's'))
  }

  /** The pattern matches `t[i..e]`. */
  ghost predicate Matches(t: string, i: nat, e: nat) {
    exists d: nat, a: nat, b: nat, c: nat :: PatternSpan(t, i, d, a, b, c, e)
  }

  /** Every way of matching the pattern from `i` splits the digits off at the end
      of their run, and ends no later than the scanner does. */
  lemma SpanIsForced(t: string, i: nat, d: nat, a: nat, b: nat, c: nat, e: nat)
    requires PatternSpan(t, i, d, a, b, c, e)
    ensures d == DigitsEnd(t, i)
    ensures UnitEnd(t, d).Some? && e <= UnitEnd(t, d).value
  {
    assert !IsDigit(t[d]) by {
      if d < a {
        assert IsSpace(t[d]);
      } else if a < b {
        assert t[d] == '+';
      } else if b < c {
        assert IsSpace(t[d]);
      } else {
        assert t[d] == 'y';
      }
    }
    DigitsEndIs(t, i, d);
    UnitIsForced(t, i, d, a, b, c, e);
  }

  /** The part `\s*\+?\s*years?` of a match ends no later than the scanner's. */
  lemma UnitIsForced(t: string, i: nat, d: nat, a: nat, b: nat, c: nat, e: nat)
    requires PatternSpan(t, i, d, a, b, c, e)
    ensures UnitEnd(t, d).Some? && e <= UnitEnd(t, d).value
  {
    if b == a + 1 {
      SpacesEndIs(t, d, a);
      SpacesEndIs(t, b, c);
    } else {
      SpacesEndIs(t, d, c);
      SpacesEndIs(t, c, c);
    }
  }

  /** What the scanner matches is a match of the pattern. */
  lemma MatchAtIsPattern(t: string, from: nat, i: nat)
    requires MatchAt(t, from, i).Some?
    ensures Matches(t, i, MatchAt(t, from, i).value.end)
  {
    var d := DigitsEnd(t, i);
    var a := SpacesEnd(t, d);
    var b := if a < |t| && t[a] == '+' then a + 1 else a;
    var c := SpacesEnd(t, b);
    assert PatternSpan(t, i, d, a, b, c, MatchAt(t, from, i).value.end);
  }

  /** A match of the pattern at `j` extends back to the start of its digit run,
      where the scanner finds a match. */
  lemma {:induction false} RunStartMatches(t: string, from: nat, j: nat, e: nat) returns (r: nat)
    requires from <= j && Matches(t, j, e)
    ensures from <= r <= j && MatchAt(t, from, r).Some?
    decreases j
  {
    var d: nat, a: nat, b: nat, c: nat :| PatternSpan(t, j, d, a, b, c, e);
    if RunStart(t, from, j) {
      SpanIsForced(t, j, d, a, b, c, e);
      r := j;
    } else {
      assert PatternSpan(t, j - 1, d, a, b, c, e);
      r := RunStartMatches(t, from, j - 1, e);
    }
  }

  /** The search finds nothing only when the pattern matches nowhere, and
      otherwise nothing to the left of what it finds. */
  lemma SearchIsLeftmost(t: string, from: nat, j: nat, e: nat)
    requires from <= j && Matches(t, j, e)
    ensures Search(t, from).Some? && Search(t, from).value.start <= j
  {
    var r := RunStartMatches(t, from, j, e);
  }

  /** At the start the scanner picks, the pattern matches no further than it
      does, and every way of matching there captures the same number. */
  lemma MatchIsLongest(t: string, from: nat, i: nat)
    requires MatchAt(t, from, i).Some?
    ensures forall e: nat :: Matches(t, i, e) ==> e <= MatchAt(t, from, i).value.end
    ensures forall d: nat, a: nat, b: nat, c: nat ::
      PatternSpan(t, i, d, a, b, c, MatchAt(t, from, i).value.end) ==>
        MatchAt(t, from, i).value.years == DecimalValue(t[i..d])
  {
    var m := MatchAt(t, from, i).value;
    forall e: nat | Matches(t, i, e) ensures e <= m.end {
      var d: nat, a: nat, b: nat, c: nat :| PatternSpan(t, i, d, a, b, c, e);
      SpanIsForced(t, i, d, a, b, c, e);
    }
    forall d: nat, a: nat, b: nat, c: nat | PatternSpan(t, i, d, a, b, c, m.end)
      ensures m.years == DecimalValue(t[i..d])
    {
      SpanIsForced(t, i, d, a, b, c, m.end);
    }
  }

  /** `regex_search` semantics: the search finds a match exactly when the pattern
      matches somewhere, and then the leftmost one, as long as it can be at that
      start, with the first group read as a decimal number. */
  lemma SearchIsLeftmostLongest(t: string, from: nat)
    ensures Search(t, from).None? <==> forall j: nat, e: nat :: from <= j ==> !Matches(t, j, e)
    ensures Search(t, from).Some? ==>
      var m := Search(t, from).value;
      && from <= m.start
      && Matches(t, m.start, m.end)
      && (forall j: nat, e: nat :: from <= j < m.start ==> !Matches(t, j, e))
      && (forall e: nat :: Matches(t, m.start, e) ==> e <= m.end)
      && (forall d: nat, a: nat, b: nat, c: nat ::
            PatternSpan(t, m.start, d, a, b, c, m.end) ==> m.years == DecimalValue(t[m.start..d]))
  {
    forall j: nat, e: nat | from <= j && Matches(t, j, e)
      ensures Search(t, from).Some? && Search(t, from).value.start <= j
    {
      SearchIsLeftmost(t, from, j, e);
    }
    if Search(t, from).Some? {
      var m := Search(t, from).value;
      MatchAtIsPattern(t, from, m.start);
      MatchIsLongest(t, from, m.start);
    }
  }

  /** No match starts strictly inside another: the inside of a match is the rest
      of a digit run, whitespace, `+` and letters. */
  lemma NoMatchInside(t: string, from: nat, m: Match, k: nat)
    requires MatchAt(t, from, m.start) == Some(m)
    requires m.start < k < m.end
    ensures MatchAt(t, from, k).None?
  {
  }

  /** A match ends after the `r` of `year` or the `s` of `years`, never after a
      digit, so the suffix after it starts a text exactly where the whole text
      would: moving the start of the text up to `e` changes no match from `e` on. */
  lemma RebaseMatch(t: string, from: nat, e: nat, i: nat)
    requires from <= e <= i
    requires e == from || (e <= |t| && !IsDigit(t[e - 1]))
    ensures MatchAt(t, e, i) == MatchAt(t, from, i)
  {
  }

  function Max(a: nat, b: nat): nat {
    if a < b then b else a
  }

  /** The match at `i` of the text that begins at `from` reads `years`. */
  ghost predicate MatchOf(t: string, from: nat, i: nat, years: nat) {
    MatchAt(t, from, i).Some? && MatchAt(t, from, i).value.years == years
  }

  /** The loop of `extractExperience`: `temp` is the suffix that begins at
      `from` and `maxYears` the largest value seen so far. The result is at least
      `maxYears` and every value matched in `temp`, and it is `maxYears` or one
      of those values. Each turn continues on the strictly shorter suffix after
      the match. */
  function Scan(t: string, from: nat, maxYears: nat): (best: nat)
    ensures best >= maxYears
    ensures forall i: nat :: MatchAt(t, from, i).Some? ==> MatchAt(t, from, i).value.years <= best
    ensures best == maxYears || exists i: nat :: i < |t| && MatchOf(t, from, i, best)
    decreases |t| - from
  {
    match Search(t, from)
    case None => maxYears
    case Some(m) =>
      var best := Scan(t, m.end, Max(maxYears, m.years));
      ScanStep(t, from, maxYears, m, best);
      best
  }

  /** One turn of the loop of `extractExperience`: what holds of the suffix
      after the leftmost match, together with that match, holds of the whole. */
  lemma ScanStep(t: string, from: nat, maxYears: nat, m: Match, best: nat)
    requires Search(t, from) == Some(m)
    requires best >= Max(maxYears, m.years)
    requires forall i: nat :: MatchAt(t, m.end, i).Some? ==> MatchAt(t, m.end, i).value.years <= best
    requires best == Max(maxYears, m.years) || exists i: nat :: i < |t| && MatchOf(t, m.end, i, best)
    ensures forall i: nat :: MatchAt(t, from, i).Some? ==> MatchAt(t, from, i).value.years <= best
    ensures best == maxYears || exists i: nat :: i < |t| && MatchOf(t, from, i, best)
  {
    forall i: nat | MatchAt(t, from, i).Some? ensures MatchAt(t, from, i).value.years <= best {
      if i < m.start {
        assert false;
      } else if i == m.start {
      } else if i < m.end {
        NoMatchInside(t, from, m, i);
      } else {
        RebaseMatch(t, from, m.end, i);
      }
    }
    if best != Max(maxYears, m.years) {
      var j: nat :| j < |t| && MatchOf(t, m.end, j, best);
      RebaseMatch(t, from, m.end, j);
      assert MatchOf(t, from, j, best);
    } else if best != maxYears {
      assert MatchOf(t, from, m.start, best);
    }
  }

  /** `extractExperience(text)`: 0 when no phrase matches, otherwise the largest
      number of years any phrase states. */
  function ExtractExperience(text: string): (years: nat)
    ensures forall i: nat :: MatchAt(text, 0, i).Some? ==> MatchAt(text, 0, i).value.years <= years
    ensures years == 0 || exists i: nat :: i < |text| && MatchOf(text, 0, i, years)
  {
    Scan(text, 0, 0)
  }

  /** Every phrase the pattern matches at the start of a digit run states no more
      years than `extractExperience` returns. */
  lemma PhrasesBoundExperience(text: string, j: nat, d: nat, a: nat, b: nat, c: nat, e: nat)
    requires PatternSpan(text, j, d, a, b, c, e)
    requires j == 0 || !IsDigit(text[j - 1])
    ensures DecimalValue(text[j..d]) <= ExtractExperience(text)
  {
    SpanIsForced(text, j, d, a, b, c, e);
    assert MatchAt(text, 0, j).Some?;
  }

  /** Unless it is 0, what `extractExperience` returns is the number some phrase
      matched by the pattern states. */
  lemma ExperienceIsStated(text: string)
    ensures ExtractExperience(text) == 0 ||
      exists j: nat, d: nat, a: nat, b: nat, c: nat, e: nat ::
        PatternSpan(text, j, d, a, b, c, e) && DecimalValue(text[j..d]) == ExtractExperience(text)
  {
    var years := ExtractExperience(text);
    if years != 0 {
      var j: nat :| j < |text| && MatchOf(text, 0, j, years);
      var m := MatchAt(text, 0, j).value;
      MatchAtIsPattern(text, 0, j);
      var d: nat, a: nat, b: nat, c: nat :| PatternSpan(text, j, d, a, b, c, m.end);
      MatchIsLongest(text, 0, j);
    }
  }

  lemma {:induction false} DigitsEndIs(t: string, i: nat, j: nat)
    requires i <= j <= |t|
    requires forall k :: i <= k < j ==> IsDigit(t[k])
    requires j == |t| || !IsDigit(t[j])
    ensures DigitsEnd(t, i) == j
    decreases j - i
  {
    if i < j {
      DigitsEndIs(t, i + 1, j);
    }
  }

  lemma {:induction false} SpacesEndIs(t: string, i: nat, j: nat)
    requires i <= j <= |t|
    requires forall k :: i <= k < j ==> IsSpace(t[k])
    requires j == |t| || !IsSpace(t[j])
    ensures SpacesEnd(t, i) == j
    decreases j - i
  {
    if i < j {
      SpacesEndIs(t, i + 1, j);
    }
  }

  /** A phrase stating `n` years: the number, some whitespace, and `year` or
      `years`. */
  function YearsPhrase(n: nat, gap: string, plural: bool): string {
    Decimal(n) + gap + (if plural then "years" else "year")
  }

  lemma PhraseMatchesAtStart(n: nat, gap: string, plural: bool)
    requires forall k :: 0 <= k < |gap| ==> IsSpace(gap[k])
    ensures MatchAt(YearsPhrase(n, gap, plural), 0, 0) == Some(Match(0, |YearsPhrase(n, gap, plural)|, n))
  {
    var ds := Decimal(n);
    var unit := if plural then "years" else "year";
    var t := YearsPhrase(n, gap, plural);
    var d, c := |ds|, |ds| + |gap|;
    assert forall k :: 0 <= k < d ==> t[k] == ds[k];
    assert forall k :: d <= k < c ==> t[k] == gap[k - d];
    assert forall k :: c <= k < |t| ==> t[k] == unit[k - c];
    assert PatternSpan(t, 0, d, c, c, c, |t|);
    SpanIsForced(t, 0, d, c, c, c, |t|);
    assert t[0..d] == ds;
  }

  lemma PhraseMatchesNowhereElse(n: nat, gap: string, plural: bool, i: nat)
    requires forall k :: 0 <= k < |gap| ==> IsSpace(gap[k])
    requires 0 < i
    ensures MatchAt(YearsPhrase(n, gap, plural), 0, i).None?
  {
    var ds := Decimal(n);
    var unit := if plural then "years" else "year";
    var t := YearsPhrase(n, gap, plural);
    var d, c := |ds|, |ds| + |gap|;
    if i < d {
      assert t[i - 1] == ds[i - 1];
    } else if i < c {
      assert t[i] == gap[i - d];
    } else if i < |t| {
      assert t[i] == unit[i - c];
    }
  }

  /** Writing a number of years out as a phrase and extracting it gives the
      number back. */
  lemma StatedYears(n: nat, gap: string, plural: bool)
    requires forall k :: 0 <= k < |gap| ==> IsSpace(gap[k])
    ensures ExtractExperience(YearsPhrase(n, gap, plural)) == n
  {
    var t := YearsPhrase(n, gap, plural);
    PhraseMatchesAtStart(n, gap, plural);
    assert MatchOf(t, 0, 0, n);
    var years := ExtractExperience(t);
    if years != 0 {
      var i: nat :| i < |t| && MatchOf(t, 0, i, years);
      if i > 0 {
        PhraseMatchesNowhereElse(n, gap, plural, i);
      }
    }
  }
}
