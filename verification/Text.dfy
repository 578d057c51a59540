/** Character classes and string operations of the C++ standard library that the
    ranking code relies on, restricted to their behaviour in the "C" locale. */
module Text {

  /** `isdigit`, and the regular-expression class `\d`. */
  predicate IsDigit(c: char) {
    '0' <= c <= '9'
  }

  /** `isspace`, and the regular-expression class `\s`: space, tab, line feed,
      vertical tab, form feed and carriage return (codes 9 to 13 and 32). */
  predicate IsSpace(c: char) {
    c == ' ' || '\t' <= c <= '\r'
  }

  predicate IsUpper(c: char) {
    'A' <= c <= 'Z'
  }

  /** `tolower`: maps an ASCII capital to its small letter, leaves every other
      character alone. */
  function ToLower(c: char): (l: char)
    ensures !IsUpper(l)
    ensures IsUpper(c) ==> l as int == c as int + 32
    ensures !IsUpper(c) ==> l == c
  {
    if IsUpper(c) then (c as int + 32) as char else c
  }

  /** `transform(s.begin(), s.end(), s.begin(), ::tolower)`. */
  function Lower(s: string): (r: string)
    ensures |r| == |s|
    ensures forall i :: 0 <= i < |s| ==> r[i] == ToLower(s[i])
  {
    if s == [] then [] else [ToLower(s[0])] + Lower(s[1..])
  }

  /** Lower-casing leaves no ASCII capital behind, and doing it twice is doing it once. */
  lemma {:induction false} LowerIsNormal(s: string)
    ensures forall i :: 0 <= i < |s| ==> !IsUpper(Lower(s)[i])
    ensures Lower(Lower(s)) == Lower(s)
  {
    if s != [] {
      LowerIsNormal(s[1..]);
      assert Lower(s)[1..] == Lower(s[1..]);
    }
  }

  /** `term` occurs in `text` starting at position `i`. */
  ghost predicate OccursAt(text: string, term: string, i: int) {
    0 <= i && i + |term| <= |text| && text[i..i + |term|] == term
  }

  /** `text.find(term) != string::npos`: `term` is a substring of `text`. As with
      `find`, the empty term occurs in every text. */
  function Contains(text: string, term: string): (found: bool)
    ensures found <==> exists i :: OccursAt(text, term, i)
    decreases |text|
  {
    if |term| > |text| then
      false
    else if text[..|term|] == term then
      assert OccursAt(text, term, 0);
      true
    else
      OccursAfterFirst(text, term);
      Contains(text[1..], term)
  }

  /** When `term` is not a prefix of `text`, it occurs in `text` exactly when it
      occurs in `text` without its first character. */
  lemma OccursAfterFirst(text: string, term: string)
    requires |term| <= |text| && text[..|term|] != term
    ensures (exists i :: OccursAt(text, term, i)) <==> (exists i :: OccursAt(text[1..], term, i))
  {
    forall i | OccursAt(text[1..], term, i) ensures OccursAt(text, term, i + 1) {
      assert text[i + 1..i + 1 + |term|] == text[1..][i..i + |term|];
    }
    forall i | OccursAt(text, term, i) ensures OccursAt(text[1..], term, i - 1) {
      assert i != 0;
      assert text[1..][i - 1..i - 1 + |term|] == text[i..i + |term|];
    }
  }

  /** The value of a digit character. */
  function DigitValue(c: char): (d: nat)
    requires IsDigit(c)
    ensures d < 10
  {
    c as int - '0' as int
  }

  /** The digit character of a value below ten. */
  function DigitChar(d: nat): (c: char)
    requires d < 10
    ensures IsDigit(c) && DigitValue(c) == d
  {
    ('0' as int + d) as char
  }

  predicate AllDigits(s: string) {
    forall i :: 0 <= i < |s| ==> IsDigit(s[i])
  }

  /** The value of a run of decimal digits, most significant first (what `stoi`
      computes for a run of digits, leading zeros included). */
  function DecimalValue(ds: string): (v: nat)
    requires AllDigits(ds)
  {
    if ds == [] then 0 else 10 * DecimalValue(ds[..|ds| - 1]) + DigitValue(ds[|ds| - 1])
  }

  /** A run of zeros reads as 0. */
  lemma {:induction false} ZerosValue(zeros: string)
    requires forall i :: 0 <= i < |zeros| ==> zeros[i] == '0'
    ensures AllDigits(zeros) && DecimalValue(zeros) == 0
  {
    if zeros != [] {
      ZerosValue(zeros[..|zeros| - 1]);
    }
  }

  /** Leading zeros do not change the value `stoi` reads. */
  lemma {:induction false} LeadingZerosIgnored(zeros: string, ds: string)
    requires forall i :: 0 <= i < |zeros| ==> zeros[i] == '0'
    requires AllDigits(ds)
    ensures AllDigits(zeros + ds) && DecimalValue(zeros + ds) == DecimalValue(ds)
  {
    ZerosValue(zeros);
    if ds == [] {
      assert zeros + ds == zeros;
    } else {
      var all := zeros + ds;
      assert all[..|all| - 1] == zeros + ds[..|ds| - 1];
      assert all[|all| - 1] == ds[|ds| - 1];
      LeadingZerosIgnored(zeros, ds[..|ds| - 1]);
    }
  }

  /** The shortest decimal rendering of `n` (what `operator<<` writes for a
      non-negative integer). */
  function Decimal(n: nat): (ds: string)
    ensures |ds| > 0 && AllDigits(ds)
    ensures |ds| > 1 ==> ds[0] != '0'
    ensures DecimalValue(ds) == n
  {
    if n < 10 then
      [DigitChar(n)]
    else
      var ds := Decimal(n / 10) + [DigitChar(n % 10)];
      assert ds[..|ds| - 1] == Decimal(n / 10);
      ds
  }
}
