/**
 * String handling used by the pages: the username check of validate_input,
 * and the `lower()` / `strip()` normalisation applied to form inputs.
 */
module Text {

  datatype CharClass = Letters | Digits

  /** `[A-Za-z]` and `\d` (ASCII digits) of the username patterns. */
  predicate InClass(c: char, cls: CharClass) {
    match cls
    case Letters => 'A' <= c <= 'Z' || 'a' <= c <= 'z'
    case Digits => '0' <= c <= '9'
  }

  ghost predicate AllIn(s: string, cls: CharClass) {
    forall k :: 0 <= k < |s| ==> InClass(s[k], cls)
  }

  /** The whole of `s` matches `[A-Za-z]+\d+`. */
  ghost predicate LettersDigits(s: string) {
    exists i :: 0 < i < |s| && AllIn(s[..i], Letters) && AllIn(s[i..], Digits)
  }

  /** The whole of `s` matches `[A-Za-z]+\d+[A-Za-z]+`. */
  ghost predicate LettersDigitsLetters(s: string) {
    exists i, j :: 0 < i < j < |s| && AllIn(s[..i], Letters) && AllIn(s[i..j], Digits) && AllIn(s[j..], Letters)
  }

  /**
   * What `re.match('^' + p + '$', s)` accepts for a pattern whose language is
   * `lang`: a `$` without MULTILINE also matches just before a final "\n".
   */
  ghost predicate AnchoredLettersDigits(s: string) {
    LettersDigits(s) || (|s| > 0 && s[|s| - 1] == '\n' && LettersDigits(s[..|s| - 1]))
  }

  ghost predicate AnchoredLettersDigitsLetters(s: string) {
    LettersDigitsLetters(s) || (|s| > 0 && s[|s| - 1] == '\n' && LettersDigitsLetters(s[..|s| - 1]))
  }

  /** The end of the run of `cls` characters in `s` that starts at `k`. */
  function Skip(s: string, k: nat, cls: CharClass): (e: nat)
    requires k <= |s|
    ensures k <= e <= |s|
    ensures forall m :: k <= m < e ==> InClass(s[m], cls)
    ensures e < |s| ==> !InClass(s[e], cls)
    decreases |s| - k
  {
    if k < |s| && InClass(s[k], cls) then Skip(s, k + 1, cls) else k
  }

  /** One greedy left-to-right scan: letters, then digits, then letters to the end. */
  function ScanUsername(s: string): bool {
    var i := Skip(s, 0, Letters);
    var j := Skip(s, i, Digits);
    0 < i < j && Skip(s, j, Letters) == |s|
  }

  lemma ScanUsernameIff(s: string)
    ensures ScanUsername(s) <==> LettersDigits(s) || LettersDigitsLetters(s)
  {
    ScanSound(s);
    if LettersDigits(s) { ScanFindsLettersDigits(s); }
    if LettersDigitsLetters(s) { ScanFindsLettersDigitsLetters(s); }
  }

  lemma ScanSound(s: string)
    ensures ScanUsername(s) ==> LettersDigits(s) || LettersDigitsLetters(s)
  {
    var i := Skip(s, 0, Letters);
    var j := Skip(s, i, Digits);
    if ScanUsername(s) {
      if j == |s| {
        assert AllIn(s[..i], Letters) && AllIn(s[i..], Digits);
      } else {
        assert AllIn(s[..i], Letters) && AllIn(s[i..j], Digits) && AllIn(s[j..], Letters);
      }
    }
  }

  lemma ScanFindsLettersDigits(s: string)
    requires LettersDigits(s)
    ensures ScanUsername(s)
  {
    var i' :| 0 < i' < |s| && AllIn(s[..i'], Letters) && AllIn(s[i'..], Digits);
    assert forall m :: 0 <= m < i' ==> s[m] == s[..i'][m];
    assert s[i'..][0] == s[i'];
    ScanRun(s, 0, i', Letters);
    assert forall m :: i' <= m < |s| ==> s[m] == s[i'..][m - i'];
    ScanRun(s, i', |s|, Digits);
    ScanRun(s, |s|, |s|, Letters);
  }

  lemma ScanFindsLettersDigitsLetters(s: string)
    requires LettersDigitsLetters(s)
    ensures ScanUsername(s)
  {
    var i', j' :| 0 < i' < j' < |s| && AllIn(s[..i'], Letters) && AllIn(s[i'..j'], Digits) && AllIn(s[j'..], Letters);
    assert forall m :: 0 <= m < i' ==> s[m] == s[..i'][m];
    assert s[i'..j'][0] == s[i'];
    ScanRun(s, 0, i', Letters);
    assert forall m :: i' <= m < j' ==> s[m] == s[i'..j'][m - i'];
    assert s[j'..][0] == s[j'];
    ScanRun(s, i', j', Digits);
    assert forall m :: j' <= m < |s| ==> s[m] == s[j'..][m - j'];
    ScanRun(s, j', |s|, Letters);
  }

  /** A run of `cls` from `k` up to `e`, followed by a character outside `cls`, is what Skip finds. */
  lemma {:induction false} ScanRun(s: string, k: nat, e: nat, cls: CharClass)
    requires k <= e <= |s|
    requires forall m :: k <= m < e ==> InClass(s[m], cls)
    requires e < |s| ==> !InClass(s[e], cls)
    ensures Skip(s, k, cls) == e
    decreases e - k
  {
    if k < e {
      ScanRun(s, k + 1, e, cls);
    }
  }

  /**
   * validate_input: `re.match(r'^[A-Za-z]+\d+$', s) or
   * re.match(r'^[A-Za-z]+\d+[A-Za-z]+$', s)`.
   */
  function ValidateInput(s: string): (ok: bool)
    ensures ok <==> AnchoredLettersDigits(s) || AnchoredLettersDigitsLetters(s)
  {
    ScanUsernameIff(s);
    if |s| > 0 && s[|s| - 1] == '\n' then ScanUsernameIff(s[..|s| - 1]); ScanUsername(s) || ScanUsername(s[..|s| - 1])
    else ScanUsername(s)
  }

  /** The examples the username rule is documented with. */
  lemma UsernameExamples()
    ensures ValidateInput("abc123") && ValidateInput("abc123d")
    ensures !ValidateInput("123abc") && !ValidateInput("abc") && !ValidateInput("")
  {
    ScanRun("abc123", 0, 3, Letters);
    ScanRun("abc123", 3, 6, Digits);
    ScanRun("abc123", 6, 6, Letters);
    ScanRun("abc123d", 0, 3, Letters);
    ScanRun("abc123d", 3, 6, Digits);
    ScanRun("abc123d", 6, 7, Letters);
    ScanRun("123abc", 0, 0, Letters);
    ScanRun("abc", 0, 3, Letters);
    ScanRun("abc", 3, 3, Digits);
  }

  /** A username is never blank: both patterns need a letter and a digit. */
  lemma ValidUsernameHasLetterAndDigit(s: string)
    requires ValidateInput(s)
    ensures |s| >= 2 && InClass(s[0], Letters)
    ensures exists k :: 0 < k < |s| && InClass(s[k], Digits)
  {
    if LettersDigits(s) || LettersDigitsLetters(s) {
      ScanUsernameIff(s);
      var i := Skip(s, 0, Letters);
      assert InClass(s[i], Digits);
    } else {
      var t := s[..|s| - 1];
      ScanUsernameIff(t);
      var i := Skip(t, 0, Letters);
      assert InClass(t[i], Digits) && s[i] == t[i];
    }
  }

  // ---------------------------------------------------------------------
  // lower() and strip()

  /** ASCII lower-casing, the part of `str.lower()` that the model keeps. */
  function LowerChar(c: char): char {
    if 'A' <= c <= 'Z' then (c as int - 'A' as int + 'a' as int) as char else c
  }

  function Lower(s: string): (r: string)
    ensures |r| == |s|
    ensures forall k :: 0 <= k < |s| ==> r[k] == LowerChar(s[k])
  {
    if s == [] then [] else [LowerChar(s[0])] + Lower(s[1..])
  }

  /** The characters for which Python's `str.isspace()` holds. */
  predicate IsSpace(c: char) {
    c == ' ' || '\t' <= c <= '\r' || '\U{1c}' <= c <= '\U{1f}' || c == '\U{85}' || c == '\U{a0}'
    || c == '\U{1680}' || '\U{2000}' <= c <= '\U{200a}' || c == '\U{2028}' || c == '\U{2029}'
    || c == '\U{202f}' || c == '\U{205f}' || c == '\U{3000}'
  }

  ghost predicate AllSpace(s: string) {
    forall k :: 0 <= k < |s| ==> IsSpace(s[k])
  }

  /** The number of whitespace characters that `s` starts with. */
  function LeadingSpaces(s: string, k: nat := 0): (a: nat)
    requires k <= |s| && AllSpace(s[..k])
    ensures k <= a <= |s| && AllSpace(s[..a])
    ensures a < |s| ==> !IsSpace(s[a])
    decreases |s| - k
  {
    if k < |s| && IsSpace(s[k]) then
      assert s[..k + 1] == s[..k] + [s[k]];
      LeadingSpaces(s, k + 1)
    else k
  }

  /** Where the run of whitespace that `s` ends with begins. */
  function TrailingSpaces(s: string, b: nat): (e: nat)
    requires b <= |s| && AllSpace(s[b..])
    ensures e <= b && AllSpace(s[e..])
    ensures e > 0 ==> !IsSpace(s[e - 1])
  {
    if b > 0 && IsSpace(s[b - 1]) then
      assert s[b - 1..] == [s[b - 1]] + s[b..];
      TrailingSpaces(s, b - 1)
    else b
  }

  /** `str.strip()`: drop leading and trailing whitespace. */
  function Strip(s: string): (r: string)
    ensures exists a, b :: 0 <= a <= b <= |s| && r == s[a..b] && AllSpace(s[..a]) && AllSpace(s[b..])
    ensures r == [] || (!IsSpace(r[0]) && !IsSpace(r[|r| - 1]))
  {
    var a := LeadingSpaces(s);
    var t := s[a..];
    assert t[|t|..] == [];
    var b := TrailingSpaces(t, |t|);
    StripSlice(s, a, b);
    t[..b]
  }

  /** The slice between the leading and the trailing whitespace runs is what Strip promises. */
  lemma StripSlice(s: string, a: nat, b: nat)
    requires a <= |s| && AllSpace(s[..a]) && (a < |s| ==> !IsSpace(s[a]))
    requires b <= |s[a..]| && AllSpace(s[a..][b..]) && (b > 0 ==> !IsSpace(s[a..][b - 1]))
    ensures exists i, j :: 0 <= i <= j <= |s| && s[a..][..b] == s[i..j] && AllSpace(s[..i]) && AllSpace(s[j..])
    ensures s[a..][..b] == [] || (!IsSpace(s[a..][..b][0]) && !IsSpace(s[a..][..b][b - 1]))
  {
    var t := s[a..];
    assert t[..b] == s[a..a + b];
    assert s[a + b..] == t[b..];
    assert b > 0 ==> t[..b][0] == s[a] && t[..b][b - 1] == t[b - 1];
  }

  /** `s.strip() != ""` exactly when `s` holds a non-whitespace character. */
  lemma StripEmptyIff(s: string)
    ensures Strip(s) == [] <==> AllSpace(s)
  {
    var r := Strip(s);
    var a, b :| 0 <= a <= b <= |s| && r == s[a..b] && AllSpace(s[..a]) && AllSpace(s[b..]);
    if r == [] {
      forall k | 0 <= k < |s| ensures IsSpace(s[k]) {
        if k < a { assert s[k] == s[..a][k]; } else { assert s[k] == s[b..][k - b]; }
      }
    } else {
      assert !IsSpace(s[a]);
    }
  }

  /** The normalisation applied to the username boxes of the event forms. */
  function Normalise(s: string): (r: string)
    ensures |r| <= |s|
    ensures forall k :: 0 <= k < |r| ==> !('A' <= r[k] <= 'Z')
    ensures r == [] || (!IsSpace(r[0]) && !IsSpace(r[|r| - 1]))
  {
    LowerHasNoCapitals(s);
    StripKeepsNoCapitals(Lower(s));
    Strip(Lower(s))
  }

  /** Stripping takes a slice, so it brings in no ASCII capital. */
  lemma StripKeepsNoCapitals(l: string)
    requires forall k :: 0 <= k < |l| ==> !('A' <= l[k] <= 'Z')
    ensures |Strip(l)| <= |l|
    ensures forall k :: 0 <= k < |Strip(l)| ==> !('A' <= Strip(l)[k] <= 'Z')
  {
    var r := Strip(l);
    var a, b :| 0 <= a <= b <= |l| && r == l[a..b] && AllSpace(l[..a]) && AllSpace(l[b..]);
    assert forall k :: 0 <= k < |r| ==> r[k] == l[a + k];
  }

  /** Stripping a string that neither starts nor ends with whitespace changes nothing. */
  lemma StripStable(s: string)
    requires s == [] || (!IsSpace(s[0]) && !IsSpace(s[|s| - 1]))
    ensures Strip(s) == s
  {
    assert LeadingSpaces(s) == 0;
    assert s[0..] == s && s[..|s|] == s;
  }

  /** Lower-casing a string without ASCII capitals changes nothing. */
  lemma LowerStable(s: string)
    requires forall k :: 0 <= k < |s| ==> !('A' <= s[k] <= 'Z')
    ensures Lower(s) == s
  {
  }

  lemma LowerHasNoCapitals(s: string)
    ensures forall k :: 0 <= k < |Lower(s)| ==> !('A' <= Lower(s)[k] <= 'Z')
  {
  }

  lemma NormaliseIdempotent(s: string)
    ensures Normalise(Normalise(s)) == Normalise(s)
  {
    var n := Normalise(s);
    LowerStable(n);
    StripStable(n);
  }
}
