/**
 * Page and subpage strings, and the separator pattern
 * `^\s*([1-8]\d{2})\s*[-/]\s*(\d{1,2})\s*$` that both page-key parsers
 * (the repository's and the app's) try first.
 */
module PageSyntax {
  import opened Wrappers
  import opened Text

  /** A page number as the pattern `[1-8]\d{2}` reads it: three characters, 100..899. */
  predicate IsPageString(p: string) {
    |p| == 3 && '1' <= p[0] <= '8' && IsDigit(p[1]) && IsDigit(p[2])
  }

  /** A subpage as the app keeps it: two digits, zero-padded, 01..99. */
  predicate IsSubString(s: string) {
    |s| == 2 && AllDigits(s) && NatOf(s) >= 1
  }

  /** `[1-8]\d{2}` on three digits is the same as "the value lies in 100..899". */
  lemma PageStringValue(p: string)
    requires |p| == 3 && AllDigits(p)
    ensures IsPageString(p) <==> 100 <= NatOf(p) <= 899
  {
    NatOfThree(p);
  }

  lemma PageStringToInt(p: string)
    requires IsPageString(p)
    ensures AllDigits(p) && 100 <= NatOf(p) <= 899 && ToIntOrNull(p) == Some(NatOf(p))
  {
    PageStringValue(p);
    ToIntOfDigits(p);
  }

  /** `toString().padStart(2, '0')` */
  function Pad2(n: int): string {
    PadStart(IntToString(n), 2, '0')
  }

  /** `toString().padStart(3, '0')` */
  function Pad3(n: int): string {
    PadStart(IntToString(n), 3, '0')
  }

  /** Padding 1..99 gives a subpage string, and every subpage string is one. */
  lemma {:induction false} Pad2IsSubString(n: int)
    requires 1 <= n <= 99
    ensures IsSubString(Pad2(n)) && NatOf(Pad2(n)) == n
  {
    NatToStringLength(n);
    NatToStringRoundTrip(n);
    NatOfPadZeros(NatToString(n), 2);
  }

  lemma {:induction false} SubStringIsPad2(s: string)
    requires IsSubString(s)
    ensures Pad2(NatOf(s)) == s
  {
    NatOfTwo(s);
    if s[0] == '0' {
      var t := s[1..];
      assert NatOf(t) == NatOf(s) by { NatOfTwo(s); assert t[..0] == []; }
      NatToStringOfDigits(t);
      assert ['0'] + t == s;
    } else {
      NatToStringOfDigits(s);
    }
  }

  /** Padding 100..899 gives a page string of that value. */
  lemma {:induction false} Pad3IsPageString(n: int)
    requires 100 <= n <= 899
    ensures IsPageString(Pad3(n)) && NatOf(Pad3(n)) == n
  {
    NatToStringLength(n);
    NatToStringRoundTrip(n);
    PageStringValue(NatToString(n));
  }

  lemma {:induction false} PageStringIsPad3(p: string)
    requires IsPageString(p)
    ensures Pad3(NatOf(p)) == p
  {
    PageStringToInt(p);
    NatToStringOfDigits(p);
  }

  /** The regex class `\s` of java.util.regex. */
  predicate IsRegexSpace(c: char) {
    c == ' ' || c == '\t' || c == '\n' || c == '\U{000B}' || c == '\U{000C}' || c == '\r'
  }

  /** Line terminators outside `\s` before which Java's `$` also matches at the end of input. */
  predicate IsOtherLineTerminator(c: char) {
    c == '\U{0085}' || c == '\U{2028}' || c == '\U{2029}'
  }

  /** Greedy `\s*` starting at `i`. */
  function SkipSpace(s: string, i: nat): (j: nat)
    requires i <= |s|
    ensures i <= j <= |s|
    ensures forall k :: i <= k < j ==> IsRegexSpace(s[k])
    ensures j < |s| ==> !IsRegexSpace(s[j])
    decreases |s| - i
  {
    if i < |s| && IsRegexSpace(s[i]) then SkipSpace(s, i + 1) else i
  }

  /** The end of the run of digits starting at `i`. */
  function DigitRunEnd(s: string, i: nat): (j: nat)
    requires i <= |s|
    ensures i <= j <= |s|
    ensures forall k :: i <= k < j ==> IsDigit(s[k])
    ensures j < |s| ==> !IsDigit(s[j])
    decreases |s| - i
  {
    if i < |s| && IsDigit(s[i]) then DigitRunEnd(s, i + 1) else i
  }

  /** Java's `$` without MULTILINE: the end of input, or just before a final line terminator. */
  predicate AtEnd(s: string, j: nat) {
    j == |s| || (j + 1 == |s| && IsOtherLineTerminator(s[j]))
  }

  /**
   * `^\s*([1-8]\d{2})\s*[-/]\s*(\d{1,2})\s*$`: the two groups when the whole
   * string matches. Backtracking never changes the outcome here, because the
   * classes that meet (`\s`, digits, the separators) are disjoint.
   */
  function SepMatch(s: string): (r: Option<(string, string)>)
    ensures r.Some? ==> IsPageString(r.value.0)
    ensures r.Some? ==> AllDigits(r.value.1) && 1 <= |r.value.1| <= 2
  {
    var a := SkipSpace(s, 0);
    if a + 3 <= |s| && IsPageString(s[a..a + 3]) then
      var b := SkipSpace(s, a + 3);
      if b < |s| && (s[b] == '-' || s[b] == '/') then
        var c := SkipSpace(s, b + 1);
        var d := DigitRunEnd(s, c);
        if 1 <= d - c <= 2 && AtEnd(s, SkipSpace(s, d)) then Some((s[a..a + 3], s[c..d]))
        else None
      else None
    else None
  }

  /** A string of digits alone never has the separator form. */
  lemma NoSepMatchOnDigits(s: string)
    requires AllDigits(s)
    ensures SepMatch(s).None?
  {
  }

  /** `PPP-S` and `PPP/S` match, with the page and the one or two subpage digits as groups. */
  lemma SepMatchOf(p: string, sep: char, sd: string)
    requires IsPageString(p) && (sep == '-' || sep == '/')
    requires AllDigits(sd) && 1 <= |sd| <= 2
    ensures SepMatch(p + [sep] + sd) == Some((p, sd))
  {
    var s := p + [sep] + sd;
    assert SkipSpace(s, 0) == 0;
    assert s[0..3] == p;
    assert SkipSpace(s, 3) == 3;
    assert SkipSpace(s, 4) == 4;
    assert DigitRunEnd(s, 4) == |s| by {
      if |sd| == 2 {
        assert DigitRunEnd(s, 6) == 6;
        assert DigitRunEnd(s, 5) == 6;
      } else {
        assert DigitRunEnd(s, 5) == 5;
      }
    }
    assert s[4..|s|] == sd;
  }
}
