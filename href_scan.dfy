/**
 * The three java.util.regex patterns that read a page and a subpage out of an
 * `<area>`'s `href`, and the `while (matcher.find())` scan that keeps the
 * last match:
 *   PageParam  `(?:\bpagina\b|\bp\b)\s*=\s*([1-8]\d{2})`
 *   AnyPage    `\b([1-8]\d{2})\b`
 *   SubParam   `(?:\bsottopagina\b|\bs\b)\s*=\s*(\d{1,2})`
 * Word characters for `\b` are ASCII letters, digits and '_'.
 */
module HrefScan {
  import opened Wrappers
  import opened Text
  import opened PageSyntax

  datatype Pattern = PageParam | AnyPage | SubParam

  /** A successful match: where it ends and the text of group 1. */
  datatype Match = Match(end: nat, group: string)

  predicate IsWordChar(c: char) {
    ('a' <= c <= 'z') || ('A' <= c <= 'Z') || IsDigit(c) || c == '_'
  }

  /** `\b` at position `i`: a word character on exactly one side. */
  predicate Boundary(s: string, i: nat)
    requires i <= |s|
  {
    (0 < i && IsWordChar(s[i - 1])) != (i < |s| && IsWordChar(s[i]))
  }

  /** `\bkw\b` starting at `i`. */
  predicate WordAt(s: string, i: nat, kw: string)
    requires i <= |s|
  {
    i + |kw| <= |s| && s[i..i + |kw|] == kw && Boundary(s, i) && Boundary(s, i + |kw|)
  }

  /** What group 1 of each pattern can capture: a page string, or one or two digits. */
  predicate GroupShape(p: Pattern, g: string) {
    if p == SubParam then AllDigits(g) && 1 <= |g| <= 2 else IsPageString(g)
  }

  /** Group 1 of the pattern, read at `j` (greedy, so `\d{1,2}` takes two digits when it can). */
  function ValueAt(p: Pattern, s: string, j: nat): (r: Option<Match>)
    requires j <= |s|
    ensures r.Some? ==> j < r.value.end <= |s| && r.value.group == s[j..r.value.end]
    ensures r.Some? ==> GroupShape(p, r.value.group)
  {
    if p == SubParam then
      var d := DigitRunEnd(s, j);
      if d == j then None
      else var e := if d - j >= 2 then j + 2 else d; Some(Match(e, s[j..e]))
    else if j + 3 <= |s| && IsPageString(s[j..j + 3]) then Some(Match(j + 3, s[j..j + 3]))
    else None
  }

  /** `\bkw\b\s*=\s*` followed by group 1, starting at `i`. */
  function KeyValueAt(p: Pattern, s: string, i: nat, kw: string): (r: Option<Match>)
    requires i <= |s|
    ensures r.Some? ==> i < r.value.end <= |s| && GroupShape(p, r.value.group)
  {
    if WordAt(s, i, kw) then
      var j := SkipSpace(s, i + |kw|);
      if j < |s| && s[j] == '=' then ValueAt(p, s, SkipSpace(s, j + 1)) else None
    else None
  }

  /** The pattern matched at exactly position `i`, trying alternatives from left to right. */
  function MatchAt(p: Pattern, s: string, i: nat): (r: Option<Match>)
    requires i <= |s|
    ensures r.Some? ==> i < r.value.end <= |s| && GroupShape(p, r.value.group)
  {
    match p
    case AnyPage =>
      if i + 3 <= |s| && Boundary(s, i) && IsPageString(s[i..i + 3]) && Boundary(s, i + 3)
      then Some(Match(i + 3, s[i..i + 3])) else None
    case PageParam =>
      var long := KeyValueAt(p, s, i, "pagina");
      if long.Some? then long else KeyValueAt(p, s, i, "p")
    case SubParam =>
      var long := KeyValueAt(p, s, i, "sottopagina");
      if long.Some? then long else KeyValueAt(p, s, i, "s")
  }

  /** The pattern matches at no position in `a..b-1`. */
  predicate NoMatchBetween(p: Pattern, s: string, a: nat, b: nat)
    requires b <= |s| + 1
    decreases b - a
  {
    a >= b || (MatchAt(p, s, a).None? && NoMatchBetween(p, s, a + 1, b))
  }

  lemma {:induction false} NoMatchBetweenSpec(p: Pattern, s: string, a: nat, b: nat, k: nat)
    requires b <= |s| + 1 && NoMatchBetween(p, s, a, b) && a <= k < b
    ensures MatchAt(p, s, k).None?
    decreases b - a
  {
    if a < k { NoMatchBetweenSpec(p, s, a + 1, b, k); }
  }

  /** What one `find()` from position `from` reports: the first position where the pattern matches. */
  function Find(p: Pattern, s: string, from: nat): (r: Option<nat>)
    requires from <= |s| + 1
    ensures r.Some? ==> from <= r.value <= |s| && MatchAt(p, s, r.value).Some?
    ensures r.Some? ==> NoMatchBetween(p, s, from, r.value)
    ensures r.None? ==> NoMatchBetween(p, s, from, |s| + 1)
    decreases |s| + 1 - from
  {
    if from > |s| then None
    else if MatchAt(p, s, from).Some? then Some(from)
    else Find(p, s, from + 1)
  }

  /** `find()` reports the first matching position from `from` on, and nothing only when there is none. */
  lemma FindSpec(p: Pattern, s: string, from: nat)
    requires from <= |s| + 1
    ensures Find(p, s, from).Some? ==> forall k :: from <= k < Find(p, s, from).value ==> MatchAt(p, s, k).None?
    ensures Find(p, s, from).None? ==> forall k :: from <= k <= |s| ==> MatchAt(p, s, k).None?
  {
    var r := Find(p, s, from);
    var b := if r.Some? then r.value else |s| + 1;
    forall k | from <= k < b ensures MatchAt(p, s, k).None? {
      NoMatchBetweenSpec(p, s, from, b, k);
    }
  }

  /** The successive matches that repeated `find()` calls report, each search resuming where the last match ended. */
  function Matches(p: Pattern, s: string, from: nat): seq<Match>
    requires from <= |s| + 1
    decreases |s| + 1 - from
  {
    match Find(p, s, from)
    case None => []
    case Some(i) =>
      var m := MatchAt(p, s, i).value;
      [m] + Matches(p, s, m.end)
  }

  /** The group of the last reported match, which is what `while (m.find()) v = m.group(1)` leaves in `v`. */
  function LastGroup(p: Pattern, s: string): Option<string> {
    LastOr(None, Matches(p, s, 0))
  }

  /** The group of the last match in `ms`, or `g` when there is none. */
  function LastOr(g: Option<string>, ms: seq<Match>): Option<string> {
    if ms == [] then g else Some(ms[|ms| - 1].group)
  }

  /** Every reported group has the shape of group 1 of its pattern. */
  lemma {:induction false} MatchesShape(p: Pattern, s: string, from: nat)
    requires from <= |s| + 1
    ensures forall k :: 0 <= k < |Matches(p, s, from)| ==> GroupShape(p, Matches(p, s, from)[k].group)
    decreases |s| + 1 - from
  {
    match Find(p, s, from)
    case None =>
    case Some(i) =>
      var m := MatchAt(p, s, i).value;
      MatchesShape(p, s, m.end);
  }

  /** The last group is a page string (for the page patterns) or one or two digits (for the subpage pattern). */
  lemma LastGroupShape(p: Pattern, s: string)
    ensures LastGroup(p, s).Some? && p != SubParam ==> IsPageString(LastGroup(p, s).value)
    ensures LastGroup(p, s).Some? && p == SubParam ==>
      AllDigits(LastGroup(p, s).value) && 1 <= |LastGroup(p, s).value| <= 2
  {
    MatchesShape(p, s, 0);
  }

  /** No group at all exactly when the pattern matches at no position of `s`. */
  lemma {:induction false} LastGroupNone(p: Pattern, s: string)
    ensures LastGroup(p, s).None? <==> forall k :: 0 <= k <= |s| ==> MatchAt(p, s, k).None?
  {
    FindSpec(p, s, 0);
    match Find(p, s, 0)
    case None =>
    case Some(i) =>
      var m := MatchAt(p, s, i).value;
      assert Matches(p, s, 0) == [m] + Matches(p, s, m.end);
  }

  /**
   * The last group comes from a real match of the pattern after which the
   * pattern matches nowhere: a later match would have replaced it.
   */
  lemma {:induction false} LastGroupIsLastMatch(p: Pattern, s: string, from: nat)
    requires from <= |s| + 1
    ensures Matches(p, s, from) != [] ==>
      exists i :: from <= i <= |s| && MatchAt(p, s, i).Some?
        && MatchAt(p, s, i).value.group == LastOr(None, Matches(p, s, from)).value
        && forall k :: MatchAt(p, s, i).value.end <= k <= |s| ==> MatchAt(p, s, k).None?
    decreases |s| + 1 - from
  {
    match Find(p, s, from)
    case None =>
    case Some(i) =>
      var m := MatchAt(p, s, i).value;
      var rest := Matches(p, s, m.end);
      assert Matches(p, s, from) == [m] + rest;
      if rest == [] {
        assert Find(p, s, m.end).None?;
        FindSpec(p, s, m.end);
      } else {
        LastGroupIsLastMatch(p, s, m.end);
        assert LastOr(None, [m] + rest) == LastOr(None, rest);
      }
  }

  /** A match at `i` becomes the latest group and the search resumes at its end. */
  lemma ScanTake(p: Pattern, s: string, i: nat, g: Option<string>, m: Match)
    requires i <= |s| && MatchAt(p, s, i) == Some(m)
    ensures LastOr(g, Matches(p, s, i)) == LastOr(Some(m.group), Matches(p, s, m.end))
  {
    assert Find(p, s, i) == Some(i);
    assert Matches(p, s, i) == [m] + Matches(p, s, m.end);
  }

  /** No match at `i`: the search moves on by one position. */
  lemma ScanSkip(p: Pattern, s: string, i: nat, g: Option<string>)
    requires i <= |s| && MatchAt(p, s, i).None?
    ensures Matches(p, s, i) == Matches(p, s, i + 1)
    ensures LastOr(g, Matches(p, s, i)) == LastOr(g, Matches(p, s, i + 1))
  {
    assert Find(p, s, i) == Find(p, s, i + 1);
  }

  /**
   * The scan as the repository runs it: each time the pattern matches, `g`
   * is overwritten with the match's group and the search resumes after it.
   */
  method ScanLastGroup(p: Pattern, s: string) returns (g: Option<string>)
    ensures g == LastGroup(p, s)
  {
    g := None;
    var i := 0;
    while i <= |s|
      invariant 0 <= i <= |s| + 1
      invariant LastGroup(p, s) == LastOr(g, Matches(p, s, i))
      decreases |s| + 1 - i
    {
      i, g := ScanStep(p, s, i, g);
    }
  }

  /** One position of the scan: take the match at `i`, if any, or move on by one. */
  method ScanStep(p: Pattern, s: string, i: nat, g: Option<string>) returns (i': nat, g': Option<string>)
    requires i <= |s|
    ensures i < i' <= |s| + 1
    ensures LastOr(g', Matches(p, s, i')) == LastOr(g, Matches(p, s, i))
  {
    var m := MatchAt(p, s, i);
    if m.Some? {
      ScanTake(p, s, i, g, m.value);
      i', g' := m.value.end, Some(m.value.group);
    } else {
      ScanSkip(p, s, i, g);
      i', g' := i + 1, g;
    }
  }
}
