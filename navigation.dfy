/**
 * The navigation helpers of the app: reading what the user typed as a page
 * and a two-digit subpage, the history key of a page, and the cyclic steps
 * used by the page and subpage swipes.
 */
module Navigation {
  import opened Wrappers
  import opened Text
  import opened PageSyntax
  import PageKey

  // ---------------------------------------------------------------------
  // parsePageAndSub / keyFor
  // ---------------------------------------------------------------------

  /**
   * `parsePageAndSub`: like the repository's page-key reader, but the
   * subpage is always present as two digits, `"01"` when the input names
   * none, and a subpage outside 1..99 rejects the input in both forms.
   */
  function ParsePageAndSub(input: string): Option<(string, string)> {
    var cleaned := Trim(input);
    match SepMatch(cleaned)
    case Some((pageStr, sd)) => AppSeparated(pageStr, sd)
    case None => AppDigitRun(FilterDigits(cleaned))
  }

  /** The separator form `PPP-S` / `PPP/S`. */
  function AppSeparated(pageStr: string, sd: string): Option<(string, string)> {
    match ToIntOrNull(sd)
    case None => None
    case Some(subInt) =>
      match ToIntOrNull(pageStr)
      case None => None
      case Some(pageInt) =>
        if !(100 <= pageInt <= 899) then None
        else if !(1 <= subInt <= 99) then None
        else Some((pageStr, Pad2(subInt)))
  }

  /** The fallback over the input's digits: page from digits 1-3, subpage from digits 4-5 or `"01"`. */
  function AppDigitRun(digits: string): Option<(string, string)> {
    if |digits| < 3 then None
    else
      var pageStr := digits[..3];
      match ToIntOrNull(pageStr)
      case None => None
      case Some(pageInt) =>
        if !(100 <= pageInt <= 899) then None
        else
          var subRaw := if |digits| >= 5 then digits[3..5] else "01";
          match ToIntOrNull(subRaw)
          case None => None
          case Some(subInt) =>
            if !(1 <= subInt <= 99) then None
            else Some((pageStr, Pad2(subInt)))
  }

  /** `keyFor`: the key under which a page is fetched and remembered in the history. */
  function KeyFor(page: string, sub: string): string {
    if sub == "01" then page else page + "-" + sub
  }

  /** Every accepted input names a three-digit page in 100..899 and a two-digit subpage in 01..99. */
  lemma ParsePageAndSubValid(input: string)
    ensures var r := ParsePageAndSub(input);
      r.Some? ==> IsPageString(r.value.0) && IsSubString(r.value.1)
  {
    match SepMatch(Trim(input))
    case Some((p, sd)) => SeparatedValid(input, p, sd);
    case None => DigitRunValid(input);
  }

  lemma SeparatedValid(input: string, p: string, sd: string)
    requires SepMatch(Trim(input)) == Some((p, sd))
    ensures var r := ParsePageAndSub(input);
      r.Some? ==> IsPageString(r.value.0) && IsSubString(r.value.1)
  {
    ParsePageAndSubSeparator(input, p, sd);
    if NatOf(sd) >= 1 {
      NatOfShort(sd);
      Pad2IsSubString(NatOf(sd));
    }
  }

  lemma DigitRunValid(input: string)
    requires SepMatch(Trim(input)).None?
    ensures var r := ParsePageAndSub(input);
      r.Some? ==> IsPageString(r.value.0) && IsSubString(r.value.1)
  {
    var d := FilterDigits(Trim(input));
    assert ParsePageAndSub(input) == AppDigitRun(d);
    AppDigitRunValid(d);
  }

  lemma AppDigitRunValid(d: string)
    requires AllDigits(d)
    ensures var r := AppDigitRun(d);
      r.Some? ==> IsPageString(r.value.0) && IsSubString(r.value.1)
  {
    if 3 <= |d| < 5 {
      DigitRunShort(d);
      PageStringValue(d[..3]);
      DefaultSub();
    } else if |d| >= 5 {
      DigitRunLong(d);
      PageStringValue(d[..3]);
      assert AllDigits(d[3..5]);
    }
  }

  /**
   * The separator form: the page as written and the subpage value padded to
   * two digits, or nothing when that value is 0.
   */
  lemma ParsePageAndSubSeparator(input: string, p: string, sd: string)
    requires SepMatch(Trim(input)) == Some((p, sd))
    ensures ParsePageAndSub(input) ==
      if NatOf(sd) >= 1 then Some((p, Pad2(NatOf(sd)))) else None
  {
    ToIntOfDigits(sd);
    PageStringToInt(p);
    NatOfShort(sd);
  }

  /**
   * The digit fallback: fewer than three digits, a page outside 100..899 or
   * subpage digits reading 0 reject the input; otherwise the page is the
   * first three digits and the subpage digits four and five as written, or
   * `"01"` when there are fewer than five digits.
   */
  lemma ParsePageAndSubDigits(input: string)
    requires SepMatch(Trim(input)).None?
    ensures var d := FilterDigits(Trim(input));
      var r := ParsePageAndSub(input);
      && (|d| < 3 ==> r.None?)
      && (3 <= |d| < 5 ==> (r.Some? <==> 100 <= NatOf(d[..3]) <= 899))
      && (|d| >= 5 ==> (r.Some? <==> 100 <= NatOf(d[..3]) <= 899 && NatOf(d[3..5]) >= 1))
      && (r.Some? ==> r.value == (d[..3], if |d| >= 5 then d[3..5] else "01"))
  {
    var d := FilterDigits(Trim(input));
    assert ParsePageAndSub(input) == AppDigitRun(d);
    if 3 <= |d| < 5 {
      DigitRunShort(d);
    } else if |d| >= 5 {
      DigitRunLong(d);
    }
  }

  /** Three or four digits: the page alone, on the default subpage. */
  lemma DigitRunShort(d: string)
    requires AllDigits(d) && 3 <= |d| < 5
    ensures AppDigitRun(d) == if 100 <= NatOf(d[..3]) <= 899 then Some((d[..3], "01")) else None
  {
    ToIntOfDigits(d[..3]);
    DefaultSub();
  }

  /** Five digits or more: digits four and five are the subpage, as written. */
  lemma DigitRunLong(d: string)
    requires AllDigits(d) && |d| >= 5
    ensures AppDigitRun(d) ==
      if 100 <= NatOf(d[..3]) <= 899 && NatOf(d[3..5]) >= 1 then Some((d[..3], d[3..5])) else None
  {
    var pageStr, sd := d[..3], d[3..5];
    assert AllDigits(pageStr) && AllDigits(sd) && |sd| == 2;
    ToIntOfDigits(pageStr);
    ToIntOfDigits(sd);
    NatOfShort(sd);
    if NatOf(sd) >= 1 { SubStringIsPad2(sd); }
  }

  /** The default subpage `"01"` is a valid subpage, reads as 1 and is its own padded form. */
  lemma DefaultSub()
    ensures IsSubString("01") && ToIntOrNull("01") == Some(1) && Pad2(1) == "01"
  {
    var one := "01";
    NatOfTwo(one);
    assert NatOf(one) == 1;
    ToIntOfDigits(one);
    SubStringIsPad2(one);
  }

  /** The separator form with a valid page and a one- or two-digit subpage, written out. */
  lemma ParsePageAndSubOfSeparated(p: string, sep: char, sd: string)
    requires IsPageString(p) && (sep == '-' || sep == '/')
    requires AllDigits(sd) && 1 <= |sd| <= 2
    ensures ParsePageAndSub(p + [sep] + sd) ==
      if NatOf(sd) >= 1 then Some((p, Pad2(NatOf(sd)))) else None
  {
    var s := p + [sep] + sd;
    assert s[0] == p[0] && s[|s| - 1] == sd[|sd| - 1];
    TrimNoop(s);
    SepMatchOf(p, sep, sd);
    ParsePageAndSubSeparator(s, p, sd);
  }

  /** A key names its page and subpage back: `ParsePageAndSub` inverts `KeyFor` on valid pairs. */
  lemma KeyForRoundTrip(p: string, s: string)
    requires IsPageString(p) && IsSubString(s)
    ensures ParsePageAndSub(KeyFor(p, s)) == Some((p, s))
  {
    if s == "01" {
      BarePageParses(p);
    } else {
      assert KeyFor(p, s) == p + ['-'] + s;
      ParsePageAndSubOfSeparated(p, '-', s);
      SubStringIsPad2(s);
    }
  }

  /** A bare page reads as that page on subpage `"01"`. */
  lemma BarePageParses(p: string)
    requires IsPageString(p)
    ensures ParsePageAndSub(p) == Some((p, "01"))
  {
    TrimNoop(p);
    NoSepMatchOnDigits(p);
    FilterDigitsOfDigits(p);
    assert ParsePageAndSub(p) == AppDigitRun(p);
    assert p[..3] == p;
    PageStringValue(p);
    DigitRunShort(p);
  }

  /** Different valid pairs have different keys. */
  lemma KeyForInjective(p: string, s: string, p': string, s': string)
    requires IsPageString(p) && IsSubString(s) && IsPageString(p') && IsSubString(s')
    ensures KeyFor(p, s) == KeyFor(p', s') <==> p == p' && s == s'
  {
    KeyForRoundTrip(p, s);
    KeyForRoundTrip(p', s');
  }

  /** The key is the bare page exactly for subpage `"01"`. */
  lemma KeyForBarePage(p: string, s: string)
    ensures KeyFor(p, s) == p <==> s == "01"
  {
    if s != "01" { assert |KeyFor(p, s)| > |p|; }
  }

  /**
   * Against the repository's reader: every input the app accepts is accepted
   * there too, with the same page, and the app's subpage is the repository's
   * subpage padded to two digits, or `"01"` where the repository has none.
   */
  lemma ParsePageAndSubRefinesPageKey(input: string)
    ensures var r := ParsePageAndSub(input);
      var k := PageKey.ParsePageKey(input);
      r.Some? ==>
        && k.Some? && k.value.0 == r.value.0
        && r.value.1 == (if k.value.1.Some? then Pad2(k.value.1.value) else "01")
  {
    var cleaned := Trim(input);
    match SepMatch(cleaned)
    case Some((p, sd)) =>
      ParsePageAndSubSeparator(input, p, sd);
      PageKey.ParsePageKeySeparator(input, p, sd);
      NatOfShort(sd);
    case None =>
      ParsePageAndSubDigits(input);
      PageKey.ParsePageKeyDigits(input);
      var d := FilterDigits(cleaned);
      if |d| >= 5 && ParsePageAndSub(input).Some? {
        NatOfTwo(d[3..5]);
        SubStringIsPad2(d[3..5]);
      }
  }

  // ---------------------------------------------------------------------
  // Cyclic steps: pages 100..899, subpages 1..maxSub
  // ---------------------------------------------------------------------

  const FirstPage: int := 100
  const LastPage: int := 899

  function NextPageCyclic(cur: int): int { if cur >= LastPage then FirstPage else cur + 1 }
  function PrevPageCyclic(cur: int): int { if cur <= FirstPage then LastPage else cur - 1 }

  /** The page steps stay on 100..899, wrap at the ends and undo each other. */
  lemma PageStepsInverse(cur: int)
    requires FirstPage <= cur <= LastPage
    ensures FirstPage <= NextPageCyclic(cur) <= LastPage
    ensures FirstPage <= PrevPageCyclic(cur) <= LastPage
    ensures NextPageCyclic(cur) == FirstPage <==> cur == LastPage
    ensures PrevPageCyclic(cur) == LastPage <==> cur == FirstPage
    ensures PrevPageCyclic(NextPageCyclic(cur)) == cur
    ensures NextPageCyclic(PrevPageCyclic(cur)) == cur
  {
  }

  /** `k` page swipes forward. */
  function ForwardPages(cur: int, k: nat): int {
    if k == 0 then cur else NextPageCyclic(ForwardPages(cur, k - 1))
  }

  /** Swiping forward runs through all 800 pages in order and comes back after 800 swipes. */
  lemma {:induction false} ForwardPagesOrbit(cur: int, k: nat)
    requires FirstPage <= cur <= LastPage
    ensures ForwardPages(cur, k) == FirstPage + (cur - FirstPage + k) % 800
  {
    if k > 0 {
      ForwardPagesOrbit(cur, k - 1);
      var m := (cur - FirstPage + k - 1) % 800;
      if m == 799 {
        assert (cur - FirstPage + k) % 800 == 0;
      } else {
        assert (cur - FirstPage + k) % 800 == m + 1;
      }
    }
  }

  /** `maxSubpagesFor`: only page 102 is known to have subpages, eleven of them. */
  function MaxSubpagesFor(pageInt: int): (r: int)
    ensures r >= 1
    ensures r > 1 <==> pageInt == 102
    ensures pageInt == 102 ==> r == 11
    ensures pageInt != 102 ==> r == 1
  {
    if pageInt == 102 then 11 else 1
  }

  function NextSubCyclic(curSub: int, maxSub: int): int { if curSub >= maxSub then 1 else curSub + 1 }
  function PrevSubCyclic(curSub: int, maxSub: int): int { if curSub <= 1 then maxSub else curSub - 1 }

  /** The subpage steps stay on 1..maxSub, wrap at the ends and undo each other. */
  lemma SubStepsInverse(curSub: int, maxSub: int)
    requires 1 <= curSub <= maxSub
    ensures 1 <= NextSubCyclic(curSub, maxSub) <= maxSub
    ensures 1 <= PrevSubCyclic(curSub, maxSub) <= maxSub
    ensures maxSub > 1 ==> (NextSubCyclic(curSub, maxSub) == 1 <==> curSub == maxSub)
    ensures PrevSubCyclic(curSub, maxSub) == maxSub <==> curSub == 1
    ensures PrevSubCyclic(NextSubCyclic(curSub, maxSub), maxSub) == curSub
    ensures NextSubCyclic(PrevSubCyclic(curSub, maxSub), maxSub) == curSub
  {
  }

  /** `coerceIn` */
  function CoerceIn(v: int, lo: int, hi: int): (r: int)
    requires lo <= hi
    ensures lo <= r <= hi
    ensures lo <= v <= hi ==> r == v
    ensures v < lo ==> r == lo
    ensures v > hi ==> r == hi
  {
    if v < lo then lo else if v > hi then hi else v
  }

  /** The page a page swipe asks for: forward for a positive delta, back for a negative one. */
  function PageAfterSwipe(cur: int, delta: int): int {
    if delta > 0 then NextPageCyclic(cur) else if delta < 0 then PrevPageCyclic(cur) else cur
  }

  /** The subpage a subpage swipe asks for. */
  function SubAfterSwipe(curSub: int, maxSub: int, delta: int): int {
    if delta > 0 then NextSubCyclic(curSub, maxSub)
    else if delta < 0 then PrevSubCyclic(curSub, maxSub)
    else curSub
  }

  /** Swiping one way and then the other returns to the page, on every page. */
  lemma PageSwipeBack(cur: int, delta: int)
    requires FirstPage <= cur <= LastPage && delta != 0
    ensures FirstPage <= PageAfterSwipe(cur, delta) <= LastPage
    ensures PageAfterSwipe(PageAfterSwipe(cur, delta), -delta) == cur
  {
    PageStepsInverse(cur);
  }

  /** `fmtPage` of a page swipe target reads back, through `parsePageAndSub`, as that page on subpage 01. */
  lemma FormattedPageParses(n: int)
    requires FirstPage <= n <= LastPage
    ensures ParsePageAndSub(Pad3(n)) == Some((Pad3(n), "01"))
  {
    Pad3IsPageString(n);
    BarePageParses(Pad3(n));
  }

  /** The `PPP-SS` key of a subpage swipe reads back as that page and subpage. */
  lemma FormattedSubParses(p: string, n: int)
    requires IsPageString(p) && 1 <= n <= 99
    ensures ParsePageAndSub(p + "-" + Pad2(n)) == Some((p, Pad2(n)))
  {
    Pad2IsSubString(n);
    NatOfTwo(Pad2(n));
    SubStringIsPad2(Pad2(n));
    assert p + "-" + Pad2(n) == p + ['-'] + Pad2(n);
    ParsePageAndSubOfSeparated(p, '-', Pad2(n));
  }
}
