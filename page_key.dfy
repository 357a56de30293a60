/** Reading a page key as the repository does: "102", "102-08", "102/08", "10208", query strings. */
module PageKey {
  import opened Wrappers
  import opened Text
  import opened PageSyntax

  // ---------------------------------------------------------------------
  // Page keys: "102", "102-08", "102/08", "10208", query strings
  // ---------------------------------------------------------------------

  /**
   * `parsePageKey`: the separator form `PPP-S` / `PPP/S` first (and only: a
   * subpage outside 1..99 there rejects the key), otherwise the first three
   * digits as the page and, with five or more digits, digits four and five as
   * an optional subpage.
   */
  function ParsePageKey(pageKey: string): Option<(string, Option<int>)> {
    var cleaned := Trim(pageKey);
    match SepMatch(cleaned)
    case Some((p, sd)) => ParseSeparated(p, sd)
    case None => ParseDigitRun(FilterDigits(cleaned))
  }

  /** The separator form: the subpage group must read 1..99. */
  function ParseSeparated(p: string, sd: string): Option<(string, Option<int>)> {
    match ToIntOrNull(sd)
    case None => None
    case Some(s) => if 1 <= s <= 99 then Some((p, Some(s))) else None
  }

  /** The digit fallback over the key's digits. */
  function ParseDigitRun(digits: string): Option<(string, Option<int>)> {
    if |digits| < 3 then None
    else
      var page := digits[..3];
      match ToIntOrNull(page)
      case None => None
      case Some(pageInt) =>
        if !(100 <= pageInt <= 899) then None
        else Some((page, if |digits| >= 5 then SubOfDigits(digits[3..5]) else None))
  }

  /** `toIntOrNull()?.takeIf { it in 1..99 }` */
  function SubOfDigits(sd: string): Option<int> {
    match ToIntOrNull(sd)
    case Some(v) => if 1 <= v <= 99 then Some(v) else None
    case None => None
  }

  /** Every accepted key names a page of three digits in 100..899 and, if any, a subpage in 1..99. */
  lemma ParsePageKeyValid(pageKey: string)
    ensures var r := ParsePageKey(pageKey);
      r.Some? ==>
        && IsPageString(r.value.0) && AllDigits(r.value.0) && 100 <= NatOf(r.value.0) <= 899
        && (r.value.1.Some? ==> 1 <= r.value.1.value <= 99)
  {
    var cleaned := Trim(pageKey);
    match SepMatch(cleaned)
    case Some((p, sd)) =>
      assert ParsePageKey(pageKey) == ParseSeparated(p, sd);
      PageStringToInt(p);
    case None =>
      var digits := FilterDigits(cleaned);
      assert ParsePageKey(pageKey) == ParseDigitRun(digits);
      if |digits| >= 3 {
        ToIntOfDigits(digits[..3]);
        PageStringValue(digits[..3]);
      }
  }

  /**
   * The separator form: when the trimmed key matches `PPP-S` or `PPP/S`, the
   * result is the page and the subpage value if that value lies in 1..99, and
   * no result otherwise; the digit fallback is not tried (so `"102-00"`
   * gives nothing).
   */
  lemma ParsePageKeySeparator(pageKey: string, p: string, sd: string)
    requires SepMatch(Trim(pageKey)) == Some((p, sd))
    ensures AllDigits(sd) && 1 <= |sd| <= 2
    ensures ParsePageKey(pageKey) ==
      if 1 <= NatOf(sd) <= 99 then Some((p, Some(NatOf(sd)))) else None
  {
    ToIntOfDigits(sd);
  }

  /** In particular `PPP-S` and `PPP/S` read back as written, for a subpage of one or two digits. */
  lemma ParsePageKeyOfSeparated(p: string, sep: char, sd: string)
    requires IsPageString(p) && (sep == '-' || sep == '/')
    requires AllDigits(sd) && 1 <= |sd| <= 2
    ensures ParsePageKey(p + [sep] + sd) ==
      if 1 <= NatOf(sd) <= 99 then Some((p, Some(NatOf(sd)))) else None
  {
    var s := p + [sep] + sd;
    assert s[0] == p[0] && s[|s| - 1] == sd[|sd| - 1];
    TrimNoop(s);
    SepMatchOf(p, sep, sd);
    ParsePageKeySeparator(s, p, sd);
  }

  /** A separator followed by `0` or `00` rejects the key. */
  lemma ParsePageKeySeparatorZero(pageKey: string, p: string, sd: string)
    requires SepMatch(Trim(pageKey)) == Some((p, sd))
    requires sd == "0" || sd == "00"
    ensures ParsePageKey(pageKey) == None
  {
    ParsePageKeySeparator(pageKey, p, sd);
    if sd == "00" { NatOfTwo(sd); }
  }

  /**
   * The digit fallback: fewer than three digits reject the key; otherwise the
   * first three digits are the page, accepted only in 100..899; digits four
   * and five give the subpage when they read 1..99, and no subpage otherwise
   * (so a query string such as `pagina=102&sottopagina=8`, whose digits are
   * `1028`, gives page 102 without a subpage).
   */
  lemma ParsePageKeyDigits(pageKey: string)
    requires SepMatch(Trim(pageKey)).None?
    ensures var d := FilterDigits(Trim(pageKey));
      var r := ParsePageKey(pageKey);
      && (|d| < 3 ==> r.None?)
      && (|d| >= 3 ==> (r.Some? <==> 100 <= NatOf(d[..3]) <= 899))
      && (r.Some? ==> r.value.0 == d[..3])
      && (r.Some? && |d| < 5 ==> r.value.1.None?)
      && (r.Some? && |d| >= 5 ==>
            r.value.1 == if 1 <= NatOf(d[3..5]) <= 99 then Some(NatOf(d[3..5])) else None)
  {
    var d := FilterDigits(Trim(pageKey));
    assert ParsePageKey(pageKey) == ParseDigitRun(d);
    if |d| >= 3 { ToIntOfDigits(d[..3]); }
    if |d| >= 5 { ToIntOfDigits(d[3..5]); }
  }

  /** A key made of digits only goes straight to the digit fallback. */
  lemma ParsePageKeyAllDigits(k: string)
    requires AllDigits(k)
    ensures ParsePageKey(k) == ParseDigitRun(k)
  {
    TrimNoop(k);
    NoSepMatchOnDigits(k);
    FilterDigitsOfDigits(k);
  }

  /** `"10200"` and the like: subpage digits reading 0 leave the page alone, unlike the separator form. */
  lemma ParsePageKeyZeroSubpage(k: string)
    requires |k| == 5 && AllDigits(k) && IsPageString(k[..3]) && k[3..5] == "00"
    ensures ParsePageKey(k) == Some((k[..3], None))
  {
    ParsePageKeyAllDigits(k);
    PageStringToInt(k[..3]);
    NatOfTwo("00");
    ToIntOfDigits("00");
  }
}
