/**
 * The screen's page keypad (a buffer of at most three digits that confirms
 * itself once it holds a valid page) and its two number formatters.
 */
module Keypad {
  import opened Wrappers
  import opened Text
  import opened PageSyntax
  import Navigation

  /** `isValid`: three characters whose number lies in 100..899. */
  predicate IsValidEntry(digits: string) {
    |digits| == 3 && ToIntOrNull(digits).Some? && 100 <= ToIntOrNull(digits).value <= 899
  }

  /**
   * Whatever the characters, a valid entry is exactly a page string: a
   * signed three-character string has a magnitude of at most 99.
   */
  lemma IsValidEntrySpec(digits: string)
    ensures IsValidEntry(digits) <==> IsPageString(digits)
  {
    if |digits| == 3 {
      if digits[0] == '-' || digits[0] == '+' {
        if AllDigits(digits[1..]) { NatOfShort(digits[1..]); }
      } else if AllDigits(digits) {
        PageStringValue(digits);
        ToIntOfDigits(digits);
      }
    }
  }

  /** `tryAutoConfirmIfComplete`: the page handed to `onConfirm`, if the buffer is complete and valid. */
  function AutoConfirm(digits: string): (r: Option<string>)
    ensures r.Some? ==> r.value == digits
  {
    if |digits| != 3 then None
    else match ToIntOrNull(digits)
      case None => None
      case Some(n) => if 100 <= n <= 899 then Some(digits) else None
  }

  /** The buffer is confirmed exactly when it is a page string; `"900"` is complete but never confirmed. */
  lemma AutoConfirmSpec(digits: string)
    ensures AutoConfirm(digits).Some? <==> IsPageString(digits)
    ensures AutoConfirm(digits).Some? <==> IsValidEntry(digits)
  {
    IsValidEntrySpec(digits);
  }

  /** `dropLast(1)` */
  function DropLast(s: string): (r: string)
    ensures |s| > 0 ==> |r| == |s| - 1 && r == s[..|s| - 1]
    ensures |s| == 0 ==> r == s
  {
    if |s| == 0 then s else s[..|s| - 1]
  }

  /** The hint under the keypad's display. */
  datatype Hint = Prompt | Missing(count: nat) | Opening(page: string) | Invalid

  function HintFor(digits: string): Hint {
    if |digits| == 0 then Prompt
    else if |digits| < 3 then Missing(3 - |digits|)
    else if IsValidEntry(digits) then Opening(digits)
    else Invalid
  }

  function HintText(h: Hint): string {
    match h
    case Prompt => "Inserisci 3 cifre (100\U{2013}899)"
    case Missing(n) => "Mancano " + IntToString(n) + " cifre"
    case Opening(p) => "Apro " + p + "\U{2026}"
    case Invalid => "Pagina non valida (100\U{2013}899)"
  }

  /**
   * The four hints split the buffers between them: the prompt for the empty
   * buffer, the count of missing digits (1 or 2) for a partial one, the
   * page about to open for a valid one and the warning for any other.
   */
  lemma HintForSpec(digits: string)
    ensures HintFor(digits).Prompt? <==> digits == ""
    ensures HintFor(digits).Missing? <==> 1 <= |digits| <= 2
    ensures HintFor(digits).Missing? ==> HintFor(digits).count == 3 - |digits| && 1 <= HintFor(digits).count <= 2
    ensures HintFor(digits).Opening? <==> IsPageString(digits)
    ensures HintFor(digits).Opening? ==> HintFor(digits).page == digits
    ensures HintFor(digits).Invalid? <==> |digits| >= 3 && !IsPageString(digits)
  {
    IsValidEntrySpec(digits);
  }

  /** "Apro …" is shown exactly for the buffers that confirm themselves. */
  lemma HintOpensConfirmed(digits: string)
    ensures HintFor(digits).Opening? <==> AutoConfirm(digits).Some?
  {
    HintForSpec(digits);
    AutoConfirmSpec(digits);
  }

  /** The dialog's `digits` state. */
  class PageKeypad {
    var digits: string

    ghost predicate Valid()
      reads this
    {
      |digits| <= 3 && AllDigits(digits)
    }

    constructor ()
      ensures digits == "" && Valid()
    {
      digits := "";
    }

    /**
     * `appendDigit`: ignored once three digits are in; otherwise appends
     * and returns the page to confirm, if the buffer has just become a valid
     * page.
     */
    method AppendDigit(d: char) returns (confirmed: Option<string>)
      modifies this
      ensures |old(digits)| >= 3 ==> digits == old(digits) && confirmed == None
      ensures |old(digits)| < 3 ==> digits == old(digits) + [d] && confirmed == AutoConfirm(digits)
      ensures old(Valid()) && IsDigit(d) ==> Valid()
    {
      confirmed := None;
      if |digits| < 3 {
        digits := digits + [d];
        confirmed := TryAutoConfirm();
      }
    }

    /** `tryAutoConfirmIfComplete`: the page handed to `onConfirm`, if any. */
    method TryAutoConfirm() returns (confirmed: Option<string>)
      ensures confirmed == AutoConfirm(digits)
    {
      confirmed := AutoConfirm(digits);
    }

    /** `backspace`: drops the last digit, if any. */
    method Backspace()
      modifies this
      ensures digits == DropLast(old(digits))
      ensures old(Valid()) ==> Valid()
    {
      if |digits| > 0 {
        digits := digits[..|digits| - 1];
      }
    }

    /** `clear` */
    method Clear()
      modifies this
      ensures digits == "" && Valid()
    {
      digits := "";
    }
  }

  /** A backspace takes back the digit just appended. */
  lemma BackspaceUndoesAppend(digits: string, d: char)
    ensures DropLast(digits + [d]) == digits
  {
    assert (digits + [d])[..|digits|] == digits;
  }

  /**
   * Typing the three digits of a page with the keypad confirms exactly on
   * the third digit, and only then.
   */
  lemma {:induction false} TypingPageConfirmsOnThird(p: string)
    requires IsPageString(p)
    ensures AutoConfirm(p[..1]) == None && AutoConfirm(p[..2]) == None
    ensures AutoConfirm(p[..2] + [p[2]]) == Some(p)
  {
    assert p[..2] + [p[2]] == p;
    AutoConfirmSpec(p);
  }

  /** A confirmed entry loads that page's first subpage. */
  lemma ConfirmedPageLoads(digits: string)
    requires AutoConfirm(digits).Some?
    ensures Navigation.ParsePageAndSub(AutoConfirm(digits).value) == Some((digits, "01"))
  {
    AutoConfirmSpec(digits);
    Navigation.BarePageParses(digits);
  }

  // ---------------------------------------------------------------------
  // formatPage and pageForToast
  // ---------------------------------------------------------------------

  /** `String.format("%03d", n)`: zero-padded to width 3, the sign counting towards the width. */
  function FormatPage(n: int): (r: string)
    ensures |r| >= 3
  {
    if n < 0 then "-" + ZeroPadded(-n, 2) else ZeroPadded(n, 3)
  }

  /** The decimal digits of `m`, zero-padded to width `w`. */
  function ZeroPadded(m: nat, w: nat): (r: string)
    ensures |r| >= w
  {
    PadStart(NatToString(m), w, '0')
  }

  /** On non-negative values the format is the app's three-digit padding. */
  lemma FormatPageIsPad3(n: int)
    requires n >= 0
    ensures FormatPage(n) == Pad3(n)
  {
  }

  /** Every Int survives formatting and reading back. */
  lemma FormatPageRoundTrip(n: int)
    requires IntMin <= n <= IntMax
    ensures ToIntOrNull(FormatPage(n)) == Some(n)
  {
    if n < 0 { NegativeRoundTrip(n); } else { NonNegativeRoundTrip(n); }
  }

  lemma NegativeRoundTrip(n: int)
    requires IntMin <= n < 0
    ensures ToIntOrNull(FormatPage(n)) == Some(n)
  {
    MinusPaddedToInt(-n);
  }

  /** The negative form, stated over the magnitude. */
  lemma MinusPaddedToInt(m: nat)
    requires 1 <= m <= -IntMin
    ensures ToIntOrNull("-" + ZeroPadded(m, 2)) == Some(-(m as int))
  {
    PaddedDigits(m, 2);
    ToIntOfNegated(ZeroPadded(m, 2));
  }

  lemma NonNegativeRoundTrip(n: int)
    requires 0 <= n <= IntMax
    ensures ToIntOrNull(FormatPage(n)) == Some(n)
  {
    var t := ZeroPadded(n, 3);
    PaddedDigits(n, 3);
    assert FormatPage(n) == t;
    ToIntOfUnsigned(t);
  }

  lemma PaddedDigits(m: nat, w: nat)
    ensures var t := ZeroPadded(m, w);
      AllDigits(t) && |t| >= 1 && NatOf(t) == m
  {
    NatToStringRoundTrip(m);
    NatOfPadZeros(NatToString(m), w);
  }

  /** A bookmark in 100..899 is offered as its page string and loads that page. */
  lemma BookmarkSelectLoads(p: int)
    requires 100 <= p <= 899
    ensures IsPageString(FormatPage(p)) && NatOf(FormatPage(p)) == p
    ensures Navigation.ParsePageAndSub(FormatPage(p)) == Some((FormatPage(p), "01"))
  {
    Pad3IsPageString(p);
    Navigation.BarePageParses(FormatPage(p));
  }

  /** `pageForToast`: a numeric page is formatted, anything else is shown as given. */
  function PageForToast(p: string): string {
    match ToIntOrNull(p)
    case None => p
    case Some(n) => FormatPage(n)
  }

  /** Text that is not a number is shown as given. */
  lemma PageForToastOfText(p: string)
    requires ToIntOrNull(p).None?
    ensures PageForToast(p) == p
  {
  }

  /** A run of up to nine digits is shown as its value padded to three digits, so a page string is shown as it is. */
  lemma PageForToastOfDigits(p: string)
    requires AllDigits(p) && 1 <= |p| <= 9
    ensures PageForToast(p) == Pad3(NatOf(p))
    ensures IsPageString(p) ==> PageForToast(p) == p
  {
    ToIntOfDigits(p);
    FormatPageIsPad3(NatOf(p));
    if IsPageString(p) {
      PageStringIsPad3(p);
    }
  }

  /** Formatting for the toast is idempotent. */
  lemma PageForToastIdempotent(p: string)
    ensures PageForToast(PageForToast(p)) == PageForToast(p)
  {
    match ToIntOrNull(p)
    case None =>
    case Some(n) => FormatPageRoundTrip(n);
  }
}
