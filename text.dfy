/**
 * The parts of the Kotlin standard library that the navigation layer relies on:
 * `Char.isDigit`, `Char.isWhitespace`, `String.trim`, `isBlank`, `filter`,
 * `toIntOrNull`, `Int.toString`, `padStart` and `split`.
 * Digits are the ASCII digits '0'..'9'.
 */
module Text {
  import opened Wrappers

  /** The range of a Kotlin `Int`. */
  const IntMin: int := -0x8000_0000
  const IntMax: int := 0x7FFF_FFFF

  predicate IsDigit(c: char) { '0' <= c <= '9' }

  predicate AllDigits(s: string) { forall i :: 0 <= i < |s| ==> IsDigit(s[i]) }

  /**
   * Kotlin's `Char.isWhitespace` on the JVM: `Character.isWhitespace` or
   * `Character.isSpaceChar`, which together are the characters listed here.
   */
  predicate IsWhitespace(c: char) {
    || c == ' ' || c == '\t' || c == '\n' || c == '\U{000B}' || c == '\U{000C}' || c == '\r'
    || ('\U{001C}' <= c <= '\U{001F}')
    || c == '\U{00A0}' || c == '\U{1680}' || ('\U{2000}' <= c <= '\U{200A}')
    || c == '\U{2028}' || c == '\U{2029}' || c == '\U{202F}' || c == '\U{205F}' || c == '\U{3000}'
  }

  /** Kotlin's `isBlank`: every character is whitespace (the empty string included). */
  predicate IsBlank(s: string) { forall i :: 0 <= i < |s| ==> IsWhitespace(s[i]) }

  function TrimStart(s: string): (r: string)
    ensures |r| <= |s|
    ensures r == [] || !IsWhitespace(r[0])
  {
    if s == [] || !IsWhitespace(s[0]) then s else TrimStart(s[1..])
  }

  function TrimEnd(s: string): (r: string)
    ensures |r| <= |s|
    ensures r == [] || !IsWhitespace(r[|r| - 1])
  {
    if s == [] || !IsWhitespace(s[|s| - 1]) then s else TrimEnd(s[..|s| - 1])
  }

  /** Kotlin's `trim()`: drops leading and trailing whitespace. */
  function Trim(s: string): (r: string)
    ensures r == [] || (!IsWhitespace(r[0]) && !IsWhitespace(r[|r| - 1]))
  {
    var t := TrimStart(s);
    TrimEndDropsWhitespace(t);
    TrimEnd(t)
  }

  /** Trimming drops only whitespace, from the two ends. */
  lemma {:induction false} TrimStartDropsWhitespace(s: string)
    ensures TrimStart(s) == s[|s| - |TrimStart(s)|..]
    ensures forall i :: 0 <= i < |s| - |TrimStart(s)| ==> IsWhitespace(s[i])
  {
    if s != [] && IsWhitespace(s[0]) {
      TrimStartDropsWhitespace(s[1..]);
      forall i | 0 < i < |s| - |TrimStart(s)| ensures IsWhitespace(s[i]) {
        assert s[i] == s[1..][i - 1];
      }
    }
  }

  lemma {:induction false} TrimEndDropsWhitespace(s: string)
    ensures TrimEnd(s) == s[..|TrimEnd(s)|]
    ensures forall i :: |TrimEnd(s)| <= i < |s| ==> IsWhitespace(s[i])
  {
    if s != [] && IsWhitespace(s[|s| - 1]) {
      TrimEndDropsWhitespace(s[..|s| - 1]);
      forall i | |TrimEnd(s)| <= i < |s| - 1 ensures IsWhitespace(s[i]) {
        assert s[i] == s[..|s| - 1][i];
      }
    }
  }

  /** A string that neither starts nor ends with whitespace is its own trim. */
  lemma TrimNoop(s: string)
    requires s == [] || (!IsWhitespace(s[0]) && !IsWhitespace(s[|s| - 1]))
    ensures Trim(s) == s
  {
  }

  /** `filter { it.isDigit() }` */
  function FilterDigits(s: string): (r: string)
    ensures AllDigits(r) && |r| <= |s|
  {
    if s == [] then [] else (if IsDigit(s[0]) then [s[0]] else []) + FilterDigits(s[1..])
  }

  lemma {:induction false} FilterDigitsOfDigits(s: string)
    requires AllDigits(s)
    ensures FilterDigits(s) == s
  {
    if s != [] { FilterDigitsOfDigits(s[1..]); }
  }

  lemma {:induction false} FilterDigitsOfNonDigits(s: string)
    requires forall i :: 0 <= i < |s| ==> !IsDigit(s[i])
    ensures FilterDigits(s) == []
  {
    if s != [] { FilterDigitsOfNonDigits(s[1..]); }
  }

  lemma {:induction false} FilterDigitsAppend(a: string, b: string)
    ensures FilterDigits(a + b) == FilterDigits(a) + FilterDigits(b)
  {
    if a == [] {
      assert a + b == b;
    } else {
      assert (a + b)[1..] == a[1..] + b;
      FilterDigitsAppend(a[1..], b);
    }
  }

  function DigitValue(c: char): nat
    requires IsDigit(c)
  {
    c as int - '0' as int
  }

  function DigitChar(d: nat): (c: char)
    requires d < 10
    ensures IsDigit(c) && DigitValue(c) == d
  {
    ('0' as int + d) as char
  }

  /** The value of a string of decimal digits (empty gives 0). */
  function NatOf(s: string): nat
    requires AllDigits(s)
  {
    if s == [] then 0 else 10 * NatOf(s[..|s| - 1]) + DigitValue(s[|s| - 1])
  }

  function Pow10(k: nat): nat { if k == 0 then 1 else 10 * Pow10(k - 1) }

  lemma {:induction false} NatOfBound(s: string)
    requires AllDigits(s)
    ensures NatOf(s) < Pow10(|s|)
  {
    if s != [] { NatOfBound(s[..|s| - 1]); }
  }

  /** One or two digits read at most 99. */
  lemma NatOfShort(s: string)
    requires AllDigits(s) && |s| <= 2
    ensures NatOf(s) <= 99
  {
    NatOfBound(s);
    Pow10Mono(|s|, 2);
    assert Pow10(2) == 100;
  }

  lemma NatOfTwo(s: string)
    requires AllDigits(s) && |s| == 2
    ensures NatOf(s) == 10 * DigitValue(s[0]) + DigitValue(s[1])
  {
    var p := s[..1];
    assert p[..0] == [];
    assert NatOf(p) == DigitValue(s[0]);
  }

  lemma NatOfThree(s: string)
    requires AllDigits(s) && |s| == 3
    ensures NatOf(s) == 100 * DigitValue(s[0]) + 10 * DigitValue(s[1]) + DigitValue(s[2])
  {
    NatOfTwo(s[..2]);
  }

  /** Kotlin's `String.toIntOrNull()`: an optional sign, then at least one digit, within `Int`. */
  function ToIntOrNull(s: string): (r: Option<int>)
    ensures r.Some? ==> IntMin <= r.value <= IntMax
  {
    if |s| == 0 then None
    else if s[0] == '-' || s[0] == '+' then
      if |s| == 1 || !AllDigits(s[1..]) then None
      else
        var v: int := if s[0] == '-' then -(NatOf(s[1..]) as int) else NatOf(s[1..]);
        if IntMin <= v <= IntMax then Some(v) else None
    else if AllDigits(s) && NatOf(s) <= IntMax then Some(NatOf(s))
    else None
  }

  /** A short run of digits always converts, to its decimal value. */
  lemma ToIntOfDigits(s: string)
    requires AllDigits(s) && 1 <= |s| <= 9
    ensures ToIntOrNull(s) == Some(NatOf(s))
  {
    NatOfBound(s);
    assert Pow10(|s|) <= Pow10(9) by { Pow10Mono(|s|, 9); }
  }

  /** A minus sign before a digit string reads as the negated value, while that stays in range. */
  lemma ToIntOfNegated(t: string)
    requires AllDigits(t) && |t| >= 1 && NatOf(t) <= -IntMin
    ensures ToIntOrNull("-" + t) == Some(-(NatOf(t) as int))
  {
    assert ("-" + t)[1..] == t;
  }

  lemma ToIntOfUnsigned(t: string)
    requires AllDigits(t) && |t| >= 1 && NatOf(t) <= IntMax
    ensures ToIntOrNull(t) == Some(NatOf(t))
  {
    assert !IsDigit('-') && !IsDigit('+');
  }

  lemma {:induction false} Pow10Mono(a: nat, b: nat)
    requires a <= b
    ensures Pow10(a) <= Pow10(b)
  {
    if a < b { Pow10Mono(a, b - 1); }
  }

  /** Kotlin's `Int.toString()` for a non-negative value. */
  function NatToString(n: nat): (r: string)
    ensures AllDigits(r) && |r| >= 1
  {
    if n < 10 then [DigitChar(n)] else NatToString(n / 10) + [DigitChar(n % 10)]
  }

  /** Kotlin's `Int.toString()`. */
  function IntToString(i: int): string {
    if i < 0 then "-" + NatToString(-i) else NatToString(i)
  }

  /** The decimal form reads back as the same number and has no leading zero. */
  lemma {:induction false} NatToStringRoundTrip(n: nat)
    ensures NatOf(NatToString(n)) == n
    ensures NatToString(n)[0] == '0' ==> n == 0
  {
    if n >= 10 {
      var s := NatToString(n);
      assert s[..|s| - 1] == NatToString(n / 10);
      NatToStringRoundTrip(n / 10);
    }
  }

  /** Every `Int` reads back from its decimal form. */
  lemma IntToStringRoundTrip(n: int)
    requires IntMin <= n <= IntMax
    ensures ToIntOrNull(IntToString(n)) == Some(n)
  {
    if n < 0 {
      MinusNatToInt(-n);
    } else {
      NatToStringRoundTrip(n);
      ToIntOfUnsigned(NatToString(n));
    }
  }

  lemma MinusNatToInt(m: nat)
    requires 1 <= m <= -IntMin
    ensures ToIntOrNull("-" + NatToString(m)) == Some(-(m as int))
  {
    NatToStringRoundTrip(m);
    ToIntOfNegated(NatToString(m));
  }

  lemma {:induction false} NatToStringLength(n: nat)
    ensures n < 10 ==> |NatToString(n)| == 1
    ensures 10 <= n < 100 ==> |NatToString(n)| == 2
    ensures 100 <= n < 1000 ==> |NatToString(n)| == 3
  {
    if n >= 10 { NatToStringLength(n / 10); }
  }

  /** A digit string without a leading zero is the decimal form of its value. */
  lemma {:induction false} NatToStringOfDigits(s: string)
    requires AllDigits(s) && |s| >= 1 && (|s| > 1 ==> s[0] != '0')
    ensures NatToString(NatOf(s)) == s
  {
    if |s| > 1 {
      var p := s[..|s| - 1];
      assert p[0] == s[0];
      NatOfPositive(p);
      NatToStringOfDigits(p);
      assert NatOf(s) / 10 == NatOf(p);
      assert NatOf(s) % 10 == DigitValue(s[|s| - 1]);
      assert DigitChar(DigitValue(s[|s| - 1])) == s[|s| - 1];
    } else {
      assert DigitChar(DigitValue(s[0])) == s[0];
    }
  }

  lemma {:induction false} NatOfPositive(s: string)
    requires AllDigits(s) && |s| >= 1 && s[0] != '0'
    ensures NatOf(s) >= Pow10(|s| - 1)
  {
    if |s| > 1 {
      var p := s[..|s| - 1];
      assert p[0] == s[0];
      NatOfPositive(p);
    }
  }

  /** Kotlin's `padStart(n, c)`: prefixes `c` until the length is at least `n`. */
  function PadStart(s: string, n: nat, c: char): (r: string)
    ensures |r| == if |s| >= n then |s| else n
    ensures r[|r| - |s|..] == s
    ensures forall i :: 0 <= i < |r| - |s| ==> r[i] == c
    decreases n - |s|
  {
    if |s| >= n then s else PadStart([c] + s, n, c)
  }

  /** Left-padding with zeros does not change the value of a digit string. */
  lemma {:induction false} NatOfPadZeros(s: string, n: nat)
    requires AllDigits(s)
    ensures AllDigits(PadStart(s, n, '0')) && NatOf(PadStart(s, n, '0')) == NatOf(s)
    decreases n - |s|
  {
    if |s| < n {
      NatOfConsZero(s);
      NatOfPadZeros(['0'] + s, n);
    }
  }

  lemma {:induction false} NatOfConsZero(s: string)
    requires AllDigits(s)
    ensures AllDigits(['0'] + s) && NatOf(['0'] + s) == NatOf(s)
  {
    if s != [] {
      var t := ['0'] + s;
      assert t[..|t| - 1] == ['0'] + s[..|s| - 1];
      NatOfConsZero(s[..|s| - 1]);
    }
  }

  /** Kotlin's `split(",")` for a one-character delimiter: every piece, empty ones included. */
  function Split(s: string, sep: char): (r: seq<string>)
    ensures |r| >= 1
    ensures forall k :: 0 <= k < |r| ==> sep !in r[k]
    decreases |s|
  {
    if sep !in s then [s]
    else
      var i := IndexOf(s, sep);
      [s[..i]] + Split(s[i + 1..], sep)
  }

  function IndexOf(s: string, c: char): (i: nat)
    requires c in s
    ensures i < |s| && s[i] == c && c !in s[..i]
  {
    if s[0] == c then 0 else IndexOf(s[1..], c) + 1
  }

  /** Joining the pieces back with the delimiter gives the original string. */
  lemma {:induction false} SplitJoin(s: string, sep: char)
    ensures Join(Split(s, sep), sep) == s
    decreases |s|
  {
    if sep in s {
      var i := IndexOf(s, sep);
      var rest := Split(s[i + 1..], sep);
      var pieces := [s[..i]] + rest;
      assert Split(s, sep) == pieces;
      assert pieces[1..] == rest && pieces[0] == s[..i];
      assert Join(pieces, sep) == s[..i] + [sep] + Join(rest, sep);
      SplitJoin(s[i + 1..], sep);
      assert s == s[..i] + [sep] + s[i + 1..];
    }
  }

  function Join(pieces: seq<string>, sep: char): string
    requires |pieces| >= 1
  {
    if |pieces| == 1 then pieces[0] else pieces[0] + [sep] + Join(pieces[1..], sep)
  }
}
