/**
 * The page image's input handling: cleaning the page of a clickable area,
 * choosing the area under a tap, and telling a page swipe from a subpage
 * swipe at the end of a drag.
 */
module Components {
  import opened Wrappers
  import opened Text
  import opened PageSyntax
  import opened Models

  // ---------------------------------------------------------------------
  // sanitizePage: the first `[1-8]\d{2}` anywhere in the string
  // ---------------------------------------------------------------------

  /** `[1-8]\d{2}` matches at position `i`. */
  predicate PageAt(s: string, i: int) {
    0 <= i && i + 3 <= |s| && '1' <= s[i] <= '8' && IsDigit(s[i + 1]) && IsDigit(s[i + 2])
  }

  /** Where `find` first matches `[1-8]\d{2}`, searching from `i`. */
  function FirstPageFrom(s: string, i: nat): (r: Option<nat>)
    requires i <= |s|
    ensures r.Some? ==> i <= r.value && PageAt(s, r.value)
    ensures forall j :: i <= j && (r.None? || j < r.value) ==> !PageAt(s, j)
    decreases |s| - i
  {
    if i + 3 > |s| then None
    else if PageAt(s, i) then Some(i)
    else FirstPageFrom(s, i + 1)
  }

  /** `sanitizePage`: nothing for a missing or blank string, else the first page-like substring, if any. */
  function SanitizePage(raw: Option<string>): Option<string> {
    if raw.None? || IsBlank(raw.value) then None
    else
      match FirstPageFrom(raw.value, 0)
      case None => None
      case Some(i) => Some(raw.value[i..i + 3])
  }

  /**
   * A result exists exactly when some substring matches `[1-8]\d{2}`; it is
   * the leftmost such substring, so it is a page string in 100..899.
   */
  lemma SanitizePageSpec(s: string)
    ensures var r := SanitizePage(Some(s));
      && (r.Some? <==> exists i :: PageAt(s, i))
      && (r.Some? ==> IsPageString(r.value))
      && (r.Some? ==> exists i :: PageAt(s, i) && r.value == s[i..i + 3] &&
                                 forall j :: 0 <= j < i ==> !PageAt(s, j))
  {
    var f := FirstPageFrom(s, 0);
    if f.Some? {
      var i := f.value;
      assert !IsWhitespace(s[i]);
      var p := s[i..i + 3];
      assert p[0] == s[i] && p[1] == s[i + 1] && p[2] == s[i + 2];
    }
  }

  /** A missing or blank string gives nothing. */
  lemma SanitizePageBlank(raw: Option<string>)
    requires raw.None? || IsBlank(raw.value)
    ensures SanitizePage(raw).None?
  {
  }

  /** A page string is kept as it is, so cleaning twice is cleaning once. */
  lemma SanitizePageIdempotent(s: string)
    ensures SanitizePage(SanitizePage(Some(s))) == SanitizePage(Some(s))
  {
    SanitizePageSpec(s);
    if SanitizePage(Some(s)).Some? {
      SanitizePageOfPage(SanitizePage(Some(s)).value);
    }
  }

  lemma SanitizePageOfPage(p: string)
    requires IsPageString(p)
    ensures SanitizePage(Some(p)) == Some(p)
  {
    assert PageAt(p, 0);
    assert !IsWhitespace(p[0]);
    assert p[0..3] == p;
  }

  /** No word boundaries: the first three of four digits are taken, as in `"1234"` giving `"123"`. */
  lemma SanitizePageTakesPrefix(s: string)
    requires |s| >= 3 && IsPageString(s[..3])
    ensures SanitizePage(Some(s)) == Some(s[..3])
  {
    assert PageAt(s, 0);
    assert !IsWhitespace(s[0]);
  }

  // ---------------------------------------------------------------------
  // The tap: clamped pixel, hits, the smallest hit, the delivered area
  // ---------------------------------------------------------------------

  /** `roundToInt().coerceIn(0, size - 1)` after the rounding; `size` is the bitmap's width or height. */
  function ClampPixel(v: int, size: int): (r: int)
    requires size >= 1
    ensures 0 <= r < size
    ensures 0 <= v < size ==> r == v
    ensures v < 0 ==> r == 0
    ensures v >= size ==> r == size - 1
  {
    if v < 0 then 0 else if v > size - 1 then size - 1 else v
  }

  /** `filter { it.contains(px, py) }` */
  function Hits(areas: seq<ClickArea>, px: int, py: int): (r: seq<ClickArea>)
    ensures |r| <= |areas|
  {
    if areas == [] then []
    else (if areas[0].Contains(px, py) then [areas[0]] else []) + Hits(areas[1..], px, py)
  }

  /** The hits are exactly the areas containing the point, in their original order. */
  lemma {:induction false} HitsSpec(areas: seq<ClickArea>, px: int, py: int)
    ensures forall a :: a in Hits(areas, px, py) <==> a in areas && a.Contains(px, py)
    ensures forall k :: 0 <= k < |Hits(areas, px, py)| ==> Hits(areas, px, py)[k].Contains(px, py)
  {
    if areas != [] {
      HitsSpec(areas[1..], px, py);
      assert areas == [areas[0]] + areas[1..];
    }
  }

  /** Filtering distributes over concatenation, so the hits keep the areas' order. */
  lemma {:induction false} HitsAppend(a: seq<ClickArea>, b: seq<ClickArea>, px: int, py: int)
    ensures Hits(a + b, px, py) == Hits(a, px, py) + Hits(b, px, py)
  {
    if a != [] {
      assert (a + b)[0] == a[0];
      assert (a + b)[1..] == a[1..] + b;
      HitsAppend(a[1..], b, px, py);
    } else {
      assert a + b == b;
    }
  }

  /** The score the tap handler minimises: unnormalised width and height, each at least 1. */
  function HitScore(a: ClickArea): int {
    Max(a.x2 - a.x1, 1) * Max(a.y2 - a.y1, 1)
  }

  /**
   * The score ignores `ClickArea.area`'s normalisation of the corners, but
   * on areas stored with their corners in order (as the image map's are)
   * it is that area, so the tap then picks a hit of least area.
   */
  lemma HitScoreIsArea(a: ClickArea)
    requires a.x1 <= a.x2 && a.y1 <= a.y2
    ensures HitScore(a) == a.Area()
  {
    AreaOfNormalised(a);
  }

  /** With the corners swapped the score can drop to a single row or column: a wide area may outrank a small one. */
  lemma HitScoreOfSwappedCorners(a: ClickArea)
    requires a.x2 < a.x1 && a.y1 <= a.y2
    ensures HitScore(a) == Max(a.y2 - a.y1, 1)
  {
  }

  /**
   * The position `minByOrNull` settles on: walking left to right, the
   * candidate is replaced only by a strictly smaller score, so it is the
   * first position with the least score.
   */
  function FirstMinIndex<T>(s: seq<T>, f: T -> int): (i: nat)
    requires |s| > 0
    ensures i < |s|
    ensures forall j :: 0 <= j < |s| ==> f(s[i]) <= f(s[j])
    ensures forall j :: 0 <= j < i ==> f(s[j]) > f(s[i])
  {
    if |s| == 1 then 0
    else
      var k := FirstMinIndex(s[..|s| - 1], f);
      assert forall j :: 0 <= j < |s| - 1 ==> s[..|s| - 1][j] == s[j];
      if f(s[|s| - 1]) < f(s[k]) then |s| - 1 else k
  }

  /** `minByOrNull(f)` */
  function MinByOrNull<T>(s: seq<T>, f: T -> int): Option<T> {
    if |s| == 0 then None else Some(s[FirstMinIndex(s, f)])
  }

  /** The area a tap at `(px, py)` selects, if any: the first hit of least score. */
  function TapHit(areas: seq<ClickArea>, px: int, py: int): Option<ClickArea> {
    MinByOrNull(Hits(areas, px, py), HitScore)
  }

  /**
   * A hit is chosen exactly when some area contains the point; it contains
   * the point, no other hit scores less, and every earlier hit scores more.
   */
  lemma TapHitSpec(areas: seq<ClickArea>, px: int, py: int)
    ensures var r := TapHit(areas, px, py);
      && (r.None? <==> forall a :: a in areas ==> !a.Contains(px, py))
      && (r.Some? ==> r.value in areas && r.value.Contains(px, py))
      && (r.Some? ==> forall a :: a in areas && a.Contains(px, py) ==> HitScore(r.value) <= HitScore(a))
      && (r.Some? ==> FirstOfLeast(Hits(areas, px, py), r.value, HitScore))
  {
    var hits := Hits(areas, px, py);
    HitsSpec(areas, px, py);
    MinByOrNullSpec(hits, HitScore);
    if hits == [] {
      forall a | a in areas ensures !a.Contains(px, py) {
        assert a !in hits;
      }
    }
  }

  /** `x` occurs in `s` at a position before which every element scores more than `x`. */
  ghost predicate FirstOfLeast<T>(s: seq<T>, x: T, f: T -> int) {
    exists i :: 0 <= i < |s| && s[i] == x && forall j :: 0 <= j < i ==> f(s[j]) > f(x)
  }

  /** `minByOrNull` gives nothing only for no elements, else an element of least score before which every element scores more. */
  lemma MinByOrNullSpec<T>(s: seq<T>, f: T -> int)
    ensures var r := MinByOrNull(s, f);
      && (r.None? <==> s == [])
      && (r.Some? ==> r.value in s)
      && (r.Some? ==> forall a :: a in s ==> f(r.value) <= f(a))
      && (r.Some? ==> FirstOfLeast(s, r.value, f))
  {
    if s != [] {
      var i := FirstMinIndex(s, f);
      forall a | a in s ensures f(s[i]) <= f(a) {
        var j :| 0 <= j < |s| && s[j] == a;
      }
    }
  }

  /**
   * `onTapArea` fires only for a hit whose page cleans to a page string,
   * and delivers that hit with the cleaned page.
   */
  function TapTarget(areas: seq<ClickArea>, px: int, py: int): Option<ClickArea> {
    match TapHit(areas, px, py)
    case None => None
    case Some(hit) =>
      match SanitizePage(Some(hit.page))
      case None => None
      case Some(clean) => Some(hit.(page := clean))
  }

  lemma TapTargetSpec(areas: seq<ClickArea>, px: int, py: int)
    ensures var r := TapTarget(areas, px, py);
      var h := TapHit(areas, px, py);
      && (r.Some? <==> h.Some? && SanitizePage(Some(h.value.page)).Some?)
      && (r.Some? ==>
            && IsPageString(r.value.page)
            && r.value.page == SanitizePage(Some(h.value.page)).value
            && r.value.(page := h.value.page) == h.value
            && r.value.Contains(px, py))
  {
    TapHitSpec(areas, px, py);
    var h := TapHit(areas, px, py);
    if h.Some? { SanitizePageSpec(h.value.page); }
  }

  // ---------------------------------------------------------------------
  // Swipes
  // ---------------------------------------------------------------------

  /** What the end of a drag asks for. */
  datatype Swipe = NoSwipe | PageSwipe(delta: int) | SubSwipe(delta: int)

  const SwipeThresholdPx: real := 90.0

  function Abs(r: real): real { if r < 0.0 then -r else r }

  /**
   * `onDragEnd`: below the threshold on both axes nothing happens; a drag
   * mostly along x is a page swipe, anything else (ties included) a subpage
   * swipe; dragging towards negative coordinates moves forward.
   */
  function ClassifyDrag(totalX: real, totalY: real): Swipe {
    var ax := Abs(totalX);
    var ay := Abs(totalY);
    if (if ax >= ay then ax else ay) < SwipeThresholdPx then NoSwipe
    else if ax > ay then PageSwipe(if totalX < 0.0 then 1 else -1)
    else SubSwipe(if totalY < 0.0 then 1 else -1)
  }

  /** The decision rule in full, and that every swipe moves by exactly one. */
  lemma ClassifyDragSpec(totalX: real, totalY: real)
    ensures var r := ClassifyDrag(totalX, totalY);
      && (r.NoSwipe? <==> Abs(totalX) < SwipeThresholdPx && Abs(totalY) < SwipeThresholdPx)
      && (r.PageSwipe? <==> Abs(totalX) >= SwipeThresholdPx && Abs(totalX) > Abs(totalY))
      && (r.SubSwipe? <==> Abs(totalY) >= SwipeThresholdPx && Abs(totalY) >= Abs(totalX))
      && (r.PageSwipe? ==> (r.delta == 1 <==> totalX < 0.0) && (r.delta == 1 || r.delta == -1))
      && (r.SubSwipe? ==> (r.delta == 1 <==> totalY < 0.0) && (r.delta == 1 || r.delta == -1))
  {
  }

  /** The mirrored drag swipes the other way along the same axis (unless its total on that axis is 0). */
  lemma ClassifyDragMirror(totalX: real, totalY: real)
    ensures var r := ClassifyDrag(totalX, totalY);
      var m := ClassifyDrag(-totalX, -totalY);
      && (r.NoSwipe? <==> m.NoSwipe?)
      && (r.PageSwipe? ==> totalX != 0.0 && m == PageSwipe(-r.delta))
      && (r.SubSwipe? && totalY != 0.0 ==> m == SubSwipe(-r.delta))
  {
  }

  /** The drag totals of the gesture detector, reset at the start and summed while dragging. */
  class DragTracker {
    var totalX: real
    var totalY: real

    constructor ()
      ensures totalX == 0.0 && totalY == 0.0
    {
      totalX := 0.0;
      totalY := 0.0;
    }

    method OnDragStart()
      modifies this
      ensures totalX == 0.0 && totalY == 0.0
    {
      totalX := 0.0;
      totalY := 0.0;
    }

    method OnDrag(dx: real, dy: real)
      modifies this
      ensures totalX == old(totalX) + dx && totalY == old(totalY) + dy
    {
      totalX := totalX + dx;
      totalY := totalY + dy;
    }

    /** `onDragEnd`: the swipe the accumulated totals call for. */
    method OnDragEnd() returns (s: Swipe)
      ensures s == ClassifyDrag(totalX, totalY)
    {
      s := ClassifyDrag(totalX, totalY);
    }
  }
}
