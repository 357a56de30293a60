/** A clickable rectangle in bitmap pixels, with the page it leads to. */
module Models {
  import opened Wrappers

  function Min(a: int, b: int): int { if a <= b then a else b }
  function Max(a: int, b: int): int { if a >= b then a else b }

  /**
   * The corners may come in either order: `Left`/`Right`/`Top`/`Bottom`
   * normalise them, and `Contains` and `Area` use only the normalised edges.
   */
  datatype ClickArea = ClickArea(x1: int, y1: int, x2: int, y2: int, page: string, subpage: Option<string>)
  {
    function Left(): int { Min(x1, x2) }
    function Right(): int { Max(x1, x2) }
    function Top(): int { Min(y1, y2) }
    function Bottom(): int { Max(y1, y2) }

    /** Inclusive on all four edges. */
    predicate Contains(x: int, y: int) {
      x >= Left() && x <= Right() && y >= Top() && y <= Bottom()
    }

    /** Width and height, each at least 1, multiplied. */
    function Area(): (r: int)
      ensures r >= 1
      ensures r >= Right() - Left() && r >= Bottom() - Top()
    {
      var w := Max(Right() - Left(), 1);
      var h := Max(Bottom() - Top(), 1);
      w * h
    }

    /** The same rectangle with its corners ordered: top-left first, bottom-right second. */
    function Normalised(): (r: ClickArea)
      ensures r.x1 <= r.x2 && r.y1 <= r.y2
      ensures r.page == page && r.subpage == subpage
      ensures forall x, y :: r.Contains(x, y) == Contains(x, y)
    {
      ClickArea(Left(), Top(), Right(), Bottom(), page, subpage)
    }

    /** The same rectangle with the corners given the other way round along x. */
    function SwapX(): ClickArea { this.(x1 := x2, x2 := x1) }

    /** The same rectangle with the corners given the other way round along y. */
    function SwapY(): ClickArea { this.(y1 := y2, y2 := y1) }
  }

  /** The pixels `Contains` accepts are exactly the integer points of the closed rectangle spanned by the corners. */
  lemma ContainsIsClosedRectangle(a: ClickArea, x: int, y: int)
    ensures a.Contains(x, y) <==>
      ((a.x1 <= x <= a.x2 || a.x2 <= x <= a.x1) && (a.y1 <= y <= a.y2 || a.y2 <= y <= a.y1))
  {
  }

  /** Swapping the corners along either axis changes neither `Contains` nor `Area`. */
  lemma SwapInvariant(a: ClickArea, x: int, y: int)
    ensures a.SwapX().Contains(x, y) == a.Contains(x, y) && a.SwapY().Contains(x, y) == a.Contains(x, y)
    ensures a.SwapX().Area() == a.Area() && a.SwapY().Area() == a.Area()
  {
  }

  /** Both normalised corners lie inside the rectangle, and so does every point on its border. */
  lemma CornersContained(a: ClickArea)
    ensures a.Contains(a.Left(), a.Top()) && a.Contains(a.Right(), a.Bottom())
    ensures a.Contains(a.Left(), a.Bottom()) && a.Contains(a.Right(), a.Top())
    ensures a.Contains(a.x1, a.y1) && a.Contains(a.x2, a.y2)
  {
  }

  /** Normalising keeps ordered corners as they are and forgets only their order. */
  lemma NormalisedSpec(a: ClickArea)
    ensures a.x1 <= a.x2 && a.y1 <= a.y2 ==> a.Normalised() == a
    ensures a.SwapX().Normalised() == a.Normalised() && a.SwapY().Normalised() == a.Normalised()
    ensures a.Normalised().Normalised() == a.Normalised()
  {
  }

  /** The area is the product of the clamped edge lengths of the normalised rectangle. */
  lemma AreaOfNormalised(a: ClickArea)
    ensures a.Area() == Max(1, a.Right() - a.Left()) * Max(1, a.Bottom() - a.Top())
    ensures a.x1 <= a.x2 && a.y1 <= a.y2 ==> a.Area() == Max(1, a.x2 - a.x1) * Max(1, a.y2 - a.y1)
  {
  }
}
