/**
 * The app's navigation state: the page and subpage on screen, the undo
 * history of keys, the flag that keeps an undo from being recorded, and the
 * bookmark list, with the events that change them.
 */
module App {
  import opened Wrappers
  import opened Text
  import opened PageSyntax
  import opened Navigation
  import opened Bookmarks

  /** The history keeps at most this many keys; the oldest goes first. */
  const HistoryCap: nat := 80

  /** `history.add(key)` followed by `removeAt(0)` once the list is longer than the cap. */
  function Pushed(h: seq<string>, key: string): seq<string> {
    var h' := h + [key];
    if |h'| > HistoryCap then h'[1..] else h'
  }

  /** A push keeps the history within the cap, puts the key on top and drops only the oldest entry. */
  lemma PushedSpec(h: seq<string>, key: string)
    requires |h| <= HistoryCap
    ensures var r := Pushed(h, key);
      && |r| <= HistoryCap && r != [] && r[|r| - 1] == key
      && (|h| < HistoryCap ==> r == h + [key])
      && (|h| == HistoryCap ==> r == h[1..] + [key])
  {
    if |h| == HistoryCap { assert (h + [key])[1..] == h[1..] + [key]; }
  }

  /** What `load` does to the history: push the previous key unless undoing, not asked to, or not moving. */
  function HistoryAfterLoad(h: seq<string>, undoing: bool, push: bool, prevKey: string, newKey: string): seq<string> {
    if !undoing && push && newKey != prevKey then Pushed(h, prevKey) else h
  }

  /**
   * A load that moves from key `prev` to another key records `prev` on top,
   * so the next undo pops exactly `prev` and leaves the earlier history (less
   * its oldest entry, when the cap was reached).
   */
  lemma {:induction false} UndoAfterLoadRestores(h: seq<string>, prev: string, next: string)
    requires |h| <= HistoryCap && prev != next
    ensures var h' := HistoryAfterLoad(h, false, true, prev, next);
      && h' != [] && h'[|h'| - 1] == prev
      && h'[..|h'| - 1] == (if |h| < HistoryCap then h else h[1..])
  {
    PushedSpec(h, prev);
    var h' := Pushed(h, prev);
    if |h| < HistoryCap {
      assert (h + [prev])[..|h|] == h;
    } else {
      assert (h[1..] + [prev])[..|h| - 1] == h[1..];
    }
  }

  /** A key as `keyFor` writes it for a valid page and subpage: `PPP`, or `PPP-SS` with `SS` other than 01. */
  predicate IsCanonicalKey(k: string) {
    || IsPageString(k)
    || (|k| == 6 && IsPageString(k[..3]) && k[3] == '-' && IsSubString(k[4..]) && k[4..] != "01")
  }

  /** The page and subpage a canonical key names. */
  function KeyParts(k: string): (string, string)
    requires IsCanonicalKey(k)
  {
    if |k| == 3 then (k, "01") else (k[..3], k[4..])
  }

  /** `keyFor` writes canonical keys, and a canonical key is the `keyFor` of its parts. */
  lemma KeyIsCanonical(p: string, s: string)
    requires IsPageString(p) && IsSubString(s)
    ensures IsCanonicalKey(KeyFor(p, s)) && KeyParts(KeyFor(p, s)) == (p, s)
  {
    if s != "01" {
      var k := KeyFor(p, s);
      assert k[..3] == p && k[4..] == s;
    }
  }

  /** The parts of a canonical key are a valid page and subpage, which `keyFor` turns back into the key. */
  lemma KeyPartsSpec(k: string)
    requires IsCanonicalKey(k)
    ensures IsPageString(KeyParts(k).0) && IsSubString(KeyParts(k).1)
    ensures KeyFor(KeyParts(k).0, KeyParts(k).1) == k
  {
    if |k| == 3 {
      DefaultSub();
    } else {
      assert k == k[..3] + "-" + k[4..];
    }
  }

  /** A canonical key parses back to its parts. */
  lemma CanonicalKeyParses(k: string)
    requires IsCanonicalKey(k)
    ensures ParsePageAndSub(k) == Some(KeyParts(k))
  {
    KeyPartsSpec(k);
    KeyForRoundTrip(KeyParts(k).0, KeyParts(k).1);
  }

  /** A page string is determined by its value. */
  lemma PageStringInjective(a: string, b: string)
    requires IsPageString(a) && IsPageString(b) && NatOf(a) == NatOf(b)
    ensures a == b
  {
    PageStringIsPad3(a);
    PageStringIsPad3(b);
  }

  /** `coerceAtLeast` */
  function CoerceAtLeast(v: int, lo: int): (r: int)
    ensures r >= lo && (v >= lo ==> r == v)
  {
    if v < lo then lo else v
  }

  class Navigator {
    var currentPage: string
    var currentSubpage: string
    var history: seq<string>
    var isUndoing: bool
    var bookmarks: seq<int>

    /**
     * The page is three digits in 100..899 and the subpage two digits in
     * 01..99; the history is within its cap and holds only keys `keyFor`
     * produced; the bookmarks are distinct `Int`s in ascending order.
     */
    predicate Valid()
      reads this
    {
      && IsPageString(currentPage) && IsSubString(currentSubpage)
      && |history| <= HistoryCap
      && (forall i :: 0 <= i < |history| ==> IsCanonicalKey(history[i]))
      && StrictlySorted(bookmarks)
      && (forall i :: 0 <= i < |bookmarks| ==> IntMin <= bookmarks[i] <= IntMax)
    }

    /** The key of the page on screen. */
    function Key(): string
      reads this
    {
      KeyFor(currentPage, currentSubpage)
    }

    constructor ()
      ensures Valid()
      ensures currentPage == "100" && currentSubpage == "01"
      ensures history == [] && !isUndoing && bookmarks == []
    {
      currentPage := "100";
      currentSubpage := "01";
      history := [];
      isUndoing := false;
      bookmarks := [];
      DefaultSub();
    }

    /**
     * `load`: an input that does not parse changes nothing; otherwise the
     * parsed page and subpage go on screen as `Show` describes.
     */
    method Load(input: string, pushToHistory: bool)
      requires Valid()
      modifies this
      ensures Valid()
      ensures bookmarks == old(bookmarks)
      ensures ParsePageAndSub(input).None? ==>
        && currentPage == old(currentPage) && currentSubpage == old(currentSubpage)
        && history == old(history) && isUndoing == old(isUndoing)
      ensures ParsePageAndSub(input).Some? ==>
        && (currentPage, currentSubpage) == ParsePageAndSub(input).value
        && !isUndoing
        && history == HistoryAfterLoad(old(history), old(isUndoing), pushToHistory, old(Key()), Key())
    {
      var parsed := ParsePageAndSub(input);
      if parsed.None? {
        return;
      }
      ParsePageAndSubValid(input);
      Show(parsed.value.0, parsed.value.1, pushToHistory);
    }

    /** `load` of a key `keyFor` wrote, as `undo` and the swipes do: it always parses. */
    method LoadKey(k: string, pushToHistory: bool)
      requires Valid() && IsCanonicalKey(k)
      modifies this
      ensures Valid()
      ensures bookmarks == old(bookmarks)
      ensures (currentPage, currentSubpage) == KeyParts(k) && Key() == k && !isUndoing
      ensures history == HistoryAfterLoad(old(history), old(isUndoing), pushToHistory, old(Key()), k)
    {
      KeyPartsSpec(k);
      CanonicalKeyParses(k);
      Load(k, pushToHistory);
    }

    /** `load("${fmtPage(pageInt)}-${fmtSub(n)}")`, as the subpage swipe does. */
    method LoadPageSub(pageInt: int, n: int, pushToHistory: bool)
      requires Valid() && FirstPage <= pageInt <= LastPage && 1 <= n <= 99
      modifies this
      ensures Valid()
      ensures bookmarks == old(bookmarks)
      ensures NatOf(currentPage) == pageInt && NatOf(currentSubpage) == n && !isUndoing
      ensures history == HistoryAfterLoad(old(history), old(isUndoing), pushToHistory, old(Key()), Key())
    {
      Pad3IsPageString(pageInt);
      FormattedSubParses(Pad3(pageInt), n);
      Pad2IsSubString(n);
      Load(Pad3(pageInt) + "-" + Pad2(n), pushToHistory);
    }

    /**
     * The part of `load` after parsing: the previous key is pushed when not
     * undoing, asked to and actually moving; the page and subpage go on
     * screen and the undo flag is cleared.
     */
    method Show(page: string, sub: string, pushToHistory: bool)
      requires Valid() && IsPageString(page) && IsSubString(sub)
      modifies this
      ensures Valid()
      ensures bookmarks == old(bookmarks)
      ensures currentPage == page && currentSubpage == sub && !isUndoing
      ensures history == HistoryAfterLoad(old(history), old(isUndoing), pushToHistory, old(Key()), Key())
    {
      var newKey := KeyFor(page, sub);
      var prevKey := KeyFor(currentPage, currentSubpage);
      if !isUndoing && pushToHistory && newKey != prevKey {
        KeyIsCanonical(currentPage, currentSubpage);
        PushedSpec(history, prevKey);
        history := history + [prevKey];
        if |history| > HistoryCap {
          history := history[1..];
        }
      }
      currentPage := page;
      currentSubpage := sub;
      isUndoing := false;
    }

    /**
     * `undo`: with an empty history nothing happens; otherwise the newest
     * key is popped and loaded without being recorded, so the screen shows
     * exactly that key and the rest of the history stays as it was.
     */
    method Undo()
      requires Valid()
      modifies this
      ensures Valid()
      ensures bookmarks == old(bookmarks)
      ensures old(history) == [] ==>
        && currentPage == old(currentPage) && currentSubpage == old(currentSubpage)
        && history == [] && isUndoing == old(isUndoing)
      ensures old(history) != [] ==>
        && history == old(history)[..|old(history)| - 1]
        && Key() == old(history)[|old(history)| - 1]
        && !isUndoing
    {
      if history == [] {
        return;
      }
      var prev := history[|history| - 1];
      history := history[..|history| - 1];
      isUndoing := true;
      LoadKey(prev, false);
    }

    /**
     * A horizontal swipe on the page: one page forward or back, cyclically
     * over 100..899, always on subpage 01, recorded in the history.
     */
    method SwipePage(delta: int)
      requires Valid()
      modifies this
      ensures Valid()
      ensures bookmarks == old(bookmarks)
      ensures NatOf(currentPage) == PageAfterSwipe(NatOf(old(currentPage)), delta)
      ensures currentSubpage == "01" && !isUndoing
      ensures history == HistoryAfterLoad(old(history), old(isUndoing), true, old(Key()), Key())
    {
      PageStringToInt(currentPage);
      var pageInt := ToIntOrNull(currentPage).value;
      var cur := CoerceIn(pageInt, FirstPage, LastPage);
      var next := PageAfterSwipe(cur, delta);
      PageStepsInverse(cur);
      Pad3IsPageString(next);
      FormattedPageParses(next);
      Load(Pad3(next), true);
    }

    /**
     * A vertical swipe: on a page with a single subpage nothing happens;
     * otherwise one subpage forward or back, cyclically over
     * 1..maxSubpagesFor(page), starting from the current subpage clamped into
     * that range, recorded in the history.
     */
    method SwipeSub(delta: int)
      requires Valid()
      modifies this
      ensures Valid()
      ensures bookmarks == old(bookmarks)
      ensures MaxSubpagesFor(NatOf(old(currentPage))) == 1 ==>
        && currentPage == old(currentPage) && currentSubpage == old(currentSubpage)
        && history == old(history) && isUndoing == old(isUndoing)
      ensures MaxSubpagesFor(NatOf(old(currentPage))) > 1 ==>
        var maxSub := MaxSubpagesFor(NatOf(old(currentPage)));
        && currentPage == old(currentPage) && !isUndoing
        && NatOf(currentSubpage) ==
             SubAfterSwipe(CoerceIn(NatOf(old(currentSubpage)), 1, maxSub), maxSub, delta)
        && history == HistoryAfterLoad(old(history), old(isUndoing), true, old(Key()), Key())
    {
      PageStringToInt(currentPage);
      var pageInt := ToIntOrNull(currentPage).value;
      var maxSub := CoerceAtLeast(MaxSubpagesFor(pageInt), 1);
      if maxSub == 1 {
        return;
      }
      ToIntOfDigits(currentSubpage);
      var subInt := ToIntOrNull(currentSubpage).value;
      var curSub := CoerceIn(subInt, 1, maxSub);
      var nextSub := SubAfterSwipe(curSub, maxSub, delta);
      SubStepsInverse(curSub, maxSub);
      ghost var oldPage := currentPage;
      LoadPageSub(pageInt, nextSub, true);
      PageStringInjective(currentPage, oldPage);
    }

    /**
     * `onAddBookmark`: a string that is not an `Int`, or a number already
     * bookmarked, changes nothing; otherwise the number joins the list,
     * which stays ascending, and the list is to be persisted.
     */
    method AddBookmark(pageStr: string) returns (persist: bool)
      requires Valid()
      modifies this
      ensures Valid()
      ensures currentPage == old(currentPage) && currentSubpage == old(currentSubpage)
      ensures history == old(history) && isUndoing == old(isUndoing)
      ensures persist <==> ToIntOrNull(pageStr).Some? && ToIntOrNull(pageStr).value !in old(bookmarks)
      ensures persist ==> multiset(bookmarks) == multiset(old(bookmarks)) + multiset{ToIntOrNull(pageStr).value}
      ensures !persist ==> bookmarks == old(bookmarks)
    {
      var n := ToIntOrNull(pageStr);
      if n.None? {
        return false;
      }
      if n.value in bookmarks {
        return false;
      }
      var old_ := bookmarks;
      assert Sorted(old_);
      AddThenSort(old_, n.value);
      InsertSpec(n.value, old_);
      InsertStrict(n.value, old_);
      bookmarks := bookmarks + [n.value];
      bookmarks := Sort(bookmarks);
      persist := true;
      forall i | 0 <= i < |bookmarks| ensures IntMin <= bookmarks[i] <= IntMax {
        assert bookmarks[i] in bookmarks;
      }
    }

    /**
     * `onRemoveBookmark`: `remove(n)` takes the number out of the list, and
     * the list is to be persisted exactly when it was there.
     */
    method RemoveBookmark(n: int) returns (persist: bool)
      requires Valid()
      modifies this
      ensures Valid()
      ensures currentPage == old(currentPage) && currentSubpage == old(currentSubpage)
      ensures history == old(history) && isUndoing == old(isUndoing)
      ensures persist <==> n in old(bookmarks)
      ensures forall z :: z in bookmarks <==> z in old(bookmarks) && z != n
      ensures persist ==> multiset(bookmarks) == multiset(old(bookmarks)) - multiset{n}
      ensures !persist ==> bookmarks == old(bookmarks)
    {
      persist := n in bookmarks;
      RemoveFirstSpec(bookmarks, n);
      RemoveFirstStrict(bookmarks, n);
      var old_ := bookmarks;
      bookmarks := RemoveFirst(bookmarks, n);
      forall i | 0 <= i < |bookmarks| ensures IntMin <= bookmarks[i] <= IntMax {
        assert bookmarks[i] in bookmarks;
        assert bookmarks[i] in old_;
        var j :| 0 <= j < |old_| && old_[j] == bookmarks[i];
      }
    }

    /** The startup read of the saved bookmark strings, in the order the saved set yields them. */
    method LoadBookmarks(saved: seq<string>)
      requires Valid()
      modifies this
      ensures Valid()
      ensures currentPage == old(currentPage) && currentSubpage == old(currentSubpage)
      ensures history == old(history) && isUndoing == old(isUndoing)
      ensures bookmarks == StartupBookmarks(saved)
    {
      StartupBookmarksSpec(saved);
      bookmarks := StartupBookmarks(saved);
      forall i | 0 <= i < |bookmarks| ensures IntMin <= bookmarks[i] <= IntMax {
        assert bookmarks[i] in bookmarks;
        var j :| 0 <= j < |saved| && ToIntOrNull(saved[j]) == Some(bookmarks[i]);
      }
    }

    /** What `persistBookmarks` writes: the set of the bookmarks' decimal forms. */
    function SavedBookmarks(): (r: set<string>)
      reads this
      ensures forall s :: s in r <==> s in Persisted(bookmarks)
    {
      var p := Persisted(bookmarks);
      assert forall s :: s in p <==> exists i :: 0 <= i < |bookmarks| && s == IntToString(bookmarks[i]) by {
        forall s ensures s in p <==> exists i :: 0 <= i < |bookmarks| && s == IntToString(bookmarks[i]) {
          if s in p {
            var i :| 0 <= i < |p| && p[i] == s;
          }
          if exists i :: 0 <= i < |bookmarks| && s == IntToString(bookmarks[i]) {
            var i :| 0 <= i < |bookmarks| && s == IntToString(bookmarks[i]);
            assert p[i] == s;
          }
        }
      }
      set i | 0 <= i < |bookmarks| :: IntToString(bookmarks[i])
    }

    /**
     * Saving and restarting keeps the bookmarks: whatever order the saved
     * set is read back in, the startup list is the list that was saved.
     */
    lemma SavedBookmarksReload(saved: seq<string>)
      requires Valid()
      requires forall s :: s in saved <==> s in SavedBookmarks()
      ensures StartupBookmarks(saved) == bookmarks
    {
      PersistRoundTrip(bookmarks, saved);
    }

    /** The first load at startup: page 101, not recorded in the history. */
    method Start()
      requires Valid()
      modifies this
      ensures Valid()
      ensures currentPage == "101" && currentSubpage == "01" && !isUndoing
      ensures history == old(history) && bookmarks == old(bookmarks)
    {
      BarePageParses("101");
      Load("101", false);
    }
  }
}
