/**
 * The bookmark list: distinct page numbers kept in ascending order, added
 * with `add` + `sort()`, removed with `remove(element)`, read at startup
 * from the saved string set and written back as decimal strings.
 */
module Bookmarks {
  import opened Wrappers
  import opened Text
  import Distinct

  predicate Sorted(xs: seq<int>) {
    forall i, j :: 0 <= i < j < |xs| ==> xs[i] <= xs[j]
  }

  predicate StrictlySorted(xs: seq<int>) {
    forall i, j :: 0 <= i < j < |xs| ==> xs[i] < xs[j]
  }

  predicate NoDuplicates(xs: seq<int>) {
    forall i, j :: 0 <= i < j < |xs| ==> xs[i] != xs[j]
  }

  /** A head no larger than a sorted tail gives a sorted list. */
  lemma ConsSorted(h: int, t: seq<int>)
    requires Sorted(t) && forall k :: 0 <= k < |t| ==> h <= t[k]
    ensures Sorted([h] + t)
  {
    var r := [h] + t;
    forall i, j | 0 <= i < j < |r| ensures r[i] <= r[j] {
      assert r[j] == t[j - 1];
      if i > 0 { assert r[i] == t[i - 1]; }
    }
  }

  /** The strict form of `ConsSorted`. */
  lemma ConsStrict(h: int, t: seq<int>)
    requires StrictlySorted(t) && forall k :: 0 <= k < |t| ==> h < t[k]
    ensures StrictlySorted([h] + t)
  {
    var r := [h] + t;
    forall i, j | 0 <= i < j < |r| ensures r[i] < r[j] {
      assert r[j] == t[j - 1];
      if i > 0 { assert r[i] == t[i - 1]; }
    }
  }

  /** Every element after the head of a sorted list is at least the head. */
  lemma HeadIsLeast(ys: seq<int>, z: int)
    requires Sorted(ys) && ys != [] && z in ys[1..]
    ensures ys[0] <= z
  {
    var j :| 0 <= j < |ys[1..]| && ys[1..][j] == z;
    assert ys[j + 1] == z;
  }

  /** Inserting into a sorted list in front of the first element not smaller. */
  function Insert(x: int, ys: seq<int>): (r: seq<int>)
    ensures |r| == |ys| + 1
  {
    if ys == [] then [x]
    else if x <= ys[0] then [x] + ys
    else [ys[0]] + Insert(x, ys[1..])
  }

  /** Insertion keeps a list sorted, adds exactly one copy of the element and nothing else. */
  lemma InsertSpec(x: int, ys: seq<int>)
    requires Sorted(ys)
    ensures Sorted(Insert(x, ys))
    ensures multiset(Insert(x, ys)) == multiset(ys) + multiset{x}
    ensures forall z :: z in Insert(x, ys) <==> z == x || z in ys
  {
    InsertMultiset(x, ys);
    InsertMembers(x, ys);
    InsertSorted(x, ys);
  }

  lemma {:induction false} InsertMultiset(x: int, ys: seq<int>)
    ensures multiset(Insert(x, ys)) == multiset(ys) + multiset{x}
  {
    if ys != [] && x > ys[0] {
      InsertMultiset(x, ys[1..]);
      assert ys == [ys[0]] + ys[1..];
    }
  }

  lemma InsertMembers(x: int, ys: seq<int>)
    ensures forall z :: z in Insert(x, ys) <==> z == x || z in ys
  {
    InsertMultiset(x, ys);
    forall z ensures z in Insert(x, ys) <==> z == x || z in ys {
      assert z in Insert(x, ys) <==> z in multiset(Insert(x, ys));
      assert z in ys <==> z in multiset(ys);
    }
  }

  lemma {:induction false} InsertSorted(x: int, ys: seq<int>)
    requires Sorted(ys)
    ensures Sorted(Insert(x, ys))
  {
    if ys == [] {
    } else if x <= ys[0] {
      ConsSorted(x, ys);
    } else {
      assert Sorted(ys[1..]);
      InsertSorted(x, ys[1..]);
      InsertMembers(x, ys[1..]);
      var rest := Insert(x, ys[1..]);
      forall k | 0 <= k < |rest| ensures ys[0] <= rest[k] {
        assert rest[k] in rest;
        if rest[k] != x { HeadIsLeast(ys, rest[k]); }
      }
      ConsSorted(ys[0], rest);
    }
  }

  /** `sort()`: insertion sort, one element from the back at a time. */
  function Sort(xs: seq<int>): (r: seq<int>)
    ensures |r| == |xs|
  {
    if xs == [] then [] else Insert(xs[|xs| - 1], Sort(xs[..|xs| - 1]))
  }

  /** Sorting gives a sorted permutation. */
  lemma {:induction false} SortSpec(xs: seq<int>)
    ensures Sorted(Sort(xs))
    ensures multiset(Sort(xs)) == multiset(xs)
    ensures forall z :: z in Sort(xs) <==> z in xs
  {
    if xs != [] {
      var init := xs[..|xs| - 1];
      SortSpec(init);
      InsertSpec(xs[|xs| - 1], Sort(init));
      assert xs == init + [xs[|xs| - 1]];
    }
  }

  /** Inserting a new element into a strictly sorted list keeps it strictly sorted. */
  lemma {:induction false} InsertStrict(x: int, ys: seq<int>)
    requires StrictlySorted(ys) && x !in ys
    ensures StrictlySorted(Insert(x, ys))
  {
    if ys != [] {
      if x < ys[0] {
        ConsStrict(x, ys);
      } else {
        assert x != ys[0];
        assert StrictlySorted(ys[1..]) && x !in ys[1..];
        InsertStrict(x, ys[1..]);
        InsertSpec(x, ys[1..]);
        var rest := Insert(x, ys[1..]);
        forall k | 0 <= k < |rest| ensures ys[0] < rest[k] {
          assert rest[k] in rest;
          if rest[k] != x {
            HeadIsLeast(ys, rest[k]);
            var j :| 0 <= j < |ys[1..]| && ys[1..][j] == rest[k];
            assert ys[j + 1] == rest[k];
          }
        }
        ConsStrict(ys[0], rest);
      }
    }
  }

  /** A list without duplicates sorts into a strictly ascending list. */
  lemma {:induction false} SortStrict(xs: seq<int>)
    requires NoDuplicates(xs)
    ensures StrictlySorted(Sort(xs))
  {
    if xs != [] {
      var init := xs[..|xs| - 1];
      var last := xs[|xs| - 1];
      assert NoDuplicates(init);
      SortStrict(init);
      SortSpec(init);
      assert last !in init by {
        forall i | 0 <= i < |init| ensures init[i] != last {
          assert xs[i] == init[i];
        }
      }
      InsertStrict(last, Sort(init));
    }
  }

  /** Sorting a sorted list changes nothing. */
  lemma {:induction false} SortOfSorted(xs: seq<int>)
    requires Sorted(xs)
    ensures Sort(xs) == xs
  {
    if xs != [] {
      var init := xs[..|xs| - 1];
      var last := xs[|xs| - 1];
      assert Sorted(init);
      SortOfSorted(init);
      InsertLargest(last, init);
      assert init + [last] == xs;
    }
  }

  /** Inserting an element no smaller than all others appends it. */
  lemma {:induction false} InsertLargest(x: int, ys: seq<int>)
    requires Sorted(ys) && forall i :: 0 <= i < |ys| ==> ys[i] <= x
    ensures Insert(x, ys) == ys + [x]
  {
    if ys != [] {
      if x <= ys[0] {
        ConstantInsert(x, ys);
      } else {
        assert Sorted(ys[1..]);
        InsertLargest(x, ys[1..]);
        assert [ys[0]] + (ys[1..] + [x]) == ys + [x];
      }
    }
  }

  /** The tie case of `InsertLargest`: an element equal to the head is put first, which is the same list. */
  lemma ConstantInsert(x: int, ys: seq<int>)
    requires Sorted(ys) && ys != [] && x <= ys[0] && forall i :: 0 <= i < |ys| ==> ys[i] <= x
    ensures [x] + ys == ys + [x]
  {
    forall i | 0 <= i < |ys| ensures ys[i] == x {
      assert ys[0] <= ys[i];
    }
    forall k | 0 <= k < |ys| + 1 ensures ([x] + ys)[k] == (ys + [x])[k] {
      if k > 0 { assert ([x] + ys)[k] == ys[k - 1]; }
      if k < |ys| { assert (ys + [x])[k] == ys[k]; }
    }
  }

  /** `add(x)` followed by `sort()` on a sorted list is the sorted insertion of `x`. */
  lemma AddThenSort(ys: seq<int>, x: int)
    requires Sorted(ys)
    ensures Sort(ys + [x]) == Insert(x, ys)
  {
    assert (ys + [x])[..|ys|] == ys;
    SortOfSorted(ys);
  }

  /** `remove(element)`: drops the first occurrence, if any. */
  function RemoveFirst(xs: seq<int>, n: int): seq<int> {
    if xs == [] then []
    else if xs[0] == n then xs[1..]
    else [xs[0]] + RemoveFirst(xs[1..], n)
  }

  /** Removal takes out one copy of a present element and leaves other lists alone. */
  lemma {:induction false} RemoveFirstSpec(xs: seq<int>, n: int)
    ensures n in xs ==> multiset(RemoveFirst(xs, n)) == multiset(xs) - multiset{n}
    ensures n !in xs ==> RemoveFirst(xs, n) == xs
    ensures forall z :: z in RemoveFirst(xs, n) ==> z in xs
  {
    if xs != [] {
      assert xs == [xs[0]] + xs[1..];
      RemoveFirstSpec(xs[1..], n);
    }
  }

  /** Removing from a strictly sorted list keeps it strictly sorted and leaves no copy of the element. */
  lemma {:induction false} RemoveFirstStrict(xs: seq<int>, n: int)
    requires StrictlySorted(xs)
    ensures StrictlySorted(RemoveFirst(xs, n))
    ensures forall z :: z in RemoveFirst(xs, n) <==> z in xs && z != n
  {
    if xs != [] {
      assert StrictlySorted(xs[1..]);
      if xs[0] == n {
        forall z | z in xs[1..] ensures z != n {
          var j :| 0 <= j < |xs[1..]| && xs[1..][j] == z;
          assert xs[j + 1] == z;
        }
        assert xs == [xs[0]] + xs[1..];
      } else {
        RemoveFirstStrict(xs[1..], n);
        RemoveFirstSpec(xs[1..], n);
        var rest := RemoveFirst(xs[1..], n);
        forall k | 0 <= k < |rest| ensures xs[0] < rest[k] {
          assert rest[k] in rest;
          var j :| 0 <= j < |xs[1..]| && xs[1..][j] == rest[k];
          assert xs[j + 1] == rest[k];
        }
        ConsStrict(xs[0], rest);
        assert xs == [xs[0]] + xs[1..];
      }
    }
  }

  // ---------------------------------------------------------------------
  // Startup load and persistence
  // ---------------------------------------------------------------------

  /** `mapNotNull { it.toIntOrNull() }` */
  function ParsedNumbers(saved: seq<string>): (r: seq<int>)
    ensures forall z :: z in r <==> exists i :: 0 <= i < |saved| && ToIntOrNull(saved[i]) == Some(z)
  {
    if saved == [] then []
    else
      var rest := ParsedNumbers(saved[1..]);
      TailNumbers(saved);
      match ToIntOrNull(saved[0])
      case Some(v) => [v] + rest
      case None => rest
  }

  lemma TailNumbers(saved: seq<string>)
    requires saved != []
    ensures forall z ::
      (exists i :: 0 <= i < |saved[1..]| && ToIntOrNull(saved[1..][i]) == Some(z)) <==>
      (exists i :: 1 <= i < |saved| && ToIntOrNull(saved[i]) == Some(z))
  {
    forall z | exists i :: 1 <= i < |saved| && ToIntOrNull(saved[i]) == Some(z)
      ensures exists i :: 0 <= i < |saved[1..]| && ToIntOrNull(saved[1..][i]) == Some(z)
    {
      var i :| 1 <= i < |saved| && ToIntOrNull(saved[i]) == Some(z);
      assert saved[1..][i - 1] == saved[i];
    }
  }

  function Identity(x: int): int { x }

  /** The stored strings read back as a list: `mapNotNull { toIntOrNull }.distinct().sorted()`. */
  function StartupBookmarks(saved: seq<string>): seq<int> {
    Sort(Distinct.DistinctBy(ParsedNumbers(saved), Identity))
  }

  /** The startup list is strictly ascending and holds exactly the numbers among the saved strings. */
  lemma StartupBookmarksSpec(saved: seq<string>)
    ensures StrictlySorted(StartupBookmarks(saved))
    ensures forall z :: z in StartupBookmarks(saved) <==>
      exists i :: 0 <= i < |saved| && ToIntOrNull(saved[i]) == Some(z)
  {
    var ns := ParsedNumbers(saved);
    var d := Distinct.DistinctBy(ns, Identity);
    Distinct.DistinctFromKeys(ns, Identity, {});
    assert NoDuplicates(d);
    SortStrict(d);
    SortSpec(d);
    forall z ensures z in d <==> z in ns {
      KeySetMembers(d, z);
      KeySetMembers(ns, z);
    }
  }

  lemma {:induction false} KeySetMembers(s: seq<int>, z: int)
    ensures z in Distinct.KeySet(s, Identity) <==> z in s
  {
    if s != [] {
      KeySetMembers(s[1..], z);
      assert s == [s[0]] + s[1..];
    }
  }

  /** `map { it.toString() }`: what is written back to the saved string set. */
  function Persisted(bookmarks: seq<int>): (r: seq<string>)
    ensures |r| == |bookmarks|
    ensures forall i :: 0 <= i < |r| ==> r[i] == IntToString(bookmarks[i])
  {
    if bookmarks == [] then [] else [IntToString(bookmarks[0])] + Persisted(bookmarks[1..])
  }

  lemma HeadIsMember(s: seq<int>)
    ensures s != [] ==> s[0] in s
  {
  }

  /** Two strictly ascending lists with the same elements are equal. */
  lemma {:induction false} StrictlySortedUnique(a: seq<int>, b: seq<int>)
    requires StrictlySorted(a) && StrictlySorted(b)
    requires forall z :: z in a <==> z in b
    ensures a == b
  {
    HeadIsMember(a);
    HeadIsMember(b);
    if a != [] && b != [] {
      SameHead(a, b);
      SameTails(a, b);
      StrictlySortedUnique(a[1..], b[1..]);
      assert a == [a[0]] + a[1..] && b == [b[0]] + b[1..];
    }
  }

  /** Two non-empty strictly ascending lists with the same elements have the same least element. */
  lemma SameHead(a: seq<int>, b: seq<int>)
    requires StrictlySorted(a) && StrictlySorted(b) && a != [] && b != []
    requires forall z :: z in a <==> z in b
    ensures a[0] == b[0]
  {
    HeadIsMember(a);
    HeadIsMember(b);
    assert a[0] in b && b[0] in a;
    var i :| 0 <= i < |b| && b[i] == a[0];
    var j :| 0 <= j < |a| && a[j] == b[0];
  }

  lemma SameTails(a: seq<int>, b: seq<int>)
    requires StrictlySorted(a) && StrictlySorted(b) && a != [] && b != [] && a[0] == b[0]
    requires forall z :: z in a <==> z in b
    ensures forall z :: z in a[1..] <==> z in b[1..]
  {
    forall z ensures z in a[1..] <==> z in b[1..] {
      if z in a[1..] {
        var i :| 0 <= i < |a[1..]| && a[1..][i] == z;
        assert a[i + 1] == z && z != a[0];
        assert z in b;
      }
      if z in b[1..] {
        var i :| 0 <= i < |b[1..]| && b[1..][i] == z;
        assert b[i + 1] == z && z != b[0];
        assert z in a;
      }
    }
  }

  /**
   * Writing the bookmarks and reading them back, in whatever order the
   * saved set is iterated, gives the same list.
   */
  lemma PersistRoundTrip(bookmarks: seq<int>, saved: seq<string>)
    requires StrictlySorted(bookmarks)
    requires forall i :: 0 <= i < |bookmarks| ==> IntMin <= bookmarks[i] <= IntMax
    requires forall s :: s in saved <==> s in Persisted(bookmarks)
    ensures StartupBookmarks(saved) == bookmarks
  {
    StartupBookmarksSpec(saved);
    forall z ensures z in StartupBookmarks(saved) <==> z in bookmarks {
      if z in bookmarks { SavedBookmarkLoads(bookmarks, saved, z); }
      if z in StartupBookmarks(saved) { LoadedBookmarkWasSaved(bookmarks, saved, z); }
    }
    StrictlySortedUnique(StartupBookmarks(saved), bookmarks);
  }

  lemma SavedBookmarkLoads(bookmarks: seq<int>, saved: seq<string>, z: int)
    requires forall i :: 0 <= i < |bookmarks| ==> IntMin <= bookmarks[i] <= IntMax
    requires forall s :: s in saved <==> s in Persisted(bookmarks)
    requires z in bookmarks
    ensures exists i :: 0 <= i < |saved| && ToIntOrNull(saved[i]) == Some(z)
  {
    var p := Persisted(bookmarks);
    var k :| 0 <= k < |bookmarks| && bookmarks[k] == z;
    IntToStringRoundTrip(z);
    assert p[k] in saved;
    var i :| 0 <= i < |saved| && saved[i] == p[k];
    assert ToIntOrNull(saved[i]) == Some(z);
  }

  lemma LoadedBookmarkWasSaved(bookmarks: seq<int>, saved: seq<string>, z: int)
    requires forall i :: 0 <= i < |bookmarks| ==> IntMin <= bookmarks[i] <= IntMax
    requires forall s :: s in saved <==> s in Persisted(bookmarks)
    requires exists i :: 0 <= i < |saved| && ToIntOrNull(saved[i]) == Some(z)
    ensures z in bookmarks
  {
    var p := Persisted(bookmarks);
    var i :| 0 <= i < |saved| && ToIntOrNull(saved[i]) == Some(z);
    assert saved[i] in p;
    var k :| 0 <= k < |p| && p[k] == saved[i];
    IntToStringRoundTrip(bookmarks[k]);
    assert bookmarks[k] == z;
  }
}
