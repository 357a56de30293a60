/**
 * Kotlin's `distinctBy`: walking the list from the left, an element is kept
 * when its key has not been seen before.
 */
module Distinct {

  function DistinctFrom<T, K(==)>(s: seq<T>, key: T -> K, seen: set<K>): seq<T> {
    if s == [] then []
    else if key(s[0]) in seen then DistinctFrom(s[1..], key, seen)
    else [s[0]] + DistinctFrom(s[1..], key, seen + {key(s[0])})
  }

  function DistinctBy<T, K(==)>(s: seq<T>, key: T -> K): seq<T> {
    DistinctFrom(s, key, {})
  }

  /** The keys of a list. */
  function KeySet<T, K(==)>(s: seq<T>, key: T -> K): set<K> {
    if s == [] then {} else {key(s[0])} + KeySet(s[1..], key)
  }

  /** Keys of the result are pairwise distinct and none of them was seen before; every other key survives. */
  lemma {:induction false} DistinctFromKeys<T, K>(s: seq<T>, key: T -> K, seen: set<K>)
    ensures var r := DistinctFrom(s, key, seen);
      && (forall i :: 0 <= i < |r| ==> key(r[i]) !in seen)
      && (forall i, j :: 0 <= i < j < |r| ==> key(r[i]) != key(r[j]))
      && KeySet(r, key) == KeySet(s, key) - seen
  {
    if s != [] {
      var k := key(s[0]);
      if k in seen {
        DistinctFromKeys(s[1..], key, seen);
      } else {
        DistinctFromKeys(s[1..], key, seen + {k});
        var rest := DistinctFrom(s[1..], key, seen + {k});
        var r := [s[0]] + rest;
        assert r[1..] == rest;
        forall i, j | 0 <= i < j < |r| ensures key(r[i]) != key(r[j]) {
          if i > 0 { assert r[i] == rest[i - 1]; }
          assert r[j] == rest[j - 1];
        }
      }
    }
  }

  /** Where the `k`-th kept element comes from: an input position whose key was new there. */
  lemma {:induction false} DistinctFromSource<T, K>(s: seq<T>, key: T -> K, seen: set<K>, k: nat)
    returns (i: nat)
    requires k < |DistinctFrom(s, key, seen)|
    ensures i < |s| && s[i] == DistinctFrom(s, key, seen)[k] && key(s[i]) !in seen
    ensures forall j :: 0 <= j < i ==> key(s[j]) != key(s[i])
  {
    var k0 := key(s[0]);
    var seen' := if k0 in seen then seen else seen + {k0};
    var rest := DistinctFrom(s[1..], key, seen');
    if k0 !in seen && k == 0 {
      i := 0;
    } else {
      var k' := if k0 in seen then k else k - 1;
      assert DistinctFrom(s, key, seen)[k] == rest[k'];
      var i' := DistinctFromSource(s[1..], key, seen', k');
      i := i' + 1;
      forall j | 0 <= j < i ensures key(s[j]) != key(s[i]) {
        if j > 0 { assert s[j] == s[1..][j - 1]; }
      }
    }
  }

  /** Appending an element keeps it exactly when its key is new. */
  lemma {:induction false} DistinctFromAppend<T, K>(s: seq<T>, key: T -> K, seen: set<K>, x: T)
    ensures DistinctFrom(s + [x], key, seen) ==
      DistinctFrom(s, key, seen) + (if key(x) in seen + KeySet(s, key) then [] else [x])
  {
    if s == [] {
      assert [x][1..] == [];
    } else {
      assert (s + [x])[0] == s[0];
      assert (s + [x])[1..] == s[1..] + [x];
      var k0 := key(s[0]);
      var seen' := if k0 in seen then seen else seen + {k0};
      DistinctFromAppend(s[1..], key, seen', x);
      assert seen' + KeySet(s[1..], key) == seen + KeySet(s, key);
    }
  }

  /**
   * `distinctBy`: no two results share a key, every key of the input
   * survives, each result is the first input element with its key, and a
   * new element is appended exactly when its key is new.
   */
  lemma DistinctBySpec<T, K>(s: seq<T>, key: T -> K, x: T)
    ensures var r := DistinctBy(s, key);
      && (forall i, j :: 0 <= i < j < |r| ==> key(r[i]) != key(r[j]))
      && KeySet(r, key) == KeySet(s, key)
      && (forall k :: 0 <= k < |r| ==>
            exists i :: 0 <= i < |s| && s[i] == r[k] && forall j :: 0 <= j < i ==> key(s[j]) != key(s[i]))
    ensures DistinctBy(s + [x], key) == DistinctBy(s, key) + (if key(x) in KeySet(s, key) then [] else [x])
  {
    var r := DistinctBy(s, key);
    DistinctFromKeys(s, key, {});
    forall k | 0 <= k < |r|
      ensures exists i :: 0 <= i < |s| && s[i] == r[k] && forall j :: 0 <= j < i ==> key(s[j]) != key(s[i])
    {
      var i := DistinctFromSource(s, key, {}, k);
    }
    DistinctFromAppend(s, key, {}, x);
    assert {} + KeySet(s, key) == KeySet(s, key);
  }
}
