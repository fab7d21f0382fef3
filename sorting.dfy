/** The standard-library sequence operations the source leans on: the stable sort
    (`sort`, `sort_by`), `dedup_by` and `iter().position`, over an integer key. */
module Sorting {
  import opened Wrappers

  predicate SortedBy<T>(s: seq<T>, key: T -> int)
  {
    forall i, j :: 0 <= i < j < |s| ==> key(s[i]) <= key(s[j])
  }

  predicate StrictlySortedBy<T>(s: seq<T>, key: T -> int)
  {
    forall i, j :: 0 <= i < j < |s| ==> key(s[i]) < key(s[j])
  }

  /** The keys occurring in `s`. */
  function Keys<T>(s: seq<T>, key: T -> int): set<int>
  {
    set i | 0 <= i < |s| :: key(s[i])
  }

  // ---------------------------------------------------------------
  // Stable sort
  // ---------------------------------------------------------------

  /** Places `x` before the first element whose key is not smaller, so that `x`
      stays ahead of the elements of equal key that follow it. */
  function Insert<T>(x: T, s: seq<T>, key: T -> int): seq<T>
  {
    if s == [] || key(x) <= key(s[0]) then [x] + s else [s[0]] + Insert(x, s[1..], key)
  }

  /** A stable sort by `key` (Rust's `sort` / `sort_by` are stable). */
  function SortBy<T>(s: seq<T>, key: T -> int): seq<T>
  {
    if s == [] then [] else Insert(s[0], SortBy(s[1..], key), key)
  }

  lemma {:induction false} InsertCount<T>(x: T, s: seq<T>, key: T -> int)
    ensures multiset(Insert(x, s, key)) == multiset{x} + multiset(s)
    ensures |Insert(x, s, key)| == |s| + 1
  {
    if s != [] && key(x) > key(s[0]) {
      InsertCount(x, s[1..], key);
      assert s == [s[0]] + s[1..];
    }
  }

  /** Every element of `Insert(x, s)` is `x` or an element of `s` past the first. */
  lemma {:induction false} InsertFrom<T>(x: T, s: seq<T>, key: T -> int)
    requires s != [] && key(x) > key(s[0])
    ensures forall k :: 0 <= k < |Insert(x, s[1..], key)| ==>
      Insert(x, s[1..], key)[k] == x || Insert(x, s[1..], key)[k] in s[1..]
  {
    InsertCount(x, s[1..], key);
    var r := Insert(x, s[1..], key);
    forall k | 0 <= k < |r| ensures r[k] == x || r[k] in s[1..] {
      assert r[k] in multiset(r);
    }
  }

  lemma {:induction false} InsertSorted<T>(x: T, s: seq<T>, key: T -> int)
    requires SortedBy(s, key)
    ensures SortedBy(Insert(x, s, key), key)
  {
    if s != [] && key(x) > key(s[0]) {
      InsertSorted(x, s[1..], key);
      InsertFrom(x, s, key);
      var r := Insert(x, s[1..], key);
      forall k | 0 <= k < |r| ensures key(s[0]) <= key(r[k]) {
        if r[k] != x {
          var m :| 0 <= m < |s[1..]| && s[1..][m] == r[k];
          assert s[m + 1] == r[k];
        }
      }
      assert Insert(x, s, key) == [s[0]] + r;
    }
  }

  lemma InsertFacts<T>(x: T, s: seq<T>, key: T -> int)
    requires SortedBy(s, key)
    ensures SortedBy(Insert(x, s, key), key)
    ensures multiset(Insert(x, s, key)) == multiset{x} + multiset(s)
    ensures |Insert(x, s, key)| == |s| + 1
  {
    InsertCount(x, s, key);
    InsertSorted(x, s, key);
  }

  /** The sort orders by key and is a permutation of its input. */
  lemma {:induction false} SortByFacts<T>(s: seq<T>, key: T -> int)
    ensures SortedBy(SortBy(s, key), key)
    ensures multiset(SortBy(s, key)) == multiset(s)
    ensures |SortBy(s, key)| == |s|
  {
    if s != [] {
      SortByFacts(s[1..], key);
      InsertFacts(s[0], SortBy(s[1..], key), key);
      assert s == [s[0]] + s[1..];
    }
  }

  lemma PermutationKeys<T>(s: seq<T>, t: seq<T>, key: T -> int)
    requires multiset(s) == multiset(t)
    ensures Keys(s, key) == Keys(t, key)
  {
    forall k | k in Keys(s, key) ensures k in Keys(t, key) {
      var i :| 0 <= i < |s| && key(s[i]) == k;
      assert s[i] in multiset(t);
      var j :| 0 <= j < |t| && t[j] == s[i];
    }
    forall k | k in Keys(t, key) ensures k in Keys(s, key) {
      var j :| 0 <= j < |t| && key(t[j]) == k;
      assert t[j] in multiset(s);
      var i :| 0 <= i < |s| && s[i] == t[j];
    }
  }

  // ---------------------------------------------------------------
  // dedup_by: drop every element whose key equals the one kept before it
  // ---------------------------------------------------------------

  /** Rust's `dedup_by(|a, b| key(a) == key(b))`: of every run of consecutive
      elements with one key only the first is kept. */
  function DedupBy<T>(s: seq<T>, key: T -> int): (r: seq<T>)
    decreases |s|
  {
    if |s| <= 1 then s
    else if key(s[0]) == key(s[1]) then DedupBy([s[0]] + s[2..], key)
    else [s[0]] + DedupBy(s[1..], key)
  }

  /** Dedup keeps the first element, takes every element from its input and keeps
      every key. */
  lemma {:induction false} DedupByFacts<T>(s: seq<T>, key: T -> int)
    ensures |DedupBy(s, key)| <= |s|
    ensures s != [] ==> DedupBy(s, key) != [] && DedupBy(s, key)[0] == s[0]
    ensures forall i :: 0 <= i < |DedupBy(s, key)| ==> DedupBy(s, key)[i] in s
    ensures Keys(DedupBy(s, key), key) == Keys(s, key)
    decreases |s|
  {
    var r := DedupBy(s, key);
    if |s| > 1 {
      if key(s[0]) == key(s[1]) {
        var t := [s[0]] + s[2..];
        DedupByFacts(t, key);
        forall i | 0 <= i < |r| ensures r[i] in s {
          assert r[i] in t;
        }
        assert Keys(t, key) == Keys(s, key) by {
          forall k | k in Keys(s, key) ensures k in Keys(t, key) {
            var i :| 0 <= i < |s| && key(s[i]) == k;
            if i == 0 || i == 1 { assert key(t[0]) == k; } else { assert t[i - 1] == s[i]; }
          }
          forall k | k in Keys(t, key) ensures k in Keys(s, key) {
            var i :| 0 <= i < |t| && key(t[i]) == k;
            if i == 0 { assert key(s[0]) == k; } else { assert s[i + 1] == t[i]; }
          }
        }
      } else {
        DedupByFacts(s[1..], key);
        var d := DedupBy(s[1..], key);
        assert r == [s[0]] + d;
        forall i | 0 <= i < |r| ensures r[i] in s {
          if i > 0 { assert r[i] == d[i - 1]; assert d[i - 1] in s[1..]; }
        }
        assert Keys(r, key) == {key(s[0])} + Keys(d, key) by {
          forall k | k in Keys(r, key) ensures k in {key(s[0])} + Keys(d, key) {
            var i :| 0 <= i < |r| && key(r[i]) == k;
            if i > 0 { assert r[i] == d[i - 1]; }
          }
          forall k | k in Keys(d, key) ensures k in Keys(r, key) {
            var i :| 0 <= i < |d| && key(d[i]) == k;
            assert r[i + 1] == d[i];
          }
          assert key(r[0]) == key(s[0]);
        }
        assert Keys(s, key) == {key(s[0])} + Keys(s[1..], key) by {
          forall k | k in Keys(s, key) ensures k in {key(s[0])} + Keys(s[1..], key) {
            var i :| 0 <= i < |s| && key(s[i]) == k;
            if i > 0 { assert s[1..][i - 1] == s[i]; }
          }
          forall k | k in Keys(s[1..], key) ensures k in Keys(s, key) {
            var i :| 0 <= i < |s[1..]| && key(s[1..][i]) == k;
            assert s[i + 1] == s[1..][i];
          }
          assert key(s[0]) in Keys(s, key);
        }
      }
    }
  }

  /** Dedup of a sequence sorted by key leaves it strictly sorted: no key twice. */
  lemma {:induction false} DedupBySorted<T>(s: seq<T>, key: T -> int)
    requires SortedBy(s, key)
    ensures StrictlySortedBy(DedupBy(s, key), key)
    decreases |s|
  {
    if |s| > 1 {
      if key(s[0]) == key(s[1]) {
        var t := [s[0]] + s[2..];
        assert SortedBy(t, key) by {
          forall i, j | 0 <= i < j < |t| ensures key(t[i]) <= key(t[j]) {
            if i == 0 { assert t[j] == s[j + 1]; } else { assert t[i] == s[i + 1] && t[j] == s[j + 1]; }
          }
        }
        DedupBySorted(t, key);
      } else {
        var d := DedupBy(s[1..], key);
        DedupBySorted(s[1..], key);
        assert forall k :: 0 <= k < |d| ==> key(s[0]) < key(d[k]) by {
          DedupByFacts(s[1..], key);
          forall k | 0 <= k < |d| ensures key(s[0]) < key(d[k]) {
            var m :| 0 <= m < |s[1..]| && s[1..][m] == d[k];
            assert s[m + 1] == d[k];
          }
        }
        StrictCons(s[0], d, key);
      }
    }
  }

  /** An element with a key below every key of a strictly sorted sequence can go
      in front of it. */
  lemma StrictCons<T>(x: T, d: seq<T>, key: T -> int)
    requires StrictlySortedBy(d, key)
    requires forall k :: 0 <= k < |d| ==> key(x) < key(d[k])
    ensures StrictlySortedBy([x] + d, key)
  {
    var r := [x] + d;
    forall i, j | 0 <= i < j < |r| ensures key(r[i]) < key(r[j]) {
      assert r[j] == d[j - 1];
      if i > 0 { assert r[i] == d[i - 1]; }
    }
  }

  /** A sequence with no repeated key is left as it is. */
  lemma {:induction false} DedupByStrict<T>(s: seq<T>, key: T -> int)
    requires StrictlySortedBy(s, key)
    ensures DedupBy(s, key) == s
    decreases |s|
  {
    if |s| > 1 {
      assert key(s[0]) < key(s[1]);
      DedupByStrict(s[1..], key);
      assert s == [s[0]] + s[1..];
    }
  }

  // ---------------------------------------------------------------
  // iter().position and Vec::remove
  // ---------------------------------------------------------------

  /** Index of the first element satisfying `p`. */
  function FirstIndex<T>(s: seq<T>, p: T -> bool): (r: Option<nat>)
    ensures r.Some? ==> r.value < |s| && p(s[r.value]) && forall k :: 0 <= k < r.value ==> !p(s[k])
    ensures r.None? ==> forall k :: 0 <= k < |s| ==> !p(s[k])
  {
    if s == [] then None
    else if p(s[0]) then Some(0)
    else match FirstIndex(s[1..], p)
      case None => None
      case Some(i) => Some(i + 1)
  }

  /** `iter().position(p)`: a linear scan that stops at the first hit. */
  method Position<T>(s: seq<T>, p: T -> bool) returns (r: Option<nat>)
    ensures r == FirstIndex(s, p)
  {
    var i := 0;
    while i < |s|
      invariant 0 <= i <= |s|
      invariant forall k :: 0 <= k < i ==> !p(s[k])
    {
      if p(s[i]) {
        return Some(i);
      }
      i := i + 1;
    }
    return None;
  }

  /** `Vec::remove(i)`. */
  function RemoveAt<T>(s: seq<T>, i: nat): (r: seq<T>)
    requires i < |s|
    ensures |r| == |s| - 1
    ensures forall k :: 0 <= k < i ==> r[k] == s[k]
    ensures forall k :: i <= k < |r| ==> r[k] == s[k + 1]
  {
    s[..i] + s[i + 1..]
  }
}
