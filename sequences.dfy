/**
 * `Array.prototype.sort` with a key comparator and `Array.prototype.filter`, as the two
 * aspect-ratio hooks and catalogs use them. The sort is stable, as JS requires: an element
 * goes after every earlier element with the same key.
 */
module Sequences {

  ghost predicate SortedBy<T>(s: seq<T>, key: T -> real) {
    forall i, j :: 0 <= i < j < |s| ==> key(s[i]) <= key(s[j])
  }

  /** Puts `x` after the leading elements whose key is not greater than its own. */
  function Insert<T(!new)>(x: T, s: seq<T>, key: T -> real): (r: seq<T>)
    ensures multiset(r) == multiset(s) + multiset{x}
    ensures |r| == |s| + 1
  {
    if s == [] then [x]
    else if key(x) < key(s[0]) then [x] + s
    else
      assert s == [s[0]] + s[1..];
      [s[0]] + Insert(x, s[1..], key)
  }

  /** A head no greater than anything after it extends a sorted sequence. */
  lemma SortedCons<T>(h: T, rest: seq<T>, key: T -> real)
    requires SortedBy(rest, key)
    requires forall y :: y in rest ==> key(h) <= key(y)
    ensures SortedBy([h] + rest, key)
  {
    var r := [h] + rest;
    forall i, j | 0 <= i < j < |r| ensures key(r[i]) <= key(r[j]) {
      assert r[j] == rest[j - 1];
      if i == 0 {
        assert r[j] in rest;
      } else {
        assert r[i] == rest[i - 1];
      }
    }
  }

  /** The first element of a sorted sequence has the least key. */
  lemma SortedHeadLeast<T>(s: seq<T>, key: T -> real)
    requires SortedBy(s, key) && s != []
    ensures forall y :: y in s ==> key(s[0]) <= key(y)
  {
    forall y | y in s ensures key(s[0]) <= key(y) {
      var k :| 0 <= k < |s| && s[k] == y;
    }
  }

  lemma {:induction false} InsertKeepsSorted<T(!new)>(x: T, s: seq<T>, key: T -> real)
    requires SortedBy(s, key)
    ensures SortedBy(Insert(x, s, key), key)
  {
    if s == [] {
    } else if key(x) < key(s[0]) {
      SortedHeadLeast(s, key);
      SortedCons(x, s, key);
    } else {
      assert SortedBy(s[1..], key);
      InsertKeepsSorted(x, s[1..], key);
      SortedHeadLeast(s, key);
      var rest := Insert(x, s[1..], key);
      forall y | y in rest ensures key(s[0]) <= key(y) {
        assert y in multiset(rest);
        if y != x {
          assert y in multiset(s[1..]);
          assert y in s;
        }
      }
      SortedCons(s[0], rest, key);
    }
  }

  /** `[...s].sort((a, b) => key(a) - key(b))` */
  function SortBy<T(!new)>(s: seq<T>, key: T -> real): (r: seq<T>)
    ensures SortedBy(r, key)
    ensures multiset(r) == multiset(s)
    ensures |r| == |s|
  {
    if s == [] then []
    else
      assert s == s[..|s| - 1] + [s[|s| - 1]];
      InsertKeepsSorted(s[|s| - 1], SortBy(s[..|s| - 1], key), key);
      Insert(s[|s| - 1], SortBy(s[..|s| - 1], key), key)
  }

  /** `s.filter(keep)` */
  function Filter<T(!new)>(s: seq<T>, keep: T -> bool): (r: seq<T>)
    ensures forall x :: x in r <==> x in s && keep(x)
    ensures multiset(r) <= multiset(s)
    ensures |r| <= |s|
  {
    if s == [] then []
    else
      assert s == [s[0]] + s[1..];
      if keep(s[0]) then [s[0]] + Filter(s[1..], keep) else Filter(s[1..], keep)
  }

  /** Filtering keeps the order, so a sorted sequence stays sorted. */
  lemma {:induction false} FilterKeepsSorted<T(!new)>(s: seq<T>, keep: T -> bool, key: T -> real)
    requires SortedBy(s, key)
    ensures SortedBy(Filter(s, keep), key)
  {
    if s != [] {
      assert SortedBy(s[1..], key);
      FilterKeepsSorted(s[1..], keep, key);
      if keep(s[0]) {
        SortedHeadLeast(s, key);
        var rest := Filter(s[1..], keep);
        forall y | y in rest ensures key(s[0]) <= key(y) {
          assert y in s;
        }
        SortedCons(s[0], rest, key);
      }
    }
  }

  /** An element kept by the filter stays last behind the filtered prefix. */
  lemma {:induction false} FilterSnoc<T(!new)>(s: seq<T>, x: T, keep: T -> bool)
    requires keep(x)
    ensures Filter(s + [x], keep) == Filter(s, keep) + [x]
  {
    if s == [] {
      assert s + [x] == [x];
    } else {
      assert (s + [x])[0] == s[0] && (s + [x])[1..] == s[1..] + [x];
      FilterSnoc(s[1..], x, keep);
    }
  }

  /** A filter that keeps every element changes nothing. */
  lemma {:induction false} FilterAll<T(!new)>(s: seq<T>, keep: T -> bool)
    requires forall x :: x in s ==> keep(x)
    ensures Filter(s, keep) == s
  {
    if s != [] {
      assert s == [s[0]] + s[1..];
      FilterAll(s[1..], keep);
    }
  }

  /** A filter that keeps no element leaves nothing. */
  lemma {:induction false} FilterNone<T(!new)>(s: seq<T>, keep: T -> bool)
    requires forall x :: x in s ==> !keep(x)
    ensures Filter(s, keep) == []
  {
    if s != [] {
      assert s == [s[0]] + s[1..];
      FilterNone(s[1..], keep);
    }
  }

  /** `[...s].sort(byKey).filter(keep)`: sorted, holding exactly the kept elements, none added. */
  function SortFilter<T(!new)>(s: seq<T>, key: T -> real, keep: T -> bool): (r: seq<T>)
    ensures SortedBy(r, key)
    ensures forall x :: x in r <==> x in s && keep(x)
    ensures multiset(r) <= multiset(s)
    ensures |r| <= |s|
  {
    var sorted := SortBy(s, key);
    FilterKeepsSorted(sorted, keep, key);
    assert forall x :: x in sorted <==> x in s by {
      forall x ensures x in sorted <==> x in s {
        assert x in sorted <==> x in multiset(sorted);
        assert x in s <==> x in multiset(s);
      }
    }
    Filter(sorted, keep)
  }

  /** In a sorted sequence, an element whose key is below every other element's key comes first. */
  lemma SortedFirst<T>(s: seq<T>, key: T -> real, m: T)
    requires SortedBy(s, key) && m in s
    requires forall y :: y in s && y != m ==> key(m) < key(y)
    ensures s[0] == m
  {
    var j :| 0 <= j < |s| && s[j] == m;
    assert key(s[0]) <= key(m);
  }

  /** In a sorted sequence, an element whose key is above every other element's key comes last. */
  lemma SortedLast<T>(s: seq<T>, key: T -> real, m: T)
    requires SortedBy(s, key) && m in s
    requires forall y :: y in s && y != m ==> key(y) < key(m)
    ensures s[|s| - 1] == m
  {
    var j :| 0 <= j < |s| && s[j] == m;
    assert key(m) <= key(s[|s| - 1]);
  }

  ghost predicate NoDuplicates<T>(s: seq<T>) {
    forall i, j :: 0 <= i < j < |s| ==> s[i] != s[j]
  }

  /** Without duplicates, every element occurs at most once. */
  lemma {:induction false} NoDuplicatesCount<T>(s: seq<T>, x: T)
    requires NoDuplicates(s)
    ensures multiset(s)[x] <= 1
  {
    if s != [] {
      assert s == [s[0]] + s[1..];
      assert NoDuplicates(s[1..]) by {
        forall i, j | 0 <= i < j < |s[1..]| ensures s[1..][i] != s[1..][j] {
          assert s[1..][i] == s[i + 1] && s[1..][j] == s[j + 1];
        }
      }
      NoDuplicatesCount(s[1..], x);
      if s[0] == x {
        forall k | 0 <= k < |s[1..]| ensures s[1..][k] != x {
          assert s[1..][k] == s[k + 1];
        }
        assert x !in s[1..];
      }
    }
  }

  /** An element at two positions occurs at least twice. */
  lemma TwoPositionsCount<T>(s: seq<T>, i: int, j: int)
    requires 0 <= i < j < |s| && s[i] == s[j]
    ensures multiset(s)[s[i]] >= 2
  {
    assert s == s[..j] + s[j..];
    assert s[..j][i] == s[i];
    assert s[j..][0] == s[j];
  }

  /** A permutation of a sequence without duplicates has none either. */
  lemma PermutationNoDuplicates<T>(s: seq<T>, t: seq<T>)
    requires multiset(s) == multiset(t) && NoDuplicates(t)
    ensures NoDuplicates(s)
  {
    forall i, j | 0 <= i < j < |s| ensures s[i] != s[j] {
      if s[i] == s[j] {
        TwoPositionsCount(s, i, j);
        NoDuplicatesCount(t, s[i]);
      }
    }
  }

  /**
   * When `pos` finds each element's key at that element's own index, the keys of a permutation
   * of the elements are pairwise different.
   */
  lemma PermutationDistinctKeys<T, K>(list: seq<T>, entries: seq<T>, key: T -> K, pos: K -> int)
    requires multiset(list) == multiset(entries)
    requires forall i :: 0 <= i < |entries| ==> pos(key(entries[i])) == i
    ensures forall i, j :: 0 <= i < |list| && 0 <= j < |list| && i != j ==> key(list[i]) != key(list[j])
  {
    PermutationNoDuplicates(list, entries);
    forall i, j | 0 <= i < |list| && 0 <= j < |list| && i != j ensures key(list[i]) != key(list[j]) {
      assert list[i] in multiset(entries) && list[j] in multiset(entries);
      var a :| 0 <= a < |entries| && entries[a] == list[i];
      var b :| 0 <= b < |entries| && entries[b] == list[j];
    }
  }
}
