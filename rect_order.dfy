/**
 * The (y, x) layout order used by the packer to sort both its free regions
 * and its items: the comparator `a.y - b.y || a.x - b.x` of
 * src/components/masonry/index.ts, applied by a stable sort.
 */
module RectOrder {
  import opened Geometry

  /** `a` may stand before `b`: the comparator does not return a positive value. */
  predicate InOrder(a: Rect, b: Rect) {
    a.y < b.y || (a.y == b.y && a.x <= b.x)
  }

  predicate SortedYX(s: seq<Rect>) {
    forall i, j :: 0 <= i < j < |s| ==> InOrder(s[i], s[j])
  }

  /** No value occurs twice. */
  predicate NoDuplicates<T(==)>(s: seq<T>) {
    forall i, j :: 0 <= i < j < |s| ==> s[i] != s[j]
  }

  /**
   * Inserts `r` before the first element it may stand before, so that `r`,
   * which came earlier in the input, stays ahead of elements with an equal key.
   */
  function Insert(r: Rect, s: seq<Rect>): (out: seq<Rect>)
    ensures |out| == |s| + 1
  {
    if s == [] || InOrder(r, s[0]) then [r] + s
    else [s[0]] + Insert(r, s[1..])
  }

  /** Stable sort by (y, x) ascending, as `Array.prototype.sort` with that comparator. */
  function SortByYX(s: seq<Rect>): (sorted: seq<Rect>)
    ensures |sorted| == |s|
  {
    if s == [] then [] else Insert(s[0], SortByYX(s[1..]))
  }

  lemma {:induction false} InsertKeepsElements(r: Rect, s: seq<Rect>)
    ensures multiset(Insert(r, s)) == multiset{r} + multiset(s)
  {
    if s == [] || InOrder(r, s[0]) {
    } else {
      InsertKeepsElements(r, s[1..]);
      assert s == [s[0]] + s[1..];
    }
  }

  lemma {:induction false} InsertKeepsOrder(r: Rect, s: seq<Rect>)
    requires SortedYX(s)
    ensures SortedYX(Insert(r, s))
  {
    if s == [] || InOrder(r, s[0]) {
    } else {
      var rest := Insert(r, s[1..]);
      InsertKeepsOrder(r, s[1..]);
      InsertKeepsElements(r, s[1..]);
      forall z | z in rest ensures InOrder(s[0], z) {
        assert z in multiset(rest);
        if z != r {
          assert z in multiset(s[1..]);
          var q :| 0 <= q < |s[1..]| && s[1..][q] == z;
          assert s[q + 1] == z;
        }
      }
      var t := [s[0]] + rest;
      forall i, j | 0 <= i < j < |t| ensures InOrder(t[i], t[j]) {
        if i == 0 {
          assert t[j] == rest[j - 1];
          assert t[j] in rest;
        } else {
          assert t[i] == rest[i - 1] && t[j] == rest[j - 1];
        }
      }
    }
  }

  lemma {:induction false} InsertKeepsNoDuplicates(r: Rect, s: seq<Rect>)
    requires NoDuplicates(s) && r !in s
    ensures NoDuplicates(Insert(r, s))
  {
    if s == [] || InOrder(r, s[0]) {
      var t := [r] + s;
      forall i, j | 0 <= i < j < |t| ensures t[i] != t[j] {
        if i == 0 {
          assert t[j] == s[j - 1];
        } else {
          assert t[i] == s[i - 1] && t[j] == s[j - 1];
        }
      }
    } else {
      var rest := Insert(r, s[1..]);
      InsertKeepsNoDuplicates(r, s[1..]);
      InsertKeepsElements(r, s[1..]);
      assert s[0] !in s[1..] by {
        forall q | 0 <= q < |s[1..]| ensures s[1..][q] != s[0] {
          assert s[1..][q] == s[q + 1];
        }
      }
      assert s[0] !in multiset(rest);
      var t := [s[0]] + rest;
      forall i, j | 0 <= i < j < |t| ensures t[i] != t[j] {
        if i == 0 {
          assert t[j] == rest[j - 1];
          assert t[j] in rest;
        } else {
          assert t[i] == rest[i - 1] && t[j] == rest[j - 1];
        }
      }
    }
  }

  /** The sort yields an ordered permutation of its input. */
  lemma {:induction false} SortByYXSortsAndPermutes(s: seq<Rect>)
    ensures SortedYX(SortByYX(s))
    ensures multiset(SortByYX(s)) == multiset(s)
  {
    if s != [] {
      SortByYXSortsAndPermutes(s[1..]);
      InsertKeepsOrder(s[0], SortByYX(s[1..]));
      InsertKeepsElements(s[0], SortByYX(s[1..]));
      assert s == [s[0]] + s[1..];
    }
  }

  lemma {:induction false} SortByYXKeepsNoDuplicates(s: seq<Rect>)
    requires NoDuplicates(s)
    ensures NoDuplicates(SortByYX(s))
  {
    if s != [] {
      assert NoDuplicates(s[1..]) by {
        forall i, j | 0 <= i < j < |s[1..]| ensures s[1..][i] != s[1..][j] {
          assert s[1..][i] == s[i + 1] && s[1..][j] == s[j + 1];
        }
      }
      SortByYXKeepsNoDuplicates(s[1..]);
      SortByYXSortsAndPermutes(s[1..]);
      assert s[0] !in s[1..] by {
        forall q | 0 <= q < |s[1..]| ensures s[1..][q] != s[0] {
          assert s[1..][q] == s[q + 1];
        }
      }
      assert s[0] !in multiset(SortByYX(s[1..]));
      InsertKeepsNoDuplicates(s[0], SortByYX(s[1..]));
    }
  }

  /** A list already in (y, x) order is left as it is: the sort is stable. */
  lemma {:induction false} SortByYXOfSorted(s: seq<Rect>)
    requires SortedYX(s)
    ensures SortByYX(s) == s
  {
    if s != [] {
      assert SortedYX(s[1..]) by {
        forall i, j | 0 <= i < j < |s[1..]| ensures InOrder(s[1..][i], s[1..][j]) {
          assert s[1..][i] == s[i + 1] && s[1..][j] == s[j + 1];
        }
      }
      SortByYXOfSorted(s[1..]);
      assert s == [s[0]] + s[1..];
      if |s| > 1 {
        assert InOrder(s[0], s[1]);
      }
    }
  }

  // ---------------------------------------------------------------------
  // Counting equal values

  lemma {:induction false} TwoPositionsCountTwice<T>(s: seq<T>, i: int, j: int)
    requires 0 <= i < j < |s| && s[i] == s[j]
    ensures multiset(s)[s[i]] >= 2
  {
    assert s == s[..i] + [s[i]] + s[i + 1..j] + [s[j]] + s[j + 1..];
    assert multiset(s) == multiset(s[..i]) + multiset{s[i]} + multiset(s[i + 1..j]) + multiset{s[j]} + multiset(s[j + 1..]);
  }

  /** A list with no value twice holds each value at most once. */
  lemma {:induction false} NoDuplicatesCountsOnce<T>(s: seq<T>, v: T)
    requires NoDuplicates(s)
    ensures multiset(s)[v] <= 1
    decreases |s|
  {
    if s != [] {
      var rest := s[1..];
      assert s == [s[0]] + rest;
      assert NoDuplicates(rest) by {
        forall i, j | 0 <= i < j < |rest| ensures rest[i] != rest[j] {
          assert rest[i] == s[i + 1] && rest[j] == s[j + 1];
        }
      }
      NoDuplicatesCountsOnce(rest, v);
      if s[0] == v {
        forall k | 0 <= k < |rest| ensures rest[k] != v {
          assert rest[k] == s[k + 1];
        }
        assert v !in rest;
      }
    }
  }

  /** A prefix one longer is the prefix followed by the next element. */
  lemma TakeSnoc<T>(s: seq<T>, n: int)
    requires 0 <= n < |s|
    ensures s[..n] + [s[n]] == s[..n + 1]
  {
  }

  /** Replacing the first not-yet-done element moves it to the done part. */
  lemma ReplaceNext<T>(done: seq<T>, rest: seq<T>, p: T)
    requires |rest| > 0
    ensures (done + rest)[|done| := p] == (done + [p]) + rest[1..]
  {
  }
}
