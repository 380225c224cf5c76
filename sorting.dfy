/**
 * `Array.prototype.sort` with a comparator, as the front end calls it. The
 * comparator returns a number whose sign orders two elements; ECMAScript
 * requires it to be a "consistent comparator" and since ES2019 the sort is
 * stable. SortBy is a stable insertion sort on values.
 */
module Sorting {
  import opened Common


  /** The comparator orders `a` before or level with `b`. */
  predicate Le<T>(cmp: (T, T) -> int, a: T, b: T) {
    cmp(a, b) <= 0
  }

  /**
   * A consistent comparator: swapping the arguments flips the sign, and
   * "before or level with" is transitive.
   */
  ghost predicate Consistent<T(!new)>(cmp: (T, T) -> int) {
    (forall a, b :: cmp(a, b) < 0 <==> cmp(b, a) > 0) &&
    (forall a, b, c :: cmp(a, b) <= 0 && cmp(b, c) <= 0 ==> cmp(a, c) <= 0)
  }

  /** Every element is before or level with every later one. */
  ghost predicate Sorted<T>(cmp: (T, T) -> int, s: seq<T>) {
    forall i, j :: 0 <= i < j < |s| ==> cmp(s[i], s[j]) <= 0
  }

  /** Puts `x` in front of the first element that it strictly precedes. */
  function Insert<T>(cmp: (T, T) -> int, x: T, s: seq<T>): (r: seq<T>)
    ensures multiset(r) == multiset(s) + multiset{x}
    ensures |r| == |s| + 1
  {
    if s == [] then [x]
    else if cmp(x, s[0]) < 0 then [x] + s
    else
      assert s == [s[0]] + s[1..];
      [s[0]] + Insert(cmp, x, s[1..])
  }

  /** The inserted sequence holds `x` and the elements of `s`, nothing else. */
  lemma {:induction false} InsertMembers<T>(cmp: (T, T) -> int, x: T, s: seq<T>, y: T)
    ensures y in Insert(cmp, x, s) <==> y == x || y in s
  {
    var r := Insert(cmp, x, s);
    assert y in r <==> y in multiset(r);
    assert y in s <==> y in multiset(s);
  }

  /** Inserting into a sorted sequence keeps it sorted. */
  lemma {:induction false} InsertSorted<T(!new)>(cmp: (T, T) -> int, x: T, s: seq<T>)
    requires Consistent(cmp) && Sorted(cmp, s)
    ensures Sorted(cmp, Insert(cmp, x, s))
    decreases |s|
  {
    if s == [] {
    } else if cmp(x, s[0]) < 0 {
      forall y | y in s ensures cmp(x, y) <= 0 {
        var m :| 0 <= m < |s| && s[m] == y;
        if m > 0 {
          assert cmp(s[0], s[m]) <= 0;
        }
      }
      HeadThenSorted(cmp, x, s);
    } else {
      var t := s[1..];
      assert Sorted(cmp, t);
      InsertSorted(cmp, x, t);
      var r' := Insert(cmp, x, t);
      assert cmp(s[0], x) <= 0;
      forall y | y in r' ensures cmp(s[0], y) <= 0 {
        InsertMembers(cmp, x, t, y);
        if y != x {
          var m :| 0 <= m < |t| && t[m] == y;
          assert t[m] == s[m + 1];
        }
      }
      HeadThenSorted(cmp, s[0], r');
    }
  }

  /** A sorted sequence behind a head that precedes all its elements is sorted. */
  lemma HeadThenSorted<T>(cmp: (T, T) -> int, h: T, t: seq<T>)
    requires Sorted(cmp, t)
    requires forall y :: y in t ==> cmp(h, y) <= 0
    ensures Sorted(cmp, [h] + t)
  {
    var r := [h] + t;
    forall i, j | 0 <= i < j < |r| ensures cmp(r[i], r[j]) <= 0 {
      assert r[j] == t[j - 1];
      if i == 0 {
        assert t[j - 1] in t;
      } else {
        assert r[i] == t[i - 1];
      }
    }
  }

  /**
   * Stable insertion sort: each next element goes behind everything level
   * with it. The result is a permutation of `s`; SortBySorted shows it is
   * sorted whenever the comparator is consistent.
   */
  function SortBy<T(!new)>(cmp: (T, T) -> int, s: seq<T>): (r: seq<T>)
    ensures multiset(r) == multiset(s)
    ensures |r| == |s|
    decreases |s|
  {
    if s == [] then []
    else
      assert s == s[..|s| - 1] + [s[|s| - 1]];
      Insert(cmp, s[|s| - 1], SortBy(cmp, s[..|s| - 1]))
  }

  /** With a consistent comparator the sort's result is sorted. */
  lemma {:induction false} SortBySorted<T(!new)>(cmp: (T, T) -> int, s: seq<T>)
    requires Consistent(cmp)
    ensures Sorted(cmp, SortBy(cmp, s))
    decreases |s|
  {
    if s != [] {
      SortBySorted(cmp, s[..|s| - 1]);
      InsertSorted(cmp, s[|s| - 1], SortBy(cmp, s[..|s| - 1]));
    }
  }

  /** A sort keeps exactly the elements of its input. */
  lemma SortByMembers<T(!new)>(cmp: (T, T) -> int, s: seq<T>, x: T)
    ensures x in SortBy(cmp, s) <==> x in s
  {
    var r := SortBy(cmp, s);
    assert x in r <==> x in multiset(r);
    assert x in s <==> x in multiset(s);
  }

  /** An element that strictly precedes nothing in `s` is placed last. */
  lemma {:induction false} InsertAtEnd<T>(cmp: (T, T) -> int, x: T, s: seq<T>)
    requires forall k :: 0 <= k < |s| ==> cmp(x, s[k]) >= 0
    ensures Insert(cmp, x, s) == s + [x]
    decreases |s|
  {
    if s != [] {
      InsertAtEnd(cmp, x, s[1..]);
      assert s == [s[0]] + s[1..];
    }
  }

  /** Putting the last element of sorted input back into the rest gives the input. */
  lemma LastInsertedLast<T(!new)>(cmp: (T, T) -> int, s: seq<T>)
    requires forall a, b :: cmp(a, b) < 0 <==> cmp(b, a) > 0
    requires Sorted(cmp, s) && s != []
    ensures Insert(cmp, s[|s| - 1], s[..|s| - 1]) == s
  {
    var init, last := s[..|s| - 1], s[|s| - 1];
    forall k | 0 <= k < |init| ensures cmp(last, init[k]) >= 0 {
      assert init[k] == s[k];
      assert cmp(s[k], last) <= 0;
    }
    InsertAtEnd(cmp, last, init);
    assert s == init + [last];
  }

  /** Input that is already in order comes back unchanged. */
  lemma {:induction false} SortBySortedIsIdentity<T(!new)>(cmp: (T, T) -> int, s: seq<T>)
    requires Consistent(cmp) && Sorted(cmp, s)
    ensures SortBy(cmp, s) == s
    decreases |s|
  {
    if s != [] {
      SortedInit(cmp, s);
      SortBySortedIsIdentity(cmp, s[..|s| - 1]);
      LastInsertedLast(cmp, s);
    }
  }


  /** The elements the comparator ties with `k`. */
  function TiedWith<T>(cmp: (T, T) -> int, k: T): T -> bool {
    (y: T) => cmp(k, y) == 0
  }

  /** In a consistent order, whatever comes after something `x` strictly precedes is not tied with `x`. */
  lemma StrictlyAfterNotTied<T(!new)>(cmp: (T, T) -> int, k: T, x: T, y: T, z: T)
    requires Consistent(cmp) && cmp(k, x) == 0 && cmp(x, y) < 0 && cmp(y, z) <= 0
    ensures cmp(k, z) != 0
  {
  }

  /** Nothing in sorted `s` is tied with `k` when an element tied with `k` strictly precedes its head. */
  lemma NoneTiedAfter<T(!new)>(cmp: (T, T) -> int, k: T, x: T, s: seq<T>)
    requires Consistent(cmp) && Sorted(cmp, s) && s != [] && cmp(x, s[0]) < 0 && cmp(k, x) == 0
    ensures Filter(s, TiedWith(cmp, k)) == []
  {
    var p := TiedWith(cmp, k);
    forall j | 0 <= j < |s| ensures !p(s[j]) {
      if j > 0 {
        assert cmp(s[0], s[j]) <= 0;
      }
      StrictlyAfterNotTied(cmp, k, x, s[0], s[j]);
    }
    FilterNone(s, p);
  }

  /** Putting `x` in front of sorted `s` that it strictly precedes leaves the `k`-tied elements in order. */
  lemma InsertTiedFront<T(!new)>(cmp: (T, T) -> int, k: T, x: T, s: seq<T>)
    requires Consistent(cmp) && Sorted(cmp, s) && s != [] && cmp(x, s[0]) < 0
    ensures Filter([x] + s, TiedWith(cmp, k)) ==
            Filter(s, TiedWith(cmp, k)) + (if TiedWith(cmp, k)(x) then [x] else [])
  {
    FilterCons(x, s, TiedWith(cmp, k));
    if TiedWith(cmp, k)(x) {
      NoneTiedAfter(cmp, k, x, s);
    }
  }

  /**
   * Inserting into sorted input: the elements tied with `k` keep their
   * order, and `x` comes after them when it is tied with `k` itself.
   */
  lemma {:induction false} InsertTied<T(!new)>(cmp: (T, T) -> int, k: T, x: T, s: seq<T>)
    requires Consistent(cmp) && Sorted(cmp, s)
    ensures Filter(Insert(cmp, x, s), TiedWith(cmp, k)) ==
            Filter(s, TiedWith(cmp, k)) + (if TiedWith(cmp, k)(x) then [x] else [])
    decreases |s|
  {
    if s == [] {
      FilterCons(x, s, TiedWith(cmp, k));
    } else if cmp(x, s[0]) < 0 {
      InsertTiedFront(cmp, k, x, s);
    } else {
      SortedTail(cmp, s);
      InsertTied(cmp, k, x, s[1..]);
      InsertBehindKeeps(cmp, x, s, TiedWith(cmp, k));
    }
  }

  /** Inserting behind the head keeps a filtered insertion into the tail intact. */
  lemma InsertBehindKeeps<T(!new)>(cmp: (T, T) -> int, x: T, s: seq<T>, p: T -> bool)
    requires s != [] && !(cmp(x, s[0]) < 0)
    requires Filter(Insert(cmp, x, s[1..]), p) == Filter(s[1..], p) + (if p(x) then [x] else [])
    ensures Filter(Insert(cmp, x, s), p) == Filter(s, p) + (if p(x) then [x] else [])
  {
    InsertBehind(cmp, x, s, p);
    ShareHead(Filter(Insert(cmp, x, s), p), Filter(s, p), Filter(Insert(cmp, x, s[1..]), p), Filter(s[1..], p),
              if p(s[0]) then [s[0]] else [], if p(x) then [x] else []);
  }

  /** Two sequences with the same head whose rests differ by a suffix differ by that suffix. */
  lemma ShareHead<T>(a: seq<T>, b: seq<T>, ra: seq<T>, rb: seq<T>, head: seq<T>, tail: seq<T>)
    requires a == head + ra && b == head + rb && ra == rb + tail
    ensures a == b + tail
  {
  }

  /** Inserting behind the head: the head stays first, in both filtered sequences. */
  lemma InsertBehind<T(!new)>(cmp: (T, T) -> int, x: T, s: seq<T>, p: T -> bool)
    requires s != [] && !(cmp(x, s[0]) < 0)
    ensures Filter(Insert(cmp, x, s), p) == (if p(s[0]) then [s[0]] else []) + Filter(Insert(cmp, x, s[1..]), p)
    ensures Filter(s, p) == (if p(s[0]) then [s[0]] else []) + Filter(s[1..], p)
  {
    assert s == [s[0]] + s[1..];
    assert Insert(cmp, x, s) == [s[0]] + Insert(cmp, x, s[1..]);
    FilterCons(s[0], Insert(cmp, x, s[1..]), p);
    FilterCons(s[0], s[1..], p);
  }

  /** Dropping the last element of a sorted sequence leaves it sorted. */
  lemma SortedInit<T>(cmp: (T, T) -> int, s: seq<T>)
    requires Sorted(cmp, s) && s != []
    ensures Sorted(cmp, s[..|s| - 1])
  {
    var t := s[..|s| - 1];
    forall i, j | 0 <= i < j < |t| ensures cmp(t[i], t[j]) <= 0 {
      assert t[i] == s[i] && t[j] == s[j];
    }
  }

  /** The tail of a sorted sequence is sorted. */
  lemma SortedTail<T>(cmp: (T, T) -> int, s: seq<T>)
    requires Sorted(cmp, s) && s != []
    ensures Sorted(cmp, s[1..])
  {
    var t := s[1..];
    forall i, j | 0 <= i < j < |t| ensures cmp(t[i], t[j]) <= 0 {
      assert t[i] == s[i + 1] && t[j] == s[j + 1];
    }
  }

  /**
   * Stability: for every element `k`, the elements tied with `k` come out
   * of the sort in the order they went in.
   */
  lemma {:induction false} SortByStable<T(!new)>(cmp: (T, T) -> int, s: seq<T>, k: T)
    requires Consistent(cmp)
    ensures Filter(SortBy(cmp, s), TiedWith(cmp, k)) == Filter(s, TiedWith(cmp, k))
    decreases |s|
  {
    if s != [] {
      var init := s[..|s| - 1];
      SortByStable(cmp, init, k);
      SortBySorted(cmp, init);
      InsertTied(cmp, k, s[|s| - 1], SortBy(cmp, init));
    }
  }
}
