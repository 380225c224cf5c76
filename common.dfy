/** Small value types and sequence helpers shared by every other module. */
module Common {

  /** A value that may be absent (JavaScript `undefined`/`null`, Python `None`). */
  datatype Option<+T> = None | Some(value: T) {
    /** The value, or `default` when absent: JavaScript's `??`. */
    function GetOr(default: T): T {
      match this
      case Some(v) => v
      case None => default
    }
  }

  /** `p` is a prefix of `s` (JavaScript `s.startsWith(p)`). */
  predicate IsPrefix<T(==)>(p: seq<T>, s: seq<T>) {
    |p| <= |s| && s[..|p|] == p
  }

  /** `p` occurs somewhere in `s` (JavaScript `s.includes(p)`). */
  predicate Contains<T(==)>(s: seq<T>, p: seq<T>)
    decreases |s|
  {
    IsPrefix(p, s) || (|s| > 0 && Contains(s[1..], p))
  }

  /** `Contains` holds exactly when `p` sits at some index of `s`. */
  lemma {:induction false} ContainsAt<T>(s: seq<T>, p: seq<T>, k: nat)
    requires k + |p| <= |s| && s[k..k + |p|] == p
    ensures Contains(s, p)
    decreases k
  {
    if k > 0 {
      assert s[1..][k - 1..k - 1 + |p|] == s[k..k + |p|];
      ContainsAt(s[1..], p, k - 1);
    } else {
      assert s[..|p|] == s[0..0 + |p|];
    }
  }

  /** No element occurs twice. */
  predicate NoDup<T(==)>(s: seq<T>) {
    forall i, j :: 0 <= i < j < |s| ==> s[i] != s[j]
  }

  /** The elements of `s` as a set. */
  function Elements<T>(s: seq<T>): set<T> {
    set x | x in s
  }

  /** A sequence without duplicates has one occurrence of each element in its multiset. */
  lemma {:induction false} NoDupMultiset<T>(s: seq<T>)
    ensures NoDup(s) <==> forall x :: multiset(s)[x] <= 1
  {
    if s == [] {
    } else {
      var init, last := s[..|s| - 1], s[|s| - 1];
      assert s == init + [last];
      NoDupMultiset(init);
      if NoDup(s) {
        assert NoDup(init);
        assert last !in init;
      }
      if forall x :: multiset(s)[x] <= 1 {
        assert forall x :: multiset(init)[x] <= 1 by {
          forall x ensures multiset(init)[x] <= 1 {
            assert multiset(s)[x] == multiset(init)[x] + multiset([last])[x];
          }
        }
        assert multiset(s)[last] == multiset(init)[last] + 1;
        assert last !in multiset(init);
        forall i, j | 0 <= i < j < |s| ensures s[i] != s[j] {
          if j < |s| - 1 {
            assert s[i] == init[i] && s[j] == init[j];
          } else {
            assert s[i] == init[i];
          }
        }
      }
    }
  }

  /** Two sequences with the same multiset agree on being duplicate-free. */
  lemma PermutationKeepsNoDup<T>(s: seq<T>, t: seq<T>)
    requires multiset(s) == multiset(t) && NoDup(s)
    ensures NoDup(t)
  {
    NoDupMultiset(s);
    NoDupMultiset(t);
  }

  /**
   * The elements of `s` in first-occurrence order, each once: what
   * `Array.from(new Set(s))` yields in JavaScript, whose `Set` keeps insertion order.
   */
  function Dedupe<T(==)>(s: seq<T>): (r: seq<T>)
    ensures NoDup(r)
    ensures Elements(r) == Elements(s)
    decreases |s|
  {
    if s == [] then []
    else
      var d := Dedupe(s[..|s| - 1]);
      var last := s[|s| - 1];
      assert Elements(s) == Elements(s[..|s| - 1]) + {last} by {
        assert s == s[..|s| - 1] + [last];
      }
      if last in d then d else d + [last]
  }

  /** The elements of `s` that satisfy `p`, in their order (a list `filter`). */
  function Filter<T(!new)>(s: seq<T>, p: T -> bool): (r: seq<T>)
    ensures |r| <= |s|
    ensures forall x :: x in r <==> x in s && p(x)
    decreases |s|
  {
    if s == [] then []
    else
      var init := Filter(s[..|s| - 1], p);
      var last := s[|s| - 1];
      assert forall x :: x in s <==> x in s[..|s| - 1] || x == last by {
        assert s == s[..|s| - 1] + [last];
      }
      if p(last) then init + [last] else init
  }

  /** Every element of the filtered sequence satisfies `p`, by position. */
  lemma FilterAll<T(!new)>(s: seq<T>, p: T -> bool)
    ensures forall k :: 0 <= k < |Filter(s, p)| ==> p(Filter(s, p)[k])
  {
    var r := Filter(s, p);
    forall k | 0 <= k < |r| ensures p(r[k]) {
      assert r[k] in r;
    }
  }

  /** Filtering distributes over concatenation. */
  lemma {:induction false} FilterAppend<T(!new)>(a: seq<T>, b: seq<T>, p: T -> bool)
    ensures Filter(a + b, p) == Filter(a, p) + Filter(b, p)
    decreases |b|
  {
    if b != [] {
      var b', last := b[..|b| - 1], b[|b| - 1];
      var tail := if p(last) then [last] else [];
      FilterAppend(a, b', p);
      assert (a + b)[..|a + b| - 1] == a + b' && (a + b)[|a + b| - 1] == last;
      assert Filter(a + b, p) == Filter(a + b', p) + tail;
      assert Filter(b, p) == Filter(b', p) + tail;
    } else {
      assert a + b == a;
    }
  }

  /** Filtering a sequence with a first element. */
  lemma FilterCons<T(!new)>(x: T, s: seq<T>, p: T -> bool)
    ensures Filter([x] + s, p) == (if p(x) then [x] else []) + Filter(s, p)
  {
    FilterAppend([x], s, p);
    assert Filter([x], p) == Filter([], p) + (if p(x) then [x] else []);
  }

  /** Filtering with a predicate that no element meets leaves nothing. */
  lemma {:induction false} FilterNone<T(!new)>(s: seq<T>, p: T -> bool)
    requires forall k :: 0 <= k < |s| ==> !p(s[k])
    ensures Filter(s, p) == []
    decreases |s|
  {
    if s != [] {
      FilterNone(s[..|s| - 1], p);
    }
  }

  /** Filtering with a predicate that every element meets keeps the whole sequence. */
  lemma {:induction false} FilterKeepsAll<T(!new)>(s: seq<T>, p: T -> bool)
    requires forall k :: 0 <= k < |s| ==> p(s[k])
    ensures Filter(s, p) == s
    decreases |s|
  {
    if s != [] {
      FilterKeepsAll(s[..|s| - 1], p);
      assert s == s[..|s| - 1] + [s[|s| - 1]];
    }
  }

  /** The defined results of `f` on the elements of `s`, in order (a `map` then a `filter`). */
  function FilterMap<A, B>(s: seq<A>, f: A -> Option<B>): (r: seq<B>)
    ensures |r| <= |s|
    decreases |s|
  {
    if s == [] then []
    else
      var y := f(s[|s| - 1]);
      FilterMap(s[..|s| - 1], f) + (if y.Some? then [y.value] else [])
  }

  /** An element of FilterMap is a defined result of `f` on some element of `s`, and back. */
  lemma {:induction false} FilterMapMembers<A, B>(s: seq<A>, f: A -> Option<B>, y: B)
    ensures y in FilterMap(s, f) <==> exists k :: 0 <= k < |s| && f(s[k]) == Some(y)
    decreases |s|
  {
    if s != [] {
      var init := s[..|s| - 1];
      FilterMapMembers(init, f, y);
      forall k | 0 <= k < |init| ensures s[k] == init[k] {
      }
    }
  }

  /** One step of FilterMap over a prefix, for a defined result. */
  lemma FilterMapPush<A, B>(s: seq<A>, f: A -> Option<B>, i: int)
    requires 0 <= i < |s| && f(s[i]).Some?
    ensures FilterMap(s[..i + 1], f) == FilterMap(s[..i], f) + [f(s[i]).value]
  {
    assert s[..i + 1][..i] == s[..i];
  }

  /** One step of FilterMap over a prefix, for an undefined result. */
  lemma FilterMapSkip<A, B>(s: seq<A>, f: A -> Option<B>, i: int)
    requires 0 <= i < |s| && f(s[i]).None?
    ensures FilterMap(s[..i + 1], f) == FilterMap(s[..i], f)
  {
    assert s[..i + 1][..i] == s[..i];
  }

  /**
   * When `f` is defined exactly where `p` holds and `proj` undoes it,
   * projecting FilterMap's results gives the filtered sequence.
   */
  lemma {:induction false} FilterMapProject<A(!new), B>(s: seq<A>, f: A -> Option<B>, p: A -> bool, proj: B -> A)
    requires forall x :: f(x).Some? <==> p(x)
    requires forall x :: f(x).Some? ==> proj(f(x).value) == x
    ensures Map(FilterMap(s, f), proj) == Filter(s, p)
    decreases |s|
  {
    if s != [] {
      var n := |s| - 1;
      var init, last := s[..n], s[n];
      assert s[..n + 1] == s;
      FilterMapProject(init, f, p, proj);
      if p(last) {
        FilterMapPush(s, f, n);
        MapAppend(FilterMap(init, f), [f(last).value], proj);
        assert Filter(s, p) == Filter(init, p) + [last];
      } else {
        FilterMapSkip(s, f, n);
        assert Filter(s, p) == Filter(init, p);
      }
    }
  }

  /** `s.map(f)`. */
  function Map<A, B>(s: seq<A>, f: A -> B): (r: seq<B>)
    ensures |r| == |s|
    ensures forall k :: 0 <= k < |s| ==> r[k] == f(s[k])
  {
    seq(|s|, k requires 0 <= k < |s| => f(s[k]))
  }

  /** Mapping distributes over concatenation. */
  lemma MapAppend<A, B>(a: seq<A>, b: seq<A>, f: A -> B)
    ensures Map(a + b, f) == Map(a, f) + Map(b, f)
  {
  }

  /** Taking out the element at `j` removes one occurrence of it. */
  lemma RemoveAt<A>(t: seq<A>, j: int)
    requires 0 <= j < |t|
    ensures t == t[..j] + [t[j]] + t[j + 1..]
    ensures multiset(t[..j] + t[j + 1..]) == multiset(t) - multiset{t[j]}
  {
    assert t == t[..j] + [t[j]] + t[j + 1..];
    assert multiset(t) == multiset(t[..j]) + multiset{t[j]} + multiset(t[j + 1..]);
    assert multiset(t[..j] + t[j + 1..]) == multiset(t[..j]) + multiset(t[j + 1..]);
  }

  /** Mapping a sequence with one element inserted adds that element's image. */
  lemma MapInsert<A, B>(left: seq<A>, x: A, right: seq<A>, f: A -> B)
    ensures multiset(Map(left + [x] + right, f)) == multiset(Map(left + right, f)) + multiset{f(x)}
  {
    MapAppend(left + [x], right, f);
    MapAppend(left, [x], f);
    MapAppend(left, right, f);
  }

  /** Mapping two permutations of each other gives permutations of each other. */
  lemma {:induction false} MapPermutation<A, B>(s: seq<A>, t: seq<A>, f: A -> B)
    requires multiset(s) == multiset(t)
    ensures multiset(Map(s, f)) == multiset(Map(t, f))
    decreases |s|
  {
    if s == [] {
      assert |t| == |multiset(t)| == 0;
    } else {
      var init, x := s[..|s| - 1], s[|s| - 1];
      assert s == init + [x];
      assert multiset(init) == multiset(s) - multiset{x};
      assert x in multiset(t);
      var j :| 0 <= j < |t| && t[j] == x;
      RemoveAt(t, j);
      var left, right := t[..j], t[j + 1..];
      MapPermutation(init, left + right, f);
      MapInsert(left, x, right, f);
      MapInsert(init, x, [], f);
      assert init + [x] + [] == s && init + [] == init;
    }
  }

  /** `r` can be obtained from `s` by deleting elements, keeping the order of the rest. */
  predicate IsSubsequence<T(==)>(r: seq<T>, s: seq<T>)
    decreases |s|
  {
    if r == [] then true
    else if s == [] then false
    else if r[|r| - 1] == s[|s| - 1] then IsSubsequence(r[..|r| - 1], s[..|s| - 1])
    else IsSubsequence(r, s[..|s| - 1])
  }

  /** A sequence is a subsequence of itself followed by more elements. */
  lemma {:induction false} SubsequenceExtend<T>(r: seq<T>, s: seq<T>, x: T)
    requires IsSubsequence(r, s)
    ensures IsSubsequence(r, s + [x])
    decreases |s|, 1
  {
    if r != [] {
      assert (s + [x])[..|s + [x]| - 1] == s;
      if r[|r| - 1] == x {
        SubsequenceDropLast(r, s);
      }
    }
  }

  /** Dropping the last element of `r` keeps it a subsequence. */
  lemma {:induction false} SubsequenceDropLast<T>(r: seq<T>, s: seq<T>)
    requires r != [] && IsSubsequence(r, s)
    ensures IsSubsequence(r[..|r| - 1], s)
    decreases |s|, 0
  {
    var r' := r[..|r| - 1];
    if r' != [] {
      if r[|r| - 1] == s[|s| - 1] {
        // r' is a subsequence of s minus its last element, hence of s
        SubsequenceExtend(r', s[..|s| - 1], s[|s| - 1]);
        assert s[..|s| - 1] + [s[|s| - 1]] == s;
      } else {
        SubsequenceDropLast(r, s[..|s| - 1]);
        SubsequenceExtend(r', s[..|s| - 1], s[|s| - 1]);
        assert s[..|s| - 1] + [s[|s| - 1]] == s;
      }
    }
  }

  /** Filtering keeps the relative order of the kept elements. */
  lemma {:induction false} FilterIsSubsequence<T(!new)>(s: seq<T>, p: T -> bool)
    ensures IsSubsequence(Filter(s, p), s)
    decreases |s|
  {
    if s != [] {
      var init, last := s[..|s| - 1], s[|s| - 1];
      FilterIsSubsequence(init, p);
      if !p(last) {
        SubsequenceExtend(Filter(init, p), init, last);
        assert init + [last] == s;
      } else {
        var r := Filter(s, p);
        assert r[..|r| - 1] == Filter(init, p);
      }
    }
  }

  /** Appending an element not yet present keeps the elements distinct. */
  lemma NoDupAppend<T>(s: seq<T>, x: T)
    requires NoDup(s) && x !in s
    ensures NoDup(s + [x])
  {
  }

  /** Filtering a sequence without duplicates gives one without duplicates. */
  lemma {:induction false} FilterKeepsNoDup<T(!new)>(s: seq<T>, p: T -> bool)
    requires NoDup(s)
    ensures NoDup(Filter(s, p))
    decreases |s|
  {
    if s != [] {
      var init, last := s[..|s| - 1], s[|s| - 1];
      assert NoDup(init);
      FilterKeepsNoDup(init, p);
      if p(last) {
        assert last !in init;
        NoDupAppend(Filter(init, p), last);
      }
    }
  }

  /**
   * Drops one trailing '/': `s.replace(/\/$/, '')` in the frontend,
   * `s[:-1]` after an `endswith('/')` test in the crawler.
   */
  function StripTrailingSlash(s: string): (r: string)
    ensures s == r + "/" || (r == s && (s == [] || s[|s| - 1] != '/'))
  {
    if s != [] && s[|s| - 1] == '/' then s[..|s| - 1] else s
  }
}
