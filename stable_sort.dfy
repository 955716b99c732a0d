/**
 * `sort.SliceStable` with the two comparators the enumerations use: one
 * element goes before another when its key is smaller (ascending) or larger
 * (descending) under Go's `<` on strings. Go compares strings byte by byte;
 * on well-formed UTF-8 that is the order of code points, which is Dafny's
 * order on `char`.
 *
 * The library's algorithm is not part of this model; the result is defined
 * by insertion sort, which meets the same contract: sorted, a permutation,
 * and elements with equal keys in their original order.
 */
module StableSort {

  /** Go's `a < b` on strings: lexicographic, a proper prefix first. */
  predicate StrLess(a: string, b: string)
  {
    if a == [] then b != []
    else if b == [] then false
    else if a[0] != b[0] then a[0] < b[0]
    else StrLess(a[1..], b[1..])
  }

  lemma {:induction false} StrLessIrreflexive(a: string)
    ensures !StrLess(a, a)
  {
    if a != [] {
      StrLessIrreflexive(a[1..]);
    }
  }

  lemma {:induction false} StrLessTransitive(a: string, b: string, c: string)
    requires StrLess(a, b) && StrLess(b, c)
    ensures StrLess(a, c)
  {
    if a != [] && b != [] && c != [] && a[0] == b[0] && b[0] == c[0] {
      StrLessTransitive(a[1..], b[1..], c[1..]);
    }
  }

  lemma {:induction false} StrLessTotal(a: string, b: string)
    ensures a == b || StrLess(a, b) || StrLess(b, a)
  {
    if a != [] && b != [] && a[0] == b[0] {
      StrLessTotal(a[1..], b[1..]);
      if a[1..] == b[1..] {
        assert a == [a[0]] + a[1..] && b == [b[0]] + b[1..];
      }
    }
  }

  /** The comparator: a key that must come strictly before another. */
  predicate Before(descending: bool, a: string, b: string)
  {
    if descending then StrLess(b, a) else StrLess(a, b)
  }

  lemma BeforeIrreflexive(descending: bool, a: string)
    ensures !Before(descending, a, a)
  {
    StrLessIrreflexive(a);
  }

  lemma BeforeAsymmetric(descending: bool, a: string, b: string)
    requires Before(descending, a, b)
    ensures !Before(descending, b, a)
  {
    if Before(descending, b, a) {
      if descending { StrLessTransitive(a, b, a); } else { StrLessTransitive(a, b, a); }
      StrLessIrreflexive(a);
    }
  }

  /** Not-before is transitive: if neither a before b nor b before c, then not a before c. */
  lemma NotBeforeTransitive(descending: bool, a: string, b: string, c: string)
    requires !Before(descending, a, b) && !Before(descending, b, c)
    ensures !Before(descending, a, c)
  {
    StrLessTotal(a, b);
    StrLessTotal(b, c);
    if Before(descending, a, c) {
      if a == b {
      } else if b == c {
      } else if descending {
        StrLessTransitive(a, b, c);
        StrLessTransitive(c, a, b);
        StrLessIrreflexive(b);
      } else {
        StrLessTransitive(c, b, a);
        StrLessTransitive(a, c, b);
        StrLessIrreflexive(b);
      }
    }
  }

  /** Every element's key is no later in the order than that of the elements after it. */
  ghost predicate SortedBy<T>(r: seq<T>, key: T -> string, descending: bool)
  {
    forall i, j :: 0 <= i < j < |r| ==> !Before(descending, key(r[j]), key(r[i]))
  }

  /** Inserts x into sorted s behind every element whose key x does not go before. */
  function Insert<T>(x: T, s: seq<T>, key: T -> string, descending: bool): (r: seq<T>)
    ensures multiset(r) == multiset(s) + multiset{x}
    ensures |r| == |s| + 1
  {
    if s == [] then [x]
    else if Before(descending, key(x), key(s[|s| - 1])) then
      assert s == s[..|s| - 1] + [s[|s| - 1]];
      Insert(x, s[..|s| - 1], key, descending) + [s[|s| - 1]]
    else s + [x]
  }

  /** `sort.SliceStable(s, less)` where `less` compares keys with Before. */
  function SortStable<T>(s: seq<T>, key: T -> string, descending: bool): (r: seq<T>)
    ensures multiset(r) == multiset(s)
    ensures |r| == |s|
  {
    if s == [] then []
    else
      assert s == s[..|s| - 1] + [s[|s| - 1]];
      Insert(s[|s| - 1], SortStable(s[..|s| - 1], key, descending), key, descending)
  }

  /** The elements of s whose key is k, in their order in s. */
  function WithKey<T>(s: seq<T>, key: T -> string, k: string): (r: seq<T>)
  {
    if s == [] then []
    else WithKey(s[..|s| - 1], key, k) + (if key(s[|s| - 1]) == k then [s[|s| - 1]] else [])
  }

  lemma {:induction false} InsertSorted<T>(x: T, s: seq<T>, key: T -> string, descending: bool)
    requires SortedBy(s, key, descending)
    ensures SortedBy(Insert(x, s, key, descending), key, descending)
  {
    if s != [] {
      var init, last := s[..|s| - 1], s[|s| - 1];
      if Before(descending, key(x), key(last)) {
        InsertSorted(x, init, key, descending);
        InsertSortedFront(x, s, key, descending);
      } else {
        forall i | 0 <= i < |s| ensures !Before(descending, key(x), key(s[i])) {
          if i < |s| - 1 {
            NotBeforeTransitive(descending, key(x), key(last), key(s[i]));
          }
        }
        assert Insert(x, s, key, descending) == s + [x];
      }
    }
  }

  /** The step of InsertSorted where x goes in front of the last element. */
  lemma InsertSortedFront<T>(x: T, s: seq<T>, key: T -> string, descending: bool)
    requires s != [] && SortedBy(s, key, descending) && Before(descending, key(x), key(s[|s| - 1]))
    requires SortedBy(Insert(x, s[..|s| - 1], key, descending), key, descending)
    ensures SortedBy(Insert(x, s, key, descending), key, descending)
  {
    var init, last := s[..|s| - 1], s[|s| - 1];
    var t := Insert(x, init, key, descending);
    assert Insert(x, s, key, descending) == t + [last];
    forall e | e in init ensures !Before(descending, key(last), key(e)) {
      var m :| 0 <= m < |init| && init[m] == e;
      assert s[m] == e;
    }
    BeforeAsymmetric(descending, key(x), key(last));
    forall i | 0 <= i < |t| ensures !Before(descending, key(last), key(t[i])) {
      assert t[i] in multiset(t);
      if t[i] != x {
        assert t[i] in multiset(init);
      }
    }
  }

  /** The result is ordered by key: ascending, or descending when asked. */
  lemma {:induction false} SortStableSorted<T>(s: seq<T>, key: T -> string, descending: bool)
    ensures SortedBy(SortStable(s, key, descending), key, descending)
  {
    if s != [] {
      SortStableSorted(s[..|s| - 1], key, descending);
      InsertSorted(s[|s| - 1], SortStable(s[..|s| - 1], key, descending), key, descending);
    }
  }

  lemma {:induction false} WithKeyAppend<T>(s: seq<T>, e: T, key: T -> string, k: string)
    ensures WithKey(s + [e], key, k) == WithKey(s, key, k) + (if key(e) == k then [e] else [])
  {
    assert (s + [e])[..|s|] == s;
  }

  lemma {:induction false} InsertKeepsKeyOrder<T>(x: T, s: seq<T>, key: T -> string, descending: bool, k: string)
    ensures WithKey(Insert(x, s, key, descending), key, k)
         == WithKey(s, key, k) + (if key(x) == k then [x] else [])
  {
    if s == [] {
      WithKeyAppend([], x, key, k);
    } else if Before(descending, key(x), key(s[|s| - 1])) {
      var init := s[..|s| - 1];
      InsertKeepsKeyOrder(x, init, key, descending, k);
      InsertPassesLast(x, s, key, descending, k);
    } else {
      WithKeyAppend(s, x, key, k);
    }
  }

  /** The step of InsertKeepsKeyOrder where x goes in front of the last element, whose key differs. */
  lemma InsertPassesLast<T>(x: T, s: seq<T>, key: T -> string, descending: bool, k: string)
    requires s != [] && Before(descending, key(x), key(s[|s| - 1]))
    requires WithKey(Insert(x, s[..|s| - 1], key, descending), key, k)
          == WithKey(s[..|s| - 1], key, k) + (if key(x) == k then [x] else [])
    ensures WithKey(Insert(x, s, key, descending), key, k)
         == WithKey(s, key, k) + (if key(x) == k then [x] else [])
  {
    var init, last := s[..|s| - 1], s[|s| - 1];
    assert Insert(x, s, key, descending) == Insert(x, init, key, descending) + [last];
    assert s == init + [last];
    BeforeIrreflexive(descending, key(x));
    WithKeySwap(Insert(x, init, key, descending), init, x, last, key, k);
  }

  /** Appending an element whose key differs from x's commutes with appending x. */
  lemma WithKeySwap<T>(t: seq<T>, init: seq<T>, x: T, last: T, key: T -> string, k: string)
    requires key(x) != key(last)
    requires WithKey(t, key, k) == WithKey(init, key, k) + (if key(x) == k then [x] else [])
    ensures WithKey(t + [last], key, k) == WithKey(init + [last], key, k) + (if key(x) == k then [x] else [])
  {
    WithKeyAppend(t, last, key, k);
    WithKeyAppend(init, last, key, k);
  }

  /** Stability: the elements sharing any one key keep their relative order. */
  lemma {:induction false} SortStableKeepsKeyOrder<T>(s: seq<T>, key: T -> string, descending: bool, k: string)
    ensures WithKey(SortStable(s, key, descending), key, k) == WithKey(s, key, k)
  {
    if s != [] {
      var init, last := s[..|s| - 1], s[|s| - 1];
      SortStableKeepsKeyOrder(init, key, descending, k);
      InsertKeepsKeyOrder(last, SortStable(init, key, descending), key, descending, k);
    }
  }
}
