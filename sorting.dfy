/**
 * Sorting strings in code-unit order, ascending or descending. The sync
 * script's `.sort()` is a library call whose result is the unique permutation
 * sorted ascending by code units; insertion sort computes it. The server's
 * `/list` sorts with `localeCompare`, a locale collation; the descending
 * code-unit order stands in for it.
 */
module Sorting {
  import opened Text

  datatype Direction = Ascending | Descending

  /** `a` may stand before `b` in a list sorted in direction `d`. */
  predicate InOrder(d: Direction, a: Str, b: Str) {
    match d
    case Ascending => Le(a, b)
    case Descending => Le(b, a)
  }

  predicate Sorted(d: Direction, s: seq<Str>) {
    forall i, j | 0 <= i < j < |s| :: InOrder(d, s[i], s[j])
  }

  predicate Distinct(s: seq<Str>) {
    forall i, j | 0 <= i < j < |s| :: s[i] != s[j]
  }

  function Insert(d: Direction, x: Str, s: seq<Str>): (r: seq<Str>)
    ensures |r| == |s| + 1
  {
    if s == [] then [x]
    else if InOrder(d, x, s[0]) then [x] + s
    else [s[0]] + Insert(d, x, s[1..])
  }

  /** The sorted permutation of `s` in direction `d`: SortPermutes and
      SortSorted state it, SortIsTheSortedPermutation shows it is the only one. */
  function Sort(d: Direction, s: seq<Str>): (r: seq<Str>)
    ensures |r| == |s|
  {
    if s == [] then [] else Insert(d, s[0], Sort(d, s[1..]))
  }

  lemma InOrderTransitive(d: Direction, a: Str, b: Str, c: Str)
    requires InOrder(d, a, b) && InOrder(d, b, c)
    ensures InOrder(d, a, c)
  {
    match d
    case Ascending => LeTransitive(a, b, c);
    case Descending => LeTransitive(c, b, a);
  }

  lemma InOrderTotal(d: Direction, a: Str, b: Str)
    ensures InOrder(d, a, b) || InOrder(d, b, a)
  {
    LeTotal(a, b);
  }

  lemma InOrderAntisymmetric(d: Direction, a: Str, b: Str)
    requires InOrder(d, a, b) && InOrder(d, b, a)
    ensures a == b
  {
    LeAntisymmetric(a, b);
  }

  lemma {:induction false} InsertPermutes(d: Direction, x: Str, s: seq<Str>)
    ensures multiset(Insert(d, x, s)) == multiset(s) + multiset{x}
  {
    if s != [] && !InOrder(d, x, s[0]) {
      InsertPermutes(d, x, s[1..]);
      assert s == [s[0]] + s[1..];
    }
  }

  lemma {:induction false} InsertSorted(d: Direction, x: Str, s: seq<Str>)
    requires Sorted(d, s)
    ensures Sorted(d, Insert(d, x, s))
  {
    if s == [] {
    } else if InOrder(d, x, s[0]) {
      forall j | 0 < j < |s| ensures InOrder(d, x, s[j]) {
        InOrderTransitive(d, x, s[0], s[j]);
      }
    } else {
      InOrderTotal(d, x, s[0]);
      var t := Insert(d, x, s[1..]);
      InsertSorted(d, x, s[1..]);
      InsertPermutes(d, x, s[1..]);
      forall j | 0 <= j < |t| ensures InOrder(d, s[0], t[j]) {
        assert t[j] in multiset(t);
        if t[j] != x {
          assert t[j] in s[1..];
        }
      }
    }
  }

  /** The sorted list holds exactly the input's elements, each as often. */
  lemma {:induction false} SortPermutes(d: Direction, s: seq<Str>)
    ensures multiset(Sort(d, s)) == multiset(s)
  {
    if s != [] {
      SortPermutes(d, s[1..]);
      InsertPermutes(d, s[0], Sort(d, s[1..]));
      assert s == [s[0]] + s[1..];
    }
  }

  /** The sorted list is in order `d`. */
  lemma {:induction false} SortSorted(d: Direction, s: seq<Str>)
    ensures Sorted(d, Sort(d, s))
  {
    if s != [] {
      SortSorted(d, s[1..]);
      InsertSorted(d, s[0], Sort(d, s[1..]));
    }
  }

  /** The head of a sorted list may stand before every element of it. */
  lemma HeadFirst(d: Direction, a: seq<Str>, x: Str)
    requires Sorted(d, a) && x in a
    ensures InOrder(d, a[0], x)
  {
    LeReflexive(x);
  }

  /** Two sorted lists with the same elements are the same list, so any
      correct sort, stable or not, returns what Sort returns. */
  lemma {:induction false} SortedUnique(d: Direction, a: seq<Str>, b: seq<Str>)
    requires Sorted(d, a) && Sorted(d, b)
    requires multiset(a) == multiset(b)
    ensures a == b
  {
    if a == [] {
      assert |b| == |multiset(b)| == 0;
    } else {
      assert |b| == |multiset(b)| == |multiset(a)| > 0;
      assert a[0] in multiset(b) && b[0] in multiset(a);
      HeadFirst(d, b, a[0]);
      HeadFirst(d, a, b[0]);
      InOrderAntisymmetric(d, a[0], b[0]);
      SortedTail(d, a);
      SortedTail(d, b);
      assert a == [a[0]] + a[1..] && b == [b[0]] + b[1..];
      assert multiset(a[1..]) == multiset(b[1..]) by {
        calc {
          multiset(a[1..]);
          multiset(a) - multiset{a[0]};
          multiset(b) - multiset{b[0]};
          multiset(b[1..]);
        }
      }
      SortedUnique(d, a[1..], b[1..]);
    }
  }

  lemma SortedTail(d: Direction, a: seq<Str>)
    requires Sorted(d, a) && a != []
    ensures Sorted(d, a[1..])
  {
  }

  /** Sort is characterised by its two properties: a sorted permutation of
      the input is exactly Sort's result. */
  lemma SortIsTheSortedPermutation(d: Direction, s: seq<Str>, r: seq<Str>)
    requires Sorted(d, r) && multiset(r) == multiset(s)
    ensures r == Sort(d, s)
  {
    SortPermutes(d, s);
    SortSorted(d, s);
    SortedUnique(d, r, Sort(d, s));
  }

  /** In a list without repeats, the sort order is strict. */
  lemma {:induction false} SortDistinct(d: Direction, s: seq<Str>)
    requires Distinct(s)
    ensures Distinct(Sort(d, s))
  {
    if s != [] {
      SortDistinct(d, s[1..]);
      var t := Sort(d, s[1..]);
      SortPermutes(d, s[1..]);
      assert s[0] !in multiset(s[1..]);
      InsertDistinct(d, s[0], t);
    }
  }

  lemma {:induction false} InsertDistinct(d: Direction, x: Str, s: seq<Str>)
    requires Distinct(s) && x !in s
    ensures Distinct(Insert(d, x, s))
  {
    if s != [] && !InOrder(d, x, s[0]) {
      InsertDistinct(d, x, s[1..]);
      InsertPermutes(d, x, s[1..]);
      var t := Insert(d, x, s[1..]);
      forall j | 0 <= j < |t| ensures t[j] != s[0] {
        assert t[j] in multiset(s[1..]) + multiset{x};
      }
    }
  }
}
