/**
 * Array.prototype.sort, which is stable, with the comparator given as a strict
 * order; and Array.prototype.filter.
 */
module Sorting {

  /** Puts x in front of the first element that is not before it. */
  function Insert<T>(less: (T, T) -> bool, x: T, s: seq<T>): seq<T> {
    if s == [] then [x]
    else if less(s[0], x) then [s[0]] + Insert(less, x, s[1..])
    else [x] + s
  }

  function Sort<T>(less: (T, T) -> bool, s: seq<T>): seq<T> {
    if s == [] then [] else Insert(less, s[0], Sort(less, s[1..]))
  }

  function Filter<T>(keep: T -> bool, s: seq<T>): seq<T> {
    if s == [] then [] else (if keep(s[0]) then [s[0]] else []) + Filter(keep, s[1..])
  }

  ghost predicate Ascending<T(!new)>(less: (T, T) -> bool, s: seq<T>) {
    forall i, j :: 0 <= i < j < |s| ==> less(s[i], s[j])
  }

  ghost predicate Distinct<T(!new)>(s: seq<T>) {
    forall i, j :: 0 <= i < j < |s| ==> s[i] != s[j]
  }

  /** A strict order that separates any two different members of s. */
  ghost predicate Orders<T(!new)>(less: (T, T) -> bool, s: seq<T>) {
    && (forall x :: !less(x, x))
    && (forall x, y, z :: less(x, y) && less(y, z) ==> less(x, z))
    && (forall x, y :: x in s && y in s && x != y ==> less(x, y) || less(y, x))
  }

  lemma {:induction false} InsertPermutes<T>(less: (T, T) -> bool, x: T, s: seq<T>)
    ensures multiset(Insert(less, x, s)) == multiset(s) + multiset{x}
  {
    if s != [] {
      assert s == [s[0]] + s[1..];
      InsertPermutes(less, x, s[1..]);
    }
  }

  lemma {:induction false} SortPermutes<T>(less: (T, T) -> bool, s: seq<T>)
    ensures multiset(Sort(less, s)) == multiset(s)
    ensures |Sort(less, s)| == |s|
    ensures forall x :: x in Sort(less, s) <==> x in s
  {
    if s != [] {
      assert s == [s[0]] + s[1..];
      SortPermutes(less, s[1..]);
      InsertPermutes(less, s[0], Sort(less, s[1..]));
    }
    SameMembers(Sort(less, s), s);
    assert |multiset(Sort(less, s))| == |multiset(s)|;
  }

  lemma SameMembers<T>(a: seq<T>, b: seq<T>)
    requires multiset(a) == multiset(b)
    ensures forall x :: x in a <==> x in b
  {
    forall x ensures x in a <==> x in b {
      assert x in a <==> x in multiset(a);
      assert x in b <==> x in multiset(b);
    }
  }

  lemma {:induction false} InsertAscending<T(!new)>(less: (T, T) -> bool, x: T, s: seq<T>)
    requires Orders(less, [x] + s) && Ascending(less, s) && x !in s
    ensures Ascending(less, Insert(less, x, s))
  {
    if s != [] {
      assert x in [x] + s && s[0] in [x] + s;
      if less(s[0], x) {
        assert forall y :: y in [x] + s[1..] ==> y in [x] + s;
        InsertAscending(less, x, s[1..]);
        InsertPermutes(less, x, s[1..]);
        var t := Insert(less, x, s[1..]);
        forall j | 0 <= j < |t| ensures less(s[0], t[j]) {
          assert t[j] in multiset(t);
          assert t[j] in multiset(s[1..]) + multiset{x};
          assert t[j] == x || t[j] in s[1..];
        }
      }
    }
  }

  lemma {:induction false} SortAscending<T(!new)>(less: (T, T) -> bool, s: seq<T>)
    requires Orders(less, s) && Distinct(s)
    ensures Ascending(less, Sort(less, s))
  {
    if s != [] {
      assert s == [s[0]] + s[1..];
      var t := Sort(less, s[1..]);
      SortPermutes(less, s[1..]);
      assert s[0] !in s[1..];
      SortAscending(less, s[1..]);
      assert forall y :: y in [s[0]] + t ==> y in s;
      InsertAscending(less, s[0], t);
    }
  }

  /** Strictly sorted sequences are determined by their members. */
  lemma {:induction false} AscendingUnique<T(!new)>(less: (T, T) -> bool, a: seq<T>, b: seq<T>)
    requires forall x :: !less(x, x)
    requires forall x, y, z :: less(x, y) && less(y, z) ==> less(x, z)
    requires Ascending(less, a) && Ascending(less, b)
    requires forall x :: x in a <==> x in b
    ensures a == b
  {
    if a == [] {
      assert forall i :: 0 <= i < |b| ==> b[i] in a;
    } else {
      assert a[0] in b;
      assert b[0] in a;
      assert a[0] == b[0];
      assert forall x :: x in a <==> x == a[0] || x in a[1..];
      assert forall x :: x in b <==> x == b[0] || x in b[1..];
      assert a[0] !in a[1..] && b[0] !in b[1..];
      AscendingUnique(less, a[1..], b[1..]);
      assert a == [a[0]] + a[1..] && b == [b[0]] + b[1..];
    }
  }

  lemma InsertInFront<T>(less: (T, T) -> bool, x: T, s: seq<T>)
    requires s == [] || !less(s[0], x)
    ensures Insert(less, x, s) == [x] + s
  {
  }

  /** The first element of a sorted sequence, from the first one and the sorted others. */
  lemma SortHead<T>(less: (T, T) -> bool, s: seq<T>)
    requires s != []
    ensures var others := Sort(less, s[1..]);
            Sort(less, s) != [] && Sort(less, s)[0] == if others != [] && less(others[0], s[0]) then others[0] else s[0]
  {
  }

  lemma SortWithFirst<T>(less: (T, T) -> bool, x: T, s: seq<T>)
    requires var sorted := Sort(less, s); sorted == [] || !less(sorted[0], x)
    ensures Sort(less, [x] + s) == [x] + Sort(less, s)
  {
    assert ([x] + s)[1..] == s;
    InsertInFront(less, x, Sort(less, s));
  }

  lemma FrontHead<T>(less: (T, T) -> bool, a: seq<T>, b: seq<T>, sorted: seq<T>)
    requires a != [] && (forall i, j :: 0 <= i < j < |a| ==> !less(a[j], a[i]))
    requires (forall i, y :: 0 <= i < |a| && y in b ==> !less(y, a[i])) && (forall y :: y in sorted <==> y in b)
    ensures var behind := a[1..] + sorted; behind == [] || !less(behind[0], a[0])
  {
    var behind := a[1..] + sorted;
    if |a| > 1 {
      assert behind[0] == a[1];
    } else if sorted != [] {
      assert behind[0] == sorted[0] && sorted[0] in sorted;
    }
  }

  /** A front that is in order, and not after anything behind it, stays where it is. */
  lemma {:induction false} SortKeepsFront<T>(less: (T, T) -> bool, a: seq<T>, b: seq<T>)
    requires forall i, j :: 0 <= i < j < |a| ==> !less(a[j], a[i])
    requires forall i, y :: 0 <= i < |a| && y in b ==> !less(y, a[i])
    ensures Sort(less, a + b) == a + Sort(less, b)
  {
    if a == [] {
      assert a + b == b;
    } else {
      var x, rest, sorted := a[0], a[1..], Sort(less, b);
      assert a + b == [x] + (rest + b);
      assert a + sorted == [x] + (rest + sorted);
      SortKeepsFront(less, rest, b);
      assert rest + sorted == [] || !less((rest + sorted)[0], x) by {
        SortPermutes(less, b);
        FrontHead(less, a, b, sorted);
      }
      SortWithFirst(less, x, rest + b);
    }
  }

  lemma {:induction false} DistinctByCount<T(!new)>(s: seq<T>)
    ensures Distinct(s) <==> forall x :: multiset(s)[x] <= 1
  {
    if s != [] {
      DistinctByCount(s[1..]);
      assert s == [s[0]] + s[1..];
      assert multiset(s) == multiset{s[0]} + multiset(s[1..]);
      assert s[0] in s[1..] <==> multiset(s[1..])[s[0]] > 0;
      if Distinct(s) {
        assert s[0] !in s[1..];
      } else if Distinct(s[1..]) {
        assert forall i :: 0 < i < |s| ==> s[i] == s[1..][i - 1];
        assert s[0] in s[1..];
        assert multiset(s)[s[0]] >= 2;
      } else {
        var x :| multiset(s[1..])[x] > 1;
        assert multiset(s)[x] > 1;
      }
    }
  }

  /** Sorting any arrangement of a strictly ascending sequence gives that sequence back. */
  lemma SortRestores<T(!new)>(less: (T, T) -> bool, arranged: seq<T>, s: seq<T>)
    requires Orders(less, s) && Ascending(less, s) && multiset(arranged) == multiset(s)
    ensures Sort(less, arranged) == s
  {
    SameMembers(arranged, s);
    assert Distinct(s);
    DistinctByCount(s);
    DistinctByCount(arranged);
    SortAscending(less, arranged);
    SortPermutes(less, arranged);
    AscendingUnique(less, Sort(less, arranged), s);
  }

  lemma {:induction false} SortedIsFixed<T(!new)>(less: (T, T) -> bool, s: seq<T>)
    requires forall x, y :: less(x, y) ==> !less(y, x)
    requires Ascending(less, s)
    ensures Sort(less, s) == s
  {
    if s != [] {
      SortedIsFixed(less, s[1..]);
      assert s == [s[0]] + s[1..];
      if |s| > 1 { assert less(s[0], s[1]); }
    }
  }

  lemma {:induction false} FilterMembers<T>(keep: T -> bool, s: seq<T>)
    ensures forall x :: x in Filter(keep, s) <==> x in s && keep(x)
  {
    if s != [] {
      FilterMembers(keep, s[1..]);
      assert s == [s[0]] + s[1..];
    }
  }

  lemma {:induction false} FilterDistinct<T(!new)>(keep: T -> bool, s: seq<T>)
    requires Distinct(s)
    ensures Distinct(Filter(keep, s))
  {
    if s != [] {
      FilterDistinct(keep, s[1..]);
      FilterMembers(keep, s[1..]);
      assert s[0] !in s[1..];
    }
  }

  lemma {:induction false} FilterAscending<T(!new)>(less: (T, T) -> bool, keep: T -> bool, s: seq<T>)
    requires Ascending(less, s)
    ensures Ascending(less, Filter(keep, s))
  {
    if s != [] {
      FilterAscending(less, keep, s[1..]);
      FilterMembers(keep, s[1..]);
      assert forall y :: y in s[1..] ==> less(s[0], y);
    }
  }

  lemma AscendingConcat<T(!new)>(less: (T, T) -> bool, a: seq<T>, b: seq<T>)
    requires Ascending(less, a) && Ascending(less, b)
    requires forall x, y :: x in a && y in b ==> less(x, y)
    ensures Ascending(less, a + b)
  {
    assert forall i :: 0 <= i < |a + b| ==> (a + b)[i] == if i < |a| then a[i] else b[i - |a|];
  }

  lemma {:induction false} FilterConcat<T>(keep: T -> bool, a: seq<T>, b: seq<T>)
    ensures Filter(keep, a + b) == Filter(keep, a) + Filter(keep, b)
  {
    if a == [] {
      assert a + b == b;
    } else {
      var head := if keep(a[0]) then [a[0]] else [];
      var fa, fb := Filter(keep, a[1..]), Filter(keep, b);
      assert (a + b)[0] == a[0] && (a + b)[1..] == a[1..] + b;
      FilterConcat(keep, a[1..], b);
      assert Filter(keep, a) == head + fa && Filter(keep, a + b) == head + (fa + fb);
      assert head + (fa + fb) == head + fa + fb;
    }
  }

  /** Filtering twice keeps what passes both tests. */
  lemma {:induction false} FilterTwice<T>(first: T -> bool, second: T -> bool, both: T -> bool, s: seq<T>)
    requires forall x :: x in s ==> (both(x) <==> first(x) && second(x))
    ensures Filter(second, Filter(first, s)) == Filter(both, s)
  {
    if s != [] {
      assert s[0] in s && forall x :: x in s[1..] ==> x in s;
      FilterTwice(first, second, both, s[1..]);
      if first(s[0]) {
        FilterConcat(second, [s[0]], Filter(first, s[1..]));
        assert Filter(second, [s[0]]) == if second(s[0]) then [s[0]] else [];
      } else {
        assert [] + Filter(first, s[1..]) == Filter(first, s[1..]);
      }
    }
  }

  lemma {:induction false} FilterAll<T>(keep: T -> bool, s: seq<T>)
    requires forall x :: x in s ==> keep(x)
    ensures Filter(keep, s) == s
  {
    if s != [] {
      assert s[0] in s && forall x :: x in s[1..] ==> x in s;
      FilterAll(keep, s[1..]);
    }
  }

  lemma {:induction false} FilterSame<T>(f: T -> bool, g: T -> bool, s: seq<T>)
    requires forall x :: x in s ==> f(x) == g(x)
    ensures Filter(f, s) == Filter(g, s)
  {
    if s != [] {
      assert s[0] in s && forall x :: x in s[1..] ==> x in s;
      FilterSame(f, g, s[1..]);
    }
  }
}
