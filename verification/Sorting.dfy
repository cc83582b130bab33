/** Sorting by a strict order, and the uniqueness of its result. */
module Sorting {

  ghost predicate StrictOrder<T(!new)>(less: (T, T) -> bool) {
    && (forall x :: !less(x, x))
    && (forall x, y, z :: less(x, y) && less(y, z) ==> less(x, z))
    && (forall x, y, z :: less(x, z) ==> less(x, y) || less(y, z))
  }

  /** No two different members of s tie. */
  ghost predicate NoTies<T(!new)>(less: (T, T) -> bool, s: seq<T>) {
    forall x, y :: x in s && y in s ==> x == y || less(x, y) || less(y, x)
  }

  ghost predicate Sorted<T>(less: (T, T) -> bool, s: seq<T>) {
    forall i, j :: 0 <= i < j < |s| ==> !less(s[j], s[i])
  }

  ghost predicate Ascending<T>(less: (T, T) -> bool, s: seq<T>) {
    forall i, j :: 0 <= i < j < |s| ==> less(s[i], s[j])
  }

  function Insert<T>(less: (T, T) -> bool, x: T, s: seq<T>): seq<T>
    decreases |s|
  {
    if s != [] && less(s[0], x) then [s[0]] + Insert(less, x, s[1..]) else [x] + s
  }

  /** The answer of a library sort; SortedUnique shows that it has no other when nothing ties. */
  function Sort<T>(less: (T, T) -> bool, s: seq<T>): seq<T>
    decreases |s|
  {
    if s == [] then [] else Insert(less, s[0], Sort(less, s[1..]))
  }

  lemma FirstAndRest<T>(s: seq<T>)
    requires s != []
    ensures s == [s[0]] + s[1..]
    ensures multiset(s) == multiset{s[0]} + multiset(s[1..])
  {
    assert s == [s[0]] + s[1..];
  }

  lemma {:induction false} InsertKeeps<T>(less: (T, T) -> bool, x: T, s: seq<T>)
    ensures multiset(Insert(less, x, s)) == multiset(s) + multiset{x}
    ensures |Insert(less, x, s)| == |s| + 1
    decreases |s|
  {
    if s != [] && less(s[0], x) {
      InsertKeeps(less, x, s[1..]);
      FirstAndRest(s);
    }
  }

  lemma {:induction false} SortKeeps<T>(less: (T, T) -> bool, s: seq<T>)
    ensures multiset(Sort(less, s)) == multiset(s)
    ensures |Sort(less, s)| == |s|
    decreases |s|
  {
    if s != [] {
      SortKeeps(less, s[1..]);
      InsertKeeps(less, s[0], Sort(less, s[1..]));
      FirstAndRest(s);
    }
  }

  lemma SameElements<T>(s: seq<T>, t: seq<T>)
    requires multiset(s) == multiset(t)
    ensures |s| == |t|
    ensures forall x :: x in s <==> x in t
  {
    assert |multiset(s)| == |s| && |multiset(t)| == |t|;
    assert forall x :: x in s <==> x in multiset(s);
    assert forall x :: x in t <==> x in multiset(t);
  }

  lemma {:induction false} InsertSorted<T(!new)>(less: (T, T) -> bool, x: T, s: seq<T>)
    requires StrictOrder(less) && Sorted(less, s)
    ensures Sorted(less, Insert(less, x, s))
    decreases |s|
  {
    hide StrictOrder, Sorted, Insert;
    InsertStep(less, x, s);
    if s != [] && less(s[0], x) {
      var rest := Insert(less, x, s[1..]);
      SortedTail(less, s);
      InsertSorted(less, x, s[1..]);
      InsertKeeps(less, x, s[1..]);
      assert multiset(rest) == multiset([x] + s[1..]);
      SameElements(rest, [x] + s[1..]);
      NotBefore(less, x, s[0]);
      forall y | y in rest ensures !less(y, s[0]) {
        assert y == x || y in s[1..];
      }
      SortedFrom(less, s[0], rest);
    } else {
      FirstInserted(less, x, s);
    }
  }

  lemma InsertStep<T>(less: (T, T) -> bool, x: T, s: seq<T>)
    ensures Insert(less, x, s) == if s != [] && less(s[0], x) then [s[0]] + Insert(less, x, s[1..]) else [x] + s
  {
  }

  lemma SortedTail<T>(less: (T, T) -> bool, s: seq<T>)
    requires Sorted(less, s) && s != []
    ensures Sorted(less, s[1..]) && forall y :: y in s[1..] ==> !less(y, s[0])
  {
  }

  lemma NotBefore<T(!new)>(less: (T, T) -> bool, x: T, y: T)
    requires StrictOrder(less) && less(y, x)
    ensures !less(x, y)
  {
  }

  lemma FirstInserted<T(!new)>(less: (T, T) -> bool, x: T, s: seq<T>)
    requires StrictOrder(less) && Sorted(less, s) && (s != [] ==> !less(s[0], x))
    ensures Sorted(less, [x] + s)
  {
    forall y | y in s ensures !less(y, x) {
      assert y == s[0] || !less(y, s[0]);
    }
    SortedFrom(less, x, s);
  }

  lemma SortedFrom<T>(less: (T, T) -> bool, first: T, rest: seq<T>)
    requires Sorted(less, rest)
    requires forall y :: y in rest ==> !less(y, first)
    ensures Sorted(less, [first] + rest)
  {
  }

  lemma {:induction false} SortSorts<T(!new)>(less: (T, T) -> bool, s: seq<T>)
    requires StrictOrder(less)
    ensures Sorted(less, Sort(less, s))
    decreases |s|
  {
    if s != [] {
      SortSorts(less, s[1..]);
      InsertSorted(less, s[0], Sort(less, s[1..]));
    }
  }

  /** Two sorted arrangements of the same elements are equal when nothing ties. */
  lemma {:induction false} SortedUnique<T(!new)>(less: (T, T) -> bool, s: seq<T>, t: seq<T>)
    requires StrictOrder(less) && NoTies(less, s)
    requires Sorted(less, s) && Sorted(less, t) && multiset(s) == multiset(t)
    ensures s == t
    decreases |s|
  {
    SameElements(s, t);
    if s != [] {
      FirstAndRest(s);
      FirstAndRest(t);
      SameFirst(less, s, t);
      SameRest(s, t);
      SortedUnique(less, s[1..], t[1..]);
    }
  }

  lemma SameRest<T>(s: seq<T>, t: seq<T>)
    requires s != [] && t != [] && s[0] == t[0] && multiset(s) == multiset(t)
    ensures multiset(s[1..]) == multiset(t[1..])
  {
    FirstAndRest(s);
    FirstAndRest(t);
    assert multiset(s[1..]) == multiset(s) - multiset{s[0]};
    assert multiset(t[1..]) == multiset(t) - multiset{t[0]};
  }

  lemma SameFirst<T(!new)>(less: (T, T) -> bool, s: seq<T>, t: seq<T>)
    requires StrictOrder(less) && NoTies(less, s)
    requires Sorted(less, s) && Sorted(less, t) && s != [] && t != []
    requires forall x :: x in s <==> x in t
    ensures s[0] == t[0]
  {
    assert s[0] in s && t[0] in t;
    var i :| 0 <= i < |s| && s[i] == t[0];
    var j :| 0 <= j < |t| && t[j] == s[0];
  }

  lemma SortPermuted<T(!new)>(less: (T, T) -> bool, s: seq<T>, t: seq<T>)
    requires StrictOrder(less) && NoTies(less, s)
    requires multiset(s) == multiset(t)
    ensures Sort(less, s) == Sort(less, t)
  {
    SortSorts(less, s);
    SortSorts(less, t);
    SortKeeps(less, s);
    SortKeeps(less, t);
    SameElements(s, Sort(less, s));
    SortedUnique(less, Sort(less, s), Sort(less, t));
  }

  /** Adjacent pairs decide the whole arrangement. */
  lemma {:induction false} AdjacentAscending<T(!new)>(less: (T, T) -> bool, s: seq<T>)
    requires StrictOrder(less)
    requires forall i :: 1 <= i < |s| ==> less(s[i - 1], s[i])
    ensures Ascending(less, s)
    decreases |s|
  {
    if |s| >= 2 {
      var front := s[..|s| - 1];
      AdjacentAscending(less, front);
      assert forall i, j :: 0 <= i < j < |s| - 1 ==> less(s[i], s[j]) by {
        assert forall i, j :: 0 <= i < j < |front| ==> less(front[i], front[j]);
        assert forall i :: 0 <= i < |front| ==> front[i] == s[i];
      }
      assert less(s[|s| - 2], s[|s| - 1]);
    }
  }

  ghost predicate Connected<T(!new)>(less: (T, T) -> bool) {
    forall x, y :: x == y || less(x, y) || less(y, x)
  }

  /** Appending keeps the arrangement ascending exactly when the newcomer is neither known nor below the last. */
  lemma {:induction false} NextAscends<T(!new)>(less: (T, T) -> bool, s: seq<T>, x: T)
    requires StrictOrder(less) && Connected(less) && Ascending(less, s)
    ensures x !in s && (s != [] ==> !less(x, s[|s| - 1])) <==> Ascending(less, s + [x])
  {
    if x !in s && (s != [] ==> !less(x, s[|s| - 1])) {
      forall i | 0 <= i < |s| ensures less(s[i], x) {
        var last := s[|s| - 1];
        assert last in s && less(last, x);
        assert i < |s| - 1 ==> less(s[i], last);
      }
    }
    if Ascending(less, s + [x]) {
      forall i | 0 <= i < |s| ensures less(s[i], x) {
        assert less((s + [x])[i], (s + [x])[|s|]);
      }
    }
  }

  lemma AscendingIsSorted<T(!new)>(less: (T, T) -> bool, s: seq<T>)
    requires StrictOrder(less) && Ascending(less, s)
    ensures Sorted(less, s) && NoTies(less, s) && Distinct(s)
  {
    forall i, j | 0 <= i < j < |s| ensures !less(s[j], s[i]) && s[i] != s[j] {
      assert less(s[i], s[j]);
    }
  }

  ghost predicate Distinct<T>(s: seq<T>) {
    forall i, j :: 0 <= i < j < |s| ==> s[i] != s[j]
  }

  lemma {:induction false} DistinctCounts<T>(s: seq<T>)
    requires Distinct(s)
    ensures forall x :: x in s ==> multiset(s)[x] == 1
  {
    if s != [] {
      FirstAndRest(s);
      DistinctCounts(s[1..]);
      assert s[0] !in s[1..];
    }
  }

  lemma {:induction false} CountsDistinct<T>(s: seq<T>)
    requires forall x :: x in s ==> multiset(s)[x] == 1
    ensures Distinct(s)
  {
    if s != [] {
      FirstAndRest(s);
      assert s[0] in s && multiset(s)[s[0]] == 1;
      assert s[0] !in multiset(s[1..]) && s[0] !in s[1..];
      forall x | x in s[1..] ensures multiset(s[1..])[x] == 1 {
        assert x in s && x != s[0];
      }
      CountsDistinct(s[1..]);
      forall i, j | 0 <= i < j < |s| ensures s[i] != s[j] {
        assert s[j] == s[1..][j - 1] && s[j] in s[1..];
      }
    }
  }

  lemma DistinctPermuted<T>(s: seq<T>, t: seq<T>)
    requires multiset(s) == multiset(t) && Distinct(s)
    ensures Distinct(t)
  {
    DistinctCounts(s);
    SameElements(s, t);
    CountsDistinct(t);
  }

  lemma DistinctByCount<T>(s: seq<T>, t: seq<T>)
    requires multiset(s) == multiset(t)
    ensures Distinct(s) <==> Distinct(t)
  {
    if Distinct(s) {
      DistinctPermuted(s, t);
    }
    if Distinct(t) {
      DistinctPermuted(t, s);
    }
  }

  // Sorting before or after a map that keeps the order.

  function MapSeq<S, T>(f: S -> T, s: seq<S>): (r: seq<T>)
    ensures |r| == |s| && forall i :: 0 <= i < |s| ==> r[i] == f(s[i])
  {
    seq(|s|, i requires 0 <= i < |s| => f(s[i]))
  }

  function Without<T>(s: seq<T>, i: nat): seq<T>
    requires i < |s|
  {
    s[..i] + s[i + 1..]
  }

  lemma TakeOut<T>(s: seq<T>, i: nat)
    requires i < |s|
    ensures multiset(s) == multiset{s[i]} + multiset(Without(s, i))
  {
    assert s == s[..i] + [s[i]] + s[i + 1..];
  }

  lemma MapTakeOut<S, T>(f: S -> T, s: seq<S>, i: nat)
    requires i < |s|
    ensures multiset(MapSeq(f, s)) == multiset{f(s[i])} + multiset(MapSeq(f, Without(s, i)))
  {
    assert MapSeq(f, Without(s, i)) == Without(MapSeq(f, s), i);
    TakeOut(MapSeq(f, s), i);
  }

  lemma {:induction false} MapPermuted<S, T>(f: S -> T, s: seq<S>, t: seq<S>)
    requires multiset(s) == multiset(t)
    ensures multiset(MapSeq(f, s)) == multiset(MapSeq(f, t))
    decreases |s|
  {
    SameElements(s, t);
    if s != [] {
      hide MapSeq;
      assert s[0] in t;
      var i :| 0 <= i < |t| && t[i] == s[0];
      TakeOut(s, 0);
      TakeOut(t, i);
      MapTakeOut(f, s, 0);
      MapTakeOut(f, t, i);
      assert multiset(Without(s, 0)) == multiset(s) - multiset{s[0]};
      MapPermuted(f, Without(s, 0), Without(t, i));
    }
  }

  ghost predicate Preserves<S(!new), T>(f: S -> T, less: (S, S) -> bool, less': (T, T) -> bool) {
    forall x, y :: less'(f(x), f(y)) == less(x, y)
  }

  lemma {:induction false} InsertMap<S(!new), T>(f: S -> T, less: (S, S) -> bool, less': (T, T) -> bool, x: S, s: seq<S>)
    requires Preserves(f, less, less')
    ensures MapSeq(f, Insert(less, x, s)) == Insert(less', f(x), MapSeq(f, s))
    decreases |s|
  {
    if s != [] && less(s[0], x) {
      InsertMap(f, less, less', x, s[1..]);
      assert MapSeq(f, s)[1..] == MapSeq(f, s[1..]);
    }
  }

  lemma {:induction false} SortMap<S(!new), T>(f: S -> T, less: (S, S) -> bool, less': (T, T) -> bool, s: seq<S>)
    requires Preserves(f, less, less')
    ensures MapSeq(f, Sort(less, s)) == Sort(less', MapSeq(f, s))
    decreases |s|
  {
    if s != [] {
      SortMap(f, less, less', s[1..]);
      InsertMap(f, less, less', s[0], Sort(less, s[1..]));
      assert MapSeq(f, s)[1..] == MapSeq(f, s[1..]);
    }
  }

  /** Equally long arrangements without repetition, one within the other, hold the same elements. */
  lemma DistinctWithin<T>(s: seq<T>, t: seq<T>)
    requires Distinct(s) && Distinct(t) && |s| == |t|
    requires forall x :: x in s ==> x in t
    ensures multiset(s) == multiset(t)
  {
    DistinctCounts(s);
    DistinctCounts(t);
    var a, b := multiset(s), multiset(t);
    assert a <= b by {
      forall x | x in a ensures a[x] <= b[x] {
        assert x in s && x in t;
      }
    }
    assert |b - a| == |b| - |a|;
    assert b == a + (b - a);
  }

  lemma DistinctByImage<S, T>(f: S -> T, s: seq<S>)
    requires Distinct(MapSeq(f, s))
    ensures Distinct(s)
  {
    forall i, j | 0 <= i < j < |s| ensures s[i] != s[j] {
      assert MapSeq(f, s)[i] != MapSeq(f, s)[j];
    }
  }

  lemma DistinctSortedAscends<T(!new)>(less: (T, T) -> bool, s: seq<T>)
    requires Connected(less) && Sorted(less, s) && Distinct(s)
    ensures Ascending(less, s)
  {
  }
}
