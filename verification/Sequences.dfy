/** Stable sorting by a strict order, and truncation. */
module Sequences {
  function Take<T>(s: seq<T>, n: nat): seq<T> {
    if |s| <= n then s else s[..n]
  }

  function Insert<T>(x: T, sorted: seq<T>, less: (T, T) -> bool): seq<T> {
    if |sorted| == 0 || !less(sorted[0], x) then [x] + sorted else [sorted[0]] + Insert(x, sorted[1..], less)
  }

  /** A stable sort: elements that are not ordered keep the order they came in. */
  function Sort<T>(s: seq<T>, less: (T, T) -> bool): seq<T> {
    if |s| == 0 then [] else Insert(s[0], Sort(s[1..], less), less)
  }

  function Elements<T>(s: seq<T>): set<T> {
    set x | x in s
  }

  ghost predicate StrictOrder<T(!new)>(less: (T, T) -> bool) {
    && (forall x :: !less(x, x))
    && (forall x, y, z :: less(x, y) && less(y, z) ==> less(x, z))
  }

  /** No two elements are left unordered. */
  ghost predicate Comparable<T>(s: seq<T>, less: (T, T) -> bool) {
    forall i, j :: 0 <= i < j < |s| ==> less(s[i], s[j]) || less(s[j], s[i])
  }

  ghost predicate Ascending<T>(s: seq<T>, less: (T, T) -> bool) {
    forall i, j :: 0 <= i < j < |s| ==> less(s[i], s[j])
  }

  lemma AscendingWithHead<T>(head: T, tail: seq<T>, less: (T, T) -> bool)
    requires Ascending(tail, less) && forall i :: 0 <= i < |tail| ==> less(head, tail[i])
    ensures Ascending([head] + tail, less) && Elements([head] + tail) == {head} + Elements(tail)
  {
  }

  lemma {:induction false} InsertKeepsAscending<T(!new)>(x: T, sorted: seq<T>, less: (T, T) -> bool)
    requires StrictOrder(less) && Ascending(sorted, less)
    requires forall i :: 0 <= i < |sorted| ==> less(x, sorted[i]) || less(sorted[i], x)
    ensures Ascending(Insert(x, sorted, less), less) && Elements(Insert(x, sorted, less)) == Elements(sorted) + {x}
    ensures |Insert(x, sorted, less)| == |sorted| + 1
  {
    if |sorted| > 0 {
      var head, tail := sorted[0], sorted[1..];
      assert sorted == [head] + tail;
      AscendingWithHead(head, tail, less);
      if less(head, x) {
        InsertKeepsAscending(x, tail, less);
        var rest := Insert(x, tail, less);
        forall i | 0 <= i < |rest| ensures less(head, rest[i]) {
          assert rest[i] in Elements(rest) && rest[i] in Elements(tail) + {x};
        }
        AscendingWithHead(head, rest, less);
      } else {
        AscendingWithHead(x, sorted, less);
      }
    }
  }

  lemma {:induction false} SortSorts<T(!new)>(s: seq<T>, less: (T, T) -> bool)
    requires StrictOrder(less) && Comparable(s, less)
    ensures Ascending(Sort(s, less), less) && Elements(Sort(s, less)) == Elements(s) && |Sort(s, less)| == |s|
  {
    if |s| > 0 {
      var tail := s[1..];
      SortSorts(tail, less);
      assert s == [s[0]] + tail;
      var sorted := Sort(tail, less);
      forall i | 0 <= i < |sorted| ensures less(s[0], sorted[i]) || less(sorted[i], s[0]) {
        assert sorted[i] in Elements(sorted) && sorted[i] in tail;
      }
      InsertKeepsAscending(s[0], sorted, less);
    }
  }

  // With elements the order leaves unordered -------------------------------------------------------

  /** Being not less carries over, as for comparisons of a number an element has. */
  ghost predicate WeakOrder<T(!new)>(less: (T, T) -> bool) {
    && (forall x, y :: less(x, y) ==> !less(y, x))
    && (forall x, y, z :: !less(y, x) && !less(z, y) ==> !less(z, x))
  }

  ghost predicate InOrder<T>(s: seq<T>, less: (T, T) -> bool) {
    forall i, j :: 0 <= i < j < |s| ==> !less(s[j], s[i])
  }

  lemma {:induction false} InsertKeepsInOrder<T(!new)>(x: T, sorted: seq<T>, less: (T, T) -> bool)
    requires WeakOrder(less) && InOrder(sorted, less)
    ensures InOrder(Insert(x, sorted, less), less)
    ensures forall y :: y in Insert(x, sorted, less) ==> y == x || y in sorted
  {
    if |sorted| > 0 && less(sorted[0], x) {
      var tail := sorted[1..];
      InsertKeepsInOrder(x, tail, less);
      var rest := Insert(x, tail, less);
      forall i | 0 <= i < |rest| ensures !less(rest[i], sorted[0]) {
        assert rest[i] == x || rest[i] in tail;
      }
    } else if |sorted| > 0 {
      forall i | 0 <= i < |sorted| ensures !less(sorted[i], x) {
        assert i > 0 ==> !less(sorted[i], sorted[0]);
      }
    }
  }

  lemma {:induction false} SortOrders<T(!new)>(s: seq<T>, less: (T, T) -> bool)
    requires WeakOrder(less)
    ensures InOrder(Sort(s, less), less)
  {
    if |s| > 0 {
      SortOrders(s[1..], less);
      InsertKeepsInOrder(s[0], Sort(s[1..], less), less);
    }
  }

  // Uniqueness -------------------------------------------------------------------------------------

  lemma NoElements<T>(s: seq<T>)
    ensures s == [] <==> Elements(s) == {}
  {
    assert s != [] ==> s[0] in Elements(s);
  }

  lemma ElementsOfTail<T(!new)>(s: seq<T>, less: (T, T) -> bool)
    requires StrictOrder(less) && Ascending(s, less) && |s| > 0
    ensures Elements(s[1..]) == Elements(s) - {s[0]}
  {
    assert s == [s[0]] + s[1..];
    assert forall i :: 0 <= i < |s| - 1 ==> s[1..][i] != s[0];
  }

  lemma {:induction false} AscendingIsUnique<T(!new)>(a: seq<T>, b: seq<T>, less: (T, T) -> bool)
    requires StrictOrder(less) && Ascending(a, less) && Ascending(b, less) && Elements(a) == Elements(b)
    ensures a == b
  {
    NoElements(a);
    NoElements(b);
    if a != [] {
      assert a[0] in Elements(b) && b[0] in Elements(a);
      assert a[0] == b[0];
      ElementsOfTail(a, less);
      ElementsOfTail(b, less);
      AscendingIsUnique(a[1..], b[1..], less);
      assert a == [a[0]] + a[1..] && b == [b[0]] + b[1..];
    }
  }

  /** Distinct elements are as many as the sequence is long. */
  lemma {:induction false} ElementsCount<T>(s: seq<T>)
    requires forall i, j :: 0 <= i < j < |s| ==> s[i] != s[j]
    ensures |Elements(s)| == |s|
  {
    if |s| > 0 {
      var tail := s[1..];
      ElementsCount(tail);
      assert s == [s[0]] + tail;
      assert Elements(s) == Elements(tail) + {s[0]} && s[0] !in Elements(tail);
    } else {
      assert Elements(s) == {};
    }
  }
}
