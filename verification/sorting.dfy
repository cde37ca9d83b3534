/**
 * Ordering of query results. Every ORDER BY of the storage layer ends in a
 * tie-break on the row id, so each one is a strict total order on ids; this
 * module sorts a set of ids by such an order and shows the result is unique.
 */
module Sorting {

  /** `lt` is irreflexive, transitive and total on distinct integers. */
  ghost predicate StrictTotalOrder<T(!new)>(lt: (T, T) -> bool)
  {
    (forall a :: !lt(a, a))
    && (forall a, b, c :: lt(a, b) && lt(b, c) ==> lt(a, c))
    && (forall a, b :: a != b ==> lt(a, b) || lt(b, a))
  }

  /** Every earlier element comes strictly before every later one. */
  ghost predicate SortedBy<T>(lt: (T, T) -> bool, s: seq<T>)
  {
    forall i, j :: 0 <= i < j < |s| ==> lt(s[i], s[j])
  }

  lemma Transitive<T(!new)>(lt: (T, T) -> bool, a: T, b: T, c: T)
    requires StrictTotalOrder(lt) && lt(a, b) && lt(b, c)
    ensures lt(a, c)
  {
  }

  lemma Total<T(!new)>(lt: (T, T) -> bool, a: T, b: T)
    requires StrictTotalOrder(lt) && a != b
    ensures lt(a, b) || lt(b, a)
  {
  }

  /** Inserts `x` in front of the first element it precedes. */
  function Insert<T(==,!new)>(lt: (T, T) -> bool, x: T, s: seq<T>): (r: seq<T>)
    requires StrictTotalOrder(lt) && SortedBy(lt, s) && x !in s
    ensures |r| == |s| + 1
    ensures forall y :: y in r <==> y == x || y in s
    ensures SortedBy(lt, r)
  {
    if |s| == 0 then [x]
    else if lt(x, s[0]) then
      assert forall j :: 0 <= j < |s| ==> lt(x, s[j]) by {
        forall j | 0 <= j < |s| ensures lt(x, s[j]) {
          if j > 0 { Transitive(lt, x, s[0], s[j]); }
        }
      }
      [x] + s
    else
      var tail := Insert(lt, x, s[1..]);
      Total(lt, x, s[0]);
      assert lt(s[0], x);
      assert forall y :: y in tail ==> lt(s[0], y) by {
        forall y | y in tail ensures lt(s[0], y) {
          if y != x {
            var j :| 0 <= j < |s[1..]| && s[1..][j] == y;
            assert s[j + 1] == y;
          }
        }
      }
      [s[0]] + tail
  }

  /** Some element of a non-empty set. */
  method Pick<T>(s: set<T>) returns (x: T)
    requires s != {}
    ensures x in s
  {
    x :| x in s;
  }

  /** Arranges the elements of `xs` in increasing `lt` order. */
  method SortSet<T(==,!new)>(lt: (T, T) -> bool, xs: set<T>) returns (r: seq<T>)
    requires StrictTotalOrder(lt)
    ensures SortedBy(lt, r)
    ensures forall x :: x in r <==> x in xs
    ensures |r| == |xs|
  {
    r := [];
    var rest := xs;
    while rest != {}
      invariant SortedBy(lt, r)
      invariant forall x :: x in r <==> x in xs && x !in rest
      invariant rest <= xs
      invariant |r| + |rest| == |xs|
      decreases |rest|
    {
      var x := Pick(rest);
      r := Insert(lt, x, r);
      rest := rest - {x};
    }
  }

  /** A strict order never relates two elements both ways. */
  lemma Asymmetric<T(!new)>(lt: (T, T) -> bool, a: T, b: T)
    requires StrictTotalOrder(lt)
    ensures !(lt(a, b) && lt(b, a))
  {
  }

  lemma HeadMember<T>(s: seq<T>)
    ensures |s| > 0 ==> s[0] in s
  {
  }

  /** The head of a sorted sequence precedes each of its other elements. */
  lemma HeadIsLeast<T>(lt: (T, T) -> bool, s: seq<T>, y: T)
    requires SortedBy(lt, s) && y in s
    ensures y == s[0] || lt(s[0], y)
  {
    var j :| 0 <= j < |s| && s[j] == y;
    if j > 0 {
      assert lt(s[0], s[j]);
    }
  }

  /** The tail of a sorted sequence holds every element but the head. */
  lemma InTail<T(!new)>(lt: (T, T) -> bool, s: seq<T>, x: T)
    requires StrictTotalOrder(lt) && SortedBy(lt, s) && |s| > 0
    ensures x in s[1..] <==> x in s && x != s[0]
  {
    if x in s[1..] {
      var j :| 1 <= j < |s| && s[j] == x;
      assert lt(s[0], s[j]);
    }
    if x in s && x != s[0] {
      var j :| 0 <= j < |s| && s[j] == x;
      assert s[1..][j - 1] == x;
    }
  }

  /** In a sorted sequence, exactly the elements before position k precede s[k]. */
  lemma PrecedingAreExactlyPrefix<T(!new)>(lt: (T, T) -> bool, s: seq<T>, k: int)
    requires StrictTotalOrder(lt) && SortedBy(lt, s) && 0 <= k < |s|
    ensures forall y :: y in s ==> (lt(y, s[k]) <==> y in s[..k])
  {
    forall y | y in s
      ensures lt(y, s[k]) <==> y in s[..k]
    {
      var j :| 0 <= j < |s| && s[j] == y;
      if j < k {
        assert s[..k][j] == y;
      } else {
        forall i | 0 <= i < k
          ensures s[i] != y
        {
          assert lt(s[i], s[j]);
        }
        assert y !in s[..k];
        if j > k {
          assert lt(s[k], y);
          Asymmetric(lt, s[k], y);
        }
      }
    }
  }

  /** Two sorted arrangements of the same elements are the same sequence. */
  lemma {:induction false} SortedUnique<T(!new)>(lt: (T, T) -> bool, a: seq<T>, b: seq<T>)
    requires StrictTotalOrder(lt) && SortedBy(lt, a) && SortedBy(lt, b)
    requires forall x :: x in a <==> x in b
    ensures a == b
    decreases |a|
  {
    if |a| == 0 {
      HeadMember(b);
    } else {
      assert |b| > 0 by {
        assert a[0] in b;
      }
      var x0, y0 := a[0], b[0];
      assert x0 in b && y0 in a;
      HeadIsLeast(lt, a, y0);
      HeadIsLeast(lt, b, x0);
      Asymmetric(lt, x0, y0);
      assert x0 == y0;
      forall x
        ensures x in a[1..] <==> x in b[1..]
      {
        InTail(lt, a, x);
        InTail(lt, b, x);
      }
      SortedUnique(lt, a[1..], b[1..]);
      assert a == [a[0]] + a[1..];
      assert b == [b[0]] + b[1..];
    }
  }

  /** A sorted sequence has no repeated element, so it has as many distinct elements as entries. */
  lemma {:induction false} SortedSetSize<T(!new)>(lt: (T, T) -> bool, s: seq<T>)
    requires StrictTotalOrder(lt) && SortedBy(lt, s)
    ensures |(set x | x in s)| == |s|
    decreases |s|
  {
    if |s| > 0 {
      var tail := s[1..];
      SortedSetSize(lt, tail);
      var y := s[0];
      assert y !in tail by {
        InTail(lt, s, y);
      }
      assert (set x | x in s) == {y} + (set x | x in tail) by {
        forall x
          ensures x in s <==> x == y || x in tail
        {
          InTail(lt, s, x);
        }
      }
    }
  }

  /** A non-empty finite set has a last element under a strict total order. */
  lemma {:induction false} Greatest<T(!new)>(lt: (T, T) -> bool, s: set<T>) returns (m: T)
    requires StrictTotalOrder(lt) && s != {}
    ensures m in s
    ensures forall x :: x in s && x != m ==> lt(x, m)
    decreases |s|
  {
    var x :| x in s;
    if s == {x} {
      m := x;
    } else {
      var m' := Greatest(lt, s - {x});
      if lt(x, m') {
        m := m';
      } else {
        Total(lt, x, m');
        m := x;
        forall y | y in s && y != m
          ensures lt(y, m)
        {
          if y != m' {
            Transitive(lt, y, m', x);
          }
        }
      }
    }
  }

  /** Lexicographic comparison of integer triples, as an ORDER BY over three keys. */
  predicate LexLess(a: (int, int, int), b: (int, int, int))
  {
    a.0 < b.0 || (a.0 == b.0 && (a.1 < b.1 || (a.1 == b.1 && a.2 < b.2)))
  }

  lemma LexLessTransitive(a: (int, int, int), b: (int, int, int), c: (int, int, int))
    requires LexLess(a, b) && LexLess(b, c)
    ensures LexLess(a, c)
  {
  }
}
