/**
 * A stable sort by a total preorder. Both sorts of the substitute query are
 * stable sorts: Python's `list.sort` with a key, and `order_by` as modelled
 * here (rows that compare equal keep the order they arrived in).
 */
module Sorting {

  ghost predicate TotalPreorder<T(!new)>(le: (T, T) -> bool)
  {
    (forall a, b :: le(a, b) || le(b, a)) &&
    (forall a, b, c :: le(a, b) && le(b, c) ==> le(a, c))
  }

  predicate SortedBy<T>(s: seq<T>, le: (T, T) -> bool)
  {
    forall i, j :: 0 <= i < j < |s| ==> le(s[i], s[j])
  }

  predicate Equivalent<T>(le: (T, T) -> bool, a: T, b: T)
  {
    le(a, b) && le(b, a)
  }

  /** The elements of `s` equivalent to `x`, in the order they occur in `s`. */
  function EquivClass<T>(s: seq<T>, le: (T, T) -> bool, x: T): seq<T>
  {
    if s == [] then []
    else (if Equivalent(le, s[0], x) then [s[0]] else []) + EquivClass(s[1..], le, x)
  }

  /** Inserts `x` after every element of `s` that is not above it. */
  function InsertBy<T>(x: T, s: seq<T>, le: (T, T) -> bool): (r: seq<T>)
    ensures |r| == |s| + 1
    ensures multiset(r) == multiset(s) + multiset{x}
  {
    if s == [] then [x]
    else if !le(s[0], x) then [x] + s
    else
      assert s == [s[0]] + s[1..];
      [s[0]] + InsertBy(x, s[1..], le)
  }

  /** Insertion sort, taking the elements from the front. */
  function SortBy<T>(s: seq<T>, le: (T, T) -> bool): (r: seq<T>)
    ensures |r| == |s|
    ensures multiset(r) == multiset(s)
  {
    if s == [] then []
    else
      var init, last := s[..|s| - 1], s[|s| - 1];
      var sorted := SortBy(init, le);
      assert s == init + [last];
      assert multiset(s) == multiset(init) + multiset{last};
      InsertBy(last, sorted, le)
  }

  lemma {:induction false} InsertBySorted<T(!new)>(x: T, s: seq<T>, le: (T, T) -> bool)
    requires TotalPreorder(le) && SortedBy(s, le)
    ensures SortedBy(InsertBy(x, s, le), le)
  {
    if s != [] {
      var r := InsertBy(x, s, le);
      if !le(s[0], x) {
        assert le(x, s[0]);
        assert forall j :: 0 < j < |r| ==> r[j] == s[j - 1];
      } else {
        var rest := InsertBy(x, s[1..], le);
        InsertBySorted(x, s[1..], le);
        forall j | 0 <= j < |rest|
          ensures le(s[0], rest[j])
        {
          assert rest[j] in multiset(rest);
          assert rest[j] == x || rest[j] in multiset(s[1..]);
          if rest[j] != x {
            var k :| 0 <= k < |s[1..]| && s[1..][k] == rest[j];
            assert s[k + 1] == rest[j];
          }
        }
        assert r == [s[0]] + rest;
      }
    }
  }

  lemma {:induction false} SortBySorted<T(!new)>(s: seq<T>, le: (T, T) -> bool)
    requires TotalPreorder(le)
    ensures SortedBy(SortBy(s, le), le)
  {
    if s != [] {
      SortBySorted(s[..|s| - 1], le);
      InsertBySorted(s[|s| - 1], SortBy(s[..|s| - 1], le), le);
    }
  }

  lemma {:induction false} EquivClassAppend<T>(a: seq<T>, b: seq<T>, le: (T, T) -> bool, x: T)
    ensures EquivClass(a + b, le, x) == EquivClass(a, le, x) + EquivClass(b, le, x)
  {
    if a != [] {
      assert (a + b)[1..] == a[1..] + b;
      EquivClassAppend(a[1..], b, le, x);
    } else {
      assert a + b == b;
    }
  }

  lemma {:induction false} EquivClassEmpty<T>(s: seq<T>, le: (T, T) -> bool, x: T)
    requires forall k :: 0 <= k < |s| ==> !Equivalent(le, s[k], x)
    ensures EquivClass(s, le, x) == []
  {
    if s != [] {
      EquivClassEmpty(s[1..], le, x);
    }
  }

  lemma EquivClassCons<T>(x: T, t: seq<T>, le: (T, T) -> bool, y: T)
    ensures EquivClass([x] + t, le, y) == (if Equivalent(le, x, y) then [x] else []) + EquivClass(t, le, y)
  {
    assert ([x] + t)[0] == x && ([x] + t)[1..] == t;
  }

  /** Nothing in a sorted `s` is equivalent to an element that falls below `s[0]`. */
  lemma InsertedFirstIsAlone<T(!new)>(x: T, s: seq<T>, le: (T, T) -> bool, y: T)
    requires TotalPreorder(le) && SortedBy(s, le)
    requires s != [] && !le(s[0], x) && Equivalent(le, x, y)
    ensures EquivClass(s, le, y) == []
  {
    forall k | 0 <= k < |s|
      ensures !Equivalent(le, s[k], y)
    {
      if k > 0 {
        assert le(s[0], s[k]);
      }
    }
    EquivClassEmpty(s, le, y);
  }

  /** In a sorted sequence, everything before a cut is `le` everything after it. */
  lemma SortedPrefixBeforeRest<T>(s: seq<T>, le: (T, T) -> bool, n: nat, e: T, d: T)
    requires SortedBy(s, le) && n <= |s|
    requires e in s[..n]
    requires d in multiset(s) - multiset(s[..n])
    ensures le(e, d)
  {
    assert s == s[..n] + s[n..];
    assert multiset(s) == multiset(s[..n]) + multiset(s[n..]);
    assert d in s[n..];
    var i :| 0 <= i < n && s[..n][i] == e;
    var j :| 0 <= j < |s| - n && s[n..][j] == d;
    assert s[i] == e && s[n + j] == d;
  }

  lemma {:induction false} InsertByStable<T(!new)>(x: T, s: seq<T>, le: (T, T) -> bool, y: T)
    requires TotalPreorder(le) && SortedBy(s, le)
    ensures EquivClass(InsertBy(x, s, le), le, y)
         == EquivClass(s, le, y) + (if Equivalent(le, x, y) then [x] else [])
  {
    if s == [] {
      EquivClassCons(x, [], le, y);
    } else if !le(s[0], x) {
      EquivClassCons(x, s, le, y);
      if Equivalent(le, x, y) {
        InsertedFirstIsAlone(x, s, le, y);
      }
    } else {
      var h, t := s[0], s[1..];
      assert s == [h] + t;
      assert SortedBy(t, le);
      InsertByStable(x, t, le, y);
      InsertByStableCons(x, h, t, le, y);
    }
  }

  /** The step of `InsertByStable` past an element `h` that stays in front of `x`. */
  lemma InsertByStableCons<T>(x: T, h: T, t: seq<T>, le: (T, T) -> bool, y: T)
    requires le(h, x)
    requires EquivClass(InsertBy(x, t, le), le, y)
          == EquivClass(t, le, y) + (if Equivalent(le, x, y) then [x] else [])
    ensures EquivClass(InsertBy(x, [h] + t, le), le, y)
         == EquivClass([h] + t, le, y) + (if Equivalent(le, x, y) then [x] else [])
  {
    var r := InsertBy(x, t, le);
    var front := if Equivalent(le, h, y) then [h] else [];
    var back := if Equivalent(le, x, y) then [x] else [];
    assert ([h] + t)[0] == h && ([h] + t)[1..] == t;
    calc {
      EquivClass(InsertBy(x, [h] + t, le), le, y);
      EquivClass([h] + r, le, y);
      { EquivClassCons(h, r, le, y); }
      front + EquivClass(r, le, y);
      front + (EquivClass(t, le, y) + back);
      (front + EquivClass(t, le, y)) + back;
      { EquivClassCons(h, t, le, y); }
      EquivClass([h] + t, le, y) + back;
    }
  }

  /** Elements that compare equal keep their relative order. */
  lemma {:induction false} SortByStable<T(!new)>(s: seq<T>, le: (T, T) -> bool, y: T)
    requires TotalPreorder(le)
    ensures EquivClass(SortBy(s, le), le, y) == EquivClass(s, le, y)
  {
    if s != [] {
      var init, last := s[..|s| - 1], s[|s| - 1];
      var tail := if Equivalent(le, last, y) then [last] else [];
      assert s == init + [last];
      assert SortBy(s, le) == InsertBy(last, SortBy(init, le), le);
      SortByStable(init, le, y);
      SortBySorted(init, le);
      InsertByStable(last, SortBy(init, le), le, y);
      assert EquivClass(SortBy(s, le), le, y) == EquivClass(init, le, y) + tail;
      EquivClassAppend(init, [last], le, y);
      assert EquivClass([last], le, y) == tail + EquivClass([], le, y);
    }
  }

  lemma {:induction false} SortByOfSorted<T>(s: seq<T>, le: (T, T) -> bool)
    requires SortedBy(s, le)
    ensures SortBy(s, le) == s
  {
    if s != [] {
      var init, last := s[..|s| - 1], s[|s| - 1];
      assert s == init + [last];
      assert SortBy(s, le) == InsertBy(last, SortBy(init, le), le);
      assert SortedBy(init, le) by {
        forall i, j | 0 <= i < j < |init|
          ensures le(init[i], init[j])
        {
          assert init[i] == s[i] && init[j] == s[j];
        }
      }
      SortByOfSorted(init, le);
      forall k | 0 <= k < |init|
        ensures le(init[k], last)
      {
        assert init[k] == s[k];
      }
      InsertAtEnd(last, init, le);
    }
  }

  lemma {:induction false} InsertAtEnd<T>(x: T, s: seq<T>, le: (T, T) -> bool)
    requires forall k :: 0 <= k < |s| ==> le(s[k], x)
    ensures InsertBy(x, s, le) == s + [x]
  {
    if s != [] {
      InsertAtEnd(x, s[1..], le);
      assert s + [x] == [s[0]] + (s[1..] + [x]);
    }
  }

  /** Sorting a second time by the same order changes nothing. */
  lemma SortByIdempotent<T(!new)>(s: seq<T>, le: (T, T) -> bool)
    requires TotalPreorder(le)
    ensures SortBy(SortBy(s, le), le) == SortBy(s, le)
  {
    SortBySorted(s, le);
    SortByOfSorted(SortBy(s, le), le);
  }
}
