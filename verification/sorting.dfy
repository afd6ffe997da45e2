/**
 * A stable sort by a comparator, as `Array.prototype.sort` performs it
 * (ECMAScript requires the sort to be stable), and the properties callers
 * rely on: the result is ordered, is a permutation of the input, and keeps
 * the input order among elements the comparator finds equal.
 */
module Sorting {

  /** The comparator is total and transitive: "a sorts no later than b". */
  ghost predicate TotalPreorder<T(!new)>(le: (T, T) -> bool) {
    && (forall a, b :: le(a, b) || le(b, a))
    && (forall a, b, c :: le(a, b) && le(b, c) ==> le(a, c))
  }

  ghost predicate Sorted<T>(s: seq<T>, le: (T, T) -> bool) {
    forall i, j :: 0 <= i < j < |s| ==> le(s[i], s[j])
  }

  /** `x` placed after every element of `t` that sorts no later than it. */
  function Insert<T>(t: seq<T>, x: T, le: (T, T) -> bool): (r: seq<T>)
    ensures |r| == |t| + 1
  {
    if t == [] || le(t[|t| - 1], x) then t + [x]
    else Insert(t[..|t| - 1], x, le) + [t[|t| - 1]]
  }

  /** Insertion sort: each element in turn is inserted into the sorted prefix. */
  function Sort<T>(s: seq<T>, le: (T, T) -> bool): (r: seq<T>)
    ensures |r| == |s|
  {
    if s == [] then [] else Insert(Sort(s[..|s| - 1], le), s[|s| - 1], le)
  }

  /** The elements of `s` that the comparator finds equal to `y`, in their order in `s`. */
  function Ties<T>(s: seq<T>, y: T, le: (T, T) -> bool): seq<T> {
    if s == [] then []
    else Ties(s[..|s| - 1], y, le) + (if le(s[|s| - 1], y) && le(y, s[|s| - 1]) then [s[|s| - 1]] else [])
  }

  lemma {:induction false} InsertPermutes<T>(t: seq<T>, x: T, le: (T, T) -> bool)
    ensures multiset(Insert(t, x, le)) == multiset(t) + multiset{x}
  {
    if t != [] && !le(t[|t| - 1], x) {
      InsertPermutes(t[..|t| - 1], x, le);
      assert t == t[..|t| - 1] + [t[|t| - 1]];
    }
  }

  lemma {:induction false} SortPermutes<T>(s: seq<T>, le: (T, T) -> bool)
    ensures multiset(Sort(s, le)) == multiset(s)
  {
    if s != [] {
      SortPermutes(s[..|s| - 1], le);
      InsertPermutes(Sort(s[..|s| - 1], le), s[|s| - 1], le);
      assert s == s[..|s| - 1] + [s[|s| - 1]];
    }
  }

  lemma {:induction false} InsertSorted<T(!new)>(t: seq<T>, x: T, le: (T, T) -> bool)
    requires TotalPreorder(le) && Sorted(t, le)
    ensures Sorted(Insert(t, x, le), le)
  {
    if t == [] {
    } else if le(t[|t| - 1], x) {
      var r := t + [x];
      forall i, j | 0 <= i < j < |r| ensures le(r[i], r[j]) {
        if j == |t| && i < |t| - 1 {
          assert le(t[i], t[|t| - 1]);
        }
      }
    } else {
      var u := t[..|t| - 1];
      var last := t[|t| - 1];
      InsertSorted(u, x, le);
      InsertPermutes(u, x, le);
      var v := Insert(u, x, le);
      forall e | e in v ensures le(e, last) {
        assert e in multiset(v);
        if e != x {
          assert e in multiset(u);
          var k :| 0 <= k < |u| && u[k] == e;
          assert le(t[k], t[|t| - 1]);
        }
      }
      var r := v + [last];
      forall i, j | 0 <= i < j < |r| ensures le(r[i], r[j]) {
        if j == |v| {
          assert r[i] in v;
        }
      }
    }
  }

  lemma {:induction false} SortSorted<T(!new)>(s: seq<T>, le: (T, T) -> bool)
    requires TotalPreorder(le)
    ensures Sorted(Sort(s, le), le)
  {
    if s != [] {
      SortSorted(s[..|s| - 1], le);
      InsertSorted(Sort(s[..|s| - 1], le), s[|s| - 1], le);
    }
  }

  lemma {:induction false} TiesOfAppend<T>(s: seq<T>, x: T, y: T, le: (T, T) -> bool)
    ensures Ties(s + [x], y, le) == Ties(s, y, le) + (if le(x, y) && le(y, x) then [x] else [])
  {
    assert (s + [x])[..|s + [x]| - 1] == s;
  }

  lemma {:induction false} InsertTies<T(!new)>(t: seq<T>, x: T, y: T, le: (T, T) -> bool)
    requires TotalPreorder(le)
    ensures Ties(Insert(t, x, le), y, le) == Ties(t, y, le) + (if le(x, y) && le(y, x) then [x] else [])
  {
    if t == [] || le(t[|t| - 1], x) {
      TiesOfAppend(t, x, y, le);
    } else {
      var u := t[..|t| - 1];
      var last := t[|t| - 1];
      InsertTies(u, x, y, le);
      TiesOfAppend(Insert(u, x, le), last, y, le);
      // `last` sorts strictly after `x`, so the two are never tied with the same `y`.
      assert !(le(x, y) && le(y, x) && le(last, y) && le(y, last));
    }
  }

  /** Stability: among elements the comparator finds equal, the sort keeps the input order. */
  lemma {:induction false} SortStable<T(!new)>(s: seq<T>, y: T, le: (T, T) -> bool)
    requires TotalPreorder(le)
    ensures Ties(Sort(s, le), y, le) == Ties(s, y, le)
  {
    if s != [] {
      SortStable(s[..|s| - 1], y, le);
      InsertTies(Sort(s[..|s| - 1], le), s[|s| - 1], y, le);
    }
  }
}
