/**
 * A stable sort by a total preorder. Python's `list.sort` (with or without a key)
 * is stable, and so is this insertion sort (`SortByStable`): elements that
 * compare equal keep their relative order.
 */
module Sorting {

  /** `le` is total and transitive: the "key(a) <= key(b)" of a sort key. */
  ghost predicate TotalPreorder<T(!new)>(le: (T, T) -> bool) {
    && (forall a, b :: le(a, b) || le(b, a))
    && (forall a, b, c :: le(a, b) && le(b, c) ==> le(a, c))
  }

  ghost predicate SortedBy<T>(s: seq<T>, le: (T, T) -> bool) {
    forall i, j :: 0 <= i < j < |s| ==> le(s[i], s[j])
  }

  /** Puts `x` in front of the first element it is `le` to. */
  function Insert<T>(x: T, s: seq<T>, le: (T, T) -> bool): (r: seq<T>)
    ensures multiset(r) == multiset(s) + multiset{x}
    ensures |r| == |s| + 1
  {
    if s == [] then [x]
    else if le(x, s[0]) then [x] + s
    else
      assert s == [s[0]] + s[1..];
      [s[0]] + Insert(x, s[1..], le)
  }

  /** Stable insertion sort. */
  function SortBy<T>(s: seq<T>, le: (T, T) -> bool): (r: seq<T>)
    ensures multiset(r) == multiset(s)
    ensures |r| == |s|
  {
    if s == [] then []
    else
      assert s == [s[0]] + s[1..];
      Insert(s[0], SortBy(s[1..], le), le)
  }

  lemma {:induction false} InsertSorted<T(!new)>(x: T, s: seq<T>, le: (T, T) -> bool)
    requires TotalPreorder(le) && SortedBy(s, le)
    ensures SortedBy(Insert(x, s, le), le)
  {
    if s == [] {
    } else if le(x, s[0]) {
      var r := [x] + s;
      forall i, j | 0 <= i < j < |r| ensures le(r[i], r[j]) {
        if i == 0 && j > 1 {
          assert le(s[0], s[j - 1]);
        }
      }
    } else {
      var t := Insert(x, s[1..], le);
      InsertSorted(x, s[1..], le);
      var r := [s[0]] + t;
      assert le(s[0], x);
      forall j | 0 <= j < |t| ensures le(s[0], t[j]) {
        assert t[j] in multiset(t);
        if t[j] != x {
          assert t[j] in multiset(s[1..]);
          var k :| 0 <= k < |s[1..]| && s[1..][k] == t[j];
          assert s[k + 1] == t[j];
        }
      }
      assert forall i, j | 0 <= i < j < |r| :: le(r[i], r[j]) by {
        forall i, j | 0 <= i < j < |r| ensures le(r[i], r[j]) {
          if i > 0 {
            assert r[i] == t[i - 1] && r[j] == t[j - 1];
          } else {
            assert r[j] == t[j - 1];
          }
        }
      }
    }
  }

  /** The output of SortBy is sorted (it is a permutation by SortBy's own contract). */
  lemma {:induction false} SortBySorted<T(!new)>(s: seq<T>, le: (T, T) -> bool)
    requires TotalPreorder(le)
    ensures SortedBy(SortBy(s, le), le)
  {
    if s != [] {
      SortBySorted(s[1..], le);
      InsertSorted(s[0], SortBy(s[1..], le), le);
    }
  }

  /** Sorting an already sorted sequence changes nothing. */
  lemma {:induction false} SortByOfSorted<T>(s: seq<T>, le: (T, T) -> bool)
    requires SortedBy(s, le)
    ensures SortBy(s, le) == s
  {
    if s != [] {
      assert SortedBy(s[1..], le) by {
        forall i, j | 0 <= i < j < |s[1..]| ensures le(s[1..][i], s[1..][j]) {
          assert s[1..][i] == s[i + 1] && s[1..][j] == s[j + 1];
        }
      }
      SortByOfSorted(s[1..], le);
      if |s| > 1 {
        assert le(s[0], s[1]);
        assert s[1..][0] == s[1];
      }
      assert s == [s[0]] + s[1..];
    }
  }

  /** The elements of `s` that tie with `x` under `le` (each is `le` to the other), in order. */
  ghost function Ties<T>(s: seq<T>, x: T, le: (T, T) -> bool): seq<T> {
    if s == [] then []
    else (if le(s[0], x) && le(x, s[0]) then [s[0]] else []) + Ties(s[1..], x, le)
  }

  lemma TiesCons<T>(y: T, t: seq<T>, x: T, le: (T, T) -> bool)
    ensures Ties([y] + t, x, le) == Ties([y], x, le) + Ties(t, x, le)
  {
    var r := [y] + t;
    assert r[0] == y && r[1..] == t && [y][1..] == [];
  }

  /** If `y` does not precede `a`, the two do not both tie with `x`, so their ties commute. */
  lemma TiesSwap<T(!new)>(y: T, a: T, x: T, le: (T, T) -> bool)
    requires TotalPreorder(le) && !le(y, a)
    ensures Ties([a], x, le) + Ties([y], x, le) == Ties([y], x, le) + Ties([a], x, le)
  {
    assert [a][1..] == [] && [y][1..] == [];
  }

  /** Inserting `y` puts it in front of every element it ties with. */
  lemma {:induction false} InsertTies<T(!new)>(y: T, t: seq<T>, le: (T, T) -> bool, x: T)
    requires TotalPreorder(le)
    ensures Ties(Insert(y, t, le), x, le) == Ties([y], x, le) + Ties(t, x, le)
  {
    if t == [] {
      assert Insert(y, t, le) == [y] + t;
    } else if le(y, t[0]) {
      TiesCons(y, t, x, le);
    } else {
      assert Insert(y, t, le) == [t[0]] + Insert(y, t[1..], le);
      InsertTies(y, t[1..], le, x);
      TiesCons(t[0], Insert(y, t[1..], le), x, le);
      TiesCons(t[0], t[1..], x, le);
      TiesSwap(y, t[0], x, le);
      assert t == [t[0]] + t[1..];
    }
  }

  /** SortBy is stable: the elements tying with any `x` keep their input order. */
  lemma {:induction false} SortByStable<T(!new)>(s: seq<T>, le: (T, T) -> bool, x: T)
    requires TotalPreorder(le)
    ensures Ties(SortBy(s, le), x, le) == Ties(s, x, le)
  {
    if s != [] {
      var rest := SortBy(s[1..], le);
      SortByStable(s[1..], le, x);
      InsertTies(s[0], rest, le, x);
      assert SortBy(s, le) == Insert(s[0], rest, le);
      var head := if le(s[0], x) && le(x, s[0]) then [s[0]] else [];
      assert [s[0]][1..] == [];
      assert Ties([s[0]], x, le) == head + Ties([], x, le) == head;
      assert Ties(s, x, le) == head + Ties(s[1..], x, le);
    }
  }
}
