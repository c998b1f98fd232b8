/** A stable sort by a "precedes or ties" relation, the contract of Java's
    Collections.sort: the result is ordered, is a permutation of the input, and
    elements the relation cannot tell apart keep their input order. For a total
    preorder these three facts fix the result, so insertion sort stands for the
    library's merge sort without loss. */
module StableSort {

  /** Places `x` in front of the first element it precedes or ties with. */
  function Insert<T>(x: T, s: seq<T>, le: (T, T) -> bool): (r: seq<T>)
    ensures |r| == |s| + 1
    ensures multiset(r) == multiset(s) + multiset{x}
  {
    if s == [] then [x]
    else if le(x, s[0]) then [x] + s
    else
      assert s == [s[0]] + s[1..];
      [s[0]] + Insert(x, s[1..], le)
  }

  function Sort<T>(s: seq<T>, le: (T, T) -> bool): (r: seq<T>)
    ensures |r| == |s|
    ensures multiset(r) == multiset(s)
  {
    if s == [] then []
    else
      assert s == [s[0]] + s[1..];
      Insert(s[0], Sort(s[1..], le), le)
  }

  ghost predicate Sorted<T>(s: seq<T>, le: (T, T) -> bool)
  {
    forall i, j :: 0 <= i < j < |s| ==> le(s[i], s[j])
  }

  /** Whenever `le` puts a later element in front of an earlier one, `tie` ordered them. */
  ghost predicate TiesOrderedBy<T>(s: seq<T>, le: (T, T) -> bool, tie: (T, T) -> bool)
  {
    forall i, j :: 0 <= i < j < |s| && le(s[j], s[i]) ==> tie(s[i], s[j])
  }

  ghost predicate TotalPreorder<T(!new)>(le: (T, T) -> bool)
  {
    && (forall a, b :: le(a, b) || le(b, a))
    && (forall a, b, c :: le(a, b) && le(b, c) ==> le(a, c))
  }

  /** A lower bound of `x` and of every element of `s` bounds the insertion too. */
  lemma InsertLowerBound<T>(x: T, s: seq<T>, le: (T, T) -> bool, y: T)
    requires le(y, x) && forall k :: 0 <= k < |s| ==> le(y, s[k])
    ensures forall j :: 0 <= j < |Insert(x, s, le)| ==> le(y, Insert(x, s, le)[j])
  {
    var ins := Insert(x, s, le);
    forall j | 0 <= j < |ins| ensures le(y, ins[j]) {
      assert ins[j] in multiset(ins);
      if ins[j] != x {
        assert ins[j] in multiset(s);
        var k :| 0 <= k < |s| && s[k] == ins[j];
      }
    }
  }

  lemma SortedTail<T>(s: seq<T>, le: (T, T) -> bool)
    requires s != [] && Sorted(s, le)
    ensures Sorted(s[1..], le) && forall k :: 0 <= k < |s| - 1 ==> le(s[0], s[1..][k])
  {
    var tail := s[1..];
    forall i, j | 0 <= i < j < |tail| ensures le(tail[i], tail[j]) {
      assert tail[i] == s[i + 1] && tail[j] == s[j + 1];
    }
    forall k | 0 <= k < |tail| ensures le(s[0], tail[k]) {
      assert tail[k] == s[k + 1];
    }
  }

  lemma {:induction false} InsertSorted<T(!new)>(x: T, s: seq<T>, le: (T, T) -> bool)
    requires TotalPreorder(le) && Sorted(s, le)
    ensures Sorted(Insert(x, s, le), le)
    decreases |s|
  {
    if s == [] {
    } else if le(x, s[0]) {
      var r := Insert(x, s, le);
      assert r == [x] + s;
      forall i, j | 0 <= i < j < |r| ensures le(r[i], r[j]) {
        if i == 0 {
          assert r[j] == s[j - 1];
          if j > 1 {
            assert le(s[0], s[j - 1]);
          }
        } else {
          assert r[i] == s[i - 1] && r[j] == s[j - 1];
        }
      }
    } else {
      var tail := s[1..];
      SortedTail(s, le);
      InsertSorted(x, tail, le);
      InsertLowerBound(x, tail, le, s[0]);
      var ins := Insert(x, tail, le);
      var r := Insert(x, s, le);
      assert r == [s[0]] + ins;
      forall i, j | 0 <= i < j < |r| ensures le(r[i], r[j]) {
        if i == 0 {
          assert r[j] == ins[j - 1];
        } else {
          assert r[i] == ins[i - 1] && r[j] == ins[j - 1];
        }
      }
    }
  }

  lemma {:induction false} SortSorted<T(!new)>(s: seq<T>, le: (T, T) -> bool)
    requires TotalPreorder(le)
    ensures Sorted(Sort(s, le), le)
    decreases |s|
  {
    if s != [] {
      SortSorted(s[1..], le);
      InsertSorted(s[0], Sort(s[1..], le), le);
    }
  }

  /** Sorting an ordered sequence changes nothing. */
  lemma {:induction false} SortOfSorted<T>(s: seq<T>, le: (T, T) -> bool)
    requires Sorted(s, le)
    ensures Sort(s, le) == s
    decreases |s|
  {
    if s != [] {
      var tail := s[1..];
      assert Sorted(tail, le) by {
        forall i, j | 0 <= i < j < |tail| ensures le(tail[i], tail[j]) {
          assert tail[i] == s[i + 1] && tail[j] == s[j + 1];
        }
      }
      SortOfSorted(tail, le);
      if tail != [] {
        assert le(s[0], s[1]);
      }
      assert [s[0]] + tail == s;
    }
  }

  /** Inserting an element that `tie`-precedes everything keeps ties in `tie` order. */
  lemma {:induction false} InsertStable<T>(x: T, s: seq<T>, le: (T, T) -> bool, tie: (T, T) -> bool)
    requires TiesOrderedBy(s, le, tie)
    requires forall k :: 0 <= k < |s| ==> tie(x, s[k])
    ensures TiesOrderedBy(Insert(x, s, le), le, tie)
    decreases |s|
  {
    var r := Insert(x, s, le);
    if s == [] {
    } else if le(x, s[0]) {
      assert r == [x] + s;
      forall i, j | 0 <= i < j < |r| && le(r[j], r[i]) ensures tie(r[i], r[j]) {
        if i == 0 {
          assert r[j] == s[j - 1];
        } else {
          assert r[i] == s[i - 1] && r[j] == s[j - 1];
        }
      }
    } else {
      var tail := s[1..];
      assert TiesOrderedBy(tail, le, tie) by {
        forall i, j | 0 <= i < j < |tail| && le(tail[j], tail[i]) ensures tie(tail[i], tail[j]) {
          assert tail[i] == s[i + 1] && tail[j] == s[j + 1];
        }
      }
      forall k | 0 <= k < |tail| ensures tie(x, tail[k]) {
        assert tail[k] == s[k + 1];
      }
      InsertStable(x, tail, le, tie);
      var ins := Insert(x, tail, le);
      assert r == [s[0]] + ins;
      forall i, j | 0 <= i < j < |r| && le(r[j], r[i]) ensures tie(r[i], r[j]) {
        if i == 0 {
          var y := ins[j - 1];
          assert r[j] == y;
          if y != x {
            assert y in multiset(ins);
            assert y in multiset(tail);
            var k :| 0 <= k < |tail| && tail[k] == y;
            assert s[k + 1] == y;
          }
        } else {
          assert r[i] == ins[i - 1] && r[j] == ins[j - 1];
        }
      }
    }
  }

  /** Stability: sorting a `tie`-ordered sequence leaves `le`-ties in `tie` order. */
  lemma {:induction false} SortStable<T>(s: seq<T>, le: (T, T) -> bool, tie: (T, T) -> bool)
    requires Sorted(s, tie)
    ensures TiesOrderedBy(Sort(s, le), le, tie)
    decreases |s|
  {
    if s != [] {
      var tail := s[1..];
      assert Sorted(tail, tie) by {
        forall i, j | 0 <= i < j < |tail| ensures tie(tail[i], tail[j]) {
          assert tail[i] == s[i + 1] && tail[j] == s[j + 1];
        }
      }
      SortStable(tail, le, tie);
      var sorted := Sort(tail, le);
      forall k | 0 <= k < |sorted| ensures tie(s[0], sorted[k]) {
        assert sorted[k] in multiset(sorted);
        assert sorted[k] in multiset(tail);
        var m :| 0 <= m < |tail| && tail[m] == sorted[k];
        assert s[m + 1] == sorted[k];
      }
      InsertStable(s[0], sorted, le, tie);
    }
  }
}
