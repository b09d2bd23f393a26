// The in-place sort the three tools hand to sort.Slice. Go's sort.Slice is not
// stable and its algorithm is not part of the model: an insertion sort stands
// for it, and callers rely only on its contract (sorted and a permutation).
module Sorting {

  /** Every two values are comparable. */
  ghost predicate Total<T(!new)>(le: (T, T) -> bool)
  {
    forall x, y :: le(x, y) || le(y, x)
  }

  ghost predicate Transitive<T(!new)>(le: (T, T) -> bool)
  {
    forall x, y, z :: le(x, y) && le(y, z) ==> le(x, z)
  }

  /** No later element comes strictly before an earlier one. */
  ghost predicate Sorted<T>(s: seq<T>, le: (T, T) -> bool)
  {
    forall i, j :: 0 <= i < j < |s| ==> le(s[i], s[j])
  }

  /** Only neighbours are known to be in order. */
  ghost predicate AdjacentSorted<T>(s: seq<T>, le: (T, T) -> bool)
  {
    forall k :: 0 <= k && k + 1 < |s| ==> le(s[k], s[k + 1])
  }

  lemma {:induction false} AdjacentSortedIsSorted<T(!new)>(s: seq<T>, le: (T, T) -> bool)
    requires Transitive(le)
    requires AdjacentSorted(s, le)
    ensures Sorted(s, le)
  {
    if |s| > 1 {
      var t := s[1..];
      assert AdjacentSorted(t, le) by {
        forall k | 0 <= k && k + 1 < |t| ensures le(t[k], t[k + 1]) {
          assert t[k] == s[k + 1] && t[k + 1] == s[k + 2];
        }
      }
      AdjacentSortedIsSorted(t, le);
      forall i, j | 0 <= i < j < |s| ensures le(s[i], s[j]) {
        if i > 0 {
          assert s[i] == t[i - 1] && s[j] == t[j - 1];
        } else if j > 1 {
          assert le(s[0], s[1]);
          assert s[1] == t[0] && s[j] == t[j - 1];
        }
      }
    }
  }

  /** Neighbours of `s[j]` swapped. */
  function SwapLeft<T>(s: seq<T>, j: nat): (t: seq<T>)
    requires 0 < j < |s|
    ensures |t| == |s| && multiset(t) == multiset(s)
    ensures t[j - 1] == s[j] && t[j] == s[j - 1]
    ensures forall k :: 0 <= k < |s| && k != j - 1 && k != j ==> t[k] == s[k]
  {
    var t := s[j - 1 := s[j]][j := s[j - 1]];
    assert t == s[..j - 1] + [s[j], s[j - 1]] + s[j + 1..];
    assert s == s[..j - 1] + [s[j - 1], s[j]] + s[j + 1..];
    t
  }

  /** One step of the inner loop of SortBy keeps its invariant. */
  lemma SinkStep<T(!new)>(s: seq<T>, j: nat, i: nat, le: (T, T) -> bool)
    requires 0 < j <= i < |s| && Total(le)
    requires AdjacentSorted(s[..j], le) && AdjacentSorted(s[j..i + 1], le)
    requires j < i ==> le(s[j - 1], s[j + 1])
    requires !le(s[j - 1], s[j])
    ensures var t := SwapLeft(s, j);
      && AdjacentSorted(t[..j - 1], le)
      && AdjacentSorted(t[j - 1..i + 1], le)
      && (0 < j - 1 ==> le(t[j - 2], t[j]))
  {
    var t := SwapLeft(s, j);
    assert t[..j - 1] == s[..j - 1];
    var u := t[j - 1..i + 1];
    forall k | 0 <= k && k + 1 < |u| ensures le(u[k], u[k + 1]) {
      if k > 1 {
        assert u[k] == s[j..i + 1][k - 1];
      }
    }
    if 0 < j - 1 {
      assert le(s[..j][j - 2], s[..j][j - 1]);
    }
  }

  /** When the inner loop of SortBy stops, the first i + 1 elements are in order. */
  lemma SinkDone<T>(s: seq<T>, j: nat, i: nat, le: (T, T) -> bool)
    requires j <= i < |s|
    requires AdjacentSorted(s[..j], le) && AdjacentSorted(s[j..i + 1], le)
    requires 0 < j ==> le(s[j - 1], s[j])
    ensures AdjacentSorted(s[..i + 1], le)
  {
    var p := s[..i + 1];
    forall k | 0 <= k && k + 1 < |p| ensures le(p[k], p[k + 1]) {
      if k + 1 < j {
        assert p[k] == s[..j][k] && p[k + 1] == s[..j][k + 1];
      } else if j <= k {
        assert p[k] == s[j..i + 1][k - j] && p[k + 1] == s[j..i + 1][k - j + 1];
      }
    }
  }

  /** Sorts `a` in place so that `le` holds between every earlier and later element. */
  method SortBy<T(!new)>(a: array<T>, le: (T, T) -> bool)
    requires Total(le) && Transitive(le)
    modifies a
    ensures Sorted(a[..], le)
    ensures multiset(a[..]) == old(multiset(a[..]))
  {
    var i := 0;
    while i < a.Length
      invariant 0 <= i <= a.Length
      invariant AdjacentSorted(a[..i], le)
      invariant multiset(a[..]) == old(multiset(a[..]))
    {
      // Sink a[i] towards the front until its left neighbour is not greater.
      var j := i;
      assert a[j..i + 1] == [a[i]];
      while 0 < j && !le(a[j - 1], a[j])
        invariant 0 <= j <= i
        invariant AdjacentSorted(a[..j], le)
        invariant AdjacentSorted(a[j..i + 1], le)
        invariant 0 < j < i ==> le(a[j - 1], a[j + 1])
        invariant multiset(a[..]) == old(multiset(a[..]))
      {
        ghost var before := a[..];
        SinkStep(before, j, i, le);
        a[j - 1], a[j] := a[j], a[j - 1];
        assert a[..] == SwapLeft(before, j);
        j := j - 1;
      }
      SinkDone(a[..], j, i, le);
      i := i + 1;
    }
    assert a[..a.Length] == a[..];
    AdjacentSortedIsSorted(a[..], le);
  }

  /** No element occurs twice. */
  ghost predicate NoDuplicates<T(!new)>(s: seq<T>)
  {
    forall x :: multiset(s)[x] <= 1
  }

  /** An element found at two positions occurs twice. */
  lemma TwiceIsDuplicate<T>(s: seq<T>, i: nat, j: nat)
    requires i < j < |s| && s[i] == s[j]
    ensures multiset(s)[s[i]] >= 2
  {
    assert s == s[..j] + s[j..];
    assert s[i] in s[..j] && s[j] in s[j..];
  }
}
