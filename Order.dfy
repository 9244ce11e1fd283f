/** Go's string order and the in-place sort of the site index (sort.Strings). */
module Order {

  /**
   * a <= b for Go strings: lexicographic on bytes. On Unicode scalar values
   * this is the same order as on their UTF-8 encodings.
   */
  predicate LessEq(a: string, b: string) {
    if a == [] then true
    else if b == [] then false
    else if a[0] != b[0] then a[0] < b[0]
    else LessEq(a[1..], b[1..])
  }

  /** b agrees with a before index i and is larger at i. */
  ghost predicate SmallerAt(a: string, b: string, i: int) {
    0 <= i < |a| && i < |b| && a[..i] == b[..i] && a[i] < b[i]
  }

  lemma SmallerAtTail(a: string, b: string, i: int)
    requires a != [] && b != [] && a[0] == b[0] && 0 < i
    ensures SmallerAt(a, b, i) <==> SmallerAt(a[1..], b[1..], i - 1)
  {
    if i < |a| && i < |b| {
      assert a[..i] == [a[0]] + a[1..][..i - 1];
      assert b[..i] == [b[0]] + b[1..][..i - 1];
      assert a[..i] == b[..i] ==> a[..i][1..] == b[..i][1..];
      assert a[..i][1..] == a[1..][..i - 1] && b[..i][1..] == b[1..][..i - 1];
      assert a[1..][i - 1] == a[i] && b[1..][i - 1] == b[i];
    }
  }

  lemma PrefixTail(a: string, b: string)
    requires a != [] && b != [] && a[0] == b[0]
    ensures a <= b <==> a[1..] <= b[1..]
  {
    assert a == [a[0]] + a[1..];
    assert b == [b[0]] + b[1..];
  }

  /** LessEq is the usual lexicographic order: a prefix, or smaller at the first difference. */
  lemma {:induction false} LessEqIsLexicographic(a: string, b: string)
    ensures LessEq(a, b) <==> a <= b || exists i :: SmallerAt(a, b, i)
  {
    if a != [] && b != [] {
      if a[0] == b[0] {
        LessEqIsLexicographic(a[1..], b[1..]);
        PrefixTail(a, b);
        assert !SmallerAt(a, b, 0);
        if exists i :: SmallerAt(a[1..], b[1..], i) {
          var i :| SmallerAt(a[1..], b[1..], i);
          SmallerAtTail(a, b, i + 1);
        }
        if exists i :: SmallerAt(a, b, i) {
          var i :| SmallerAt(a, b, i);
          SmallerAtTail(a, b, i);
        }
      } else {
        assert a[..0] == b[..0];
        assert a[0] < b[0] ==> SmallerAt(a, b, 0);
        forall i | 0 < i ensures !SmallerAt(a, b, i) {
          if i <= |a| && i <= |b| {
            assert a[..i][0] != b[..i][0];
          }
        }
      }
    }
  }

  lemma {:induction false} LessEqTotal(a: string, b: string)
    ensures LessEq(a, b) || LessEq(b, a)
  {
    if a != [] && b != [] && a[0] == b[0] {
      LessEqTotal(a[1..], b[1..]);
    }
  }

  lemma {:induction false} LessEqAntisymmetric(a: string, b: string)
    requires LessEq(a, b) && LessEq(b, a)
    ensures a == b
  {
    if a != [] && b != [] {
      LessEqAntisymmetric(a[1..], b[1..]);
      assert a == [a[0]] + a[1..] && b == [b[0]] + b[1..];
    }
  }

  lemma {:induction false} LessEqTransitive(a: string, b: string, c: string)
    requires LessEq(a, b) && LessEq(b, c)
    ensures LessEq(a, c)
  {
    if a != [] && b != [] && c != [] && a[0] == b[0] == c[0] {
      LessEqTransitive(a[1..], b[1..], c[1..]);
    }
  }

  /** Non-decreasing in Go's string order. */
  ghost predicate Sorted(s: seq<string>) {
    forall i, j :: 0 <= i < j < |s| ==> LessEq(s[i], s[j])
  }

  ghost predicate AdjacentSorted(s: seq<string>) {
    SortedRange(s, 0, |s|)
  }

  /** Each neighbouring pair within s[lo..hi] is in order. */
  ghost predicate SortedRange(s: seq<string>, lo: int, hi: int) {
    forall k :: lo < k < hi && 0 < k < |s| ==> LessEq(s[k - 1], s[k])
  }

  lemma {:induction false} AdjacentSortedIsSorted(s: seq<string>)
    requires AdjacentSorted(s)
    ensures Sorted(s)
  {
    if 1 < |s| {
      var n := |s| - 1;
      var prefix := s[..n];
      assert AdjacentSorted(prefix);
      AdjacentSortedIsSorted(prefix);
      forall i, j | 0 <= i < j < |s| ensures LessEq(s[i], s[j]) {
        if j < n {
          assert LessEq(prefix[i], prefix[j]);
        } else if i < n - 1 {
          assert LessEq(prefix[i], prefix[n - 1]);
          LessEqTransitive(s[i], s[n - 1], s[n]);
        }
      }
    }
  }

  method Swap(a: array<string>, i: int, j: int)
    requires 0 <= i < a.Length && 0 <= j < a.Length
    modifies a
    ensures a[..] == old(a[..])[i := old(a[j])][j := old(a[i])]
    ensures multiset(a[..]) == multiset(old(a[..]))
  {
    a[i], a[j] := a[j], a[i];
  }

  /**
   * Moves a[i] left past every larger string before it, so that a[..i + 1]
   * is sorted when a[..i] was; the rest of the array is left alone.
   */
  method InsertAt(a: array<string>, i: int)
    requires 0 <= i < a.Length
    requires SortedRange(a[..], 0, i)
    modifies a
    ensures SortedRange(a[..], 0, i + 1)
    ensures a[i + 1..] == old(a[i + 1..])
    ensures multiset(a[..]) == multiset(old(a[..]))
  {
    var j := i;
    while 0 < j && !LessEq(a[j - 1], a[j])
      invariant 0 <= j <= i
      invariant SortedRange(a[..], 0, j)
      invariant SortedRange(a[..], j, i + 1)
      invariant 0 < j < i ==> LessEq(a[j - 1], a[j + 1])
      invariant a[i + 1..] == old(a[i + 1..])
      invariant multiset(a[..]) == multiset(old(a[..]))
    {
      ghost var before := a[..];
      LessEqTotal(a[j - 1], a[j]);
      Swap(a, j - 1, j);
      forall k | j - 1 < k < i + 1 ensures LessEq(a[k - 1], a[k]) {
        if k == j + 1 {
          assert a[k - 1] == before[j - 1] && a[k] == before[j + 1];
        } else if k > j + 1 {
          assert a[k - 1] == before[k - 1] && a[k] == before[k];
        }
      }
      forall k | 0 < k < j - 1 ensures LessEq(a[k - 1], a[k]) {
        assert a[k - 1] == before[k - 1] && a[k] == before[k];
      }
      if 1 < j {
        assert a[j - 2] == before[j - 2] && a[j] == before[j - 1];
        assert LessEq(before[j - 2], before[j - 1]);
      }
      j := j - 1;
    }
  }

  /** sort.Strings: sorts the slice in place. */
  method SortStrings(a: array<string>)
    modifies a
    ensures Sorted(a[..])
    ensures multiset(a[..]) == multiset(old(a[..]))
  {
    for i := 0 to a.Length
      invariant SortedRange(a[..], 0, i)
      invariant multiset(a[..]) == multiset(old(a[..]))
    {
      InsertAt(a, i);
    }
    AdjacentSortedIsSorted(a[..]);
  }
}
