/** Ascending order on integer sequences, and the sorted copy that
    `[...arr].sort((a, b) => a - b)` produces in the binary search handler. */
module Order {

  /** Every element is at most every later one. */
  ghost predicate Sorted(s: seq<int>) {
    forall p, q :: 0 <= p < q < |s| ==> s[p] <= s[q]
  }

  /** `x` placed before the first element of `s` that is not smaller than it. */
  function InsertSorted(s: seq<int>, x: int): seq<int> {
    if s == [] || x <= s[0] then [x] + s else [s[0]] + InsertSorted(s[1..], x)
  }

  /** Inserting adds exactly one `x` to the elements. */
  lemma {:induction false} InsertSortedMultiset(s: seq<int>, x: int)
    ensures |InsertSorted(s, x)| == |s| + 1
    ensures multiset(InsertSorted(s, x)) == multiset(s) + multiset{x}
  {
    if s != [] && x > s[0] {
      InsertSortedMultiset(s[1..], x);
      assert s == [s[0]] + s[1..];
    }
  }

  /** Inserting into a sorted sequence adds exactly `x` and keeps it sorted. */
  lemma {:induction false} InsertSortedSpec(s: seq<int>, x: int)
    requires Sorted(s)
    ensures |InsertSorted(s, x)| == |s| + 1
    ensures multiset(InsertSorted(s, x)) == multiset(s) + multiset{x}
    ensures Sorted(InsertSorted(s, x))
  {
    InsertSortedMultiset(s, x);
    if s == [] || x <= s[0] {
      SortedCons(x, s);
    } else {
      var rest := InsertSorted(s[1..], x);
      InsertSortedSpec(s[1..], x);
      forall k | 0 <= k < |rest| ensures s[0] <= rest[k] {
        assert rest[k] in multiset(s[1..]) + multiset{x};
        if rest[k] != x {
          var j :| 0 <= j < |s| - 1 && s[1..][j] == rest[k];
          assert s[0] <= s[j + 1];
        }
      }
      SortedCons(s[0], rest);
    }
  }

  /** Putting a lower bound of a sorted sequence in front keeps it sorted. */
  lemma SortedCons(h: int, t: seq<int>)
    requires Sorted(t)
    requires forall k :: 0 <= k < |t| ==> h <= t[k]
    ensures Sorted([h] + t)
  {
  }

  /** The ascending permutation of `s`, built by insertion: what the numeric comparator
      sort of JavaScript returns. */
  function SortAscending(s: seq<int>): seq<int> {
    if s == [] then [] else InsertSorted(SortAscending(s[..|s| - 1]), s[|s| - 1])
  }

  /** `SortAscending` returns an ascending permutation of its input. */
  lemma {:induction false} SortAscendingSpec(s: seq<int>)
    ensures |SortAscending(s)| == |s|
    ensures multiset(SortAscending(s)) == multiset(s)
    ensures Sorted(SortAscending(s))
  {
    if s != [] {
      var init := s[..|s| - 1];
      SortAscendingSpec(init);
      InsertSortedSpec(SortAscending(init), s[|s| - 1]);
      assert s == init + [s[|s| - 1]];
    }
  }

  /** Sorting neither adds nor drops a value. */
  lemma SortAscendingMembers(s: seq<int>, x: int)
    ensures x in SortAscending(s) <==> x in s
  {
    SortAscendingSpec(s);
    assert x in multiset(SortAscending(s)) <==> x in multiset(s);
  }

  /** A sorted permutation is unique: any correct ascending sort of `a` yields `SortAscending(a)`. */
  lemma {:induction false} SortedPermutationUnique(a: seq<int>, b: seq<int>)
    requires Sorted(a) && Sorted(b)
    requires multiset(a) == multiset(b)
    ensures a == b
  {
    if a == [] || b == [] {
      assert |a| == |multiset(a)| == |multiset(b)| == |b|;
    } else {
      assert a[0] in multiset(b) && b[0] in multiset(a);
      HeadIsLeast(b, a[0]);
      HeadIsLeast(a, b[0]);
      TailsSameMultiset(a, b);
      SortedTail(a);
      SortedTail(b);
      SortedPermutationUnique(a[1..], b[1..]);
      assert a == [a[0]] + a[1..] && b == [b[0]] + b[1..];
    }
  }

  /** Two equal multisets of sequences with the same head have equal multisets of tails. */
  lemma TailsSameMultiset(a: seq<int>, b: seq<int>)
    requires a != [] && b != [] && a[0] == b[0]
    requires multiset(a) == multiset(b)
    ensures multiset(a[1..]) == multiset(b[1..])
  {
    assert a == [a[0]] + a[1..] && b == [b[0]] + b[1..];
    assert multiset(a[1..]) == multiset(a) - multiset{a[0]};
    assert multiset(b[1..]) == multiset(b) - multiset{b[0]};
  }

  /** Dropping the first element keeps a sequence sorted. */
  lemma SortedTail(s: seq<int>)
    requires Sorted(s) && s != []
    ensures Sorted(s[1..])
  {
  }

  /** The first element of a sorted sequence is at most each of its elements. */
  lemma HeadIsLeast(s: seq<int>, x: int)
    requires Sorted(s) && x in s
    ensures s[0] <= x
  {
  }

  /** Sorting an already ascending sequence changes nothing. */
  lemma SortAscendingOfSorted(s: seq<int>)
    requires Sorted(s)
    ensures SortAscending(s) == s
  {
    SortAscendingSpec(s);
    SortedPermutationUnique(SortAscending(s), s);
  }

  /** A sorted rearrangement of `orig` is the ascending sort of `orig`. */
  lemma SortedPermutationIsSort(s: seq<int>, orig: seq<int>)
    requires Sorted(s) && multiset(s) == multiset(orig)
    ensures s == SortAscending(orig)
  {
    SortAscendingSpec(orig);
    SortedPermutationUnique(s, SortAscending(orig));
  }
}
