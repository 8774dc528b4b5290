/** The facts the three sorting handlers keep about their working copy `newArr`
    between two steps, and the lemmas that carry them across one step. */
module SortSteps {
  import opened Order

  /** The slots `[lo, hi)` are in ascending order. */
  ghost predicate SortedBetween(s: seq<int>, lo: int, hi: int) {
    0 <= lo && hi <= |s| && forall p, q :: lo <= p < q < hi ==> s[p] <= s[q]
  }

  /** No slot before `m` holds more than a slot from `m` on. */
  ghost predicate Partitioned(s: seq<int>, m: int) {
    0 <= m <= |s| && forall p, q :: 0 <= p < m <= q < |s| ==> s[p] <= s[q]
  }

  /** Slot `j` holds a largest element of `s[..j + 1]`. */
  ghost predicate MaxUpTo(s: seq<int>, j: int) {
    0 <= j < |s| && forall p :: 0 <= p <= j ==> s[p] <= s[j]
  }

  /** Slot `m` holds the first least element of `s[i..]`: no slot from `i` on holds less,
      and every slot from `i` up to `m` holds more. */
  ghost predicate FirstLeast(s: seq<int>, i: int, m: int) {
    && 0 <= i <= m < |s|
    && (forall p :: i <= p < |s| ==> s[m] <= s[p])
    && (forall p :: i <= p < m ==> s[m] < s[p])
  }

  /** `s` with the elements at `i` and `j` exchanged. */
  function Swapped(s: seq<int>, i: int, j: int): (t: seq<int>)
    requires 0 <= i < |s| && 0 <= j < |s|
    ensures |t| == |s| && t[i] == s[j] && t[j] == s[i]
    ensures forall k :: 0 <= k < |s| && k != i && k != j ==> t[k] == s[k]
    ensures multiset(t) == multiset(s)
  {
    var t := s[i := s[j]][j := s[i]];
    assert multiset(t) == multiset(s) by {
      if i != j {
        assert t == s[i := s[j]][j := s[i]];
      }
    }
    t
  }

  /** A sorted front, a sorted back and nothing in front above the back: all sorted. */
  lemma JoinSorted(s: seq<int>, m: int)
    requires SortedBetween(s, 0, m) && SortedBetween(s, m, |s|) && Partitioned(s, m)
    ensures Sorted(s)
  {
  }

  /** One compare-and-swap of bubble sort at `j`, inside a pass over `[0, m)`: the largest
      element seen moves up to `j + 1`; the sorted back `[m, |s|)` and its bound stay; and if
      nothing has been swapped yet in this pass, the front up to `j + 1` is sorted. */
  lemma BubbleStep(s: seq<int>, t: seq<int>, j: int, m: int, swapped: bool, swappedNow: bool)
    requires 0 <= j && j + 1 < m <= |s|
    requires MaxUpTo(s, j) && SortedBetween(s, m, |s|) && Partitioned(s, m)
    requires !swapped ==> SortedBetween(s, 0, j + 1)
    requires swappedNow <==> s[j] > s[j + 1]
    requires t == if swappedNow then Swapped(s, j, j + 1) else s
    ensures MaxUpTo(t, j + 1) && SortedBetween(t, m, |t|) && Partitioned(t, m)
    ensures !(swapped || swappedNow) ==> SortedBetween(t, 0, j + 2)
  {
  }

  /** At the end of a bubble pass over `[0, m)` the largest element of the front is at
      `m - 1`, so the sorted back grows by one slot; a pass without a swap found the
      front sorted, so the whole sequence is sorted. */
  lemma BubblePassDone(s: seq<int>, m: int, swapped: bool)
    requires 1 <= m <= |s|
    requires MaxUpTo(s, m - 1) && SortedBetween(s, m, |s|) && Partitioned(s, m)
    requires !swapped ==> SortedBetween(s, 0, m)
    ensures SortedBetween(s, m - 1, |s|) && Partitioned(s, m - 1)
    ensures !swapped ==> Sorted(s)
  {
    if !swapped {
      JoinSorted(s, m);
    }
  }

  /** Swapping a least element of `s[i..]` into slot `i` extends the sorted, partitioned front by one. */
  lemma SelectionStep(s: seq<int>, i: int, minIdx: int)
    requires SortedBetween(s, 0, i) && Partitioned(s, i)
    requires i <= minIdx < |s|
    requires forall p :: i <= p < |s| ==> s[minIdx] <= s[p]
    ensures SortedBetween(Swapped(s, i, minIdx), 0, i + 1) && Partitioned(Swapped(s, i, minIdx), i + 1)
  {
    var t := Swapped(s, i, minIdx);
    forall p, q | 0 <= p < i + 1 <= q < |t| ensures t[p] <= t[q] {
      if p < i {
        assert t[p] == s[p];
        assert q == minIdx || s[p] <= t[q];
      }
    }
  }

  /** Insertion sort's working copy while the elements of `before[j + 1..i]` are shifted up:
      slot `j + 1` still holds its old element, and a copy of it already sits at `j + 2`. */
  function ShiftedUp(before: seq<int>, j: int, i: int): (s: seq<int>)
    requires -1 <= j < i < |before|
    ensures |s| == |before|
    // the slot-by-slot reading, kept for ShiftStep, ShiftLarger and InsertKeySorted
    ensures forall k :: 0 <= k < |s| ==> s[k] == if j + 1 < k <= i then before[k - 1] else before[k]
  {
    seq(|before|, k requires 0 <= k < |before| => if j + 1 < k <= i then before[k - 1] else before[k])
  }

  /** The shifted copy, as slices of `before`: the front up to `j + 1`, the shifted run,
      the back after `i`. */
  lemma ShiftedUpSlices(before: seq<int>, j: int, i: int)
    requires -1 <= j < i < |before|
    ensures ShiftedUp(before, j, i) == before[..j + 2] + before[j + 1..i] + before[i + 1..]
  {
    var s := ShiftedUp(before, j, i);
    var t := before[..j + 2] + before[j + 1..i] + before[i + 1..];
    forall k | 0 <= k < |s| ensures s[k] == t[k] {
      if k < j + 2 {
      } else if k <= i {
        assert t[k] == before[j + 1..i][k - j - 2];
      } else {
        assert t[k] == before[i + 1..][k - i - 1];
      }
    }
  }

  /** Copying slot `j` into slot `j + 1` shifts one more element. */
  lemma ShiftStep(before: seq<int>, j: int, i: int)
    requires 0 <= j < i < |before|
    ensures ShiftedUp(before, j, i)[j] == before[j]
    ensures ShiftedUp(before, j, i)[j + 1 := before[j]] == ShiftedUp(before, j - 1, i)
    ensures j > 0 ==> ShiftedUp(before, j - 1, i)[j - 1] == before[j - 1]
  {
    var s := ShiftedUp(before, j, i);
    var t := ShiftedUp(before, j - 1, i);
    assert s[j + 1 := before[j]] == t;
  }

  /** Before any shift the working copy is the copy taken at the start of the step. */
  lemma ShiftedUpStart(before: seq<int>, i: int)
    requires 0 <= i < |before|
    ensures ShiftedUp(before, i - 1, i) == before
  {
  }

  /** While shifting, the copy holds `before` with `before[i]` (the key) replaced by a
      second copy of `before[j + 1]`. */
  lemma {:induction false} ShiftedUpMultiset(before: seq<int>, j: int, i: int)
    requires -1 <= j < i < |before|
    ensures multiset(ShiftedUp(before, j, i)) + multiset{before[i]} == multiset(before) + multiset{before[j + 1]}
  {
    ShiftedUpSlices(before, j, i);
    assert before == before[..j + 2] + before[j + 2..i + 1] + before[i + 1..];
    assert before[j + 1..i] + [before[i]] == [before[j + 1]] + before[j + 2..i + 1];
    calc {
      multiset(ShiftedUp(before, j, i)) + multiset{before[i]};
      multiset(before[..j + 2]) + multiset(before[j + 1..i] + [before[i]]) + multiset(before[i + 1..]);
      multiset(before[..j + 2]) + multiset([before[j + 1]] + before[j + 2..i + 1]) + multiset(before[i + 1..]);
      multiset(before) + multiset{before[j + 1]};
    }
  }

  /** Writing the key into the gap at `j + 1` once no larger element is left before it
      sorts the front up to `i + 1`. */
  lemma InsertKeySorted(before: seq<int>, j: int, i: int)
    requires -1 <= j < i < |before|
    requires SortedBetween(before, 0, i)
    requires forall p :: j + 1 <= p < i ==> before[p] > before[i]
    requires j < 0 || before[j] <= before[i]
    ensures SortedBetween(ShiftedUp(before, j, i)[j + 1 := before[i]], 0, i + 1)
  {
    var t := ShiftedUp(before, j, i)[j + 1 := before[i]];
    assert forall k :: 0 <= k <= j ==> t[k] == before[k];
    assert forall k :: j + 2 <= k <= i ==> t[k] == before[k - 1];
    forall p, q | 0 <= p < q < i + 1 ensures t[p] <= t[q] {
      if q <= j {
      } else if q == j + 1 {
      } else if p <= j {
        assert before[p] <= before[j];
      }
    }
  }

  /** Writing the key back into the gap makes the copy a permutation of `before` again. */
  lemma InsertKeyPermutes(before: seq<int>, j: int, i: int)
    requires -1 <= j < i < |before|
    ensures multiset(ShiftedUp(before, j, i)[j + 1 := before[i]]) == multiset(before)
  {
    var s := ShiftedUp(before, j, i);
    var t := s[j + 1 := before[i]];
    ShiftedUpMultiset(before, j, i);
    assert s[j + 1] == before[j + 1];
    assert multiset(t) + multiset{before[j + 1]} == multiset(s) + multiset{before[i]};
    forall x ensures multiset(t)[x] == multiset(before)[x] {
      assert (multiset(t) + multiset{before[j + 1]})[x] == (multiset(before) + multiset{before[j + 1]})[x];
    }
  }

  /** One occurrence of `key` is lost and a larger element `dup` is held twice: what an
      abort between two shifts of insertion sort leaves. */
  ghost predicate KeyOverwritten(after: seq<int>, before: seq<int>) {
    exists key, dup ::
      && key < dup
      && multiset(after) + multiset{key} == multiset(before) + multiset{dup}
      && multiset(after)[dup] >= 2
  }

  /** After at least one shift, the working copy has lost the key to a larger duplicate. */
  lemma ShiftOverwritesKey(before: seq<int>, start: seq<int>, j: int, i: int)
    requires -1 <= j < i - 1 && i < |before|
    requires multiset(before) == multiset(start)
    requires forall p :: j + 1 <= p < i ==> before[p] > before[i]
    ensures KeyOverwritten(ShiftedUp(before, j, i), start)
  {
    var s := ShiftedUp(before, j, i);
    ShiftedUpMultiset(before, j, i);
    TwoCopies(s, j + 1, j + 2);
    assert before[i] < before[j + 1];
  }

  /** Two slots holding the same value put two copies of it in the multiset. */
  lemma TwoCopies(s: seq<int>, a: int, b: int)
    requires 0 <= a < b < |s| && s[a] == s[b]
    ensures multiset(s)[s[a]] >= 2
  {
    assert s == s[..b] + s[b..];
    assert s[a] in multiset(s[..b]) && s[b] in multiset(s[b..]);
  }
}
