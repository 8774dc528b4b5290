/** The copy-and-edit step of the Insert, Delete and Update handlers, with the
    guards that make a handler return before touching anything. The index and
    the value arrive as `parseInt` results, so either may be NaN. */
module Edits {
  import opened JsNumbers

  /** What an edit handler does to the array: it returns early, or it publishes `next`. */
  datatype Edit = Ignored | Applied(next: seq<int>)

  /** Where `splice(start, 0, v)` puts `v` in an array of length `len`: a negative start
      counts back from the end (and stops at 0), a start past the end means the end. */
  function SpliceStart(start: int, len: nat): nat {
    if start < 0 then (if len + start < 0 then 0 else len + start)
    else if start < len then start
    else len
  }

  /** Where `insertElement` puts the value: at the end (`push`) when the index is NaN or not
      below the length, otherwise where `splice(idx, 0, val)` puts it. */
  function InsertPosition(idx: Num, len: nat): (p: nat)
    ensures p <= len
    ensures idx.NaN? || idx.value >= len ==> p == len
    ensures idx.Int? && 0 <= idx.value < len ==> p == idx.value
    ensures idx.Int? && idx.value < 0 ==> p == if -idx.value <= len then len + idx.value else 0
  {
    if idx.NaN? || idx.value >= len then len else SpliceStart(idx.value, len)
  }

  /** `insertElement`: nothing when the value is NaN; otherwise the value enters at
      `InsertPosition`, with the elements before it unchanged and those after it moved up by one. */
  function Insert(s: seq<int>, val: Num, idx: Num): (r: Edit)
    ensures r.Applied? <==> val.Int?
    ensures r.Applied? ==>
      var p := InsertPosition(idx, |s|);
      && |r.next| == |s| + 1
      && r.next[p] == val.value
      && (forall k :: 0 <= k < p ==> r.next[k] == s[k])
      && (forall k :: p <= k < |s| ==> r.next[k + 1] == s[k])
  {
    if val.NaN? then
      Ignored
    else
      var p := InsertPosition(idx, |s|);
      Applied(s[..p] + [val.value] + s[p..])
  }

  /** `deleteElement`: nothing unless the index is an integer in `[0, |s|)`; otherwise
      exactly the element at the index goes, and the others keep their order. */
  function Delete(s: seq<int>, idx: Num): (r: Edit)
    ensures r.Applied? <==> idx.Int? && 0 <= idx.value < |s|
    ensures r.Applied? ==>
      && |r.next| == |s| - 1
      && (forall k :: 0 <= k < idx.value ==> r.next[k] == s[k])
      && (forall k :: idx.value <= k < |r.next| ==> r.next[k] == s[k + 1])
  {
    if idx.NaN? || idx.value < 0 || idx.value >= |s| then
      Ignored
    else
      Applied(s[..idx.value] + s[idx.value + 1..])
  }

  /** `updateElement`: nothing unless the value is an integer and the index an integer in
      `[0, |s|)`; otherwise only the element at the index changes, to the value. */
  function Update(s: seq<int>, val: Num, idx: Num): (r: Edit)
    ensures r.Applied? <==> val.Int? && idx.Int? && 0 <= idx.value < |s|
    ensures r.Applied? ==>
      && |r.next| == |s|
      && r.next[idx.value] == val.value
      && (forall k :: 0 <= k < |s| && k != idx.value ==> r.next[k] == s[k])
  {
    if val.NaN? || idx.NaN? || idx.value < 0 || idx.value >= |s| then
      Ignored
    else
      Applied(s[idx.value := val.value])
  }

  /** `arr.filter((_, i) => i !== idx)`, element by element. */
  function WithoutPosition(s: seq<int>, idx: int): seq<int> {
    if s == [] then [] else (if idx == 0 then [] else [s[0]]) + WithoutPosition(s[1..], idx - 1)
  }

  /** Filtering out position `i` leaves the elements before it followed by those after it. */
  lemma {:induction false} WithoutPositionSlices(s: seq<int>, i: int)
    requires 0 <= i < |s|
    ensures WithoutPosition(s, i) == s[..i] + s[i + 1..]
  {
    if i > 0 {
      var t := s[1..];
      WithoutPositionSlices(t, i - 1);
      assert WithoutPosition(s, i) == [s[0]] + WithoutPosition(t, i - 1);
      assert s[..i] == [s[0]] + t[..i - 1];
      assert s[i + 1..] == t[i..];
    } else {
      WithoutPositionOutside(s[1..], -1);
    }
  }

  /** Deleting by slicing agrees with the `filter` the handler uses. */
  lemma DeleteIsFilter(s: seq<int>, i: int)
    requires 0 <= i < |s|
    ensures Delete(s, Int(i)) == Applied(WithoutPosition(s, i))
  {
    WithoutPositionSlices(s, i);
  }

  /** Filtering out a position the array does not have keeps every element. */
  lemma {:induction false} WithoutPositionOutside(s: seq<int>, idx: int)
    requires idx < 0 || idx >= |s|
    ensures WithoutPosition(s, idx) == s
  {
    if s != [] {
      WithoutPositionOutside(s[1..], idx - 1);
    }
  }

  /** Deleting the inserted position undoes an insertion. */
  lemma InsertThenDelete(s: seq<int>, v: int, idx: Num)
    ensures Delete(Insert(s, Int(v), idx).next, Int(InsertPosition(idx, |s|))) == Applied(s)
  {
    var p := InsertPosition(idx, |s|);
    var r := Insert(s, Int(v), idx).next;
    assert r[..p] + r[p + 1..] == s;
  }

  /** Writing back the old value undoes an update. */
  lemma UpdateThenRestore(s: seq<int>, v: int, i: int)
    requires 0 <= i < |s|
    ensures Update(Update(s, Int(v), Int(i)).next, Int(s[i]), Int(i)) == Applied(s)
  {
  }

  /** The index `insertElement` highlights: the last slot after a `push`, otherwise the typed index. */
  function InsertHighlight(idx: Num, len: nat): int {
    if idx.NaN? || idx.value >= len then len else idx.value
  }

  /** The highlight marks the inserted value exactly when the typed index is not negative;
      a negative index is counted from the end by `splice` but highlighted as typed. */
  lemma InsertHighlightMarksValue(s: seq<int>, v: int, idx: Num)
    ensures InsertHighlight(idx, |s|) == InsertPosition(idx, |s|) <==> idx.NaN? || idx.value >= 0
    ensures idx.NaN? || idx.value >= 0 ==> Insert(s, Int(v), idx).next[InsertHighlight(idx, |s|)] == v
  {
  }
}
