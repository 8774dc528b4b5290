/** The state of the `ArrayVisualizer` component and its event handlers, without
    rendering and timing.

    JavaScript runs one handler at a time, so the Reset button can run only while a
    handler is suspended at an `await sleep(...)`. Each handler is modelled as a method
    that takes a `ResetSchedule` saying during which of its pauses, if any, Reset runs,
    and returns the number of pauses it made. The ghost field `frames` records what the
    display showed at every pause. */
module Visualizer {
  import opened JsNumbers
  import opened Order
  import opened SortSteps
  import Edits
  import UserInput

  /** `currOperation`: 'none', 'insertion', 'deletion', 'update', 'linearSearch',
      'binarySearch', 'bubbleSort', 'insertionSort', 'selectionSort'. */
  datatype Operation =
    | Idle | Inserting | Deleting | Updating | SearchingLinear | SearchingBinary
    | BubbleSorting | InsertionSorting | SelectionSorting

  /** What the display shows while a handler waits: the length of the array and the
      highlighted and compared indices. */
  datatype Frame = Frame(size: nat, highlighted: seq<int>, compared: seq<int>)

  ghost predicate IndicesBelow(ix: seq<int>, n: int) {
    forall k :: 0 <= k < |ix| ==> 0 <= ix[k] < n
  }

  /** Every marked index names a slot of the array on display. */
  ghost predicate FrameInRange(f: Frame) {
    IndicesBelow(f.highlighted, f.size) && IndicesBelow(f.compared, f.size)
  }

  /** The fields of the component at one moment. */
  datatype ComponentState = ComponentState(
    arr: seq<int>, arrSize: nat, isAnimating: bool, currOperation: Operation,
    highlighted: seq<int>, compared: seq<int>, inputVal: string, inputIdx: string,
    searchVal: string, abort: bool, frames: seq<Frame>)

  /** When the Reset button is pressed while a handler runs: never, or during its
      pause number `k` (counting from 0). */
  datatype ResetSchedule = NoReset | ResetDuringPause(k: nat)

  /** Whether Reset has run within the first `pauses` pauses. */
  predicate ResetFired(schedule: ResetSchedule, pauses: nat) {
    schedule.ResetDuringPause? && schedule.k < pauses
  }

  /** How a search handler ends: it returned at once (NaN target), found the target at
      `index`, showed the "not found" alert, or saw the abort flag. */
  datatype SearchOutcome = Ignored | Found(index: nat) | NotFound | Aborted

  class ArrayVisualizer {
    var arr: seq<int>
    var arrSize: nat
    var isAnimating: bool
    var currOperation: Operation
    var highlighted: seq<int>
    var compared: seq<int>
    var inputVal: string
    var inputIdx: string
    var searchVal: string
    /** `abortRef.current`. */
    var abort: bool
    /** What the display showed at each pause so far. */
    ghost var frames: seq<Frame>

    /** The initial state of the component. */
    constructor ()
      ensures arr == [10, 25, 4, 19, 7, 3, 21, 18] && arrSize == 8
      ensures !isAnimating && currOperation == Idle && highlighted == [] && compared == []
      ensures inputVal == "" && inputIdx == "" && searchVal == ""
      ensures !abort && frames == []
    {
      arr := [10, 25, 4, 19, 7, 3, 21, 18];
      arrSize := 8;
      isAnimating := false;
      currOperation := Idle;
      highlighted := [];
      compared := [];
      inputVal := "";
      inputIdx := "";
      searchVal := "";
      abort := false;
      frames := [];
    }

    /** Every field of the component, as one value. */
    ghost function View(): ComponentState
      reads this
    {
      ComponentState(arr, arrSize, isAnimating, currOperation, highlighted, compared,
                     inputVal, inputIdx, searchVal, abort, frames)
    }

    /** The marked indices all name slots of the current array. */
    ghost predicate ShowsInRange()
      reads this`arr, this`highlighted, this`compared
    {
      FrameInRange(Frame(|arr|, highlighted, compared))
    }

    /** The flags while a handler for `op` runs: the abort flag is set once Reset has
        run and never cleared, and Reset also stops the animation and clears the operation. */
    ghost predicate Running(op: Operation, schedule: ResetSchedule, pauses: nat, abortAtStart: bool)
      reads this`abort, this`isAnimating, this`currOperation
    {
      && abort == (abortAtStart || ResetFired(schedule, pauses))
      && isAnimating == !ResetFired(schedule, pauses)
      && currOperation == (if ResetFired(schedule, pauses) then Idle else op)
    }

    /** The flags after a handler for `op` that made `pauses` pauses: no animation, the
        abort flag as Reset left it, and the operation cleared exactly when Reset ran. */
    ghost predicate Ended(op: Operation, schedule: ResetSchedule, pauses: nat, abortAtStart: bool)
      reads this`abort, this`isAnimating, this`currOperation
    {
      && !isAnimating
      && abort == (abortAtStart || ResetFired(schedule, pauses))
      && currOperation == (if ResetFired(schedule, pauses) then Idle else op)
    }

    /** `resetVisualization`: set the abort flag, clear the marks, stop the animation. */
    method Reset()
      modifies this`abort, this`highlighted, this`compared, this`isAnimating, this`currOperation
      ensures abort && highlighted == [] && compared == [] && !isAnimating && currOperation == Idle
    {
      abort, highlighted, compared, isAnimating, currOperation := true, [], [], false, Idle;
    }

    /** One `await sleep(...)`: the display shows the current frame, and Reset runs
        during the wait if the schedule says so. */
    method Pause(pauses: nat, schedule: ResetSchedule, ghost op: Operation, ghost abortAtStart: bool, ghost shown: bool)
      returns (next: nat)
      requires Running(op, schedule, pauses, abortAtStart)
      requires shown ==> ShowsInRange()
      modifies this`frames, this`abort, this`highlighted, this`compared, this`isAnimating, this`currOperation
      ensures next == pauses + 1
      ensures Running(op, schedule, next, abortAtStart)
      ensures frames == old(frames) + [Frame(|arr|, old(highlighted), old(compared))]
      ensures highlighted == (if schedule == ResetDuringPause(pauses) then [] else old(highlighted))
      ensures compared == (if schedule == ResetDuringPause(pauses) then [] else old(compared))
      ensures shown ==> ShowsInRange() && FrameInRange(frames[|frames| - 1])
    {
      frames := frames + [Frame(|arr|, highlighted, compared)];
      if schedule == ResetDuringPause(pauses) {
        Reset();
      }
      next := pauses + 1;
    }

    /** `setIsAnimating(true); setCurrOperation(op)`, applied together as React batches them. */
    method Begin(op: Operation)
      modifies this`isAnimating, this`currOperation
      ensures isAnimating && currOperation == op
    {
      isAnimating, currOperation := true, op;
    }

    /** The first updates of an edit handler, applied together: start the animation of
        `op`, highlight `marks`, show `next`. */
    method Show(op: Operation, marks: seq<int>, next: seq<int>)
      modifies this`isAnimating, this`currOperation, this`highlighted, this`arr
      ensures isAnimating && currOperation == op && highlighted == marks && arr == next
    {
      isAnimating, currOperation, highlighted, arr := true, op, marks, next;
    }

    /** The last updates of an edit handler: show `next`, clear the highlight, stop the
        animation, empty both input boxes. */
    method EndEdit(next: seq<int>)
      modifies this`arr, this`highlighted, this`isAnimating, this`inputIdx, this`inputVal
      ensures arr == next && highlighted == [] && !isAnimating && inputIdx == "" && inputVal == ""
    {
      arr, highlighted, isAnimating, inputIdx, inputVal := next, [], false, "", "";
    }

    /** The last updates of a search that ran to its end: clear the highlight, stop the
        animation, empty the search box. */
    method EndSearch()
      modifies this`highlighted, this`isAnimating, this`searchVal
      ensures highlighted == [] && !isAnimating && searchVal == ""
    {
      highlighted, isAnimating, searchVal := [], false, "";
    }

    /** The last updates of a sort that ran to its end: clear both marks, stop the animation. */
    method EndSort()
      modifies this`highlighted, this`compared, this`isAnimating
      ensures highlighted == [] && compared == [] && !isAnimating
    {
      highlighted, compared, isAnimating := [], [], false;
    }

    /** `setArr([...newArr])` in a sort, then one pause. */
    method Publish(next: seq<int>, schedule: ResetSchedule, pausesBefore: nat, ghost op: Operation, ghost shown: bool)
      returns (pauses: nat)
      requires |next| == |arr|
      requires Running(op, schedule, pausesBefore, false) && (shown ==> ShowsInRange())
      modifies this`arr, this`frames, this`abort, this`highlighted, this`compared, this`isAnimating, this`currOperation
      ensures arr == next && pauses == pausesBefore + 1
      ensures Running(op, schedule, pauses, false) && (shown ==> ShowsInRange())
    {
      arr := next;
      pauses := Pause(pausesBefore, schedule, op, false, shown);
    }

    /** `generateRandomArr`, with the `Math.floor(Math.random() * 100)` draws given. */
    method GenerateRandomArr(draws: seq<int>)
      requires |draws| == arrSize
      requires forall k :: 0 <= k < |draws| ==> 0 <= draws[k] < 100
      modifies this`arr, this`highlighted, this`compared
      ensures |arr| == arrSize
      ensures forall k :: 0 <= k < |arr| ==> 1 <= arr[k] <= 100 && arr[k] == draws[k] + 1
      ensures highlighted == [] && compared == [] && ShowsInRange()
    {
      arr, highlighted, compared := seq(|draws|, k requires 0 <= k < |draws| => draws[k] + 1), [], [];
    }

    /** `generateUserArr`: read the comma-separated list; if it yields any integer, it
        becomes the array, `arrSize` follows its length and the input box is cleared. */
    method GenerateUserArr()
      modifies this`arr, this`arrSize, this`inputVal
      ensures var values := UserInput.ParseList(old(inputVal));
        if values == [] then
          arr == old(arr) && arrSize == old(arrSize) && inputVal == old(inputVal)
        else
          arr == values && arrSize == |arr| && inputVal == ""
    {
      var values := UserInput.ParseList(inputVal);
      if |values| > 0 {
        arr, arrSize, inputVal := values, |values|, "";
      }
    }

    /** `insertElement`: a NaN value changes nothing; otherwise the value is pushed (NaN
        index, or index not below the length) or spliced in, the typed index is highlighted
        for one pause, and the inputs are cleared. The insertion does not look at the abort flag. */
    method InsertElement(schedule: ResetSchedule) returns (pauses: nat)
      modifies this`arr, this`isAnimating, this`currOperation, this`highlighted, this`compared
      modifies this`abort, this`frames, this`inputVal, this`inputIdx
      ensures var val, idx := ParseInt(old(inputVal)), ParseInt(old(inputIdx));
        match Edits.Insert(old(arr), val, idx)
        case Ignored => View() == old(View()) && pauses == 0
        case Applied(next) =>
          && arr == next && pauses == 1
          && frames == old(frames) + [Frame(|arr|, [Edits.InsertHighlight(idx, |old(arr)|)], old(compared))]
          && highlighted == [] && inputVal == "" && inputIdx == ""
          && compared == (if ResetFired(schedule, 1) then [] else old(compared))
          && Ended(Inserting, schedule, 1, old(abort))
      ensures old(ShowsInRange()) ==> ShowsInRange()
    {
      var val := ParseInt(inputVal);
      var idx := ParseInt(inputIdx);
      pauses := 0;
      if val.NaN? {
        return;
      }
      var newArr := Edits.Insert(arr, val, idx).next;
      var marked := Edits.InsertHighlight(idx, |arr|);
      Show(Inserting, [marked], newArr);
      pauses := Pause(pauses, schedule, Inserting, old(abort), old(ShowsInRange()) && (idx.NaN? || idx.value >= 0));
      EndEdit(newArr);
    }

    /** `deleteElement`: a NaN or out-of-range index changes nothing; otherwise the slot is
        highlighted for one pause and then filtered out, whatever Reset did meanwhile. */
    method DeleteElement(schedule: ResetSchedule) returns (pauses: nat)
      modifies this`arr, this`isAnimating, this`currOperation, this`highlighted, this`compared
      modifies this`abort, this`frames, this`inputVal, this`inputIdx
      ensures var idx := ParseInt(old(inputIdx));
        match Edits.Delete(old(arr), idx)
        case Ignored => View() == old(View()) && pauses == 0
        case Applied(next) =>
          && arr == next && pauses == 1
          && frames == old(frames) + [Frame(|old(arr)|, [idx.value], old(compared))]
          && highlighted == [] && inputVal == "" && inputIdx == ""
          && compared == (if ResetFired(schedule, 1) then [] else old(compared))
          && Ended(Deleting, schedule, 1, old(abort))
    {
      var idx := ParseInt(inputIdx);
      pauses := 0;
      if idx.NaN? || idx.value < 0 || idx.value >= |arr| {
        return;
      }
      Show(Deleting, [idx.value], arr);
      pauses := Pause(pauses, schedule, Deleting, old(abort), old(ShowsInRange()));
      Edits.DeleteIsFilter(arr, idx.value);
      EndEdit(Edits.WithoutPosition(arr, idx.value));
    }

    /** `updateElement`: a NaN value, a NaN index or an index outside the array changes
        nothing; otherwise the slot is highlighted for one pause and then overwritten. */
    method UpdateElement(schedule: ResetSchedule) returns (pauses: nat)
      modifies this`arr, this`isAnimating, this`currOperation, this`highlighted, this`compared
      modifies this`abort, this`frames, this`inputVal, this`inputIdx
      ensures var val, idx := ParseInt(old(inputVal)), ParseInt(old(inputIdx));
        match Edits.Update(old(arr), val, idx)
        case Ignored => View() == old(View()) && pauses == 0
        case Applied(next) =>
          && arr == next && pauses == 1
          && frames == old(frames) + [Frame(|old(arr)|, [idx.value], old(compared))]
          && highlighted == [] && inputVal == "" && inputIdx == ""
          && compared == (if ResetFired(schedule, 1) then [] else old(compared))
          && Ended(Updating, schedule, 1, old(abort))
      ensures old(ShowsInRange()) ==> ShowsInRange()
    {
      var val := ParseInt(inputVal);
      var idx := ParseInt(inputIdx);
      pauses := 0;
      if val.NaN? || idx.NaN? || idx.value < 0 || idx.value >= |arr| {
        return;
      }
      Show(Updating, [idx.value], arr);
      pauses := Pause(pauses, schedule, Updating, old(abort), old(ShowsInRange()));
      EndEdit(arr[idx.value := val.value]);
    }

    /** `linearSearch`: scan from the left, checking the abort flag before each probe;
        report the first slot holding the target, or "not found". The array never changes. */
    method LinearSearch(schedule: ResetSchedule) returns (outcome: SearchOutcome, pauses: nat)
      modifies this`isAnimating, this`currOperation, this`highlighted, this`compared
      modifies this`abort, this`frames, this`searchVal
      ensures ParseInt(old(searchVal)).NaN? ==> outcome == Ignored && pauses == 0 && View() == old(View())
      ensures ParseInt(old(searchVal)).Int? ==>
        var target := ParseInt(old(searchVal)).value;
        && (outcome.Found? ==>
              outcome.index < |arr| && arr[outcome.index] == target && target !in arr[..outcome.index])
        && (outcome.Found? ==> pauses >= 2)
        && (outcome.Found? ==> compared == if schedule == ResetDuringPause(pauses - 1) then [] else [outcome.index])
        && (outcome == NotFound ==> target !in arr)
        && (outcome == Aborted ==> abort)
        && outcome != Ignored
        && (old(abort) && arr != [] ==> outcome == Aborted && pauses == 0)
        && searchVal == (if outcome == Aborted then old(searchVal) else "")
        && (outcome != Aborted ==> highlighted == [])
        && Ended(SearchingLinear, schedule, pauses, old(abort))
      ensures old(ShowsInRange()) ==> ShowsInRange()
    {
      ghost var shown := ShowsInRange();
      var target := ParseInt(searchVal);
      pauses := 0;
      if target.NaN? {
        outcome := Ignored;
        return;
      }
      Begin(SearchingLinear);
      var i := 0;
      while i < |arr|
        invariant 0 <= i <= |arr|
        invariant target.value !in arr[..i]
        invariant Running(SearchingLinear, schedule, pauses, old(abort))
        invariant old(abort) ==> pauses == 0 && i == 0
        invariant searchVal == old(searchVal)
        invariant shown ==> ShowsInRange()
      {
        if abort {
          isAnimating := false;
          outcome := Aborted;
          return;
        }
        var hit;
        hit, pauses := Probe([i], i, target.value, schedule, pauses, SearchingLinear, old(abort), shown);
        if hit {
          outcome := Found(i);
          return;
        }
        assert arr[..i + 1] == arr[..i] + [arr[i]];
        i := i + 1;
      }
      assert arr[..i] == arr;
      EndSearch();
      outcome := NotFound;
    }

    /** One probe of a search at slot `k`: highlight `marks` and wait; on a hit also mark
        `k` as compared, wait again and end the search. */
    method Probe(marks: seq<int>, k: nat, target: int, schedule: ResetSchedule, pausesBefore: nat,
                 ghost op: Operation, ghost abortAtStart: bool, ghost shown: bool)
      returns (hit: bool, pauses: nat)
      requires k < |arr| && (shown ==> IndicesBelow(marks, |arr|))
      requires Running(op, schedule, pausesBefore, abortAtStart) && (shown ==> ShowsInRange())
      modifies this`highlighted, this`compared, this`frames, this`abort, this`isAnimating
      modifies this`currOperation, this`searchVal
      ensures hit <==> arr[k] == target
      ensures hit ==> highlighted == [] && searchVal == "" && Ended(op, schedule, pauses, abortAtStart)
      ensures hit ==> pauses == pausesBefore + 2
      ensures hit ==> compared == if schedule == ResetDuringPause(pausesBefore + 1) then [] else [k]
      ensures !hit ==> searchVal == old(searchVal) && Running(op, schedule, pauses, abortAtStart)
      ensures shown ==> ShowsInRange()
    {
      highlighted := marks;
      pauses := Pause(pausesBefore, schedule, op, abortAtStart, shown);
      hit := arr[k] == target;
      if hit {
        pauses := ShowFound(k, schedule, pauses, op, abortAtStart, shown);
      }
    }

    /** The end of a search that found the target at slot `k`: mark `k` as compared, wait,
        clear the highlight, stop the animation and empty the search box. */
    method ShowFound(k: nat, schedule: ResetSchedule, pausesBefore: nat,
                     ghost op: Operation, ghost abortAtStart: bool, ghost shown: bool)
      returns (pauses: nat)
      requires k < |arr| && Running(op, schedule, pausesBefore, abortAtStart) && (shown ==> ShowsInRange())
      modifies this`highlighted, this`compared, this`frames, this`abort, this`isAnimating
      modifies this`currOperation, this`searchVal
      ensures pauses == pausesBefore + 1
      ensures compared == if schedule == ResetDuringPause(pausesBefore) then [] else [k]
      ensures highlighted == [] && searchVal == "" && Ended(op, schedule, pauses, abortAtStart)
      ensures shown ==> ShowsInRange()
    {
      compared := [k];
      pauses := Pause(pausesBefore, schedule, op, abortAtStart, shown);
      EndSearch();
    }

    /** `binarySearch`: replace the array by its ascending sort, then halve `[l, r]`,
        checking the abort flag before each probe; report a slot of the sorted array
        holding the target, or "not found" only when the target is absent. */
    method BinarySearch(schedule: ResetSchedule) returns (outcome: SearchOutcome, pauses: nat)
      modifies this`arr, this`isAnimating, this`currOperation, this`highlighted, this`compared
      modifies this`abort, this`frames, this`searchVal
      ensures ParseInt(old(searchVal)).NaN? ==> outcome == Ignored && pauses == 0 && View() == old(View())
      ensures ParseInt(old(searchVal)).Int? ==>
        var target := ParseInt(old(searchVal)).value;
        && arr == SortAscending(old(arr))
        && (outcome.Found? ==> outcome.index < |arr| && arr[outcome.index] == target)
        && (outcome.Found? ==> pauses >= 2)
        && (outcome.Found? ==> compared == if schedule == ResetDuringPause(pauses - 1) then [] else [outcome.index])
        && (outcome == NotFound ==> target !in old(arr))
        && (outcome == Aborted ==> abort)
        && outcome != Ignored
        && (old(abort) && old(arr) != [] ==> outcome == Aborted && pauses == 2)
        && searchVal == (if outcome == Aborted then old(searchVal) else "")
        && (outcome != Aborted ==> highlighted == [])
        && Ended(SearchingBinary, schedule, pauses, old(abort))
      ensures old(ShowsInRange()) ==> ShowsInRange()
    {
      ghost var shown := ShowsInRange();
      var target := ParseInt(searchVal);
      pauses := 0;
      if target.NaN? {
        outcome := Ignored;
        return;
      }
      var sortedArr;
      sortedArr, pauses := PublishSorted(schedule, shown);
      outcome, pauses := Halve(sortedArr, target.value, schedule, pauses, old(abort), shown);
      if outcome == NotFound {
        SortAscendingMembers(old(arr), target.value);
      }
    }

    /** The start of `binarySearch`: mark the animation as running, sort a copy of the array
        ascending, wait, publish the sorted copy, wait. */
    method PublishSorted(schedule: ResetSchedule, ghost shown: bool)
      returns (sortedArr: seq<int>, pauses: nat)
      requires shown ==> ShowsInRange()
      modifies this`arr, this`frames, this`abort, this`highlighted, this`compared, this`isAnimating, this`currOperation
      ensures pauses == 2 && arr == sortedArr && sortedArr == SortAscending(old(arr)) && |sortedArr| == |old(arr)|
      ensures Sorted(sortedArr)
      ensures Running(SearchingBinary, schedule, pauses, old(abort))
      ensures shown ==> ShowsInRange()
    {
      Begin(SearchingBinary);
      sortedArr := SortAscending(arr);
      SortAscendingSpec(arr);
      pauses := Pause(0, schedule, SearchingBinary, old(abort), shown);
      arr := sortedArr;
      pauses := Pause(pauses, schedule, SearchingBinary, old(abort), shown);
    }

    /** The `while (l <= r)` loop of `binarySearch` over the published sorted copy `s`:
        probe the middle of `[l, r]`, checking the abort flag before each probe, and keep
        the half that can still hold the target. */
    method Halve(s: seq<int>, target: int, schedule: ResetSchedule, pausesBefore: nat,
                 ghost abortAtStart: bool, ghost shown: bool)
      returns (outcome: SearchOutcome, pauses: nat)
      requires arr == s && Sorted(s)
      requires Running(SearchingBinary, schedule, pausesBefore, abortAtStart) && (shown ==> ShowsInRange())
      modifies this`isAnimating, this`currOperation, this`highlighted, this`compared
      modifies this`abort, this`frames, this`searchVal
      ensures outcome.Found? ==> outcome.index < |s| && s[outcome.index] == target
      ensures outcome.Found? ==> pauses >= 2
      ensures outcome.Found? ==> compared == if schedule == ResetDuringPause(pauses - 1) then [] else [outcome.index]
      ensures outcome == NotFound ==> target !in s
      ensures outcome == Aborted ==> abort
      ensures outcome != Ignored
      ensures abortAtStart && s != [] ==> outcome == Aborted && pauses == pausesBefore
      ensures searchVal == (if outcome == Aborted then old(searchVal) else "")
      ensures outcome != Aborted ==> highlighted == []
      ensures Ended(SearchingBinary, schedule, pauses, abortAtStart)
      ensures shown ==> ShowsInRange()
    {
      pauses := pausesBefore;
      var l, r := 0, |s| - 1;
      while l <= r
        invariant 0 <= l <= r + 1 <= |s|
        invariant target !in s[..l] && target !in s[r + 1..]
        invariant Running(SearchingBinary, schedule, pauses, abortAtStart)
        invariant abortAtStart ==> pauses == pausesBefore && l == 0 && r == |s| - 1
        invariant searchVal == old(searchVal)
        invariant shown ==> ShowsInRange()
        decreases r - l
      {
        if abort {
          isAnimating := false;
          outcome := Aborted;
          return;
        }
        var mid := l + (r - l) / 2;
        var hit;
        hit, pauses := Probe([l, mid, r], mid, target, schedule, pauses, SearchingBinary, abortAtStart, shown);
        if hit {
          outcome := Found(mid);
          return;
        }
        if s[mid] < target {
          BelowProbe(s, l, mid, target);
          l := mid + 1;
        } else {
          AboveProbe(s, r, mid, target);
          r := mid - 1;
        }
      }
      assert s == s[..l] + s[r + 1..];
      EndSearch();
      outcome := NotFound;
    }

    /** `bubbleSort` on a copy: passes of adjacent compare-and-swap, each swap published;
        stops after a pass without a swap, or at an abort check. */
    method BubbleSort(schedule: ResetSchedule) returns (pauses: nat, completed: bool)
      modifies this`arr, this`isAnimating, this`currOperation, this`highlighted, this`compared
      modifies this`abort, this`frames
      ensures |arr| == |old(arr)| && multiset(arr) == multiset(old(arr))
      ensures completed ==> arr == SortAscending(old(arr)) && highlighted == [] && compared == []
      ensures !completed ==> abort
      ensures old(abort) ==> pauses == 0 && arr == old(arr)
      ensures Ended(BubbleSorting, schedule, pauses, old(abort))
      ensures old(ShowsInRange()) ==> ShowsInRange()
    {
      ghost var shown := ShowsInRange();
      Begin(BubbleSorting);
      completed := false;
      var newArr := arr;
      var n := |newArr|;
      pauses := 0;
      var i := 0;
      while i < n
        invariant 0 <= i <= n == |newArr|
        invariant arr == newArr && multiset(newArr) == multiset(old(arr))
        invariant SortedBetween(newArr, n - i, n) && Partitioned(newArr, n - i)
        invariant Running(BubbleSorting, schedule, pauses, old(abort))
        invariant old(abort) ==> pauses == 0 && i == 0 && newArr == old(arr)
        invariant shown ==> ShowsInRange()
      {
        if abort {
          isAnimating := false;
          return;
        }
        var swapped, stopped;
        newArr, swapped, pauses, stopped := BubblePass(newArr, i, schedule, pauses, shown);
        if stopped {
          return;
        }
        if !swapped {
          break;
        }
        i := i + 1;
      }
      SortedPermutationIsSort(newArr, old(arr));
      EndSort();
      completed := true;
    }

    /** The inner loop of `bubbleSort` for pass `i`: compare-and-swap `newArr[j]` and
        `newArr[j + 1]` for `j` from 0 up to `n - i - 2`, then mark slot `n - i - 1`. `stopped`
        means it met the abort flag, and the handler returns at once. */
    method BubblePass(s: seq<int>, i: nat, schedule: ResetSchedule, pausesBefore: nat, ghost shown: bool)
      returns (t: seq<int>, swapped: bool, pauses: nat, stopped: bool)
      requires i < |s| && arr == s
      requires SortedBetween(s, |s| - i, |s|) && Partitioned(s, |s| - i)
      requires Running(BubbleSorting, schedule, pausesBefore, false) && (shown ==> ShowsInRange())
      modifies this`arr, this`compared, this`frames, this`abort, this`highlighted
      modifies this`isAnimating, this`currOperation
      ensures arr == t && |t| == |s| && multiset(t) == multiset(s)
      ensures stopped ==> abort && Ended(BubbleSorting, schedule, pauses, false)
      ensures !stopped ==>
        && Running(BubbleSorting, schedule, pauses, false)
        && SortedBetween(t, |s| - i - 1, |s|) && Partitioned(t, |s| - i - 1)
        && (!swapped ==> Sorted(t))
      ensures shown ==> ShowsInRange()
    {
      var n := |s|;
      t := s;
      pauses := pausesBefore;
      swapped := false;
      stopped := false;
      var j := 0;
      while j < n - i - 1
        invariant 0 <= j <= n - i - 1 && |t| == n
        invariant arr == t
        invariant multiset(t) == multiset(s)
        invariant MaxUpTo(t, j) && SortedBetween(t, n - i, n) && Partitioned(t, n - i)
        invariant !swapped ==> SortedBetween(t, 0, j + 1)
        invariant Running(BubbleSorting, schedule, pauses, false)
        invariant shown ==> ShowsInRange()
      {
        if abort {
          isAnimating := false;
          stopped := true;
          return;
        }
        ghost var before := t;
        var swappedNow;
        t, swappedNow, pauses := CompareAdjacent(t, j, schedule, pauses, shown);
        assert multiset(t) == multiset(s);
        BubbleStep(before, t, j, n - i, swapped, swappedNow);
        swapped := swapped || swappedNow;
        j := j + 1;
      }
      BubblePassDone(t, n - i, swapped);
      highlighted := [n - i - 1];
    }

    /** One step of the inner loop of `bubbleSort` at `j`: mark `j` and `j + 1`, wait, and
        when they are out of order swap them, publish the swap and wait again. */
    method CompareAdjacent(s: seq<int>, j: nat, schedule: ResetSchedule, pausesBefore: nat, ghost shown: bool)
      returns (t: seq<int>, swappedNow: bool, pauses: nat)
      requires j + 1 < |s| && arr == s
      requires Running(BubbleSorting, schedule, pausesBefore, false) && (shown ==> ShowsInRange())
      modifies this`arr, this`compared, this`frames, this`abort, this`highlighted, this`isAnimating, this`currOperation
      ensures swappedNow <==> s[j] > s[j + 1]
      ensures arr == t && t == if swappedNow then Swapped(s, j, j + 1) else s
      ensures |t| == |s| && multiset(t) == multiset(s)
      ensures Running(BubbleSorting, schedule, pauses, false) && pauses > pausesBefore
      ensures shown ==> ShowsInRange()
    {
      compared := [j, j + 1];
      pauses := Pause(pausesBefore, schedule, BubbleSorting, false, shown);
      t, swappedNow := s, false;
      if s[j] > s[j + 1] {
        t, swappedNow := Swapped(s, j, j + 1), true;
        arr := t;
        pauses := Pause(pauses, schedule, BubbleSorting, false, shown);
      }
    }

    /** `insertionSort` on a copy: take `key = newArr[i]`, shift the larger elements of the
        sorted prefix right one at a time (publishing each shift), then write `key` back.
        An abort between shifts publishes the array with `key` overwritten. */
    method InsertionSort(schedule: ResetSchedule) returns (pauses: nat, completed: bool)
      modifies this`arr, this`isAnimating, this`currOperation, this`highlighted, this`compared
      modifies this`abort, this`frames
      ensures |arr| == |old(arr)|
      ensures multiset(arr) == multiset(old(arr)) || (!completed && KeyOverwritten(arr, old(arr)))
      ensures completed ==> arr == SortAscending(old(arr)) && highlighted == [] && compared == []
      ensures !completed ==> abort
      ensures old(abort) ==> pauses == 0 && arr == old(arr)
      ensures Ended(InsertionSorting, schedule, pauses, old(abort))
      ensures old(ShowsInRange()) ==> ShowsInRange()
    {
      ghost var shown := ShowsInRange();
      Begin(InsertionSorting);
      completed := false;
      var newArr := arr;
      var n := |newArr|;
      pauses := 0;
      var i := 1;
      while i < n
        invariant 1 <= i && (n > 0 ==> i <= n) && |newArr| == n
        invariant arr == newArr && multiset(newArr) == multiset(old(arr))
        invariant n > 0 ==> SortedBetween(newArr, 0, i)
        invariant Running(InsertionSorting, schedule, pauses, old(abort))
        invariant old(abort) ==> pauses == 0 && i == 1 && newArr == old(arr)
        invariant shown ==> ShowsInRange()
      {
        if abort {
          isAnimating := false;
          return;
        }
        var stopped;
        newArr, pauses, stopped := InsertRound(newArr, i, old(arr), schedule, pauses, shown);
        if stopped {
          return;
        }
        i := i + 1;
      }
      if n > 0 {
        JoinSorted(newArr, n);
      }
      SortedPermutationIsSort(newArr, old(arr));
      EndSort();
      completed := true;
    }

    /** One round of the outer loop of `insertionSort` for slot `i`: mark slot `i`, shift the
        larger elements before it up one slot each, then write the key into the gap and
        publish it. `stopped` means an abort check fired, and the handler returns at once;
        after at least one shift that leaves the key overwritten by a larger duplicate. */
    method InsertRound(s: seq<int>, i: nat, ghost orig: seq<int>, schedule: ResetSchedule, pausesBefore: nat, ghost shown: bool)
      returns (t: seq<int>, pauses: nat, stopped: bool)
      requires 0 < i < |s| && arr == s
      requires SortedBetween(s, 0, i) && multiset(s) == multiset(orig)
      requires Running(InsertionSorting, schedule, pausesBefore, false) && (shown ==> ShowsInRange())
      modifies this`arr, this`compared, this`frames, this`abort, this`highlighted, this`isAnimating, this`currOperation
      ensures arr == t && |t| == |s|
      ensures forall k :: i < k < |s| ==> t[k] == s[k]
      ensures stopped ==> abort && Ended(InsertionSorting, schedule, pauses, false)
      ensures stopped ==> multiset(t) == multiset(orig) || KeyOverwritten(t, orig)
      ensures !stopped ==> Running(InsertionSorting, schedule, pauses, false)
      ensures !stopped ==> multiset(t) == multiset(orig) && SortedBetween(t, 0, i + 1)
      ensures shown ==> ShowsInRange()
    {
      var key := s[i];
      highlighted := [i];
      pauses := Pause(pausesBefore, schedule, InsertionSorting, false, shown);
      var j;
      t, j, pauses, stopped := ShiftLarger(s, i, key, schedule, pauses, shown);
      if stopped {
        if j < i - 1 {
          ShiftOverwritesKey(s, orig, j, i);
        } else {
          ShiftedUpStart(s, i);
        }
        return;
      }
      t := t[j + 1 := key];
      InsertKeySorted(s, j, i);
      InsertKeyPermutes(s, j, i);
      pauses := Publish(t, schedule, pauses, InsertionSorting, shown);
    }

    /** The `while (j >= 0 && newArr[j] > key)` loop of `insertionSort` for slot `i`: copy
        each larger element one slot up, publishing each copy. `stopped` means it met the
        abort flag, and the handler returns at once. */
    method ShiftLarger(s: seq<int>, i: nat, key: int, schedule: ResetSchedule, pausesBefore: nat, ghost shown: bool)
      returns (t: seq<int>, j: int, pauses: nat, stopped: bool)
      requires 0 < i < |s| && key == s[i] && arr == s
      requires Running(InsertionSorting, schedule, pausesBefore, false) && (shown ==> ShowsInRange())
      modifies this`arr, this`compared, this`frames, this`abort, this`highlighted
      modifies this`isAnimating, this`currOperation
      ensures -1 <= j < i
      ensures arr == t && t == ShiftedUp(s, j, i)
      ensures forall p :: j + 1 <= p < i ==> s[p] > key
      ensures stopped ==> abort && Ended(InsertionSorting, schedule, pauses, false)
      ensures !stopped ==> Running(InsertionSorting, schedule, pauses, false)
      ensures !stopped ==> j < 0 || s[j] <= key
      ensures shown ==> ShowsInRange()
    {
      ShiftedUpStart(s, i);
      t := s;
      j := i - 1;
      pauses := pausesBefore;
      stopped := false;
      while j >= 0 && t[j] > key
        invariant -1 <= j < i
        invariant arr == t && t == ShiftedUp(s, j, i) && (j >= 0 ==> t[j] == s[j])
        invariant forall p :: j + 1 <= p < i ==> s[p] > key
        invariant Running(InsertionSorting, schedule, pauses, false)
        invariant shown ==> ShowsInRange()
      {
        if abort {
          isAnimating := false;
          stopped := true;
          return;
        }
        t, pauses := ShiftOne(t, s, j, i, schedule, pauses, shown);
        j := j - 1;
      }
    }

    /** One step of the shifting loop of `insertionSort`: mark `j` and `j + 1`, copy slot `j`
        one slot up, publish the copy, wait. */
    method ShiftOne(t: seq<int>, ghost before: seq<int>, j: nat, i: nat, schedule: ResetSchedule, pausesBefore: nat, ghost shown: bool)
      returns (t': seq<int>, pauses: nat)
      requires j < i < |before| && arr == t && t == ShiftedUp(before, j, i)
      requires Running(InsertionSorting, schedule, pausesBefore, false) && (shown ==> ShowsInRange())
      modifies this`arr, this`compared, this`frames, this`abort, this`highlighted, this`isAnimating, this`currOperation
      ensures arr == t' && t' == ShiftedUp(before, j as int - 1, i)
      ensures j > 0 ==> t'[j - 1] == before[j - 1]
      ensures Running(InsertionSorting, schedule, pauses, false) && pauses == pausesBefore + 1
      ensures shown ==> ShowsInRange()
    {
      ShiftStep(before, j, i);
      compared := [j, j + 1];
      t' := t[j + 1 := t[j]];
      arr := t';
      pauses := Pause(pausesBefore, schedule, InsertionSorting, false, shown);
    }

    /** `selectionSort` on a copy: for each `i`, find the index of a least element of
        `newArr[i..]` and swap it into slot `i` when it is elsewhere. */
    method SelectionSort(schedule: ResetSchedule) returns (pauses: nat, completed: bool, ghost swaps: nat)
      modifies this`arr, this`isAnimating, this`currOperation, this`highlighted, this`compared
      modifies this`abort, this`frames
      ensures |arr| == |old(arr)| && multiset(arr) == multiset(old(arr))
      ensures completed ==> arr == SortAscending(old(arr)) && highlighted == [] && compared == []
      ensures !completed ==> abort
      ensures old(abort) ==> pauses == 0 && arr == old(arr)
      ensures swaps == 0 || swaps < |arr|
      ensures completed ==> pauses - swaps == Pairs(|arr|)
      ensures Ended(SelectionSorting, schedule, pauses, old(abort))
      ensures old(ShowsInRange()) ==> ShowsInRange()
    {
      ghost var shown := ShowsInRange();
      Begin(SelectionSorting);
      completed := false;
      var newArr := arr;
      var n := |newArr|;
      pauses := 0;
      swaps := 0;
      var i := 0;
      while i < n - 1
        invariant 0 <= i && (n > 0 ==> i <= n - 1) && |newArr| == n
        invariant arr == newArr && multiset(newArr) == multiset(old(arr))
        invariant SortedBetween(newArr, 0, i) && Partitioned(newArr, i)
        invariant swaps <= i
        invariant pauses - swaps == Pairs(n) - Pairs(n - i)
        invariant Running(SelectionSorting, schedule, pauses, old(abort))
        invariant old(abort) ==> pauses == 0 && i == 0 && newArr == old(arr)
        invariant shown ==> ShowsInRange()
      {
        if abort {
          isAnimating := false;
          return;
        }
        var stopped;
        var minIdx;
        newArr, pauses, stopped, swaps, minIdx := SelectRound(newArr, i, schedule, pauses, swaps, shown);
        if stopped {
          return;
        }
        i := i + 1;
      }
      if n > 0 {
        JoinSorted(newArr, n - 1);
      }
      SortedPermutationIsSort(newArr, old(arr));
      EndSort();
      completed := true;
    }

    /** One round of the outer loop of `selectionSort` for slot `i`: mark slot `i`, find the
        first least element of `s[i..]`, and when it lies elsewhere swap it into slot `i` and
        publish the swap. `stopped` means an abort check fired, and the handler returns at once. */
    method SelectRound(s: seq<int>, i: nat, schedule: ResetSchedule, pausesBefore: nat,
                       ghost swapsBefore: int, ghost shown: bool)
      returns (t: seq<int>, pauses: nat, stopped: bool, ghost swaps: int, minIdx: nat)
      requires i + 1 < |s| && arr == s
      requires pausesBefore - swapsBefore == Pairs(|s|) - Pairs(|s| - i)
      requires SortedBetween(s, 0, i) && Partitioned(s, i)
      requires Running(SelectionSorting, schedule, pausesBefore, false) && (shown ==> ShowsInRange())
      modifies this`arr, this`compared, this`frames, this`abort, this`highlighted, this`isAnimating, this`currOperation
      ensures arr == t && |t| == |s| && multiset(t) == multiset(s)
      ensures swaps == swapsBefore + (if !stopped && minIdx != i then 1 else 0)
      ensures stopped ==> t == s
      ensures i <= minIdx < |s|
      ensures !stopped ==> FirstLeast(s, i, minIdx)
      ensures !stopped ==> forall k {:trigger t[k], s[k]} :: 0 <= k < |s| ==>
        t[k] == if k == i then s[minIdx] else if k == minIdx then s[i] else s[k]
      ensures stopped ==> abort && Ended(SelectionSorting, schedule, pauses, false)
      ensures !stopped ==> Running(SelectionSorting, schedule, pauses, false)
      ensures !stopped ==> SortedBetween(t, 0, i + 1) && Partitioned(t, i + 1)
      ensures !stopped ==> pauses == pausesBefore + (|s| - 1 - i) + (swaps - swapsBefore)
      ensures !stopped ==> pauses - swaps == Pairs(|s|) - Pairs(|s| - i - 1)
      ensures shown ==> ShowsInRange()
    {
      highlighted := [i];
      minIdx, pauses, stopped := FindMin(s, i, schedule, pausesBefore, shown);
      t, swaps := s, swapsBefore;
      if stopped {
        return;
      }
      t, pauses := PlaceMin(s, i, minIdx, schedule, pauses, shown);
      if minIdx != i {
        swaps := swaps + 1;
      }
    }

    /** The tail of a `selectionSort` round: when the least element of `s[i..]` sits at
        `minIdx != i`, swap it into slot `i` and publish the swap; otherwise leave `s` as it is. */
    method PlaceMin(s: seq<int>, i: nat, minIdx: nat, schedule: ResetSchedule, pausesBefore: nat, ghost shown: bool)
      returns (t: seq<int>, pauses: nat)
      requires arr == s && i <= minIdx < |s|
      requires SortedBetween(s, 0, i) && Partitioned(s, i)
      requires forall p :: i <= p < |s| ==> s[minIdx] <= s[p]
      requires Running(SelectionSorting, schedule, pausesBefore, false) && (shown ==> ShowsInRange())
      modifies this`arr, this`frames, this`abort, this`highlighted, this`compared, this`isAnimating, this`currOperation
      ensures arr == t && |t| == |s| && multiset(t) == multiset(s) && t[i] == s[minIdx]
      ensures t == if minIdx != i then Swapped(s, i, minIdx) else s
      ensures SortedBetween(t, 0, i + 1) && Partitioned(t, i + 1)
      ensures pauses == pausesBefore + (if minIdx != i then 1 else 0)
      ensures Running(SelectionSorting, schedule, pauses, false) && (shown ==> ShowsInRange())
    {
      SelectionStep(s, i, minIdx);
      t, pauses := s, pausesBefore;
      if minIdx != i {
        t := Swapped(s, i, minIdx);
        arr := t;
        pauses := Pause(pauses, schedule, SelectionSorting, false, shown);
      } else {
        assert Swapped(s, i, i) == s;
      }
    }

    /** The inner loop of `selectionSort` for slot `i`: compare each later slot with the
        least seen so far. `stopped` means it met the abort flag, and the handler returns at once. */
    method FindMin(s: seq<int>, i: nat, schedule: ResetSchedule, pausesBefore: nat, ghost shown: bool)
      returns (minIdx: nat, pauses: nat, stopped: bool)
      requires i + 1 < |s| && arr == s
      requires Running(SelectionSorting, schedule, pausesBefore, false) && (shown ==> ShowsInRange())
      modifies this`compared, this`frames, this`abort, this`highlighted, this`isAnimating, this`currOperation
      ensures i <= minIdx < |s|
      ensures stopped ==> abort && Ended(SelectionSorting, schedule, pauses, false)
      ensures !stopped ==> Running(SelectionSorting, schedule, pauses, false)
      ensures !stopped ==> forall p :: i <= p < |s| ==> s[minIdx] <= s[p]
      ensures !stopped ==> pauses == pausesBefore + (|s| - 1 - i)
      ensures minIdx != i ==> s[minIdx] < s[i]
      ensures forall p :: i <= p < minIdx ==> s[minIdx] < s[p]
      ensures shown ==> ShowsInRange()
    {
      minIdx := i;
      pauses := pausesBefore;
      stopped := false;
      var j := i + 1;
      while j < |s|
        invariant i < j <= |s| && i <= minIdx < j
        invariant forall p :: i <= p < j ==> s[minIdx] <= s[p]
        invariant minIdx != i ==> s[minIdx] < s[i]
        invariant forall p :: i <= p < minIdx ==> s[minIdx] < s[p]
        invariant pauses == pausesBefore + (j - 1 - i)
        invariant Running(SelectionSorting, schedule, pauses, false)
        invariant shown ==> ShowsInRange()
      {
        if abort {
          isAnimating := false;
          stopped := true;
          return;
        }
        compared := [minIdx, j];
        pauses := Pause(pauses, schedule, SelectionSorting, false, shown);
        if s[j] < s[minIdx] {
          minIdx := j;
        }
        j := j + 1;
      }
    }
  }

  /** The comparisons `selectionSort` makes over the last `m` slots of an array: the
      first of them is compared with the `m - 1` after it, then the rest are sorted alike. */
  function Pairs(m: int): int {
    if m <= 1 then 0 else Pairs(m - 1) + (m - 1)
  }

  /** Those comparisons number `m * (m - 1) / 2`: one for each pair of slots. */
  lemma {:induction false} PairsCount(m: nat)
    ensures 2 * Pairs(m) == m * (m - 1)
  {
    if m > 1 {
      PairsCount(m - 1);
    }
  }

  /** In an ascending sequence, a probe below the target rules out everything up to it. */
  lemma BelowProbe(s: seq<int>, l: int, mid: int, target: int)
    requires Sorted(s) && 0 <= l <= mid < |s| && s[mid] < target
    requires target !in s[..l]
    ensures target !in s[..mid + 1]
  {
    forall k | 0 <= k <= mid ensures s[k] != target {
      assert s[k] <= s[mid];
    }
  }

  /** In an ascending sequence, a probe above the target rules out everything from it on. */
  lemma AboveProbe(s: seq<int>, r: int, mid: int, target: int)
    requires Sorted(s) && 0 <= mid <= r < |s| && s[mid] > target
    requires target !in s[r + 1..]
    ensures target !in s[mid..]
  {
    forall k | mid <= k < |s| ensures s[k] != target {
      assert s[mid] <= s[k];
    }
  }

  /** After Reset, the abort flag stays set, so a later sort returns at its first check
      and leaves an unsorted array as it was. */
  method ResetStopsLaterSorts() {
    var v := new ArrayVisualizer();
    v.Reset();
    ghost var before := v.arr;
    assert before[1] == 25 && before[2] == 4;
    var pauses, completed := v.BubbleSort(NoReset);
    assert pauses == 0 && v.arr == before;
    assert !Sorted(v.arr) by {
      assert v.arr[1] > v.arr[2];
    }
  }
}
