# Array Visualizer — a verified model of its handlers

Array Visualizer is a React page that animates operations on a small integer array.
The component `ArrayVisualizer` keeps the array and the display marks in state. Its
event handlers do the work:

- set the array from a comma-separated list, or fill it with random values;
- insert, delete and update an element;
- search by linear or binary search;
- sort by bubble, insertion or selection sort.

Each edit, search and sort handler pauses with `await sleep(...)` after every visible
step. The Reset button sets an abort flag that the search and sort loops check.

This project models those handlers in Dafny and proves what they guarantee.

- `order.dfy`: ascending order, and the numeric-comparator sort that binary search
  applies first, with proofs that it is the unique sorted permutation.
- `js_numbers.dfy`: JavaScript's `parseInt` with no radix, `trim`, and the decimal text
  of an integer.
- `user_input.dfy`: the "Set Array" input pipeline
  `split(',')` → `trim` → `parseInt` → drop NaN.
- `edits.dfy`: the insert, delete and update edits with their input guards. These are
  pure functions on the array.
- `sort_steps.dfy`: the predicates the three sorts keep between steps, and the lemmas
  that carry them across one compare, swap or shift.
- `visualizer.dfy`: the class `ArrayVisualizer`, whose fields are the component's state.
  Each handler is a method, and the sorts' working copy `newArr` is mutated step by
  step in `while` loops.

How Reset is modelled:

- JavaScript runs one handler at a time, so Reset can only run while a handler waits
  at a pause.
- Every edit, search and sort handler therefore takes a `ResetSchedule` that says during which pause, if any,
  Reset runs.
- Each of these handlers returns the number of pauses it made.
- The ghost field `frames` records what the display showed at each pause: the array
  length and the highlighted and compared indices.
- Nothing clears the abort flag once Reset has set it. From then on every search and
  sort returns at its first abort check, and a sort leaves the array as it was.
- A schedule holds at most one Reset per run. The Reset button stays enabled, so it
  could be pressed again at a later pause. That press would only set the flag again and
  clear marks that are already clear, or a compare mark the handler sets anew before its
  next pause. It changes neither the array nor the flags a run ends with.

Each sort returns whether it ran to its end. A run that ends, even one during which
Reset ran at a pause with no abort check after it, is proved to leave the ascending
sort of its input. A run that stops early has seen the abort flag, and then:

- Bubble and selection sort leave a permutation of the input.
- Insertion sort, stopped between two shifts, leaves the array with the key lost and a
  larger element held twice.

## Model

| member | source | states |
|---|---|---|
| Order.InsertSortedMultiset | src/components/ArrayVisualizer.jsx:856 | inserting into a list adds exactly one copy of the value and lengthens it by one |
| Order.InsertSortedSpec | src/components/ArrayVisualizer.jsx:856 | inserting into an ascending list adds exactly the value and keeps it ascending |
| Order.SortAscendingSpec | src/components/ArrayVisualizer.jsx:856 | `[...arr].sort((a, b) => a - b)` returns an ascending permutation of `arr` of the same length |
| Order.SortAscendingMembers | src/components/ArrayVisualizer.jsx:856 | the sorted copy holds a value exactly when the original does |
| Order.SortedPermutationUnique | src/components/ArrayVisualizer.jsx:856 | two ascending sequences with the same elements are equal, so any correct sort gives the same result |
| Order.SortAscendingOfSorted | src/components/ArrayVisualizer.jsx:856 | sorting an ascending array leaves it as it is |
| Order.SortedPermutationIsSort | src/components/ArrayVisualizer.jsx:890-986 | an ascending rearrangement of the input is the numeric sort of the input; each sort handler's result is identified through it |
| JsNumbers.TrimStartShape | src/components/ArrayVisualizer.jsx:729 | removing leading white space drops a run of white-space characters from the front and keeps everything from the first other character |
| JsNumbers.TrimEndShape | src/components/ArrayVisualizer.jsx:729 | removing trailing white space drops a run of white-space characters from the back and keeps everything up to the last other character |
| JsNumbers.DigitPrefixShape | src/components/ArrayVisualizer.jsx:729 | `parseInt` reads the longest run of digits of the radix and stops at the first other character |
| JsNumbers.ShowNat | src/components/ArrayVisualizer.jsx:565 | the decimal text of a natural number is non-empty, all digits, and has no leading zero unless the number is 0 |
| JsNumbers.ShowInt | src/components/ArrayVisualizer.jsx:565 | the text of an integer is non-empty, has no comma, and neither starts nor ends with white space |
| JsNumbers.ShowNatValue | src/components/ArrayVisualizer.jsx:565 | the decimal digits of a number have that number as their value |
| JsNumbers.ParseIntShowInt | src/components/ArrayVisualizer.jsx:760 | `parseInt` of the displayed text of an integer gives that integer back |
| JsNumbers.DigitPrefixAllDigits | src/components/ArrayVisualizer.jsx:729 | a string of digits is read whole |
| JsNumbers.DigitPrefixStopsAtNonDigit | src/components/ArrayVisualizer.jsx:729 | text after the first non-digit has no effect on the digits read |
| JsNumbers.TrimStartIdempotent | src/components/ArrayVisualizer.jsx:729 | removing leading white space twice is the same as once |
| JsNumbers.MagnitudeIgnoresTrailing | src/components/ArrayVisualizer.jsx:729 | trailing white space has no effect on the numeral read after the sign |
| JsNumbers.SignedIgnoresTrailing | src/components/ArrayVisualizer.jsx:729 | trailing white space has no effect on the signed numeral read |
| JsNumbers.TrimEndSplits | src/components/ArrayVisualizer.jsx:729 | removing trailing white space splits a string into the kept part and an all-white-space tail |
| JsNumbers.ParseIntIgnoresTrim | src/components/ArrayVisualizer.jsx:729 | `parseInt(v.trim())` equals `parseInt(v)`, so the `trim` in the input pipeline changes no result |
| UserInput.Split | src/components/ArrayVisualizer.jsx:729 | `split(',')` yields at least one field and no field contains a comma |
| UserInput.JoinSplit | src/components/ArrayVisualizer.jsx:729 | joining the fields of `split(',')` with commas rebuilds the input |
| UserInput.SplitNoComma | src/components/ArrayVisualizer.jsx:729 | text without a comma is a single field |
| UserInput.SplitComma | src/components/ArrayVisualizer.jsx:729 | a comma-free field followed by a comma is split off as the first field |
| UserInput.SplitJoin | src/components/ArrayVisualizer.jsx:729 | splitting comma-joined comma-free fields gives the same fields back |
| UserInput.KeepInts | src/components/ArrayVisualizer.jsx:729 | `filter(v => !isNaN(v))` keeps at most as many values as it is given |
| UserInput.KeepIntsMembers | src/components/ArrayVisualizer.jsx:729 | a value is kept exactly when some parse result is that integer |
| UserInput.KeepIntsAppend | src/components/ArrayVisualizer.jsx:729 | the filter works field by field and keeps input order |
| UserInput.KeepIntsAllInts | src/components/ArrayVisualizer.jsx:729 | when every field parses, every value is kept, in place |
| UserInput.ParseList | src/components/ArrayVisualizer.jsx:729 | the list typed into "Set Array" has at most as many values as it has comma-separated fields |
| UserInput.ParseListMembers | src/components/ArrayVisualizer.jsx:729 | a value is in the list exactly when some field parses to it |
| UserInput.ParseListEmpty | src/components/ArrayVisualizer.jsx:729-730 | the list is empty exactly when every field parses to NaN, the case in which `generateUserArr` does nothing |
| UserInput.ParseListShowList | src/components/ArrayVisualizer.jsx:729 | typing the values of an array, comma-separated, gives back exactly that array |
| Edits.InsertPosition | src/components/ArrayVisualizer.jsx:768-773 | the value goes at a slot from 0 to the length: the end for a NaN index or one not below the length, the index itself when it is in range, and for a negative index that many slots back from the end, but no earlier than slot 0 |
| Edits.Insert | src/components/ArrayVisualizer.jsx:760-776 | a NaN value changes nothing; otherwise the length grows by one, the value sits at the insert position, earlier elements stay and later ones move up one slot |
| Edits.Delete | src/components/ArrayVisualizer.jsx:785-793 | a NaN or out-of-range index changes nothing; otherwise the length shrinks by one, elements before the index stay and later ones move down one slot |
| Edits.Update | src/components/ArrayVisualizer.jsx:802-812 | a NaN value or index, or an index out of range, changes nothing; otherwise only the slot at the index changes, to the value |
| Edits.WithoutPositionSlices | src/components/ArrayVisualizer.jsx:793 | `filter((_, i) => i !== idx)` keeps the elements before `idx` followed by those after it |
| Edits.DeleteIsFilter | src/components/ArrayVisualizer.jsx:786-793 | the guarded delete agrees with the `filter` the handler runs |
| Edits.WithoutPositionOutside | src/components/ArrayVisualizer.jsx:793 | filtering out a position the array does not have keeps the array |
| Edits.InsertThenDelete | src/components/ArrayVisualizer.jsx:768-793 | deleting the slot an insertion filled restores the array |
| Edits.UpdateThenRestore | src/components/ArrayVisualizer.jsx:804-812 | updating a slot back to its old value restores the array |
| Edits.InsertHighlightMarksValue | src/components/ArrayVisualizer.jsx:768-774 | the highlighted index is where the value went exactly when the typed index is NaN or not negative, and then that slot holds the value |
| SortSteps.Swapped | src/components/ArrayVisualizer.jsx:907 | a destructuring swap exchanges two slots, keeps the others, and keeps the elements |
| SortSteps.JoinSorted | src/components/ArrayVisualizer.jsx:895-916 | an ascending front and an ascending back, with no front element above a back element, make an ascending array |
| SortSteps.BubbleStep | src/components/ArrayVisualizer.jsx:903-911 | one compare-and-swap carries the running maximum to `j + 1`, keeps the settled back and its partition, and keeps the swap-free front ascending |
| SortSteps.BubblePassDone | src/components/ArrayVisualizer.jsx:900-915 | after pass `i` one more slot at the back holds its final value; a pass with no swap leaves the whole array ascending, so the `break` is sound |
| SortSteps.SelectionStep | src/components/ArrayVisualizer.jsx:965-980 | swapping the least remaining element into slot `i` extends the ascending, partitioned front by one slot |
| SortSteps.ShiftedUpSlices | src/components/ArrayVisualizer.jsx:937-945 | the shifted copy is the old prefix, the run moved up one slot, and the old suffix |
| SortSteps.ShiftStep | src/components/ArrayVisualizer.jsx:941 | `newArr[j + 1] = newArr[j]` takes the shifted copy from `j` to `j - 1` |
| SortSteps.ShiftedUpStart | src/components/ArrayVisualizer.jsx:931-932 | before any shift the working copy is unchanged |
| SortSteps.ShiftedUpMultiset | src/components/ArrayVisualizer.jsx:937-945 | shifting has replaced one copy of the key by one copy of the element at `j + 1` |
| SortSteps.InsertKeySorted | src/components/ArrayVisualizer.jsx:937-947 | writing the key into the gap left by the shifts makes `newArr[0..i]` ascending |
| SortSteps.InsertKeyPermutes | src/components/ArrayVisualizer.jsx:947 | writing the key into the gap restores the elements of the round's start |
| SortSteps.ShiftOverwritesKey | src/components/ArrayVisualizer.jsx:938-943 | after at least one shift the working copy has lost one copy of the key and holds a larger element twice |
| Visualizer.ArrayVisualizer.constructor | src/components/ArrayVisualizer.jsx:701-717 | the initial state: the array `[10, 25, 4, 19, 7, 3, 21, 18]`, size 8, no marks, empty inputs, abort flag clear |
| Visualizer.ArrayVisualizer.Reset | src/components/ArrayVisualizer.jsx:737-743 | Reset sets the abort flag, clears both marks, stops the animation and clears the operation |
| Visualizer.ArrayVisualizer.Pause | src/components/ArrayVisualizer.jsx:719 | a pause records the displayed frame and runs Reset only when the schedule names it; the abort flag and animation flags follow the schedule; marks in range stay in range |
| Visualizer.ArrayVisualizer.Begin | src/components/ArrayVisualizer.jsx:853-854 | a search or sort starts by setting the animation flag and the operation |
| Visualizer.ArrayVisualizer.Show | src/components/ArrayVisualizer.jsx:764-776 | an edit starts by setting the animation flag, the operation, the highlight and the shown array |
| Visualizer.ArrayVisualizer.EndEdit | src/components/ArrayVisualizer.jsx:793-798 | an edit ends by showing the new array, clearing the highlight, stopping the animation and emptying both inputs |
| Visualizer.ArrayVisualizer.EndSearch | src/components/ArrayVisualizer.jsx:843-845 | a search that runs to its end clears the highlight, stops the animation and empties the search box |
| Visualizer.ArrayVisualizer.EndSort | src/components/ArrayVisualizer.jsx:918-920 | a sort that runs to its end clears both marks and stops the animation |
| Visualizer.ArrayVisualizer.Publish | src/components/ArrayVisualizer.jsx:948-949 | `setArr([...newArr])` then one pause: the shown array is the working copy and the flags follow the schedule |
| Visualizer.ArrayVisualizer.GenerateRandomArr | src/components/ArrayVisualizer.jsx:721-726 | the new array has `arrSize` values, each from 1 to 100, and the marks are cleared |
| Visualizer.ArrayVisualizer.GenerateUserArr | src/components/ArrayVisualizer.jsx:728-735 | if the list parses to no integer, nothing changes; otherwise it becomes the array, `arrSize` is its length and the input is cleared |
| Visualizer.ArrayVisualizer.InsertElement | src/components/ArrayVisualizer.jsx:759-782 | a NaN value changes no field; otherwise the array becomes the insertion, one frame with the insert highlight is recorded, the inputs are cleared and the flags follow the schedule; marks in range stay in range |
| Visualizer.ArrayVisualizer.DeleteElement | src/components/ArrayVisualizer.jsx:784-799 | a rejected index changes no field; otherwise one frame highlighting the index is recorded and the array becomes the original without that slot, whether or not Reset ran |
| Visualizer.ArrayVisualizer.UpdateElement | src/components/ArrayVisualizer.jsx:801-818 | a rejected value or index changes no field; otherwise one frame highlighting the index is recorded and only that slot changes, to the value |
| Visualizer.ArrayVisualizer.LinearSearch | src/components/ArrayVisualizer.jsx:820-847 | the array never changes; "found" names the first slot holding the target; "not found" only when no slot holds it; an abort set before the start returns at the first check with no pause; after "found" the compared mark is the found slot, or empty when Reset ran during the last pause |
| Visualizer.ArrayVisualizer.Probe | src/components/ArrayVisualizer.jsx:830-840 | one probe reports a hit exactly when the probed slot holds the target; a hit makes two pauses, ends the search and leaves the probed slot marked as compared unless Reset ran during the second pause |
| Visualizer.ArrayVisualizer.ShowFound | src/components/ArrayVisualizer.jsx:833-838 | one pause, after which the found slot alone is marked as compared (nothing when Reset ran during that pause), the highlight and search box are cleared and the animation stops |
| Visualizer.ArrayVisualizer.BinarySearch | src/components/ArrayVisualizer.jsx:849-888 | the array becomes its ascending sort; "found" names a slot of it holding the target; "not found" only when the original array lacks the target; after "found" the compared mark is the found slot, or empty when Reset ran during the last pause |
| Visualizer.ArrayVisualizer.PublishSorted | src/components/ArrayVisualizer.jsx:853-859 | two pauses, and the shown array becomes the ascending sort of the old one |
| Visualizer.ArrayVisualizer.Halve | src/components/ArrayVisualizer.jsx:861-887 | on an ascending array, "found" only at a slot holding the target and "not found" only when it is absent; the loop ends, and an abort set before it returns at the first check; "found" leaves the found slot marked as compared unless Reset ran during the last pause |
| Visualizer.ArrayVisualizer.BubbleSort | src/components/ArrayVisualizer.jsx:890-921 | the array stays a permutation of the input at every exit; a run that reaches its end leaves the ascending sort of the input and clears both marks; a run that stops early has seen the abort flag; an abort set before the start leaves the array as it was and makes no pause |
| Visualizer.ArrayVisualizer.BubblePass | src/components/ArrayVisualizer.jsx:900-915 | one pass keeps the elements, settles one more slot at the back, and a pass without a swap leaves the array ascending |
| Visualizer.ArrayVisualizer.CompareAdjacent | src/components/ArrayVisualizer.jsx:903-911 | a swap happens exactly when `newArr[j] > newArr[j + 1]`, and it exchanges just those two slots |
| Visualizer.ArrayVisualizer.InsertionSort | src/components/ArrayVisualizer.jsx:923-955 | a run that reaches its end leaves the ascending sort of the input and clears both marks; a run that stops early has seen the abort flag and leaves a permutation of the input, or one that has lost a key to a larger duplicate |
| Visualizer.ArrayVisualizer.InsertRound | src/components/ArrayVisualizer.jsx:928-949 | a completed round keeps the elements and makes `newArr[0..i]` ascending; a stopped round leaves the elements kept or the key overwritten; either way the slots after `i` are untouched |
| Visualizer.ArrayVisualizer.ShiftLarger | src/components/ArrayVisualizer.jsx:937-945 | the inner loop shifts exactly the run of larger elements before slot `i`, and stops at a slot not above the key or at the start |
| Visualizer.ArrayVisualizer.ShiftOne | src/components/ArrayVisualizer.jsx:940-944 | one shift copies slot `j` to `j + 1` and publishes it with one pause |
| Visualizer.ArrayVisualizer.SelectionSort | src/components/ArrayVisualizer.jsx:957-986 | the array stays a permutation at every exit; a run that reaches its end leaves the ascending sort of the input and clears both marks; a run that stops early has seen the abort flag; a run that reaches its end makes exactly `Pairs(n)` comparison pauses plus one pause per swap, so at most `n - 1` swaps |
| Visualizer.ArrayVisualizer.SelectRound | src/components/ArrayVisualizer.jsx:962-980 | a completed round picks the first least element of `newArr[i..]` and exchanges exactly it and slot `i`, leaving every other slot as it was; a stopped round changes nothing; it counts a swap exactly when that element lies elsewhere, and pauses once per comparison of the scan plus once for the swap |
| Visualizer.ArrayVisualizer.PlaceMin | src/components/ArrayVisualizer.jsx:976-980 | the result is the array with slots `i` and `minIdx` exchanged (unchanged when they coincide), so the least remaining element ends in slot `i` and the ascending front grows by one; it pauses once exactly when it swaps |
| Visualizer.PairsCount | src/components/ArrayVisualizer.jsx:962-974 | the comparisons the rounds make over `m` slots number `m(m-1)/2`, one per pair of slots |
| Visualizer.ArrayVisualizer.FindMin | src/components/ArrayVisualizer.jsx:965-974 | the scan that runs to its end finds the first least element of `newArr[i..]`: every slot before it holds more, as the strict `<` keeps the earlier of equal elements; it pauses once for each of the `n - 1 - i` slots it compares |
| Visualizer.BelowProbe | src/components/ArrayVisualizer.jsx:880 | in an ascending array, a probe below the target rules out every slot up to the probe |
| Visualizer.AboveProbe | src/components/ArrayVisualizer.jsx:881 | in an ascending array, a probe above the target rules out every slot from the probe on |

## Left out

- `traverseArr` (src/components/ArrayVisualizer.jsx:745-757) is not part of this model. It only highlights each slot in turn.
- The JSX components, rendering, theme, section toggles, the bar-chart sizing and the algorithm description texts are not modelled. They are presentation only.
- The feedback form and its network request are not modelled.
- `alert(...)` is not modelled. The search methods return `NotFound` where the handler would show the alert.
- `sleep` and `animationSpeed` are not modelled. Each `await sleep(...)` is a `Pause` step that takes no time.
- `Math.random` is not modelled. `GenerateRandomArr` takes the random draws as a parameter.
- The `arrSize` slider is not modelled. `arrSize` is a field that the handlers read and `GenerateUserArr` writes.
- Reset is modelled, but only while a handler is paused. A second handler started while a stopped one is still paused is not modelled: the buttons are enabled again, and the two could interleave.
- Closures over stale state are not modelled. The model reads `arr` and the inputs as they stand when the handler starts, which is what the closure sees.
- React batches the updates between two pauses, and the model applies each batch in one step. An intermediate render inside a batch is not modelled.
- The sorts' working copy `newArr` is a local `seq` that each step reassigns, not a mutable array. `[...arr]` copies, so no aliasing is lost.
- `JsNumbers.ParseInt`: JavaScript turns the digits into a double, so values beyond 2^53 lose precision. The model keeps the exact integer. Only the default radix (10, or 16 after `0x`) is modelled, as the handlers never pass a radix.
- `JsNumbers.ShowInt`: JavaScript shows numbers of 10^21 or more in exponent notation. The model always writes plain decimal digits.
- `Visualizer.ArrayVisualizer.DeleteElement`: it does not promise that marks stay in range. The handler keeps `comparedIndices` and shortens the array, so a stale compared index can point past the end.
- `Visualizer.ArrayVisualizer.Pause`: the frame property is stated per pause, as "the recorded frame is in range". It is not restated as one invariant over all recorded frames.
- The in-range claims of the search and sort methods hold only when the marks were in range at the start. `generateUserArr` does not clear the marks, so marks left from an earlier array can be out of range.
