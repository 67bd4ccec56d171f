# Proofreader corrections and debug-page text logic, in Dafny

This project models two pieces of the Safari GPT proofreader.

- **Corrections** (`corrections.dfy`, module `Corrections`). A `Correction` is an
  edit that replaces the half-open span `[start, end)` of the original text with a
  replacement string. Building one fails with `ValueError` when `end < start`.
  `merge_corrections` sorts the edits by `(start, end)`. It then folds them left to
  right. When an edit starts at or before the end of the last output edit, the two
  are coalesced into one edit. The coalesced text is a clamped prefix of the earlier
  text, then the later text, then a clamped suffix of the earlier text. Otherwise
  the edit is appended.
- **Debug page** (`debug.dfy`, module `Debug`). This covers three things:
  - `maskKey`, which redacts the stored API key for display.
  - `replaceSelectionInTextarea`. It replaces a textarea's selection only when both
    offsets are numbers, the selection is not empty and it still holds the expected
    text.
  - The local self-test `runLocalReplacementCheck`. It selects the first `borwn` in
    the sample, splices `brown` over it, checks the result and restores the sample.

  The textarea is a class whose value and selection the page updates in place. The
  browser's `setRangeText` ("preserve" mode), `setSelectionRange` (clamping) and
  `value` setter (a changed value moves the caret to the end) are modelled as its
  methods.

What is proved:

- **The merge.** `MergeCorrections` sorts and then runs the loop of the source,
  `CoalesceSorted`. The loop is proved equal to `MergeSorted`, a fold written as a
  function, so the whole is `MergeSorted(SortByKey(corrections))`.
- **Properties of the fold.** Lemmas prove that its result is well-formed, ordered
  by start and pairwise separated by gaps. They also prove that it covers every
  input correction and that every output edit runs from the start of an input
  correction to the end of one, so no output edit is wider than what it merged.
  Every position inside an output edit lies inside an input correction merged into
  it, so no output edit bridges a gap between inputs. They prove that it is the identity on already-separated input, and that it
  is never longer than the input.
- **The sort.** `SortByKey` is proved to be a permutation and to be sorted. It is
  the identity on sorted input.
- **Reference meaning.** `Apply` gives an edit's meaning on a text. For touching
  edits whose earlier text is no longer than its span, coalescing is proved to have
  the same effect as applying the two edits in turn. The same holds for an edit
  nested in a length-preserving one.
- **The splice.** The guarded splice is specified by the function `Splice`. Lemmas
  prove that it keeps every character outside the replaced span and that, for a
  non-empty replacement, splicing back undoes it.

The code and its own documentation disagree on touching edits; see "## Findings".
`MergeCorrections` follows the code as written. The merge the documentation
describes is defined next to it as `CoalesceConcatenating` and proved correct on
its own.

In the self-test, two branches print an error: the splice being refused and the
spliced text lacking `brown`. Both are proved unreachable once `borwn` has been found.

Inputs that the source only ever receives in one form are modelled as preconditions:

- Every `Correction` the Python code can hold is well-formed, because the constructor
  enforces it. So `MergeCorrections` requires well-formed input.
- A `<textarea>` always has numeric offsets inside its value. So the textarea methods
  require that.

## Model

| member | source | states |
|---|---|---|
| Corrections.NewCorrection | src/safari_gpt_proofreader/corrections.py:37-41 | construction succeeds exactly when end >= start and then keeps all three fields; otherwise it fails with the ValueError message |
| Corrections.Insert | src/safari_gpt_proofreader/corrections.py:66 | one step of the insertion sort, placing the element before the first element with a key no smaller than its own; the result is one element longer (what it contains and its order are stated by InsertPermutation and InsertSorted) |
| Corrections.SortByKey | src/safari_gpt_proofreader/corrections.py:66 | stable insertion sort by (start, end); same length (order and permutation in the lemmas below) |
| Corrections.SortByKeyPermutation | src/safari_gpt_proofreader/corrections.py:66 | the sort by (start, end) returns a permutation of its input (same multiset) |
| Corrections.SortByKeySorted | src/safari_gpt_proofreader/corrections.py:66 | the sort's result is ordered by (start, end) for every pair of positions |
| Corrections.SortByKeyOfSorted | src/safari_gpt_proofreader/corrections.py:66 | sorting an already sorted sequence returns it unchanged |
| Corrections.SortByKeyWellFormed | src/safari_gpt_proofreader/corrections.py:66 | sorting keeps every correction well-formed |
| Corrections.InsertPermutation | src/safari_gpt_proofreader/corrections.py:66 | inserting one correction adds exactly that correction to the multiset |
| Corrections.InsertSorted | src/safari_gpt_proofreader/corrections.py:66 | inserting into a sorted sequence keeps it sorted |
| Corrections.PrefixLength | src/safari_gpt_proofreader/corrections.py:81-83 | the kept prefix is no longer than the previous text and than the distance between the two starts |
| Corrections.SuffixLength | src/safari_gpt_proofreader/corrections.py:89-95 | the kept suffix fits in what the prefix left of the previous text and is no longer than the distance between the two ends |
| Corrections.Coalesce | src/safari_gpt_proofreader/corrections.py:73-99 | the coalesced edit starts at the previous start, ends at the further end, stays well-formed and is never longer than both texts together |
| Corrections.CoalesceParts | src/safari_gpt_proofreader/corrections.py:81-97 | the coalesced text is a prefix of the previous text, then the current text verbatim, then a non-overlapping suffix of the previous text |
| Corrections.TouchingCoalesce | src/safari_gpt_proofreader/corrections.py:47-52 | for touching edits the merged text is the previous text cut to its span's length followed by the current text, and plain concatenation when the previous text fits its span |
| Corrections.NestedCoalesce | src/safari_gpt_proofreader/corrections.py:76-97 | an edit nested in a length-preserving edit is spliced into the previous text at its relative position |
| Corrections.Apply | src/safari_gpt_proofreader/corrections.py:21-30 | applying an edit keeps the text before start, puts the replacement at [start, start + its length) and keeps the text from end on |
| Corrections.TouchingMergeSameEffect | src/safari_gpt_proofreader/corrections.py:47-52 | when the earlier text is no longer than its span, merging touching edits has the same effect on any text as applying the later and then the earlier edit |
| Corrections.NestedMergeSameEffect | src/safari_gpt_proofreader/corrections.py:76-97 | merging a nested edit into a length-preserving one has the same effect as applying the two in turn |
| Corrections.MergeStep | src/safari_gpt_proofreader/corrections.py:72-101 | one fold step never empties the output and adds at most one edit |
| Corrections.MergePrefix | src/safari_gpt_proofreader/corrections.py:70-101 | after n steps the output has at most n edits and is empty only when n is 0 |
| Corrections.MergeSorted | src/safari_gpt_proofreader/corrections.py:67-103 | the fold returns at most as many edits as it is given, and none exactly for empty input |
| Corrections.MergePrefixWellFormed | src/safari_gpt_proofreader/corrections.py:99 | every merged edit of well-formed input is well-formed |
| Corrections.MergePrefixSeparated | src/safari_gpt_proofreader/corrections.py:73-101 | consecutive merged edits are separated by a gap, for any input order |
| Corrections.MergePrefixLastStart | src/safari_gpt_proofreader/corrections.py:66-101 | on sorted input the last merged edit starts no later than the last correction folded in |
| Corrections.MergeStepCovers | src/safari_gpt_proofreader/corrections.py:73-101 | a fold step keeps every correction folded so far inside some output edit, and covers the new one |
| Corrections.MergePrefixCovers | src/safari_gpt_proofreader/corrections.py:70-101 | on sorted input each of the first n corrections lies inside some merged edit |
| Corrections.MergeStepEndpoints | src/safari_gpt_proofreader/corrections.py:73-101 | after a fold step every output edit still starts at the start and ends at the end of corrections folded in so far |
| Corrections.MergePrefixEndpoints | src/safari_gpt_proofreader/corrections.py:70-101 | every merged edit starts where one of the first n corrections starts and ends where one of them ends |
| Corrections.EndpointsPermutation | src/safari_gpt_proofreader/corrections.py:66 | endpoints taken from the sorted input are endpoints of original corrections |
| Corrections.MergePrefixOfSeparated | src/safari_gpt_proofreader/corrections.py:100-101 | corrections already separated by gaps are all appended unchanged |
| Corrections.SeparatedPairwise | src/safari_gpt_proofreader/corrections.py:63 | well-formed edits with gaps between neighbours are separated pairwise |
| Corrections.SeparatedSorted | src/safari_gpt_proofreader/corrections.py:63 | well-formed edits with gaps between neighbours are sorted by (start, end) |
| Corrections.StartsIncreasing | src/safari_gpt_proofreader/corrections.py:63 | the starts of such edits strictly increase |
| Corrections.CoversPermutation | src/safari_gpt_proofreader/corrections.py:66 | covering the sorted input covers every original correction |
| Corrections.MergeCorrections | src/safari_gpt_proofreader/corrections.py:44-103 | sorting then coalescing returns the fold of the sorted input: well-formed, separated, strictly increasing starts, covering every input correction, each output edit running from an input start to an input end with every position inside it covered by an input merged into it, no longer than the input, empty exactly for empty input |
| Corrections.MergeCorrectionsProperties | src/safari_gpt_proofreader/corrections.py:60-63 | the fold of the sorted input is a list of well-formed, non-overlapping edits ordered by start that covers every input; each of its edits starts at some input's start and ends at some input's end, and every position inside it lies inside an input merged into it |
| Corrections.CoalesceSorted | src/safari_gpt_proofreader/corrections.py:67-103 | the loop over the sorted corrections returns exactly the fold MergeSorted |
| Corrections.MergeStepInterior | src/safari_gpt_proofreader/corrections.py:73-101 | after a fold step every position inside an output edit still lies inside a correction merged into it |
| Corrections.MergePrefixInterior | src/safari_gpt_proofreader/corrections.py:70-101 | on sorted input every position inside a merged edit lies inside one of the first n corrections, which lies inside that edit |
| Corrections.InteriorPermutation | src/safari_gpt_proofreader/corrections.py:66 | positions covered by the sorted input are covered by original corrections |
| Corrections.CoalesceConcatenating | src/safari_gpt_proofreader/corrections.py:47-52 | the documented merge: touching edits get both texts concatenated in full, other overlaps are coalesced as the code does |
| Corrections.ConcatenatingMergeSameEffect | src/safari_gpt_proofreader/corrections.py:50-52 | for every touching pair, with no length condition, the documented merge has the same effect on any text as applying the later and then the earlier edit |
| Corrections.ConcatenatingAgreesWhenShort | src/safari_gpt_proofreader/corrections.py:81-83 | when the earlier text is no longer than its span, the documented merge equals the code's |
| CorrectionsExamples.ConcatenatingMergeKeepsLongerText | src/safari_gpt_proofreader/corrections.py:50-52 | on the input where the code cuts, the documented merge keeps all of "abcd" and gives the sequential result |
| Corrections.MergeOfSeparatedIsIdentity | src/safari_gpt_proofreader/corrections.py:66-103 | input already ordered and separated by gaps comes back identical |
| CorrectionsExamples.MergesTouchingCorrections | tests/test_merge_corrections.py:6-14 | (0,4,"This") and (4,7," is") merge into (0,7,"This is") |
| CorrectionsExamples.SortsUnsortedExample | tests/test_merge_corrections.py:17-22 | the unsorted three corrections are sorted by start |
| CorrectionsExamples.PreservesSortedOrder | tests/test_merge_corrections.py:17-29 | the unsorted input merges into (0,7,"This is") followed by (10,11,"e") |
| CorrectionsExamples.DoesNotMergeWhenGapExists | tests/test_merge_corrections.py:32-40 | corrections with a gap between them come back unchanged |
| CorrectionsExamples.EmptyInputReturnsEmptyList | tests/test_merge_corrections.py:43-44 | empty input gives empty output |
| CorrectionsExamples.InvalidRangeIsRefused | tests/test_merge_corrections.py:47-49 | start 5, end 4 is refused |
| CorrectionsExamples.TouchingMergeCutsLongerText | src/safari_gpt_proofreader/corrections.py:81-83 | a touching merge cuts an earlier text longer than its span, so it differs from applying the edits in turn |
| Debug.MaskKey | webextension/Resources/debug.js:13-23 | "(none)" exactly for a missing or empty key, four bullets for keys of 1 to 8 characters, otherwise the first four characters, an ellipsis and the last four |
| Debug.MaskKeyRevealsOnlyEnds | webextension/Resources/debug.js:20-22 | two long keys with the same first four and last four characters have the same mask |
| Debug.MaskKeyHidesShortKeys | webextension/Resources/debug.js:17-19 | all short keys have the same mask |
| Debug.IndexOf | webextension/Resources/debug.js:151 | the result is the first position where the pattern occurs, or -1 exactly when it occurs nowhere |
| Debug.Includes | webextension/Resources/debug.js:168 | true exactly when the pattern occurs somewhere |
| Debug.Splice | webextension/Resources/debug.js:126-145 | the splice happens exactly when both offsets are numbers, the selection is not empty and holds originalText; the result keeps the text outside the selection, inserts the replacement and selects it |
| Debug.SpliceKeepsOutside | webextension/Resources/debug.js:142-143 | characters before the selection keep their position; those after it shift by the change in length |
| Debug.SpliceUndo | webextension/Resources/debug.js:126-145 | splicing the original text back over a non-empty replacement restores the textarea exactly |
| Debug.Textarea.SetRangeText | webextension/Resources/debug.js:142 | the selection is replaced by the text; the start stays and a non-empty selection ends after the inserted text |
| Debug.Textarea.SetSelectionRange | webextension/Resources/debug.js:143 | both offsets are clamped to the value's length and a start past the end moves to the end |
| Debug.Textarea.SetValue | webextension/Resources/debug.js:169 | the value is set; the caret moves to the end only when the value changed |
| Debug.ReplaceSelectionInTextarea | webextension/Resources/debug.js:126-145 | returns true exactly when the splice is allowed, and then leaves the textarea in the spliced state; otherwise leaves it untouched |
| Debug.RunLocalReplacementCheck | webextension/Resources/debug.js:147-177 | passes exactly when the sample contains "borwn"; the value always ends equal to the sample; a failing run changes nothing; a passing run leaves the caret at the end |

## Findings

| source | as written | input that shows it | evidently intended | confidence | as-written member | corrected member |
|---|---|---|---|---|---|---|
| src/safari_gpt_proofreader/corrections.py:81-83 | touching edits keep only `min(current.start - previous.start, len(previous.replacement))` characters of the earlier text, so an earlier text longer than its span is cut | `(0,3,"abcd")` then `(3,5,"xy")` merge to `(0,5,"abcxy")`; applied in turn to `"0123456"` they give `"abcdxy56"`, the merge gives `"abcxy56"` | touching edits merged "by concatenating their replacement text" (corrections.py:50-52), giving `(0,5,"abcdxy")` | not executed; high that the cut contradicts the docstring | CorrectionsExamples.TouchingMergeCutsLongerText | Corrections.ConcatenatingMergeSameEffect |

## Left out

- Everything outside the two pieces above is not part of this model. That covers the background, content, popup, options and service-worker scripts, the Safari copies and `__init__.py`.
- The debug page's storage reads, messaging with the content script (`ping`), `formatTimestamp`, `setStatus`, the button handlers and `runSelfTest` are left out. They are browser I/O and UI wiring.
- `focus()` in the self-test is left out, because it changes no state that the model tracks.
- The status messages of the self-test are left out, because they are UI output. Only the returned verdict and the textarea's state are modelled.
- The `selfTestInput.value = sample` in the refused-splice branch is not modelled, because that branch is proved unreachable.
- Debug.MaskKey: lengths and slices count Unicode scalar values, whereas JavaScript counts UTF-16 code units. The two agree only for keys without characters outside the Basic Multilingual Plane.
- Debug.IndexOf, Debug.Splice, Debug.Textarea, Debug.ReplaceSelectionInTextarea, Debug.RunLocalReplacementCheck: string offsets, the selection offsets and the caret position at the end of the value also count Unicode scalar values, whereas the browser's `indexOf`, `slice`, `selectionStart`/`selectionEnd`, `setSelectionRange` and `length` count UTF-16 code units. The model matches the page only for text without characters outside the Basic Multilingual Plane.
- Corrections.SortByKey: the sort is stable by construction (an element goes in before equal keys that follow it in the input), but stability is not stated as a separate lemma.
- Corrections.MergeCorrections: the input `Iterable` is modelled as a finite sequence, and integer indices are unbounded.
- Corrections.MergeCorrections: the fold uses the code's `Coalesce`, not the corrected `CoalesceConcatenating`, so that the model does what the code does. The corrected merge is proved on its own, by ConcatenatingMergeSameEffect and ConcatenatingAgreesWhenShort.
- Corrections.Apply: the source defines no application of edits to a text. `Apply` is only the meaning used to relate merging to sequential edits, and it is stated for non-negative spans inside the text.
