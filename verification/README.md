# Label mutation, padding and the character codec of SpellDataset

This project is a Dafny model of two cooperating pieces of a spelling-correction
dataset, written in terms of that dataset.

- **SpellDataset** (`dataset.py`) turns ground-truth labels (sequences of
  character codes) into training targets.
  - `mutate_label` draws replace, delete and insert edits. It collects them as
    (position, payload, consumes) triples, puts a sentinel triple in front, and
    sorts the triples by position.
  - `_mutate_label` applies the sorted triples in one pass. For each triple it
    emits the payload, unless that is the blank code 0 (JOKER). It then copies
    the original symbols up to the next triple's position.
  - `_pad_label` places a label into a row of padding codes (PAD = 1) with a
    left margin of at most 5.
  - `get_batch` pads every target label to the width of the longest one.
- **TextMapper** (`text_mapper.py`) is the codec between characters and codes.
  - Code 0 is the joker, code 1 the padding symbol, and the alphabet follows.
  - Each character passes through an optional substitution map.
  - A character the table does not list is appended to the table and encodes
    as the joker's code. The tables only ever grow.
  - Codes are decoded by indexing the character table.

Modules:

| module | file | what it holds |
|---|---|---|
| `Results` | results.dfy | `Option`, `Result` and the Python exceptions as error values |
| `PyList` | pylist.dfy | Python slicing, negative indexing, `[x] * n` |
| `EditPlan` | edit_plan.dfy | the draws, the collected triples, the sort contract, `to_indexes` |
| `EditCounts` | edit_counts.dfy | how many triples emit and consume, invariant under sorting |
| `EditApply` | edit_apply.dfy | the single pass, its length bounds, and an independent position-by-position reference |
| `Mutation` | mutation.dfy | `mutate_label` end to end: bounds for any sort order, exact results under explicit assumptions |
| `Padding` | padding.dfy | `_pad_label` with numpy's slice assignment written out |
| `Batch` | batch.dfy | the target half of `get_batch` (lines 38-52) |
| `TextMapper` | text_mapper.dfy | construction, `map_text`, `texts_to_labels`, `string_to_labels`, `labels_to_text` |

**Randomness is modelled as parameters.**
- Each family's draw (`FamilyDraw`) holds what its `*_rnd` callable returned
  and what `random.sample` returned.
- `ValidDraws` states what `random.sample` guarantees: distinct positions in
  `range(length)` and distinct payloads in `range(2, len(chars))`.
- A sample that cannot be drawn raises `ValueError` and becomes
  `Err(SampleTooLarge)`.

**The sort order among equal positions is left open.**
- numpy's default `argsort` is not documented as stable, so the order it
  leaves among triples with equal positions is not fixed.
- `PlanFits` accepts every reordering of the collected triples that is sorted
  by position.
- The general guarantees (`MutateBounds`, `MutationCodes`) hold for all such
  orders.
- The exact guarantees (`MutateExact`, `ReplaceOnly`, `DeleteOnly`) assume two
  things: no two triples share a position (`Separate`), and the sentinel comes
  first (`SentinelFirst`).
- `TieExample` shows that these assumptions are needed. A delete at position 0
  sorted before the sentinel is undone: the sentinel's slice re-emits the
  whole label.
- `NoTieAtZero` shows that the sentinel comes first whenever no triple sits at
  position 0.

## Model

| member | source | states |
|---|---|---|
| `PyList.Slice` | dataset.py:103-105 | A list slice with bounds inside the label is the sub-sequence. A slice whose start is at or past its stop is empty rather than an error. Its length follows Python's clamping of the bounds. |
| `PyList.Get` | text_mapper.py:51 | Indexing succeeds exactly for -n <= i < n. A non-negative index reads that element. A negative index i reads element n + i, counting from the end. |
| `PyList.Repeat` | dataset.py:75 | `[x] * n` has n elements, all equal to x. |
| `EditPlan.FamilyEdits` | dataset.py:65-83 | Fails exactly when `random.sample` would raise. Otherwise it gives one triple per drawn position, each with a position in range(length). Positions are pairwise distinct. Consumes is 1 for replace and delete and 0 for insert. A delete's payload is JOKER; replace and insert payloads lie in range(2, len(chars)). |
| `EditPlan.OptionEdits` | dataset.py:65-83 | An unconfigured family contributes nothing. The result is empty exactly when the family is unconfigured or its count is 0. |
| `EditPlan.CollectEdits` | dataset.py:61-85 | Fails exactly when one family's sample fails. Otherwise it gives r + d + i triples, each in range. There are none exactly when no configured family asks for an edit. |
| `EditPlan.ToIndexes` | dataset.py:93 | `to_indexes[k]` is the next triple's position. The last entry is `len(label)`. |
| `EditPlan.PlanShape` | dataset.py:85-93 | The sorted plan has 1 + r + d + i columns, contains the sentinel, starts at position 0 and is sorted by position. Each stop is at or after its start. |
| `EditCounts.SumPermutation` | dataset.py:92 | Reordering the columns does not change any per-column total. |
| `EditCounts.CollectedCounts` | dataset.py:65-89 | With the sentinel, r + i triples emit a code and r + d consume a symbol. |
| `EditCounts.PlanCounts` | dataset.py:87-92 | The sorted plan keeps those counts. |
| `EditApply.ApplyEdits` | dataset.py:99-106 | `_mutate_label`: every code the pass writes is a code of the label or the payload of some triple. The pass never writes JOKER itself. |
| `EditApply.WalkIsApply` | dataset.py:93-106 | Zipping the plan with `to_indexes` is the walk where each slice ends at the next triple. |
| `EditApply.ApplyLength` | dataset.py:99-106 | For any position-sorted plan, the output length lies between (symbols from the first position on) + emitted − consumed and (that) + emitted. It is exactly the lower value when no slice overruns the next triple. |
| `EditApply.ApplyMatchesReference` | dataset.py:99-106 | With the sentinel first and strictly increasing real positions, the pass equals the reference. In the reference, each symbol is kept, replaced, deleted or preceded by an insert. |
| `EditApply.ExactPlanLength` | dataset.py:99-106 | Under the same assumptions, the output length is len(label) + emitted − consumed. |
| `Mutation.MutateLabel` | dataset.py:61-97 | Fails exactly when a sample fails, and then with SampleTooLarge. When no family asks for an edit, the label comes back unchanged. |
| `Mutation.MutateBounds` | dataset.py:93-106 | For every sort order: len(label) + i − d <= len(result) <= len(label) + r + i. |
| `Mutation.PlanPayloads` | dataset.py:65-92 | Every code a sorted plan can emit lies in range(2, len(chars)). |
| `Mutation.MutationCodes` | dataset.py:61-106 | Every code of the mutated label is a code of the input or one of the payloads `random.sample` drew for replace or insert. Either way it is a code of the input or lies in range(2, len(chars)). JOKER appears only if the input had it. |
| `Mutation.MutateExact` | dataset.py:87-106 | With distinct positions and the sentinel first, the result is the reference applied to the collected triples. Its length is exactly len(label) + i − d. |
| `Mutation.NoTieAtZero` | dataset.py:87-92 | With no triple at position 0, every sorted order puts the sentinel first. |
| `Mutation.ReplaceOnly` | dataset.py:65-70 | Replace-only, sentinel first: the length is kept, each sampled position holds its sampled payload, and every other symbol is unchanged. |
| `Mutation.DeleteOnly` | dataset.py:72-76 | Delete-only, sentinel first: the result is the label without the sampled positions. It is shorter by the number of deletes. |
| `Mutation.DeleteExample` | dataset.py:61-106 | [2, 3, 4] with a delete at position 1 becomes [2, 4]. |
| `Mutation.TieExample` | dataset.py:92-106 | A delete at 0 gives [3, 4] when the sentinel sorts first and [2, 3, 4] when it sorts second. Both orders are sorted by position. |
| `Padding.AssignSlice` | dataset.py:112 | numpy's `row[a:b] = values` keeps the row's width. It succeeds exactly when the widths match or one value is broadcast, and otherwise raises. Matching widths splice the values in. |
| `Padding.PadLabel` | dataset.py:108-113 | A negative width raises. A label that fits gives a row of exactly max_length cells: the label from the margin min(max_length − L, 5) on, PAD everywhere else. A label longer than the row raises unless it has one code. |
| `Padding.Margin` | dataset.py:111 | The margin is at most 5 and never pushes the label past the row's end. It is non-negative when the label fits, and 0 when the label fills the row. |
| `Padding.PadRoundTrip` | dataset.py:108-113 | Reading the label back from behind the margin gives the label. A label as wide as the row is the row. |
| `Batch.MutateAll` | dataset.py:40-44 | One mutated label per ground-truth label, each the result of `mutate_label`. The loop fails exactly when some row's sample fails. |
| `Batch.MaxOf` | dataset.py:50 | `max` returns an element that no element exceeds. |
| `Batch.PadAll` | dataset.py:49-52 | Each row is `_pad_label` of its label. It always succeeds when every label fits the width. |
| `Batch.GetTargets` | dataset.py:38-52 | An empty batch raises. The only failures are an empty batch and a failed sample. The call succeeds exactly when the batch is non-empty and, with edit callables configured, every row's `mutate_label` succeeds. Every row is as wide as the longest target, and each target length fits its row. |
| `Batch.Lengths` | dataset.py:44-47 | `target_lengths` holds one entry per label: that label's length. |
| `Batch.TargetRows` | dataset.py:49-52 | Every row holds its target label behind the margin with PAD elsewhere. Unpadding the row gives the target back. |
| `Batch.UnmutatedTargets` | dataset.py:45-52 | Without edit callables, the target lengths are the ground-truth lengths and each row unpads to its ground-truth label. |
| `TextMapper.IndexOf` | text_mapper.py:20 | `list.index` finds the first position holding the character, and finds one exactly when the list holds it. |
| `TextMapper.MakeTrans` | text_mapper.py:25-26 | The translation table lists exactly the characters of `_from_char`. |
| `TextMapper.MakeTransLast` | text_mapper.py:26 | A character listed twice keeps the target of its last occurrence. |
| `TextMapper.NewMapper` | text_mapper.py:13-23 | A new mapper satisfies the invariant. Its table is [joker, pad] + chars, every entry maps to its own position, and the joker's position is 0. |
| `TextMapper.CodeOf` | text_mapper.py:41 | A character of the initial table encodes as a position that holds it. Any other listed character encodes as 0. An unlisted one keeps its code point. |
| `TextMapper.InitialCodes` | text_mapper.py:15-21 | With distinct entries, the joker has code 0, the pad code 1, and chars[k] code k + 2. |
| `TextMapper.MapText` | text_mapper.py:28-29 | `map_text` yields one string per character: the substitute for a character the map lists, the character itself otherwise. |
| `TextMapper.MapTextIdentity` | text_mapper.py:28-29 | Without a substitution map, `map_text` changes nothing. |
| `TextMapper.MapTextSingle` | text_mapper.py:28-29 | With single-character substitutes, the length is kept. Each character is substituted exactly when the map lists it. |
| `TextMapper.TextsToLabels` | text_mapper.py:31-43 | One label per text, each as long as its mapped text. The tables only grow, and they grow by exactly the missing characters. |
| `TextMapper.TextsToLabelsValid` | text_mapper.py:33-39 | The mapper stays valid. Appended characters are new, listed once, and map to the joker's code. |
| `TextMapper.Code` | text_mapper.py:41 | Translating then taking `ord` gives a listed character the code of its last listing in `_from_char`, as `maketrans` keeps, and leaves an unlisted character at its code point. |
| `TextMapper.Encode` | text_mapper.py:41 | The label of a mapped text has one code per character: the code of the character's last listing, or its own code point when it is unlisted. |
| `TextMapper.EncodedCodes` | text_mapper.py:33-41 | Every code is below the size of the initial table. A character of the initial table is encoded as a position holding it; any other as 0. |
| `TextMapper.ReencodeStable` | text_mapper.py:31-43 | Encoding the same texts again finds nothing missing and gives the same labels and tables. |
| `TextMapper.StringToLabels` | text_mapper.py:45-47 | The single label is as long as the mapped string. The initial table is unchanged. |
| `TextMapper.Lookup` | text_mapper.py:51 | Indexing the table with an int succeeds exactly for an index in Python's range. A non-negative code reads that entry and a negative code counts from the end of `_from_char`. A row used as an index raises TypeError. |
| `TextMapper.DecodeRow` | text_mapper.py:51 | A row decodes exactly when every code does, to one character per code. |
| `TextMapper.DecodeRows` | text_mapper.py:53 | A 2-D list decodes exactly when every element is a row that decodes. It gives one string per row. |
| `TextMapper.LabelsToText` | text_mapper.py:49-57 | An empty list raises IndexError. A leading built-in int decodes one string; a leading row decodes one string per row; a leading numpy integer raises ValueError. |
| `TextMapper.TextsRoundTrip` | text_mapper.py:31-53 | Decoding the int32 arrays that `texts_to_labels` returns gives back each mapped text, with characters outside the initial table shown as the joker. |
| `TextMapper.PlainRoundTrip` | text_mapper.py:45-53 | Without a substitution map, a string over the initial table round-trips exactly through a list of ints. |
| `TextMapper.ArrayLabelRejected` | text_mapper.py:45-55 | The int32 array `string_to_labels` returns is rejected by `labels_to_text`. |
| `TextMapper.LabelsToTextFixed` | text_mapper.py:49-57 | Accepting numpy integers where built-in ints are accepted changes nothing for any other input. |
| `TextMapper.FixedStringRoundTrip` | text_mapper.py:45-53 | With that correction, a label from `string_to_labels` decodes back to its mapped string. |

## Left out

- File reading in `SpellDataset.__init__` (dataset.py:22-27): this is I/O. The ground-truth labels of a batch are an input sequence, and each label's `gt_length` is its own length.
- The random batch start and the slicing of lines, labels and lengths (dataset.py:33-36): randomness. The batch is given directly.
- `labels_to_text` on the padded targets and the returned dictionary (dataset.py:54-59): the model stops at `target_labels` and `target_lengths`. `labels_to_text` is modelled on its own.
- The `*_rnd` callables and `random.sample` are parameters (`Draws`). Only what `random.sample` guarantees is assumed of them.
- The sort order numpy's `argsort` gives equal positions is not fixed. Any order sorted by position is allowed.
- `vstack` and the column reordering are modelled on sequences of triples rather than a 3-row array.
- Integer widths are not modelled: codes and lengths are unbounded integers, not `int32`/`int64` array elements. No code in the model comes near either bound.
- `str.maketrans`, `translate`, `chr` and `ord` become a `map<char, int>` of code points (`MakeTrans`, `Code`).
- The contents of the `chars` constant (text_mapper.py:6-9) are a parameter of `NewMapper`.
- The iteration order of the `missing_chars` set is the `order` parameter. It must list each missing character once.
- `char_mapping` is a `map<char, string>`. The list default `[]` behaves as the empty map. Substitute values that are not strings are not modelled.
- `labels_to_text` elements are built-in ints, numpy integers or iterable rows. Strings, floats and booleans used as labels are not modelled.
- The mutable `TextMapper` object is modelled as a value. `texts_to_labels` returns the updated mapper together with the labels.
- `copy.deepcopy` (dataset.py:46-47) is implicit: sequences are values.

## Findings

| source | as written | input that shows it | evidently intended | confidence | as-written member | corrected member |
|---|---|---|---|---|---|---|
| text_mapper.py:45-55 | `labels_to_text` takes the 1-D branch only when the first element's type is exactly `int` | any string whose mapped text is non-empty: `labels_to_text(string_to_labels(s))`. The label is an `np.int32` array, and its first element is neither `int` nor iterable, so ValueError is raised | a 1-D label from the mapper's own `string_to_labels` decodes back to its text, as the 2-D labels from `texts_to_labels` do | low; not executed | `TextMapper.ArrayLabelRejected` | `TextMapper.FixedStringRoundTrip` |
