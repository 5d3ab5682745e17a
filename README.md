# Batch preparation of the phrase model, in Dafny

This project models the integer side of batch preparation in the phrase
model of `ch12/libbots/model.py`: how `pack_batch` reorders a list of
(input phrase, reply phrase) pairs, splits it, pads the inputs into a
zero-filled matrix, packs them, and prepares one decoder target per reply by
dropping its end token; how `pack_input` wraps one phrase as a batch of one;
and how `get_encoded_item` takes one batch item out of an LSTM (hidden, cell)
state pair.

Three modules, one per concern:

- `ListSort` (`list_sort.dfy`): Python's `list.sort(key=..., reverse=True)`.
  The specification `SortDesc` is an insertion sort over sequences; lemmas
  prove that it orders by non-increasing key, is a permutation, and is
  stable (for every key, the subsequence of elements with that key is
  unchanged). `StableSortUnique` proves that any arrangement that is ordered
  and stable equals `SortDesc`, so the model does not depend on which stable
  algorithm Python runs. `SortInPlace` sorts an `array` in place and is proved
  to leave exactly `SortDesc` of the old contents.
- `Packing` (`packing.dfy`): the torch calls the batching code hands its data
  to, abstracted. A `PackedSequence` is the valid steps of each example plus
  the lengths it was packed with. `pack_padded_sequence` keeps the first
  `lens[i]` entries of each padded row and demands non-increasing lengths.
  An embedding table is a function parameter applied to each id.
- `Model` (`model.dfy`): `pack_batch` as the method `PackBatch` over an
  `array<Pair>` that it sorts in place. Its steps are `Unzip`, `PackInputs`
  (lengths, the `np.zeros` matrix filled by `PadInputs`, packing and embedding)
  and `PackTargets` (the loop that strips and packs each reply). Beside it sit
  `PackInput` and `GetEncodedItem`, with Python slice semantics
  (`PySlice`) for `out[:-1]` and `index:index+1`.

Token ids are unbounded integers. Tensors are nested sequences. The
embedding table and the element type of hidden vectors are type parameters.

## Model

| member | source | states |
|---|---|---|
| `ListSort.SortInPlace` | ch12/libbots/model.py:94 | the caller's list is rearranged in place into the stable, longest-input-first order `SortDesc` of its old contents |
| `ListSort.InsertAt` | ch12/libbots/model.py:94 | one insertion step of the in-place sort: the prefix up to `i` becomes `Insert` of the old prefix and element `i`, the rest is untouched |
| `ListSort.SortDescSorted` | ch12/libbots/model.py:94 | after the sort, keys (input lengths) are non-increasing from left to right |
| `ListSort.SortDescPermutation` | ch12/libbots/model.py:94-95 | the sort neither adds, drops nor alters an element: same multiset of pairs, so each input stays with its own output |
| `ListSort.SortDescStable` | ch12/libbots/model.py:94 | for every input length, the pairs with that length appear in their original relative order |
| `ListSort.StableSortUnique` | ch12/libbots/model.py:94 | any arrangement that is ordered by non-increasing key and stable is exactly `SortDesc`, so a stable `list.sort` with `reverse=True` produces it |
| `ListSort.SortDescHeadIsMax` | ch12/libbots/model.py:97-98 | the first element of the sorted list has the largest input length of the batch |
| `ListSort.MaxKey` | ch12/libbots/model.py:98 | the largest key of a non-empty sequence: no element exceeds it and some element attains it |
| `Model.SortedByInputLen` | ch12/libbots/model.py:94-98 | after the sort, input lengths are non-increasing and the first equals the batch maximum |
| `Model.Unzip` | ch12/libbots/model.py:95 | `zip(*batch)` fails exactly on the empty batch; otherwise it gives two sequences as long as the batch with `batch[i] == Pair(input_idx[i], output_idx[i])` |
| `Model.StripEnd` | ch12/libbots/model.py:112 | `out[:-1]` has length `max(len(out) - 1, 0)`; appending the dropped last token gives back `out`; an empty reply stays empty |
| `Model.PadInputs` | ch12/libbots/model.py:98-100 | the matrix has `len(batch)` rows and `lens[0]` columns; row `i` holds input `i` in its first `len(input_idx[i])` columns and 0 in every later column |
| `Model.UnpadRows` | ch12/libbots/model.py:98-104 | cutting each row of the padded matrix to its input's length gives back that input |
| `Model.PackInputs` | ch12/libbots/model.py:97-107 | the packed input records `lens[i] == len(input_idx[i])`, has one row per example, and row `i` is the embedding of input `i` with no padding and no id lost |
| `Model.PackTargets` | ch12/libbots/model.py:110-118 | one target per reply, in `output_idx` order; target `i` is a batch of one with length `max(len(out) - 1, 0)` holding the embedded reply without its end token |
| `Model.PackBatch` | ch12/libbots/model.py:91-119 | sorts `batch` in place to `SortDesc`; fails exactly on an empty batch; otherwise returns `input_idx`/`output_idx` aligned with the sorted batch, input lengths whose first is the batch maximum, the packed inputs and the stripped targets |
| `Model.PackInput` | ch12/libbots/model.py:122-127 | a single phrase becomes a batch of one whose only length is `len(input_data)` and whose only row is the embedding of every id |
| `Model.ItemSlice` | ch12/libbots/model.py:34 | `row[index:index+1]` is `[row[index]]` for `0 <= index < len`, `[row[index + len]]` for `-len <= index < -1`, and empty for `-1` and out-of-range indices |
| `Model.GetEncodedItem` | ch12/libbots/model.py:30-34 | keeps every layer of both the hidden and the cell state and takes the same `index:index+1` slice of the batch dimension from each |

## Left out

- `PhraseModel.__init__`, `encode`, `decode_teacher`, `decode_one` (ch12/libbots/model.py:16-40, 85-88): LSTM, linear and embedding layers are floating-point tensor numerics.
- `decode_chain_argmax` and `decode_chain_sampling` (ch12/libbots/model.py:42-82): their loops are driven by float logits; sampling is random.
- `seq_bleu` (ch12/libbots/model.py:130-133): an argmax over float logits and a call to `utils.calc_bleu`; `utils.py` is not part of this model.
- CUDA placement (ch12/libbots/model.py:76-77, 102-103, 114-115): no logical content.
- The `isinstance(batch, list)` assertion (ch12/libbots/model.py:92) and a batch whose items are not pairs: the Dafny types rule both out.
- `Packing.PackPadded`: the time-major layout and the `batch_sizes` vector of a `PackedSequence` are not modelled, and neither is torch's rejection of a zero length (an empty input phrase, or a reply of at most one token). Out-of-order lengths are a precondition rather than an error result.
- `Model.PadInputs`: requires that no input is longer than the first. numpy's broadcast error for a longer row is not modelled, because `pack_batch` calls this step only after sorting.
- The 64-bit range of the `np.int64` matrix and of `torch.LongTensor`: ids are unbounded integers.
- Python's Timsort itself: the sort is modelled as a stable insertion sort. `ListSort.StableSortUnique` shows that every stable descending sort gives the same result.
