# ECG windowing and label pipeline

This project models the data pipeline of an atrial-fibrillation (AF)
classifier for two-lead ECG recordings. The pipeline turns recordings of any
length into fixed-size, labelled training items. It has five parts:

- **Signal** (`signal.dfy`): `extend_ts` pads a recording (samples x leads)
  with zero rows, or truncates it, to exactly `length` rows of two leads.
  The values are given by the function `Extended`. The method `ExtendTs` is
  the version that allocates a zero buffer and copies rows into it, and it is
  proved equal to `Extended`. `Transposed` is the `.T` to the channel-first
  layout.
- **Labels** (`labels.dfy`): `insert_ones` converts an AF end offset from
  input samples to label steps (`int(x * 1000 / 15000.0)`). It then writes 1
  into every index from 0 to that step inclusive that lies inside the vector,
  in place on an `array<int>`. The values are given by `Marked`.
- **Records** (`records.dfy`): the metadata entry, the class-2 filter, the
  `limit` prefix with Python's slice clamping, and `get_preloaded_data`. That
  function fills the signal store in a loop. The signal reader is a parameter
  `rdsamp(path, sampto)`.
- **Dataset** (`dataset.dfy`): `ECGDataset` keeps the fields its constructor
  is given and never updates them, so it is a datatype. `GetItem` models
  `__getitem__`. It represents three of the failures `__getitem__` can
  raise: index out of range, missing key, and a stored row NumPy cannot
  broadcast to two leads (the rest are under "Left out").
- **Split** (`split.dfy`): the size arithmetic of `get_train_test_split`.

Behaviour of the code that is easy to misread, modelled as the code does it:

- `__getitem__` indexes a Python list, so it also accepts negative indices
  down to `-len`. `GetItem` models that.
- `extend_ts` always builds two columns. NumPy broadcasting also accepts a
  one-column input and copies it into both leads (`AsLeads`). A non-empty
  input of any other width raises. (The empty-recording case is under
  "Left out".)
- The docstring of `insert_ones` (classify.py:89-92) says the boundary step
  stays 0 and the 50 steps after it become 1. The loop sets every step from
  0 up to and including the boundary. The model follows the loop, and
  `Labels.MarkedSetsBoundary` states the difference.
- `int()` truncates toward zero. So an AF end offset between -14 and -1
  still marks index 0 (`Labels.SmallNegativeOffsetIsStepZero`).

## Model

| member | source | states |
|---|---|---|
| Signal.Extended | classify.py:110-114 | whatever the number of input rows (zero included), the result has exactly `length` rows of two leads |
| Signal.ExtendedKeepsPrefix | classify.py:111-113 | row `i` of the result is input row `i` (broadcast to two leads) for every `i < min(length, rows)`; equal to the input row when the input has two leads |
| Signal.ExtendedPadsWithZeros | classify.py:111-113 | every result row at an index the input does not reach is two zeros |
| Signal.ExtendedDiscardsTail | classify.py:112-113 | input rows beyond `length` have no influence: extending `ts` equals extending `ts[:length]` |
| Signal.ExtendedIdentity | classify.py:112-113 | an input that already has `length` rows of two leads is returned unchanged |
| Signal.ExtendedIdempotent | classify.py:110-114 | extending an extended recording to the same length changes nothing |
| Signal.ExtendTs | classify.py:110-114 | the allocate-then-assign version returns a `length` x 2 array whose every entry equals the corresponding entry of `Extended` |
| Signal.Transposed | classify.py:67 | the transpose of a matrix of width `w` has `w` rows, each as long as the matrix |
| Signal.TransposedAt | classify.py:67 | entry `(j, i)` of the transpose is entry `(i, j)` of the matrix |
| Signal.TransposedInvolution | classify.py:67 | transposing twice gives the matrix back, so the layout change loses nothing |
| Labels.OutputStep | classify.py:103 | `end_step_y` truncates toward zero: it lies between 0 and the offset, on the offset's side; exact values are in `OutputStepOfNonNegative` and `OutputStepOfNegative` |
| Labels.OutputStepOfNonNegative | classify.py:103 | for a non-negative offset the label step is the offset divided by 15, rounded down |
| Labels.OutputStepOfNegative | classify.py:103 | for a negative offset the step is the negated step of its absolute value (truncation toward zero) |
| Labels.SmallNegativeOffsetIsStepZero | classify.py:103 | offsets from -14 to -1 convert to step 0 |
| Labels.OutputStepMonotone | classify.py:103 | a later end offset never converts to an earlier step |
| Labels.Marked | classify.py:103-106 | the marked vector keeps the length of `y`, and every entry is either 1 or its old value; which entries become 1 is pinned by `MarkedZerosIsRunOfOnes`, `MarkedSetsBoundary` and `InsertOnes` |
| Labels.MarkedZerosIsRunOfOnes | classify.py:103-106 | marking an all-zero vector of length `n` gives `k` ones and then `n - k` zeros, where `k` is the end step plus one clipped to `[0, n]` |
| Labels.MarkedSetsBoundary | classify.py:89-92 | the boundary step itself is set to 1, against the docstring, and the step after it keeps its old value |
| Labels.MarkedIdempotent | classify.py:104-106 | marking twice with the same offset equals marking once |
| Labels.MarkedTwice | classify.py:103-106 | marking with two offsets, in either order, equals marking once with the later one |
| Labels.InsertOnes | classify.py:88-108 | in place, every index of `y` up to `end_step_y` becomes 1 and every other entry keeps its old value; no write falls outside `y` and its length does not change |
| Records.Filtered | classify.py:214 | the filter never grows the list, and every entry it returns has a class other than 2; membership and order are in `FilteredMembers` and `FilteredAppend` |
| Records.FilteredMembers | classify.py:214 | an entry survives the filter exactly when it is in the input and its class is not 2 |
| Records.FilteredAppend | classify.py:214 | the filter keeps order: filtering a concatenation concatenates the filtered parts |
| Records.FilteredKeepsIncluded | classify.py:214 | an input without class-2 entries passes unchanged |
| Records.Limited | classify.py:215 | the returned metadata is a prefix of the filtered entries; its length is given in `LimitedIsPrefix` |
| Records.LimitedIsPrefix | classify.py:215-221 | the returned metadata is a prefix of the filtered entries. It holds all of them without a limit, `min(limit, count)` for `limit >= 0`, and all but the last `-limit` (at least zero) for a negative limit |
| Records.LimitedExcludesSentinel | classify.py:214-221 | every returned entry comes from the input and none has class 2 |
| Records.Store | classify.py:216-220 | every inserted entry's path is a key of the store; the exact key set and values are in `StoreKeys` and `StoreLastWins` |
| Records.StoreKeys | classify.py:216-220 | the store's keys are exactly the paths of the loaded entries |
| Records.StoreLastWins | classify.py:218-220 | an entry whose path no later entry repeats finds under its path the signal read for it with `sampto = min(50000, sig_len)` |
| Records.GetPreloadedData | classify.py:212-221 | the loop returns the filtered, limited metadata and the store built by inserting each entry in order; the store's keys are exactly the returned paths |
| Records.PreloadedCoversMetadata | classify.py:216-221 | every returned entry's path is in the returned store |
| Dataset.ECGDataset.Len | classify.py:58-59 | the number of metadata entries; specified by `LenBoundsIndices` |
| Dataset.ECGDataset.GetItem | classify.py:61-86 | an item without a signal transform always has 2 rows of 15000 samples, and without a target transform a one-element label; errors and contents are in `GetItemErrors`, `GetItemSignal`, `GetItemLabel` and `GetItemEventOffset` |
| Dataset.EventOffset | classify.py:85 | the offset is -1 or one of the AF ends, and it is the first AF end when there is one |
| Dataset.LenBoundsIndices | classify.py:58-62 | `__len__` is the number of entries given at construction, and `__getitem__` raises IndexError exactly for indices outside `[-len, len)` |
| Dataset.GetItemErrors | classify.py:66-67 | within range, KeyError exactly when the path is not stored; a shape error exactly when a stored row cannot be broadcast to two leads (an empty signal never fails here, see `Signal.Assignable` under Left out); a result otherwise |
| Dataset.GetItemEventOffset | classify.py:85 | the event offset is -1 when `af_ends` is empty and `af_ends[0]` otherwise |
| Dataset.GetItemLabel | classify.py:77 | without a target transform the label is `[class]` |
| Dataset.GetItemSignal | classify.py:66-67 | without a transform the signal is the transpose of the stored signal extended to 15000 rows. It has 2 rows of 15000; sample `t` of lead `c` is lead `c` of input row `t` where the input reaches, and 0 beyond |
| Dataset.PreloadedDatasetHasEveryKey | classify.py:214-221 | a dataset built from the two results of `get_preloaded_data` never raises KeyError |
| Dataset.LongRecordingScenario | classify.py:61-86 | a 20000-row all-ones recording of class 1 with AF end 5000 gives 2 x 15000 ones, label `[1.0]`, offset 5000 |
| Dataset.ShortRecordingScenario | classify.py:61-86 | a 100-row all-zeros recording of class 0 without AF gives 2 x 15000 zeros, label `[0.0]`, offset -1 |
| Split.SplitSizes | classify.py:223-226 | the train, validation and test sizes always add up to the dataset length |
| Split.Trunc | classify.py:224-225 | `int()` of a real truncates toward zero: for `x >= 0` it is at most `x` and within one below; for `x < 0` it is at least `x` and within one above |
| Split.TruncOfShare | classify.py:224-225 | for a fraction in [0, 1], `int(p * n)` lies in `[0, n]` and within one below `p * n` |
| Split.SplitSizesNonNegative | classify.py:224-226 | for non-negative fractions with sum at most 1, all three sizes are non-negative, and train and validation are their shares of `n` rounded down |
| Split.SplitOfTen | classify.py:224-226 | the 70/20 split of ten recordings is 7, 2 and 1 |

## Left out

- `scaling`, `shift` and `transform` (classify.py:32-49) are not modelled.
  They draw from NumPy's global random source and use floating point. Two
  notes on them. The `np.random.randn() > 0.5` gates fire with probability
  about 0.31, not 0.5. Also, the driver passes `transform` without
  `train=True`, so it returns the signal unchanged there. The dataset takes
  both transforms as optional pure functions.
- `CNN_RNN` (classify.py:117-209) is not modelled: it is the network, its
  loss, its optimiser and its metric logging, all calls into a
  deep-learning library.
- Reading signal files with `wfdb.rdsamp` (classify.py:219) is file I/O. It
  is the parameter `rdsamp(path, sampto)` of `Records.GetPreloadedData`.
  The `print` of the metadata (classify.py:213) is left out. The loaded
  metadata object is given as the sequence of its values, in insertion
  order; its keys are never used.
- `random_split` (classify.py:227) uses the library's random permutation.
  Only the sizes passed to it are modelled.
- Signal.Assignable: an empty recording has no width in this model, so it
  always counts as assignable and `Dataset.ECGDataset.GetItem` serves it as
  2 x 15000 zeros. NumPy checks shapes even when no row is copied, so an
  empty array of a width other than 1 or 2 raises in the source. That
  failure of `extend_ts` is not modelled.
- Dataset.ECGDataset.GetItem: every `Entry` has all four fields, so the
  KeyError for a metadata record that lacks `class`, `path` or `af_ends`
  (classify.py:64, 66, 85, 214) is not modelled. A failure inside a
  transform is not modelled either.
- Records.GetPreloadedData: `rdsamp` is a total function, so a failing read
  (a missing file, or a missing `sig_len` at classify.py:219) is not
  modelled.
- Split.SplitSizes: products are exact reals, not binary floating point. A
  product that binary rounding puts just below an integer (e.g. `0.29 * 100`)
  truncates one lower in the source.
- Labels.OutputStep: the quotient is exact. The source divides in floating
  point, which agrees for offsets below about 2^53 / 1000.
- Labels.InsertOnes: works on a one-dimensional vector, as the code indexes
  it. The docstring's `(1, Ty)` shape is not modelled. The source's return
  value is the same array, so it is not a separate result.
- The `.astype('float32')` cast (classify.py:67, 77) only changes the
  element type. The dataset's sample and label values are reals.
- Signal.ExtendTs: the target length is a natural number. NumPy's error for
  a negative length is not modelled, nor are inputs that are not
  two-dimensional.
- Dataset.GetItemEventOffset: `af_ends` is a sequence. An absent (`None`)
  value, which the source also reports as -1, is modelled as the empty
  sequence.
- `plot` and the `__main__` driver (classify.py:230-294) are not modelled:
  argument parsing, logging, checkpoint loading and plotting.
