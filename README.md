# odin core, modelled in Dafny

This project models the bookkeeping core of the odin deep-learning toolkit
(Python 2, built on Theano) and proves what it promises:

- **MmapDict** (`odin/fuel/utils.py`): an insert-only key/value store kept in
  one memory-mapped file. The file holds the magic marker `mmapdict`, two
  48-column decimal header fields (the high-water mark and the length of the
  pickled index), the data region, and the pickled index after the data.
  - New values go to a write buffer and to an overlay of recent entries.
  - `flush` writes the buffer at the old high-water mark, then the index, and
    rewrites the header.
  - The model is the class `MmapStore.MmapDict`.
  - The invariant its methods keep (`StoreState.Consistent`) ties the header,
    the index, the buffer and the overlay together.
  - The file format and its round trips are in `Layout`, `Decimal` and
    `Codec`.
- **freqcount** (`odin/stats.py`): a frequency table of the items' keys.
  - The entries come in ascending key order, or ordered by count when
    `sort` is set.
  - The model is `Stats.FreqCount`, a loop proved against the recursive tally
    `Stats.Tally`.
- **Backend helpers** (`odin/backend/theano/helpers.py`), in module `Helpers`:
  - order-preserving de-duplication `_unique`;
  - the shape sanitisation around `auto_infer_shape`;
  - the device naming of `_check_target`;
  - the naming, scoping and registry of `variable` and `variable_scope`. That
    module state is the class `Helpers.Registry`.
- **Network operators** (`odin/nnet/base.py`), in module `NNet`, with tensors
  abstracted to their shapes:
  - the shape checks and stacking of `NNConfig.create_params`;
  - the attribute recording (`__setattr__`) and input wrapping (`apply`) of
    `NNOps`, as the class `NNet.Ops`;
  - the PReLU shared axes, the alpha shape and the dimshuffle pattern;
  - the output shape that `NNSliceOps._apply` records.

Python integers are unbounded, and so are Dafny's. Where Python's arithmetic
differs from Dafny's, it is written out:

- `int()` of a number truncates toward zero (`Stats.Truncate`).
- `%` by a positive divisor never gives a negative result, in both languages.

## Model

| member | source | states |
|---|---|---|
| Codec.DecodeEncode | odin/fuel/utils.py:136-153 | a stored value decodes back to the value that was encoded (`marshal.loads(marshal.dumps(v)) == v`) |
| Codec.ParseEncode | odin/fuel/utils.py:136-139 | one encoded value is read back from the front of any byte string and the rest is returned untouched, so values can be concatenated in the buffer |
| Codec.ParseManyEncodeAll | odin/fuel/utils.py:93-99 | the concatenated encodings of a list of values read back as that list, followed by whatever came after |
| Codec.ParseVarintRoundTrip | odin/fuel/utils.py:136 | a length or integer prefix reads back as the number written, leaving the rest |
| Decimal.FromDigitsDigits | odin/fuel/utils.py:88-91 | `int('%d' % n) == n`: the decimal digits of n denote n |
| Decimal.DigitsLength | odin/fuel/utils.py:91 | a number below 10^k has at most k digits, so it fits a k-column field |
| Decimal.Text | odin/backend/theano/helpers.py:188 | `'%d' % n` has one character per decimal digit |
| Decimal.TextRoundTrip | odin/backend/theano/helpers.py:188 | reading the text of `'%d' % n` back gives n, so distinct numbers give distinct texts |
| Layout.FormatFieldWidth | odin/fuel/utils.py:91 | every number below 10^48 is written in exactly 48 columns |
| Layout.ParseFormatField | odin/fuel/utils.py:87-91 | `int('%48d' % n) == n` for every n below 10^48, with leading spaces ignored |
| Layout.ReadAt | odin/fuel/utils.py:152-153 | seek-then-read returns exactly the bytes at that range when it lies inside the file |
| Layout.WriteAt | odin/fuel/utils.py:96-99 | seek-then-write leaves a file as long as the longer of the old file and the written range |
| Layout.WriteAtContents | odin/fuel/utils.py:96-99 | after seek-then-write, the range holds the data, every other old byte is unchanged, and a gap past the old end is zero-filled |
| Layout.Index.Insert | odin/fuel/utils.py:137 | `_dict[key] = (start, size)` for a new key appends it to the insertion order and adds its entry, keeping the index an ordered dictionary |
| Layout.Index.Remove | odin/fuel/utils.py:162 | `del _dict[key]` removes exactly that key from the order and the entries; the other keys keep their relative order, and the order stays duplicate-free and one shorter |
| Layout.DecodeEncodeIndex | odin/fuel/utils.py:93-99 | unpickling the pickled index gives back the same ordered index |
| Layout.ParseFile | odin/fuel/utils.py:34-45 | opening a file succeeds only if it starts with the magic marker; otherwise it fails with a bad-magic, bad-header or bad-index error, and a successful read yields a valid index |
| Layout.NewFileParses | odin/fuel/utils.py:47-61 | a new file is the magic marker, `'%48d' % 104`, `'%48d' % len(blob)` and the empty index blob, and reading it back gives mark 104 and the empty index |
| Layout.HeaderReads | odin/fuel/utils.py:36-42 | the magic marker and both 48-column header fields of a written header read back as written |
| Layout.FlushedFile | odin/fuel/utils.py:85-99 | after the flush writes, the file starts with the new header, keeps the data between the header and the old mark, holds the buffered values from the old mark on and the index after them, and reopens to that mark and index |
| Layout.FlushWritesHeader | odin/fuel/utils.py:87-94 | after all four writes of a flush the file starts with `mmapdict`, the new mark and the index length, each in its 48 columns |
| Layout.FlushWritesData | odin/fuel/utils.py:96-99 | the flush writes keep the old data region and place the buffer at the old mark and the index right after it |
| Layout.IndexSize | odin/fuel/utils.py:158-159 | an index holds as many entries as keys in its order |
| StoreState.DecodeValue | odin/fuel/utils.py:150 | loading stored bytes either gives a value or fails with the bad-value error, never another one |
| StoreState.Read | odin/fuel/utils.py:148-153 | `self[key]` reports a missing key exactly when the key is neither in the overlay nor in the index; its only other errors are a closed map and undecodable bytes |
| StoreState.NewFileWellFormed | odin/fuel/utils.py:47-61 | the file a new store writes is well formed and reopens with mark 104 and the empty index |
| StoreState.AppendKeeps | odin/fuel/utils.py:136-141 | appending a new key's encoded value keeps the store invariant, makes the key read back as the decoded value, and leaves every indexed key's value as it was |
| StoreState.AppendReads | odin/fuel/utils.py:137-141 | after an append the new key reads from the overlay, and every other indexed key reads as before |
| StoreState.RemoveKeeps | odin/fuel/utils.py:161-162 | deleting an indexed key keeps the store invariant |
| StoreState.ClearKeeps | odin/fuel/utils.py:207-208 | clearing the index keeps the store invariant; keys outside the overlay read as missing, keys in the overlay still read their buffered value |
| StoreState.HeaderMark | odin/fuel/utils.py:87-88 | the mark flush re-reads from the header is the high-water mark minus the buffered bytes |
| StoreState.ReadMark | odin/fuel/utils.py:86-88 | re-reading the header field returns the persisted mark: the high-water mark minus the buffered bytes |
| StoreState.FlushKeepsData | odin/fuel/utils.py:96-97 | a flush keeps the file's data below the persisted mark and holds the buffer from that mark on |
| StoreState.FlushWritesMark | odin/fuel/utils.py:90-91 | after a flush the header holds the magic marker and the new high-water mark |
| StoreState.FlushReopens | odin/fuel/utils.py:93-99 | a flushed file reopens to the new mark and the index that was written |
| StoreState.FlushPlaced | odin/fuel/utils.py:96-111 | once the buffer is written at the persisted mark, every indexed key lies below the new mark and reads from the file the value it read before through the overlay |
| StoreState.FlushKeeps | odin/fuel/utils.py:76-111 | a flush gives a file that keeps the invariant with an empty buffer and overlay, keeps the data below the old mark, and reads every indexed key's value as before |
| StoreState.FlushReopensWellFormed | odin/fuel/utils.py:85-111 | a flushed file is well formed and reopening it gives the index that was written |
| StoreState.OpenedConsistent | odin/fuel/utils.py:34-45 | opening a well-formed file gives a store that keeps the invariant with an empty buffer and overlay |
| StoreState.Permute | odin/fuel/utils.py:170-174 | a shuffled key list is as long as the original |
| StoreState.PermuteIsPermutation | odin/fuel/utils.py:170-174 | shuffling the keys by a permutation keeps each key exactly once: no key lost, none duplicated |
| MmapStore.MmapDict.Init | odin/fuel/utils.py:62-69 | the store starts open, with the given file, mark and index, and an empty buffer and overlay |
| MmapStore.MmapDict.Open | odin/fuel/utils.py:27-69 | a missing or empty file is an error when read-only; otherwise it is created with mark 104 and the empty index; an existing file is read (bad magic, header or index are errors), and a well-formed one gives a store that keeps the invariant |
| MmapStore.MmapDict.Flush | odin/fuel/utils.py:76-111 | a read-only store fails, and a closed writable one fails with the closed error (the released map cannot be flushed); either way nothing changes. Otherwise the file becomes the flush writes at the persisted mark, the buffer and overlay are emptied, the invariant holds and every indexed key reads as before |
| MmapStore.MmapDict.Append | odin/fuel/utils.py:136-141 | the index gains the key at the old high-water mark, the mark advances by the value's length, buffer and overlay gain the value, and the new key reads back while the others read as before |
| MmapStore.MmapDict.Add | odin/fuel/utils.py:136-143 | appends the value and flushes once the buffer exceeds 48000 bytes; that flush fails after the append for a read-only store (read-only error) or a closed one (closed error); when it succeeds the key reads back the value and every old key reads as before |
| MmapStore.MmapDict.Set | odin/fuel/utils.py:132-143 | a key already in the index is rejected with nothing changed; otherwise it behaves as the append-then-maybe-flush above, including the read-only and closed failures of the flush |
| MmapStore.MmapDict.Get | odin/fuel/utils.py:148-153 | `self[key]` returns what the overlay, or else the index and the mapped file, hold for the key |
| MmapStore.MmapDict.Contains | odin/fuel/utils.py:155-156 | `key in self` holds exactly when the key is in the index |
| MmapStore.MmapDict.Len | odin/fuel/utils.py:158-159 | `len(self)` is the number of indexed keys |
| MmapStore.MmapDict.Delete | odin/fuel/utils.py:161-162 | an indexed key is removed from the index (a missing one is an error) and every other key reads as before |
| MmapStore.MmapDict.Clear | odin/fuel/utils.py:207-208 | the index becomes empty; only keys in the overlay still read |
| MmapStore.MmapDict.Keys | odin/fuel/utils.py:170-174 | the keys in insertion order, or rearranged by the shuffle; either way each indexed key exactly once |
| MmapStore.MmapDict.Items | odin/fuel/utils.py:191-205 | every key of the (possibly shuffled) order with its value, in that order; the first key whose value cannot be read ends it with that error |
| MmapStore.MmapDict.Close | odin/fuel/utils.py:113-117 | an open writable store is flushed (the file then reopens to its index and is well formed) and ends closed; closing a writable store a second time fails in that flush with the closed error and changes nothing; a read-only one is only marked closed |
| Stats.Truncate | odin/stats.py:40-42 | `int(count)` is the integer nearest to the number on the side of zero |
| Stats.FreqCount | odin/stats.py:16-53 | one entry per distinct key of the items, exactly the keys that occur, each the sum of its items' counts, the counts adding up to the total; ascending keys, or by count then key when sorted; nothing for no items |
| Stats.TallyKeys | odin/stats.py:43-46 | the loop's dictionary has exactly the keys of the items |
| Stats.TallySums | odin/stats.py:43-46 | each key's entry in the loop's dictionary is the sum of the counts of the items with that key |
| Stats.TotalBySortedKeys | odin/stats.py:48 | summing the per-key sums over distinct keys that cover every key gives the total count |
| Stats.SumValuesOfTable | odin/stats.py:48-50 | the table's counts add up to the per-key sums over its keys |
| Stats.AscendingSpec | odin/stats.py:50 | `sorted(freq.keys())` is strictly ascending and has exactly the dictionary's keys |
| Stats.TableFacts | odin/stats.py:47-50 | the table built from the ascending keys is the frequency table: distinct ascending keys, exactly those of the items, each with its sum, totalling all counts |
| Stats.SortByValuePermutes | odin/stats.py:51-52 | sorting by count returns a permutation of the entries ordered by count |
| Stats.ValueSortIsStable | odin/stats.py:51-52 | sorting entries that were in ascending key order by count leaves equal counts in key order |
| Stats.SortedTableFacts | odin/stats.py:51-52 | the sorted table keeps the entries, their keys, their sums and the total, ordered by count then key |
| Helpers.Unique | odin/backend/theano/helpers.py:65-71 | the loop with a set of seen items returns the de-duplication of the items |
| Helpers.UniqueBy | odin/backend/theano/helpers.py:72-77 | the loop with a set of seen keys returns the de-duplication by key |
| Helpers.DedupBySpec | odin/backend/theano/helpers.py:49-77 | the result has pairwise distinct keys, covers every key of the input, keeps for each key the first item with it, in input order |
| Helpers.FirstIndex | odin/backend/theano/helpers.py:72-77 | the position of the first item with a key: its key matches and no earlier item has it |
| Helpers.UniqueExample | odin/backend/theano/helpers.py:56-57 | the docstring example: (1, 2, 1, 3) gives (1, 2, 3) |
| Helpers.UniqueByLenExample | odin/backend/theano/helpers.py:61-62 | the docstring example: cat, mouse, dog, hen by length gives cat, mouse |
| Helpers.AllocShape | odin/backend/theano/helpers.py:90-92 | the dummy input keeps every known non-negative size, and has size 0 exactly where the size is unknown, negative or 0 |
| Helpers.ReportShape | odin/backend/theano/helpers.py:99 | the reported shape has None exactly at zero sizes and keeps every other size |
| Helpers.ReportAllocShape | odin/backend/theano/helpers.py:90-99 | for a shape-preserving operation, positive sizes survive inference and every unknown, zero or negative size comes back as None |
| Helpers.CheckTarget | odin/backend/theano/helpers.py:183-193 | no device without multigpu; with it, `dev0` for None, `str(target)` for other values, and a numeric target fails only when there are no processors |
| Helpers.CheckTargetDevice | odin/backend/theano/helpers.py:187-188 | a numeric target names `dev<k>` with k = int(target) mod the processor count, always one of the existing devices |
| Helpers.AutoName | odin/backend/theano/helpers.py:200-201 | an automatic name is `VAR_` followed by the id's decimal digits |
| Helpers.AutoNameInjective | odin/backend/theano/helpers.py:170-171 | distinct ids give distinct automatic names |
| Helpers.AutoNamesDiffer | odin/backend/theano/helpers.py:170-171 | two unnamed variables created one after the other in the same scope get different names |
| Helpers.ScopedName | odin/backend/theano/helpers.py:203-204 | at top level the name is kept; under a scope it is the scope, `/`, then the name |
| Helpers.Registry.constructor | odin/backend/theano/helpers.py:168-171 | the module state starts at top level, id 0, with no variables |
| Helpers.Registry.EnterScope | odin/backend/theano/helpers.py:174-179 | entering a scope makes it current and hands back the previous one |
| Helpers.Registry.ExitScope | odin/backend/theano/helpers.py:180 | leaving the scope restores the previous one |
| Helpers.Register | odin/backend/theano/helpers.py:207-229 | a registered name with another shape is the shape error with nothing changed; the same shape loads the value into the registered variable; a new name registers a new variable with that name, shape and value; a registry holding every variable under its own name keeps doing so, and a returned variable carries the full name |
| Helpers.Registry.NewVariable | odin/backend/theano/helpers.py:196-229 | an unnamed variable takes the next `VAR_<id>` and advances the id (also when the call then fails); the result and the new registry are the registry step for the name under the current scope |
| Helpers.Registry.NewVariableInScope | odin/backend/theano/helpers.py:174-180 | a variable created inside `variable_scope(s)` is the registry step for the name under s; the previous scope is restored after success, but after the shape error the scope stays s |
| Helpers.Registry.NewVariableInScopeRestoring | odin/backend/theano/helpers.py:174-180 | the same with the restore in a `finally`: the previous scope is restored however the call ends |
| Helpers.ScopeLeakExample | odin/backend/theano/helpers.py:174-180 | creating `w` of shape (2,) then of shape (3,) inside `variable_scope('layer')` raises the shape error and leaves `layer` current |
| Helpers.ScopeRestoredExample | odin/backend/theano/helpers.py:174-180 | with the restore in a `finally` the same two calls leave the top level current |
| NNet.Ops.constructor | odin/nnet/base.py:269-278 | the name, the empty configuration and the empty transpose are set and recorded |
| NNet.Ops.SetAttr | odin/nnet/base.py:323-329 | every assignment sets the attribute; exactly the primitive ones, other than `_arguments`, are recorded for pickling |
| NNet.Ops.Apply | odin/nnet/base.py:347-382 | an unconfigured operator given an empty list fails with the index error and nothing recorded, exactly then; otherwise a single input gives a single output and a list gives a list, one output per input in order, the configuration is set once and kept, and the first footprint is kept |
| NNet.CheckShape | odin/nnet/base.py:130-135 | the shape passes exactly when every size is positive |
| NNet.InitializeParam | odin/nnet/base.py:25-66 | an array or shared variable must have the expected shape and an expression the expected rank; the expected shape is returned |
| NNet.InitializeAll | odin/nnet/base.py:138-139 | all specs pass exactly when each passes, and each then returns the expected shape |
| NNet.CommonShape | odin/nnet/base.py:141-145 | the returned shapes give one shape exactly when they all agree; otherwise the inconsistency error |
| NNet.CommonShapeOfInitialized | odin/nnet/base.py:139-145 | the consistency check can never fail: every spec that passes returns the expected shape |
| NNet.StackedShape | odin/nnet/base.py:146-163 | stacking along the last axis is possible exactly when the shape has an axis |
| NNet.StackedShapeSpec | odin/nnet/base.py:162-163 | stacking nb copies keeps the rank and the leading sizes, multiplies the last size by nb, and so multiplies the element count by nb |
| NNet.StackedByOne | odin/nnet/base.py:153-160 | a single copy keeps the shape, so one shared variable used as it is and one stacked agree |
| NNet.CreatedShape | odin/nnet/base.py:130-163 | a parameter is created only after the dimension check and every per-spec check passed, with at least one spec |
| NNet.CreatedShapeSpec | odin/nnet/base.py:130-163 | a parameter is created exactly when the sizes are positive, every spec fits and there is an axis to stack along (a lone shared variable needs none); its shape is then the stacked one |
| NNet.Config.constructor | odin/nnet/base.py:86-89 | a configuration starts with no variables |
| NNet.Config.CreateParams | odin/nnet/base.py:104-175 | the parameter gets the created shape, is recorded under its name (replacing an older one) and assigned to the operator without being recorded as an argument; on error nothing changes |
| NNet.NormaliseAxes | odin/nnet/base.py:659-664 | 'auto' shares axis 0 and axes from 2 on, 'all' shares every axis, one axis becomes a one-element tuple, a tuple is kept |
| NNet.AlphaShape | odin/nnet/base.py:666-670 | alpha's shape is the input's sizes at the unshared axes, in order, and is an error exactly when one of them is unknown |
| NNet.AlphaShapeExample | odin/nnet/base.py:644-646 | the docstring example: input (20, 3, 28, 28) sharing (0, 3) gives alpha of shape (3, 28) |
| NNet.Pattern | odin/nnet/base.py:676-679 | the dimshuffle pattern has one entry per input axis |
| NNet.PatternSpec | odin/nnet/base.py:676-680 | a shared axis is broadcast exactly; every other axis takes the next alpha axis, whose size is that input axis's size |
| NNet.PatternConsecutive | odin/nnet/base.py:676-679 | consecutive unshared axes take consecutive alpha axes |
| NNet.PReLUPattern | odin/nnet/base.py:675-679 | the pattern fails with `StopIteration` exactly when the input has more unshared axes than alpha has axes; otherwise it has one entry per input axis, broadcast exactly at the shared axes, and every alpha axis it names exists |
| NNet.PatternFitsAlpha | odin/nnet/base.py:659-679 | an input of the rank alpha was created for never exhausts alpha's axes, and uses every one of them |
| NNet.PatternExhaustedExample | odin/nnet/base.py:659-679 | `'auto'` settled on a rank-2 input shares axis 0, so alpha has one axis; a rank-2 input gives `('x', 0)`, and a later rank-3 input raises `StopIteration` |
| NNet.Bound | odin/nnet/base.py:452 | a given slice bound is clamped into the range Python allows for the step's sign |
| NNet.SliceLengthCounts | odin/nnet/base.py:452-453 | for a positive step the slice length counts the positions start, start + step, ... strictly before stop |
| NNet.SliceShapeAsWritten | odin/nnet/base.py:446-459 | the recorded shape exists exactly when the indices fit the shape and no slice with step 0 falls on an axis of known size (otherwise the zero-step error), and its rank never exceeds the sliced tensor's |
| NNet.SliceOutputShape | odin/nnet/base.py:441-461 | the loop over `zip(shape, slice)` computes the recorded shape as written, raising the zero-step error at the first known-size axis whose slice has step 0 |
| NNet.ZeroStepOnUnknownKept | odin/nnet/base.py:449-458 | `[::0]` on (None, 3) is recorded as (None, 3), while on (4, 3) it raises the zero-step error |
| NNet.KeptAsWrittenLength | odin/nnet/base.py:447-456 | the loop keeps at most one size per slice |
| NNet.SliceShapeAppendsRest | odin/nnet/base.py:458-459 | when the slice tuple is shorter than the shape, the axes beyond it are appended unchanged |
| NNet.AxisShape | odin/nnet/base.py:449-456 | an axis disappears exactly under an integer index |
| NNet.SliceShape | odin/nnet/base.py:446-459 | the true shape exists exactly when the indices fit and no step is 0; it has exactly the sliced tensor's rank and ends with the untouched axes |
| NNet.AsWrittenAgrees | odin/nnet/base.py:451-456 | with step 1 and non-empty slices, the sizes the loop keeps are the true ones |
| NNet.AsWrittenAgreesShape | odin/nnet/base.py:446-459 | with step 1 and non-empty slices, the recorded shape is the true shape |
| NNet.SliceStepIgnored | odin/nnet/base.py:452-453 | step 2 over 10 elements is recorded as 10 long but selects 5; `::-1` over 5 is recorded as dropped but selects 5 |
| NNet.EmptySliceDropped | odin/nnet/base.py:455-456 | an empty slice of (5, 3) is recorded as (3,), though the tensor has shape (0, 3) |

## Left out

- Serialisation: marshal (values) and cPickle (the index) are replaced by one self-delimiting encoding (`Codec`) with a proved round trip. The exact bytes of either format are not modelled.
- Codec.Value: only None, booleans, integers, byte strings and lists of these are modelled. Floats, unicode strings, tuples and dicts, which marshal also stores, are not. The index's (position, size) tuples are encoded as two-element lists.
- File I/O and mmap: the file is a byte sequence, writes are seek-then-write and reads are seek-then-read. Opening, closing and re-mapping handles, `file.flush` and `mmap.flush`, and crash safety between the writes of a flush are not modelled.
- The existence test of `MmapDict.__init` (`os.path.exists` and `getsize`) becomes a parameter: the file's bytes, or None.
- The random shuffle of `keys` and `iteritems` is a permutation passed by the caller.
- MmapStore.MmapDict.Flush: requires the high-water mark and the index length to stay below 10^48, where `'%48d'` fills exactly 48 columns; larger values are not modelled.
- MmapStore.MmapDict.Set: requires the high-water mark and the index length to stay below 10^48, where `'%48d'` fills exactly 48 columns; larger values are not modelled.
- MmapStore.MmapDict.Add: requires the high-water mark and the index length to stay below 10^48, where `'%48d'` fills exactly 48 columns; larger values are not modelled.
- MmapStore.MmapDict.Close: requires the high-water mark and the index length to stay below 10^48, where `'%48d'` fills exactly 48 columns; larger values are not modelled.
- Layout.ParseFile: `int()` of a header field also accepts signs and tabs; the model accepts only digits surrounded by spaces, which is all the store ever writes.
- MmapDict.Delete: removes the key from the index only. An overlay entry stays and still reads, as in the source.
- `values`, `itervalues` and `iterkeys` are not modelled. `itervalues` passes `shuffle` to `OrderedDict.iterkeys`, which takes no argument. `iterkeys` and `values` only wrap `keys` and `itervalues`.
- `__cmp__`, `__str__`, `__del__`, `copy`, `has_key` and the `path` property are not modelled: they do not touch the store's state.
- Stats.FreqCount: `normalize` is left out because it divides in floating point. Keys are integers, so `key=None` stands for items that are themselves integers, passed with the identity key. Count callables return integers. `stratified_sampling` and `split_train_test` are not part of this model.
- Helpers.AllocShape: the shape inference calls a Theano operation on dummy inputs. The operation is not modelled, nor the `MissingInputError` fallback to `'None'`. Only the input sanitisation and the output reporting are. Numeric inputs passed through unchanged are not modelled.
- Helpers.Registry.NewVariable: a value is abstracted to its shape and contents. The dtype conversion, `theano.shared`, the boolean-to-uint8 cast, the shape annotation, the warning on reload and the device target passed to `theano.shared` are not modelled.
- Helpers.CheckTarget: `NPROCESSORS` and `CONFIG['multigpu']` are parameters.
- NNet.Ops.Apply: the footprint extraction (`_recurrsive_extract_shape`) is a parameter, and the mismatch warning is not modelled. The inspect-based filtering of keyword arguments, `_initialize` and `config.inflate` are not modelled. The configuration is recorded as set. The only initialisation failure modelled is the IndexError of `x[0]` on an empty list.
- NNet.Config.CreateParams: the role annotations are not modelled, nor the creation of the stacked array through `K.variable` inside the operator's scope. Specs are taken as already evaluated, one per parameter, as `as_tuple(spec, nb_params)` gives them. The non-NNOps argument error is not modelled.
- NNet.Ops.constructor: the default name from `uuid()` is not modelled; a name is always given.
- NNet.PReLUPattern: `K.dimshuffle` of alpha by the pattern is Theano's and is not modelled. In particular, a pattern that leaves some of alpha's axes unused is not rejected. That happens for a later input with fewer unshared axes than the input alpha was created for.
- NNet.SliceOutputShape: the error of indexing the tensor itself (`i[self.slice]`) is modelled only for more indices than axes. Theano's own handling of a zero step, on any axis, is not modelled. Slice elements are integers and slice objects only; None and Ellipsis are not modelled. A shape that is unknown as a whole, where no shape is recorded, is not modelled. Applying the inner operator and slicing the tensor itself are not modelled.
- NNet.SliceShape: a step-0 slice selects no well-defined set of elements, so the true shape is the zero-step error on every axis, including axes of unknown size. There the recorded shape keeps None (NNet.ZeroStepOnUnknownKept).
- `K.ndim(i)` of the sliced tensor is taken to be the rank that indexing produces (`NNet.SlicedRank`).

## Findings

`NNConfig.create_params` checks that the shapes returned for all specs agree
(`odin/nnet/base.py:141-145`). That check can never fail, because each spec
returns the expected shape (NNet.CommonShapeOfInitialized). This is dead code,
not a defect.

| source | as written | input that shows it | evidently intended | confidence | as-written member | corrected member |
|---|---|---|---|---|---|---|
| odin/nnet/base.py:452-453 | the recorded size of a sliced axis is `stop - start` from `slice.indices(dim)`, ignoring the step | shape (10,) sliced `[0:10:2]` is recorded as (10,) but has 5 elements; shape (5,) sliced `[::-1]` is recorded as () but has shape (5,) | the slice length `len(range(*idx.indices(dim)))`, which accounts for the step | not executed | NNet.SliceStepIgnored | NNet.SliceShape |
| odin/nnet/base.py:455-456 | an axis whose slice selects nothing is dropped from the recorded shape, as if an integer index had removed it | shape (5, 3) sliced `[2:2]` is recorded as (3,) but the tensor has shape (0, 3) | only integer indices remove an axis; an empty slice keeps the axis with size 0, so the recorded rank equals the tensor's | not executed | NNet.EmptySliceDropped | NNet.SliceShape |
| odin/backend/theano/helpers.py:174-180 | `variable_scope` restores the previous scope after its `yield` without `try`/`finally`, so when the body raises the scope is never restored | inside `variable_scope('layer')`, create `w` with shape (2,), then `w` with shape (3,): the second call raises the shape mismatch, and afterwards the current scope is still `layer` | the previous scope is restored however the block ends | not executed | Helpers.ScopeLeakExample | Helpers.Registry.NewVariableInScopeRestoring |
