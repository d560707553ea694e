# fly: a verified model of the gradient-boosted tree learner and its support code

fly is a small C++ machine-learning toolkit. This project models its core in Dafny and proves properties of that model. The core is the gradient-boosted regression tree learner of `src/models/gbdt.h`, together with its older revision `models/gbdt.h`. The model covers:

- the pre-sorted feature columns;
- the per-feature layer scan and the commit of the best split;
- the move of rows into child nodes and the finishing of a tree;
- threshold recovery and the compact trees;
- prediction and the binary model file.

Around the learner, the project models the code it relies on:

- the growable buffer `FArray_t`, the ring buffer `PCPool_t`, `split` and the job dispatcher `multi_thread_jobs`;
- the three revisions of the record parser, the binary record format, the readers and the dense `CompactInstance_t`;
- the INI-style configuration parser;
- the AUC and the confusion matrix, and the result-file reader of `auc.cc`;
- the vector arithmetic of `Param_t` and the dot products;
- the rule-based parts of the other models: min-max scaling, the learning-rate and early-stop state machine of logistic regression, the accept/rollback epochs of the layered network, the two iteration drivers, one-vs-rest classification and k-nearest-neighbour voting;
- the leaf and path feature emission of `tools/test_gbdt.cc`.

Code that updates objects in place is modelled with Dafny classes and methods. Its arrays stay arrays, and lists become `seq` fields. Each method's contract relates the new state to specification functions, and lemmas prove what the source promises about those functions. Pure helpers are functions.

Several places in the source are evidently not what the authors intended; "## Findings" lists them. For each one, the project models the code as written and exhibits the discrepancy on a concrete input. It also models the corrected behaviour and proves the intended property about it, and the rest of the model uses the corrected version.

Finding 1 matters most. `TreeNode_t::init` does not reset `split_sum`. The tree-growing methods therefore use the corrected `GbdtNode.Init`, which zeroes it. Everything `GbdtGrow.TrainTree`, `GbdtGrow.GrowLayers` and `GbdtTrain` prove holds for that corrected `Init`:

- the row ranges partition;
- every node's count and sum account for its rows;
- the residual update.

Under the code as written, a node whose scan finds no cut hands its right child a sum that is off by a stale value. `GbdtWorker.StaleSplitSumAsWritten` shows this.

Floating-point values are modelled as reals. Where the learner compares scores that may come from a division by zero, `GbdtNode` models the IEEE outcome (infinities and NaN) and the IEEE `>`. Threads are not modelled: the feature jobs of a layer run one after another in feature order, and the dispatcher's thread-liveness probe is an oracle.

A tree's node table has `1 << (layer_num + 2)` entries (src/models/gbdt.h:394). `read_model` infers the layer count by halving `_tree_size` (src/models/gbdt.h:546-552), which inverts that line; `GbdtModel.LayerOfTreeSize` proves it.

## Model

| member | source | states |
|---|---|---|
| Buffers.Decode | src/include/helper.h:157-170 | a stream decodes exactly when it starts with a size prefix followed by at least that many items; the result is those items and the rest of the stream |
| Buffers.DecodeInvertsEncode | src/include/helper.h:157-175 | reading back what `write` emits gives the items and leaves any following stream untouched |
| Buffers.GrownCapacity | src/include/helper.h:135-140 | a push grows the capacity by `extend_num` exactly when the buffer is full, and keeps it otherwise |
| Buffers.FArray.constructor | src/include/helper.h:97-102 | a new buffer is empty, with no storage, and keeps the growth step it is given |
| Buffers.FArray.Default | src/include/helper.h:97 | the default growth step is 16 |
| Buffers.FArray.CopyAsWritten | src/include/helper.h:104-113 | the copy has the source's size, items and growth step; its storage pointer is left unassigned exactly when the source has capacity 0 |
| Buffers.FArray.Copy | src/include/helper.h:104-113 | the corrected copy: same size, items, capacity and growth step, and a valid object even when the source is empty |
| Buffers.FArray.Release | src/include/helper.h:192-197 | release empties the buffer and frees an unassigned pointer exactly when the object holds one |
| Buffers.FArray.Assign | src/include/helper.h:115-128 | assignment takes the other buffer's items and growth step, and reallocates only when its own capacity is the smaller one |
| Buffers.FArray.PushBack | src/include/helper.h:183-190 | the item is appended after the earlier items, which are unchanged; the capacity grows by `extend_num` only when the buffer was full (with lines 135-140) |
| Buffers.FArray.Clear | src/include/helper.h:142 | clear leaves no items and keeps the capacity |
| Buffers.FArray.At | src/include/helper.h:144-155 | indexing succeeds exactly below the size and returns that item; otherwise it fails with "index out of range." |
| Buffers.FArray.Write | src/include/helper.h:172-175 | what `write` emits decodes to exactly the buffer's items |
| Buffers.FArray.Read | src/include/helper.h:157-170 | read succeeds exactly on a well-formed stream and then holds its items, growing the capacity to the prefix size only when it was smaller; a malformed stream leaves the object unchanged |
| Buffers.EmptyCopyFreesWild | src/include/helper.h:104-113 | copying a buffer that never grew and then destroying the copy frees an unassigned pointer (with lines 192-197) |
| Buffers.CopyReleasesOwnBuffer | src/include/helper.h:104-113 | with the corrected copy, destroying a copy of any buffer frees only assigned pointers (with lines 192-197) |
| Buffers.WriteThenRead | src/include/helper.h:157-175 | writing one buffer and reading the stream into another gives the second the first's items and leaves the rest of the stream |
| Buffers.LegacyFArray.constructor | helper.h:77-83 | a new buffer is empty, carries the magic word and has freed nothing |
| Buffers.LegacyFArray.Default | helper.h:77 | the default growth step is 512 |
| Buffers.LegacyFArray.Release | helper.h:162-172 | storage is freed exactly when the magic word is intact and storage exists; the object is always left empty |
| Buffers.LegacyFArray.Assign | helper.h:89-100 | assignment releases its own storage (counting a free only under the magic word), then takes the other buffer's capacity, size, items and growth step; assigning an array to itself leaves it empty |
| Buffers.LegacyFArray.Copy | helper.h:85-87 | the copy constructor assigns into memory whose magic word is arbitrary, so that release frees something only when the junk happens to equal the magic word |
| Buffers.LegacyFArray.PushBack | helper.h:153-160 | the item is appended after the earlier items, and the capacity grows by `extend_num` only when the buffer was full (with lines 107-112) |
| Buffers.LegacyFArray.Clear | helper.h:114 | clear leaves no items and keeps the capacity |
| Buffers.LegacyFArray.At | helper.h:116-127 | indexing succeeds exactly below the size; otherwise it fails with "index out of range." |
| Buffers.LegacyFArray.Write | helper.h:141-144 | what `write` emits decodes to exactly the buffer's items |
| Buffers.LegacyFArray.Read | helper.h:129-139 | read succeeds exactly on a well-formed stream; the capacity becomes the prefix size only when it was smaller, and nothing is freed |
| Split.SplitLine | src/include/helper.h:201-210 | the push loop returns the pieces `Tokens` describes, in order (the same loop is helper.h:175-184) |
| Split.TokensAreWords | src/include/helper.h:204-208 | every piece `split` yields is non-empty and holds no delimiter |
| Split.TokensConcatToLetters | src/include/helper.h:204-208 | glued back together, the pieces are exactly the line's non-delimiter characters in order |
| Split.TokenCountIsPieceStarts | src/include/helper.h:204-208 | there is one piece per position that starts a run of non-delimiters, so the pieces are maximal |
| Compact.AutoDetectMode | src/fly_data.cc:250-282 | the character scan picks pairs mode exactly when the line holds a `:`, otherwise dense values when it holds a `.`, `e` or `-`, otherwise bare indices |
| Compact.DensePairsReadBack | src/include/fly_data.h:190-200 | the pairs made from dense values have distinct indices, and looking up index `f` gives value `f`, or 0 past the end |
| Compact.DenseOf | src/include/fly_data.h:202-224 | parsing into a fresh record fails exactly when the line is non-empty, `d > 0` and the field count minus one differs from `d`; on success the dimension is that count and a buffer exists exactly when it is positive |
| Compact.CompactInstance.constructor | src/include/fly_data.h:130-139 | label 0, dimension `d`, and `d` zeroes, or no buffer when `d` is 0 |
| Compact.CompactInstance.SetDim | src/include/fly_data.h:177-188 | the label is kept, the dimension becomes `d` and the buffer becomes `d` zeroes, or none when `d` is 0 |
| Compact.CompactInstance.Clear | src/include/fly_data.h:169-175 | no buffer and dimension 0, label kept |
| Compact.CompactInstance.ConvertToInstance | src/include/fly_data.h:190-200 | succeeds exactly when a buffer exists, giving the label and one pair `(i, values[i])` per index in order; otherwise the exception text |
| Compact.CompactInstance.ParseItem | src/include/fly_data.h:202-224 | an empty line returns 0 and changes nothing; otherwise the label is `int(f+0.5)`, a field-count mismatch against a non-zero dimension throws with the buffer untouched, and success returns the new dimension with the fields' values |
| Compact.ParseFresh | src/include/fly_data.h:202-224 | parsing into a new `CompactInstance_t(d)` leaves exactly the record `DenseOf` describes (with lines 130-139) |
| Config.ParseLine | cfg.h:115-164 | the character loops that write NULs into the line give the same classification as cutting, stripping and classifying the text (`ParseConfigLine`) |
| Config.StripLine | cfg.h:120-146 | the start and length the loops leave delimit exactly the stripped text |
| Config.ClassifyText | cfg.h:148-163 | the header test and the scan for `=` classify the stripped text as `Classify` does |
| Config.CommentIgnored | cfg.h:122-127 | appending `#` and anything after it to a line without `#` does not change how the line parses |
| Config.TrailingBlankIgnored | cfg.h:130-138 | a trailing newline, return, space or tab does not change how a line parses |
| Config.StrippedShape | cfg.h:120-146 | the text classified is the line before its first `#`, less trailing newlines, returns, spaces and tabs and leading spaces and tabs, and it neither starts nor ends with one of them |
| Config.EntrySplitsAtFirstEquals | cfg.h:148-163 | an entry's key holds no `=` and key, `=` and value make up the stripped text, so the value may hold `=` and keep its spaces; a header is the bracketed name; other text holds no `=` |
| Config.UnnamedKeyKept | cfg.h:36-38 | a key no entry names keeps its earlier value, or stays absent |
| Config.LastEntryWins | cfg.h:36-38 | a key holds the value of the last entry that names it, so a later duplicate overwrites an earlier one |
| Config.Config.Load | cfg.h:28-44 | every line is parsed, an entry is stored under `section + "/" + key` with the section of the last header before it (empty before any), and a header changes the section |
| Config.Config.ConfStr | cfg.h:75-83 | a value exists exactly when `section/key` is stored, and it is the stored string |
| Config.Config.ConfInt | cfg.h:55-63 | a value exists exactly when `section/key` is stored, and it is `atoi` of the stored string |
| Config.Config.ConfFloat | cfg.h:65-73 | a value exists exactly when `section/key` is stored, and it is `atof` of the stored string |
| Config.Config.ConfIntDefault | cfg.h:85-92 | the default when the key is missing, otherwise `atoi` of the stored string |
| Config.Config.ConfFloatDefault | cfg.h:94-101 | the default when the key is missing, otherwise `atof` of the stored string |
| Config.Config.ConfStrDefault | cfg.h:103-110 | the default when the key is missing, otherwise the stored string |
| FlyMath.ParamDotSymmetric | src/include/fly_math.h:81-87 | the dot product of two parameters does not depend on their order |
| FlyMath.ScaledDot | src/include/fly_math.h:69-87 | scaling a parameter by `x` scales its dot product with any other parameter by `x` |
| FlyMath.PlusDot | src/include/fly_math.h:81-106 | the dot product distributes over adding a parameter |
| FlyMath.ShiftBack | src/include/fly_math.h:88-94 | adding `x` and then `-x` to every weight gives the weights back |
| FlyMath.Param.Empty | src/include/fly_math.h:25-26 | no buffer and size 0 |
| FlyMath.Param.From | src/include/fly_math.h:27-32 | a fresh copy of the first `n` values and the bias |
| FlyMath.Param.Copy | src/include/fly_math.h:33-38 | a fresh copy of the weights, the bias and the size |
| FlyMath.Param.Set | src/include/fly_math.h:45-51 | `n` zero weights in a fresh buffer, a zero bias and size `n` |
| FlyMath.Param.Clear | src/include/fly_math.h:53-59 | the buffer is dropped; the size is zeroed only when a buffer existed, and the bias is kept |
| FlyMath.Param.Assign | src/include/fly_math.h:61-67 | the bias, the size and a fresh buffer holding the other parameter's weights; assigned to itself, the fresh buffer keeps its uninitialised contents |
| FlyMath.Param.MulAssign | src/include/fly_math.h:69-75 | the bias and every weight are multiplied by `x`, in place |
| FlyMath.Param.Times | src/include/fly_math.h:76-80 | a scaled copy, with this parameter unchanged |
| FlyMath.Param.Dot | src/include/fly_math.h:81-87 | the product of the biases plus the weight products over the shorter length |
| FlyMath.Param.AddAssign | src/include/fly_math.h:88-94 | `x` is added to the bias and every weight, in place |
| FlyMath.Param.Plus | src/include/fly_math.h:95-99 | a shifted copy, with this parameter unchanged |
| FlyMath.Param.AddParamAssign | src/include/fly_math.h:100-106 | the biases are added, and each of this parameter's weights gets the other's weight at the same position; the other must be at least as long, and may be this parameter itself |
| FlyMath.Param.PlusParam | src/include/fly_math.h:107-111 | a summed copy, with this parameter unchanged |
| FlyMath.Param.Fill | src/include/fly_math.h:112-118 | the bias and every weight become `x` |
| FlyMath.Sgn | src/include/fly_math.h:130-133 | the sign is 1 exactly when `x >= 0`, and -1 otherwise |
| FlyMath.SgnTimesValue | src/include/fly_math.h:130-133 | sign times value is the magnitude |
| FlyMath.VecDot | src/include/fly_math.h:146-152 | the loop returns the sum of `input[i]*theta[i]` over `i < num` |
| FlyMath.NegativeIndexPassesGuard | src/include/fly_math.h:154-162 | as written, the pair `-1:2` against a one-weight `theta` passes the guard and reads outside `theta`; with the lower bound checked it adds nothing |
| FlyMath.AsWrittenAgrees | src/include/fly_math.h:154-162 | without negative indices, the guard as written and the checked guard give the same sum |
| FlyMath.SparseDot | src/include/fly_math.h:154-162 | the loop returns the sum of `theta[idx]*value` over the pairs whose index lies in `[0, theta_num)` |
| FlyMath.SparseDotParam | src/include/fly_math.h:172-180 | the bias plus the sparse sum over the parameter's weights |
| FlyMath.SparseSumAppend | src/include/fly_math.h:154-162 | the sparse sum of two concatenated records is the sum of their sparse sums |
| FlyMath.SparseOfDense | src/include/fly_math.h:146-162 | the sparse dot product of a dense record (value `i` at index `i`) equals the dense `vec_dot` |
| Pools.FullIffNMinusOne | src/include/helper.h:292-293 | the ring counts as full, `(p+1) mod n == c`, exactly when it holds `n - 1` items, so one cell always stays free |
| Pools.WriteFreeCell | src/include/helper.h:297 | writing the producer's cell leaves the waiting items unchanged |
| Pools.AdvanceProducer | src/include/helper.h:297-299 | advancing the producer cursor of a non-full ring appends the cell it leaves to the waiting items |
| Pools.AdvanceConsumer | src/include/helper.h:346-353 | advancing the consumer cursor of a non-empty ring removes the oldest waiting item |
| Pools.Pool.constructor | src/include/helper.h:271-280 | a new pool is empty, has `buffer_size` cells, putting is on and both totals are 0 |
| Pools.Pool.Put | src/include/helper.h:289-302 | the item is stored exactly when fewer than `n - 1` items wait; it then joins the end of the queue and `total_put` grows by one; otherwise nothing changes (the source would spin) |
| Pools.Pool.BeginPut | src/include/helper.h:305-316 | a slot is offered exactly when the ring is not full, and it is the producer cursor |
| Pools.Pool.WriteCell | src/include/helper.h:314 | writing the offered cell leaves the waiting items, cursors and totals unchanged |
| Pools.Pool.EndPut | src/include/helper.h:318-323 | `end_put(true)` appends the written cell to the queue and counts it; `end_put(false)` changes nothing |
| Pools.Pool.Get | src/include/helper.h:328-359 | false exactly when the ring is empty and putting is off; a wait exactly when putting and the ring is empty or `c + 1 == p`; otherwise the oldest item, removed from the queue, with the previous `total_get` as its order id |
| Pools.Pool.SetPutting | src/include/helper.h:364-366 | only the putting flag changes |
| Pools.HoldBackMissesLastCell | src/include/helper.h:341 | the non-modular test `c + 1 == p` holds only with exactly one waiting item, and with one item it holds exactly when that item is not in the ring's last cell |
| Pools.SimplePool.constructor | tools/test_multi_stat.cc:30-37 | a new pool is empty, with both cursors 0 and putting on |
| Pools.SimplePool.Put | tools/test_multi_stat.cc:46-59 | the item is stored exactly when fewer than `n - 1` items wait, and then joins the end of the queue |
| Pools.SimplePool.Get | tools/test_multi_stat.cc:64-83 | false exactly when empty with putting off; a wait exactly when empty with putting on; otherwise the oldest item, with no holding back |
| Pools.SimplePool.SetPutting | tools/test_multi_stat.cc:85-87 | only the putting flag changes |
| Pools.FirstInFirstOut | tools/test_multi_stat.cc:54-78 | putting several items into an empty pool and then getting one gives the first item put |
| Jobs.Append | src/include/helper.h:397-409 | appending a start event adds its job to the launched jobs and marks its slot busy; appending a join frees its slot; the log stays orderly exactly when a start goes to a free slot and a join to a busy one |
| Jobs.StartFresh | src/include/helper.h:393-410 | starting the next job in the lowest never-used slot keeps the dispatcher invariant |
| Jobs.Reuse | src/include/helper.h:395-410 | joining a finished thread and starting the next job in its slot keeps the dispatcher invariant |
| Jobs.Sweep | src/include/helper.h:391-412 | one pass over the slots keeps the invariant and either starts the next job, finds every slot busy, or stops because the probe answers ran out |
| Jobs.Dispatch | src/include/helper.h:383-423 | jobs are started in index order, each once; every start goes to a free slot below `thread_num`; when every job was started, every used slot is joined before return; with no thread slot and a job to start it reports the endless spin and starts nothing (the same loop is helper.h:187-227) |
| LeafFeatures.AncestorsClimbToRoot | tools/test_gbdt.cc:47-56 | the walk `l = (l-1)/2` from a leaf climbs one layer at a time to the root 0, never revisits a node, and gives nothing for leaf 0 |
| LeafFeatures.TreePairsEndWithLeaf | tools/test_gbdt.cc:38-57 | a tree's pairs end with its leaf pair, whose value is the mean under `-m` and 1 otherwise; ancestor pairs come first only in path mode without `-m` and for a leaf other than 0 |
| LeafFeatures.TreePairsInBlock | tools/test_gbdt.cc:40-52 | with a leaf below `tree_node_count`, every pair of tree `i` lies in that tree's block of indices, and all but the leaf pair have value 1 |
| LeafFeatures.BlocksAreConsecutive | tools/test_gbdt.cc:40 | tree `i+1`'s block starts `tree_node_count` after tree `i`'s, so blocks do not overlap |
| LeafFeatures.AppendPath | tools/test_gbdt.cc:47-56 | the loop appends one value-1 pair per ancestor, in climbing order |
| LeafFeatures.AppendTree | tools/test_gbdt.cc:38-57 | one tree's pairs are appended: the path (only in path mode without `-m`), then the leaf pair |
| LeafFeatures.AppendLeafFeatures | tools/test_gbdt.cc:35-59 | the record's own features are kept, and the synthetic pairs of every tree are appended after them, tree by tree |
| LeafFeatures.EvaluationCuts | tools/test_gbdt.cc:141-153 | with a positive interval the cuts are interval, 2·interval, … up to the total (none when interval exceeds it); otherwise one run with cut `-C<n>`, or every tree when that is 0 |
| Instances.FirstValue | src/models/gbdt.h:1030-1036 | the value of the first pair with index `f`, or 0 when the record has none |
| Instances.FirstIsLastWhenDistinct | src/models/gbdt.h:1030-1036 | when no index repeats, the first and the last pair with an index give the same value, so reading a threshold and filling a dense buffer agree |
| TextItems.ParseCore | src/include/fly_core.h:49-92 | the label is the leading number; a line without one fails with the features untouched; otherwise the features are replaced by what the character loop pushes |
| TextItems.ParseData | src/include/fly_data.h:53-64 | an empty line fails with the record untouched; any other line parses as in src/include/fly_core.h |
| TextItems.ScanPairs | src/include/fly_data.h:66-98 | the character loop pushes and fails exactly as the step function `Run` describes (the loop is also src/include/fly_core.h:58-90) |
| TextItems.ParseItem | src/include/fly_data.h:53-100 | the method's outcome and record are those of `ParseData` |
| TextItems.ParseItemCore | src/include/fly_core.h:49-92 | the method's outcome and record are those of `ParseCore` |
| TextItems.NoColonNoPairs | src/include/fly_data.h:70-98 | a rest of line without `:` pushes no pair and does not fail: tokens without an index produce nothing |
| TextItems.UnterminatedTailAddsNothing | src/include/fly_data.h:81-97 | a last pair not followed by a space, tab, newline or return is not pushed |
| TextItems.RunOnePair | src/include/fly_data.h:71-97 | a printed pair `k:v` followed by a separator reads its index at the `:` and is pushed as `(k, v)` at the separator |
| TextItems.RunPairsText | src/include/fly_data.h:70-98 | the loop over printed pairs and the final newline pushes every pair, in order, with its value as `%f` rounds it |
| TextItems.TextRoundTrip | src/include/fly_data.h:45-100 | printing a record with `write` and parsing the line back gives the record with values as `%f` rounds them; indices, order and duplicates are kept |
| TextItems.LegacyParseItem | fly_core.h:51-73 | the method's record is that of the step function `LegacyRun` |
| TextItems.LegacyIndicesNotNegative | fly_core.h:63-67 | every pair the oldest parser pushes has an index that is not negative |
| TextItems.LegacyDropsUnterminated | fly_core.h:58-72 | a last pair not followed by a separator is dropped |
| TextItems.LegacyOnePair | fly_core.h:59-71 | a printed pair `k:v` followed by a separator is pushed as `(k, v)` exactly when `k` is not negative |
| TextItems.LegacyRunPairsText | fly_core.h:58-72 | the oldest loop over printed pairs keeps, in order, the pairs with an index that is not negative |
| TextItems.LegacyTextRoundTrip | fly_core.h:43-73 | printing a record and parsing it with the oldest parser keeps the pairs whose index is not negative, in order, with rounded values, and drops the others |
| TextItems.ReadBinary | src/include/fly_core.h:105-109 | a stream decodes exactly when it holds a label, a count and that many pairs, and decoding consumes something |
| TextItems.BinaryRoundTrip | src/include/fly_core.h:98-109 | reading back what `write_binary` wrote restores the record and leaves the rest of the stream (the same layout is fly_core.h:79-90) |
| TextItems.ReadAllInvertsWriteAll | src/include/fly_core.h:98-109 | a file of written records reads back as the same records in the same order |
| Readers.WidenIsMax | src/fly_data.cc:87-92 | after one record's pairs the count bounds every index and is either the starting count or one more than some index |
| Readers.ThetaIsMax | src/fly_data.cc:81-102 | after all records the dimension bounds every index and is one more than the largest index, or the start value when no index reaches it |
| Readers.WidenBy | src/fly_data.cc:87-92 | the inner loop computes the widened count `Widen` |
| Readers.PercentInRange | src/fly_data.cc:44-47 | with the cursor within the records the percentage lies in [0, 100] and is 100 exactly at the end |
| Readers.BinaryReader.constructor | src/fly_data.cc:10-19 | counters start at 0; unless the file is standard input, `stat` runs at once and the size and dimension are counted |
| Readers.BinaryReader.Set | src/fly_data.cc:49-63 | the stat flag is cleared and, unless the file is standard input, `stat` runs at once (also src/include/fly_core.h:228-241) |
| Readers.BinaryReader.Stat | src/fly_data.cc:65-106 | `stat` runs at most once: the first call counts the records and the dimension and rewinds, later calls change nothing (also src/include/fly_core.h:243-283) |
| Readers.BinaryReader.Size | src/fly_data.cc:28-34 | the size succeeds exactly after `stat`; before it the call throws "Access size or dim before stat." |
| Readers.BinaryReader.Dim | src/fly_data.cc:36-42 | the dimension succeeds exactly after `stat`; before it the call throws |
| Readers.BinaryReader.Reset | src/fly_data.cc:108-112 | back to the first record, the counts kept |
| Readers.BinaryReader.Read | src/fly_data.cc:114-123 | a record exactly while records remain: the next one, with the cursor advanced |
| Readers.Drain | src/fly_data.cc:108-123 | reading a reset reader until it ends yields the file's records in order |
| Readers.ModeFromFirstLine | src/fly_data.cc:164-167 | the mode is taken from the first line, and only while it is still AutoDetected |
| Readers.PairModeLoad | src/fly_data.cc:169-178 | in pair mode every line is kept in order, nothing fails, and the dimension is one more than the largest index seen |
| Readers.IndexModeLoadsNothing | src/fly_data.cc:164-189 | in bare-index mode nothing is loaded and nothing fails |
| Readers.DenseModeLoad | src/fly_data.cc:180-188 | once the dense dimension is set, loading succeeds exactly when every line has that many values; the dimension stays and every record loaded holds that many values; otherwise the error is the field-count mismatch |
| Readers.DenseFirstLine | src/fly_data.cc:181-186 | the first dense line sets the dimension to its value count |
| Readers.TextReader.constructor | src/fly_data.cc:126-138 | mode AutoDetected, empty buffers, dimension and cursor 0 |
| Readers.TextReader.SetFeatureMode | src/fly_data.cc:131 | only the mode changes |
| Readers.TextReader.Set | src/fly_data.cc:142-204 | the cursor, both buffers and the dimension are cleared, the mode is kept, and the lines are loaded one by one; an exception keeps what was loaded before it |
| Readers.TextReader.LoadOne | src/fly_data.cc:164-188 | one line of the loading loop changes the reader as `LoadLine` says and leaves the cursor |
| Readers.TextReader.Size | src/fly_data.cc:221-228 | the record buffer's size in every mode but dense values, the dense buffer's size in that one |
| Readers.TextReader.Reset | src/fly_data.cc:206-210 | the cursor goes back to 0 and nothing is reloaded |
| Readers.TextReader.Read | src/fly_data.cc:230-248 | nothing exactly when the cursor is at or past the size; otherwise the record at the cursor (a dense record converted to pairs; one without values throws) and the cursor moves on |
| Readers.FeatureReader.constructor | src/include/fly_core.h:315-324 | empty buffer, dimension and cursor 0 |
| Readers.FeatureReader.Set | src/include/fly_core.h:339-384 | one record per line, failed parses included, and the dimension one more than the largest index |
| Readers.FeatureReader.Reset | src/include/fly_core.h:386-389 | the cursor goes back to 0 |
| Readers.FeatureReader.Read | src/include/fly_core.h:391-399 | nothing at the end; otherwise the buffered record at the cursor, which moves on |
| Readers.LegacyFeatureReader.constructor | fly_core.h:361-372 | empty buffer, dimension and cursor 0, no standardisation |
| Readers.LegacyFeatureReader.Set | fly_core.h:395-480 | one record per line and the dimension one more than the largest index; with preprocessing, every slot below the dimension gets the running mean and the deviation of the buffered records, both 1.0 when either is below 1e-7; without it the statistics held before stay |
| Readers.LegacyFeatureReader.Statistics | fly_core.h:447-468 | the mean pass yields the running means of the records, and the second pass the squared distances from them |
| Readers.WeightsNonZero | fly_core.h:469-475 | every deviation kept is non-zero, and each slot keeps both its mean and deviation or gets 1.0 for both |
| Readers.MeanStepAt | fly_core.h:450-455 | a record without the slot leaves its mean; a record carrying it once moves it to `m * c/(c+1) + v/(c+1)` |
| Readers.SumAbsent | fly_core.h:450-455 | a record without the slot contributes no value to it |
| Readers.MoveScaled | fly_core.h:454 | scaled by the count, the running-mean rule adds the new value to `c` times the old mean |
| Readers.RunningMeanIsMean | fly_core.h:447-457 | the running mean of any values, times their number, is their sum |
| Readers.MeansFollowColumn | fly_core.h:447-457 | for a slot every record carries exactly once, the offset the mean pass leaves is the running mean of the slot's values, record by record |
| Readers.MeansOfCarriedSlot | fly_core.h:447-457 | for a slot every record carries exactly once, the offset the mean pass leaves is the mean of the slot's values |
| Readers.LegacyFeatureReader.Reset | fly_core.h:482-485 | the cursor goes back to 0 and nothing else changes |
| Readers.LegacyFeatureReader.Read | fly_core.h:487-501 | nothing at the end; otherwise the record at the cursor, standardised unless `original` is set or no preprocessing was asked for |
| Readers.Standardize | fly_core.h:494-499 | each value becomes its difference from its dimension's mean divided by that dimension's deviation; indices and order are kept |
| Readers.LegacyIndicesInDim | fly_core.h:413-468 | every index the older reader buffers is not negative and lies below the dimension, so the per-dimension arrays are indexed in range |
| Readers.LegacyFeatureReader.Percentage | fly_core.h:390-392 | the percentage is undefined for an empty buffer, lies in 0..100 while the cursor is within the buffer, and is the whole part of cursor·100/size |
| Measure.SortByOutput | fly_measure.h:28-59 | the rows end up a permutation of the input, ordered by descending score |
| Measure.CountClasses | fly_measure.h:61-69 | `pos` and `neg` are the numbers of rows whose target rounds to 1 and to anything else |
| Measure.SegmentRow | fly_measure.h:75-97 | one row joins the open run of equal scores; when the run closes, the running sum scaled by `pos` stays the Mann-Whitney count of the closed rows |
| Measure.SumSegments | fly_measure.h:71-98 | over rows sorted by descending score, the sum times `pos` is the Mann-Whitney count: each negative row counts the positives scored above it plus half those tied with it |
| Measure.CalcAuc | fly_measure.h:57-100 | the rows are sorted and permuted only; with no positive or no negative row there is no area; otherwise the area times `pos * neg` is the Mann-Whitney count |
| Measure.SegmentScore | fly_measure.h:82-91 | a run of rows tied at one score adds, per negative row, the positives before the run plus half the positives inside it |
| Measure.CloseSegment | fly_measure.h:90-97 | closing a run adds its gain and moves its counts into `cur_pos` and `cur_neg` |
| Measure.ScoreBounds | fly_measure.h:57-100 | the Mann-Whitney count lies between 0 and `pos * neg` |
| Measure.AucInUnitInterval | fly_measure.h:57-100 | the area returned lies in [0, 1] |
| Measure.CountRow | fly_measure.h:121-135 | one row raises exactly the counter of its cell: TP, FN, TN or FP by the 0.5 thresholds on target and score |
| Measure.CalcConfusion | fly_measure.h:119-137 | the matrix is the cell tally of all rows |
| Measure.TallyPartitions | fly_measure.h:119-137 | the four counters add up to the row count, and TP + FN is the number of rows with target at least 0.5 |
| Measure.ExtractResult | auc.cc:16-30 | the target is read from the line start; the score from after the first `:` that follows the first tab or space, else from just after that separator; no separator leaves the score unset |
| Measure.ReadResults | auc.cc:15-32 | one pair per input line, in order |
| Measure.ScoreAfterSeparator | auc.cc:18-28 | with no `:` after the first separator, the score starts right after it |
| Measure.ScoreAfterColon | auc.cc:21-27 | with a `:` after the first separator, the score starts after the first such `:` |
| Uniform.BoundsBracket | src/models/uniform.h:56-73 | the bounds of a dimension bracket 0 and every value seen there, and each bound is 0 or one of those values |
| Uniform.BoundsStep | src/models/uniform.h:66-74 | one more pair with index `f` lowers the minimum and raises the maximum to take in its value; a pair with another index changes neither |
| Uniform.ScaleInUnit | src/models/uniform.h:153-157 | a value clamped to `[min, max]` and mapped by `(v - min)/(max - min)` lies in [0, 1], with min going to 0 and max to 1 |
| Uniform.ScalePair | src/models/uniform.h:148-158 | the pair keeps its index; its value is scaled exactly when the index is in range and the bounds differ |
| Uniform.ScaledShape | src/models/uniform.h:145-168 | scaling keeps the label, the pair count, their order and indices; pairs out of range or over flat bounds keep their value, all others land in [0, 1] |
| Uniform.NegativeIndexScaled | src/models/uniform.h:149-173 | as written the pair `-1:5` passes the `index < dim` guard and reads before the bounds arrays; the corrected scaler keeps that pair unchanged |
| Uniform.MeanStdvarUniform.constructor | src/models/uniform.h:22-29 | a new scaler has no dimension |
| Uniform.MeanStdvarUniform.Stat | src/models/uniform.h:50-76 | the dimension is the reader's, and each dimension's bounds are the lowest and highest of 0 and the values seen with that index; other indices are skipped |
| Uniform.MeanStdvarUniform.Apply | src/models/uniform.h:145-185 | the output is the record scaled by the bounds (with the lower index bound checked); the scaler is unchanged |
| Logit.MethodOf | src/models/logit.h:45-59 | `decay`, `constant` and `shrink` select their method exactly when named; every other name, `feature_decay` included, selects FeatureDecay |
| Logit.MethodNameSelects | src/models/logit.h:45-59 | each method is selected by its own name, so the name mapping loses no method |
| Logit.NegativeIndexAdmitted | src/models/logit.h:225-228 | as written the pair index `-1` passes the `index >= theta_num` skip test though it names no weight; the corrected test rejects it |
| Logit.OccurrencesBound | src/models/logit.h:230-233 | a feature's count after some pairs is at most their number, and is 0 exactly when none of them has that index |
| Logit.BestOnlyImproves | src/models/logit.h:282-316 | the best loss, weights and round either stay or all become the epoch's, and then the loss fell by more than `min_loss_diff` |
| Logit.ShrinkKeepsOnlyBigImprovements | src/models/logit.h:284-298 | in Shrink mode an epoch is kept only on a big improvement, one below `best_loss - learn_rate * epoch_loss` |
| Logit.SmallGainChangesNothing | src/models/logit.h:279-310 | in Shrink mode an improvement too small to be big is neither accepted nor counted as a stall, so the state is unchanged |
| Logit.RateOnlyHalves | src/models/logit.h:292-323 | the rate is kept, or halved in Shrink mode with the shrink count raised by one; a set stop flag stays set |
| Logit.StopRule | src/models/logit.h:292-323 | Shrink mode stops exactly at a shrink that takes the count past `shrink_limit`; other modes stop exactly when there was no improvement, `early_stop_N >= 0` and more than `early_stop_N` rounds passed since the best |
| Logit.StaleShrinkCountStops | src/models/logit.h:331-335 | as written the shrink count starts from whatever memory held: a stale count of 7 stops training at the first shrink that a count of 0 would allow (with lines 33-70, 301-308) |
| Logit.RatePair | src/models/logit.h:224-233 | a pair with an index outside the weights gets rate 0; in FeatureDecay any other pair raises its feature's count by one and gets the rate decayed by that count |
| Logit.LogisticRegression.constructor | src/models/logit.h:33-70 | best loss 1.0, no weights, momentum exactly when a ratio is configured, the adjust method by name and the configured or default rate, early stop, shrink limit and minimum gain; best round and shrink count keep what memory held |
| Logit.LogisticRegression.Init | src/models/logit.h:107-120 | one weight per reader dimension and every per-feature count 0, nothing else changed |
| Logit.LogisticRegression.Update | src/models/logit.h:206-245 | the update count rises by one and sets the bias rate (decayed by its root in Decay and FeatureDecay); pairs outside the weights get rate 0; in FeatureDecay each other pair counts once more for its feature |
| Logit.LogisticRegression.EpochEnd | src/models/logit.h:271-323 | the best loss, weights, round, rate, shrink count and stop flag move as `AfterEpoch` says (see the lemmas above); settings are unchanged |
| Logit.LogisticRegression.TrainBegin | src/models/logit.h:331-335 | as written: the update count and `shrink_N` go to 0 and the rate is remembered, while the shrink count keeps whatever it held |
| Logit.LogisticRegression.TrainEnd | src/models/logit.h:326-329 | the weights returned are the best ones recorded |
| Logit.LogisticRegression.TrainBeginReset | src/models/logit.h:331-335 | as intended: the same resets, and the shrink count starts at 0 |
| Logit.ResetCountStopsAtLimit | src/models/logit.h:292-335 | from a shrink count of 0, after any run of epochs in Shrink mode training has stopped exactly when more than `shrink_limit` shrinks were made |
| Mnn.LayersConnect | models/mnn.h:207-233 | layer 0 takes `input_num` inputs, the last layer yields one output, and each layer takes as many inputs as the one before yields |
| Mnn.RefSlotsDistinct | models/mnn.h:236-242 | `in * out_num + out` gives every (output, input) pair of a layer its own slot inside the `in * out` weight buffer |
| Mnn.OutputsShareWeights | models/mnn.h:37-46 | as written `predict` reads slot `in` for every output, so with two outputs both read output 0's weight while `_ref_theta` trains output 1's own slot (with lines 236-242) |
| Mnn.UnitSumReadsOwnWeights | models/mnn.h:236-242 | with weights addressed through `_ref_theta`, an output's sum depends on its own weights only |
| Mnn.EpochsKeepLastAccepted | models/mnn.h:100-117 | over any sequence of epochs, each saved, trained and ended, the net holds the weights of the last epoch that lowered the loss to beat, or the starting weights when none did |
| Mnn.BackupIsLastStart | models/mnn.h:100-102 | after one or more epochs the backup holds the net the last epoch started from, accepted or not |
| Mnn.TrainEndRestoresLastStart | models/mnn.h:96-102 | as written, the recovery of `_train_end` ends training on the net the last epoch started from, so an accepted last epoch is discarded |
| Mnn.AcceptedLastEpochLost | models/mnn.h:96-117 | one epoch lowering the loss from 1.0 to 0.5 by moving a weight from 0.0 to 1.0 ends, as written, with the weight at 0.0, while the last accepted weights are 1.0 |
| Mnn.EpochRollsBack | models/mnn.h:100-149 | an epoch saves the net; a rejected epoch recovers exactly the saved weights and biases, an accepted one keeps the trained ones, and the backup holds the epoch's starting net |
| Mnn.LossToBeatFalls | models/mnn.h:104-116 | the loss to beat never rises, falls exactly on an accepted epoch, and acceptance restores the configured rate |
| Mnn.RejectionsHalve | models/mnn.h:104-111 | after `k` rejections in a row the loss to beat is unchanged and the rate is the starting rate halved `k` times; training stops exactly once it falls below 1e-6 |
| Mnn.Drawn | models/mnn.h:218-227 | a layer's freshly drawn buffers have `in * out` weights and `out` biases |
| Mnn.MultiNN.constructor | models/mnn.h:19-26 | two layers of width 4 unless configured otherwise, and the configured or default rate |
| Mnn.MultiNN.BuildLayers | models/mnn.h:207-232 | one shape and one drawn buffer pair per layer, in layer order |
| Mnn.MultiNN.NewTables | models/mnn.h:200-233 | fresh per-layer tables: output counts by shape, drawn buffers, and equally sized backups holding whatever the allocator left |
| Mnn.MultiNN.Init | models/mnn.h:195-234 | every layer gets its shape from the reader dimension and its drawn weights and biases; the backups keep the allocator's contents, given as `junk`; the rate in use starts at the configured rate (with lines 28-33) |
| Mnn.MultiNN.SaveState | models/mnn.h:119-133 | the backup becomes a copy of every layer's weights and biases |
| Mnn.MultiNN.RecoverState | models/mnn.h:135-149 | every layer's weights and biases become the backup's |
| Mnn.MultiNN.EpochBegin | models/mnn.h:100-102 | the backup becomes a copy of every layer, the layers unchanged |
| Mnn.MultiNN.TrainEnd | models/mnn.h:96-98 | every layer becomes its backup, the state saved when the last epoch began |
| Mnn.MultiNN.TrainBegin | models/mnn.h:92-94 | the loss to beat starts at 1.0 and nothing else changes |
| Mnn.MultiNN.EpochEnd | models/mnn.h:104-117 | the rate, loss to beat and stop flag move as the judge rule says, and the net is settled (rolled back or kept) |
| IterTrain.RoundsFromBounds | src/models/iter.h:73-90 | counted from round `i`, the rounds run never exceed `iter_num`, no round before the last halts, and the last halts unless the budget ran out |
| IterTrain.RoundsRun | src/models/iter.h:69-92 | `train` runs at most `iter_num` epochs; every epoch but the last went on, and the last one stopped the loop (forced stop or loss below `min_loss`) unless the budget ran out |
| IterTrain.RoundsUnique | src/models/iter.h:73-90 | any count that ends at the first halting round, or at the budget, is the count `train` runs |
| IterTrain.TotalsBetweenStep | src/models/iter.h:146-149 | one more record adds its loss to the total of a job range exactly when its job is in the range |
| IterTrain.NoRecordsNoLoss | src/models/iter.h:146-149 | with no records every job range totals 0 |
| IterTrain.SlavesCoverRecords | src/models/iter.h:144-149 | however the pool hands the records to jobs `1..n-1`, their totals add up to the loss of every record once |
| IterTrain.JobLossesAreTotals | src/models/iter.h:146-149 | summing the slave jobs' losses gives the total over the records they took |
| IterTrain.EpochLossIsMean | src/models/iter.h:146-153 | the epoch loss is the mean loss per record, and there is none (a division by zero) with no records |
| IterTrain.IterModel.constructor | src/models/iter.h:41-59 | `iter_num` 200, `learn_rate` 0.1, `min_loss` 0.005, `cache_size` 2000000 and `thread_num` 11 unless configured; the stop flag and round are not set and keep the given prior contents |
| IterTrain.IterModel.Train | src/models/iter.h:69-92 | `_train_begin` runs first and `_train_end` last, with one `_epoch_end` per round in between; the stop flag is cleared, the rounds run are those `RoundsFrom` counts, the round number is the last one run, and the stop flag is the last epoch's |
| IterTrain.IterModel.SetupJobs | src/models/iter.h:120-139 | `thread_num` jobs numbered in order, only job 0 holds the reader, jobs 1..n-1 each get a distinct updatable, and every loss starts at 0 |
| IterTrain.IterModel.SumLosses | src/models/iter.h:146-153 | the slave jobs' losses summed and divided by the reader size, none when the size is 0 |
| LegacyIter.LegacyRoundsFromBounds | models/iter.h:49-68 | counted from round `i`, the rounds run never exceed `iter_num`, every round before the last went on against the previous round's loss, and the last did not unless the budget ran out |
| LegacyIter.LegacyRoundsRun | models/iter.h:45-70 | `train` runs at most `iter_num` epochs; it stops on a forced stop, a loss below `min_loss`, or a change from `last_loss` in `(-1e-6, final_loss_diff)`, with `last_loss` moving only when training goes on |
| LegacyIter.LegacyStopsNoLater | models/iter.h:54-67 | the older driver never runs more rounds than the newer one, and runs exactly as many when `final_loss_diff <= -1e-6` |
| LegacyIter.LegacyIterModel.constructor | models/iter.h:20-35 | `iter_num` 200, `learn_rate` 0.1, `min_loss` 0.005 and `final_loss_diff` 0.01 unless configured; the stop flag and round are not set and keep the given prior contents |
| LegacyIter.LegacyIterModel.Train | models/iter.h:45-70 | `_train_begin` runs first and `_train_end` last, with one round per epoch in between; the rounds run are those `LegacyRoundsFrom` counts, the round number is the last one run and the stop flag the last epoch's |
| LegacyIter.LegacyIterModel.Epoch | models/iter.h:95-119 | the mean is none exactly for an empty reader, and otherwise times the record count gives the sum of the updates' losses; the loss reported is what `_epoch_end` makes of the mean |
| Meta.OneVsRest | models/meta.h:60-64 | a record labelled with a class number is relabelled 1.0 exactly for its own class and 0.0 for every other |
| Meta.ClaimsOverlapAtMidpoints | models/meta.h:60 | two classes both claim a label only when they are neighbours and the label lies exactly halfway between them |
| Meta.FakeReader.constructor | models/meta.h:21-24 | the fake reader wraps the given reader for the given class |
| Meta.FakeReader.Size | models/meta.h:26-28 | the size is the number of records buffered by the wrapped reader |
| Meta.FakeReader.ProcessedNum | models/meta.h:29-31 | the processed count is the wrapped reader's cursor |
| Meta.FakeReader.Dim | models/meta.h:32-34 | the dimension is the wrapped reader's |
| Meta.FakeReader.Percentage | models/meta.h:35-37 | the percentage is the wrapped reader's |
| Meta.FakeReader.SetFile | models/meta.h:38-40 | `set` loads every line into the wrapped reader, with the dimension one past the largest index, and with preprocessing computes the reader's means and deviations |
| Meta.FakeReader.Reset | models/meta.h:45-47 | the wrapped reader's cursor goes back to 0 and nothing else changes |
| Meta.FakeReader.Read | models/meta.h:57-67 | the flag is the wrapped reader's; the record it reads with the caller's `original` flag (raw or standardised), or the caller's record at the end, is relabelled for the class |
| Meta.KindOf | models/meta.h:96-101 | `lr` and `gbdt` name their classifier; any other name leaves the slots unset |
| Meta.MetaSetupChecks | models/meta.h:81-102 | the constructor fails exactly when `class_num`, `meta_model` or `meta_section` is missing (or the count is negative), naming the first missing key; otherwise every setting is the configured one |
| Meta.ReadBack | models/meta.h:142-147 | a stream read back names no more classifiers than were built, and gives one state per classifier counted |
| Meta.WriteReadRoundTrip | models/meta.h:135-147 | reading back what `write_model` wrote gives the class count and every classifier's state, in order |
| Meta.MetaModel.constructor | models/meta.h:95-102 | `class_num` classifier slots, all of the configured kind |
| Meta.MetaModel.Predict | models/meta.h:105-117 | -1 exactly when there is no class; otherwise a class whose score no other class beats, and the first such |
| Meta.MetaModel.WriteModel | models/meta.h:135-140 | what `write_model` writes reads back |
| Meta.MetaModel.ReadModel | models/meta.h:142-147 | on a well-formed stream the class count and the classifiers in use take the stream's values and the rest keep theirs; any other stream changes nothing |
| Knn.KSetting | models/knn.h:42-46 | the constructor succeeds exactly when `k` is configured, with its value; otherwise it fails with the missing-key message |
| Knn.SqSymmetric | models/knn.h:133 | the square of a difference is the same both ways round and never negative |
| Knn.SqDistMetric | models/knn.h:119-136 | the squared distance is symmetric, never negative, and 0 from a record to itself |
| Knn.DenseStep | models/knn.h:122-124 | one more pair adds its value into its own slot only |
| Knn.AddInto | models/knn.h:122-124 | every slot of the buffer gains the sum of the record's values with that index |
| Knn.SubtractFrom | models/knn.h:125-127 | every slot of the buffer loses the sum of the other record's values with that index |
| Knn.CalcDist | models/knn.h:119-136 | for records whose indices fall inside the 1000 slots, the distance is the sum over the slots of the squared difference of the two records' dense values (an index outside them is undefined in C++; the model refuses it, see "## Left out") |
| Knn.MaxAt | models/knn.h:60-62 | the entry `pop` removes is one of greatest distance |
| Knn.PopKeepsOrder | models/knn.h:59-62 | after a push and the pop of the farthest entry, every entry kept is at least as near as every entry dropped |
| Knn.RemoveAt | models/knn.h:61 | popping one entry leaves exactly the others |
| Knn.PopKeepsNearest | models/knn.h:59-62 | a push that overflows the heap, followed by the pop, keeps the heap holding the nearest entries |
| Knn.PushKeepsNearest | models/knn.h:59 | a push that does not overflow keeps the heap holding the nearest entries |
| Knn.PushedKeepsNearest | models/knn.h:59-62 | one push and the pop after it keep the heap holding the nearest entries |
| Knn.NearestKeepsNearest | models/knn.h:53-64 | after all records, the heap holds `min(k, n)` entries, every record is kept or dropped, and no dropped one is nearer than a kept one |
| Knn.CountPositive | models/knn.h:76-81 | a label has a positive count exactly when some neighbour carries it |
| Knn.VoteUnique | models/knn.h:83-90 | at most one label satisfies the vote rule |
| Knn.Least | models/knn.h:85 | the map walk starts at the smallest label |
| Knn.Without | models/knn.h:85 | the labels after the current one in the walk are the others |
| Knn.Tally | models/knn.h:68-81 | the counter holds exactly the labels seen, each with the number of neighbours carrying it |
| Knn.Vote | models/knn.h:83-90 | 0 with no neighbours; otherwise a label no other outnumbers, and the smallest such |
| Knn.Labels | models/knn.h:76-79 | one label per heap entry, in order |
| Knn.KnnModel.constructor | models/knn.h:42-46 | the model keeps the configured `k` and has no reader yet |
| Knn.KnnModel.Init | models/knn.h:102-104 | `init` keeps the reader (the model passes the current revision's binary reader where the older C++ takes any reader) |
| Knn.KnnModel.Predict | models/knn.h:48-100 | the records are unchanged; when every index falls inside the 1000 slots, the result is the vote over the labels of the nearest `k` records (an index outside them is undefined in C++ and refused here) |
| Knn.Scan | models/knn.h:50-64 | the records are unchanged; when every distance can be taken, the heap is the nearest-entries heap of all the records' distances (an out-of-range index, undefined in C++, gives no heap here) |
| Knn.ScanStep | models/knn.h:53-64 | one record extends the distances of the records before it and pushes its entry into the heap, or the whole scan has no distances |
| Knn.InfosFail | models/knn.h:53-54 | once a prefix of the records has no distances, neither has any longer prefix |
| GbdtNode.ChildrenOfNode | src/models/gbdt.h:19-20 | both children of node `x` are at least 1, lie side by side, and have `x` as their parent |
| GbdtNode.ParentIsInverse | src/models/gbdt.h:19-20 | every node id from 1 on is the left or the right child of `(x - 1) / 2` |
| GbdtNode.ChildrenInNextLayer | src/models/gbdt.h:19-20 | the children of a node of layer `l` are in layer `l + 1` |
| GbdtNode.GreaterIsStrictOrder | src/models/gbdt.h:93 | the float `>` used on scores, NaN and infinities included, is irreflexive, asymmetric and transitive |
| GbdtNode.Quotient | src/models/gbdt.h:260 | a division by a nonzero count is the real quotient; by a zero count it is +inf, -inf or NaN by the sign of the dividend |
| GbdtNode.AverageTimesCount | src/models/gbdt.h:888-890 | a node's mean `sum / cnt` times its count gives back its sum |
| GbdtNode.MidNonNegative | src/models/gbdt.h:165-177 | the mid score `la^2/lc + ra^2/rc` (each term only for a positive count) is never negative |
| GbdtNode.MidOfNoSplit | src/models/gbdt.h:165-196 | the "no split" score of a node is `sum^2/cnt`, or 0 for an empty node |
| GbdtNode.SampleHash | src/models/gbdt.h:24 | the masked hash is below 256 |
| GbdtNode.LowByteOfWord | src/models/gbdt.h:24 | the low eight bits of a value are those of its low 32 bits |
| GbdtNode.HashIgnoresWordSize | src/models/gbdt.h:24 | the 32-bit wrap-around of the hash never changes the eight bits the mask keeps |
| GbdtNode.FullSampleKeepsEveryRow | src/models/gbdt.h:22-24 | with `sample_instance >= 1` the threshold is at least 256, so every row of every tree is sampled (with lines 781-782) |
| GbdtNode.InitAsWritten | src/models/gbdt.h:62-78 | `init(b, e)` gives a leaf over `[b, e)` with count `e - b`, split and grow at `b` and zero sums, and leaves `split_sum` and `temp_ssum` as they were |
| GbdtNode.Init | src/models/gbdt.h:62-78 | the same, with `split_sum` zeroed too (corrected) |
| GbdtNode.LessIsStrictOrder | src/models/gbdt.h:92-94 | `operator<` on nodes is irreflexive, asymmetric and transitive, so repeated strict-improvement commits keep the first node of least score |
| GbdtNode.LessOnUnsplit | src/models/gbdt.h:92-94 | a node without a feature is beaten by exactly the nodes that have one, and beats none |
| GbdtColumn.MarkRuns | src/models/gbdt.h:691-702 | entry i takes row id i of the sorted column and is marked `same` exactly when it is not the first and its value equals the previous one; the count returned is the number of unmarked entries; entries past the column are untouched (the loop is also models/gbdt.h:421-431) |
| GbdtColumn.RunStartIsNewValue | src/models/gbdt.h:695-701 | on a sorted column an unmarked entry is exactly one whose value exceeds every value before it |
| GbdtColumn.RunStartIsUnseen | src/models/gbdt.h:695-701 | on a sorted column an entry is unmarked exactly when its value has not occurred before it |
| GbdtColumn.RunCountIsDistinctValues | src/models/gbdt.h:693-701 | on a sorted column `diff_value` is the number of distinct values |
| GbdtColumn.SameRunIffEqual | src/models/gbdt.h:691-702 | on a sorted column two entries hold equal values exactly when no unmarked entry lies after the first up to the second, so a cut before an unmarked entry always separates different values |
| GbdtRows.OwnRowsMembers | src/models/gbdt.h:213-222 | the rows of a node are exactly the sampled rows whose node it is, each listed once |
| GbdtRows.SumOverPermutation | src/models/gbdt.h:244-283 | two listings of the same rows, without repeats, have the same length and the same sums whatever their order |
| GbdtRows.SeenAreOwn | src/models/gbdt.h:199-248 | over a column covering every row, the scan hands each node exactly its own sampled rows: same rows, same count, same sums |
| GbdtColumn.UnmarkedSeparates | src/models/gbdt.h:691-702 | on a sorted, marked column every value before an unmarked entry is strictly below every value from it on |
| GbdtScan.BestBound | src/models/gbdt.h:228-243 | a node's recorded cut lies among the entries it saw, and with no cut recorded it keeps the "no split" score |
| GbdtScan.BestIsOptimal | src/models/gbdt.h:228-243 | the recorded cut scores at least every evaluated entry of the node, strictly beats the "no split" score, and is the first entry reaching its score |
| GbdtScan.ResetNodeFacts | src/models/gbdt.h:187-196 | the reset restarts the cursor and the run key and keeps the node's range, sums, feature and split; a layer node is also left ready to scan |
| GbdtScan.ResetCursors | src/models/gbdt.h:187-196 | every node below `all_node_count` is reset, layer nodes with a zero running sum, a recount and the "no split" score; nodes above are untouched |
| GbdtScan.StepNodeTakes | src/models/gbdt.h:228-247 | when an evaluated entry's score beats the record, the node records the feature, score, split, split row and split sums, and then adds the entry to its running sums and cursor |
| GbdtScan.StepNodeKeeps | src/models/gbdt.h:228-247 | otherwise only the run key, the running sums and the cursor move |
| GbdtScan.StepNodeFrame | src/models/gbdt.h:228-247 | a step never moves a node's range or totals and advances its cursor by one |
| GbdtScan.LayerStep | src/models/gbdt.h:228-247 | one scan step on a layer node extends its scanned state by exactly the entry it took |
| GbdtScan.OwnerSees | src/models/gbdt.h:213-228 | the sampled row's node sees the entry next, as a fresh run exactly when the column starts one there or the node missed the run's earlier entries |
| GbdtScan.ScanStep | src/models/gbdt.h:210-248 | one entry keeps the scan invariant: an unsampled row changes nothing, a sampled row updates only its own node and slot |
| GbdtScan.ScanStart | src/models/gbdt.h:187-202 | the scan invariant holds of the reset nodes before the first entry |
| GbdtScan.ScanEntry | src/models/gbdt.h:225-247 | the entry's node takes the step and the row goes into that node's next slot; nothing else changes |
| GbdtScan.ScanAt | src/models/gbdt.h:210-248 | the run key moves on at an unmarked entry and the scan invariant advances one entry |
| GbdtScan.ScanColumn | src/models/gbdt.h:199-248 | after the whole column every node below `all_node_count` finds its sampled rows in its own slots in column order, and each layer node holds the best cut of the feature over its rows |
| GbdtScan.KeyChangeStartsRun | src/models/gbdt.h:213-222 | when the run key differs between two entries, an unmarked entry lies after the first and at or before the second |
| GbdtScan.EvaluatedSeparates | src/models/gbdt.h:213-248 | on a column built from sorted pairs, at an evaluated entry of a node every row the node saw before it has a strictly smaller value than every row from it on (with lines 691-702) |
| GbdtScan.ScanCutSeparates | src/models/gbdt.h:213-248 | the cut the scan records for a feature never splits equal values: the node's rows before the cut all have strictly smaller values than its rows at or after it (with lines 691-702) |
| GbdtWorker.StaleSplitSumAsWritten | src/models/gbdt.h:62-78 | as written a layer node whose scan finds no cut keeps its slot's stale `split_sum`: a node of two equal rows summing 3 in a slot that held 5 still wins, and its right child, holding both rows, is given the sum -2; with the corrected `init` it is given 3 (with lines 270-276) |
| GbdtWorker.TagRows | src/models/gbdt.h:278-283 | exactly the rows listed in slots `[lo, hi)` take the turn; every other row is untouched |
| GbdtWorker.CommitNode | src/models/gbdt.h:254-287 | the job node takes the feature, `end = grow` and the MSE score; when the master's node is beaten, the master takes it and its two children `[begin, split)` and `[split, end)` with the split sums and the rest, and its rows are tagged 1 and 2 by side; otherwise the master is unchanged |
| GbdtWorker.CommitLayer | src/models/gbdt.h:253-288 | over the layer's nodes, the job tree is finalised, the master takes every winning node with its children, and the rows of each winning node are tagged by side |
| GbdtWorker.TurnsStep | src/models/gbdt.h:278-283 | committing one more layer node tags only that node's rows |
| GbdtWorker.NotInSlots | src/models/gbdt.h:247-283 | a row of another node is in none of a node's slots, so its tag is not touched |
| GbdtWorker.CommitStep | src/models/gbdt.h:262-277 | committing one more layer node changes only that node's master slot and its two children's |
| GbdtWorker.RowsOf | src/models/gbdt.h:247 | one row per entry a node has seen, in column order |
| GbdtWorker.ScannedTree | src/models/gbdt.h:187-248 | the job tree after the reset and the scan has the size it had |
| GbdtWorker.Worker | src/models/gbdt.h:179-288 | an unselected job changes nothing; a selected one leaves each layer node finalised from its scanned state, nodes from `all_node_count` on untouched, and the master and the row tags committed as the job's scan decides |
| GbdtWorker.CommitIsJob | src/models/gbdt.h:253-288 | the commit loop's outcome over the slot buffer is the job's commit over the entries each node has seen |
| GbdtWorker.SeenRowsDistinct | src/models/gbdt.h:210-247 | a node sees each row at most once |
| GbdtWorker.ResetKeepsReady | src/models/gbdt.h:187-196 | the reset keeps every node's range, puts cursors at the beginnings and leaves layer nodes ready to scan |
| GbdtWorker.ScanGivesSlots | src/models/gbdt.h:210-248 | after the scan each layer node is as its scanned state says, its cut lies in its filled slots, and those slots hold its own rows |
| GbdtWorker.PlacedRowsOwned | src/models/gbdt.h:247 | the slots a node filled hold rows of that node |
| GbdtWorker.TurnMatches | src/models/gbdt.h:278-283 | a winning node's rows left of the cut are the first `split - begin` rows it saw and those right of it are the rest |
| GbdtTrain.SeenIgnoresTurns | src/models/gbdt.h:221-226 | what a node sees of a column depends on the rows' nodes, not on their turns |
| GbdtTrain.ReadyFromInv | src/models/gbdt.h:817-844 | at the start of a layer every feature job is ready to run on its copy of the tree, whatever turns earlier jobs of the layer left on the rows |
| GbdtTrain.LayerFits | src/models/gbdt.h:270-276 | the layer's nodes and their children fit in the tree |
| GbdtTrain.ScannedIgnoresTurns | src/models/gbdt.h:187-248 | a job's scanned view of the layer does not depend on the turns |
| GbdtTrain.JobSkipped | src/models/gbdt.h:817-842 | an unselected job changes nothing and the layer invariant moves on to the next feature (with lines 183-185) |
| GbdtTrain.NodeStep | src/models/gbdt.h:262-277 | across a selected job, a layer node's master slot keeps its node unless the job's result beats it, and then takes that result and initialises the children from it |
| GbdtTrain.RowStep | src/models/gbdt.h:278-283 | across a selected job, a row's turn is that of the job's cut when the job's result for its node wins, and stays otherwise |
| GbdtTrain.JobStep | src/models/gbdt.h:817-844 | a selected job keeps the layer invariant, now with a selected job behind it |
| GbdtTrain.JobChoices | src/models/gbdt.h:262-277 | after job `d` every layer node holds the best choice over the jobs up to `d`, the first of least score |
| GbdtTrain.JobKeepsUntouched | src/models/gbdt.h:254-288 | a job leaves every master slot outside the layer and its children as it was |
| GbdtTrain.JobTurns | src/models/gbdt.h:278-283 | after job `d` every row's turn names its side of the best choice so far |
| GbdtTrain.MovedToNextLayer | src/models/gbdt.h:858-865 | a row that moves leaves a node of layer `l` for one of layer `l + 1`; a row that stays keeps its node |
| GbdtTrain.NodeIdWrapsAtLayer14 | src/models/gbdt.h:134 | a row of node 8192 (layer 13) that goes right belongs in node 16386, but the 14-bit `in_which_node` keeps 2, a node of layer 1 (with lines 860-862) |
| GbdtTrain.ChosenFacts | src/models/gbdt.h:228-260 | a fresh layer node once scanned and finalised by a feature keeps its range, is filled by exactly its rows, has its cut `split - begin` entries in with the sum of those entries recorded, and keeps its whole sum |
| GbdtTrain.RowMoves | src/models/gbdt.h:858-865 | after a layer with a selected job, a sampled row of layer node `p` goes to the left child when it is among the node's first `split - begin` rows in the chosen feature's order, otherwise to the right child (with lines 278-283) |
| GbdtTrain.CutRows | src/models/gbdt.h:278-283 | both parts of a cut list rows once, and the rows from the cut on are the node's rows not before it |
| GbdtTrain.ChildRows | src/models/gbdt.h:858-865 | after the move, the left child's sampled rows are the node's rows before its cut and the right child's those from the cut on (with lines 270-283) |
| GbdtTrain.ChosenCut | src/models/gbdt.h:257-270 | the choice of a layer node after all jobs names a feature and cuts that feature's entries inside their range |
| GbdtTrain.ChildShape | src/models/gbdt.h:270-276 | the children of a layer node split its range at the cut and start fresh |
| GbdtTrain.ChildAccounted | src/models/gbdt.h:270-276 | the children of a layer node count and sum the rows that moved into them |
| GbdtTrain.KidsAccounted | src/models/gbdt.h:270-276 | children initialised from a committed node count and sum the rows before and from its cut |
| GbdtTrain.MovedOwners | src/models/gbdt.h:858-865 | after the move every node holding a sampled row is a child of a layer node that held it before |
| GbdtTrain.LayerAdvance | src/models/gbdt.h:848-885 | after a layer with a selected job, the next layer `[end, 2*end + 1)` holds every sampled row, its nodes start fresh and count and sum their rows, and the ranges of nodes holding rows do not overlap |
| GbdtTrain.NewLayerFresh | src/models/gbdt.h:853-885 | the nodes of the next layer start fresh and account for their rows |
| GbdtTrain.OldLayersShaped | src/models/gbdt.h:848-885 | the nodes above the next layer keep ranges within the rows |
| GbdtTrain.NewLayerApart | src/models/gbdt.h:848-885 | the nodes up to the next layer that hold rows have ranges apart |
| GbdtTrain.KidsApart | src/models/gbdt.h:270-276 | distinct children of layer nodes holding rows have non-overlapping ranges |
| GbdtTrain.LayerStays | src/models/gbdt.h:848-885 | after a layer with no selected job, or no node, nothing moved and the next layer is empty |
| GbdtGrow.SelectedStep | src/models/gbdt.h:817-842 | deciding one more feature by the draw, the mask and the cap keeps the flags following the selection rule, and the selected count grows by that flag |
| GbdtGrow.CopyTree | src/models/gbdt.h:838 | the job tree becomes a copy of the master tree |
| GbdtGrow.SelectJobs | src/models/gbdt.h:816-842 | masked features are never selected; an unmasked feature is selected when its draw succeeds and fewer than `dim * sample_feature` were selected before it; each selected job's tree becomes a copy of the master, the others are untouched |
| GbdtGrow.SelectionCap | src/models/gbdt.h:825-826 | when the last selected feature was taken, fewer than the cap were selected before it |
| GbdtGrow.SelectionUnique | src/models/gbdt.h:817-842 | the selection is a function of the mask, the draws and the rate |
| GbdtGrow.InfoIsTagged | src/models/gbdt.h:278-283 | after a layer's jobs the rows carry the sides the committed master gives them (with line 844) |
| GbdtGrow.RunJob | src/models/gbdt.h:183-288 | a selected job runs the worker and keeps the job-loop invariant with a selected job behind it; an unselected one changes nothing |
| GbdtGrow.RunJobs | src/models/gbdt.h:844 | running the layer's jobs in feature order, each on a copy of the master taken at the start of the layer, leaves every layer node with the best choice over the selected features and every row tagged by its side |
| GbdtGrow.CountNodes | src/models/gbdt.h:848-857 | with every layer node split, `all_node_count` becomes the right child of the last one plus one; with none split, it stays `end` |
| GbdtGrow.MoveRows | src/models/gbdt.h:858-865 | tag 1 moves a row to its node's left child, tag 2 to the right one, and every tag clears |
| GbdtGrow.LayerSplit | src/models/gbdt.h:257-270 | after the jobs, every layer node carries a feature when some job was selected and none does otherwise |
| GbdtGrow.TrainLayer | src/models/gbdt.h:807-885 | one layer: the selection rule holds; the next layer ends at `2*end + 1` when some job was selected and the layer had nodes, else at `end`; the master's layer nodes carry the best selected split, the rows move as that split orders them, and the tree invariant holds for the next layer |
| GbdtGrow.AtRoot | src/models/gbdt.h:784-786 | one row per row, each in the root with no pending turn |
| GbdtGrow.RootInv | src/models/gbdt.h:774-794 | a fresh root over `[0, sampled count)` with the sampled rows' count and sum starts the first layer |
| GbdtGrow.OneNodeInv | src/models/gbdt.h:774-794 | a tree whose only node is the root, holding every sampled row, satisfies the tree invariant |
| GbdtGrow.SampleRoot | src/models/gbdt.h:774-794 | every row goes to the root with no turn; the root is initialised over all rows, then its end and count become the number of sampled rows and its sums their residual sums; other slots are untouched |
| GbdtGrow.ClearFeatures | src/models/gbdt.h:802-804 | every slot of the tree loses its feature and nothing else changes |
| GbdtGrow.WithMean | src/models/gbdt.h:890-895 | a node with rows gets the mean `sum / cnt`; otherwise it is untouched |
| GbdtGrow.FinalizeMeans | src/models/gbdt.h:888-895 | every slot of the tree gets its mean as `WithMean` says |
| GbdtGrow.UpdateResiduals | src/models/gbdt.h:897-906 | every sampled row's residual drops by `sr` times the mean of its node; unsampled rows keep theirs |
| GbdtGrow.LeafOfRow | src/models/gbdt.h:807-886 | a grown tree leaves each sampled row in a node below `end` that holds it, whose count and sum are those of its rows |
| GbdtGrow.FinishFacts | src/models/gbdt.h:888-906 | after the means and the residual update, each sampled row's node has as mean the average residual of its sampled rows, and the row's residual dropped by `sr` times it |
| GbdtGrow.FinishTree | src/models/gbdt.h:888-906 | nodes and turns are kept, unsampled rows keep their residuals, and every sampled row ends as `FinishFacts` says |
| GbdtGrow.GrowLayers | src/models/gbdt.h:806-886 | the layers keep the tree invariant to the last layer, leave the residuals alone, and put every split node before the last layer's end with a feature of the data |
| GbdtGrow.GrowLayer | src/models/gbdt.h:808-886 | one turn of the layer loop carries the tree invariant into the next layer, leaves the residuals alone, and leaves every split node before the layer's end with a feature of the data |
| GbdtGrow.GrownFacts | src/models/gbdt.h:806-886 | a grown tree holds every sampled row in a node that counts and sums its rows |
| GbdtGrow.LayerTurns | src/models/gbdt.h:858-865 | no row has a pending turn at the start of a layer |
| GbdtGrow.TrainTree | src/models/gbdt.h:773-906 | one tree: no turn is left pending, unsampled rows keep their residuals, and every sampled row's residual drops by `sr` times the mean of the node it ends in, which is the average residual of that node's sampled rows; every split node's children lie inside the tree and its feature is one of the data's |
| GbdtGrow.Residuals | src/models/gbdt.h:132-136 | one residual per row |
| GbdtGrow.Nodes | src/models/gbdt.h:132-136 | one node per row |
| GbdtGrow.Table | src/models/gbdt.h:132-136 | a row table carrying the given residuals and nodes |
| GbdtGrow.TreeFitOf | src/models/gbdt.h:773-906 | what `TrainTree` promises makes the tree a fit of the residuals before and after it |
| GbdtGrow.NewTrees | src/models/gbdt.h:751-763 | fresh, pairwise distinct node arrays of the tree size, none of them an array already in use |
| GbdtGrow.Boost | src/models/gbdt.h:769-906 | tree `t` is grown with the sampling of tree `t` on the residuals the trees before it left, is a fit of them, and has its splits inside the tree on features of the data |
| GbdtGrow.Train | src/models/gbdt.h:750-906 | `tree_count` trees of `1 << (layer_num + 2)` slots; the residuals start as the labels, each tree fits the residuals the trees before it left, and the rows end with the last residuals; every tree's splits lie inside the tree on features of the data |
| GbdtGrow.LayerSplits | src/models/gbdt.h:807-886 | after a layer every split node lies before the layer's end and splits on a feature of the data |
| GbdtGrow.GrownSplitsFit | src/models/gbdt.h:807-886 | a tree whose split nodes lie before the last layer's end has every split node's children inside the tree (with line 394) |
| GbdtModel.ShortOf | src/models/gbdt.h:116 | the conversion to `short` lands in -32768..32767, agrees with the input modulo 65536, and keeps every value already in range |
| GbdtModel.ShortFidxLosesSplits | src/models/gbdt.h:116-127 | as written, a split on feature 65535 becomes a leaf in the compact tree and one on feature 32768 a split on a negative feature |
| GbdtModel.LeafOf | src/models/gbdt.h:493-504 | the walk from node `x` ends at or after `x`, at a node without feature |
| GbdtModel.LeafWithinLayers | src/models/gbdt.h:493-504 | when every node from layer `layer` on is a leaf, a walk from above layer `layer + 1` ends above it (with line 947) |
| GbdtModel.LeafBelowNodeCount | src/models/gbdt.h:466-521 | a reported leaf id is below `tree_node_count` for a tree whose nodes from layer `layer` on are leaves (with line 947) |
| GbdtModel.Walk | src/models/gbdt.h:493-504 | the node loop of prediction stops at the leaf `LeafOf` names |
| GbdtModel.FillBuffer | src/models/gbdt.h:473-485 | the buffer holds `dim` values: zero, overwritten in order by every pair whose index is below `dim` |
| GbdtModel.DenseIsFeatureValue | src/models/gbdt.h:480-485 | slot `j` of the buffer is the row's value for feature `j` when the row names it at most once |
| GbdtModel.TreeCut | src/models/gbdt.h:455-457 | -1 reports every tree, any other cut is reported as set |
| GbdtModel.TreeCutCountsTrees | src/models/gbdt.h:455-492 | for a cut of -1 or within the forest, the reported cut is the number of trees prediction visits |
| GbdtModel.TreeFields | src/models/gbdt.h:86-94 | a tree writes three fields per node |
| GbdtModel.BitLengthOfPow2 | src/models/gbdt.h:546-551 | the shift loop runs `k + 1` times on `2^k` |
| GbdtModel.LayerOfTreeSize | src/models/gbdt.h:546-552 | the layer count `read_model` infers from `1 << (layer_num + 2)` is `layer_num` (with line 394) |
| GbdtModel.DimOfIsMax | src/models/gbdt.h:565-568 | the dimension is one past the largest feature index, or 0 when there is none |
| GbdtModel.ReadTreeOfFields | src/models/gbdt.h:80-94 | reading a tree's written fields gives the tree back, whatever follows |
| GbdtModel.ReadForestOfFields | src/models/gbdt.h:524-570 | reading a written forest gives every tree back |
| GbdtModel.LoadInvertsModelFile | src/models/gbdt.h:524-572 | `read_model` after `write_model` gives back the counts, the shrinkage, every node's feature and threshold and its mean times the shrinkage; the layer count is the one the tree size came from |
| GbdtModel.CollectSplits | src/models/gbdt.h:997-1009 | every entry names a split node and its row, and every split node is listed |
| GbdtModel.InsertByItemKeeps | src/models/gbdt.h:1011 | inserting an entry keeps every entry and adds it |
| GbdtModel.InsertByItemSorts | src/models/gbdt.h:336-345 | inserting into entries sorted by row keeps them sorted (with line 1011) |
| GbdtModel.SortByItemSorts | src/models/gbdt.h:336-345 | the sort by row is sorted and a permutation of the entries (with line 1011) |
| GbdtModel.FindThreshold | src/models/gbdt.h:1029-1035 | the threshold is the row's first value for the node's feature, 0 when it has none |
| GbdtModel.PassStep | src/models/gbdt.h:1028-1035 | one entry sets its node's threshold and keeps its feature |
| GbdtModel.ReachedIsDownward | src/models/gbdt.h:1018-1027 | along entries sorted by row, once a row is past the end every later one is too |
| GbdtModel.ApplyEntry | src/models/gbdt.h:1028-1035 | the update of one entry's node extends the finished prefix by one |
| GbdtModel.ReadUpTo | src/models/gbdt.h:1018-1023 | the reader loop stops at the target row, or before it only when the reader has ended |
| GbdtModel.MergeThresholds | src/models/gbdt.h:1012-1038 | the merge pass gets through a prefix of the entries, and every entry after it names a row past the end |
| GbdtModel.PassIsRecovery | src/models/gbdt.h:997-1038 | the merge pass leaves exactly the recovered trees |
| GbdtModel.ReachedIsListed | src/models/gbdt.h:1011-1038 | a split node whose row the pass reaches is among the entries it got through |
| GbdtModel.RecoverThresholds | src/models/gbdt.h:990-1038 | the threshold pass gives each split node whose row exists its row's value for the feature, and leaves every other node alone |
| GbdtModel.CompactTrees | src/models/gbdt.h:1040-1049 | the copies are the compact trees and the means times the shrinkage, tree by tree |
| GbdtModel.CountBits | src/models/gbdt.h:546-551 | the shift loop counts the binary digits |
| GbdtModel.CountTreeDims | src/models/gbdt.h:565-568 | the dimension update over one tree continues the running maximum |
| GbdtModel.CountDims | src/models/gbdt.h:565-568 | the dimension is one past the largest feature index of all nodes |
| GbdtModel.ReadTreeFields | src/models/gbdt.h:561-569 | the node loop reads a tree exactly when the stream holds one |
| GbdtModel.ReadForestFields | src/models/gbdt.h:558-570 | the tree loop reads a forest exactly when the stream holds one |
| GbdtModel.LoadModel | src/models/gbdt.h:537-572 | a full stream is loaded into the image `Load` describes; a short one is refused |
| GbdtModel.WalkForest | src/models/gbdt.h:487-517 | one leaf per tree up to the cut, the leaf each walk reaches, its scaled mean, and their sum |
| GbdtModel.FitTreesWalkable | src/models/gbdt.h:990-1049 | trees whose split nodes have children inside the tree and a feature below the dimension give compact trees prediction can walk (with line 394) |
| GbdtModel.Gbdt.constructor | src/models/gbdt.h:347-397 | tree count, layer count and shrinkage as configured, a tree size of `1 << (layer_num + 2)`, no cut and nothing trained |
| GbdtModel.Gbdt.SetPredictTreeCut | src/models/gbdt.h:451-453 | only the cut changes |
| GbdtModel.Gbdt.TreeNodeCount | src/models/gbdt.h:947 | `tree_node_count` is positive and half the node table of a tree sized from the layer count (with line 394) |
| GbdtModel.Gbdt.PredictAndGetLeaves | src/models/gbdt.h:466-521 | one leaf per tree up to the cut, each the leaf the row's dense values reach, with its scaled mean; the score is their sum |
| GbdtModel.Gbdt.Predict | src/models/gbdt.h:462-464 | the score is the sum of the scaled means at the leaves the row reaches in the trees up to the cut |
| GbdtModel.Gbdt.WriteModel | src/models/gbdt.h:524-535 | the stream is the tree count, the tree size, the shrinkage and every node's feature, threshold and mean |
| GbdtModel.Gbdt.ReadModel | src/models/gbdt.h:537-572 | a stream `Load` accepts replaces the counts, the shrinkage, the inferred layer count, the dimension, the compact trees and the scaled means |
| GbdtModel.Gbdt.RebuildTree | src/models/gbdt.h:990-1049 | thresholds are recovered from the rows, the compact trees and scaled means are rebuilt, and the model is ready to predict when training left its splits fitting |
| LegacyGbdt.SetBit | models/gbdt.h:20 | `SET_1` keeps the bitmap's length |
| LegacyGbdt.SetBitSpec | models/gbdt.h:20-21 | after `SET_1(buf, idx)`, `IS_1` holds for bit `idx` and for exactly the bits it held for before |
| LegacyGbdt.Set1 | models/gbdt.h:20 | the bitmap becomes the one `SetBit` describes |
| LegacyGbdt.SampleRows | models/gbdt.h:509-526 | every row goes to the root; exactly the rows whose draw came out true are marked, counted and summed, with their squared residuals |
| LegacyGbdt.Column | models/gbdt.h:564-571 | node `i` of every job tree, in job order |
| LegacyGbdt.BestOfWins | models/gbdt.h:564-571 | the node kept is the master or a selected job's node, no selected job's node beats it, and a replaced master is beaten by its replacement (with lines 86-88) |
| LegacyGbdt.Winner | models/gbdt.h:564-571 | the job whose node replaced the master last, or -1 |
| LegacyGbdt.WinnerIsEarliest | models/gbdt.h:564-571 | the earliest best node wins: the kept node beats every earlier selected job's node that carries a feature and a non-NaN score, and later job nodes only tie or lose (with lines 86-88) |
| LegacyGbdt.NotBelowBeats | models/gbdt.h:86-88 | a non-NaN score that `a` does not exceed exceeds whatever `a` exceeds |
| LegacyGbdt.PickBest | models/gbdt.h:564-571 | every node of the layer becomes the best of itself and the selected jobs' nodes at its position, and no other node changes |
| LegacyGbdt.MoveRange | models/gbdt.h:577-590 | every row listed in the range moves to the child, stored as a `short`, and its residual and squared residual go into the child's sums; nothing else changes |
| LegacyGbdt.SplitLayer | models/gbdt.h:572-593 | each split node's children get the rows its job listed on either side of the cut with their sums, and those rows move there; a row listed by no split node keeps its node |
| LegacyGbdt.SplitAt | models/gbdt.h:572-593 | the child loops of node `n` extend the finished prefix of the layer by one node |
| LegacyGbdt.SplitNode | models/gbdt.h:575-590 | the left child gets the rows before the cut and the right child the rows after it, with their sums; a row listed on the right ends there |
| LegacyGbdt.ListSumResiduals | models/gbdt.h:578-589 | the sums over a list range depend on the residuals only |
| LegacyGbdt.GrowNodeCount | models/gbdt.h:609-615 | the node count passes the right child of every node of the layer that carries a feature, and goes no further than needed |
| LegacyGbdt.UpdateResiduals | models/gbdt.h:640-648 | a marked row loses the shrinkage times the mean its node id reads: its node's mean when the id lies in the table, otherwise the memory before the table (`stray`); every other row keeps its residual |
| LegacyGbdt.ShortNodeWrapsAtLayer15 | models/gbdt.h:580-587 | with `layer_num >= 15`, node 16383 of layer 14 is split; its right child 32768 fits the table but is stored in the `short` `in_which_node` (line 110) as -32768, so the residual update reads before the table |
| LegacyGbdt.GrownTreeWalkable | models/gbdt.h:533-538 | a tree of `1 << (layer_num + 2)` nodes whose nodes from layer `layer_num` on carry no feature can be walked (with line 253) |
| LegacyGbdt.LegacyLeaf | models/gbdt.h:296-318 | the walk ends at or after its start, at a node without feature |
| LegacyGbdt.WalkTree | models/gbdt.h:296-318 | the inner loop of `predict` gives the mean of the leaf `LegacyLeaf` names |
| LegacyGbdt.LegacyAgreesWithCompact | models/gbdt.h:296-318 | when no index repeats in the row, the full-node walk ends at the leaf the newer compact walk over the dense buffer reaches |
| LegacyGbdt.CompactTree | models/gbdt.h:296-318 | the compact copy keeps every node's feature and threshold |
| LegacyGbdt.LegacyLoadInvertsWrite | models/gbdt.h:323-350 | `read_model` after `write_model` gives back the counts, the shrinkage and every node's feature, threshold and mean, for trees of any size |
| LegacyGbdt.ReadInto | models/gbdt.h:74-78 | the stored fields of a node read are the record's |
| LegacyGbdt.LegacyModel.constructor | models/gbdt.h:233-259 | tree count, layer count and shrinkage as configured, and that many trees of `1 << (layer_num + 2)` nodes |
| LegacyGbdt.LegacyModel.Predict | models/gbdt.h:292-321 | the score is the shrinkage times the leaf mean of every tree, summed |
| LegacyGbdt.LegacyModel.WriteModel | models/gbdt.h:323-334 | the stream is the tree count, the tree size, the shrinkage and every node's feature, threshold and mean |
| LegacyGbdt.LegacyModel.ReadModel | models/gbdt.h:336-350 | a stream `LegacyLoad` accepts replaces the counts, the shrinkage and the trees, and the layer count keeps its value |
| LegacyGbdt.ReadForestShaped | models/gbdt.h:343-349 | the forest read has the shape asked for |
| LegacyGbdt.LegacyModelRoundTrip | models/gbdt.h:323-350 | a model written and read back has the same counts, shrinkage and stored node fields |
| LegacyScan.Positions | models/gbdt.h:160-170 | the positions node `n` owns among the first `i` entries, increasing, each below `i` |
| LegacyScan.PositionsGrow | models/gbdt.h:160-198 | seeing more of the column never removes a position |
| LegacyScan.ScanEntry | models/gbdt.h:160-198 | an entry outside the sample changes nothing; a sampled one either stops the process when its node is full or steps its node and fills the node's next slot |
| LegacyScan.ScanStepOwner | models/gbdt.h:172-197 | the node that owns entry `i` is in its scan state after it |
| LegacyScan.SlotsStep | models/gbdt.h:197 | writing the entry into the next slot extends the node's filled slots by it |
| LegacyScan.CutStep | models/gbdt.h:179-189 | scoring an entry keeps the node's recorded cut at an entry that starts a run |
| LegacyScan.ScanStepOther | models/gbdt.h:172-197 | every other node keeps its scan state through the entry |
| LegacyScan.ScanStepSkip | models/gbdt.h:167-170 | an entry outside the sample keeps the scan state |
| LegacyScan.ScanStepTake | models/gbdt.h:172-197 | a sampled entry whose node has room keeps the scan state |
| LegacyScan.OthersStep | models/gbdt.h:197 | nodes other than the entry's keep their state |
| LegacyScan.ScanInvUpdate | models/gbdt.h:172-197 | the scan state holds with the entry's node replaced by its next step |
| LegacyScan.OtherKept | models/gbdt.h:197 | the slot an entry goes to lies outside every other node's filled slots |
| LegacyScan.Overflow | models/gbdt.h:193-196 | a node without room has more sampled rows than room |
| LegacyScan.Fitted | models/gbdt.h:160-198 | a scan that ran to the end found room for every row |
| LegacyScan.ScanStepAt | models/gbdt.h:160-198 | one entry of the loop keeps the scan state, or stops it because some node has more rows than room |
| LegacyScan.ScanStart | models/gbdt.h:145-154 | before the first entry every node is as the reset left it |
| LegacyScan.ScanColumn | models/gbdt.h:159-198 | the scan stops the process exactly when a node has more sampled rows than room; otherwise every node holds its rows in column order and a changed cut records the feature at the start of a run |
| LegacyScan.ResetAll | models/gbdt.h:145-154 | the reset loops keep the tree's length |
| LegacyScan.ResetIsReady | models/gbdt.h:145-154 | after the reset loops the scan can start, and every node keeps its range |
| LegacyScan.FinishLayer | models/gbdt.h:199-203 | each node of the layer gets its end and final score; the others are unchanged |
| LegacyScan.FinishAll | models/gbdt.h:199-203 | the last loop keeps the tree's length |
| LegacyScan.Worker | models/gbdt.h:136-208 | an unselected job does nothing; a selected one stops the process exactly when a node has more sampled rows than room, and otherwise scans the reset tree and finishes the layer |
| LegacyScan.RecordedCutSeparates | models/gbdt.h:164-197 | a recorded cut never splits equal values: every row the node placed before the cut has a strictly smaller value than every row at or after it |
| LegacyScan.CutOnPositions | models/gbdt.h:164-166 | on any increasing positions of a sorted, marked column, a cut at an unmarked entry separates strictly smaller values from larger ones |

## Left out

- Threads: `pthread_create`, `pthread_kill`, `pthread_join`, locks, spinlocks and busy waits are not modelled. The feature jobs of a layer, the epoch jobs of `IterModel_t`, the job dispatcher and the ring buffer run one call at a time. The thread-liveness probe of `multi_thread_jobs` is an oracle, a sequence of answers. Interleavings are not captured.
- Files and streams: `fopen`, `fread`, `fwrite`, seeking, the per-dimension cache files, the `system("rm -rf …")` of `init`, autosave and `BinaryFileIO_t::transform` are not modelled. A text file is the sequence of its lines, and a binary file is the sequence of its records or fields.
- The `feof`-driven reader loops are not modelled as loops over a stream. Those loops also yield one extra garbage record at end of file (src/include/fly_core.h:291-297). The readers here walk an in-memory sequence and yield exactly its records.
- The 8192-byte line buffer that `fgets` fills in `Config_t::load` (cfg.h:28-44) is not modelled: a longer line is read whole here, where C splits it into several lines.
- Randomness: `random()`, `rand()` and `random_05` are not modelled. Random draws (the legacy sample bitmap, weight initialisation of the layered network, instance sampling) are given as inputs, as sequences or functions of the draw position.
- Floating point: `float` and `double` are reals, without IEEE rounding. Only the score comparison of the tree learner models infinities and NaN, because the learner divides by counts that may be 0.
- Floating-point numerics proper are not modelled: `sigmoid`, `safe_log`, `exp` and `sqrt`; the gradient step, momentum and weight update of logistic regression; the forward and backward passes of the layered network; the running mean and standard deviation in `MeanStdvar_Uniform::stat`; `calc_rmse`; and `calc_log_mle`, which calls an undefined `save_log`. Logistic regression's `_update` yields the rates the weights move by, and `_epoch_end` is given the weights the epoch ended with.
- The model files of logistic regression, min-max scaling and the layered network are not modelled. They are plain `fwrite`/`fread` dumps of the buffers.
- `MetaModel_t`'s `init` and `train`, which build the base classifiers and call their own `train`, are not modelled. The classifiers are values whose scores are given.
- `_feature_weight`, the per-feature score tally the tree learner logs when `output_feature_weight` is set (src/models/gbdt.h:580-584, 851, 877-879), is not modelled: it never feeds back into training or prediction.
- The `temp_ssum` and `split_ssum` square sums are carried along but not tracked by the training invariants. `temp_ssum` is never reset (src/models/gbdt.h:193 against 246), so a child's `square_sum` may include stale memory. It only affects scores and so which feature wins, never the partition of rows or the sums the invariants state.
- Uninitialised memory: in the places listed here the C++ reads memory it never wrote, and the model takes that memory as a parameter and proves its statements for every possible content. They are the fresh node table of a tree, the missing feature values of a legacy column (models/gbdt.h:399-405), the `_shrink_times` of logistic regression, the backup buffers of the layered network before the first save (models/mnn.h:222-224), and the stop flag and round of both `IterModel_t` constructors (src/models/iter.h:41-59, models/iter.h:20-35). The other unwritten reads are listed one by one below.
- Readers.TextReader.Set, Readers.TextReader.LoadOne, Readers.FeatureReader.Set and Readers.LegacyFeatureReader.Set: `FArray_t::push_back` assigns into slots that `realloc` left unconstructed (src/include/helper.h:135-140, 183-184). For the record buffers (src/include/fly_data.h:329-330, src/include/fly_core.h:409, fly_core.h:515), `CompactInstance_t::operator=` first frees a garbage `values` pointer (src/include/fly_data.h:157-166). `FArray_t::operator=` reads a garbage `_bnum` and `_l` (src/include/helper.h:115-128). The model stores each parsed record as if the slot had been constructed.
- Readers.TextReader.Set and Readers.FeatureReader.Set: `fgets` reads at most 40959 bytes of a line (`MaxLineLength` 40960, src/fly_data.cc:161-164, src/include/fly_core.h:356-358). A longer line becomes several records in C++; here it is one.
- Readers.LegacyFeatureReader.Set: the same 40960-byte `fgets` split (fly_core.h:412-413) is not modelled. The square root of the deviation is a parameter `sqrt`, and `float` rounding is not modelled.
- Measure.ReadResults: `fgets` into `char line[1024]` (auc.cc:13-15) splits a line longer than 1023 bytes into several; here a line is read whole.
- Logging, `Timer`, `decision_info`, the static error counters of `KNNModel_t::predict` and progress output are not modelled.
- The command-line drivers (fly.cc, src/fly.cc, the `argv` handling of tools/test_gbdt.cc, tools/binary_feature_less.cc), the Python tools and bindings, src/models/linear.h, models/logit.h and models/logit_cg.h are not part of this model.
- `size_t` counters are unbounded naturals: wrap-around past 2^64 cannot happen in any run of the program.
- Readers.LegacyFeatureReader.Percentage and IterTrain.EpochLoss: a division by an empty reader's size is `None` here. In C++ it is a division by zero, undefined for integers and infinity or NaN for floating point.
- GbdtModel.Gbdt.ReadModel: a malformed or short stream is undefined in C++ and refused here, leaving the model unchanged.
- GbdtModel.Gbdt.ReadModel: the model read is not checked to be `Ready()`, the condition prediction needs. A file whose split nodes name children outside the tree or a negative feature makes the C++ walk read out of bounds. `Predict` and `PredictAndGetLeaves` require `Ready()`. `RebuildTree` establishes it for a trained model, through `FitTreesWalkable`, and `LoadInvertsModelFile` shows it survives the write/read round trip. A file written by anything else is not checked.
- GbdtModel.Gbdt.PredictAndGetLeaves, GbdtModel.Gbdt.Predict and GbdtModel.FillBuffer: they require non-negative feature indices. A negative index writes before the buffer, which C++ leaves undefined.
- GbdtModel.Gbdt.PredictAndGetLeaves: the first buffer it allocates is leaked (src/models/gbdt.h:473). Memory is not modelled.
- LegacyGbdt.LegacyModel.ReadModel: a malformed or short stream is undefined in C++ and refused here. The source also allocates new trees and leaks the old ones, and memory is not modelled.
- LegacyGbdt.LegacyModel.Predict: it requires `Walkable()`, which `ReadModel` does not check on a file's trees, as for the current revision.
- LegacyGbdt.GrownTreeWalkable: the lemma shows that a tree whose nodes from layer `layer_num` on carry no feature is walkable. The legacy `train` driver's memcpy of the jobs and its layer loop are modelled by their steps, not composed into one method. So the lemma's premise for a trained tree is argued from those steps rather than proved end to end.
- Meta.MetaModel.ReadModel: a malformed or short stream is undefined in C++ and refused here. So is a class count above the classifiers built: models/meta.h:142-147 then reads into classifiers past the end of the table.
- TextItems.ReadBinary: a malformed or short stream is undefined in C++ and is `None` here.
- Buffers.FArray.Read and Buffers.LegacyFArray.Read: a malformed or short stream is undefined in C++ and is refused here (`!ok`), leaving the buffer unchanged.
- Buffers.LegacyFArray.Assign and FlyMath.Param.Assign: each leaks the buffer the object held before. Memory is not modelled.
- Mnn.MultiNN.Init: it requires `layer_num >= 1`. With no layer, models/mnn.h:233 writes the last output count before the table. It also requires `layer_width >= 0`: a negative width wraps to a number near 2^64 in the `size_t` field (models/mnn.h:86), and with two or more layers the allocation of the layers then fails, which is not modelled. `_release` on the pointers the constructor leaves uninitialised (models/mnn.h:19-26, 151-176) is not modelled either.
- IterTrain.IterModel.SetupJobs: it requires `thread_num >= 1`. With 0 threads, src/models/iter.h:120-139 allocates a table of -1 updatables.
- Knn.Distance, Knn.CalcDist, Knn.Scan and Knn.KnnModel.Predict: an index outside the 1000 slots of `_calc_dist` makes the C++ write past its buffer (models/knn.h:121-127), which is undefined behaviour. The model refuses such records: the distance is `None` and the prediction fails. Its statements hold for records whose indices fall inside the slots.
- Knn.KnnModel.Predict: when several kept records are equally far, `std::priority_queue` pops one of them, and the standard does not say which. The model pops the first, so the vote over the kept labels is proved for that choice.
- LegacyGbdt.UpdateResiduals: a node id that wrapped to a negative `short` (`layer_num >= 15`, see `LegacyGbdt.ShortNodeWrapsAtLayer15`) reads a mean from memory before the table (models/gbdt.h:646). The model takes that value as the parameter `stray`; a crash on that read is not modelled.
- LegacyScan.ScanEntry, LegacyScan.ScanColumn and LegacyScan.Worker: they require every sampled row's node id to lie inside the job's tree. With `layer_num >= 16`, the scan of layer 15 meets the negative ids of `LegacyGbdt.ShortNodeWrapsAtLayer15` (models/gbdt.h:162), and models/gbdt.h:172-197 reads and writes a node before the table. C++ leaves that undefined, and the model refuses it.
- LegacyGbdt.WinnerIsEarliest: the winning node beats every earlier selected node that carries a feature and a score other than NaN. A NaN score compares false both ways, so an earlier NaN node is neither beaten nor beating, and the lemma leaves it out.

## Findings

| source | as written | input that shows it | evidently intended | confidence | as-written member | corrected member |
|---|---|---|---|---|---|---|
| src/models/gbdt.h:62-78, 270-276 | `TreeNode_t::init` resets the counts, sums and split but not `split_sum`, so a committed node whose scan finds no cut gives its right child `sum - split_sum` with the stale `split_sum` | a node of two rows of equal value summing 3, in a slot whose `split_sum` held 5: the right child gets -2 | `init` zeroes `split_sum`, and the right child gets 3 | not executed | GbdtWorker.StaleSplitSumAsWritten | GbdtNode.Init |
| src/models/gbdt.h:116, 124-127 | `SmallTreeNode_t::fidx` is a `short`, so a feature index of 32768 or more wraps | a split on feature 65535 becomes a leaf (`fidx == -1`); one on feature 32768 splits on feature -32768 | the compact node keeps the whole feature index | not executed | GbdtModel.ShortFidxLosesSplits | GbdtModel.CompactTrees |
| src/models/gbdt.h:134, 858-862 | `ItemInfo_t::in_which_node` is a 14-bit field, so a node id of 16384 or more wraps | a row of node 8192 (layer 13) that goes right belongs in node 16386 of layer 14; the field keeps 2, a node of layer 1 | the row's node id is kept whole | not executed | GbdtTrain.NodeIdWrapsAtLayer14 | GbdtGrow.MoveRows |
| src/include/helper.h:104-113 | the copy constructor assigns `_l` only when the source's capacity is positive, and release frees `_l` | copying a buffer that never grew, then destroying the copy, frees an unassigned pointer | the copy of an empty buffer holds a null pointer | not executed | Buffers.EmptyCopyFreesWild | Buffers.CopyReleasesOwnBuffer |
| src/include/fly_math.h:154-162, 172-180 | `sparse_dot` checks only `index < n` | the pair `-1:2` against one weight reads `theta[-1]` | an index below 0 names no weight and adds nothing | not executed | FlyMath.NegativeIndexPassesGuard | FlyMath.SparseDot |
| src/models/uniform.h:149 | `uniform` checks only `index < dim` | the pair `-1:5` with a one-dimension scaler reads the bounds at -1 | an index below 0 has no bounds and keeps its value | not executed | Uniform.NegativeIndexScaled | Uniform.MeanStdvarUniform.Apply |
| src/models/logit.h:225-228 | `_update` checks only `index < _theta_num` | the pair `-1:x` passes the guard and moves `_theta[-1]` | an index below 0 names no weight and is skipped | not executed | Logit.NegativeIndexAdmitted | Logit.LogisticRegression.Update |
| src/models/logit.h:33-70, 301-308, 331-335 | `_shrink_times` is never set before training, so it starts with whatever memory held | a count of 7 with `shrink_limit` 3 stops training at the first shrink | the count starts at 0 and training stops once the shrinks of this run pass `shrink_limit` | not executed | Logit.StaleShrinkCountStops | Logit.ResetCountStopsAtLimit |
| models/mnn.h:37-46, 236-242 | `predict` reads weight slot `in` for every output, while `_ref_theta` trains slot `in * out_num + out` | with two outputs, output 1 reads the weight trained for output 0 at input 0 | every output reads its own weights, as `_ref_theta` lays them out | not executed | Mnn.OutputsShareWeights | Mnn.UnitSumReadsOwnWeights |
| models/mnn.h:96-102 | `_epoch_begin` saves the net, and `_train_end` recovers that backup, so training ends on the net the last epoch started from | a last epoch that lowers the loss to beat from 1.0 to 0.5 by moving a weight from 0.0 to 1.0: training ends with the weight at 0.0 | training ends with the weights of the last accepted epoch; a rejected epoch is already rolled back by `_epoch_end` | not executed; the recovery may be deliberate, but it throws away an epoch `_epoch_end` accepted | Mnn.AcceptedLastEpochLost | Mnn.EpochsKeepLastAccepted |
