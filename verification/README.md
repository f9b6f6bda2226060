# rstorch core, modelled in Dafny

A model of the data pipeline and module protocol of `rstorch`, a small
PyTorch-like machine-learning library written in Rust. The project covers:

- the `Dataset` trait and its combinators (`Basic`, `Chain`, `Subset`,
  `Transform`, `Shuffler`), as one recursive `Dataset` datatype with total
  `Get`, `Len`, `IsEmpty` and `Iter` functions (`datasets.dfy`);
- the samplers (`SequentialSampler`, `RandomSampler` and its iterator), with
  the random generator replaced by the draws and permutations it would
  produce, passed in as parameters (`samplers.dfy`);
- `DataLoader` with its private `Shuffle` wrapper, the generic batch
  iterator (`next`, `next_back`, `size_hint`, `count`) and the array batch
  iterator (`iter_array`) that stacks samples along a new leading axis
  (`loader.dfy`);
- the crate's iterator extensions `all_default`, `any_default`,
  `ArrayChunks` and `OptionFilter`, with iterators taken as sequences
  (`iterators.dfy`);
- the IDX binary format read by the MNIST loader: big-endian `u32` words,
  the magic-number split, the element type table, shape words, element
  chunking and the final reshape, plus the resource-name stem. An encoder
  is added as the decoder's partner, so that round trips can be stated
  (`idx.dfy`);
- the `Module` protocol for `Identity`, `ReLU` (with its cached input) and
  `Sequential` (`layers.dfy`), over matrices that keep their column count
  even when they have no rows; the `SafeModule` typestate machine
  (`safe_module.dfy`); `ParameterIterator` (`parameters.dfy`);
- the helpers `normalize_zero_max`, `flatten`, `one_hot` and `argmax`
  (`utils.dfy`).

Shared sequence and arithmetic facts live in `base.dfy`. The crate's unit
tests are restated as lemmas in the `*_examples.dfy` files.

Every operation is a pure function over immutable values. An iterator is
the sequence it has not yet yielded, and each `next` returns the item
together with the rest. The loader's pulls read the dataset through its
`get`, passed as a function (`Getter(d)` for a dataset `d`). Where the Rust code panics, the model either
returns an explicit outcome (`Option`, `Result`, `Pull.Panic`,
`Outcome.Panic`, `Started.Diverges`) or, for an index past the end of a
`Vec`, states the bound as a `requires`.

The generic batch iterator takes each draw with `unwrap`
(`src/data/data_loader.rs:90`), so a sampler that runs out mid-batch
panics. The surrounding code points the other way: `size_hint` and
`count` floor-divide by the batch size, dropping the partial last batch,
and the array iterator ends on exhaustion with `?`. The model keeps the
panicking code and adds the corrected pull next to it; see Findings.

## Model

| member | source | states |
|---|---|---|
| Datasets.GetDefinedBelowLen | src/data/dataset/mod.rs:18-19 | Any dataset built through the constructors answers `get(i)` with `Some` exactly when `i < len()`. This holds through every combinator: chain, subset, transform and shuffler. |
| Datasets.IsEmptyIffLenZero | src/data/dataset/mod.rs:22-24 | Every combinator's `is_empty` override agrees with the trait default `len() == 0`. |
| Datasets.IterAgreesWithGet | src/data/dataset/basic.rs:53-74 | On a well-formed dataset, `iter()` yields exactly `len()` items, and item `i` is what `get(i)` returns. |
| Datasets.FromIterWithTargets | src/data/dataset/basic.rs:32-38 | Pairs inputs and targets by position. The length is the shorter of the two inputs, item `i` is `(input[i], targets[i])`, and every index past the end gives `None`. |
| Datasets.NewWithTargets | src/data/dataset/basic.rs:19-28 | Gives a dataset exactly when the two lengths are equal; the failing length assertion is `None`. Item `i` is then the `i`-th pair. |
| Datasets.MakeSubset | src/data/dataset/subset.rs:12-17 | Construction succeeds exactly when every index is below the inner length. The subset then has one item per index (duplicates included) and keeps the `get`/`len` invariant. The older copy in `src/data/subset.rs` (lines 13-18) performs the same check. |
| Datasets.SubsetContract | src/data/dataset/subset.rs:24-36 | Over indices that `Subset::new` accepts, the subset keeps the dataset invariant. Its iteration yields exactly one inner item per index, the one at that index, in index order and with repeated indices repeated. The older copy in `src/data/subset.rs` (lines 24-32) does the same. |
| Datasets.ChainContract | src/data/dataset/chain.rs:24-52 | `get` goes to `a` below `a.len()` and to `b` at `i - a.len()` above it. `len` is the sum, `is_empty` holds exactly when both parts are empty, and `iter` is `a`'s items then `b`'s. The older copy in `src/data/chain.rs` (lines 21-46) does the same. |
| Datasets.TransformContract | src/data/dataset/transform.rs:24-48 | Over a well-formed dataset, a `Transform` keeps the dataset invariant and is defined exactly below the inner length. Its iteration yields `f` of each inner `get`, in order, and it is empty exactly when the inner length is 0. The older copy in `src/data/transform.rs` (lines 21-42) does the same. |
| Datasets.MakeShuffler | src/data/dataset/shuffler.rs:15-20 | Built from a permutation of `0..len`, a shuffler has the inner length and keeps the `get`/`len` invariant. |
| Datasets.Reshuffle | src/data/dataset/shuffler.rs:23-25 | Rearranging the index vector keeps the same inner dataset, the same length and the invariant. |
| Datasets.ShufflerIterIsPermutation | src/data/dataset/shuffler.rs:56-86 | Iterating a shuffler yields every inner item exactly once, as a multiset. |
| Datasets.GatherComplete | src/data/dataset/subset.rs:48-56 | When every index hits, an index iterator yields one item per index, and item `k` is `get(indices[k])`. |
| Datasets.GatherBackIsReverse | src/data/dataset/subset.rs:58-63 | Driving the index iterator with `next_back` yields the forward items reversed; the shuffler's iterator (`src/data/dataset/shuffler.rs`, lines 66-71) is the same. |
| Datasets.IndexIterExact | src/data/dataset/subset.rs:44-56 | With indices that passed the constructor, `size_hint` is exact. At zero, `next` is `None`; otherwise `next` yields an item and lowers the hint by one. |
| DatasetExamples.BasicExample | src/data/dataset/mod.rs:92-103 | Over `-50..50`, `get(40)` is `-10`, `get(100)` is `None`, and iteration is the range. |
| DatasetExamples.TransformExample | src/data/dataset/mod.rs:109-117 | `abs` over `-50..50`: `get(0)` is `50`, and iteration is `(1..=50).rev()` then `0..50`. |
| DatasetExamples.SubsetExample | src/data/dataset/mod.rs:119-127 | Indices `[1, 3, 4, 10]` are accepted, `get(0)` is `-49`, and iteration gives `[-49, -47, -46, -40]`. |
| DatasetExamples.ChainExample | src/data/dataset/mod.rs:129-139 | `-50..0` chained with `0..50`: `get(0)` is `-50`, `get(50)` is `0`, and iteration is `-50..50`. |
| Samplers.SequentialIsRange | src/data/sampler.rs:14-42 | A sequential sampler yields `0..size` in order on every call, whatever the generator. Its `len` is `size`, and `is_empty` holds exactly when `size` is 0. |
| Samplers.IterContract | src/data/sampler.rs:87-143 | `iter()` yields exactly `len()` (that is, `size`) indices, each inside the universe. Drawing with replacement from an empty universe fails (`Uniform::new(0, 0)`). The no-replacement loop runs forever exactly when the universe is empty and `size > 0`. |
| Samplers.SampleWithoutReplacement | src/data/sampler.rs:93-110 | The reshuffling loop builds whole permutations of `0..num_samples` and then a truncated one. Its result equals the functional definition that the lemmas below characterise. |
| Samplers.WithoutReplacementStructure | src/data/sampler.rs:93-110 | The no-replacement vector is the shuffles it used, in order, followed by a prefix of one more shuffle, and it holds exactly `size` indices. |
| Samplers.WithoutReplacementLength | src/data/sampler.rs:93-110 | The no-replacement loop builds exactly `size` indices. |
| Samplers.WithoutReplacementShape | src/data/sampler.rs:93-110 | The no-replacement vector is the whole shuffles in the order they were made, followed by a prefix of one more shuffle. |
| Samplers.WithoutReplacementCounts | src/data/sampler.rs:93-110 | Every index of the universe is drawn `rounds - 1` or `rounds` times, so counts differ by at most one. Nothing outside the universe is drawn. |
| Samplers.WithoutReplacementExactCounts | src/data/sampler.rs:93-110 | When `size` is `k` whole universes, every index is drawn exactly `k` times. |
| Samplers.DrainIsReverse | src/data/sampler.rs:120-126 | The iterator pops from the end, so it yields its vector reversed. `size_hint` is exactly the number of items still to come. |
| Samplers.IterExactCounts | src/data/sampler.rs:87-126 | An iteration of `k * n` draws without replacement from a universe of `n` starts, and yields every index exactly `k` times. |
| Samplers.NoReplacementTenEach | src/data/sampler.rs:222-240 | Without replacement, 100 draws from a universe of 10 give each index exactly 10 times. |
| Samplers.NoReplacementOnceEach | src/data/sampler.rs:208-220 | Without replacement, 100 draws from a universe of 100 give each index exactly once. |
| Loader.New | src/data/data_loader.rs:42-53 | The dataset sits behind a shuffler exactly when `shuffle` is set. The batch size and sampler are kept, the length is the wrapped dataset's, and the `get`/`len` invariant carries over. |
| Loader.ShuffleDelegates | src/data/data_loader.rs:13-31 | `Shuffle` passes `get` and `len` through unchanged. A shuffled wrapper has the wrapped length, answers `get` exactly below it, and holds every wrapped item once. |
| Loader.ShuffleLoader | src/data/data_loader.rs:56-60 | Without a shuffler the loader is untouched. With one, only the order changes: same wrapped dataset, batch size, sampler and length. |
| Loader.Iter | src/data/data_loader.rs:63-66 | `iter` reshuffles, then starts the sampler. The iterator reads the reshuffled dataset with the loader's batch size and has `len(sampler)` draws ahead of it. |
| Loader.IterReshufflesOnlyWhenShuffling | src/data/data_loader.rs:56-66 | A loader built without `shuffle` starts the same iterator whatever order the generator proposes, and is itself unchanged. With `shuffle`, the iterator reads the wrapped data in the new order. |
| Loader.NextYields | src/data/data_loader.rs:88-91 | A generic batch exists exactly when `batch_size` draws remain and all of them hit. It is then `[get(s1), …, get(sB)]` for the next `B` draws, in draw order. |
| Loader.NextStops | src/data/data_loader.rs:88-91 | If a `get` in the batch returns `None`, the whole batch is `None`. The draws up to and including that miss are consumed, and all draws before it hit. |
| Loader.NextPanics | src/data/data_loader.rs:88-91 | As written, a batch panics exactly when the sampler runs out before any draw misses. |
| Loader.NextSpec | src/data/data_loader.rs:88-91 | The three outcomes of a generic `next` together. |
| Loader.NextOfIter | src/data/data_loader.rs:88-91 | On a loader iterator, a batch holds the items the dataset's own iterator gathers over the next `batch_size` draws. |
| Loader.NextBackMirrorsNext | src/data/data_loader.rs:117-121 | `next_back` builds its batch exactly as `next` does, over the draws read from the back. |
| Loader.DrainPanics | src/data/data_loader.rs:88-107 | As written, draining a loader whose draws all hit yields the `count()` full batches and then always panics. |
| Loader.NextOrEnd | src/data/data_loader.rs:88-91 | Corrected `next`: sampler exhaustion gives `None` and never a panic. It agrees with the as-written `next` everywhere else. |
| Loader.SizeHint | src/data/data_loader.rs:95-102 | The hint is exact, with upper bound equal to lower bound. That bound is the number of whole batches the remaining draws fill, so the short remainder is not counted. |
| Loader.Count | src/data/data_loader.rs:105-107 | `count()` is the number of whole batches the remaining draws fill: that many batches fit, one more would not. |
| Loader.DrainOrEndMatchesCount | src/data/data_loader.rs:95-107 | With the correction, draining gives exactly `count()` batches, which is also `size_hint`: the remaining draws floor-divided by the batch size. It never panics. |
| Loader.IterDrain | src/data/data_loader.rs:88-107 | On a loader iterator whose draws all hit: as written, draining gives `count()` batches and then panics. Corrected, it gives exactly the `size_hint` batches and ends. |
| Loader.DrainOrEndItems | src/data/data_loader.rs:88-107 | With the correction, the concatenated batches are the items of the draws in order, with the short remainder dropped. |
| Loader.Append | src/data/data_loader.rs:172-177 | `append` along the batch axis succeeds exactly when the new item has the stacked rows' shape, and then adds it as the last row. |
| Loader.AppendRowsYields | src/data/data_loader.rs:169-178 | The `1..batch_size` loop completes exactly when enough draws remain and each one hits with matching shapes. It then appends their samples and targets in draw order. |
| Loader.AppendRowsStops | src/data/data_loader.rs:169-178 | Otherwise the loop returns `None` (never a panic), because of a short sampler, a miss or a shape mismatch. |
| Loader.ArrayNextYields | src/data/data_loader.rs:165-180 | An array batch never panics. It exists exactly when the draws for one row and `batch_size - 1` more remain, all hit and all match the first item's shapes. |
| Loader.ArrayNextRows | src/data/data_loader.rs:165-180 | An array batch stacks the drawn samples and targets in draw order: `batch_size` rows, and one row when `batch_size` is 0. |
| Loader.ArrayNextSpec | src/data/data_loader.rs:165-180 | Both halves of the array batch contract together. |
| Loader.ArrayNextStops | src/data/data_loader.rs:166-177 | When an array batch is `None`, the draws it consumed run up to the draw that failed. |
| Loader.ArrayNextBackSpec | src/data/data_loader.rs:194-209 | `next_back` on the array iterator never panics. It yields a batch exactly when the draws read from the back are batchable: enough of them remain, all hit, and all share the shapes of the last one. A batch stacks the items of the last draws, last first, and leaves the draws before them. A `None` leaves only a front part of the draws. |
| LoaderExamples.BasicIterExample | src/data/data_loader.rs:280-287 | Over `5..500` with batch size 32 and a sequential sampler, the first batch is `5..37`. As written, draining gives 15 batches and then panics. Corrected, it gives 15 batches and ends. |
| LoaderExamples.IterArrayExample | src/data/data_loader.rs:303-315 | The first array batch of the test dataset stacks the samples and targets of items `0..32`, in order. |
| LoaderExamples.ZeroBatchArrayExample | src/data/data_loader.rs:169 | With batch size 0 the loop `1..0` does not run, so the batch is the first item alone. |
| Iterators.TryFoldAll | src/iterator.rs:6-22 | The `all_default` fold breaks just after the first item that fails `f`, at the position the reference `FirstWhere` finds. Otherwise it consumes everything and continues with `true`, or with the start value when there are no items. |
| Iterators.TryFoldAny | src/iterator.rs:25-41 | The `any_default` fold breaks just after the first item that satisfies `f`. Otherwise it consumes everything and continues with `false`, or with the start value when there are no items. |
| Iterators.AllDefaultSpec | src/iterator.rs:6-22 | `all_default` is `default` on an empty iterator, and otherwise true exactly when every item satisfies `f`. It stops consuming just after the first item that fails. |
| Iterators.AnyDefaultSpec | src/iterator.rs:25-41 | `any_default` is `default` on an empty iterator, and otherwise true exactly when some item satisfies `f`. It stops consuming just after the first item that satisfies it. |
| Iterators.ChunkNextSpec | src/iterator.rs:78-84 | `next` yields the next `N` items as one chunk when at least `N` remain. Otherwise it is `None` and the inner iterator is exhausted. |
| Iterators.ChunkNextBackSpec | src/iterator.rs:100-106 | `next_back` yields the last `N` items, last first, when at least `N` remain. Otherwise it is `None`. |
| Iterators.ChunkCount | src/iterator.rs:94-96 | `count()` is the number of whole chunks of `N` the inner items fill: that many fit, one more would not. |
| Iterators.ChunkDrainSpec | src/iterator.rs:87-96 | Draining gives `count()` chunks of exactly `N` items, matching `size_hint`: the inner count floor-divided by `N`. Concatenated, they are the input minus its short remainder. |
| Iterators.FilterNextSpec | src/iterator.rs:132-139 | `next` yields the first item whose predicate is `Some(true)` and leaves what follows it. When there is none, it returns `None` and consumes everything. |
| Iterators.FilterNextShrinks | src/iterator.rs:132-139 | Every `next` consumes at least one item when it yields, so the filter always terminates. |
| Iterators.FilterDrainSpec | src/iterator.rs:132-146 | Draining yields exactly the kept items, in input order and with their multiplicities: only kept items, every kept item, nothing added. Their number is within the `(0, upper)` `size_hint`. |
| Iterators.FilterNextBackMirrors | src/iterator.rs:154-161 | `next_back` is `next` over the items read from the back. |
| Idx.ReadInt | src/data/dataset/hub/mnist.rs:209-213 | `read_int` succeeds exactly when four bytes are there. The value is their big-endian reading, and the rest follows; a short read is `Truncated`. |
| Idx.BeValueOfBytes | src/data/dataset/hub/mnist.rs:209-213 | Writing a value that fits in `n` big-endian bytes and reading it back gives the value. |
| Idx.BeBytesOfValue | src/data/dataset/hub/mnist.rs:209-213 | Reading `n` bytes big-endian and writing the value back at width `n` gives the same bytes. |
| Idx.MagicTable | src/data/dataset/hub/mnist.rs:202-207 | The magic codes (u8 8, i8 9, i16 11, i32 12, f32 13, f64 14) identify the element type uniquely, and each width is between 1 and 8 bytes. |
| Idx.MagicSplit | src/data/dataset/hub/mnist.rs:221-223 | A magic word built from a type code and a rank below 256 splits back into the rank (`% 256`) and the type code (`/ 256`), and fits in a `u32`. |
| Idx.DecodeEncodeElem | src/data/dataset/hub/mnist.rs:194-197 | Any in-range element written as `Width` big-endian bytes decodes back to itself, in two's complement for the signed types. |
| Idx.EncodeDecodeElem | src/data/dataset/hub/mnist.rs:194-197 | Any chunk of `Width` bytes decodes to an in-range element that re-encodes to the same chunk. |
| Idx.ReadShapeSpec | src/data/dataset/hub/mnist.rs:227-230 | Reading the shape succeeds exactly when `4N` bytes are there. It gives the `N` big-endian words in order and leaves the rest; a short read is `Truncated`. |
| Idx.ReadShapeOfWords | src/data/dataset/hub/mnist.rs:227-230 | Reading the shape back from the encoding of `u32` words gives those words and the bytes after them. |
| Idx.DecodeAllSpec | src/data/dataset/hub/mnist.rs:232-240 | The payload decodes exactly when its length is a multiple of the element width. Element `k` is chunk `k` decoded, and a short trailing chunk is `PartialElement`. |
| Idx.DecodeAllOfElems | src/data/dataset/hub/mnist.rs:232-240 | Decoding the encoding of in-range elements gives them back. |
| Idx.ParseErrors | src/data/dataset/hub/mnist.rs:221-242 | The failures fire in the source's order: short magic word, then wrong rank (reported with the rank found), then wrong type code, then short shape. With the header intact, a partial trailing element is reported exactly when the payload length is not a multiple of the width. |
| Idx.ParseOfEncode | src/data/dataset/hub/mnist.rs:215-243 | Any tensor an IDX file can hold, once encoded, is read back by `read_sn3` as exactly that tensor. |
| Idx.EncodeOfParse | src/data/dataset/hub/mnist.rs:215-243 | Whatever `read_sn3` accepts re-encodes to the same bytes, so the decoder loses nothing. The result has rank `N` and holds in-range elements. |
| Idx.LabelAndImageFiles | src/data/dataset/hub/mnist.rs:245-251 | A label file that decodes is 1-D `u8` data whose elements are the bytes after the 8-byte header. An image file that decodes is 3-D, with elements after the 16-byte header. |
| Idx.U8Bytes | src/data/dataset/hub/mnist.rs:202 | A `u8` element is encoded as its own byte. |
| Idx.StemSpec | src/data/dataset/hub/mnist.rs:134-138 | The stored file name is a prefix of the resource name with no `.` in it. It is the whole name exactly when the name has no `.`, and otherwise stops at a `.`. |
| Idx.StemUnique | src/data/dataset/hub/mnist.rs:134-138 | The properties above determine the stem: it is the part before the first `.`. |
| Idx.StemOfDotted | src/data/dataset/hub/mnist.rs:134-138 | A dot-free base name followed by `.` and any extension stems to the base name. |
| IdxExamples.LabelFileExample | src/data/dataset/hub/mnist.rs:245-251 | An 11-byte label file of three labels reads as shape `[3]` with elements `7, 2, 1`. Read as an image file, it fails on the rank. |
| IdxExamples.ShapeMismatchExample | src/data/dataset/hub/mnist.rs:242 | A label file that announces two labels but holds three fails the final reshape. |
| IdxExamples.ResourceStems | src/data/dataset/hub/mnist.rs:28-43 | The gzipped MNIST resources are stored under their names without `.gz`. |
| Layers.NewReLU | src/module/activation/relu.rs:10-12 | A new `ReLU` has nothing cached. |
| Layers.LayerForward | src/module/activation/relu.rs:16-19 | `forward` keeps the shape of its input and the kind of the layer. |
| Layers.LayerBackward | src/module/activation/relu.rs:21-23 | A `backward` that does not panic keeps the gradient's shape, width included, and leaves the layer with its cache consumed. |
| Layers.ReluProtocol | src/module/activation/relu.rs:16-23 | `ReLU` forward caches its input and outputs `max(x, 0)` elementwise. A following backward with a gradient of the cached shape gives the gradient times the mask of positive inputs and clears the cache. A gradient of any other shape panics, including a differing width on zero rows. `backward` without a prior `forward` panics. `Identity` passes both directions through unchanged. |
| Layers.ForwardAll | src/module/sequential.rs:71-75 | Folding the input through the layers keeps one layer per layer and the input's shape. |
| Layers.BackwardAll | src/module/sequential.rs:78-83 | Folding the gradient through the layers in reverse keeps one layer per layer and the gradient's shape when nothing panics. |
| Layers.ForwardConcat | src/module/sequential.rs:71-75 | `forward` through `a + b` is `forward` through `a`, then through `b`: the fold is in list order. |
| Layers.BackwardConcat | src/module/sequential.rs:78-83 | `backward` through `a + b` is `backward` through `b`, then through `a`: the fold is in reverse order. |
| Layers.ForwardThenBackward | src/module/sequential.rs:71-83 | A forward pass followed by a backward pass with a gradient of the input's `(rows, cols)` shape never panics. It leaves every cache cleared, and it zeroes exactly the gradient entries whose input was not positive when some `ReLU` is in the chain. |
| Layers.SingletonChain | src/module/sequential.rs:71-83 | A one-layer `Sequential` behaves as its layer, both forward and backward. |
| Layers.IsEmpty | src/module/sequential.rs:27-34 | `is_empty` holds exactly when `len` is 0. |
| Layers.Push | src/module/sequential.rs:17-19 | `push` (and `push_box`, lines 45-47) appends the layer at the end, keeps the others and grows `len` by one. |
| Layers.Insert | src/module/sequential.rs:22-24 | `insert` (and `insert_box`, lines 50-52) places the layer at `index`, keeps the layers before it and shifts the later ones up by one. |
| Layers.Remove | src/module/sequential.rs:37-42 | `remove` is `None` with nothing changed when `index >= len`. Otherwise it returns that layer and keeps the rest in order. |
| Layers.InsertRemove | src/module/sequential.rs:22-42 | `insert` and `remove` at the same index undo each other. |
| Layers.PushRemove | src/module/sequential.rs:17-42 | `push` is `insert` at the end, so removing the last layer undoes it. |
| Layers.Forward | src/module/mod.rs:19-20 | `forward` on a `Sequential` keeps its layer count and the batch shape. |
| Layers.Backward | src/module/mod.rs:21-22 | `backward` on a `Sequential` keeps its layer count and the gradient's shape when it does not panic. |
| Layers.TrainAll | src/module/sequential.rs:86-89 | `train` is applied to every layer, and since each layer's `train` is the trait's no-op the container comes back unchanged. |
| Layers.EvalAll | src/module/sequential.rs:91-94 | `eval` is applied to every layer, and since each layer's `eval` is the trait's no-op the container comes back unchanged. |
| LayerExamples.ReluExample | src/module/activation/relu.rs:30-49 | The `ReLU` tests: forward of `[[1, 2], [3, -4], [-5, -6]]` is `[[1, 2], [3, 0], [0, 0]]`. Backward with ones then gives the mask `[[1, 1], [1, 0], [0, 0]]` and clears the cache. |
| LayerExamples.IdentityExample | src/module/activation/identity.rs:15-25 | `Identity` returns its input and its gradient unchanged, and needs no prior `forward`. |
| LayerExamples.ZeroRowWidthMismatch | src/module/activation/relu.rs:21-23 | After `forward` on a `(0, 5)` input, `backward` with a `(0, 3)` gradient panics, because `gradient * mask` cannot broadcast. A `(0, 5)` gradient goes through. |
| SafeModules.New | src/module/safe_module.rs:50-56 | A new safe module is in the `Forward` state and `Train` mode, and `into_inner` gives back the module. |
| SafeModules.SafeForward | src/module/safe_module.rs:61-65 | Allowed only in `Forward`. It returns the inner module's output, moves to `Backward` and keeps the mode. |
| SafeModules.SafeBackward | src/module/safe_module.rs:70-74 | Allowed only in `Backward`. It returns the inner module's gradient (or its panic), moves to `Forward` and keeps the mode. |
| SafeModules.SafeEval | src/module/safe_module.rs:78-81 | Allowed only in `Train`. It runs the inner `eval`, moves to `Evaluation` and keeps the state. |
| SafeModules.SafeTrain | src/module/safe_module.rs:85-88 | Allowed only in `Evaluation`. It runs the inner `train`, moves to `Train` and keeps the state. |
| SafeModules.ModeRoundTrip | src/module/safe_module.rs:24-46 | `eval` followed by `train` gives back the very module that went in, state included. |
| SafeModules.AllowedIffAlternating | src/module/safe_module.rs:59-88 | A call sequence is accepted exactly when its `forward`/`backward` calls strictly alternate, starting with the one the state allows. Likewise its `eval`/`train` calls alternate, starting with the one the mode allows. |
| SafeModules.ReplayReaches | src/module/safe_module.rs:59-88 | Every call of an allowed sequence, replayed through `forward`, `backward`, `eval` and `train`, finds its method available. Unless a `backward` panics, the run ends in the state given by the parity of the pass count and in the mode given by the parity of the switch count. |
| LayerExamples.SafeModuleExample | src/module/safe_module.rs:124-136 | The `SafeModule` tests: forward then backward on `safe!(ReLU())` succeeds, and `eval` then `train` is accepted. Two forwards in a row are not. |
| Parameters.New | src/module/iterator.rs:11-13 | `new` (and `default`, lines 26-28) holds no pairs. |
| Parameters.Add | src/module/iterator.rs:17-20 | `add` appends exactly one `(weight, gradient)` pair at the end and keeps the earlier ones. |
| Parameters.AddAllAppends | src/module/iterator.rs:17-20 | Chaining `add` over a list of pairs appends exactly that list, in order, after the pairs already present. |
| Parameters.AddAllInOrder | src/module/iterator.rs:17-48 | Chained `add` calls iterate in insertion order, after the pairs already present. Building with `add` agrees with `from_iter`, and `into_iter` of `from_iter` gives back the pairs, none lost, duplicated or reordered. |
| Utils.NormalizeZeroMax | src/utils.rs:20-28 | It fails (the `min().unwrap()` panic) exactly on an empty array, and otherwise keeps the element count. |
| Utils.NormalizeZeroMaxSpec | src/utils.rs:20-28 | The result is never negative, some element is 0, and every pairwise difference between elements is kept, so the order is preserved. Normalising again changes nothing. |
| Utils.FlattenRowMajor | src/utils.rs:30-35 | Flattening a `rows × cols` array yields `rows * cols` elements, with element `(i, j)` at `i * cols + j`. |
| Utils.OneHot | src/utils.rs:38-42 | `one_hot(x, n)` has length `n`; `argmax` recovers `x` from it. |
| Utils.Best | src/utils.rs:47-50 | The `reduce` keeps the index of a maximal element, and every element before it is strictly smaller. |
| Utils.ArgmaxLane | src/utils.rs:45-51 | One lane is `None` exactly when it is empty, and otherwise gives an index inside it. |
| Utils.ArgmaxLaneSpec | src/utils.rs:44-51 | The lane result is the first position holding the greatest value. |
| Utils.Argmax | src/utils.rs:44-53 | `argmax` is `None` exactly when some lane is empty. Otherwise it has one index per lane, each that lane's result. |
| Utils.ArgmaxOneHot | src/utils.rs:38-53 | `argmax` undoes `one_hot`: the single 1.0 is the unique greatest element. |
| Utils.ArgmaxTieExample | src/utils.rs:49 | On a tie the earlier index wins, because the comparison is strict. One empty lane makes the whole result `None`. |

## Left out

- `Linear`, `Softmax`, `CrossEntropyLoss`, `SGD`, the weight initialisers, `accuracy` and `normalize_zero_one`: floating-point numerics (matrix products, `exp`, `ln`, `sqrt`) and random initialisation.
- `param_and_grad` on `Module` and the `parameters` plumbing: the snapshot's versions do not agree with one another, and every implementor that has parameters is one of the numeric layers above.
- MNIST `download`, `check_exits`, `load_data` and `MNIST::new`: HTTP, gzip and filesystem access. The decoder reads the file's bytes as an in-memory sequence, and the file-open and read failures are not modelled.
- Random generators (`thread_rng`, `SmallRng`, `Uniform`, `shuffle`): the permutations and uniform draws they would produce are parameters, so every property holds for all of them. Draws with replacement are assumed uniform only in the sense that each is below `num_samples`.
- `Transform` with a different output item type: the model's `Transform` maps `T` to `T`, because one `Dataset<T>` tree cannot hide the inner item type.
- `FnMut` closures (dataset transforms, iterator predicates) are pure functions; closures with side effects are not modelled.
- Machine-width integers: `usize` and `u32` are unbounded naturals. Overflow in `a.len() + b.len()`, in the shape product of `into_shape` and in index arithmetic is not modelled.
- Floats: matrix entries are `real`, so NaN and rounding are not modelled. IDX `f32`/`f64` elements are kept as their raw bit patterns (unsigned integers of the element width).
- The `ndarray` broadcasting rules: `ReLU` backward with a gradient whose shape differs from the cached input is treated as a panic, although ndarray would broadcast some such shapes.
- `Sequential` holds only `Identity` and `ReLU` layers (no nested `Sequential` and no numeric layers). `push_box`/`insert_box` are the same functions as `push`/`insert`.
- `SafeModule`'s `ManuallyDrop`, `PhantomData` and `unsafe` mechanics: only the state and mode machine is modelled. The state and mode are fields checked by `requires` instead of type parameters.
- The array iterator's `size_hint` is the `Iterator` default `(0, None)`. Its `ExactSizeIterator` impl relies on the default `len()`, which asserts that `upper == Some(lower)` and so panics on this hint. That `len()` panic is not modelled, and `FusedIterator` is only a marker impl.
- Loader.SizeHint: the division by a batch size of 0 panics in Rust; the model requires a positive batch size instead.
- Loader.Count: same as `SizeHint`, a positive batch size is required instead of modelling the division panic.
- Iterators.ChunkSizeHint: `N == 0` is a division by zero in Rust, so a positive `N` is required.
- Iterators.ChunkCount: same as `ChunkSizeHint`, a positive `N` is required instead of modelling the division panic.
- Utils.OneHot: indexing past the end panics in Rust, so `x < n` is required.
- Layers.Insert: `Vec::insert` past the end panics in Rust, so `index <= len` is required.
- Utils.NormalizeZeroMax: elements are unbounded integers, so wrap-around or overflow of the subtraction is not modelled.
- Utils.FlattenRowMajor: stated for two-dimensional arrays only; higher dimensions are taken by their elements in logical order.
- Utils.Argmax: takes the lanes that `axis_iter` walks (the rows for `Axis(0)`) rather than an array and an axis.
- Datasets.MakeShuffler: requires the order to be a permutation of `0..len`, which is what the generator's `shuffle` produces.

## Findings

| source | as written | input that shows it | evidently intended | confidence | as-written member | corrected member |
|---|---|---|---|---|---|---|
| src/data/data_loader.rs:88-91 | `DataLoaderIter::next` takes each draw with `self.iter.next().unwrap()`. Once the sampler has fewer than `batch_size` draws left, the call panics instead of returning `None`. | `TestDataset::new(5..500)`, batch size 32, sequential sampler: 15 full batches, then the 16th `next()` panics on the 15 leftover draws, so a `for` loop over the loader never ends normally. `size_hint` and `count` both say 15. | Exhaustion ends the iteration (`?` in place of `unwrap`, as the array iterator does), so a drain yields exactly `count()` batches (Loader.DrainOrEndMatchesCount proves this of the corrected drain). | not executed | Loader.DrainPanics | Loader.NextOrEnd |
