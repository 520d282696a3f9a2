# Time-series cross-validation splits, verified in Dafny

This project models the window and fold generators of the time-series
cross-validation library. The library cuts a sequence `s` into contiguous
pairs of slices: `nIn` consecutive inputs followed at once by `nOut`
outputs, with successive pairs advancing by a jump of `nJ`. It then groups
the pairs into training, validation and (optionally) test sets under
several strategies:

- `split_train` (two near-copies) and `split_train_variableInput`;
- train/validation splits by forward chaining, "k-fold" and grouped 5-fold;
- train/validation/test siblings of those three strategies.

The model follows the source's imperative form. Each Python function is a
Dafny `method` with the source's loops, counters, checks and `break`s;
the k-fold and grouped inner loops are split into parts as described
below. Each method is proved equal to a reference function that names the windows
directly: it lists the window start positions and slices each one
(`Inputs`, `Outputs`). Further lemmas state what the source promises about
those reference functions:

- pair counts in closed form;
- every window is in bounds and has full width;
- folds nest, and which window starts where;
- the two-way and three-way variants relate to each other.

The modules are:

- `Windows` (windows.dfy): the shared slicing and boundary primitives.
  - `PySlice` is Python's clamped slice.
  - `Stride(k, step)` is `k * step` built by repeated addition, so proofs stay linear (`StrideIsProduct`).
  - `Steps` counts the stride steps that fit.
- `SplitTrain` (split_train.dfy): tsxv/splitTrain.py.
- `LegacySplitTrain` (legacy_split_train.dfy): TimeSeriesCrossValidation/splitTrain.py.
- `SplitTrainVal` (split_train_val.dfy): TimeSeriesCrossValidation/splitTrainVal.py.
- `SplitTrainValTest` (split_train_val_test.dfy): TimeSeriesCrossValidation/splitTrainValTest.py.

**Folds.** A Python function that returns dictionaries `X, y, Xcv, ycv[, Xtest, ytest]`
keyed `0..F-1` is modelled as a sequence of fold records. Field `folds[f].X`
is the source's `X[f]`. The keys are always contiguous from 0, so nothing is
lost.

**Grouped loops.** `while 1` bodies with two or three branches are split into
one step method per branch (`GroupTrainStep`, `GroupValStep`,
`GroupTestStep`). Each one returns the new counters and lists and a `done`
flag for the source's `break`. The loop method (`GroupKFoldFold`) calls the
step that `(i + 1 + j) % 5` selects. The phase of step `i` is also defined
step by step (`Phase`), and `PhaseMod` proves that it is the residue the
source tests.

**K-fold inner loops.** The source's inner `while 1` of both k-fold
functions branches on `i != j` and shares the counters `i` and `n` between
its branches. `KFoldAttempt` runs it in three consecutive parts, one per
phase of the counter `i`:

- `TrainLead`: the steps `i < j`. There `endCv` (two-way) or `endTest`
  (three-way) is still 0 and `n == i`, so the step's start
  `endCv + n*nJ` is written `Stride(i, nJ)`; neither `endCv` nor `n` is
  carried.
- Straight-line code for the step `i == j`: the validation pair (and, in
  the three-way version, the test pair checked together with it).
- `TrainFrom`: the steps after the slot, indexed by `n` from 0. Once past
  the slot `i` never equals `j` again, so `i` is not carried; in
  particular the three-way source's extra `i += 1` at the slot
  (TimeSeriesCrossValidation/splitTrainValTest.py:140), which only moves `i` further past `j`, is not
  represented.

**Diagnostics.** A printed diagnostic is modelled as a `tooShort` result flag.

**Where the code and its docstrings disagree, the model follows the code. Some facts about the code worth knowing:**

- The docstrings' index notation is inclusive and off by one (tsxv/splitTrain.py:10-14, 54-58). The model follows the slices in the code.
- The docstring at tsxv/splitTrain.py:70 promises outputs of length `minSamplesTrain + numOutputs + k*numJumps`. The outputs have length `nOut` (`SplitTrain.VariableInputPairs`).
- Only the two functions in tsxv/splitTrain.py check `numInputs + numOutputs <= len` before looping; the functions in TimeSeriesCrossValidation/ do not.
- The k-fold loops, and the `nJ = 0` loops once the first window fits, can run forever (see "Left out").
- The demo call at scripts/testSplit.py:15 (31 samples, 4/3/3) yields 6 forward-chaining folds (`SplitTrainVal.ChainDemoFolds`) and prints folds 0 to 4.

## Model

| member | source | states |
|---|---|---|
| Windows.PySliceExact | tsxv/splitTrain.py:44-46 | A Python slice whose bounds lie inside the sequence is the plain slice, with no clamping. |
| Windows.StrideIsProduct | tsxv/splitTrain.py:37 | `k` strides of `step` cover `k * step` positions, the source's `numJumps*i`. |
| Windows.StepsExact | tsxv/splitTrain.py:36-42 | Step `k` is among the counted steps exactly when `k` strides fit in the room left. |
| Windows.StepsClosedForm | tsxv/splitTrain.py:36-42 | The number of stride steps that fit is `room // step + 1`, or 0 when the room is negative. |
| Windows.PairsExact | tsxv/splitTrain.py:44-47 | An in-bounds pair at `starts[k]` is the `nIn` slice from that start and the `nOut` slice right after it, with full widths; together they are the contiguous `nIn + nOut` slice. |
| SplitTrain.PairCountExact | tsxv/splitTrain.py:36-42 | Pair `k` is emitted iff `k < len` (the `range` bound) and its `nIn + nOut` window starting at `k * nJ` ends by `len`. |
| SplitTrain.PairCountClosedForm | tsxv/splitTrain.py:36-42 | There are never more than `len` pairs. With `nJ >= 1` and a width that fits, the count is `(len - nIn - nOut) // nJ + 1`. |
| SplitTrain.SplitTrainPairs | tsxv/splitTrain.py:36-47 | Pair `k` lies in bounds. `X[k] = s[k*nJ .. k*nJ+nIn]` has length `nIn`, and `y[k]` is the next `nOut` elements. `X[k] + y[k]` is the contiguous slice from `k*nJ`. `X` and `y` have equal length. |
| SplitTrain.SplitTrain | tsxv/splitTrain.py:30-49 | Under the guard the result is two empty lists with the diagnostic flag set, and the flag is set exactly then. Otherwise the result is the reference windows at `0, nJ, 2nJ, ...` for the exact pair count. |
| SplitTrain.VarCountExact | tsxv/splitTrain.py:82-97 | Step `k` of the variable-input loop is emitted iff `m + k*nJ + nOut <= len`. |
| SplitTrain.VarCountClosedForm | tsxv/splitTrain.py:77-97 | Past the guard at least one pair is emitted, and the count is `(len - m - nOut) // nJ + 1`. |
| SplitTrain.VariableInputPairs | tsxv/splitTrain.py:83-91 | `X[k]` is the prefix `s[..m + k*nJ]`, of that length. `y[k]` is the `nOut` elements after it, full length and in bounds. |
| SplitTrain.VariableInputGrows | tsxv/splitTrain.py:83-87 | Each input is `nJ` longer than the previous one and extends it. |
| SplitTrain.VariableInputStep | tsxv/splitTrain.py:83-91 | Step `i` within the count has its output inside the sequence, and appends exactly its prefix and output to the reference lists. |
| SplitTrain.VariableInputCheck | tsxv/splitTrain.py:93-97 | The check after step `i` ends the loop exactly when `i` has reached the pair count. |
| SplitTrain.SplitTrainVariableInput | tsxv/splitTrain.py:74-99 | Under the guard the result is two empty lists with the flag set, and the flag is set exactly then. Otherwise the result is the prefixes and outputs of every step up to the count (emit first, check next). |
| LegacySplitTrain.NoGuardNeeded | TimeSeriesCrossValidation/splitTrain.py:26-32 | Without the guard, a sequence shorter than `nIn + nOut` still yields no pairs: the first check breaks. |
| LegacySplitTrain.SplitTrain | TimeSeriesCrossValidation/splitTrain.py:25-38 | The unguarded loop returns the same reference windows as the guarded `SplitTrain.SplitTrain`, so the two agree on every input. A too-short sequence gives two empty lists. |
| SplitTrainVal.FoldCountExact | TimeSeriesCrossValidation/splitTrainVal.py:48-50 | Fold `f` is emitted iff its validation output, which starts `nIn` after the `(f+2)`-th training input ends, ends by `len`. |
| SplitTrainVal.FoldCountClosedForm | TimeSeriesCrossValidation/splitTrainVal.py:30-50 | The fold count is `max(0, (len - 2*nIn - nOut) // nJ)`. |
| SplitTrainVal.ChainDemoFolds | scripts/testSplit.py:15 | The demo call (31 samples, 4 inputs, 3 outputs, jump 3) gives 6 folds. |
| SplitTrainVal.ChainFoldsNested | TimeSeriesCrossValidation/splitTrainVal.py:36-46 | Fold `f+1` trains on fold `f`'s pairs plus the pair at `(f+2)*nJ`. |
| SplitTrainVal.ChainTrainWindow | TimeSeriesCrossValidation/splitTrainVal.py:36-46 | An emitted fold has `f+2` training pairs. Pair `k` is the in-bounds slice at `k*nJ`. |
| SplitTrainVal.ChainValWindow | TimeSeriesCrossValidation/splitTrainVal.py:49-59 | An emitted fold has one validation pair, in bounds, starting at the end of the last training input. |
| SplitTrainVal.ChainFoldInBounds | TimeSeriesCrossValidation/splitTrainVal.py:36-59 | In an emitted fold, every training and validation window is in bounds and has full width. The validation input starts where the last training input ends, so it is the last training output's positions: the two overlap. |
| SplitTrainVal.ChainTraining | TimeSeriesCrossValidation/splitTrainVal.py:36-46 | The inner loop, slicing before any check with Python's clamping, yields the `j` reference pairs at `k*nJ` and ends at `(j-1)*nJ + nIn`. |
| SplitTrainVal.ForwardChaining | TimeSeriesCrossValidation/splitTrainVal.py:26-69 | The result is exactly the `FoldCount` forward-chaining folds. The first fold whose validation pair does not fit is discarded. |
| SplitTrainVal.KFoldFoldOf | TimeSeriesCrossValidation/splitTrainVal.py:119-132 | A k-fold fold whose validation pair fits has that single in-bounds validation pair. |
| SplitTrainVal.TrainFrom | TimeSeriesCrossValidation/splitTrainVal.py:104-117 | After the validation pair, training resumes at `endCv + n*nJ` with `n` from 0, appending every pair until one would cross the end. |
| SplitTrainVal.TrainLead | TimeSeriesCrossValidation/splitTrainVal.py:104-117 | The training steps before the validation slot take the pairs at `i*nJ`. They report an overrun exactly when fewer than `j` pairs fit, and otherwise end at `(j-1)*nJ + nIn`. |
| SplitTrainVal.KFoldAttempt | TimeSeriesCrossValidation/splitTrainVal.py:96-133 | The inner loop has three exits: a training overrun before the slot (no validation pair, `theEnd` false); a validation overrun (`theEnd`, exactly when the fold number reaches `FoldCount`); or the complete fold `KFoldFold`. |
| SplitTrainVal.KFoldLeadFits | TimeSeriesCrossValidation/splitTrainVal.py:104-112 | With `1 <= nJ <= nIn`, once a fold's validation pair fits, the next fold's leading training pairs all fit. |
| SplitTrainVal.KFold | TimeSeriesCrossValidation/splitTrainVal.py:91-147 | Under the terminating precondition, the folds are exactly the `FoldCount` k-fold folds, keyed 0..F-1. The fold whose validation pair crosses the end is discarded. |
| SplitTrainVal.KFoldExtendsChain | TimeSeriesCrossValidation/splitTrainVal.py:103-133 | A k-fold fold begins with the forward-chaining fold of the same number: the same leading training pairs and the same validation pair. |
| SplitTrainVal.KFoldTailInBounds | TimeSeriesCrossValidation/splitTrainVal.py:104-122 | The `m`-th training pair after validation starts at `endCv + m*nJ`, is in bounds and has full width. |
| SplitTrainVal.KFoldValInBounds | TimeSeriesCrossValidation/splitTrainVal.py:119-132 | Every emitted k-fold fold has one in-bounds validation pair at `(f+1)*nJ + nIn`. |
| SplitTrainVal.PhaseMod | TimeSeriesCrossValidation/splitTrainVal.py:178 | The step-by-step phase of step `i` in fold `j` equals `(i + 1 + j) % 5`, so `IsVal` is the source's test. |
| SplitTrainVal.IsValPeriod | TimeSeriesCrossValidation/splitTrainVal.py:178 | Validation steps recur every 5 steps, with four training steps between them. |
| SplitTrainVal.GroupPeriod | TimeSeriesCrossValidation/splitTrainVal.py:177-207 | Every five steps the window start advances by two inputs and three jumps. |
| SplitTrainVal.GroupGrowth | TimeSeriesCrossValidation/splitTrainVal.py:177-207 | When the windows advance (`nJ + nIn >= 1`), the start of step `i` grows at least once every five steps. |
| SplitTrainVal.GroupStuck | TimeSeriesCrossValidation/splitTrainVal.py:177-207 | With `nJ = nIn = 0` every step starts at 0. |
| SplitTrainVal.GroupBeyond | TimeSeriesCrossValidation/splitTrainVal.py:177-207 | Under the termination condition, two consecutive fitting steps occur only below a fixed bound, so each fold's loop ends. |
| SplitTrainVal.GroupStopFromExact | TimeSeriesCrossValidation/splitTrainVal.py:177-200 | The search returns the first step at or after `i` whose window fails its check. |
| SplitTrainVal.GroupStopExact | TimeSeriesCrossValidation/splitTrainVal.py:177-200 | Every step before the stop passes its check, and the step at the stop fails it. |
| SplitTrainVal.GroupStopAt | TimeSeriesCrossValidation/splitTrainVal.py:177-200 | Up to the stop, step `i` passes its check iff `i` is before the stop. |
| SplitTrainVal.GroupAccStep | TimeSeriesCrossValidation/splitTrainVal.py:188-205 | An in-bounds step appends its two slices to the validation lists or to the training lists, according to its kind, and leaves the other lists unchanged. |
| SplitTrainVal.GroupTrainNext | TimeSeriesCrossValidation/splitTrainVal.py:180-195 | After a training step at `endCv + n*nJ`, the next training step is one jump further. A validation step starts where this training input ends. |
| SplitTrainVal.GroupValNext | TimeSeriesCrossValidation/splitTrainVal.py:194-196 | After a validation step, the next step is training at `endCv + 0*nJ`: `n` has been reset. |
| SplitTrainVal.GroupStartsFrom | TimeSeriesCrossValidation/splitTrainVal.py:177-207 | Every listed start of a kind is the start of an earlier step of that kind. |
| SplitTrainVal.GroupStartFits | TimeSeriesCrossValidation/splitTrainVal.py:184-200 | In a grouped fold, every training output ends by `len - 1` and every validation output by `len`. |
| SplitTrainVal.GroupFoldInBounds | TimeSeriesCrossValidation/splitTrainVal.py:177-213 | Every window of a (possibly partial) grouped fold is the full-width slice at its start, inside those bounds. |
| SplitTrainVal.GroupLoopTrain | TimeSeriesCrossValidation/splitTrainVal.py:179-191 | A fitting training step keeps the loop state: the lists are those of the steps so far, and the next start comes from `endCv`, `n` and `endIx`. |
| SplitTrainVal.GroupLoopVal | TimeSeriesCrossValidation/splitTrainVal.py:193-205 | A fitting validation step keeps the loop state with `n` reset and `endCv` at the end of the validation input. |
| SplitTrainVal.GroupTrainStep | TimeSeriesCrossValidation/splitTrainVal.py:179-191 | A training step either breaks, when its output passes `len - 1`, with the lists equal to the final fold; or appends its pair and keeps the loop state one step later, before the stop. |
| SplitTrainVal.GroupValStep | TimeSeriesCrossValidation/splitTrainVal.py:193-205 | A validation step either breaks, when its output passes `len`, with the final fold; or appends its pair, resets `n` and keeps the loop state. |
| SplitTrainVal.GroupKFoldFold | TimeSeriesCrossValidation/splitTrainVal.py:172-213 | Fold `j`'s loop returns the windows of every step before the first one that fails its check. |
| SplitTrainVal.GroupKFold | TimeSeriesCrossValidation/splitTrainVal.py:168-215 | The result is always exactly five folds, keyed 0..4, each kept even when partial. |
| SplitTrainValTest.TestFoldCountExact | TimeSeriesCrossValidation/splitTrainValTest.py:48-50 | Fold `f` is emitted iff `(f+1)*nJ + 3*nIn + nOut <= len`: the joint validation-and-test check. |
| SplitTrainValTest.TestFoldCountClosedForm | TimeSeriesCrossValidation/splitTrainValTest.py:30-50 | The fold count is `max(0, (len - 3*nIn - nOut) // nJ)`. |
| SplitTrainValTest.TestFoldCountZero | TimeSeriesCrossValidation/splitTrainValTest.py:80-81 | No fold is produced iff `nJ + 3*nIn + nOut > len`. |
| SplitTrainValTest.ChainFoldExtendsTwoWay | TimeSeriesCrossValidation/splitTrainValTest.py:36-59 | A three-way forward-chaining fold is the two-way fold of the same number plus a test pair. |
| SplitTrainValTest.ChainTestWindow | TimeSeriesCrossValidation/splitTrainValTest.py:61-68 | An emitted fold has one in-bounds test pair, starting at the end of the validation input. Every emitted three-way fold is also a two-way fold. |
| SplitTrainValTest.ChainFoldInBounds | TimeSeriesCrossValidation/splitTrainValTest.py:36-68 | An emitted fold has `f+2` training pairs at `k*nJ`, one validation pair at the end of the last training input, and one test pair after it, all in bounds and full width. |
| SplitTrainValTest.ForwardChaining | TimeSeriesCrossValidation/splitTrainValTest.py:26-83 | The result is exactly the `TestFoldCount` folds. The diagnostic flag is set iff there are no folds, iff `nJ + 3*nIn + nOut > len`. |
| SplitTrainValTest.KFoldFoldOf | TimeSeriesCrossValidation/splitTrainValTest.py:142-158 | A fold whose test pair fits has a single in-bounds validation pair followed by a single in-bounds test pair. |
| SplitTrainValTest.KFoldAttempt | TimeSeriesCrossValidation/splitTrainValTest.py:117-160 | The inner loop has three exits: a training overrun before the slot; the joint validation/test overrun (`theEnd`, exactly at `TestFoldCount`); or the complete fold. |
| SplitTrainValTest.KFoldLeadFits | TimeSeriesCrossValidation/splitTrainValTest.py:118-126 | With `1 <= nJ <= 2*nIn`, once a fold's test pair fits, the next fold's leading training pairs fit. |
| SplitTrainValTest.KFold | TimeSeriesCrossValidation/splitTrainValTest.py:105-179 | Under the terminating precondition, the result is exactly the `TestFoldCount` k-fold folds. The flag is set iff there are none. |
| SplitTrainValTest.KFoldExtendsChain | TimeSeriesCrossValidation/splitTrainValTest.py:117-160 | A three-way k-fold fold begins with the three-way forward-chaining fold of the same number: the same leading training, validation and test pairs. |
| SplitTrainValTest.KFoldTailInBounds | TimeSeriesCrossValidation/splitTrainValTest.py:117-160 | The `m`-th training pair after the test pair starts at `endTest + m*nJ`, is in bounds and has full width. |
| SplitTrainValTest.SlotPeriod | TimeSeriesCrossValidation/splitTrainValTest.py:211-255 | A validation step is followed by its test step, then three training steps, then the next validation step. |
| SplitTrainValTest.GroupBlock | TimeSeriesCrossValidation/splitTrainValTest.py:226-253 | The test pair starts where the validation input ends, and training resumes where the test input ends. |
| SplitTrainValTest.GroupPeriod | TimeSeriesCrossValidation/splitTrainValTest.py:210-255 | From step 1 on, every five steps the window start advances by three inputs and two jumps. |
| SplitTrainValTest.GroupGrowth | TimeSeriesCrossValidation/splitTrainValTest.py:210-255 | When the windows advance, the start of step `i` grows at least once every five steps. |
| SplitTrainValTest.GroupStuck | TimeSeriesCrossValidation/splitTrainValTest.py:210-255 | With `nJ = nIn = 0` every step starts at 0. |
| SplitTrainValTest.GroupBeyond | TimeSeriesCrossValidation/splitTrainValTest.py:210-255 | Under the termination condition, a fitting step lies below a fixed bound, so each fold's loop ends. |
| SplitTrainValTest.GroupStopFromExact | TimeSeriesCrossValidation/splitTrainValTest.py:210-245 | The search returns the first step at or after `i` whose window does not fit. |
| SplitTrainValTest.GroupStopExact | TimeSeriesCrossValidation/splitTrainValTest.py:210-245 | Every step before the stop fits, and the step at the stop does not. |
| SplitTrainValTest.GroupStopAt | TimeSeriesCrossValidation/splitTrainValTest.py:210-245 | Up to the stop, step `i` fits iff `i` is before the stop. |
| SplitTrainValTest.GroupAccLists | TimeSeriesCrossValidation/splitTrainValTest.py:221-250 | After `n` steps, the lists of each kind are the windows at that kind's listed starts. |
| SplitTrainValTest.GroupAccStarts | TimeSeriesCrossValidation/splitTrainValTest.py:221-250 | All six lists are the windows at the listed starts of their kind. |
| SplitTrainValTest.GroupAccTrain | TimeSeriesCrossValidation/splitTrainValTest.py:221-224 | An in-bounds training step appends its slices to `X` and `y` only. |
| SplitTrainValTest.GroupAccVal | TimeSeriesCrossValidation/splitTrainValTest.py:234-237 | An in-bounds validation step appends its slices to `Xcv` and `ycv` only. |
| SplitTrainValTest.GroupAccTest | TimeSeriesCrossValidation/splitTrainValTest.py:247-250 | An in-bounds test step appends its slices to `Xtest` and `ytest` only. |
| SplitTrainValTest.GroupStartsStep | TimeSeriesCrossValidation/splitTrainValTest.py:210-255 | Each step adds its start to the list of its own kind and to no other list. |
| SplitTrainValTest.GroupStartsFrom | TimeSeriesCrossValidation/splitTrainValTest.py:210-255 | Every listed start of a kind is the start of an earlier step of that kind. |
| SplitTrainValTest.GroupStartFits | TimeSeriesCrossValidation/splitTrainValTest.py:217-245 | Every output of a three-way grouped fold ends by `len`: training is bounded by `len`, not `len - 1`. |
| SplitTrainValTest.GroupFoldInBounds | TimeSeriesCrossValidation/splitTrainValTest.py:210-263 | Every window of a (possibly partial) fold, of every kind, is the full-width in-bounds slice at its start. |
| SplitTrainValTest.GroupValTestBalance | TimeSeriesCrossValidation/splitTrainValTest.py:231-250 | Among the first `n` steps there are as many validation as test steps, plus one iff step `n-1` is a validation step. |
| SplitTrainValTest.GroupFoldBalance | TimeSeriesCrossValidation/splitTrainValTest.py:231-263 | In every fold `len(Xcv) - len(Xtest)` is 0 or 1. It is 1 exactly when the loop broke on a test pair after its validation pair was stored. |
| SplitTrainValTest.GroupLoopTrain | TimeSeriesCrossValidation/splitTrainValTest.py:212-224 | A fitting training step keeps the loop state one step and one jump later. |
| SplitTrainValTest.GroupLoopVal | TimeSeriesCrossValidation/splitTrainValTest.py:226-237 | After a fitting validation step, the next step is the test step, starting at the end of the validation input. |
| SplitTrainValTest.GroupLoopTest | TimeSeriesCrossValidation/splitTrainValTest.py:239-255 | A fitting test step keeps the loop state at the step after it, with `n` reset and training resuming at the end of the test input. |
| SplitTrainValTest.GroupTrainCheck | TimeSeriesCrossValidation/splitTrainValTest.py:217-219 | The training check passes exactly before the stop. When it fails, the lists are the final fold. |
| SplitTrainValTest.GroupTrainStep | TimeSeriesCrossValidation/splitTrainValTest.py:212-224 | A training step either breaks with the final fold, or appends its pair and keeps the loop state before the stop. |
| SplitTrainValTest.GroupValCheck | TimeSeriesCrossValidation/splitTrainValTest.py:230-232 | The validation check passes exactly before the stop. When it fails, the lists are the final fold. |
| SplitTrainValTest.GroupValStep | TimeSeriesCrossValidation/splitTrainValTest.py:226-237 | A validation step either breaks with the final fold, or appends its pair and leaves the test step next, ending at `endCv`. |
| SplitTrainValTest.GroupTestCheck | TimeSeriesCrossValidation/splitTrainValTest.py:243-245 | The test check passes exactly before the stop. When it fails, the lists, validation pair included, are the final fold. |
| SplitTrainValTest.GroupTestStep | TimeSeriesCrossValidation/splitTrainValTest.py:239-255 | A test step either breaks, keeping the validation pair, with the final fold; or appends its pair, skips `i` past the block and resets `n`. |
| SplitTrainValTest.GroupKFoldFold | TimeSeriesCrossValidation/splitTrainValTest.py:205-263 | Fold `j`'s loop returns the windows of every step before the first one that does not fit. |
| SplitTrainValTest.GroupKFold | TimeSeriesCrossValidation/splitTrainValTest.py:201-268 | The result is always exactly five folds, keyed 0..4, each kept even when partial. The diagnostic never fires. |

## Left out

- The `print` diagnostics are modelled as a `tooShort` result flag. The two-way functions print nothing and have no flag.
- `np.array` conversion and the `dict` containers are not modelled. Lists of slices and fold records stand for them; element values are opaque (`T`).
- Parameter signs are not validated by the source. The model takes the counts as `nat`, so negative arguments and Python's negative-index slicing are not modelled.
- Non-terminating executions are excluded by preconditions rather than modelled:
  - `split_train_variableInput` and both forward-chaining functions loop forever when `nJ = 0` and the first window fits. Their preconditions exclude exactly that case.
  - The grouped loops run forever when `nJ = nIn = 0` and the first windows fit. `GroupTerminates` excludes exactly that case.
- SplitTrainVal.KFold: requires `1 <= nJ <= nIn && nJ + nIn + nOut <= len`. This is sufficient for termination but not necessary. The source leaves its outer loop only through the validation check, so a training pair that crosses the end before the validation slot makes it loop forever. Inputs that terminate without meeting the precondition are not covered.
- SplitTrainValTest.KFold: requires `1 <= nJ <= 2*nIn && nJ + nIn + nOut <= len`. This is sufficient but not necessary, for the same reason.
- scripts/testSplit.py (plotting and printing) and setup.py (packaging) are not part of this model. The demo call at scripts/testSplit.py:15 appears only as `SplitTrainVal.ChainDemoFolds`.
