# unshuffle_video — a Dafny model of the reconstruction logic

`unshuffle_video` puts the frames of a shuffled video back in order. Each
frame is compared with every other frame. The per-pixel metric is the sum of
the absolute red, green and blue differences. Each pair's total becomes a
percentage in a table, with an "infinitely bad" sentinel on the diagonal.
Starting from the lowest unused frame, a chain is grown greedily:

- forward: the last frame takes its most similar unused frame;
- backward: the first frame does the same;
- both stop once the best score exceeds the threshold.

Seeding repeats until every frame belongs to a chain. The first longest
chain, reversed on request, is the output order, and its frames are copied
out under sequential ordinals.

This project models that logic as it appears in `src/logic/mod.rs`, from the
decoded frames on, and proves properties of it.

- `scores.dfy` — module `Scores`: the three kinds of `f64` that reach the table:
  - finite percentages;
  - the `f64::MAX` sentinel;
  - NaN, from 0/0 when a frame has no pixels.

  It also defines the `<` and `> threshold` comparisons on them.
- `pixels.dfy` — module `Pixels`: `diff_rgba3`, the accumulated metric over
  the zip of two pixel lists, and the normalised score of a pair.
- `matrix.dfy` — module `Matrix`: the reference table and the `fill_percents`
  loops, proved to produce it.
- `successor.dfy` — module `Successor`: `get_succ` as the left fold it is, with
  a complete characterisation of its result.
- `chain.dfy` — module `Chain`: the two growth loops of `build_sequence`,
  shared through a `Direction`.
- `partition.dfy` — module `Partitioner`: the driver loop that seeds chains
  until no frame is unused.
- `select.dfy` — module `Select`: `get_biggest_sequence`, the optional
  reversal and the copies `copy_images` makes.
- `unshuffle.dfy` — module `Unshuffle`: `unshuffle_video` from the decoded
  frames to the list of copies.
- `scenario.dfy` — module `Scenario`: a four-frame worked example.
- `overflow.dfy` — module `Overflow`: the `i32` accumulator of `fill_percents`
  as written (see Findings).
- `options.dfy` — module `Options`: the optional result.

Two behaviours of the code are easy to miss:
- Two frames of different sizes are not rejected. The pixel lists are zipped,
  so the shorter one decides the length. The total is divided by the area of
  the lower-indexed frame.
- Zero frames are not reported as an error. `get_biggest_sequence` indexes an
  empty vector and panics. The model returns `None`.

## Model

| member | source | states |
|---|---|---|
| Scores.LessIsStrictOrder | src/logic/mod.rs:21-22 | the `f64` `<` used by the fold is irreflexive and transitive, and total on scores that are not NaN |
| Scores.BelowThresholdIsLess | src/logic/mod.rs:80 | a finite score at most the threshold passes the `>` test and is strictly below any score that fails it |
| Pixels.DiffRgba3 | src/logic/mod.rs:7-11 | the metric is at most 765 and is zero exactly when the two pixels agree on red, green and blue |
| Pixels.DiffRgba3SymmetricAlphaBlind | src/logic/mod.rs:7-11 | the metric is symmetric and does not depend on the alpha channel |
| Pixels.AccumUpTo | src/logic/mod.rs:43-47 | after k zipped pairs the accumulator is at most 765·k |
| Pixels.Accum | src/logic/mod.rs:44-47 | the zip stops at the shorter pixel list: the total is at most 765 per zipped pair, whatever the longer list holds |
| Pixels.AccumSymmetric | src/logic/mod.rs:43-47 | swapping the two frames leaves the accumulated metric unchanged |
| Pixels.AccumZeroIffSameRgb | src/logic/mod.rs:43-47 | the accumulated metric is zero exactly when every zipped pair agrees on RGB |
| Pixels.Percent | src/logic/mod.rs:43-50 | a pair never scores the sentinel; the score is NaN exactly when the first frame has no area; for a valid frame it lies in [0, 100]; a non-NaN score is 0 exactly when all zipped pixels agree on RGB |
| Pixels.ScoreBound | src/logic/mod.rs:49-50 | normalising a total bounded by 765 per pixel by 765·area gives a value in [0, 100] |
| Pixels.PercentSymmetric | src/logic/mod.rs:43-50 | two frames of the same size score the same whichever comes first |
| Matrix.Cell | src/logic/mod.rs:37-53 | a cell holds the sentinel exactly on the diagonal; off it, the cell is NaN exactly when the lower-indexed frame of the pair has no area, since that frame's dimensions normalise the score |
| Matrix.PercentTable | src/logic/mod.rs:29-58 | the table is N×N, has the sentinel on its diagonal and is symmetric |
| Matrix.PercentTableInRange | src/logic/mod.rs:49-53 | with valid, non-empty frames every off-diagonal cell is a finite score in [0, 100] |
| Matrix.FillPercents | src/logic/mod.rs:29-58 | the nested loops, which fill each pair and its mirror, produce exactly the reference table |
| Successor.SuccPrefix | src/logic/mod.rs:15-26 | after k cells the accumulator is the default or the lowest-scoring candidate so far; it is strictly below the default, nothing seen is strictly below it, and no earlier candidate ties it |
| Successor.GetSucc | src/logic/mod.rs:13-27 | the fallback `(prev, default)` is returned exactly when no unused frame other than `prev` scores strictly below the default; otherwise the result is the unique best pick, the lowest index among equal minima |
| Successor.PickWithin | src/logic/mod.rs:76-86 | a pick that passes the `> threshold` test is never the fallback: it is an unused frame other than `prev`, with a finite score at most the threshold |
| Successor.GetSuccAllUsed | src/logic/mod.rs:13-27 | with every other frame used, the pick is the fallback |
| Successor.BestIsUnique | src/logic/mod.rs:13-27 | any index meeting the best-pick description is the one `get_succ` returns |
| Successor.ExceedsStaysExceeded | src/logic/mod.rs:13-27 | marking more frames used never brings a pick above the threshold back within it |
| Chain.Grow | src/logic/mod.rs:76-98 | one growth loop keeps the chain non-empty, duplicate-free and in range, with every chain frame marked used |
| Chain.GrowExtends | src/logic/mod.rs:76-98 | a loop only attaches frames at its own end; each was unused, and its score from the frame that chose it is finite and at most the threshold; the flags gain exactly the new frames |
| Chain.GrowEndsAboveThreshold | src/logic/mod.rs:80-82 | a loop stops only when the best pick from the growing end exceeds the threshold |
| Chain.GrowStops | src/logic/mod.rs:80-82 | a pick above the threshold ends the loop without change |
| Chain.AttachAtEnd | src/logic/mod.rs:77-96 | `push` and `insert(0, _)` put the new frame at the end the loop reads next (`sequence[len - 1]` or `sequence[0]`), leave the opposite end, and add exactly that frame |
| Chain.GrowAttaches | src/logic/mod.rs:84-85 | a pick that passes the threshold test is an unused frame with a finite score at most the threshold; it is attached and marked, and the loop goes on |
| Chain.ExtendsStep | src/logic/mod.rs:84-97 | one attachment followed by further growth is growth from before the attachment |
| Chain.BuildSequence | src/logic/mod.rs:67-101 | the built chain is non-empty, duplicate-free and in range, with all its frames marked used |
| Chain.BuildSequenceUsed | src/logic/mod.rs:67-101 | the chain contains the seed; all its frames were unused; the flags afterwards are the old flags plus exactly the chain's frames |
| Chain.BuildSequenceLinked | src/logic/mod.rs:67-101 | links after the seed were made forward and links before it backward, each with a finite score at most the threshold |
| Chain.BuildSequenceIsMaximal | src/logic/mod.rs:76-98 | once built, neither end of the chain has an unused neighbour within the threshold |
| Chain.BuiltChainWithinThreshold | src/logic/mod.rs:67-101 | in a symmetric table every pair of neighbours in a built chain has a finite score at most the threshold, in both directions |
| Partitioner.FirstUnused | src/logic/mod.rs:154 | the result is absent exactly when every flag is set, and otherwise is the lowest unset index |
| Partitioner.Partition | src/logic/mod.rs:152-157 | the loop pushes no chain exactly when every frame is already used, and at most one chain per unused frame |
| Partitioner.CountUnusedShrinks | src/logic/mod.rs:152-157 | building a chain strictly lowers the number of unused frames, so the driver loop ends |
| Partitioner.PartitionFromUnused | src/logic/mod.rs:152-157 | every chain pushed is non-empty and duplicate-free and consists of frames that were unused |
| Partitioner.PartitionDisjoint | src/logic/mod.rs:152-157 | no frame is in two chains |
| Partitioner.PartitionCovers | src/logic/mod.rs:152-157 | every frame unused at the start ends up in some chain |
| Partitioner.PartitionSeeded | src/logic/mod.rs:152-157 | each chain holds a frame no greater than any frame of it or of the later chains: the lowest frame left when it was seeded |
| Partitioner.PartitionLinked | src/logic/mod.rs:152-157 | in a symmetric table, neighbours in every chain have a finite score at most the threshold |
| Partitioner.PartitionIsComplete | src/logic/mod.rs:152-157 | from clear flags the chains cover exactly the frames 0..N-1, and there is a chain exactly when there is a frame |
| Select.LongestPrefix | src/logic/mod.rs:104-114 | the fold's accumulator after k chains names a chain of maximal length among them and strictly longer than every earlier chain |
| Select.GetBiggestSequence | src/logic/mod.rs:103-117 | there is no result exactly when there are no chains; otherwise the result is the chain at the first position of maximal length |
| Select.FirstLongestIsUnique | src/logic/mod.rs:103-117 | only one position is the first of maximal length |
| Select.Reverse | src/logic/mod.rs:161-163 | the reversal keeps the length and mirrors every index |
| Select.ReverseIsInvolution | src/logic/mod.rs:161-163 | reversing twice restores the chain |
| Select.SelectSequence | src/logic/mod.rs:159-163 | the output is the first longest chain, reversed exactly when `is_rev` holds |
| Select.SelectReversedIsMirror | src/logic/mod.rs:159-163 | the outputs with and without `is_rev` are mirror images |
| Select.CopyImages | src/logic/mod.rs:60-65 | the copies go in sequence order, and output ordinal i receives element i of the sequence |
| Unshuffle.ReverseKeepsChainShape | src/logic/mod.rs:161-163 | in a symmetric table, reversing a chain keeps it duplicate-free, in range, with every neighbour's score finite and at most the threshold |
| Unshuffle.UnshuffleVideo | src/logic/mod.rs:150-165 | there is no order exactly when there are no frames. Otherwise the order is non-empty and duplicate-free, and each pair of neighbours has a finite score at most the threshold. No chain is longer, and the order is the first longest chain, reversed on request. Copy i writes element i |
| Overflow.WrapI32 | src/logic/mod.rs:44-47 | the `i32` wrap-around lands in the `i32` range and is the identity inside it |
| Overflow.WrapI32Add | src/logic/mod.rs:44-47 | wrapping after every addition gives the same value as wrapping once at the end |
| Overflow.AccumUpToAsWritten | src/logic/mod.rs:44-47 | the `i32` accumulator as written always stays in the `i32` range |
| Overflow.AccumAsWrittenIsWrapped | src/logic/mod.rs:44-47 | the as-written accumulator is the wrap-around of the true sum |
| Overflow.PercentAsWritten | src/logic/mod.rs:43-50 | the as-written score equals the corrected one whenever 765 times the number of zipped pixels fits in an `i32` |
| Overflow.UniformAccum | src/logic/mod.rs:43-47 | between two uniform pixel lists the accumulator after k pairs is k times the metric of one pair |
| Overflow.QhdBlackWhiteWraps | src/logic/mod.rs:43-50 | black against white at 2560×1440 scores 100 with the true sum but a negative value as written |
| Scenario.SeedZero | src/logic/mod.rs:67-101 | in the four-frame example, with any threshold in [3, 50), seeding at frame 0 builds 0, 1, 2 |
| Scenario.ScenarioPartition | src/logic/mod.rs:152-157 | the driver loop on the example yields the chains [0, 1, 2] and [3] |
| Scenario.ScenarioResult | src/logic/mod.rs:152-163 | the example selects [0, 1, 2], or [2, 1, 0] when reversed; frame 3 is dropped |

## Left out

- Reading the input directory, sorting the paths and decoding the images (`src/logic/mod.rs:125-148`) are I/O. The model starts from the decoded frames, in path order, each with its dimensions and row-major RGBA pixels.
- The file copies of `copy_images` and the `{:09}` file-name format are I/O. `Select.CopyImages` returns the (frame index, output ordinal) pairs it would copy, in order.
- The `io::Result` of `unshuffle_video` and the `unwrap`/`expect` panics on I/O failure are left out together with the I/O.
- `src/main.rs` parses arguments and calls external tools. It is not part of this model.
- Floating point rounding is not modelled: finite scores are exact reals, and the division is exact.
- The threshold is a finite real below `f64::MAX`. With a threshold of `f64::MAX`, +∞ or NaN, the fallback `(prev, f64::MAX)` never exceeds it, and the source's growth loops do not end. Those thresholds are left out.
- Pixels.Percent: a zero-area frame that still carries pixels scores NaN here, where `f64` gives +∞ when the total is positive. The decoder never produces such a frame, so the NaN clause is stated for frames as decoded.
- Pixels.Percent: the frame area `img1.width() * img1.height()` is a `u32` product. Above 2^32 pixels it would overflow, which is not modelled: the area is an unbounded natural.
- Pixels.Percent: the `i32` accumulator is replaced by the unbounded sum; its overflow is described under Findings and modelled in `Overflow`. Debug builds panic on that overflow instead of wrapping; the panic is not modelled.
- Select.GetBiggestSequence: with no chains the source panics on `sequences[0]`. The model returns `None`, and so does `Unshuffle.UnshuffleVideo` for zero frames.
- Partitioner.PartitionLinked: states that neighbours are within the threshold only for symmetric tables. A backward link was checked from the later frame to the earlier one, so in an asymmetric table it says nothing about the forward direction. Every table `fill_percents` produces is symmetric, as `Matrix.PercentTable` states.

## Findings

| source | as written | input that shows it | evidently intended | confidence | as-written member | corrected member |
|---|---|---|---|---|---|---|
| src/logic/mod.rs:44-47 | `accum` is inferred as `i32`, since it starts at `0` and only `diff_rgba3` results are added to it. It can hold at most 2,147,483,647, i.e. 2,807,168 maximally different pixels. Past that, a release build wraps around. | a black and a white 2560×1440 frame: the true total 2,820,096,000 wraps to -1,474,871,296, and the score is about -52.3 instead of 100 | accumulate in a type wide enough for 765 per pixel (e.g. `u64`), so that every score lies in [0, 100] | high (not executed) | Overflow.QhdBlackWhiteWraps | Pixels.Percent |
