# cidrinverse in Dafny

`cidrinverse.py` takes a list of IPv4 or IPv6 addresses, ranges (`a-b`)
and CIDR blocks (`a/n`). It prints three lists:

- the input as a sorted list of non-overlapping ranges;
- the inverse of that list inside the address space;
- the inverse cut into CIDR blocks.

This project models that computation on integer addresses, stage by stage,
as imperative Dafny methods. Each method has loop invariants. Its contract
is stated with ghost sets of addresses.

| file | module | what it models |
|---|---|---|
| `bits.dfy` | `Bits` | powers of two, alignment, `int.bit_length`, `counttrailingbinzeros` |
| `ranges.dfy` | `Addresses` | `ipmax`, ranges, the addresses a range list covers, canonical (merged) form and its uniqueness |
| `wrappers.dfy` | `Wrappers` | `Option` (the `None` sentinels) and `Result` (a raised `ValueError`) |
| `normalize.dfy` | `Normalizer` | the argument loop: every argument becomes a `(start, end)` pair, or the run is refused |
| `merge.dfy` | `Merger` | `rangelist.sort()` and the `currentstart`/`currentend` merge sweep |
| `complement.dfy` | `Complement` | the `prevrangeep1` cursor sweep that emits the gaps |
| `decompose.dfy` | `Decomposer` | the greedy `while length > 0` loop that cuts each gap into CIDR blocks |
| `pipeline.dfy` | `Pipeline` | address families and their limits, the whole run, feeding the output back in |

Modelling choices:

- An address is a `nat` below `2^addrbits`. A range is `Range(lo, hi)`, inclusive at both ends.
- `Addrs(rs)` is the set of addresses a range list covers.
- `Canonical(rs)` is the merged form. Every range is non-empty, and each range starts more than one address after the previous one ends.
- The stages take the address width `bits` as a parameter. `Pipeline.AddrBits` fixes it at 32 or 128 for a family.
- `value & bit`, with `bit == 1 << k`, is written `(value / 2^k) % 2` (`Bits.Bit`). `1 << invmask` is `Pow2(invmask)`.
- Python's `sort` on `(start, end)` tuples is stood in for by an insertion sort. Its contract is the same outcome: a permutation sorted in tuple order.
- The `ipmax` sentinel is modelled directly. The complement cursor is an `Option<nat>`, and `rangeend + 1` is computed only in the `rangeend != ipmax` branch. The invariant `Complement.Swept` keeps a live cursor at or below `ipmax`. `Complement.LiveBeforeRange` proves the cursor is live whenever another range follows.
- The guarded `start += cidrlen` is modelled directly. The invariant `Decomposer.Cutting` keeps `start` inside the current range, so `start` never passes `ipmax`. `length` strictly decreases, and that is the termination measure.

## Model

| member | source | states |
|---|---|---|
| Bits.CountTrailingZeros | cidrinverse.py:118-124 | the result is at most `maxzeros`; `value` is a multiple of 2^result; either the result is `maxzeros` or bit `result` of `value` is set |
| Bits.AlignedStep | cidrinverse.py:121-123 | the low k+1 bits are zero exactly when the low k bits are zero and bit k is zero: one step of the trailing-zero loop |
| Bits.BitLength | cidrinverse.py:134 | `n.bit_length()` is 0 exactly for 0, and otherwise is the r with 2^(r-1) <= n < 2^r |
| Normalizer.Normalize | cidrinverse.py:44-57 | fails exactly when some argument is refused: an `a-b` with end below start, or a block whose prefix is too long or whose host bits are set. The failure names the first such argument, and every earlier argument is accepted. On success the result is every argument's `(start, end)` pair, in order |
| Normalizer.TokenRangeInSpace | cidrinverse.py:49-56 | every accepted pair has `start <= end <= ipmax`; a block's pair runs from its network address, a multiple of its size, over exactly 2^(bits - prefix) addresses |
| Merger.Insert | cidrinverse.py:59 | inserting into a tuple-sorted list keeps it sorted and adds exactly that element |
| Merger.SortRanges | cidrinverse.py:59 | the result is sorted in `(start, end)` tuple order and is a permutation of the input |
| Addresses.AddrsPermutation | cidrinverse.py:59 | sorting does not change the set of covered addresses |
| Merger.Max | cidrinverse.py:78 | `max(currentend, newend)` is at least both and is one of them, so the accumulated end never goes down |
| Merger.IntervalJoin | cidrinverse.py:76-78 | a range that starts inside or right after the accumulated one joins it into `currentstart..max(currentend, newend)`, losing and adding no address |
| Merger.MergeFirst | cidrinverse.py:67-69 | the first sorted range becomes the accumulator |
| Merger.MergeClose | cidrinverse.py:71-75 | a range starting more than one address past the accumulated end closes the accumulator, keeping the closed list canonical and covering the same addresses |
| Merger.MergeExtend | cidrinverse.py:76-78 | an overlapping or abutting range only extends the accumulated end, and coverage is kept |
| Merger.MergeDone | cidrinverse.py:80-81 | appending the last accumulator leaves a canonical list covering every sorted range |
| Merger.Merge | cidrinverse.py:59-81 | for a non-empty list of non-empty ranges, the result is canonical (ascending, gap greater than 1) and covers exactly the addresses of the input |
| Addresses.CanonicalOrdered | cidrinverse.py:63-64 | in the merged form every range lies more than one address above every earlier range |
| Addresses.CanonicalUnique | cidrinverse.py:59-81 | two canonical lists covering the same addresses are equal, so merging an already merged list returns it unchanged |
| Complement.SweepGap | cidrinverse.py:101-102 | when the cursor stops short of the next range, the gap `(cursor, rangestart - 1)` is emitted; the gaps stay canonical and are exactly the uncovered addresses swept so far |
| Complement.SweepRange | cidrinverse.py:101-102 | sweeping one range, with or without a gap below it, keeps the gaps equal to the uncovered addresses up to the range's end |
| Complement.BelowMaxUnlessLast | cidrinverse.py:103-106 | in the merged form only the last range can end at `ipmax`, so the `None` sentinel is only set after the last range |
| Complement.LiveBeforeRange | cidrinverse.py:101 | whenever another range follows, the cursor is not `None` |
| Complement.SweepStep | cidrinverse.py:100-106 | one iteration of the cursor loop keeps the sweep state: cursor after the last swept address, or `None` at `ipmax`; gaps canonical and exactly the uncovered addresses up to it |
| Complement.SweepTail | cidrinverse.py:108-109 | a live cursor after the last range emits `(cursor, ipmax)`, and the gaps then cover exactly the uncovered part of the space |
| Complement.AtMaxNoTail | cidrinverse.py:103-109 | when the cursor ends as `None`, the last merged range ends at `ipmax` and no gap ends there |
| Complement.SweepDone | cidrinverse.py:108-109 | after the loop the result is canonical, inside the space, the exact complement, and ends at `ipmax` exactly when the merged list does not |
| Complement.Invert | cidrinverse.py:98-109 | the inverse list is canonical and inside the space. It covers exactly the addresses of `[ipzero, ipmax]` that the merged list does not, so the two lists are disjoint and together cover the space. It ends with a range up to `ipmax` exactly when the merged list is empty or ends below `ipmax` |
| Complement.EmptyComplement | cidrinverse.py:98-109 | the inverse is empty exactly when the merged list covers the whole space |
| Complement.InverseOfInverse | cidrinverse.py:98-109 | inverting the inverse gives back the merged list |
| Decomposer.ChosenBlock | cidrinverse.py:133-142 | with `invmask = min(trailing zeros of start, length.bit_length() - 1)`, `2^invmask <= length`. The block `start/(addrbits - invmask)` has a prefix in `[0, addrbits]`, host bits zero, lies in the space, and cannot be doubled inside the range |
| Decomposer.CuttingStep | cidrinverse.py:132-147 | one iteration emits the chosen block right after the previous one. `length` strictly decreases, `start` moves only while `length > 0` and stays inside the range, and once `length` is 0 the last block ends at the range's end |
| Decomposer.TilingCovers | cidrinverse.py:129-147 | contiguous blocks from the range's start to its end cover exactly the range |
| Decomposer.DecomposeRange | cidrinverse.py:129-147 | the blocks for one range are well formed, each fits and is maximal, the first starts at the range's start, each starts right after the previous one, the last ends at the range's end, and together they cover exactly the range |
| Decomposer.MaximalBlockUnique | cidrinverse.py:133-138 | at a given base and below a given end there is only one well-formed maximal block |
| Decomposer.TilingUnique | cidrinverse.py:128-147 | two tilings of a range by well-formed maximal blocks are equal, so the greedy loop's output is the only list with the properties `DecomposeRange` states |
| Decomposer.NeighbourNotMergeable | cidrinverse.py:133-142 | a maximal block and the next block of the same size, which still fits, never form the block of twice the size |
| Decomposer.TilingNotMergeable | cidrinverse.py:132-147 | the blocks of one range are ascending and no two neighbours can be merged into one block |
| Decomposer.CoveringStep | cidrinverse.py:129-147 | appending one range's blocks keeps all blocks well formed, ascending and unmergeable, and covering exactly the ranges done so far |
| Decomposer.DecomposeAll | cidrinverse.py:128-147 | all blocks are well formed, ascending and never mergeable, cover exactly the inverse ranges, and exist exactly when the inverse is non-empty |
| Pipeline.AddrBits | cidrinverse.py:88-96 | `addrbits` is 32 or 128 |
| Pipeline.FamilyLimits | cidrinverse.py:88-96 | `ipmax` is `2^32 - 1` for IPv4 and `2^128 - 1` for IPv6 |
| Pipeline.Run | cidrinverse.py:44-147 | a run fails exactly when an argument is refused, naming the first one. Otherwise the merged list covers exactly the input, the inverse covers exactly the rest of the space, and the blocks are well formed, ascending, unmergeable and cover exactly the inverse |
| Pipeline.BlocksReadBack | cidrinverse.py:52-56 | an output block, read back as an `a/n` argument, is accepted and becomes exactly its own range |
| Pipeline.OutputRoundTrip | cidrinverse.py:44-147 | feeding the output blocks back in gives, as merged list, the first run's inverse, and, as inverse, the first run's merged list |

## Left out

- Command-line arguments and all printed output are I/O. The model takes the arguments as a list and returns the three lists the tool prints.
- The `ipaddress` calls are not modelled: address parsing (`ip_address`, `ip_network`), `.network_address`, `.broadcast_address`, `.version`, and the formatting of networks. An argument arrives already read, as `Span(start, end)` or `Block(network, prefixLen)`; a bare address is the block of length `addrbits`. A block's end is its network address plus its size minus one. The model takes from `ip_network` the two checks that decide acceptance: the prefix length and zero host bits. Parse errors in the text are not modelled.
- Splitting an argument on `-` is string handling and is not modelled.
- Normalizer.Normalize: the addresses of every argument are assumed to lie in the family's space (`TokenInSpace`, a precondition of `Pipeline.Run`). The parser guarantees this and it is not modelled.
- Merger.Merge: the input must be non-empty. On an empty argument list the tool appends `(None, None)` and then fails when it reads the address version, so the model makes non-empty input a precondition of `Merge` and `Run` rather than modelling the crash.
- Mixed IPv4/IPv6 input is not modelled. The tool never checks for it. `Run` takes a single family, and the family is a parameter rather than read from the first merged range.
- Merger.SortRanges: the library sort is replaced by an insertion sort. Only its outcome (sorted in tuple order, a permutation) is modelled, not the library's algorithm.
- Decomposer.DecomposeRange: the model proves that each block is maximal and that the tiling by maximal blocks is unique (`TilingUnique`). It does not prove that the output uses the fewest possible CIDR blocks.
