# zorder in Dafny

A model of the software Z-order (Morton code) conversion of the Rust crate
`zorder`. The crate maps an array of `N` unsigned coordinates to one index
whose bits alternate between the coordinates, and maps an index back to its coordinates.

- **Words** (`words.dfy`). An unsigned integer is a `Word`, a `seq<bool>` whose
  length is the type's `BITS`. Bit `j` holds the weight `2^j`. `|`, `&`,
  `<<`, `>>`, `max_value` and the casts between widths are functions on
  words. `ToNat` and `FromNat` relate words to the numbers the crate's tests
  write down. The Rust shifts panic in debug builds when the shift reaches
  the width, so that condition is a precondition here.
- **Masks** (`mask.dfy`, `mask_values.dfy`). The `UInt` datatype lists
  `u8` to `u128`, with `BITS` and `BITS_ILOG2`. `bit_mask` and
  `interleave_shift` are functions. `interleave_mask` is a method with the
  source's accumulator loop. It is proved to compute `Comb`: bit `j` is set iff
  `j mod (dim * bits) < bits`. Every expected value of the
  `interleave_mask_*`, `truncated_interleave_mask` and
  `odd_large_dimension_mask` tests in `src/mask.rs` is derived from that
  statement.
- **Interleave** (`interleave.dfy`). The output-width table is a function
  returning `Option<UInt>`. `Interleave::interleave` is a method with the
  source's widening cast and reversed stage loop. It is proved to compute
  `Spread`: bit `k` of the input lands on bit `k * N`, and every other bit
  is clear. The loop invariant is `Layout`, the position of every input bit
  after each stage.
- **Deinterleave** (`deinterleave.dfy`). The output-width table is the exact
  inverse of the interleave table. `Deinterleave::deinterleave` is a method
  with the isolating first step, the forward stage loop and the narrowing
  cast. It is proved to compute `Gather`: bit `k` of the result is index
  bit `k * N + s`.
- **Indexes** (`zorder.dfy`). `index_of` and `coord_of` are pure in the source
  (an iterator fold and `array::from_fn`). They are functions over `Spread`
  and `Gather`, which the two methods are proved to compute. The round trip
  `coord_of(index_of(c)) == c` holds for every supported coordinate array. The
  inverse round trip holds exactly for the indexes with no bit set at or
  above `N * w`.

`Div` and `Mod` in `arith.dfy` are Euclidean quotient and remainder by a
positive divisor, defined by repeated subtraction. `DivModAgree` proves they
equal Dafny's `/` and `%`. All the numbers involved are non-negative, so
Rust's truncating division gives the same results.

## Model

| member | source | states |
|---|---|---|
| Mask.Ilog2IsLog2 | src/mask.rs:1-9 | counting the trailing zeros of `BITS` gives its base-2 logarithm (`2^BITS_ILOG2 == BITS`), because every supported width is a power of two; the values are 3 to 7 |
| MaskValues.Ilog2Values | src/mask.rs:105-112 | `BITS_ILOG2` is 3, 4, 5, 6, 7 for `u8` to `u128` |
| Mask.InterleaveShift | src/mask.rs:27-31 | the stage-`i` shift plus the group size `2^i` is the group spacing `dim * 2^i`, so the shift is `(dim - 1) << i` |
| Mask.BitMask | src/mask.rs:58-69 | for `0 < bits <= BITS`, exactly the low `bits` bits are set and the value is `2^bits - 1` |
| MaskValues.AllowedMasks | src/mask.rs:76-91 | `bit_mask(4) == 0xF` in every type, and the full-width mask is `max_value` in each of the five types |
| Mask.InterleaveMask | src/mask.rs:33-56 | the accumulator loop ends equal to `Comb`: bit `j` is set iff `j mod (dim * bits) < bits` |
| Mask.MaskShiftInRange | src/mask.rs:48-53 | every shift `i * dim * bits` taken for `i < ceil(ceil(BITS / dim) / bits)` is below `BITS`, so no `<<` in the loop panics |
| Mask.MaskLoopStep | src/mask.rs:51-53 | one iteration ORs in the next run of `bits` ones and keeps the runs already placed; its shift is in range |
| Mask.CombPrefixStep | src/mask.rs:51-53 | OR-ing the mask shifted to `i * dim * bits` into the first `i` runs gives the first `i + 1` runs |
| Mask.MaskLoopBounds | src/mask.rs:45-55 | the accumulator starts as zero, the comb with no runs; after `ceil(ceil(BITS / dim) / bits)` runs it is the whole comb |
| Mask.CombRuns | src/mask.rs:33-39 | inside each window of `dim * bits` bits only the first `bits` bits are set; the window at 0 makes the least significant bit always set |
| Mask.CombRunCount | src/mask.rs:48-53 | the loop bound `ceil(ceil(BITS / dim) / bits)` equals `ceil(BITS / (dim * bits))`, the number of runs that start inside the type |
| Mask.CombShortValue | src/mask.rs:190-198 | a comb no wider than one period is a single run of low ones cut at the width, e.g. `interleave_mask::<u32>(2, 32) == 0xFFFF_FFFF` |
| Mask.CombAppendValue | src/mask.rs:114-189 | a comb whose width is a multiple of its period continues with the same comb above it, so the value is the lower comb plus the upper one shifted past it |
| MaskValues.InterleaveMaskDim2Bits32 | src/mask.rs:116-119 | `interleave_mask::<u128>(2, 32)` has the value the test expects |
| MaskValues.InterleaveMaskDim2Bits16 | src/mask.rs:120-123 | `interleave_mask::<u128>(2, 16)` has the value the test expects |
| MaskValues.InterleaveMaskDim2Bits8 | src/mask.rs:124-127 | `interleave_mask::<u128>(2, 8)` has the value the test expects |
| MaskValues.InterleaveMaskDim2Bits4 | src/mask.rs:128-131 | `interleave_mask::<u128>(2, 4)` has the value the test expects |
| MaskValues.InterleaveMaskDim2Bits2 | src/mask.rs:132-135 | `interleave_mask::<u128>(2, 2)` has the value the test expects |
| MaskValues.InterleaveMaskDim2Bits1 | src/mask.rs:136-139 | `interleave_mask::<u128>(2, 1)` has the value the test expects |
| MaskValues.InterleaveMaskDim3Bits16 | src/mask.rs:144-147 | `interleave_mask::<u128>(3, 16)` has the value the test expects |
| MaskValues.InterleaveMaskDim3Bits8 | src/mask.rs:148-151 | `interleave_mask::<u128>(3, 8)` has the value the test expects |
| MaskValues.InterleaveMaskDim3Bits4 | src/mask.rs:152-155 | `interleave_mask::<u128>(3, 4)` has the value the test expects |
| MaskValues.InterleaveMaskDim3Bits2 | src/mask.rs:156-159 | `interleave_mask::<u128>(3, 2)` has the value the test expects |
| MaskValues.InterleaveMaskDim3Bits1 | src/mask.rs:160-163 | `interleave_mask::<u128>(3, 1)` has the value the test expects |
| MaskValues.InterleaveMaskDim4Bits16 | src/mask.rs:168-171 | `interleave_mask::<u128>(4, 16)` has the value the test expects |
| MaskValues.InterleaveMaskDim4Bits8 | src/mask.rs:172-175 | `interleave_mask::<u128>(4, 8)` has the value the test expects |
| MaskValues.InterleaveMaskDim4Bits4 | src/mask.rs:176-179 | `interleave_mask::<u128>(4, 4)` has the value the test expects |
| MaskValues.InterleaveMaskDim4Bits2 | src/mask.rs:180-183 | `interleave_mask::<u128>(4, 2)` has the value the test expects |
| MaskValues.InterleaveMaskDim4Bits1 | src/mask.rs:184-187 | `interleave_mask::<u128>(4, 1)` has the value the test expects |
| MaskValues.TruncatedInterleaveMaskBits32 | src/mask.rs:192 | `interleave_mask::<u32>(2, 32) == 0xFFFF_FFFF`: the single run is cut at the width |
| MaskValues.TruncatedInterleaveMaskBits16 | src/mask.rs:193 | `interleave_mask::<u32>(2, 16) == 0x0000_FFFF` |
| MaskValues.TruncatedInterleaveMaskBits8 | src/mask.rs:194 | `interleave_mask::<u32>(2, 8) == 0x00FF_00FF` |
| MaskValues.TruncatedInterleaveMaskBits4 | src/mask.rs:195 | `interleave_mask::<u32>(2, 4) == 0x0F0F_0F0F` |
| MaskValues.TruncatedInterleaveMaskBits2 | src/mask.rs:196 | `interleave_mask::<u32>(2, 2) == 0x3333_3333` |
| MaskValues.TruncatedInterleaveMaskBits1 | src/mask.rs:197 | `interleave_mask::<u32>(2, 1) == 0x5555_5555` |
| MaskValues.OddLargeDimensionMask | src/mask.rs:200-206 | `interleave_mask::<u32>(13, 1)` is `0b1_0000_0000_0000_1_0000_0000_0000_1` |
| MaskValues.OddLargeDimensionBits | src/mask.rs:200-206 | in that mask exactly bits 0, 13 and 26 are set |
| Mask.SwappedShiftArguments | src/interleave.rs:36 | read as declared, the call `interleave_shift(i, N)` at stage 1 with two dimensions gives shift 0 instead of 2, and a stage with shift 0 moves nothing |
| Interleave.InterleaveOutputSmallest | src/interleave.rs:45-88 | a pair `(w, N)` is in the table iff `N >= 2` and `N * w <= 128`; the output type then holds `N * w` bits and no smaller supported type does |
| Interleave.Interleave | src/interleave.rs:29-42 | the result has the output type's width and equals `Spread`: bit `k * N` is input bit `k`, and every bit off the multiples of `N` or at or above `N * w` is clear |
| Interleave.LayoutWhole | src/interleave.rs:31-32 | the widening cast is lossless: the widened input is the layout whose single group is the whole input |
| Interleave.StageShiftFits | src/interleave.rs:34-38 | at every stage the mask width `2^i` fits the input and the shift stays below `N * w`, within the output type |
| Interleave.SpreadStage | src/interleave.rs:34-39 | one stage `x OR (x << (N - 1) * g)`, masked with `interleave_mask(N, g)`, turns the layout with groups of `2 * g` into the layout with groups of `g` |
| Interleave.SpreadStageBit | src/interleave.rs:38 | the same stage, bit by bit: the lower half of each `2 * g` group stays, the upper half moves up by `(N - 1) * g`, and the mask clears the copies left behind |
| Interleave.LayoutPlaces | src/interleave.rs:34-39 | after each stage, input bit `k` sits at `(k / g) * N * g + k mod g`, below `N * w`: no set bit is ever shifted out of the output type |
| Interleave.LayoutUnit | src/interleave.rs:34-41 | after the last stage, with groups of one bit, the layout is the spread |
| Interleave.SpreadBits | src/interleave.rs:12-20 | bit `k * N` of the spread is bit `k` of the input, and every other bit is clear |
| Interleave.SpreadInjective | src/interleave.rs:15-20 | interleaving loses nothing: equal spreads come from equal inputs |
| Deinterleave.DeinterleaveOutputInverse | src/deinterleave.rs:35-76 | `(W, N) -> w` is in this table iff `(w, N) -> W` is in the interleave table |
| Deinterleave.DeinterleaveOutputFits | src/deinterleave.rs:49-76 | every listed pair has `N >= 2` and an output type that fits `N` times into the index type |
| Deinterleave.GatherStart | src/deinterleave.rs:21 | `(x >> s) & interleave_mask(N, 1)` keeps exactly the index bits `k * N + s`, moved to the multiples of `N`: the layout with groups of one bit |
| Deinterleave.GatherStageBit | src/deinterleave.rs:27 | one stage, bit by bit: a group of `2 * h` takes its lower `h` bits from where they are and its upper `h` bits from `(N - 1) * h` higher |
| Deinterleave.GatherStage | src/deinterleave.rs:23-28 | one stage `x OR (x >> (N - 1) * h)`, masked with `interleave_mask(N, 2 * h)`, turns groups of `h` into groups of `2 * h`, losing nothing past the top |
| Deinterleave.GatherLoopStep | src/deinterleave.rs:23-27 | stage `i` uses a mask width `2^(i + 1)` and a shift that fit the index type, and doubles the groups |
| Deinterleave.GatherEnd | src/deinterleave.rs:30-31 | after the last stage, the narrowing cast keeps the low `w` bits, and they are the gathered coordinate |
| Words.ToNatBound | src/deinterleave.rs:30-31 | a `w`-bit result denotes a number below `2^w` |
| Deinterleave.Deinterleave | src/deinterleave.rs:20-32 | the result has the output type's width and equals `Gather`: bit `k` is index bit `k * N + s`, clear where that lies beyond the index |
| Deinterleave.AxisSeparation | src/deinterleave.rs:20-32 | deinterleaving at offset `s` the spread of `v` shifted to offset `j` gives `v` when `j == s` and zero otherwise |
| Deinterleave.ShiftedSpreadBit | src/lib.rs:260 | bit `p` of `interleave(v) << j`, for `j < N`, is set only if `p mod N == j`, and is then bit `p / N` of `v` |
| Deinterleave.DeinterleaveExample | src/deinterleave.rs:82-89 | with two dimensions, `64u16` deinterleaves to 8 at offset 0 and to 0 at offset 1 |
| ZOrder.IndexFold | src/lib.rs:250-262 | the fold keeps the accumulator at the output width |
| ZOrder.IndexOf | src/lib.rs:65-71 | the index has the width of the interleave table's output type |
| ZOrder.CoordOf | src/lib.rs:85-91 | `coord_of` returns `N` coordinates, each of the deinterleave table's output type |
| ZOrder.IndexFoldBits | src/lib.rs:258-261 | after folding in axes `i..N`, bit `p` is set iff it was set before or it is bit `p / N` of axis `p mod N` with `p mod N >= i` |
| ZOrder.IndexOfBits | src/lib.rs:65-71 | bit `p` of `index_of(c)` is bit `p / N` of coordinate `p mod N` (clear where that is beyond the coordinate) |
| ZOrder.AxesDisjoint | src/lib.rs:258-261 | the shifted spreads of two different axes never share a set bit, so the OR loses nothing |
| ZOrder.CoordOfIndexOf | src/lib.rs:17-25 | `coord_of(index_of(c)) == c` for every coordinate array a table supports, and the deinterleave table maps the index type back to the coordinate type |
| ZOrder.IndexOfHigh | src/lib.rs:53-71 | no index bit at or above `N * w` is set |
| ZOrder.IndexOfCoordOf | src/lib.rs:280-286 | `index_of(coord_of(x)) == x` iff no bit of `x` at or above `N * w` is set |
| ZOrder.IndexOfCoordOfBit | src/lib.rs:280-286 | the same round trip for one bit: every bit below `N * w`, and every clear bit above it, comes back |
| ZOrder.ArrayConversions | src/lib.rs:280-286 | for two dimensions every `u32` index survives `coord_of` then `index_of`, not only those below 10000 |
| ZOrder.PairIndexBit | src/lib.rs:58-64 | with two dimensions, even index bits come from the first coordinate and odd bits from the second |
| ZOrder.Bits47 | src/lib.rs:62-63 | the bits of `0b101_111` as a `u64` are 0 to 5 except bit 4 |
| ZOrder.IndexOfExample37 | src/lib.rs:62-63 | `index_of([3u32, 7u32]) == 0b101_111u64` |
| ZOrder.CoordOfExample37 | src/lib.rs:82-83 | `coord_of(0b101_111u64) == [3u32, 7u32]` |
| ZOrder.IndexOfExample77 | src/lib.rs:289-292 | `index_of([7u32, 7u32]) == 0b111111` |
| ZOrder.IndexOfExample11 | src/lib.rs:20-24 | `index_of([1u16, 1u16]) == 3u32` and `coord_of(3u32) == [1u16, 1u16]` |

## Left out

- The BMI2 path (`bmi2::*`, `HardwareSupportToken`, `has_hardware_support`, src/lib.rs:93-244) is not modelled. It rests on the `pdep`/`pext` intrinsics and on a CPU feature probe, and the `InterleaveBMI2` and `DeinterleaveBMI2` implementations are not part of this model.
- The sealed trait (src/interleave.rs:90-97), the `N_U32` constant (src/deinterleave.rs:9) and the trait plumbing become the `UInt` datatype, a dimension parameter `n`, and the two table functions returning `Option<UInt>`. A pair the table does not list is `None`. The operations require `Some`, as the source's trait bounds do.
- `num_cast` is imported by src/interleave.rs:3 and src/deinterleave.rs:3, but src/mask.rs does not define it, so its definition is not part of this model. It is modelled as a zero-extending cast (`Widen`) when interleaving and as keeping the low bits (`Truncate`) when deinterleaving.
- Mask.BitMask: the panics for `bits == 0` and `bits > BITS` (the `zero_mask` and `too_large_mask` tests, src/mask.rs:93-103) are a precondition, not a modelled error.
- Words.Shl and Words.Shr: a shift by the full width or more, which panics in a Rust debug build, is excluded by precondition. Every shift the model takes is proved to be in range.
- Fixed-width arithmetic on `u32` counters (`i * dim * bits`, `1 << i`, `N as u32`) is modelled with unbounded integers. For the supported widths and dimensions all these values are below 2^16, so nothing wraps.
- ZOrder.IndexOf and ZOrder.CoordOf use the specification functions `Spread` and `Gather` rather than calling the `Interleave` and `Deinterleave` methods, because a function cannot call a method. The methods are proved to return exactly `Spread` and `Gather`.
- The `interleave` and `deinterleave` closures passed to `util::generic_index_of` and `util::generic_coord_of` are fixed to the software implementations.
- The `array_conversions` test loop (src/lib.rs:280-286) is replaced by a lemma over every `u32`, not only those below 10000.
- The benchmarks (benches/) and the examples (examples/) are timing and printing code and are not modelled.

## Findings

| source | as written | input that shows it | evidently intended | confidence | as-written member | corrected member |
|---|---|---|---|---|---|---|
| src/interleave.rs:36 | `interleave_shift(i, N as u32)` calls `interleave_shift(dim: u32, i: u32) -> (dim - 1) << i` (src/mask.rs:29) with the stage first; src/deinterleave.rs:25 does the same | stage `i = 1`, `N = 2`: `(1 - 1) << 2 == 0` instead of `(2 - 1) << 1 == 2`, so the stage moves nothing; at stage 0, `0u32 - 1` underflows | the shift `(N - 1) << i` named by the doc comment at src/mask.rs:27 and needed by the algorithm | not executed; the call sites and the declaration probably come from different revisions of the crate | Mask.SwappedShiftArguments | Interleave.Interleave |
