/** Bit counts of the supported unsigned types and the masks used by every
    interleave and deinterleave stage (src/mask.rs). */
module Mask {
  import opened Arith
  import opened Words

  /** The unsigned integer types that implement `BitCount`. */
  datatype UInt = U8 | U16 | U32 | U64 | U128
  {
    /** `BitCount::BITS`. */
    function Bits(): nat
    {
      match this
      case U8 => 8
      case U16 => 16
      case U32 => 32
      case U64 => 64
      case U128 => 128
    }

    /** `BitCount::BITS_ILOG2`, computed as the source does: the number of
        trailing zero bits of `BITS`. */
    function Ilog2(): nat
    {
      TrailingZeros(Bits())
    }
  }

  /** `u32::trailing_zeros` of a non-zero number. */
  function TrailingZeros(x: nat): nat
    requires x > 0
  {
    if x % 2 == 1 then 0 else 1 + TrailingZeros(x / 2)
  }

  /** Counting trailing zeros gives the base-2 logarithm because every
      supported width is a power of two. */
  lemma Ilog2IsLog2(t: UInt)
    ensures Pow2(t.Ilog2()) == t.Bits()
    ensures t.Ilog2() == match t
      case U8 => 3 case U16 => 4 case U32 => 5 case U64 => 6 case U128 => 7
  {
    match t
    case U8 => assert TrailingZeros(8) == 3;
    case U16 => assert TrailingZeros(16) == 4;
    case U32 => assert TrailingZeros(32) == 5;
    case U64 => assert TrailingZeros(64) == 6;
    case U128 => assert TrailingZeros(128) == 7;
  }

  /** `interleave_shift`: the distance bits move at doubling stage `i` when
      `dim` values are interleaved, `(dim - 1) << i`. Groups of `2^i` bits
      that start `dim * 2^i` apart are that far from closing the gap. */
  function InterleaveShift(dim: nat, i: nat): (r: nat)
    requires dim >= 1
    ensures r + Pow2(i) == dim * Pow2(i)
  {
    (dim - 1) * Pow2(i)
  }

  /** The stage loops call `interleave_shift(i, N)` while the function is
      declared as `interleave_shift(dim, i)`. Taken as declared, stage 1 with
      two dimensions asks for `(1 - 1) << 2`, no shift at all, where the
      algorithm needs `(2 - 1) << 1`; a stage with no shift only masks
      (and at stage 0 the subtraction `0 - 1` underflows and panics). */
  lemma SwappedShiftArguments(x: Word)
    requires |x| >= 1
    ensures InterleaveShift(1, 2) == 0 && InterleaveShift(2, 1) == 2
    ensures Or(x, Shl(x, InterleaveShift(1, 2))) == x
  {
    assert Pow2(2) == 4;
    assert Pow2(1) == 2;
  }

  /** `bit_mask::<T>(bits)`: `T::max_value() >> (T::BITS - bits)`. A zero
      `bits` shifts by the full width and a `bits` above the width underflows
      the subtraction; both panic in the source. */
  function BitMask(t: UInt, bits: nat): (r: Word)
    requires 0 < bits <= t.Bits()
    ensures |r| == t.Bits()
    ensures forall j :: 0 <= j < t.Bits() ==> (r[j] <==> j < bits)
    ensures ToNat(r) == Pow2(bits) - 1
  {
    var r := Shr(AllOnes(t.Bits()), t.Bits() - bits);
    LowOnesValue(r, bits);
    r
  }

  /** A word whose set bits are exactly its low `k` bits denotes 2^k - 1. */
  lemma {:induction false} LowOnesValue(a: Word, k: nat)
    requires k <= |a|
    requires forall j :: 0 <= j < |a| ==> (a[j] <==> j < k)
    ensures ToNat(a) == Pow2(k) - 1
  {
    if k == 0 {
      ToNatZeros(a);
    } else {
      LowOnesValue(a[1..], k - 1);
    }
  }

  /** The shape `interleave_mask(dim, bits)` is meant to have in a `width`-bit
      type: bit `j` is set iff `Mod(j, dim * bits) < bits`, that is, runs of
      `bits` set bits starting at every multiple of `dim * bits`. */
  function Comb(width: nat, dim: nat, bits: nat): Word
    requires dim >= 1 && bits >= 1
  {
    seq(width, j requires 0 <= j < width => Mod(j, dim * bits) < bits)
  }

  /** The runs of the comb placed so far: those starting below `i * dim * bits`. */
  ghost function CombPrefix(width: nat, dim: nat, bits: nat, i: nat): Word
    requires dim >= 1 && bits >= 1
  {
    seq(width, j requires 0 <= j < width => j < i * dim * bits && Mod(j, dim * bits) < bits)
  }

  /** Every shift `i * dim * bits` taken by the mask loop stays below the
      width: the loop runs `ceil(ceil(BITS / dim) / bits)` times. */
  lemma MaskShiftInRange(width: nat, dim: nat, bits: nat, i: nat)
    requires dim >= 1 && bits >= 1
    requires i < CeilDiv(CeilDiv(width, dim), bits)
    ensures i * dim * bits < width
  {
    CeilDivBound(i, CeilDiv(width, dim), bits);
    CeilDivBound(i * bits, width, dim);
    assert i * dim * bits == i * bits * dim;
  }

  /** After its last iteration the mask loop has covered the whole width. */
  lemma MaskLoopCovers(width: nat, dim: nat, bits: nat)
    requires dim >= 1 && bits >= 1
    ensures CeilDiv(CeilDiv(width, dim), bits) * dim * bits >= width
  {
    var c := CeilDiv(CeilDiv(width, dim), bits);
    CeilDivBound(c, CeilDiv(width, dim), bits);
    CeilDivBound(c * bits, width, dim);
    assert c * dim * bits == c * bits * dim;
  }

  /** Inside the run window starting at `i * m`, the remainder mod `m` is the
      offset into the window. */
  lemma CombWindow(j: nat, i: nat, m: nat)
    requires m > 0 && i * m <= j < i * m + m
    ensures Mod(j, m) == j - i * m
  {
    DivModUnique(j, m, i, j - i * m);
  }

  /** The bit-level step of `CombPrefixStep`, with the word bits and the
      remainder `r == Mod(j, m)` given as plain values. */
  lemma CombStepLogic(j: nat, shift: nat, m: nat, bits: nat, r: nat, before: bool, moved: bool, after: bool)
    requires 1 <= bits <= m
    requires shift <= j < shift + m ==> r == j - shift
    requires before == (j < shift && r < bits)
    requires moved == (shift <= j && j - shift < bits)
    requires after == (j < shift + m && r < bits)
    ensures (before || moved) == after
  {
  }

  /** One iteration of the mask loop adds the run starting at `i * dim * bits`. */
  lemma CombPrefixStep(width: nat, dim: nat, bits: nat, i: nat, mask: Word)
    requires dim >= 1 && bits >= 1 && i * dim * bits < width
    requires |mask| == width && forall j :: 0 <= j < width ==> (mask[j] <==> j < bits)
    ensures Or(CombPrefix(width, dim, bits, i), Shl(mask, i * dim * bits))
         == CombPrefix(width, dim, bits, i + 1)
  {
    var m := dim * bits;
    var shift := i * dim * bits;
    var prefix, moved := CombPrefix(width, dim, bits, i), Shl(mask, shift);
    var next, after := Or(prefix, moved), CombPrefix(width, dim, bits, i + 1);
    assert (i + 1) * dim * bits == shift + m;
    assert shift == i * m;
    MulLe(1, dim, bits);
    forall j | 0 <= j < width
      ensures next[j] == after[j]
    {
      if shift <= j < shift + m {
        CombWindow(j, i, m);
      }
      ShlBit(mask, shift, j);
      CombStepLogic(j, shift, m, bits, Mod(j, m), prefix[j], moved[j], after[j]);
    }
  }

  /** Once the runs placed reach the width, the prefix is the whole comb. */
  lemma CombPrefixFull(width: nat, dim: nat, bits: nat, i: nat)
    requires dim >= 1 && bits >= 1 && i * dim * bits >= width
    ensures CombPrefix(width, dim, bits, i) == Comb(width, dim, bits)
  {
  }

  /** Iteration `i` of the mask loop, in the terms the loop uses: its shift
      stays inside the type and it adds the next run of the comb. */
  lemma MaskLoopStep(width: nat, dim: nat, bits: nat, i: nat, mask: Word)
    requires dim >= 1 && bits >= 1 && i < CeilDiv(CeilDiv(width, dim), bits)
    requires |mask| == width && forall j :: 0 <= j < width ==> (mask[j] <==> j < bits)
    ensures 0 <= i * dim * bits < width
    ensures Or(CombPrefix(width, dim, bits, i), Shl(mask, i * dim * bits))
         == CombPrefix(width, dim, bits, i + 1)
  {
    MaskShiftInRange(width, dim, bits, i);
    CombPrefixStep(width, dim, bits, i, mask);
  }

  /** The mask loop starts from no run and ends with the whole comb. */
  lemma MaskLoopBounds(width: nat, dim: nat, bits: nat)
    requires dim >= 1 && bits >= 1
    ensures Zeros(width) == CombPrefix(width, dim, bits, 0)
    ensures CombPrefix(width, dim, bits, CeilDiv(CeilDiv(width, dim), bits)) == Comb(width, dim, bits)
  {
    MaskLoopCovers(width, dim, bits);
    CombPrefixFull(width, dim, bits, CeilDiv(CeilDiv(width, dim), bits));
  }

  /** `interleave_mask::<T>(dim, bits)`: OR together `bit_mask(bits)` shifted
      to every multiple of `dim * bits` below the width. */
  method InterleaveMask(t: UInt, dim: nat, bits: nat) returns (acc: Word)
    requires dim >= 1 && 0 < bits <= t.Bits()
    ensures acc == Comb(t.Bits(), dim, bits)
  {
    var width := t.Bits();
    acc := Zeros(width);
    var mask := BitMask(t, bits);
    var ceilDivDim := CeilDiv(width, dim);
    var ceilDivBits := CeilDiv(ceilDivDim, bits);
    MaskLoopBounds(width, dim, bits);
    for i := 0 to ceilDivBits
      invariant acc == CombPrefix(width, dim, bits, i)
    {
      MaskLoopStep(width, dim, bits, i, mask);
      acc := Or(acc, Shl(mask, i * dim * bits));
    }
  }

  /** The comb's shape: its first run starts at bit 0, and bit `j` of the run
      window starting at `i * dim * bits` is set iff it lies in the first
      `bits` bits of that window. */
  lemma CombRuns(width: nat, dim: nat, bits: nat, i: nat, j: nat)
    requires dim >= 1 && bits >= 1
    requires i * (dim * bits) <= j < i * (dim * bits) + dim * bits && j < width
    ensures Comb(width, dim, bits)[j] <==> j - i * (dim * bits) < bits
  {
    CombWindow(j, i, dim * bits);
  }

  /** The comb holds `ceil(width / (dim * bits))` runs (the last possibly cut
      short by the width), the number of iterations of the mask loop. */
  lemma CombRunCount(width: nat, dim: nat, bits: nat, i: nat)
    requires dim >= 1 && bits >= 1
    ensures i < CeilDiv(width, dim * bits) <==> i * (dim * bits) < width
    ensures i < CeilDiv(width, dim * bits) <==> i < CeilDiv(CeilDiv(width, dim), bits)
  {
    CeilDivBound(i, width, dim * bits);
    CeilDivBound(i, CeilDiv(width, dim), bits);
    CeilDivBound(i * bits, width, dim);
    assert i * (dim * bits) == i * bits * dim;
  }

  /** Adding a whole number of periods leaves the offset in the period unchanged. */
  lemma ModAddMultiple(x: nat, c: nat, m: nat)
    requires m > 0
    ensures Mod(x + c * m, m) == Mod(x, m)
  {
    DivModOf(x, m);
    assert x + c * m == (Div(x, m) + c) * m + Mod(x, m);
    DivModUnique(x + c * m, m, Div(x, m) + c, Mod(x, m));
  }

  /** A comb whose width is a multiple of its period `dim * bits` continues
      with the comb of the remaining width. */
  lemma CombAppend(a: nat, width: nat, dim: nat, bits: nat)
    requires dim >= 1 && bits >= 1 && a % (dim * bits) == 0
    ensures Comb(a + width, dim, bits) == Comb(a, dim, bits) + Comb(width, dim, bits)
  {
    var m := dim * bits;
    DivModAgree(a, m);
    DivModOf(a, m);
    var c := Div(a, m);
    var whole, rest := Comb(a + width, dim, bits), Comb(width, dim, bits);
    forall j | a <= j < a + width
      ensures whole[j] == rest[j - a]
    {
      ModAddMultiple(j - a, c, m);
    }
  }

  /** A comb no wider than one period is a single run of low bits. */
  lemma CombShortValue(width: nat, dim: nat, bits: nat)
    requires dim >= 1 && bits >= 1 && width <= dim * bits
    ensures ToNat(Comb(width, dim, bits)) == Pow2(if bits < width then bits else width) - 1
  {
    var c := Comb(width, dim, bits);
    forall j | 0 <= j < width
      ensures c[j] <==> j < bits
    {
      DivModUnique(j, dim * bits, 0, j);
    }
    LowOnesValue(c, if bits < width then bits else width);
  }

  /** The value of a comb built from a whole number of periods and a rest. */
  lemma CombAppendValue(a: nat, width: nat, dim: nat, bits: nat, va: nat, vw: nat)
    requires dim >= 1 && bits >= 1 && a % (dim * bits) == 0
    requires ToNat(Comb(a, dim, bits)) == va && ToNat(Comb(width, dim, bits)) == vw
    ensures ToNat(Comb(a + width, dim, bits)) == va + Pow2(a) * vw
  {
    CombAppend(a, width, dim, bits);
    ToNatAppend(Comb(a, dim, bits), Comb(width, dim, bits));
  }
}
