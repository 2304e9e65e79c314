/** The concrete values the unit tests of src/mask.rs expect, derived from
    the general statements of `Mask`: `interleave_mask` computes `Comb` and
    `bit_mask` sets the low bits. */
module MaskValues {
  import opened Arith
  import opened Words
  import opened Mask

  /** `allowed_masks`: `bit_mask(4)` is `0xF` in every type, and `bit_mask`
      of the full width is `max_value`. */
  lemma AllowedMasks()
    ensures forall t: UInt :: ToNat(BitMask(t, 4)) == 0xF
    ensures ToNat(BitMask(U8, 8)) == 0xFF
    ensures ToNat(BitMask(U16, 16)) == 0xFFFF
    ensures ToNat(BitMask(U32, 32)) == 0xFFFF_FFFF
    ensures ToNat(BitMask(U64, 64)) == 0xFFFF_FFFF_FFFF_FFFF
    ensures ToNat(BitMask(U128, 128)) == 0xFFFF_FFFF_FFFF_FFFF_FFFF_FFFF_FFFF_FFFF
  {
    Pow2Values();
  }

  /** `ilog2`: `BITS_ILOG2` is 3, 4, 5, 6 and 7 for `u8` to `u128`. */
  lemma Ilog2Values()
    ensures U8.Ilog2() == 3 && U16.Ilog2() == 4 && U32.Ilog2() == 5
    ensures U64.Ilog2() == 6 && U128.Ilog2() == 7
  {
    Ilog2IsLog2(U8);
    Ilog2IsLog2(U16);
    Ilog2IsLog2(U32);
    Ilog2IsLog2(U64);
    Ilog2IsLog2(U128);
  }

  /** `interleave_mask_dim2`: `interleave_mask::<u128>(2, 32)`. */
  lemma InterleaveMaskDim2Bits32()
    ensures ToNat(Comb(128, 2, 32)) == 0x0000_0000_FFFF_FFFF_00000000_FFFF_FFFF
  {
    Pow2Values();
    CombShortValue(64, 2, 32);
    CombAppendValue(64, 64, 2, 32, 0xffffffff, 0xffffffff);
  }

  /** `interleave_mask_dim2`: `interleave_mask::<u128>(2, 16)`. */
  lemma InterleaveMaskDim2Bits16()
    ensures ToNat(Comb(128, 2, 16)) == 0x0000_FFFF_0000_FFFF_0000_FFFF_0000_FFFF
  {
    Pow2Values();
    CombShortValue(32, 2, 16);
    CombAppendValue(32, 32, 2, 16, 0xffff, 0xffff);
    CombAppendValue(64, 64, 2, 16, 0xffff0000ffff, 0xffff0000ffff);
  }

  /** `interleave_mask_dim2`: `interleave_mask::<u128>(2, 8)`. */
  lemma InterleaveMaskDim2Bits8()
    ensures ToNat(Comb(128, 2, 8)) == 0x00FF_00FF_00FF_00FF_00FF_00FF_00FF_00FF
  {
    Pow2Values();
    CombShortValue(16, 2, 8);
    CombAppendValue(16, 16, 2, 8, 0xff, 0xff);
    CombAppendValue(32, 32, 2, 8, 0xff00ff, 0xff00ff);
    CombAppendValue(64, 64, 2, 8, 0xff00ff00ff00ff, 0xff00ff00ff00ff);
  }

  /** `interleave_mask_dim2`: `interleave_mask::<u128>(2, 4)`. */
  lemma InterleaveMaskDim2Bits4()
    ensures ToNat(Comb(128, 2, 4)) == 0x0F0F_0F0F_0F0F_0F0F_0F0F_0F0F_0F0F_0F0F
  {
    Pow2Values();
    CombShortValue(8, 2, 4);
    CombAppendValue(8, 8, 2, 4, 0xf, 0xf);
    CombAppendValue(16, 16, 2, 4, 0xf0f, 0xf0f);
    CombAppendValue(32, 32, 2, 4, 0xf0f0f0f, 0xf0f0f0f);
    CombAppendValue(64, 64, 2, 4, 0xf0f0f0f0f0f0f0f, 0xf0f0f0f0f0f0f0f);
  }

  /** `interleave_mask_dim2`: `interleave_mask::<u128>(2, 2)`. */
  lemma InterleaveMaskDim2Bits2()
    ensures ToNat(Comb(128, 2, 2)) == 0x3333_3333_3333_3333_3333_3333_3333_3333
  {
    Pow2Values();
    CombShortValue(4, 2, 2);
    CombAppendValue(4, 4, 2, 2, 0x3, 0x3);
    CombAppendValue(8, 8, 2, 2, 0x33, 0x33);
    CombAppendValue(16, 16, 2, 2, 0x3333, 0x3333);
    CombAppendValue(32, 32, 2, 2, 0x33333333, 0x33333333);
    CombAppendValue(64, 64, 2, 2, 0x3333333333333333, 0x3333333333333333);
  }

  /** `interleave_mask_dim2`: `interleave_mask::<u128>(2, 1)`. */
  lemma InterleaveMaskDim2Bits1()
    ensures ToNat(Comb(128, 2, 1)) == 0x5555_5555_5555_5555_5555_5555_5555_5555
  {
    Pow2Values();
    CombShortValue(2, 2, 1);
    CombAppendValue(2, 2, 2, 1, 0x1, 0x1);
    CombAppendValue(4, 4, 2, 1, 0x5, 0x5);
    CombAppendValue(8, 8, 2, 1, 0x55, 0x55);
    CombAppendValue(16, 16, 2, 1, 0x5555, 0x5555);
    CombAppendValue(32, 32, 2, 1, 0x55555555, 0x55555555);
    CombAppendValue(64, 64, 2, 1, 0x5555555555555555, 0x5555555555555555);
  }

  /** `interleave_mask_dim3`: `interleave_mask::<u128>(3, 16)`. */
  lemma InterleaveMaskDim3Bits16()
    ensures ToNat(Comb(128, 3, 16)) == 0x0000_FFFF_0000_0000_FFFF_0000_0000_FFFF
  {
    Pow2Values();
    CombShortValue(48, 3, 16);
    CombAppendValue(48, 48, 3, 16, 0xffff, 0xffff);
    CombShortValue(32, 3, 16);
    CombAppendValue(96, 32, 3, 16, 0xffff00000000ffff, 0xffff);
  }

  /** `interleave_mask_dim3`: `interleave_mask::<u128>(3, 8)`. */
  lemma InterleaveMaskDim3Bits8()
    ensures ToNat(Comb(128, 3, 8)) == 0xFF00_00FF_0000_FF00_00FF_0000_FF00_00FF
  {
    Pow2Values();
    CombShortValue(24, 3, 8);
    CombAppendValue(24, 24, 3, 8, 0xff, 0xff);
    CombAppendValue(48, 48, 3, 8, 0xff0000ff, 0xff0000ff);
    CombShortValue(8, 3, 8);
    CombAppendValue(24, 8, 3, 8, 0xff, 0xff);
    CombAppendValue(96, 32, 3, 8, 0xff0000ff0000ff0000ff, 0xff0000ff);
  }

  /** `interleave_mask_dim3`: `interleave_mask::<u128>(3, 4)`. */
  lemma InterleaveMaskDim3Bits4()
    ensures ToNat(Comb(128, 3, 4)) == 0x0F00_F00F_00F0_0F00_F00F_00F0_0F00_F00F
  {
    Pow2Values();
    CombShortValue(12, 3, 4);
    CombAppendValue(12, 12, 3, 4, 0xf, 0xf);
    CombAppendValue(24, 24, 3, 4, 0xf00f, 0xf00f);
    CombAppendValue(48, 48, 3, 4, 0xf00f00f00f, 0xf00f00f00f);
    CombShortValue(8, 3, 4);
    CombAppendValue(24, 8, 3, 4, 0xf00f, 0xf);
    CombAppendValue(96, 32, 3, 4, 0xf00f00f00f00f00f00f00f, 0xf00f00f);
  }

  /** `interleave_mask_dim3`: `interleave_mask::<u128>(3, 2)`. */
  lemma InterleaveMaskDim3Bits2()
    ensures ToNat(Comb(128, 3, 2)) == 0xC30C_30C3_0C30_C30C_30C3_0C30_C30C_30C3
  {
    Pow2Values();
    CombShortValue(6, 3, 2);
    CombAppendValue(6, 6, 3, 2, 0x3, 0x3);
    CombAppendValue(12, 12, 3, 2, 0xc3, 0xc3);
    CombAppendValue(24, 24, 3, 2, 0xc30c3, 0xc30c3);
    CombAppendValue(48, 48, 3, 2, 0xc30c30c30c3, 0xc30c30c30c3);
    CombShortValue(2, 3, 2);
    CombAppendValue(6, 2, 3, 2, 0x3, 0x3);
    CombAppendValue(24, 8, 3, 2, 0xc30c3, 0xc3);
    CombAppendValue(96, 32, 3, 2, 0xc30c30c30c30c30c30c30c3, 0xc30c30c3);
  }

  /** `interleave_mask_dim3`: `interleave_mask::<u128>(3, 1)`. */
  lemma InterleaveMaskDim3Bits1()
    ensures ToNat(Comb(128, 3, 1)) == 0x4924_9249_2492_4924_9249_2492_4924_9249
  {
    Pow2Values();
    CombShortValue(3, 3, 1);
    CombAppendValue(3, 3, 3, 1, 0x1, 0x1);
    CombAppendValue(6, 6, 3, 1, 0x9, 0x9);
    CombAppendValue(12, 12, 3, 1, 0x249, 0x249);
    CombAppendValue(24, 24, 3, 1, 0x249249, 0x249249);
    CombAppendValue(48, 48, 3, 1, 0x249249249249, 0x249249249249);
    CombShortValue(2, 3, 1);
    CombAppendValue(6, 2, 3, 1, 0x9, 0x1);
    CombAppendValue(24, 8, 3, 1, 0x249249, 0x49);
    CombAppendValue(96, 32, 3, 1, 0x249249249249249249249249, 0x49249249);
  }

  /** `interleave_mask_dim4`: `interleave_mask::<u128>(4, 16)`. */
  lemma InterleaveMaskDim4Bits16()
    ensures ToNat(Comb(128, 4, 16)) == 0x0000_0000_0000_FFFF_0000_0000_0000_FFFF
  {
    Pow2Values();
    CombShortValue(64, 4, 16);
    CombAppendValue(64, 64, 4, 16, 0xffff, 0xffff);
  }

  /** `interleave_mask_dim4`: `interleave_mask::<u128>(4, 8)`. */
  lemma InterleaveMaskDim4Bits8()
    ensures ToNat(Comb(128, 4, 8)) == 0x0000_00FF_0000_00FF_0000_00FF_0000_00FF
  {
    Pow2Values();
    CombShortValue(32, 4, 8);
    CombAppendValue(32, 32, 4, 8, 0xff, 0xff);
    CombAppendValue(64, 64, 4, 8, 0xff000000ff, 0xff000000ff);
  }

  /** `interleave_mask_dim4`: `interleave_mask::<u128>(4, 4)`. */
  lemma InterleaveMaskDim4Bits4()
    ensures ToNat(Comb(128, 4, 4)) == 0x000F_000F_000F_000F_000F_000F_000F_000F
  {
    Pow2Values();
    CombShortValue(16, 4, 4);
    CombAppendValue(16, 16, 4, 4, 0xf, 0xf);
    CombAppendValue(32, 32, 4, 4, 0xf000f, 0xf000f);
    CombAppendValue(64, 64, 4, 4, 0xf000f000f000f, 0xf000f000f000f);
  }

  /** `interleave_mask_dim4`: `interleave_mask::<u128>(4, 2)`. */
  lemma InterleaveMaskDim4Bits2()
    ensures ToNat(Comb(128, 4, 2)) == 0x0303_0303_0303_0303_0303_0303_0303_0303
  {
    Pow2Values();
    CombShortValue(8, 4, 2);
    CombAppendValue(8, 8, 4, 2, 0x3, 0x3);
    CombAppendValue(16, 16, 4, 2, 0x303, 0x303);
    CombAppendValue(32, 32, 4, 2, 0x3030303, 0x3030303);
    CombAppendValue(64, 64, 4, 2, 0x303030303030303, 0x303030303030303);
  }

  /** `interleave_mask_dim4`: `interleave_mask::<u128>(4, 1)`. */
  lemma InterleaveMaskDim4Bits1()
    ensures ToNat(Comb(128, 4, 1)) == 0x1111_1111_1111_1111_1111_1111_1111_1111
  {
    Pow2Values();
    CombShortValue(4, 4, 1);
    CombAppendValue(4, 4, 4, 1, 0x1, 0x1);
    CombAppendValue(8, 8, 4, 1, 0x11, 0x11);
    CombAppendValue(16, 16, 4, 1, 0x1111, 0x1111);
    CombAppendValue(32, 32, 4, 1, 0x11111111, 0x11111111);
    CombAppendValue(64, 64, 4, 1, 0x1111111111111111, 0x1111111111111111);
  }

  /** `truncated_interleave_mask`: `interleave_mask::<u32>(2, 32)`, cut at 32 bits. */
  lemma TruncatedInterleaveMaskBits32()
    ensures ToNat(Comb(32, 2, 32)) == 0xFFFF_FFFF
  {
    Pow2Values();
    CombShortValue(32, 2, 32);
  }

  /** `truncated_interleave_mask`: `interleave_mask::<u32>(2, 16)`, cut at 32 bits. */
  lemma TruncatedInterleaveMaskBits16()
    ensures ToNat(Comb(32, 2, 16)) == 0x0000_FFFF
  {
    Pow2Values();
    CombShortValue(32, 2, 16);
  }

  /** `truncated_interleave_mask`: `interleave_mask::<u32>(2, 8)`, cut at 32 bits. */
  lemma TruncatedInterleaveMaskBits8()
    ensures ToNat(Comb(32, 2, 8)) == 0x00FF_00FF
  {
    Pow2Values();
    CombShortValue(16, 2, 8);
    CombAppendValue(16, 16, 2, 8, 0xff, 0xff);
  }

  /** `truncated_interleave_mask`: `interleave_mask::<u32>(2, 4)`, cut at 32 bits. */
  lemma TruncatedInterleaveMaskBits4()
    ensures ToNat(Comb(32, 2, 4)) == 0x0F0F_0F0F
  {
    Pow2Values();
    CombShortValue(8, 2, 4);
    CombAppendValue(8, 8, 2, 4, 0xf, 0xf);
    CombAppendValue(16, 16, 2, 4, 0xf0f, 0xf0f);
  }

  /** `truncated_interleave_mask`: `interleave_mask::<u32>(2, 2)`, cut at 32 bits. */
  lemma TruncatedInterleaveMaskBits2()
    ensures ToNat(Comb(32, 2, 2)) == 0x3333_3333
  {
    Pow2Values();
    CombShortValue(4, 2, 2);
    CombAppendValue(4, 4, 2, 2, 0x3, 0x3);
    CombAppendValue(8, 8, 2, 2, 0x33, 0x33);
    CombAppendValue(16, 16, 2, 2, 0x3333, 0x3333);
  }

  /** `truncated_interleave_mask`: `interleave_mask::<u32>(2, 1)`, cut at 32 bits. */
  lemma TruncatedInterleaveMaskBits1()
    ensures ToNat(Comb(32, 2, 1)) == 0x5555_5555
  {
    Pow2Values();
    CombShortValue(2, 2, 1);
    CombAppendValue(2, 2, 2, 1, 0x1, 0x1);
    CombAppendValue(4, 4, 2, 1, 0x5, 0x5);
    CombAppendValue(8, 8, 2, 1, 0x55, 0x55);
    CombAppendValue(16, 16, 2, 1, 0x5555, 0x5555);
  }

  /** `odd_large_dimension_mask`: `interleave_mask::<u32>(13, 1)` is
      `0b1_0000_0000_0000_1_0000_0000_0000_1`. */
  lemma OddLargeDimensionMask()
    ensures ToNat(Comb(32, 13, 1)) == 0x400_2001
  {
    Pow2Values();
    CombShortValue(13, 13, 1);
    CombAppendValue(13, 13, 13, 1, 0x1, 0x1);
    CombShortValue(6, 13, 1);
    CombAppendValue(26, 6, 13, 1, 0x2001, 0x1);
  }

  /** The same mask bit by bit: with a period of 13 bits in a 32-bit type
      only bits 0, 13 and 26 are set. */
  lemma OddLargeDimensionBits()
    ensures forall j :: 0 <= j < 32 ==> (Comb(32, 13, 1)[j] <==> j == 0 || j == 13 || j == 26)
  {
    forall j | 0 <= j < 32
      ensures Comb(32, 13, 1)[j] <==> j == 0 || j == 13 || j == 26
    {
      if j < 13 {
        CombRuns(32, 13, 1, 0, j);
      } else if j < 26 {
        CombRuns(32, 13, 1, 1, j);
      } else {
        CombRuns(32, 13, 1, 2, j);
      }
    }
  }
}
