/** Collecting every `n`-th bit of an index back into one coordinate
    (src/deinterleave.rs): the output-width table and the O(log w) doubling
    gather, the mirror of the spread in `Interleave`. */
module Deinterleave {
  import opened Arith
  import opened Words
  import opened Mask
  import opened Interleave

  /** `DeinterleaveOutput<N>`: the coordinate type recovered from an index of
      type `t` holding `n` interleaved values. Pairs the table does not list
      have no `Deinterleave` implementation in the source. */
  function DeinterleaveOutput(t: UInt, n: nat): Option<UInt>
  {
    match t
    case U8 => None
    case U16 =>
      if n == 2 then Some(U8)
      else None
    case U32 =>
      if n == 2 then Some(U16)
      else if 3 <= n <= 4 then Some(U8)
      else None
    case U64 =>
      if n == 2 then Some(U32)
      else if 3 <= n <= 4 then Some(U16)
      else if 5 <= n <= 8 then Some(U8)
      else None
    case U128 =>
      if n == 2 then Some(U64)
      else if 3 <= n <= 4 then Some(U32)
      else if 5 <= n <= 8 then Some(U16)
      else if 9 <= n <= 16 then Some(U8)
      else None
  }

  /** The two tables are inverse to each other: an index type `t` yields
      coordinates of type `u` for `n` dimensions exactly when `n` values of
      type `u` interleave into `t`. */
  lemma DeinterleaveOutputInverse(t: UInt, u: UInt, n: nat)
    ensures DeinterleaveOutput(t, n) == Some(u) <==> InterleaveOutput(u, n) == Some(t)
  {
  }

  /** The coordinate every supported index type yields fits `n` times into it. */
  lemma DeinterleaveOutputFits(t: UInt, n: nat)
    requires DeinterleaveOutput(t, n).Some?
    ensures 2 <= n && n * DeinterleaveOutput(t, n).value.Bits() <= t.Bits()
  {
    InterleaveOutputSmallest(DeinterleaveOutput(t, n).value, n);
    DeinterleaveOutputInverse(t, DeinterleaveOutput(t, n).value, n);
  }

  /** What deinterleaving promises: bit `k` of the `len`-bit result is bit
      `k * n + s` of `x`, or clear where that lies beyond the width of `x`. */
  function Gather(x: Word, n: nat, s: nat, len: nat): Word
  {
    seq(len, k requires 0 <= k < len => k * n + s < |x| && x[k * n + s])
  }

  /** No set bit of `v` would be spread beyond `width` bits. */
  ghost predicate SpreadFits(v: Word, n: nat, width: nat)
  {
    forall k :: 0 <= k < |v| && v[k] ==> k * n < width
  }

  /** A set bit of a layout sits no higher than the spread would put it. */
  lemma LayoutBitBelow(v: Word, n: nat, h: nat, m: nat, p: nat, width: nat)
    requires n >= 1 && h >= 1 && m == n * h && SpreadFits(v, n, width)
    requires LayoutBit(v, m, h, p)
    ensures p < width
  {
    var q, r := Div(p, m), Mod(p, m);
    DivModOf(p, m);
    var k := q * h + r;
    assert v[k];
    assert p <= k * n by { LayoutBelowSpread(q, r, n, h, m, p); }
  }

  lemma LayoutBelowSpread(q: nat, r: nat, n: nat, h: nat, m: nat, p: nat)
    requires n >= 1 && m == n * h && p == q * m + r
    ensures p <= (q * h + r) * n
  {
    MulLe(1, n, r);
    assert (q * h + r) * n == q * (n * h) + r * n;
  }

  /** The first step, `(x >> s) & interleave_mask(n, 1)`, keeps the bits
      `k * n + s` of `x` at positions `k * n`: the layout with groups of one. */
  lemma GatherStart(x: Word, n: nat, s: nat)
    requires n >= 1 && s < |x|
    ensures And(Shr(x, s), Comb(|x|, n, 1)) == Layout(Gather(x, n, s, |x|), n, |x|, 1)
  {
    var v := Gather(x, n, s, |x|);
    forall p | 0 <= p < |x|
      ensures And(Shr(x, s), Comb(|x|, n, 1))[p] == Layout(v, n, |x|, 1)[p]
    {
      var q, r := Div(p, n), Mod(p, n);
      DivModOf(p, n);
      MulLe(1, n, q);
      assert Layout(v, n, |x|, 1)[p] == LayoutBit(v, n, 1, p);
      if r == 0 {
        assert q * 1 + r == q && q < |v|;
        assert v[q] == (p + s < |x| && x[p + s]);
      }
    }
  }

  /** One gather stage, bit by bit, with groups of `h` spaced `m = n * h`
      apart and `s = (n - 1) * h`: the bits of each pair of groups come
      together in one group of `2 * h`. The lower group stays; the upper one
      moves down by `s`; the comb `Mod(p, 2 * m) < 2 * h` keeps the result. */
  lemma GatherStageBit(v: Word, m: nat, h: nat, s: nat, p: nat)
    requires h >= 1 && 2 * h <= m && s == m - h
    ensures LayoutBit(v, 2 * m, 2 * h, p)
         == ((LayoutBit(v, m, h, p) || LayoutBit(v, m, h, p + s)) && Mod(p, 2 * m) < 2 * h)
  {
    var t, r := Div(p, 2 * m), Mod(p, 2 * m);
    DivModOf(p, 2 * m);
    if r < h {
      GatherStageLower(v, m, h, s, p, t, r);
    } else if r < 2 * h {
      GatherStageUpper(v, m, h, s, p, t, r);
    } else {
      LayoutBitAt(v, 2 * m, 2 * h, p, t, r);
    }
  }

  /** `GatherStageBit` in the lower half of a group of `2 * h`: the bit
      stays where it is. */
  lemma GatherStageLower(v: Word, m: nat, h: nat, s: nat, p: nat, t: nat, r: nat)
    requires h >= 1 && 2 * h <= m && s == m - h && p == t * (2 * m) + r && r < h
    ensures LayoutBit(v, 2 * m, 2 * h, p) == (LayoutBit(v, m, h, p) || LayoutBit(v, m, h, p + s))
  {
    LayoutBitAt(v, 2 * m, 2 * h, p, t, r);
    assert p == (2 * t) * m + r;
    LayoutBitAt(v, m, h, p, 2 * t, r);
    LayoutBitAt(v, m, h, p + s, 2 * t, r + s);
    assert (2 * t) * h == t * (2 * h);
  }

  /** `GatherStageBit` in the upper half of a group of `2 * h`: the bit
      comes down from the next group of `h`, `s` positions up. */
  lemma GatherStageUpper(v: Word, m: nat, h: nat, s: nat, p: nat, t: nat, r: nat)
    requires h >= 1 && 2 * h <= m && s == m - h && p == t * (2 * m) + r && h <= r < 2 * h
    ensures LayoutBit(v, 2 * m, 2 * h, p) == (LayoutBit(v, m, h, p) || LayoutBit(v, m, h, p + s))
  {
    LayoutBitAt(v, 2 * m, 2 * h, p, t, r);
    assert p == (2 * t) * m + r;
    LayoutBitAt(v, m, h, p, 2 * t, r);
    assert p + s == (2 * t + 1) * m + (r - h);
    LayoutBitAt(v, m, h, p + s, 2 * t + 1, r - h);
    assert (2 * t + 1) * h + (r - h) == t * (2 * h) + r;
  }

  /** One stage of the deinterleave loop on whole words: with groups of `h`
      in, `(x | x >> (n - 1) * h) & interleave_mask(n, 2 * h)` gives groups
      of `2 * h`. No bit is lost past the top of the word because no set bit
      of `v` is spread beyond it. */
  lemma GatherStage(v: Word, n: nat, width: nat, h: nat)
    requires n >= 2 && h >= 1 && (n - 1) * h < width && SpreadFits(v, n, width)
    ensures And(Or(Layout(v, n, width, h), Shr(Layout(v, n, width, h), (n - 1) * h)), Comb(width, n, 2 * h))
         == Layout(v, n, width, 2 * h)
  {
    var m := n * h;
    var s := (n - 1) * h;
    MulLe(2, n, h);
    assert n * (2 * h) == 2 * m;
    var x := Layout(v, n, width, h);
    var y := Shr(x, s);
    var z := Or(x, y);
    var c := Comb(width, n, 2 * h);
    var w := And(z, c);
    forall p | 0 <= p < width
      ensures w[p] == Layout(v, n, width, 2 * h)[p]
    {
      assert x[p] == LayoutBit(v, m, h, p);
      if p + s < width {
        assert y[p] == LayoutBit(v, m, h, p + s);
      } else if LayoutBit(v, m, h, p + s) {
        LayoutBitBelow(v, n, h, m, p + s, width);
      }
      assert c[p] == (Mod(p, 2 * m) < 2 * h);
      GatherStageBit(v, m, h, s, p);
    }
  }

  /** Once the group reaches the coordinate width `w`, the low `w` bits of
      the layout are the first `w` gathered bits. */
  lemma GatherEnd(v: Word, n: nat, width: nat, w: nat)
    requires n >= 1 && w >= 1 && n * w <= width && w <= |v|
    ensures Truncate(Layout(v, n, width, w), w) == v[..w]
  {
    MulLe(1, n, w);
    forall p | 0 <= p < w
      ensures Layout(v, n, width, w)[p] == v[p]
    {
      LayoutBitAt(v, n * w, w, p, 0, p);
    }
  }

  /** Every gathered bit comes from within the index, so it stays there when
      spread again. */
  lemma GatherFits(x: Word, n: nat, s: nat, len: nat)
    ensures SpreadFits(Gather(x, n, s, len), n, |x|)
  {
  }

  /** Stage `i` of the deinterleave loop, in the terms the loop uses: its
      mask width and shift fit the input type, and it doubles the groups. */
  lemma GatherLoopStep(v: Word, n: nat, width: nat, w: nat, i: nat, l: nat)
    requires n >= 2 && i < l && Pow2(l) == w && n * w <= width && SpreadFits(v, n, width)
    ensures Pow2(i + 1) <= width && InterleaveShift(n, i) < width
    ensures And(Or(Layout(v, n, width, Pow2(i)), Shr(Layout(v, n, width, Pow2(i)), InterleaveShift(n, i))),
                Comb(width, n, Pow2(i + 1)))
         == Layout(v, n, width, Pow2(i + 1))
  {
    StageShiftFits(n, w, i, l);
    MulLe(1, n, w);
    assert Pow2(i + 1) == 2 * Pow2(i);
    GatherStage(v, n, width, Pow2(i));
  }

  /** `Deinterleave::deinterleave`: isolate the stream starting at bit `s`
      with `(x >> s) & interleave_mask(n, 1)`, then for `i` from 0 up to
      `Output::BITS_ILOG2 - 1` apply
      `x = (x | x >> interleave_shift(i)) & interleave_mask(n, 2 << i)`,
      and narrow to the output type. */
  method Deinterleave(x: Word, t: UInt, n: nat, s: nat) returns (r: Word)
    requires |x| == t.Bits() && DeinterleaveOutput(t, n).Some? && s < t.Bits()
    ensures |r| == DeinterleaveOutput(t, n).value.Bits()
    ensures r == Gather(x, n, s, |r|)
    ensures forall k :: 0 <= k < |r| ==> (r[k] <==> k * n + s < |x| && x[k * n + s])
  {
    var u := DeinterleaveOutput(t, n).value;
    DeinterleaveOutputFits(t, n);
    var width := t.Bits();
    var w := u.Bits();
    Ilog2IsLog2(u);
    var v := Gather(x, n, s, width);
    GatherFits(x, n, s, width);
    var mask1 := InterleaveMask(t, n, 1);
    var y := And(Shr(x, s), mask1);
    GatherStart(x, n, s);
    for i := 0 to u.Ilog2()
      invariant y == Layout(v, n, width, Pow2(i))
    {
      GatherLoopStep(v, n, width, w, i, u.Ilog2());
      var mask := InterleaveMask(t, n, Pow2(i + 1));
      var shift := InterleaveShift(n, i);
      y := And(Or(y, Shr(y, shift)), mask);
    }
    MulLe(1, n, w);
    GatherEnd(v, n, width, w);
    r := Truncate(y, w);
    GatherPrefix(x, n, s, width, w);
  }

  /** The first `w` bits of a gathered stream are the stream gathered to `w` bits. */
  lemma GatherPrefix(x: Word, n: nat, s: nat, len: nat, w: nat)
    requires w <= len
    ensures Gather(x, n, s, len)[..w] == Gather(x, n, s, w)
  {
  }

  /** Gathering the stream at offset `s` from a spread shifted to offset `j`
      gives back the spread value when `j == s` and zero otherwise: the axes
      of an index do not mix. */
  lemma AxisSeparation(v: Word, n: nat, width: nat, j: nat, s: nat)
    requires n >= 1 && j < n && s < n && n * |v| <= width && j < width
    ensures Gather(Shl(Spread(v, n, width), j), n, s, |v|) == if j == s then v else Zeros(|v|)
  {
    var x := Shl(Spread(v, n, width), j);
    forall k | 0 <= k < |v|
      ensures Gather(x, n, s, |v|)[k] == (j == s && v[k])
    {
      BelowSpread(k, |v|, n, s);
      AxisBit(v, n, width, j, s, k);
    }
  }

  /** Position `k * n + s` of the spread shifted to axis `j` holds bit `k`
      of `v` when `j == s`, and nothing otherwise. */
  lemma AxisBit(v: Word, n: nat, width: nat, j: nat, s: nat, k: nat)
    requires j < n && s < n && j < width && k * n + s < width && k < |v|
    ensures Shl(Spread(v, n, width), j)[k * n + s] == (j == s && v[k])
  {
    var p := k * n + s;
    DivModUnique(p, n, k, s);
    ShiftedSpreadBit(v, n, width, j, p);
  }

  /** Position `k * n + s` with `k < c` and `s < n` lies below `n * c`. */
  lemma BelowSpread(k: nat, c: nat, n: nat, s: nat)
    requires k < c && s < n
    ensures k * n + s < n * c
  {
    MulLe(k + 1, c, n);
  }

  /** Bit `p` of a spread shifted left by `j < n`: only positions congruent
      to `j` modulo `n` can be set, and those carry bit `p / n` of `v`. */
  lemma ShiftedSpreadBit(v: Word, n: nat, width: nat, j: nat, p: nat)
    requires n >= 1 && j < n && j < width && p < width
    ensures Shl(Spread(v, n, width), j)[p]
        == (Mod(p, n) == j && Div(p, n) < |v| && v[Div(p, n)])
  {
    ShlBit(Spread(v, n, width), j, p);
    if j <= p {
      SpreadBitBack(v, n, width, j, p);
    } else {
      DivModUnique(p, n, 0, p);
    }
  }

  /** Bit `p - j` of a spread, read back from position `p`: it is set only
      when `p` leaves remainder `j`, and then it carries bit `p / n` of `v`. */
  lemma SpreadBitBack(v: Word, n: nat, width: nat, j: nat, p: nat)
    requires n >= 1 && j < n && j <= p < width
    ensures Spread(v, n, width)[p - j] == (Mod(p, n) == j && Div(p, n) < |v| && v[Div(p, n)])
  {
    SpreadBit(v, n, width, p - j);
    if Mod(p, n) == j {
      ModShiftHit(p, j, n);
    } else {
      ModShiftMiss(p, j, n);
    }
  }

  /** A position with remainder `j` lies a whole number of periods above `j`. */
  lemma ModShiftHit(p: nat, j: nat, n: nat)
    requires j < n && j <= p && Mod(p, n) == j
    ensures Mod(p - j, n) == 0 && Div(p - j, n) == Div(p, n)
  {
    ModShift(p, j, n);
  }

  /** Any other position above `j` is not a whole number of periods above it. */
  lemma ModShiftMiss(p: nat, j: nat, n: nat)
    requires j < n && j <= p && Mod(p, n) != j
    ensures Mod(p - j, n) != 0
  {
    ModShift(p, j, n);
  }

  /** `p - j` is a multiple of `n` exactly when `p` leaves remainder `j`
      (which needs `j <= p`), and then both have the same quotient. */
  lemma ModShift(p: nat, j: nat, n: nat)
    requires j < n
    ensures (j <= p && Mod(p - j, n) == 0) == (Mod(p, n) == j)
    ensures j <= p && Mod(p - j, n) == 0 ==> Div(p - j, n) == Div(p, n)
  {
    if j <= p {
      var q2, r2 := Div(p - j, n), Mod(p - j, n);
      DivModOf(p - j, n);
      if r2 + j < n {
        DivModUnique(p, n, q2, r2 + j);
      } else {
        assert p == (q2 + 1) * n + (r2 + j - n);
        DivModUnique(p, n, q2 + 1, r2 + j - n);
      }
    } else {
      DivModUnique(p, n, 0, p);
    }
  }

  /** `deinterleave(64u16, 0) == 8` and `deinterleave(64u16, 1) == 0` for
      two dimensions: bit 6 of the index is bit 3 of axis 0. */
  lemma DeinterleaveExample()
    ensures Gather(FromNat(64, 16), 2, 0, 8) == FromNat(8, 8)
    ensures Gather(FromNat(64, 16), 2, 1, 8) == FromNat(0, 8)
  {
    var x := FromNat(Pow2(6), 16);
    var e := FromNat(Pow2(3), 8);
    PowerBits(6, 16);
    PowerBits(3, 8);
    ZeroBits(8);
    forall k | 0 <= k < 8
      ensures Gather(x, 2, 0, 8)[k] == e[k] && !Gather(x, 2, 1, 8)[k]
    {
      assert x[k * 2] <==> k * 2 == 6;
      assert x[k * 2 + 1] <==> k * 2 + 1 == 6;
    }
    assert Pow2(6) == 64 && Pow2(3) == 8;
  }
}
