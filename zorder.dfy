/** Z-order (Morton) indexes of coordinate arrays and back (src/lib.rs): the
    index is the OR of every coordinate's spread shifted to its axis, and the
    coordinates are the gathered streams of the index. */
module ZOrder {
  import opened Arith
  import opened Words
  import opened Mask
  import opened Interleave
  import opened Deinterleave

  /** Every coordinate of `c` has the width of `t`. */
  predicate Coords(c: seq<Word>, t: UInt)
  {
    forall i :: 0 <= i < |c| ==> |c[i]| == t.Bits()
  }

  /** Bit `q` of coordinate `j` of `c`, clear where there is none. */
  predicate CoordBit(c: seq<Word>, q: nat, j: nat)
  {
    j < |c| && q < |c[j]| && c[j][q]
  }

  /** The fold of `util::generic_index_of` from axis `i` on: each step ORs
      `interleave(c[i]) << i` into the accumulator. */
  function IndexFold(c: seq<Word>, n: nat, width: nat, i: nat, acc: Word): (r: Word)
    requires n >= 1 && i <= |c| <= width && |acc| == width
    ensures |r| == width
    decreases |c| - i
  {
    if i == |c| then acc
    else IndexFold(c, n, width, i + 1, Or(acc, Shl(Spread(c[i], n, width), i)))
  }

  /** `index_of`: the fold started from zero, in the output type of the
      interleave table. */
  function IndexOf(c: seq<Word>, t: UInt): (r: Word)
    requires Coords(c, t) && InterleaveOutput(t, |c|).Some?
    ensures |r| == InterleaveOutput(t, |c|).value.Bits()
  {
    var width := InterleaveOutput(t, |c|).value.Bits();
    InterleaveOutputSmallest(t, |c|);
    MulLe(1, t.Bits(), |c|);
    IndexFold(c, |c|, width, 0, Zeros(width))
  }

  /** `coord_of` through `util::generic_coord_of`: axis `i` is the stream
      deinterleaved at offset `i`, for every `i < n`. */
  function CoordOf(x: Word, t: UInt, n: nat): (r: seq<Word>)
    requires |x| == t.Bits() && DeinterleaveOutput(t, n).Some?
    ensures |r| == n && Coords(r, DeinterleaveOutput(t, n).value)
  {
    var w := DeinterleaveOutput(t, n).value.Bits();
    seq(n, i requires 0 <= i < n => Gather(x, n, i, w))
  }

  /** The fold, bit by bit: bit `p` is set in the accumulator or comes from
      the coordinate `p mod n`, if that axis is still to be folded in. */
  lemma {:induction false} IndexFoldBits(c: seq<Word>, n: nat, width: nat, i: nat, acc: Word, p: nat)
    requires n == |c| && 1 <= n <= width && i <= n && |acc| == width && p < width
    ensures IndexFold(c, n, width, i, acc)[p]
        == (acc[p] || (i <= Mod(p, n) && CoordBit(c, Div(p, n), Mod(p, n))))
    decreases n - i
  {
    DivModOf(p, n);
    if i < n {
      var next := Or(acc, Shl(Spread(c[i], n, width), i));
      ShiftedSpreadBit(c[i], n, width, i, p);
      assert next[p] == (acc[p] || (Mod(p, n) == i && Div(p, n) < |c[i]| && c[i][Div(p, n)]));
      IndexFoldBits(c, n, width, i + 1, next, p);
    }
  }

  /** Bit `p` of the index is bit `p / n` of coordinate `p mod n`: the OR of
      the shifted spreads loses nothing. */
  lemma IndexOfBits(c: seq<Word>, t: UInt, p: nat)
    requires Coords(c, t) && InterleaveOutput(t, |c|).Some?
    requires p < InterleaveOutput(t, |c|).value.Bits()
    ensures IndexOf(c, t)[p] == CoordBit(c, Div(p, |c|), Mod(p, |c|))
  {
    var width := InterleaveOutput(t, |c|).value.Bits();
    InterleaveOutputSmallest(t, |c|);
    MulLe(1, t.Bits(), |c|);
    DivModOf(p, |c|);
    IndexFoldBits(c, |c|, width, 0, Zeros(width), p);
  }

  /** The shifted spreads of two different axes never share a set bit. */
  lemma AxesDisjoint(c: seq<Word>, t: UInt, i: nat, j: nat, p: nat)
    requires Coords(c, t) && InterleaveOutput(t, |c|).Some?
    requires i < j < |c| && p < InterleaveOutput(t, |c|).value.Bits()
    ensures var width := InterleaveOutput(t, |c|).value.Bits();
      !(Shl(Spread(c[i], |c|, width), i)[p] && Shl(Spread(c[j], |c|, width), j)[p])
  {
    var width := InterleaveOutput(t, |c|).value.Bits();
    InterleaveOutputSmallest(t, |c|);
    MulLe(1, t.Bits(), |c|);
    ShiftedSpreadBit(c[i], |c|, width, i, p);
    ShiftedSpreadBit(c[j], |c|, width, j, p);
  }

  /** Round trip: the coordinates of the index of `c` are `c`. */
  lemma CoordOfIndexOf(c: seq<Word>, t: UInt)
    requires Coords(c, t) && InterleaveOutput(t, |c|).Some?
    ensures DeinterleaveOutput(InterleaveOutput(t, |c|).value, |c|) == Some(t)
    ensures CoordOf(IndexOf(c, t), InterleaveOutput(t, |c|).value, |c|) == c
  {
    var n := |c|;
    var o := InterleaveOutput(t, n).value;
    DeinterleaveOutputInverse(o, t, n);
    InterleaveOutputSmallest(t, n);
    var x := IndexOf(c, t);
    var d := CoordOf(x, o, n);
    forall i | 0 <= i < n
      ensures d[i] == c[i]
    {
      forall k | 0 <= k < t.Bits()
        ensures d[i][k] == c[i][k]
      {
        BelowSpread(k, t.Bits(), n, i);
        IndexOfBits(c, t, k * n + i);
        DivModUnique(k * n + i, n, k, i);
      }
    }
  }

  /** No bit of an index at or above `n * w` is set. */
  lemma IndexOfHigh(c: seq<Word>, t: UInt, p: nat)
    requires Coords(c, t) && InterleaveOutput(t, |c|).Some?
    requires |c| * t.Bits() <= p < InterleaveOutput(t, |c|).value.Bits()
    ensures !IndexOf(c, t)[p]
  {
    IndexOfBits(c, t, p);
    QuotientAtLeast(p, |c|, t.Bits());
  }

  /** Inverse round trip: re-indexing the coordinates of `x` gives `x` back
      exactly when `x` has no bit set at or above `n * w`, the bits no
      coordinate array can reach. */
  lemma IndexOfCoordOf(x: Word, t: UInt, n: nat)
    requires |x| == t.Bits() && DeinterleaveOutput(t, n).Some?
    ensures InterleaveOutput(DeinterleaveOutput(t, n).value, n) == Some(t)
    ensures IndexOf(CoordOf(x, t, n), DeinterleaveOutput(t, n).value) == x
        <==> forall p :: n * DeinterleaveOutput(t, n).value.Bits() <= p < |x| ==> !x[p]
  {
    var u := DeinterleaveOutput(t, n).value;
    var w := u.Bits();
    DeinterleaveOutputInverse(t, u, n);
    DeinterleaveOutputFits(t, n);
    var c := CoordOf(x, t, n);
    var y := IndexOf(c, u);
    forall p | 0 <= p < |x| && n * w <= p
      ensures !y[p]
    {
      IndexOfHigh(c, u, p);
    }
    if forall p :: n * w <= p < |x| ==> !x[p] {
      forall p | 0 <= p < |x|
        ensures y[p] == x[p]
      {
        IndexOfCoordOfBit(x, t, n, p);
      }
    }
  }

  /** Bit `p` of the index rebuilt from the coordinates of `x` is bit `p`
      of `x`, provided `p` lies below `n * w` or `x` has that bit clear. */
  lemma IndexOfCoordOfBit(x: Word, t: UInt, n: nat, p: nat)
    requires |x| == t.Bits() && DeinterleaveOutput(t, n).Some? && p < |x|
    requires n * DeinterleaveOutput(t, n).value.Bits() <= p ==> !x[p]
    ensures InterleaveOutput(DeinterleaveOutput(t, n).value, n) == Some(t)
    ensures IndexOf(CoordOf(x, t, n), DeinterleaveOutput(t, n).value)[p] == x[p]
  {
    var u := DeinterleaveOutput(t, n).value;
    var w := u.Bits();
    DeinterleaveOutputInverse(t, u, n);
    DeinterleaveOutputFits(t, n);
    IndexOfBits(CoordOf(x, t, n), u, p);
    DivModOf(p, n);
    if Div(p, n) >= w {
      MulLe(w, Div(p, n), n);
    }
  }

  /** `array_conversions`: for two 32-bit dimensions every `u32` index
      survives `coord_of` then `index_of`, not only those below 10000. */
  lemma ArrayConversions(x: Word)
    requires |x| == 32
    ensures IndexOf(CoordOf(x, U32, 2), U16) == x
  {
    IndexOfCoordOf(x, U32, 2);
  }

  /** For two dimensions, even bits of the index come from the first
      coordinate and odd bits from the second. */
  lemma PairIndexBit(a: Word, b: Word, t: UInt, p: nat)
    requires |a| == |b| == t.Bits() && InterleaveOutput(t, 2).Some?
    requires p < InterleaveOutput(t, 2).value.Bits()
    ensures p / 2 < t.Bits()
    ensures IndexOf([a, b], t)[p] == if p % 2 == 0 then a[p / 2] else b[p / 2]
  {
    IndexOfBits([a, b], t, p);
    DivModAgree(p, 2);
  }

  /** The bits of `0b101_111` as a `u64`. */
  lemma Bits47()
    ensures forall p :: 0 <= p < 64 ==> (FromNat(47, 64)[p] <==> p < 6 && p != 4)
  {
    FromNatSmall(47, 6, 64);
    assert Pow2(6) == 64;
    assert FromNat(47, 6) == [true, true, true, true, false, true];
  }

  /** `index_of([3u32, 7u32]) == 0b101_111u64`. */
  lemma IndexOfExample37()
    ensures IndexOf([FromNat(3, 32), FromNat(7, 32)], U32) == FromNat(47, 64)
  {
    var a, b := FromNat(3, 32), FromNat(7, 32);
    var e := FromNat(47, 64);
    LowOnesBits(3, 2, 32);
    LowOnesBits(7, 3, 32);
    Bits47();
    forall p | 0 <= p < 64
      ensures IndexOf([a, b], U32)[p] == e[p]
    {
      PairIndexBit(a, b, U32, p);
    }
  }

  /** `coord_of(0b101_111u64) == [3u32, 7u32]`. */
  lemma CoordOfExample37()
    ensures CoordOf(FromNat(47, 64), U64, 2) == [FromNat(3, 32), FromNat(7, 32)]
  {
    IndexOfExample37();
    CoordOfIndexOf([FromNat(3, 32), FromNat(7, 32)], U32);
  }

  /** `index_of([7u32, 7u32]) == 0b111111`. */
  lemma IndexOfExample77()
    ensures IndexOf([FromNat(7, 32), FromNat(7, 32)], U32) == FromNat(63, 64)
  {
    var a := FromNat(7, 32);
    var e := FromNat(63, 64);
    LowOnesBits(7, 3, 32);
    LowOnesBits(63, 6, 64);
    forall p | 0 <= p < 64
      ensures IndexOf([a, a], U32)[p] == e[p]
    {
      PairIndexBit(a, a, U32, p);
    }
  }

  /** `index_of([1u16, 1u16]) == 3u32` and `coord_of(3u32) == [1u16, 1u16]`. */
  lemma IndexOfExample11()
    ensures IndexOf([FromNat(1, 16), FromNat(1, 16)], U16) == FromNat(3, 32)
    ensures CoordOf(FromNat(3, 32), U32, 2) == [FromNat(1, 16), FromNat(1, 16)]
  {
    var a := FromNat(1, 16);
    var e := FromNat(3, 32);
    LowOnesBits(1, 1, 16);
    LowOnesBits(3, 2, 32);
    forall p | 0 <= p < 32
      ensures IndexOf([a, a], U16)[p] == e[p]
    {
      PairIndexBit(a, a, U16, p);
    }
    CoordOfIndexOf([a, a], U16);
  }
}
