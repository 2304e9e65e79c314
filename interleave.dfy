/** Spreading the bits of one coordinate apart (src/interleave.rs): the
    output-width table and the O(log w) doubling spread. */
module Interleave {
  import opened Arith
  import opened Words
  import opened Mask

  /** `InterleaveOutput<N>`: the output type for `n` interleaved values of
      type `t`. Pairs the table does not list have no `Interleave`
      implementation in the source, so they are `None` here. */
  function InterleaveOutput(t: UInt, n: nat): Option<UInt>
  {
    match t
    case U8 =>
      if n == 2 then Some(U16)
      else if 3 <= n <= 4 then Some(U32)
      else if 5 <= n <= 8 then Some(U64)
      else if 9 <= n <= 16 then Some(U128)
      else None
    case U16 =>
      if n == 2 then Some(U32)
      else if 3 <= n <= 4 then Some(U64)
      else if 5 <= n <= 8 then Some(U128)
      else None
    case U32 =>
      if n == 2 then Some(U64)
      else if 3 <= n <= 4 then Some(U128)
      else None
    case U64 =>
      if n == 2 then Some(U128)
      else None
    case U128 => None
  }

  /** The table lists exactly the pairs with at least two dimensions whose
      `n * w` bits fit in some supported type, and picks the smallest such type. */
  lemma InterleaveOutputSmallest(t: UInt, n: nat)
    ensures InterleaveOutput(t, n).Some? <==> 2 <= n && n * t.Bits() <= 128
    ensures InterleaveOutput(t, n).Some? ==> n * t.Bits() <= InterleaveOutput(t, n).value.Bits()
    ensures InterleaveOutput(t, n).Some? ==>
      forall u: UInt :: n * t.Bits() <= u.Bits() ==> InterleaveOutput(t, n).value.Bits() <= u.Bits()
  {
  }

  /** What interleaving promises: bit `k` of `v` lands on bit `k * n` of a
      `width`-bit word and every other bit is clear. */
  function Spread(v: Word, n: nat, width: nat): Word
    requires n >= 1
  {
    seq(width, p requires 0 <= p < width => Mod(p, n) == 0 && Div(p, n) < |v| && v[Div(p, n)])
  }

  lemma SpreadBit(v: Word, n: nat, width: nat, p: nat)
    requires n >= 1 && p < width
    ensures Spread(v, n, width)[p] == (Mod(p, n) == 0 && Div(p, n) < |v| && v[Div(p, n)])
  {
  }

  /** Where the doubling stage with group size `g` has put the bits of `v`:
      bit `k` sits at `(k / g) * n * g + k % g`, so groups of `g` contiguous
      bits start at the multiples of `n * g`, and nothing else is set. */
  ghost function Layout(v: Word, n: nat, width: nat, g: nat): Word
    requires n >= 1 && g >= 1
  {
    seq(width, p requires 0 <= p < width => LayoutBit(v, n * g, g, p))
  }

  /** Bit `p` of a layout whose groups of `g` bits are spaced `m` apart: `p`
      is group `q` at offset `r`, and holds bit `q * g + r` of `v` if `r < g`. */
  ghost predicate LayoutBit(v: Word, m: nat, g: nat, p: nat)
    requires m >= 1
  {
    var r := Mod(p, m);
    var k := Div(p, m) * g + r;
    r < g && k < |v| && v[k]
  }

  /** `LayoutBit` at a position given as group `q`, offset `r`. */
  lemma LayoutBitAt(v: Word, m: nat, g: nat, p: nat, q: nat, r: nat)
    requires m >= 1 && r < m && p == q * m + r
    ensures LayoutBit(v, m, g, p) == (r < g && q * g + r < |v| && v[q * g + r])
  {
    DivModUnique(p, m, q, r);
  }

  /** Read forward, the layout puts bit `k` of `v` at `(k / g) * n * g + k % g`,
      and when the group size divides the width of `v`, that position stays
      below `n * |v|`: no bit is ever pushed out of the output type. */
  lemma LayoutPlaces(v: Word, n: nat, width: nat, g: nat, k: nat)
    requires n >= 1 && g >= 1 && Mod(|v|, g) == 0 && n * |v| <= width && k < |v|
    ensures Div(k, g) * (n * g) + Mod(k, g) < n * |v|
    ensures Layout(v, n, width, g)[Div(k, g) * (n * g) + Mod(k, g)] == v[k]
  {
    var a, b := Div(k, g), Mod(k, g);
    var m := n * g;
    var pos := a * m + b;
    PositionBelow(k, |v|, n, g, m, a, b);
    LayoutBitAt(v, m, g, pos, a, b);
    assert Layout(v, n, width, g)[pos] == LayoutBit(v, m, g, pos);
  }

  /** Group `a` at offset `b` of a `k` below `len` (a multiple of `g`) lies
      below `n * len` once groups are spaced `m = n * g` apart. */
  lemma PositionBelow(k: nat, len: nat, n: nat, g: nat, m: nat, a: nat, b: nat)
    requires n >= 1 && g >= 1 && m == n * g && Mod(len, g) == 0 && k < len
    requires a == Div(k, g) && b == Mod(k, g)
    ensures k == a * g + b && b < g && b < m && a * m + b < n * len
  {
    DivModOf(k, g);
    DivModOf(len, g);
    var c := Div(len, g);
    assert len == c * g;
    if a >= c {
      MulLe(c, a, g);
    }
    MulLe(1, n, g);
    MulLe(a + 1, c, m);
    assert (a + 1) * m == a * m + m;
    assert c * m == n * len by { MulAssocSwap(c, n, g); }
  }

  lemma MulAssocSwap(c: nat, n: nat, g: nat)
    ensures c * (n * g) == n * (c * g)
  {
  }

  /** Before the first stage the group is the whole input: the widened value
      is the layout with `g == |v|`. */
  lemma LayoutWhole(v: Word, n: nat, width: nat)
    requires n >= 1 && |v| >= 1 && |v| <= width
    ensures Widen(v, width) == Layout(v, n, width, |v|)
  {
    var m := n * |v|;
    MulLe(1, n, |v|);
    forall p | 0 <= p < width
      ensures Widen(v, width)[p] == LayoutBit(v, m, |v|, p)
    {
      WholeBit(v, m, p);
    }
  }

  lemma WholeBit(v: Word, m: nat, p: nat)
    requires 1 <= |v| <= m
    ensures LayoutBit(v, m, |v|, p) == (p < |v| && v[p])
  {
    var q, r := Div(p, m), Mod(p, m);
    DivModOf(p, m);
    LayoutBitAt(v, m, |v|, p, q, r);
    if q > 0 {
      MulLe(1, q, |v|);
    }
  }

  /** After the last stage (groups of one bit) the layout is the spread. */
  lemma LayoutUnit(v: Word, n: nat, width: nat)
    requires n >= 1
    ensures Layout(v, n, width, 1) == Spread(v, n, width)
  {
  }

  /** One stage, bit by bit, with groups spaced `m = n * g` apart and
      `s = (n - 1) * g`: `(x | x << s) & comb(n, g)` turns the layout with
      groups of `2 * g` into the layout with groups of `g`. The upper half of
      each `2 * g` group moves up by `s`; the lower half stays; the comb
      clears the copies the shift leaves behind. */
  lemma SpreadStageBit(v: Word, m: nat, g: nat, s: nat, p: nat)
    requires g >= 1 && 2 * g <= m && s == m - g
    ensures ((LayoutBit(v, 2 * m, 2 * g, p) || (s <= p && LayoutBit(v, 2 * m, 2 * g, p - s)))
             && Mod(p, m) < g)
         == LayoutBit(v, m, g, p)
  {
    var q, r := Div(p, m), Mod(p, m);
    DivModOf(p, m);
    LayoutBitAt(v, m, g, p, q, r);
    if r < g {
      var t, b := q / 2, q % 2;
      HalveGroup(q, t, b, m, g);
      if b == 0 {
        SpreadStageLower(v, m, g, s, p, t, r);
      } else {
        SpreadStageUpper(v, m, g, s, p, t, r);
      }
    }
  }

  /** The lower half of a `2 * g` group stays where it is. */
  lemma SpreadStageLower(v: Word, m: nat, g: nat, s: nat, p: nat, t: nat, r: nat)
    requires g >= 1 && 2 * g <= m && s == m - g
    requires r < g && p == t * (2 * m) + r
    ensures LayoutBit(v, 2 * m, 2 * g, p) == (t * (2 * g) + r < |v| && v[t * (2 * g) + r])
    ensures s <= p ==> !LayoutBit(v, 2 * m, 2 * g, p - s)
  {
    LayoutBitAt(v, 2 * m, 2 * g, p, t, r);
    if s <= p {
      assert t >= 1;
      assert (t - 1) * (2 * m) == t * (2 * m) - 2 * m;
      LayoutBitAt(v, 2 * m, 2 * g, p - s, t - 1, m + g + r);
    }
  }

  /** The upper half of a `2 * g` group moves up by `s`. */
  lemma SpreadStageUpper(v: Word, m: nat, g: nat, s: nat, p: nat, t: nat, r: nat)
    requires g >= 1 && 2 * g <= m && s == m - g
    requires r < g && p == t * (2 * m) + m + r
    ensures !LayoutBit(v, 2 * m, 2 * g, p)
    ensures s <= p && LayoutBit(v, 2 * m, 2 * g, p - s) == (t * (2 * g) + g + r < |v| && v[t * (2 * g) + g + r])
  {
    LayoutBitAt(v, 2 * m, 2 * g, p, t, m + r);
    LayoutBitAt(v, 2 * m, 2 * g, p - s, t, g + r);
  }

  /** Group `q` of size `g` is half `b` of group `t` of size `2 * g`. */
  lemma HalveGroup(q: nat, t: nat, b: nat, m: nat, g: nat)
    requires t == q / 2 && b == q % 2
    ensures q * m == t * (2 * m) + b * m
    ensures q * g == t * (2 * g) + b * g
  {
    assert q == 2 * t + b;
  }

  /** One stage of the interleave loop on whole words. */
  lemma SpreadStage(v: Word, n: nat, width: nat, g: nat)
    requires n >= 2 && g >= 1 && (n - 1) * g < width
    ensures And(Or(Layout(v, n, width, 2 * g), Shl(Layout(v, n, width, 2 * g), (n - 1) * g)), Comb(width, n, g))
         == Layout(v, n, width, g)
  {
    var m := n * g;
    var s := (n - 1) * g;
    MulLe(2, n, g);
    assert n * (2 * g) == 2 * m;
    var x := Layout(v, n, width, 2 * g);
    var y := Shl(x, s);
    var z := Or(x, y);
    var c := Comb(width, n, g);
    var w := And(z, c);
    forall p | 0 <= p < width
      ensures w[p] == Layout(v, n, width, g)[p]
    {
      assert x[p] == LayoutBit(v, 2 * m, 2 * g, p);
      assert s <= p ==> x[p - s] == LayoutBit(v, 2 * m, 2 * g, p - s);
      assert c[p] == (Mod(p, m) < g);
      SpreadStageBit(v, m, g, s, p);
    }
  }

  /** The shift of every stage stays below the output width: at stage `i` of a
      `w`-bit input, `(n - 1) * 2^i < n * w`. */
  lemma StageShiftFits(n: nat, w: nat, i: nat, l: nat)
    requires n >= 1 && i < l && Pow2(l) == w
    ensures Pow2(i + 1) <= w
    ensures InterleaveShift(n, i) < n * w
  {
    Pow2Mono(i + 1, l);
    MulLe(n - 1, n, Pow2(i));
    MulLe(Pow2(i), w, n);
  }

  /** `Interleave::interleave`: widen `v` into the output type, then for
      `i` from `BITS_ILOG2 - 1` down to 0 apply
      `x = (x | x << interleave_shift(i)) & interleave_mask(n, 1 << i)`. */
  method Interleave(v: Word, t: UInt, n: nat) returns (r: Word)
    requires |v| == t.Bits() && InterleaveOutput(t, n).Some?
    ensures |r| == InterleaveOutput(t, n).value.Bits()
    ensures r == Spread(v, n, |r|)
    ensures forall k :: 0 <= k < |v| ==> r[k * n] == v[k]
    ensures forall p :: 0 <= p < |r| && (Mod(p, n) != 0 || n * |v| <= p) ==> !r[p]
  {
    var o := InterleaveOutput(t, n).value;
    InterleaveOutputSmallest(t, n);
    var width := o.Bits();
    Ilog2IsLog2(t);
    MulLe(1, n, |v|);
    var x := Widen(v, width);
    LayoutWhole(v, n, width);
    var i: nat := t.Ilog2();
    while i > 0
      invariant i <= t.Ilog2()
      invariant x == Layout(v, n, width, Pow2(i))
    {
      i := i - 1;
      StageShiftFits(n, |v|, i, t.Ilog2());
      var mask := InterleaveMask(o, n, Pow2(i));
      var shift := InterleaveShift(n, i);
      SpreadStage(v, n, width, Pow2(i));
      x := And(Or(x, Shl(x, shift)), mask);
    }
    LayoutUnit(v, n, width);
    r := x;
    SpreadBits(v, n, width);
  }

  /** The spread, bit by bit: bit `k * n` is bit `k` of `v`; bits off the
      multiples of `n`, and bits at or above `n * |v|`, are clear. */
  lemma SpreadBits(v: Word, n: nat, width: nat)
    requires n >= 1 && n * |v| <= width
    ensures |Spread(v, n, width)| == width
    ensures forall k :: 0 <= k < |v| ==> k * n < width && Spread(v, n, width)[k * n] == v[k]
    ensures forall p :: 0 <= p < width && (Mod(p, n) != 0 || n * |v| <= p) ==> !Spread(v, n, width)[p]
  {
    forall k | 0 <= k < |v|
      ensures k * n < width && Spread(v, n, width)[k * n] == v[k]
    {
      MultipleOf(k, |v|, n);
    }
    forall p | 0 <= p < width && n * |v| <= p
      ensures !Spread(v, n, width)[p]
    {
      QuotientAtLeast(p, n, |v|);
    }
  }

  /** `k * n` for `k < c` lies below `c * n`, with quotient `k` and remainder 0. */
  lemma MultipleOf(k: nat, c: nat, n: nat)
    requires n >= 1 && k < c
    ensures k * n < n * c && Div(k * n, n) == k && Mod(k * n, n) == 0
  {
    MulLe(k + 1, c, n);
    DivModUnique(k * n, n, k, 0);
  }

  /** A position at or above `n * c` has quotient at least `c`. */
  lemma QuotientAtLeast(p: nat, n: nat, c: nat)
    requires n >= 1 && n * c <= p
    ensures Div(p, n) >= c
  {
    DivModOf(p, n);
    var q := Div(p, n);
    if q < c {
      assert (q + 1) * n == q * n + n;
      MulLe(q + 1, c, n);
    }
  }

  /** Interleaving loses nothing: distinct inputs spread to distinct outputs. */
  lemma SpreadInjective(a: Word, b: Word, n: nat, width: nat)
    requires n >= 1 && |a| == |b| && n * |a| <= width
    requires Spread(a, n, width) == Spread(b, n, width)
    ensures a == b
  {
    SpreadBits(a, n, width);
    SpreadBits(b, n, width);
    forall k | 0 <= k < |a|
      ensures a[k] == b[k]
    {
      assert Spread(a, n, width)[k * n] == Spread(b, n, width)[k * n];
    }
  }
}
