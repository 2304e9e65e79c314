/** Fixed-width unsigned integers as bit sequences, and the primitive integer
    operations the crate uses on them (`|`, `&`, `<<`, `>>`, `max_value`, the
    casts between widths). */
module Words {
  import opened Arith

  datatype Option<T> = None | Some(value: T)

  /** An unsigned integer of width `|w|`, least significant bit first:
      `w[j]` is bit `j`. */
  type Word = seq<bool>

  /** `T::zero()`. */
  function Zeros(width: nat): Word
  {
    seq(width, _ => false)
  }

  /** `T::max_value()`. */
  function AllOnes(width: nat): Word
  {
    seq(width, _ => true)
  }

  /** `a | b`. */
  function Or(a: Word, b: Word): Word
    requires |a| == |b|
  {
    seq(|a|, j requires 0 <= j < |a| => a[j] || b[j])
  }

  /** `a & b`. */
  function And(a: Word, b: Word): Word
    requires |a| == |b|
  {
    seq(|a|, j requires 0 <= j < |a| => a[j] && b[j])
  }

  /** `a << s` within the width of `a`: bits pushed past the top are lost.
      A shift by the full width or more panics in Rust, hence the precondition. */
  function Shl(a: Word, s: nat): Word
    requires s < |a|
  {
    seq(|a|, j requires 0 <= j < |a| => s <= j && a[j - s])
  }

  lemma ShlBit(a: Word, s: nat, p: nat)
    requires s < |a| && p < |a|
    ensures Shl(a, s)[p] == (s <= p && a[p - s])
  {
  }

  /** `a >> s` (logical) within the width of `a`. */
  function Shr(a: Word, s: nat): Word
    requires s < |a|
  {
    seq(|a|, j requires 0 <= j < |a| => j + s < |a| && a[j + s])
  }

  /** A widening cast between unsigned types: zero-extends. */
  function Widen(a: Word, width: nat): Word
    requires |a| <= width
  {
    seq(width, j requires 0 <= j < width => j < |a| && a[j])
  }

  /** A narrowing cast between unsigned types: keeps the low `width` bits. */
  function Truncate(a: Word, width: nat): Word
    requires width <= |a|
  {
    a[..width]
  }

  /** The number a word denotes. */
  function ToNat(a: Word): nat
  {
    if |a| == 0 then 0 else (if a[0] then 1 else 0) + 2 * ToNat(a[1..])
  }

  /** The `width`-bit word of the number `x` (its low `width` bits). */
  function FromNat(x: nat, width: nat): (a: Word)
    ensures |a| == width
  {
    if width == 0 then [] else [x % 2 == 1] + FromNat(x / 2, width - 1)
  }

  /** Every word denotes a number below 2^width. */
  lemma {:induction false} ToNatBound(a: Word)
    ensures ToNat(a) < Pow2(|a|)
  {
    if |a| > 0 { ToNatBound(a[1..]); }
  }

  /** A word with no bit set denotes zero. */
  lemma {:induction false} ToNatZeros(a: Word)
    requires forall j :: 0 <= j < |a| ==> !a[j]
    ensures ToNat(a) == 0
  {
    if |a| > 0 { ToNatZeros(a[1..]); }
  }

  /** Zero has no bit set. */
  lemma {:induction false} ZeroBits(width: nat)
    ensures FromNat(0, width) == Zeros(width)
  {
    if width > 0 { ZeroBits(width - 1); }
  }

  /** `2^k` has exactly bit `k` set. */
  lemma {:induction false} PowerBits(k: nat, width: nat)
    requires k < width
    ensures forall j :: 0 <= j < width ==> (FromNat(Pow2(k), width)[j] <==> j == k)
  {
    if k == 0 {
      ZeroBits(width - 1);
      assert FromNat(Pow2(k), width) == [true] + FromNat(0, width - 1);
    } else {
      PowerBits(k - 1, width - 1);
      assert FromNat(Pow2(k), width) == [false] + FromNat(Pow2(k - 1), width - 1);
    }
  }

  /** A number below `2^k` is its `k`-bit word zero-extended. */
  lemma {:induction false} FromNatSmall(x: nat, k: nat, width: nat)
    requires x < Pow2(k) && k <= width
    ensures FromNat(x, width) == Widen(FromNat(x, k), width)
  {
    if k == 0 {
      ZeroBits(width);
    } else {
      FromNatSmall(x / 2, k - 1, width - 1);
      assert Widen(FromNat(x, k), width) == [x % 2 == 1] + Widen(FromNat(x / 2, k - 1), width - 1);
    }
  }

  /** `2^k - 1` has exactly its low `k` bits set. */
  lemma {:induction false} LowOnesBits(x: nat, k: nat, width: nat)
    requires x == Pow2(k) - 1 && k <= width
    ensures forall j :: 0 <= j < width ==> (FromNat(x, width)[j] <==> j < k)
  {
    if k == 0 {
      ZeroBits(width);
    } else {
      assert x % 2 == 1 && x / 2 == Pow2(k - 1) - 1;
      LowOnesBits(x / 2, k - 1, width - 1);
      assert FromNat(x, width) == [true] + FromNat(x / 2, width - 1);
    }
  }

  /** The value of a concatenation: `b` sits above the `|a|` bits of `a`. */
  lemma {:induction false} ToNatAppend(a: Word, b: Word)
    ensures ToNat(a + b) == ToNat(a) + Pow2(|a|) * ToNat(b)
  {
    if |a| > 0 {
      ToNatAppend(a[1..], b);
      assert (a + b)[1..] == a[1..] + b;
      var bit := if a[0] then 1 else 0;
      assert ToNat(a + b) == bit + 2 * ToNat(a[1..] + b);
      assert ToNat(a) == bit + 2 * ToNat(a[1..]);
      AppendStep(bit, ToNat(a[1..]), ToNat(b), Pow2(|a| - 1));
    } else {
      assert a + b == b;
    }
  }

  lemma AppendStep(bit: nat, t: nat, u: nat, p: nat)
    ensures bit + 2 * (t + p * u) == (bit + 2 * t) + (2 * p) * u
  {
  }
}
