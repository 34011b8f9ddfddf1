/**
 The multipliers the C and LLVM backends emit for an extension field over GF(2): a loop over 64-bit
 limbs, and a straight line of wide integer instructions. Both compute the tower's product.
 A machine word is its 64 bits, low first.
 */
module FieldBackends {
  import opened Numbers
  import opened FieldTower

  type Word = w: Bits | |w| == 64 witness seq(64, i requires 0 <= i < 64 => false)

  type Limbs = seq<Word>

  const NO_BITS: Word := Zeros(64)

  /** How many words hold `width` bits. */
  function WordsFor(width: nat): (r: nat)
    ensures 64 * r >= width && (width > 0 ==> 64 * (r - 1) < width)
  {
    (width + 63) / 64
  }

  function BitAt(limbs: Limbs, i: nat): bool
    requires i < 64 * |limbs|
  {
    limbs[i / 64][i % 64]
  }

  function BitsOf(limbs: Limbs, width: nat): (r: Bits)
    requires width <= 64 * |limbs|
    ensures |r| == width && forall i | 0 <= i < width :: r[i] == BitAt(limbs, i)
  {
    seq(width, i requires 0 <= i < width => BitAt(limbs, i))
  }

  /** No bit at or above `width`. */
  ghost predicate Clear(limbs: Limbs, width: nat) {
    forall i: nat | width <= i < 64 * |limbs| :: !BitAt(limbs, i)
  }

  // ---------------------------------------------------------------- the product over single bits

  /** A field over GF(2), its modulus given by coefficients that are bits. */
  predicate BitField(f: Field) {
    WfField(f) && f.wrapped.Bit? && forall i | 0 <= i <= f.degree :: f.irreducible[i] <= 1
  }

  function ReductionBits(f: Field): (r: Bits)
    requires BitField(f)
    ensures |r| == f.degree && forall i | 0 <= i < f.degree :: r[i] == (f.irreducible[i] != 0)
  {
    seq(f.degree, i requires 0 <= i < f.degree => f.irreducible[i] != 0)
  }

  function UpBits(a: Bits): (r: Bits)
    ensures |r| == |a| && forall i | 0 <= i < |a| :: r[i] == (i > 0 && a[i - 1])
  {
    seq(|a|, i requires 0 <= i < |a| => i > 0 && a[i - 1])
  }

  function Choose(c: bool, a: Bits): (r: Bits)
    ensures |r| == |a|
  {
    if c then a else Zeros(|a|)
  }

  function TimesX(f: Field, a: Bits): (r: Bits)
    requires BitField(f) && |a| == f.degree
    ensures |r| == f.degree
  {
    Add(UpBits(a), Choose(a[f.degree - 1], ReductionBits(f)))
  }

  function Shifted(f: Field, a: Bits, k: nat): (r: Bits)
    requires BitField(f) && |a| == f.degree
    ensures |r| == f.degree
  {
    if k == 0 then a else TimesX(f, Shifted(f, a, k - 1))
  }

  /** The sum over the first `n` bits of `b`. */
  function Partial(f: Field, a: Bits, b: Bits, n: nat): (r: Bits)
    requires BitField(f) && |a| == |b| == f.degree && n <= f.degree
    ensures |r| == f.degree
  {
    if n == 0 then Zeros(f.degree) else Add(Partial(f, a, b, n - 1), Choose(b[n - 1], Shifted(f, a, n - 1)))
  }

  /** A row of single bits. */
  function Column(a: Bits): (r: Row)
    ensures IsRow(r, |a|, 1) && forall i | 0 <= i < |a| :: r[i] == [a[i]]
  {
    seq(|a|, i requires 0 <= i < |a| => [a[i]])
  }

  lemma {:induction false} SplitColumn(a: Bits, n: nat)
    requires |a| == n == n * 1
    ensures Split(a, n, 1) == Column(a)
    decreases n
  {
    if n > 0 {
      SplitColumn(a[1..], n - 1);
      assert a[..1] == [a[0]];
    }
  }

  lemma FlatColumn(a: Bits)
    ensures Flat(Column(a)) == a
  {
    SplitColumn(a, |a|);
    FlatSplit(a, |a|, 1);
  }

  lemma TimesXColumn(f: Field, a: Bits)
    requires BitField(f) && |a| == f.degree
    ensures XTime(f, Column(a)) == Column(TimesX(f, a))
  {
    hide XTime, TimesX;
    forall i: nat | i < f.degree ensures XTime(f, Column(a))[i] == [TimesX(f, a)[i]] {
      hide ConstBits, Reduction, WfField;
      XTimeAt(f, Column(a), i);
      BitConst(f.irreducible[i]);
      TimesXAt(f, a, i);
      OneBitStep(i > 0 && a[i - 1], a[f.degree - 1], f.irreducible[i] != 0);
    }
  }

  lemma TimesXAt(f: Field, a: Bits, i: nat)
    requires BitField(f) && |a| == f.degree && i < f.degree
    ensures TimesX(f, a)[i] == ((i > 0 && a[i - 1]) != (a[f.degree - 1] && f.irreducible[i] != 0))
  {
    hide WfField;
  }

  lemma OneBitStep(low: bool, top: bool, m: bool)
    ensures Add([low], Mul(Bit, [top], [m])) == [low != (top && m)]
    ensures Zeros(1) == [false]
  {
  }

  lemma BitConst(value: nat)
    requires value <= 1
    ensures ConstBits(value, 1) == [value != 0]
  {
    assert Pow2(0) == 1;
  }

  lemma {:induction false} ShiftedColumn(f: Field, a: Bits, k: nat)
    requires BitField(f) && |a| == f.degree
    ensures XPow(f, Column(a), k) == Column(Shifted(f, a, k))
    decreases k
  {
    hide XTime, TimesX;
    if k > 0 {
      ShiftedColumn(f, a, k - 1);
      TimesXColumn(f, Shifted(f, a, k - 1));
    }
  }

  lemma ScaleColumn(f: Field, c: bool, a: Bits)
    requires BitField(f) && |a| == f.degree
    ensures Scale(f, [c], Column(a)) == Column(Choose(c, a))
  {
  }

  lemma SumColumn(a: Bits, b: Bits)
    requires |a| == |b|
    ensures Sum(Column(a), Column(b), |a|, 1) == Column(Add(a, b))
  {
    forall i | 0 <= i < |a| ensures Add([a[i]], [b[i]]) == [a[i] != b[i]] {
    }
  }

  lemma ColumnZeros(n: nat)
    ensures Column(Zeros(n)) == ZeroRow(n, 1)
  {
    assert Zeros(1) == [false];
  }

  lemma {:induction false} PartialColumn(f: Field, a: Bits, b: Bits, n: nat)
    requires BitField(f) && |a| == |b| == f.degree && n <= f.degree
    ensures Comb(f, Column(a), Column(b), n) == Column(Partial(f, a, b, n))
    decreases n
  {
    hide Comb, XPow, Scale, Sum, Shifted, Choose, Add;
    CombNone(f, Column(a), Column(b));
    ColumnZeros(f.degree);
    if n > 0 {
      CombStep(f, Column(a), Column(b), n);
      PartialColumn(f, a, b, n - 1);
      ShiftedColumn(f, a, n - 1);
      ScaleColumn(f, b[n - 1], Shifted(f, a, n - 1));
      SumColumn(Partial(f, a, b, n - 1), Choose(b[n - 1], Shifted(f, a, n - 1)));
    }
  }

  /** Summing shifted copies bit by bit is the product of the tower. */
  lemma PartialIsProduct(f: Field, a: Bits, b: Bits)
    requires BitField(f) && |a| == |b| == f.degree
    ensures Width(Ext(f)) == f.degree && Partial(f, a, b, f.degree) == Mul(Ext(f), a, b)
  {
    hide Comb, Partial;
    ExtWidth(f);
    SplitColumn(a, f.degree);
    SplitColumn(b, f.degree);
    PartialColumn(f, a, b, f.degree);
    FlatColumn(Partial(f, a, b, f.degree));
  }

  // ---------------------------------------------------------------- words

  function XorWord(a: Word, b: Word): (r: Word)
    ensures forall k | 0 <= k < 64 :: r[k] == (a[k] != b[k])
  {
    Add(a, b)
  }

  /** `(a << 1) | previous` */
  function ShiftIn(a: Word, previous: bool): (r: Word)
    ensures forall k | 0 <= k < 64 :: r[k] == if k == 0 then previous else a[k - 1]
  {
    [previous] + a[..63]
  }

  /** `a & ((1 << n) - 1)` */
  function MaskLow(a: Word, n: nat): (r: Word)
    ensures forall k | 0 <= k < 64 :: r[k] == (a[k] && k < n)
  {
    seq(64, k requires 0 <= k < 64 => a[k] && k < n)
  }

  /** `word |= 1 << k` */
  function SetBit(a: Word, k: nat): (r: Word)
    requires k < 64
    ensures forall j | 0 <= j < 64 :: r[j] == (a[j] || j == k)
  {
    a[k := true]
  }

  method NoLimbs(words: nat) returns (r: Limbs)
    ensures |r| == words && Clear(r, 0)
  {
    r := seq(words, i requires 0 <= i < words => NO_BITS);
    assert forall k | 0 <= k < 64 :: !NO_BITS[k];
  }

  lemma Place(i: nat, k: nat)
    ensures (i / 64 == k / 64 && i % 64 == k % 64) <==> i == k
  {
  }

  /** The modulus below its leading one, packed into words. */
  method PackReduction(f: Field) returns (reduction: Limbs)
    requires BitField(f)
    ensures |reduction| == WordsFor(f.degree) && Clear(reduction, f.degree) && BitsOf(reduction, f.degree) == ReductionBits(f)
  {
    hide WfField, WordsFor;
    reduction := NoLimbs(WordsFor(f.degree));
    for index := 0 to f.degree
      invariant |reduction| == WordsFor(f.degree)
      invariant forall i: nat | i < 64 * |reduction| :: BitAt(reduction, i) == (i < index && f.irreducible[i] != 0)
    {
      if f.irreducible[index] != 0 {
        ghost var before := reduction;
        reduction := reduction[index / 64 := SetBit(reduction[index / 64], index % 64)];
        BitSet(before, index, reduction);
      }
    }
  }

  lemma BitSet(before: Limbs, index: nat, after: Limbs)
    requires index < 64 * |before| && after == before[index / 64 := SetBit(before[index / 64], index % 64)]
    ensures forall i: nat | i < 64 * |before| :: BitAt(after, i) == (BitAt(before, i) || i == index)
  {
    forall i: nat | i < 64 * |before| ensures BitAt(after, i) == (BitAt(before, i) || i == index) {
      Place(i, index);
    }
  }

  // ---------------------------------------------------------------- the C loop

  method XorInto(out: Limbs, a: Limbs) returns (r: Limbs)
    requires |out| == |a|
    ensures |r| == |a| && forall i: nat | i < 64 * |a| :: BitAt(r, i) == (BitAt(out, i) != BitAt(a, i))
  {
    r := out;
    for j := 0 to |a|
      invariant |r| == |a|
      invariant forall k | 0 <= k < j :: r[k] == XorWord(out[k], a[k])
      invariant forall k | j <= k < |a| :: r[k] == out[k]
    {
      r := r[j := XorWord(r[j], a[j])];
    }
  }

  /** What is shifted into word `k`. */
  function CarryIn(a: Limbs, k: nat): bool
    requires k < |a|
  {
    k > 0 && a[k - 1][63]
  }

  /** One place up, the top bit of each word carried into the next. */
  method ShiftUp(a: Limbs) returns (r: Limbs)
    ensures |r| == |a| && forall i: nat | i < 64 * |a| :: BitAt(r, i) == (i > 0 && BitAt(a, i - 1))
  {
    r := a;
    var previous := false;
    for j := 0 to |a|
      invariant |r| == |a|
      invariant j < |a| ==> previous == CarryIn(a, j)
      invariant forall k | 0 <= k < j :: r[k] == ShiftIn(a[k], CarryIn(a, k))
      invariant forall k | j <= k < |a| :: r[k] == a[k]
    {
      var next := r[j][63];
      r := r[j := ShiftIn(r[j], previous)];
      previous := next;
    }
    forall i: nat | i < 64 * |a| ensures BitAt(r, i) == (i > 0 && BitAt(a, i - 1)) {
      Below(i);
    }
  }

  lemma Below(i: nat)
    ensures i % 64 > 0 ==> (i - 1) / 64 == i / 64 && (i - 1) % 64 == i % 64 - 1
    ensures i > 0 && i % 64 == 0 ==> (i - 1) / 64 == i / 64 - 1 && (i - 1) % 64 == 63
  {
  }

  /** Bits above the width are masked off the last word. */
  method MaskTop(a: Limbs, width: nat) returns (r: Limbs)
    requires width > 0 && |a| == WordsFor(width)
    ensures |r| == |a| && Clear(r, width) && BitsOf(r, width) == BitsOf(a, width)
  {
    r := a;
    if width % 64 != 0 {
      r := r[|a| - 1 := MaskLow(r[|a| - 1], width % 64)];
    }
    forall i: nat | i < 64 * |a| ensures BitAt(r, i) == (BitAt(a, i) && i < width) {
      TopWord(width, i);
    }
  }

  lemma TopWord(width: nat, i: nat)
    requires width > 0 && i < 64 * WordsFor(width)
    ensures width % 64 == 0 ==> i < width
    ensures width % 64 != 0 ==> (i < width <==> i / 64 < WordsFor(width) - 1 || i % 64 < width % 64)
    ensures i / 64 <= WordsFor(width) - 1
  {
  }

  /** `if (bit) out ^= a` over all limbs. */
  method Accumulate(out: Limbs, a: Limbs, bit: bool, width: nat) returns (r: Limbs)
    requires |a| == |out| == WordsFor(width)
    ensures |r| == |out| && forall i: nat | i < 64 * |r| :: BitAt(r, i) == (BitAt(out, i) != (bit && BitAt(a, i)))
    ensures BitsOf(r, width) == Add(BitsOf(out, width), Choose(bit, BitsOf(a, width)))
  {
    hide WordsFor, BitAt;
    r := out;
    if bit {
      r := XorInto(r, a);
      SumOfBits(out, a, r, width);
    } else {
      AddZero(BitsOf(out, width));
    }
  }

  /** Shift by one place; if the top bit fell out, add the modulus. */
  method Double(a0: Limbs, reduction: Limbs, width: nat) returns (a: Limbs)
    requires width > 0 && |a0| == |reduction| == WordsFor(width) && Clear(reduction, width)
    ensures |a| == |a0| && Clear(a, width)
    ensures BitsOf(a, width) == Add(UpBits(BitsOf(a0, width)), Choose(BitsOf(a0, width)[width - 1], BitsOf(reduction, width)))
  {
    hide WordsFor, BitAt;
    var carry := BitAt(a0, width - 1);
    assert carry == BitsOf(a0, width)[width - 1];
    a := ShiftUp(a0);
    a := MaskTop(a, width);
    assert forall i: nat | i < width :: BitAt(a, i) == BitsOf(a, width)[i];
    UpOfBits(a0, a, width);
    if carry {
      ghost var before := a;
      a := XorInto(a, reduction);
      SumOfBits(before, reduction, a, width);
      SumClear(before, reduction, a, width);
    } else {
      AddZero(BitsOf(a, width));
    }
  }

  /** Bits of `out` above the width: those of `a`, if they were added. */
  ghost predicate Spill(out: Limbs, a: Limbs, added: bool, width: nat) {
    |out| == |a| && forall i: nat | width <= i < 64 * |out| :: BitAt(out, i) == (added && BitAt(a, i))
  }

  /**
   The multiplier written into the C source. The product is right whatever lies above the degree; the result is
   clear there exactly if the left operand was, or the right one is even.
   */
  method CMultiply(f: Field, a0: Limbs, b: Limbs) returns (out: Limbs)
    requires BitField(f) && |a0| == |b| == WordsFor(f.degree)
    ensures |out| == WordsFor(f.degree) && Width(Ext(f)) == f.degree
    ensures BitsOf(out, f.degree) == Mul(Ext(f), BitsOf(a0, f.degree), BitsOf(b, f.degree))
    ensures Clear(out, f.degree) <==> Clear(a0, f.degree) || !BitAt(b, 0)
  {
    hide WfField, WordsFor, Mul, Partial, Shifted, TimesX, BitAt, Width, Add, Choose, UpBits, Clear, Spill;
    var width := f.degree;
    out := NoLimbs(WordsFor(width));
    var reduction := PackReduction(f);
    var a := a0;
    ghost var left, right := BitsOf(a0, width), BitsOf(b, width);
    PartialNone(f, left, right, out);
    NoSpill(out, a0, width);
    for i := 0 to width
      invariant |a| == |out| == WordsFor(width) && (if i == 0 then a == a0 else Clear(a, width))
      invariant Spill(out, a0, i > 0 && BitAt(b, 0), width)
      invariant BitsOf(a, width) == Shifted(f, left, i) && BitsOf(out, width) == Partial(f, left, right, i)
    {
      assert BitAt(b, i) == right[i];
      PartialStep(f, left, right, i);
      ghost var before := out;
      out := Accumulate(out, a, BitAt(b, i), width);
      SpillStep(before, out, a, a0, i, BitAt(b, 0), BitAt(b, i), width);
      ShiftedStep(f, left, i);
      a := Double(a, reduction, width);
    }
    SpillIs(out, a0, BitAt(b, 0), width);
    PartialIsProduct(f, left, right);
  }

  lemma NoSpill(out: Limbs, a: Limbs, width: nat)
    requires |out| == |a| && Clear(out, 0)
    ensures Spill(out, a, false, width)
  {
    hide BitAt;
  }

  lemma SpillStep(before: Limbs, out: Limbs, a: Limbs, a0: Limbs, i: nat, first: bool, bit: bool, width: nat)
    requires |before| == |out| == |a| == |a0| && (if i == 0 then a == a0 && bit == first else Clear(a, width))
    requires Spill(before, a0, i > 0 && first, width)
    requires forall k: nat | k < 64 * |out| :: BitAt(out, k) == (BitAt(before, k) != (bit && BitAt(a, k)))
    ensures Spill(out, a0, first, width)
  {
    hide BitAt;
  }

  lemma SpillIs(out: Limbs, a: Limbs, added: bool, width: nat)
    requires Spill(out, a, added, width)
    ensures Clear(out, width) <==> Clear(a, width) || !added
  {
    hide BitAt;
  }

  lemma PartialNone(f: Field, a: Bits, b: Bits, out: Limbs)
    requires BitField(f) && |a| == |b| == f.degree <= 64 * |out| && Clear(out, 0)
    ensures BitsOf(out, f.degree) == Partial(f, a, b, 0) && Shifted(f, a, 0) == a && Clear(out, f.degree)
  {
    hide BitAt;
  }

  lemma PartialStep(f: Field, a: Bits, b: Bits, i: nat)
    requires BitField(f) && |a| == |b| == f.degree && i < f.degree
    ensures Partial(f, a, b, i + 1) == Add(Partial(f, a, b, i), Choose(b[i], Shifted(f, a, i)))
  {
    hide Shifted, Choose;
  }

  lemma ShiftedStep(f: Field, a: Bits, i: nat)
    requires BitField(f) && |a| == f.degree
    ensures Shifted(f, a, i + 1) == Add(UpBits(Shifted(f, a, i)), Choose(Shifted(f, a, i)[f.degree - 1], ReductionBits(f)))
  {
  }

  lemma SumOfBits(a: Limbs, b: Limbs, r: Limbs, width: nat)
    requires |a| == |b| == |r| && width <= 64 * |a|
    requires forall i: nat | i < 64 * |a| :: BitAt(r, i) == (BitAt(a, i) != BitAt(b, i))
    ensures BitsOf(r, width) == Add(BitsOf(a, width), BitsOf(b, width))
  {
    hide BitAt;
  }

  lemma SumClear(a: Limbs, b: Limbs, r: Limbs, width: nat)
    requires |a| == |b| == |r| && Clear(a, width) && Clear(b, width)
    requires forall i: nat | i < 64 * |a| :: BitAt(r, i) == (BitAt(a, i) != BitAt(b, i))
    ensures Clear(r, width)
  {
    hide BitAt;
  }

  lemma UpOfBits(a: Limbs, r: Limbs, width: nat)
    requires |a| == |r| && width <= 64 * |a|
    requires forall i: nat | i < width :: BitAt(r, i) == (i > 0 && BitAt(a, i - 1))
    ensures BitsOf(r, width) == UpBits(BitsOf(a, width))
  {
    hide BitAt;
  }

  // ---------------------------------------------------------------- the LLVM instructions

  function AndBits(a: Bits, b: Bits): (r: Bits)
    requires |a| == |b|
    ensures |r| == |a| && forall i | 0 <= i < |a| :: r[i] == (a[i] && b[i])
  {
    seq(|a|, i requires 0 <= i < |a| => a[i] && b[i])
  }

  /** A constant of the integer type with only bit `index`, given by words. */
  method OneBit(degree: nat, index: nat) returns (r: Bits)
    requires index < degree
    ensures |r| == degree && forall i | 0 <= i < degree :: r[i] == (i == index)
  {
    hide WordsFor;
    var words := NoLimbs(WordsFor(degree));
    ghost var before := words;
    words := words[index / 64 := SetBit(words[index / 64], index % 64)];
    BitSet(before, index, words);
    r := BitsOf(words, degree);
  }

  lemma SelectedBit(a: Bits, mask: Bits, index: nat)
    requires |a| == |mask| && index < |a| && forall i | 0 <= i < |a| :: mask[i] == (i == index)
    ensures AndBits(a, mask) != Zeros(|a|) <==> a[index]
  {
    if a[index] {
      assert AndBits(a, mask)[index];
    }
  }

  /** `value & mask != 0` */
  method TestBit(value: Bits, mask: Bits, index: nat) returns (hit: bool)
    requires |value| == |mask| && index < |value| && forall i | 0 <= i < |value| :: mask[i] == (i == index)
    ensures hit == value[index]
  {
    hide AndBits;
    SelectedBit(value, mask, index);
    hit := AndBits(value, mask) != Zeros(|value|);
  }

  /** The instructions emitted for a product, evaluated one after the other. */
  method LlvmMultiply(f: Field, lhs: Bits, rhs: Bits) returns (product: Bits)
    requires BitField(f) && f.degree <= 256 && |lhs| == |rhs| == f.degree
    ensures Width(Ext(f)) == f.degree && product == Mul(Ext(f), lhs, rhs)
  {
    hide WfField, WordsFor, Mul, Partial, Shifted, TimesX, Width, Add, UpBits;
    var degree := f.degree;
    var reductionWords := PackReduction(f);
    var reduction := BitsOf(reductionWords, degree);
    var topMask := OneBit(degree, degree - 1);
    var zero := Zeros(degree);
    product := zero;
    var multiplicand := lhs;
    var none := NoLimbs(WordsFor(degree));
    PartialNone(f, lhs, rhs, none);
    for index := 0 to degree
      invariant multiplicand == Shifted(f, lhs, index) && product == Partial(f, lhs, rhs, index)
    {
      var rhsMask := OneBit(degree, index);
      var rhsSet := TestBit(rhs, rhsMask, index);
      var addend := if rhsSet then multiplicand else zero;
      PartialStep(f, lhs, rhs, index);
      product := Add(product, addend);

      var carry := TestBit(multiplicand, topMask, degree - 1);
      ShiftedStep(f, lhs, index);
      multiplicand := UpBits(multiplicand);
      var correction := if carry then reduction else zero;
      multiplicand := Add(multiplicand, correction);
    }
    PartialIsProduct(f, lhs, rhs);
  }
}
