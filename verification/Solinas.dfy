/**
 Prime fields p = 2^k - n as circuits of boolean digits over any native field.

 A wire is an element of the native field. The circuits only ever put zero and one on a
 wire, and combine them with `EmbedXor` and `EmbedAnd`, so one contract, stated on the
 digits' integer value, covers GF(2) and every odd prime at once.
 */
module Solinas {
  import opened Numbers

  /** The native field's operations; `member` says which wires are its elements. */
  datatype Sink<!Wire> = Sink(
    zero: Wire,
    one: Wire,
    add: (Wire, Wire) -> Wire,
    sub: (Wire, Wire) -> Wire,
    mul: (Wire, Wire) -> Wire,
    charTwo: bool,
    member: Wire -> bool)

  /** The laws of a commutative ring the circuits rely on. */
  ghost predicate Lawful<Wire(!new)>(sink: Sink<Wire>) {
    && sink.zero != sink.one
    && sink.member(sink.zero) && sink.member(sink.one)
    && (forall a, b {:trigger sink.add(a, b)} | sink.member(a) && sink.member(b) ::
          sink.member(sink.add(a, b)) && sink.add(a, b) == sink.add(b, a))
    && (forall a, b {:trigger sink.mul(a, b)} | sink.member(a) && sink.member(b) :: sink.mul(a, b) == sink.mul(b, a))
    && (forall a {:trigger sink.add(a, sink.zero)} | sink.member(a) :: sink.add(a, sink.zero) == a)
    && (forall a {:trigger sink.sub(a, sink.zero)} | sink.member(a) :: sink.sub(a, sink.zero) == a)
    && (forall a {:trigger sink.sub(a, a)} | sink.member(a) :: sink.sub(a, a) == sink.zero)
    && (forall a {:trigger sink.mul(a, sink.one)} | sink.member(a) :: sink.mul(a, sink.one) == a)
    && (forall a {:trigger sink.mul(a, sink.zero)} | sink.member(a) :: sink.mul(a, sink.zero) == sink.zero)
    && (sink.charTwo ==> sink.add(sink.one, sink.one) == sink.zero)
  }

  ghost predicate IsBit<Wire(!new)>(sink: Sink<Wire>, w: Wire) {
    w == sink.zero || w == sink.one
  }

  ghost predicate AreBits<Wire(!new)>(sink: Sink<Wire>, ws: seq<Wire>) {
    forall i | 0 <= i < |ws| :: IsBit(sink, ws[i])
  }

  ghost function Set<Wire(!new)>(sink: Sink<Wire>, w: Wire): bool {
    w == sink.one
  }

  ghost function Decode<Wire(!new)>(sink: Sink<Wire>, ws: seq<Wire>): (bits: seq<bool>)
    ensures |bits| == |ws|
  {
    seq(|ws|, i requires 0 <= i < |ws| => Set(sink, ws[i]))
  }

  /** The integer a digit string carries. */
  ghost function Value<Wire(!new)>(sink: Sink<Wire>, ws: seq<Wire>): nat {
    Num(Decode(sink, ws))
  }

  ghost function LowValue<Wire(!new)>(sink: Sink<Wire>, ws: seq<Wire>, k: nat): nat {
    Low(Decode(sink, ws), k)
  }

  // ---------------------------------------------------------------- one-digit gates

  function EmbedXor<Wire(!new)>(sink: Sink<Wire>, lhs: Wire, rhs: Wire): (r: Wire)
    requires Lawful(sink) && IsBit(sink, lhs) && IsBit(sink, rhs)
    ensures IsBit(sink, r) && Set(sink, r) == (Set(sink, lhs) != Set(sink, rhs))
  {
    if sink.charTwo then
      sink.add(lhs, rhs)
    else
      var both := sink.mul(lhs, rhs);
      var twice := sink.add(both, both);
      sink.sub(sink.add(lhs, rhs), twice)
  }

  function EmbedAnd<Wire(!new)>(sink: Sink<Wire>, lhs: Wire, rhs: Wire): (r: Wire)
    requires Lawful(sink) && IsBit(sink, lhs) && IsBit(sink, rhs)
    ensures IsBit(sink, r) && Set(sink, r) == (Set(sink, lhs) && Set(sink, rhs))
  {
    sink.mul(lhs, rhs)
  }

  function Or<Wire(!new)>(sink: Sink<Wire>, lhs: Wire, rhs: Wire): (r: Wire)
    requires Lawful(sink) && IsBit(sink, lhs) && IsBit(sink, rhs)
    ensures IsBit(sink, r) && Set(sink, r) == (Set(sink, lhs) || Set(sink, rhs))
  {
    EmbedXor(sink, EmbedXor(sink, lhs, rhs), EmbedAnd(sink, lhs, rhs))
  }

  function Not<Wire(!new)>(sink: Sink<Wire>, bit: Wire): (r: Wire)
    requires Lawful(sink) && IsBit(sink, bit)
    ensures IsBit(sink, r) && Set(sink, r) == !Set(sink, bit)
  {
    EmbedXor(sink, bit, sink.one)
  }

  function Mux<Wire(!new)>(sink: Sink<Wire>, sel: Wire, yes: Wire, no: Wire): (r: Wire)
    requires Lawful(sink) && IsBit(sink, sel) && IsBit(sink, yes) && IsBit(sink, no)
    ensures IsBit(sink, r) && Set(sink, r) == if Set(sink, sel) then Set(sink, yes) else Set(sink, no)
  {
    Or(sink, EmbedAnd(sink, sel, yes), EmbedAnd(sink, Not(sink, sel), no))
  }

  function DigitAt<Wire(!new)>(sink: Sink<Wire>, bits: seq<Wire>, index: nat): (r: Wire)
    requires Lawful(sink) && AreBits(sink, bits)
    ensures IsBit(sink, r) && (if Set(sink, r) then 1 else 0) == Digit(Decode(sink, bits), index)
  {
    if index < |bits| then bits[index] else sink.zero
  }

  // ---------------------------------------------------------------- lemmas on digit strings of wires

  lemma PushDigit<Wire(!new)>(sink: Sink<Wire>, out: seq<Wire>, w: Wire)
    ensures Value(sink, out + [w]) == Value(sink, out) + (if Set(sink, w) then Pow2(|out|) else 0)
  {
    var longer, digits := Decode(sink, out + [w]), Decode(sink, out);
    LowAgree(longer, digits, |out|);
    assert longer[|out|] == Set(sink, w);
  }

  lemma ValueBound<Wire(!new)>(sink: Sink<Wire>, ws: seq<Wire>)
    ensures Value(sink, ws) < Pow2(|ws|)
  {
    NumBound(Decode(sink, ws));
  }

  /** Reading past the end of a digit string changes nothing. */
  lemma ValueBeyond<Wire(!new)>(sink: Sink<Wire>, ws: seq<Wire>, k: nat)
    requires |ws| <= k
    ensures LowValue(sink, ws, k) == Value(sink, ws)
  {
    LowBeyond(Decode(sink, ws), k);
  }

  /** `resize`: cut to `k` digits, or pad with zeros up to them. */
  function Resize<Wire(!new)>(sink: Sink<Wire>, ws: seq<Wire>, k: nat): (r: seq<Wire>)
    requires Lawful(sink) && AreBits(sink, ws)
    ensures |r| == k && AreBits(sink, r)
  {
    seq(k, i requires 0 <= i => if i < |ws| then ws[i] else sink.zero)
  }

  lemma ResizeValue<Wire(!new)>(sink: Sink<Wire>, ws: seq<Wire>, k: nat)
    requires Lawful(sink) && AreBits(sink, ws)
    ensures Value(sink, Resize(sink, ws, k)) == LowValue(sink, ws, k)
  {
    LowAgree(Decode(sink, Resize(sink, ws, k)), Decode(sink, ws), k);
  }

  /** Cutting digits off a string whose value fits in what is left loses nothing. */
  lemma LowOfSmall<Wire(!new)>(sink: Sink<Wire>, ws: seq<Wire>, k: nat)
    requires Value(sink, ws) < Pow2(k)
    ensures LowValue(sink, ws, k) == Value(sink, ws)
    ensures forall i: nat | i >= k :: Digit(Decode(sink, ws), i) == 0
  {
    var bits := Decode(sink, ws);
    if |ws| <= k {
      LowBeyond(bits, k);
    } else {
      SmallDigits(bits, k, |ws|);
    }
  }

  lemma {:induction false} SmallDigits(bits: seq<bool>, k: nat, m: nat)
    requires k <= m && Low(bits, m) < Pow2(k)
    ensures Low(bits, k) == Low(bits, m)
    ensures forall i: nat | k <= i < m :: Digit(bits, i) == 0
    decreases m
  {
    if k < m {
      Pow2Monotone(k, m - 1);
      SmallDigits(bits, k, m - 1);
    }
  }

  // ---------------------------------------------------------------- integer circuits

  /** Ripple-carry addition; the result is one digit longer, so nothing is lost. */
  method AddDigits<Wire(!new)>(lhs: seq<Wire>, rhs: seq<Wire>, sink: Sink<Wire>) returns (out: seq<Wire>)
    requires Lawful(sink) && AreBits(sink, lhs) && AreBits(sink, rhs)
    ensures |out| == (if |lhs| > |rhs| then |lhs| else |rhs|) + 1 && AreBits(sink, out)
    ensures Value(sink, out) == Value(sink, lhs) + Value(sink, rhs)
  {
    var width := if |lhs| > |rhs| then |lhs| else |rhs|;
    var carry := sink.zero;
    out := [];
    for index := 0 to width
      invariant |out| == index && AreBits(sink, out) && IsBit(sink, carry)
      invariant Value(sink, out) + (if Set(sink, carry) then Pow2(index) else 0)
        == LowValue(sink, lhs, index) + LowValue(sink, rhs, index)
    {
      var a := DigitAt(sink, lhs, index);
      var b := DigitAt(sink, rhs, index);
      var axb := EmbedXor(sink, a, b);
      var sum := EmbedXor(sink, axb, carry);
      PushDigit(sink, out, sum);
      out := out + [sum];
      carry := Or(sink, EmbedAnd(sink, a, b), EmbedAnd(sink, carry, axb));
    }
    PushDigit(sink, out, carry);
    out := out + [carry];
    ValueBeyond(sink, lhs, width);
    ValueBeyond(sink, rhs, width);
  }

  /** Shift-and-add multiplication. Truncating to `|lhs| + |rhs|` digits never drops a set digit. */
  method SchoolbookMul<Wire(!new)>(lhs: seq<Wire>, rhs: seq<Wire>, sink: Sink<Wire>) returns (acc: seq<Wire>)
    requires Lawful(sink) && AreBits(sink, lhs) && AreBits(sink, rhs)
    ensures |acc| == |lhs| + |rhs| && AreBits(sink, acc)
    ensures Value(sink, acc) == Value(sink, lhs) * Value(sink, rhs)
  {
    var n := |lhs| + |rhs|;
    acc := Resize(sink, [], n);
    ResizeValue<Wire>(sink, [], n);
    LowBeyond(Decode<Wire>(sink, []), n);
    for i := 0 to |rhs|
      invariant |acc| == n && AreBits(sink, acc)
      invariant Value(sink, acc) == Value(sink, lhs) * LowValue(sink, rhs, i)
    {
      var bit := rhs[i];
      var partial := Resize(sink, [], i);
      for j := 0 to |lhs|
        invariant |partial| == i + j && AreBits(sink, partial)
        invariant forall m | 0 <= m < i :: !Set(sink, partial[m])
        invariant forall m | i <= m < i + j :: Set(sink, partial[m]) == (Set(sink, lhs[m - i]) && Set(sink, bit))
      {
        partial := partial + [EmbedAnd(sink, lhs[j], bit)];
      }
      PartialValue(sink, lhs, bit, partial, i);
      MulSum(sink, lhs, rhs, i);
      acc := AddDigits(acc, partial, sink);
      LowOfSmall(sink, acc, n);
      ResizeValue(sink, acc, n);
      acc := Resize(sink, acc, n);
    }
  }

  lemma PartialValue<Wire(!new)>(sink: Sink<Wire>, lhs: seq<Wire>, bit: Wire, partial: seq<Wire>, i: nat)
    requires |partial| == i + |lhs|
    requires forall m | 0 <= m < i :: !Set(sink, partial[m])
    requires forall m | i <= m < i + |lhs| :: Set(sink, partial[m]) == (Set(sink, lhs[m - i]) && Set(sink, bit))
    ensures Value(sink, partial) == if Set(sink, bit) then Pow2(i) * Value(sink, lhs) else 0
  {
    var bits := Decode(sink, partial);
    if Set(sink, bit) {
      forall m: nat | m < |lhs| ensures Digit(bits, i + m) == Digit(Decode(sink, lhs), m) {
        assert Set(sink, partial[i + m]) == Set(sink, lhs[m]);
      }
      LowShift(Decode(sink, lhs), bits, i, |lhs|);
    } else {
      forall m: nat | m < |partial| ensures Digit(bits, m) == 0 {
        assert !Set(sink, partial[m]);
      }
      LowZero(bits, |partial|);
    }
  }

  lemma MulSum<Wire(!new)>(sink: Sink<Wire>, lhs: seq<Wire>, rhs: seq<Wire>, i: nat)
    requires i < |rhs|
    ensures Value(sink, lhs) * LowValue(sink, rhs, i + 1)
      == Value(sink, lhs) * LowValue(sink, rhs, i) + (if Set(sink, rhs[i]) then Pow2(i) * Value(sink, lhs) else 0)
    ensures Value(sink, lhs) * LowValue(sink, rhs, i + 1) < Pow2(|lhs| + |rhs|)
  {
    var a, b := Value(sink, lhs), LowValue(sink, rhs, i);
    Distribute(a, b, Pow2(i));
    ValueBound(sink, lhs);
    LowBound(Decode(sink, rhs), i + 1);
    Pow2Monotone(i + 1, |rhs|);
    ProductBound(a, LowValue(sink, rhs, i + 1), Pow2(|lhs|), Pow2(|rhs|));
    Pow2Add(|lhs|, |rhs|);
  }

  lemma ProductBound(a: nat, b: nat, x: nat, y: nat)
    requires a < x && b < y
    ensures a * b < x * y
  {
    MulMonotone(a, x - 1, b);
    MulMonotone(b, y - 1, x - 1);
  }

  // ---------------------------------------------------------------- the modulus p = 2^k - n

  /** `n` as little-endian 64-bit limbs. */
  datatype PrimeSpec = PrimeSpec(k: nat, n: seq<nat>) {
    ghost predicate Canonical() {
      2 <= k && AreWords(n) && 0 < Limbs(n) < Pow2(k - 1)
    }

    ghost function N(): nat {
      Limbs(n)
    }

    ghost function P(): nat
      requires Canonical()
    {
      Pow2(k) - N()
    }
  }

  method NDigits<Wire(!new)>(spec: PrimeSpec, sink: Sink<Wire>) returns (out: seq<Wire>)
    requires Lawful(sink) && spec.Canonical()
    ensures |out| == spec.k && AreBits(sink, out) && Value(sink, out) == spec.N()
  {
    out := [];
    for bit := 0 to spec.k
      invariant |out| == bit && AreBits(sink, out)
      invariant Value(sink, out) == spec.N() % Pow2(bit)
    {
      var digit := if LimbBit(spec.n, bit) then sink.one else sink.zero;
      LimbBitIsDigit(spec.n, bit);
      ModStep(spec.N(), Pow2(bit));
      PushDigit(sink, out, digit);
      out := out + [digit];
    }
    SmallMod(spec.N(), Pow2(spec.k));
  }

  /** The digits of p: within `k` digits, `2^k - n` is the complement of `n - 1`. */
  method ModulusDigits<Wire(!new)>(spec: PrimeSpec, sink: Sink<Wire>) returns (out: seq<Wire>)
    requires Lawful(sink) && spec.Canonical()
    ensures |out| == spec.k && AreBits(sink, out) && Value(sink, out) == spec.P()
  {
    var borrow := sink.one;
    var bits := NDigits(spec, sink);
    var decremented: seq<Wire> := [];
    for index := 0 to spec.k
      invariant |decremented| == index && AreBits(sink, decremented) && IsBit(sink, borrow)
      invariant Value(sink, decremented) + 1
        == LowValue(sink, bits, index) + (if Set(sink, borrow) then Pow2(index) else 0)
    {
      var bit := bits[index];
      var d := EmbedXor(sink, bit, borrow);
      PushDigit(sink, decremented, d);
      decremented := decremented + [d];
      borrow := EmbedAnd(sink, Not(sink, bit), borrow);
    }
    ValueBound(sink, decremented);
    out := [];
    for index := 0 to spec.k
      invariant |out| == index && AreBits(sink, out)
      invariant Value(sink, out) + LowValue(sink, decremented, index) == Pow2(index) - 1
    {
      var bit := Not(sink, decremented[index]);
      PushDigit(sink, out, bit);
      out := out + [bit];
    }
  }

  lemma BorrowStep(v: bool, p: bool, borrow: bool, place: nat)
    ensures (if (v != p) != borrow then place else 0) + (if p then place else 0) + (if borrow then place else 0)
      == (if v then place else 0) + (if (!v && p) || (borrow && v == p) then 2 * place else 0)
  {
  }

  /** The low `k` digits of `value - modulus`, and whether the subtraction borrowed. */
  method SubtractDigits<Wire(!new)>(value: seq<Wire>, modulus: seq<Wire>, k: nat, sink: Sink<Wire>)
    returns (diff: seq<Wire>, borrow: Wire)
    requires Lawful(sink) && AreBits(sink, value) && AreBits(sink, modulus)
    ensures |diff| == k && AreBits(sink, diff) && IsBit(sink, borrow)
    ensures Value(sink, diff) + LowValue(sink, modulus, k)
      == LowValue(sink, value, k) + (if Set(sink, borrow) then Pow2(k) else 0)
  {
    borrow := sink.zero;
    diff := [];
    for index := 0 to k
      invariant |diff| == index && AreBits(sink, diff) && IsBit(sink, borrow)
      invariant Value(sink, diff) + LowValue(sink, modulus, index)
        == LowValue(sink, value, index) + (if Set(sink, borrow) then Pow2(index) else 0)
    {
      var v := DigitAt(sink, value, index);
      var p := DigitAt(sink, modulus, index);
      var vxp := EmbedXor(sink, v, p);
      var d := EmbedXor(sink, vxp, borrow);
      PushDigit(sink, diff, d);
      diff := diff + [d];
      var need := EmbedAnd(sink, Not(sink, v), p);
      var chain := EmbedAnd(sink, borrow, Not(sink, vxp));
      BorrowStep(Set(sink, v), Set(sink, p), Set(sink, borrow), Pow2(index));
      borrow := Or(sink, need, chain);
    }
  }

  method MuxDigits<Wire(!new)>(sel: Wire, yes: seq<Wire>, no: seq<Wire>, k: nat, sink: Sink<Wire>)
    returns (out: seq<Wire>)
    requires Lawful(sink) && IsBit(sink, sel) && AreBits(sink, yes) && AreBits(sink, no)
    ensures |out| == k && AreBits(sink, out)
    ensures Value(sink, out) == LowValue(sink, if Set(sink, sel) then yes else no, k)
  {
    ghost var source := if Set(sink, sel) then yes else no;
    out := [];
    for index := 0 to k
      invariant |out| == index && AreBits(sink, out)
      invariant Value(sink, out) == LowValue(sink, source, index)
    {
      var picked := Mux(sink, sel, DigitAt(sink, yes, index), DigitAt(sink, no, index));
      PushDigit(sink, out, picked);
      out := out + [picked];
    }
  }

  /** One conditional subtraction brings any value below 2p to its residue. */
  method SubPIfGe<Wire(!new)>(value: seq<Wire>, spec: PrimeSpec, sink: Sink<Wire>) returns (out: seq<Wire>)
    requires Lawful(sink) && AreBits(sink, value) && spec.Canonical()
    requires Value(sink, value) < 2 * spec.P()
    ensures |out| == spec.k && AreBits(sink, out)
    ensures Value(sink, out) == Value(sink, value) % spec.P()
  {
    var k := spec.k;
    ghost var prime, b := spec.P(), Pow2(k);
    var modulus := ModulusDigits(spec, sink);
    var diff, borrow := SubtractDigits(value, modulus, k, sink);
    var extra := DigitAt(sink, value, k);
    var tooBig := Or(sink, extra, Not(sink, borrow));
    out := MuxDigits(tooBig, diff, value, k, sink);
    LowOfSmall(sink, value, k + 1);
    ValueBound(sink, diff);
    LowBound(Decode(sink, value), k);
    SubtractOnce(Value(sink, value), LowValue(sink, value, k), Value(sink, diff), Value(sink, out), prime, b,
      Set(sink, borrow), Set(sink, extra));
  }

  /** Which of the two candidates is the residue. */
  lemma SubtractOnce(v: nat, low: nat, diff: nat, out: nat, p: nat, b: nat, borrow: bool, extra: bool)
    requires b < 2 * p <= 2 * b && v < 2 * p
    requires v == low + (if extra then b else 0) && low < b && diff < b
    requires diff + p == low + (if borrow then b else 0)
    requires out == if extra || !borrow then diff else low
    ensures out == v % p
  {
    if extra || !borrow {
      DivModUnique(v, p, 1, out);
    } else {
      SmallMod(v, p);
    }
  }

  /** `sum` is below 2p; its overflow digit folds back as `n`, since 2^k = n mod p. */
  method ReduceSum<Wire(!new)>(sum: seq<Wire>, spec: PrimeSpec, sink: Sink<Wire>) returns (out: seq<Wire>)
    requires Lawful(sink) && AreBits(sink, sum) && spec.Canonical()
    requires Value(sink, sum) < 2 * spec.P()
    ensures |out| == spec.k && AreBits(sink, out)
    ensures Value(sink, out) == Value(sink, sum) % spec.P()
  {
    var k := spec.k;
    var lo := Resize(sink, sum, k);
    ResizeValue(sink, sum, k);
    var hi := DigitAt(sink, sum, k);
    var nBits := NDigits(spec, sink);
    var correction: seq<Wire> := [];
    for index := 0 to |nBits|
      invariant |correction| == index && AreBits(sink, correction)
      invariant Value(sink, correction) == if Set(sink, hi) then LowValue(sink, nBits, index) else 0
    {
      var bit := EmbedAnd(sink, nBits[index], hi);
      PushDigit(sink, correction, bit);
      correction := correction + [bit];
    }
    var folded := AddDigits(lo, correction, sink);
    LowOfSmall(sink, sum, k + 1);
    if Set(sink, hi) {
      assert Value(sink, sum) == Value(sink, folded) + spec.P();
      ModOfMultiple(Value(sink, folded), 1, spec.P());
    }
    out := SubPIfGe(folded, spec, sink);
  }

  // ---------------------------------------------------------------- folding a product below 2p

  /** One Solinas fold: the high half comes back multiplied by `n`. */
  function Fold(v: nat, n: nat, b: nat): nat
    requires b > 0
  {
    v % b + n * (v / b)
  }

  function FoldTimes(v: nat, n: nat, b: nat, times: nat): nat
    requires b > 0
  {
    if times == 0 then v else Fold(FoldTimes(v, n, b, times - 1), n, b)
  }

  /** A fold subtracts a multiple of p. */
  lemma FoldSubtracts(v: nat, n: nat, b: nat)
    requires 0 < n < b
    ensures Fold(v, n, b) == v + -(v / b) * (b - n)
  {
    var lo, hi := v % b, v / b;
    assert v == hi * b + lo;
    Distribute(hi, b, 0 - n as int);
  }

  /** A fold shrinks the excess over `b - 1` by the factor `n / b`. */
  lemma FoldStep(v: nat, n: nat, b: nat)
    requires 0 < n < b
    ensures (Fold(v, n, b) - (b - 1)) * b <= n * (v - (b - 1))
  {
    var lo, hi, m := v % b, v / b, b - 1;
    assert v == hi * b + lo;
    calc {
      (Fold(v, n, b) - m) * b;
      (lo - m) * b + n * hi * b;
      n * (hi * b + lo - m) + (lo - m) * (b - n);
    }
    MulMonotone(lo - m, 0, b - n);
  }

  lemma {:induction false} FoldTimesCongruent(v: nat, n: nat, b: nat, times: nat)
    requires 0 < n < b
    ensures FoldTimes(v, n, b, times) % (b - n) == v % (b - n)
  {
    if times > 0 {
      var w := FoldTimes(v, n, b, times - 1);
      FoldTimesCongruent(v, n, b, times - 1);
      FoldCongruent(w, n, b);
    }
  }

  lemma FoldCongruent(w: nat, n: nat, b: nat)
    requires 0 < n < b
    ensures Fold(w, n, b) % (b - n) == w % (b - n)
  {
    FoldSubtracts(w, n, b);
    ModOfMultiple(w, -(w / b), b - n);
  }

  /** The excess of a product of two residues over `b - 1`, after `times >= 2` folds. */
  lemma {:induction false} ExcessHalves(v: nat, n: nat, k: nat, times: nat)
    requires 2 <= k && 0 < n < Pow2(k - 1)
    requires v <= (Pow2(k) - n - 1) * (Pow2(k) - n - 1)
    requires times >= 2
    ensures (FoldTimes(v, n, Pow2(k), times) - (Pow2(k) - 1)) * Pow2(times + 2) <= Pow2(k) * Pow2(k)
    decreases times
  {
    var b := Pow2(k);
    if times == 2 {
      var v1 := Fold(v, n, b);
      assert FoldTimes(v, n, b, 1) == Fold(FoldTimes(v, n, b, 0), n, b);
      assert FoldTimes(v, n, b, 2) == Fold(v1, n, b);
      TwoFolds(v, n, b);
      assert Pow2(4) == 16;
    } else {
      ExcessHalves(v, n, k, times - 1);
      HalveFold(FoldTimes(v, n, b, times - 1), n, b, Pow2(times + 1));
    }
  }

  lemma TwoFolds(v: nat, n: nat, b: nat)
    requires 0 < n < b
    requires v <= (b - n - 1) * (b - n - 1)
    ensures (Fold(Fold(v, n, b), n, b) - (b - 1)) * 16 <= b * b
  {
    var p := b - n;
    var v1 := Fold(v, n, b);
    var d0, d1, d2 := v - (b - 1), v1 - (b - 1), Fold(v1, n, b) - (b - 1);
    FoldStep(v, n, b);
    FoldStep(v1, n, b);
    QuarterSquare(n, b);
    assert (p - 1) * (p - 1) <= p * p;
    MulMonotone(d0, p * p, n);
    ShrinkOnce(d1, n, p, b);
    ShrinkTwice(d1, d2, n, p, b);
  }

  lemma HalveFold(w: nat, n: nat, b: nat, scale: nat)
    requires 0 < n < b && 2 * n <= b && 0 < scale
    requires (w - (b - 1)) * scale <= b * b
    ensures (Fold(w, n, b) - (b - 1)) * (2 * scale) <= b * b
  {
    FoldStep(w, n, b);
    Halve(w - (b - 1), Fold(w, n, b) - (b - 1), n, b, scale);
  }

  lemma QuarterSquare(n: nat, b: nat)
    requires n < b
    ensures 4 * (n * (b - n)) <= b * b
  {
    assert (b - 2 * n) * (b - 2 * n) >= 0;
  }

  lemma ShrinkOnce(d1: int, n: nat, p: nat, b: nat)
    requires 0 < b && d1 * b <= n * (p * p) && 4 * (n * p) <= b * b
    ensures 4 * d1 <= b * p
  {
    assert 4 * (d1 * b) <= 4 * (n * p) * p;
    MulMonotone(4 * (n * p), b * b, p);
    assert (4 * d1) * b <= (b * p) * b;
    if 4 * d1 >= b * p + 1 {
      MulMonotone(b * p + 1, 4 * d1, b);
    }
  }

  lemma ShrinkTwice(d1: int, d2: int, n: nat, p: nat, b: nat)
    requires 0 < b && d2 * b <= n * d1 && 4 * d1 <= b * p && 4 * (n * p) <= b * b
    ensures d2 * 16 <= b * b
  {
    MulMonotone(4 * d1, b * p, n);
    assert (4 * d2) * b <= (n * p) * b;
    if 4 * d2 >= n * p + 1 {
      MulMonotone(n * p + 1, 4 * d2, b);
    }
  }

  lemma Halve(d: int, e: int, n: nat, b: nat, scale: nat)
    requires 0 < b && 2 * n <= b && e * b <= n * d
    requires 0 < scale && d * scale <= b * b
    ensures e * (2 * scale) <= b * b
  {
    if e > 0 {
      assert e * b > 0;
      assert d > 0;
      MulMonotone(2 * n, b, d);
      assert (2 * e) * b <= d * b;
      if 2 * e >= d + 1 {
        MulMonotone(d + 1, 2 * e, b);
      }
      MulMonotone(2 * e, d, scale);
    } else {
      MulMonotone(e, 0, 2 * scale);
      assert b * b >= 0;
    }
  }

  /** After `k - 2` folds only one digit is left above the low `k`. */
  lemma FoldsLeaveOneDigit(v: nat, n: nat, k: nat)
    requires 2 <= k && 0 < n < Pow2(k - 1)
    requires v <= (Pow2(k) - n - 1) * (Pow2(k) - n - 1)
    ensures FoldTimes(v, n, Pow2(k), k - 2) < 2 * Pow2(k)
  {
    var b := Pow2(k);
    if k == 2 {
      assert b == 4 && n == 1;
    } else if k == 3 {
      assert Pow2(2) == 4;
      assert FoldTimes(v, n, b, 1) == Fold(FoldTimes(v, n, b, 0), n, b);
      FoldOfThreeDigits(v, n);
    } else {
      ExcessHalves(v, n, k, k - 2);
      CancelFactor(FoldTimes(v, n, b, k - 2), b);
    }
  }

  lemma FoldOfThreeDigits(v: nat, n: nat)
    requires 0 < n < 4 && v <= (7 - n) * (7 - n)
    ensures Fold(v, n, 8) < 16
  {
    if n == 1 {
      assert v <= 36;
    } else if n == 2 {
      assert v <= 25;
    } else {
      assert v <= 16;
    }
  }

  lemma CancelFactor(w: nat, b: nat)
    requires 0 < b && (w - (b - 1)) * b <= b * b
    ensures w < 2 * b
  {
    if w - (b - 1) >= b + 1 {
      MulMonotone(b + 1, w - (b - 1), b);
    }
  }

  /** `k` folds of a product of residues leave a value below 2p. */
  lemma FoldsSuffice(v: nat, n: nat, k: nat)
    requires 2 <= k && 0 < n < Pow2(k - 1)
    requires v <= (Pow2(k) - n - 1) * (Pow2(k) - n - 1)
    ensures FoldTimes(v, n, Pow2(k), k) < 2 * (Pow2(k) - n)
  {
    var b := Pow2(k);
    FoldsLeaveOneDigit(v, n, k);
    var w0 := FoldTimes(v, n, b, k - 2);
    var w1 := FoldTimes(v, n, b, k - 1);
    OneDigitFold(w0, n, b);
    OneDigitFold(w1, n, b);
  }

  /** Operands that have k digits without being residues are reduced wrongly: 21 * 30 is 1 modulo 17. */
  lemma ResiduesNeeded()
    ensures Pow2(5) - 15 == 17 && 21 < Pow2(5) && 30 < Pow2(5)
    ensures FoldTimes(21 * 30, 15, Pow2(5), 5) == 35 && 35 - 17 != 21 * 30 % 17
  {
    assert Pow2(5) == 32;
    assert Fold(630, 15, 32) == 307 && Fold(307, 15, 32) == 154 && Fold(154, 15, 32) == 86 && Fold(86, 15, 32) == 52 && Fold(52, 15, 32) == 35;
    assert FoldTimes(630, 15, 32, 1) == 307;
    assert FoldTimes(630, 15, 32, 2) == 154;
    assert FoldTimes(630, 15, 32, 3) == 86;
    assert FoldTimes(630, 15, 32, 4) == 52;
  }

  lemma OneDigitFold(w: nat, n: nat, b: nat)
    requires 0 < n < b && w < 2 * b
    ensures Fold(w, n, b) == if w < b then w else w - b + n
  {
    if w < b {
      SmallMod(w, b);
    } else {
      DivModUnique(w, b, 1, w - b);
    }
  }

  /** `2k` digits to `2k` digits: the low half plus the high half times `n`. */
  method FoldDigits<Wire(!new)>(cur: seq<Wire>, nBits: seq<Wire>, k: nat, ghost n: nat, sink: Sink<Wire>)
    returns (next: seq<Wire>)
    requires Lawful(sink) && AreBits(sink, cur) && AreBits(sink, nBits)
    requires k >= 1 && |cur| == 2 * k && |nBits| == k && Value(sink, nBits) == n < Pow2(k - 1)
    ensures |next| == 2 * k && AreBits(sink, next)
    ensures Value(sink, next) == Fold(Value(sink, cur), n, Pow2(k))
  {
    var lo := cur[..k];
    var hi := cur[k..k * 2];
    SplitValue(sink, cur, k);
    var hiN := SchoolbookMul(hi, nBits, sink);
    ResizeValue(sink, hiN, k * 2);
    ValueBeyond(sink, hiN, k * 2);
    hiN := Resize(sink, hiN, k * 2);
    var loExt := Resize(sink, lo, k * 2);
    ResizeValue(sink, lo, k * 2);
    ValueBeyond(sink, lo, k * 2);
    var sum := AddDigits(loExt, hiN, sink);
    ValueBound(sink, lo);
    ValueBound(sink, hi);
    FoldFits(Value(sink, lo), Value(sink, hi), n, k);
    LowOfSmall(sink, sum, k * 2);
    ResizeValue(sink, sum, k * 2);
    next := Resize(sink, sum, k * 2);
  }

  method ReduceProduct<Wire(!new)>(prod: seq<Wire>, spec: PrimeSpec, sink: Sink<Wire>) returns (out: seq<Wire>)
    requires Lawful(sink) && AreBits(sink, prod) && spec.Canonical() && |prod| == 2 * spec.k
    requires Value(sink, prod) <= (spec.P() - 1) * (spec.P() - 1)
    ensures |out| == spec.k && AreBits(sink, out)
    ensures Value(sink, out) == Value(sink, prod) % spec.P()
  {
    var k := spec.k;
    var nBits := NDigits(spec, sink);
    ghost var b, n := Pow2(k), spec.N();
    var cur := Resize(sink, prod, k * 2);
    ResizeValue(sink, prod, k * 2);
    for i := 0 to k
      invariant |cur| == 2 * k && AreBits(sink, cur)
      invariant Value(sink, cur) == FoldTimes(Value(sink, prod), n, b, i)
    {
      cur := FoldDigits(cur, nBits, k, n, sink);
    }
    FoldsSuffice(Value(sink, prod), n, k);
    FoldTimesCongruent(Value(sink, prod), n, b, k);
    out := SubPIfGe(cur, spec, sink);
  }

  lemma SplitValue<Wire(!new)>(sink: Sink<Wire>, cur: seq<Wire>, k: nat)
    requires |cur| == 2 * k
    ensures Value(sink, cur) % Pow2(k) == Value(sink, cur[..k])
    ensures Value(sink, cur) / Pow2(k) == Value(sink, cur[k..k * 2])
  {
    NumSplit(Decode(sink, cur), k);
    assert Decode(sink, cur)[..k] == Decode(sink, cur[..k]);
    assert Decode(sink, cur)[k..] == Decode(sink, cur[k..k * 2]);
  }

  /** A fold of `2k` digits still fits in `2k` digits. */
  lemma FoldFits(lo: nat, hi: nat, n: nat, k: nat)
    requires k >= 1 && lo < Pow2(k) && hi < Pow2(k) && n < Pow2(k - 1)
    ensures lo + hi * n < Pow2(k * 2)
  {
    Pow2Add(k, k);
    ProductBound(hi, n, Pow2(k), Pow2(k - 1));
    assert Pow2(k) * Pow2(k) == 2 * (Pow2(k) * Pow2(k - 1));
    MulMonotone(1, Pow2(k - 1), Pow2(k));
  }

  // ---------------------------------------------------------------- field operations

  /** `(lhs + rhs) mod p`. */
  method SolinasAdd<Wire(!new)>(lhs: seq<Wire>, rhs: seq<Wire>, spec: PrimeSpec, sink: Sink<Wire>)
    returns (out: seq<Wire>)
    requires Lawful(sink) && AreBits(sink, lhs) && AreBits(sink, rhs) && spec.Canonical()
    requires Value(sink, lhs) + Value(sink, rhs) < 2 * spec.P()
    ensures |out| == spec.k && AreBits(sink, out)
    ensures Value(sink, out) == (Value(sink, lhs) + Value(sink, rhs)) % spec.P()
  {
    var sum := AddDigits(lhs, rhs, sink);
    out := ReduceSum(sum, spec, sink);
  }

  /** `(lhs * rhs) mod p`. */
  method SolinasMul<Wire(!new)>(lhs: seq<Wire>, rhs: seq<Wire>, spec: PrimeSpec, sink: Sink<Wire>)
    returns (out: seq<Wire>)
    requires Lawful(sink) && AreBits(sink, lhs) && AreBits(sink, rhs) && spec.Canonical()
    requires Value(sink, lhs) < spec.P() && Value(sink, rhs) < spec.P()
    ensures |out| == spec.k && AreBits(sink, out)
    ensures Value(sink, out) == Value(sink, lhs) * Value(sink, rhs) % spec.P()
  {
    var a := Resize(sink, lhs, spec.k);
    var b := Resize(sink, rhs, spec.k);
    ResizeValue(sink, lhs, spec.k);
    ResizeValue(sink, rhs, spec.k);
    LowOfSmall(sink, lhs, spec.k);
    LowOfSmall(sink, rhs, spec.k);
    var prod := SchoolbookMul(a, b, sink);
    MulMonotone(Value(sink, lhs), spec.P() - 1, Value(sink, rhs));
    MulMonotone(Value(sink, rhs), spec.P() - 1, spec.P() - 1);
    out := ReduceProduct(prod, spec, sink);
  }

  /** `coeff` reduced mod p; a prime of more than eight bits exceeds every `u8`. */
  function RepetitionResidue(coeff: nat, spec: PrimeSpec): (r: nat)
    requires spec.Canonical() && coeff < 256
    ensures r == coeff % spec.P()
  {
    if spec.k > 8 then
      Pow2Monotone(8, spec.k - 1);
      assert Pow2(8) == 256;
      SmallMod(coeff, spec.P());
      coeff
    else
      var n := (if |spec.n| == 0 then 0 else spec.n[0]) % 0x1_0000;
      assert n == Limbs(spec.n) by {
        Pow2Monotone(spec.k - 1, 7);
        assert Pow2(7) == 128;
        SmallMod(spec.n[0], 0x1_0000);
      }
      coeff % (Pow2(spec.k) - n)
  }

  /** `acc + times * elem mod p`, by repeated addition. */
  method SolinasRepeat<Wire(!new)>(acc: seq<Wire>, elem: seq<Wire>, times: nat, spec: PrimeSpec, sink: Sink<Wire>)
    returns (out: seq<Wire>)
    requires Lawful(sink) && AreBits(sink, acc) && AreBits(sink, elem) && spec.Canonical() && times < 256
    requires |acc| == spec.k && Value(sink, acc) < spec.P() && Value(sink, elem) < spec.P()
    ensures |out| == spec.k && AreBits(sink, out)
    ensures Value(sink, out) == (Value(sink, acc) + times * Value(sink, elem)) % spec.P()
  {
    ghost var p, a, e := spec.P(), Value(sink, acc), Value(sink, elem);
    var count := RepetitionResidue(times, spec);
    out := acc;
    SmallMod(a, p);
    for i := 0 to count
      invariant |out| == spec.k && AreBits(sink, out)
      invariant Value(sink, out) == (a + i * e) % p
    {
      out := SolinasAdd(out, elem, spec, sink);
      RepeatStep(a, i, e, p);
    }
    RepeatReduced(a, times, e, p);
  }

  lemma RepeatStep(a: nat, i: nat, e: nat, p: nat)
    requires p > 0
    ensures ((a + i * e) % p + e) % p == (a + (i + 1) * e) % p
  {
    OneMore(i, e);
    AddedMod(a + i * e, e, p, a + (i + 1) * e);
  }

  lemma OneMore(i: nat, e: nat)
    ensures (i + 1) * e == i * e + e
  {
  }

  lemma AddedMod(u: nat, e: nat, p: nat, v: nat)
    requires p > 0 && v == u + e
    ensures (u % p + e) % p == v % p
  {
    AddModReduce(u, e, p);
  }

  lemma RepeatReduced(a: nat, times: nat, e: nat, p: nat)
    requires p > 0
    ensures (a + times % p * e) % p == (a + times * e) % p
  {
    MulModReduce(times, e, p);
    AddModReduce(a, times % p * e, p);
    AddModReduce(a, times * e, p);
  }

  // ---------------------------------------------------------------- independence of the sink

  /** Two sinks that carry the same integer in the same number of digits carry the same digits. */
  lemma SinkIndependence<A(!new), B(!new)>(sinkA: Sink<A>, a: seq<A>, sinkB: Sink<B>, b: seq<B>)
    requires |a| == |b| && Value(sinkA, a) == Value(sinkB, b)
    ensures Decode(sinkA, a) == Decode(sinkB, b)
  {
    NumInjective(Decode(sinkA, a), Decode(sinkB, b));
  }

  /** GF(2) on `bool`: exclusive or and conjunction. */
  function BoolRing(): Sink<bool> {
    Sink(false, true, (a: bool, b: bool) => a != b, (a: bool, b: bool) => a != b, (a: bool, b: bool) => a && b, true,
         (a: bool) => true)
  }

  lemma BoolRingIsLawful()
    ensures Lawful(BoolRing())
  {
  }

  /** The integers mod `m`, the carrier of an odd prime native field. */
  function ResidueRing(m: nat): Sink<int>
    requires m >= 2
  {
    Sink(0, 1, (a: int, b: int) => (a + b) % m, (a: int, b: int) => (a - b) % m, (a: int, b: int) => (a * b) % m, m == 2,
         (a: int) => 0 <= a < m)
  }

  lemma ResidueRingIsLawful(m: nat)
    requires m >= 2
    ensures Lawful(ResidueRing(m))
  {
    var sink := ResidueRing(m);
    forall a | sink.member(a)
      ensures sink.add(a, sink.zero) == a && sink.sub(a, sink.zero) == a && sink.sub(a, a) == sink.zero
      ensures sink.mul(a, sink.one) == a && sink.mul(a, sink.zero) == sink.zero
    {
      SmallMod(a, m);
      SmallMod(0, m);
    }
    assert 2 % 2 == 0;
  }
}
