/**
 The field product as it is computed: coefficients cut out of the bit string, a running multiple of
 the left operand, one coefficient of the right operand at a time; and the inverse by squaring.
 */
module FieldArithmetic {
  import opened Numbers
  import opened FieldTower

  /** The first `n` bits, zero where there are none. */
  function Pad(bits: Bits, n: nat): (r: Bits)
    ensures |r| == n && forall i | 0 <= i < n :: r[i] == (i < |bits| && bits[i])
    ensures |bits| == n ==> r == bits
  {
    seq(n, i requires 0 <= i < n => i < |bits| && bits[i])
  }

  // ---------------------------------------------------------------- pieces

  method CoeffAdd(lhs: Bits, rhs: Bits) returns (out: Bits)
    ensures var width := if |lhs| >= |rhs| then |lhs| else |rhs|;
      out == Add(Pad(lhs, width), Pad(rhs, width))
  {
    var width := if |lhs| >= |rhs| then |lhs| else |rhs|;
    out := [];
    for index := 0 to width
      invariant |out| == index && forall i | 0 <= i < index :: out[i] == (Pad(lhs, width)[i] != Pad(rhs, width)[i])
    {
      var left := index < |lhs| && lhs[index];
      var right := index < |rhs| && rhs[index];
      out := out + [left != right];
    }
  }

  method CoeffConst(value: nat, width: nat) returns (out: Bits)
    ensures out == ConstBits(value, width)
  {
    out := [];
    for index := 0 to width
      invariant out == ConstBits(value, index)
    {
      out := out + [value / Pow2(index) % 2 == 1];
    }
  }

  method SliceOrPad(bits: Bits, start: nat, width: nat) returns (out: Bits)
    ensures out == Pad(bits, start + width)[start..]
  {
    out := [];
    for offset := 0 to width
      invariant |out| == offset && forall i | 0 <= i < offset :: out[i] == Pad(bits, start + width)[start + i]
    {
      out := out + [start + offset < |bits| && bits[start + offset]];
    }
  }

  lemma PlaceFits(i: nat, n: nat, w: nat)
    requires i < n
    ensures i * w + w <= n * w && i * w >= 0 && (i + 1) * w == i * w + w
  {
    MulMonotone(i + 1, n, w);
    Distribute(i, 1, w);
  }

  lemma {:induction false} SplitAt(bits: Bits, n: nat, w: nat, i: nat)
    requires |bits| == n * w && i < n
    ensures i * w + w <= |bits| && Split(bits, n, w)[i] == bits[i * w..i * w + w]
    decreases n
  {
    PlaceFits(i, n, w);
    Peel(n, w);
    if i > 0 {
      SplitAt(bits[w..], n - 1, w, i - 1);
      PlaceFits(i - 1, n - 1, w);
      assert i * w == (i - 1) * w + w;
      assert bits[w..][(i - 1) * w..(i - 1) * w + w] == bits[i * w..i * w + w];
    } else {
      assert 0 * w == 0;
    }
  }

  method SplitCoeffs(bits: Bits, degree: nat, width: nat) returns (out: Row)
    ensures out == Split(Pad(bits, degree * width), degree, width)
  {
    out := [];
    for index := 0 to degree
      invariant |out| == index && forall i | 0 <= i < index :: out[i] == Split(Pad(bits, degree * width), degree, width)[i]
    {
      PlaceFits(index, degree, width);
      var slice := SliceOrPad(bits, index * width, width);
      SplitAt(Pad(bits, degree * width), degree, width, index);
      SliceOfPad(bits, index * width, width, degree * width);
      out := out + [slice];
    }
  }

  lemma SliceOfPad(bits: Bits, start: nat, width: nat, n: nat)
    requires start + width <= n
    ensures Pad(bits, start + width)[start..] == Pad(bits, n)[start..start + width]
  {
  }

  // ---------------------------------------------------------------- the product

  method CoeffMul(lhs: Bits, rhs: Bits, wrapped: Coeff) returns (r: Bits)
    requires WfCoeff(wrapped)
    ensures r == Mul(wrapped, Pad(lhs, Width(wrapped)), Pad(rhs, Width(wrapped)))
    decreases wrapped
  {
    match wrapped
    case Bit =>
      var left := 0 < |lhs| && lhs[0];
      var right := 0 < |rhs| && rhs[0];
      r := [left && right];
    case Ext(field) =>
      r := FieldMulDesc(lhs, rhs, field);
  }

  method FieldMulDesc(lhs: Bits, rhs: Bits, field: Field) returns (r: Bits)
    requires WfField(field)
    ensures r == Mul(Ext(field), Pad(lhs, Width(Ext(field))), Pad(rhs, Width(Ext(field))))
    decreases field, 2
  {
    hide Comb, Width, XPow, WfField, Pad;
    ExtWidth(field);
    var degree, coeffWidth := field.degree, Width(field.wrapped);
    var zero := Zeros(coeffWidth);
    var acc: Row := seq(degree, i requires 0 <= i < degree => zero);
    var shifted := SplitCoeffs(lhs, degree, coeffWidth);
    var right := SplitCoeffs(rhs, degree, coeffWidth);
    ghost var left := shifted;
    CombNone(field, left, right);
    XPowNone(field, left);
    for i := 0 to degree
      invariant shifted == XPow(field, left, i) && acc == Comb(field, left, right, i)
    {
      var terms := ScaleAndAdd(acc, shifted, right[i], field);
      CombStep(field, left, right, i + 1);
      acc := terms;
      XPowStep(field, left, i);
      shifted := XTimeDesc(shifted, field);
    }
    r := Flatten(acc);
  }

  lemma XPowNone(f: Field, v: Row)
    requires WfField(f) && IsRow(v, f.degree, Width(f.wrapped))
    ensures XPow(f, v, 0) == v
  {
  }

  lemma XPowStep(f: Field, v: Row, k: nat)
    requires WfField(f) && IsRow(v, f.degree, Width(f.wrapped))
    ensures XPow(f, v, k + 1) == XTime(f, XPow(f, v, k))
  {
    hide XTime, Width, WfField;
  }

  /** Add every coefficient times `right` to the sum. */
  method ScaleAndAdd(acc: Row, shifted: Row, right: Bits, field: Field) returns (r: Row)
    requires WfField(field) && |right| == Width(field.wrapped)
    requires IsRow(acc, field.degree, Width(field.wrapped)) && IsRow(shifted, field.degree, Width(field.wrapped))
    ensures r == Sum(acc, Scale(field, right, shifted), field.degree, Width(field.wrapped))
    decreases field, 1
  {
    hide Mul, Width, WfField;
    r := acc;
    for index := 0 to field.degree
      invariant IsRow(r, field.degree, Width(field.wrapped))
      invariant forall i | 0 <= i < index :: r[i] == Add(acc[i], Mul(field.wrapped, shifted[i], right))
      invariant forall i | index <= i < field.degree :: r[i] == acc[i]
    {
      var product := CoeffMul(shifted[index], right, field.wrapped);
      var sum := CoeffAdd(r[index], product);
      r := r[index := sum];
    }
  }

  method XTimeDesc(coeffs: Row, field: Field) returns (next: Row)
    requires WfField(field) && IsRow(coeffs, field.degree, Width(field.wrapped))
    ensures next == XTime(field, coeffs)
    decreases field, 1
  {
    hide Mul, Width, WfField;
    var degree, coeffWidth := |coeffs|, Width(field.wrapped);
    var overflow := coeffs[degree - 1];
    var zero := Zeros(coeffWidth);
    next := seq(degree, i requires 0 <= i < degree => zero);
    for index := 1 to degree
      invariant IsRow(next, degree, coeffWidth)
      invariant forall i | 0 <= i < index :: next[i] == Up(coeffs, degree, coeffWidth)[i]
    {
      next := next[index := coeffs[index - 1]];
    }
    for index := 0 to degree
      invariant IsRow(next, degree, coeffWidth)
      invariant forall i | 0 <= i < index :: next[i] == Add(Up(coeffs, degree, coeffWidth)[i], Overflow(field, overflow)[i])
      invariant forall i | index <= i < degree :: next[i] == Up(coeffs, degree, coeffWidth)[i]
    {
      var reduction := CoeffConst(field.irreducible[index], coeffWidth);
      var term := CoeffMul(overflow, reduction, field.wrapped);
      var sum := CoeffAdd(next[index], term);
      next := next[index := sum];
    }
  }

  method Flatten(v: Row) returns (bits: Bits)
    ensures bits == Flat(v)
  {
    bits := [];
    for i := 0 to |v|
      invariant Flat(v) == bits + Flat(v[i..])
    {
      assert v[i..][1..] == v[i + 1..];
      assert bits + (v[i] + Flat(v[i + 1..])) == bits + v[i] + Flat(v[i + 1..]);
      bits := bits + v[i];
    }
    assert v[|v|..] == [];
  }

  // ---------------------------------------------------------------- powers and the inverse

  function Pow(c: Coeff, a: Bits, e: nat): (r: Bits)
    requires WfCoeff(c) && |a| == Width(c)
    ensures |r| == Width(c)
  {
    if e == 0 then One(Width(c)) else Mul(c, a, Pow(c, a, e - 1))
  }

  lemma {:induction false} PowAdd(c: Coeff, a: Bits, e: nat, k: nat)
    requires Ring(c) && |a| == Width(c)
    ensures Mul(c, Pow(c, a, e), Pow(c, a, k)) == Pow(c, a, e + k)
    decreases e
  {
    hide Mul, Ring, Width, One;
    if e == 0 {
      LawOne(c, Pow(c, a, k));
    } else {
      PowAdd(c, a, e - 1, k);
      LawAssoc(c, a, Pow(c, a, e - 1), Pow(c, a, k));
    }
  }

  lemma PowOne(c: Coeff, a: Bits)
    requires Ring(c) && |a| == Width(c)
    ensures Pow(c, a, 1) == a
  {
    hide Mul, Ring, Width, One;
    LawOne(c, a);
    assert Pow(c, a, 0) == One(Width(c));
  }

  /** Squaring is additive: there are no mixed terms in characteristic two. */
  lemma SquareOfSum(c: Coeff, a: Bits, b: Bits)
    requires WfCoeff(c) && |a| == |b| == Width(c)
    ensures Mul(c, Add(a, b), Add(a, b)) == Add(Mul(c, a, a), Mul(c, b, b))
  {
    hide Mul, Ring, Width;
    TowerRing(c);
    var s, ab, aa, bb := Add(a, b), Mul(c, a, b), Mul(c, a, a), Mul(c, b, b);
    LawLeft(c, a, b, s);
    LawRight(c, a, b, a);
    LawRight(c, a, b, b);
    LawComm(c, a, b);
    AddComm(ab, bb);
    AddMedial(aa, ab, bb, ab);
    AddSelf(ab);
    AddZero(Add(aa, bb));
  }

  /** The element to the power 2^w - 2, by repeated squaring. */
  method FieldInv(elem: Bits, field: Field) returns (result: Bits)
    requires WfField(field) && |elem| == Width(Ext(field))
    ensures Width(Ext(field)) >= 2 && Pow2(Width(Ext(field))) >= 2
    ensures result == Pow(Ext(field), elem, Pow2(Width(Ext(field))) - 2)
  {
    hide Mul, Pow, Ring, WfField, Width;
    var c := Ext(field);
    var width := Width(c);
    FieldWidth(field);
    Pow2Monotone(1, width);
    TowerRing(c);
    PowOne(c, elem);
    PowAdd(c, elem, 1, 1);
    if width <= 1 {
      return elem;
    }
    var square := FieldMulDesc(elem, elem, field);
    result := square;
    ghost var k := 1;
    assert Pow2(1) == 2 && Pow2(2) == 4;
    for i := 2 to width
      invariant k == i - 1 && square == Pow(c, elem, Pow2(k)) && Pow2(i) >= 2 && result == Pow(c, elem, Pow2(i) - 2)
    {
      PowAdd(c, elem, Pow2(k), Pow2(k));
      square := FieldMulDesc(square, square, field);
      PowAdd(c, elem, Pow2(i) - 2, Pow2(i));
      result := FieldMulDesc(result, square, field);
      k := k + 1;
    }
  }

  lemma FieldWidth(f: Field)
    requires WfField(f)
    ensures Width(Ext(f)) >= 2
  {
    WidthPositive(f.wrapped);
    Grows(f.degree, Width(f.wrapped));
  }
}
