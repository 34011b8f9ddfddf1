/**
 Multiplying polynomials and dividing by the modulus: schoolbook product and long division give the
 same element as the shift-and-add product of the tower.
 */
module FieldPolynomials {
  import opened Numbers
  import opened FieldTower

  ghost predicate Over(f: Field) {
    WfField(f) && Ring(f.wrapped)
  }

  /** The element a polynomial stands for: its value at x. */
  function Value(f: Field, p: Row): (r: Row)
    requires WfField(f) && IsCoeffs(f, p)
    ensures IsRow(r, f.degree, Width(f.wrapped))
  {
    Comb(f, Unit(f.degree, Width(f.wrapped), 0), p, |p|)
  }

  /** The modulus with its leading one. */
  function Modulus(f: Field): (r: Row)
    requires WfField(f)
    ensures |r| == f.degree + 1 && IsCoeffs(f, r)
    ensures forall i | 0 <= i <= f.degree :: r[i] == ConstBits(f.irreducible[i], Width(f.wrapped))
  {
    seq(f.degree + 1, i requires 0 <= i <= f.degree => ConstBits(f.irreducible[i], Width(f.wrapped)))
  }

  // ---------------------------------------------------------------- more row arithmetic

  lemma ScaleAdd(f: Field, r: Bits, s: Bits, u: Row)
    requires WfField(f) && Ring(f.wrapped) && |r| == |s| == Width(f.wrapped) && IsRow(u, f.degree, Width(f.wrapped))
    ensures Scale(f, Add(r, s), u) == Sum(Scale(f, r, u), Scale(f, s, u), f.degree, Width(f.wrapped))
  {
    hide Width, Mul, Ring, WfField, Add;
    forall i | 0 <= i < f.degree ensures Mul(f.wrapped, u[i], Add(r, s)) == Add(Mul(f.wrapped, u[i], r), Mul(f.wrapped, u[i], s)) {
      LawRight(f.wrapped, r, s, u[i]);
    }
  }

  lemma ScaleMul(f: Field, r: Bits, s: Bits, u: Row)
    requires WfField(f) && Ring(f.wrapped) && |r| == |s| == Width(f.wrapped) && IsRow(u, f.degree, Width(f.wrapped))
    ensures Scale(f, Mul(f.wrapped, r, s), u) == Scale(f, r, Scale(f, s, u))
  {
    hide Width, Mul, Ring, WfField;
    forall i | 0 <= i < f.degree
      ensures Mul(f.wrapped, u[i], Mul(f.wrapped, r, s)) == Mul(f.wrapped, Mul(f.wrapped, u[i], s), r)
    {
      LawAssoc(f.wrapped, u[i], s, r);
      LawComm(f.wrapped, r, s);
    }
  }

  lemma ScaleNone(f: Field, u: Row, z: Bits)
    requires WfField(f) && Ring(f.wrapped) && |z| == Width(f.wrapped) && z == Zeros(|z|) && IsRow(u, f.degree, Width(f.wrapped))
    ensures Scale(f, z, u) == ZeroRow(f.degree, Width(f.wrapped))
  {
    hide Width, Mul, Ring, WfField;
    forall i | 0 <= i < f.degree ensures Mul(f.wrapped, u[i], z) == z {
      LawZero(f.wrapped, u[i], z);
    }
  }

  lemma ScaleOne(f: Field, u: Row)
    requires WfField(f) && Ring(f.wrapped) && IsRow(u, f.degree, Width(f.wrapped))
    ensures Scale(f, One(Width(f.wrapped)), u) == u
  {
    hide Width, Mul, Ring, WfField, One;
    forall i | 0 <= i < f.degree ensures Mul(f.wrapped, u[i], One(Width(f.wrapped))) == u[i] {
      LawOne(f.wrapped, u[i]);
    }
  }

  lemma SumAssoc(a: Row, b: Row, c: Row, n: nat, w: nat)
    requires IsRow(a, n, w) && IsRow(b, n, w) && IsRow(c, n, w)
    ensures Sum(Sum(a, b, n, w), c, n, w) == Sum(a, Sum(b, c, n, w), n, w)
  {
    hide Add;
    forall i | 0 <= i < n ensures Add(Add(a[i], b[i]), c[i]) == Add(a[i], Add(b[i], c[i])) {
      AddAssoc(a[i], b[i], c[i]);
    }
  }

  lemma SumSwap(a: Row, b: Row, c: Row, n: nat, w: nat)
    requires IsRow(a, n, w) && IsRow(b, n, w) && IsRow(c, n, w)
    ensures Sum(Sum(a, b, n, w), c, n, w) == Sum(Sum(a, c, n, w), b, n, w)
  {
    hide *;
    SumZero(c, n, w);
    SumZero(b, n, w);
    SumMedial(a, b, c, ZeroRow(n, w), n, w);
  }

  /** The combination depends on the first coefficients only. */
  lemma {:induction false} CombAgree(f: Field, u: Row, c: Row, d: Row, n: nat)
    requires WfField(f) && IsCoeffs(f, c) && IsCoeffs(f, d) && n <= |c| && n <= |d| && IsRow(u, f.degree, Width(f.wrapped))
    requires forall i | 0 <= i < n :: c[i] == d[i]
    ensures Comb(f, u, c, n) == Comb(f, u, d, n)
    decreases n
  {
    hide Width, Comb, WfField, Scale, XPow, Sum;
    CombNone(f, u, c);
    CombNone(f, u, d);
    if n > 0 {
      CombStep(f, u, c, n);
      CombStep(f, u, d, n);
      CombAgree(f, u, c, d, n - 1);
    }
  }

  /** Adding `t` to coefficient `k` adds its multiple of x to the k. */
  lemma {:induction false} CombUpdate(f: Field, u: Row, c: Row, k: nat, t: Bits, n: nat)
    requires WfField(f) && Ring(f.wrapped) && IsCoeffs(f, c) && k < |c| && n <= |c| && |t| == Width(f.wrapped)
    requires IsRow(u, f.degree, Width(f.wrapped))
    ensures var w := Width(f.wrapped);
      Comb(f, u, c[k := Add(c[k], t)], n)
      == if k < n then Sum(Comb(f, u, c, n), Scale(f, t, XPow(f, u, k)), f.degree, w) else Comb(f, u, c, n)
    decreases n
  {
    hide Width, Comb, WfField, Ring, Scale, XPow, Sum, Add;
    var d := c[k := Add(c[k], t)];
    if n <= k {
      CombAgree(f, u, c, d, n);
    } else {
      CombStep(f, u, c, n);
      CombStep(f, u, d, n);
      CombUpdate(f, u, c, k, t, n - 1);
      var x := XPow(f, u, n - 1);
      if k == n - 1 {
        ScaleAdd(f, c[k], t, x);
        SumAssoc(Comb(f, u, c, n - 1), Scale(f, c[k], x), Scale(f, t, x), f.degree, Width(f.wrapped));
      } else {
        SumSwap(Comb(f, u, c, n - 1), Scale(f, t, XPow(f, u, k)), Scale(f, c[n - 1], x), f.degree, Width(f.wrapped));
      }
    }
  }

  lemma ValueUpdate(f: Field, p: Row, k: nat, t: Bits)
    requires WfField(f) && Ring(f.wrapped) && IsCoeffs(f, p) && k < |p| && |t| == Width(f.wrapped)
    ensures IsCoeffs(f, p[k := Add(p[k], t)])
    ensures Value(f, p[k := Add(p[k], t)])
      == Sum(Value(f, p), Scale(f, t, XPow(f, Unit(f.degree, Width(f.wrapped), 0), k)), f.degree, Width(f.wrapped))
  {
    hide Width, Comb, WfField, Ring, Scale, XPow, Sum;
    CombUpdate(f, Unit(f.degree, Width(f.wrapped), 0), p, k, t, |p|);
  }

  /** Zero coefficients beyond `n` add nothing. */
  lemma {:induction false} CombTail(f: Field, u: Row, c: Row, n: nat, m: nat)
    requires WfField(f) && Ring(f.wrapped) && IsCoeffs(f, c) && n <= m <= |c| && IsRow(u, f.degree, Width(f.wrapped))
    requires forall i | n <= i < m :: c[i] == Zeros(Width(f.wrapped))
    ensures Comb(f, u, c, m) == Comb(f, u, c, n)
    decreases m
  {
    hide Width, Comb, WfField, Ring, Scale, XPow, Sum, Zeros;
    if n < m {
      CombStep(f, u, c, m);
      CombTail(f, u, c, n, m - 1);
      ScaleNone(f, XPow(f, u, m - 1), c[m - 1]);
      SumZero(Comb(f, u, c, n), f.degree, Width(f.wrapped));
    }
  }

  /** Cut or filled up to the degree. */
  function Fit(f: Field, p: Row): (r: Row)
    requires IsCoeffs(f, p)
    ensures IsRow(r, f.degree, Width(f.wrapped))
    ensures forall i | 0 <= i < f.degree :: r[i] == if i < |p| then p[i] else Zeros(Width(f.wrapped))
  {
    var zero := Zeros(Width(f.wrapped));
    seq(f.degree, i requires 0 <= i < f.degree => if i < |p| then p[i] else zero)
  }

  /** A polynomial below the degree is its own value. */
  lemma ValueSmall(f: Field, p: Row)
    requires WfField(f) && Ring(f.wrapped) && IsCoeffs(f, p)
    requires forall i | f.degree <= i < |p| :: p[i] == Zeros(Width(f.wrapped))
    ensures Value(f, p) == Fit(f, p)
  {
    hide Width, Comb, WfField, Ring, Unit;
    var one, n := Unit(f.degree, Width(f.wrapped), 0), f.degree;
    var r := Fit(f, p);
    var both := if |p| < n then |p| else n;
    CombTail(f, one, p, both, |p|);
    CombTail(f, one, r, both, n);
    CombAgree(f, one, p, r, both);
    CombUnit(f, r, n);
  }

  /** The modulus is zero at x. */
  lemma ModulusVanishes(f: Field)
    requires WfField(f) && Ring(f.wrapped)
    ensures Value(f, Modulus(f)) == ZeroRow(f.degree, Width(f.wrapped))
  {
    hide Width, Comb, WfField, Ring, Scale, XTime, Sum, Unit;
    var n, w, m := f.degree, Width(f.wrapped), Modulus(f);
    var one := Unit(n, w, 0);
    MonicTop(f);
    CombStep(f, one, m, n + 1);
    CombAgree(f, one, m, Reduction(f), n);
    CombUnit(f, Reduction(f), n);
    assert Prefix(Reduction(f), n, w) == Reduction(f);
    ScaleOne(f, XPow(f, one, n));
    XPowUnit(f, n - 1);
    XOfTop(f);
    SumSelf(Reduction(f), n, w);
  }

  lemma MonicTop(f: Field)
    requires WfField(f)
    ensures Modulus(f)[f.degree] == One(Width(f.wrapped))
  {
    ConstOne(Width(f.wrapped));
  }

  lemma XOfTop(f: Field)
    requires WfField(f) && Ring(f.wrapped)
    ensures XTime(f, Unit(f.degree, Width(f.wrapped), f.degree - 1)) == Reduction(f)
  {
    hide Width, WfField, Ring, XTime, Mul, Reduction, Zeros, One;
    var n, w := f.degree, Width(f.wrapped);
    var top := Unit(n, w, n - 1);
    forall i: nat | i < n ensures XTime(f, top)[i] == Reduction(f)[i] {
      XTimeAt(f, top, i);
      LawOne(f.wrapped, Reduction(f)[i]);
      AddZero(Reduction(f)[i]);
    }
  }

  // ---------------------------------------------------------------- schoolbook product

  predicate IsZero(elem: Bits) {
    forall i | 0 <= i < |elem| :: !elem[i]
  }

  lemma ZeroElem(elem: Bits)
    ensures IsZero(elem) <==> elem == Zeros(|elem|)
  {
  }

  /** One row of the schoolbook product: `left` times `rhs`, `at` places up. */
  method AddShifted(f: Field, product: Row, left: Bits, rhs: Row, at: nat) returns (r: Row)
    requires Over(f) && IsCoeffs(f, product) && IsCoeffs(f, rhs) && |left| == Width(f.wrapped) && at + |rhs| <= |product|
    ensures |r| == |product| && IsCoeffs(f, r)
    ensures Value(f, r) == Sum(Value(f, product), Scale(f, left, XPow(f, Value(f, rhs), at)), f.degree, Width(f.wrapped))
    ensures forall k | 0 <= k < |product| && !(at <= k < at + |rhs|) :: r[k] == product[k]
    ensures forall j | 0 <= j < |rhs| :: r[at + j] == Add(product[at + j], Mul(f.wrapped, left, rhs[j]))
  {
    hide Width, Over, Comb, WfField, Ring, Scale, XPow, Sum, Unit, Value, Mul, IsZero;
    OverIs(f);
    r := product;
    ghost var one, w := Unit(f.degree, Width(f.wrapped), 0), Width(f.wrapped);
    NoShift(f, Value(f, product), left, rhs, at);
    for j := 0 to |rhs|
      invariant |r| == |product| && IsCoeffs(f, r)
      invariant Value(f, r) == Sum(Value(f, product), Scale(f, left, XPow(f, Comb(f, one, rhs, j), at)), f.degree, w)
      invariant forall k | 0 <= k < |product| && !(at <= k < at + j) :: r[k] == product[k]
      invariant forall k | 0 <= k < j :: r[at + k] == Add(product[at + k], Mul(f.wrapped, left, rhs[k]))
    {
      var right := rhs[j];
      ZeroElem(right);
      ShiftStep(f, Value(f, product), left, rhs, at, j);
      if IsZero(right) {
        LawZero(f.wrapped, left, right);
        ScaleNone(f, XPow(f, one, at + j), Mul(f.wrapped, left, right));
        SumZero(Value(f, r), f.degree, w);
        AddZero(product[at + j]);
      } else {
        ValueUpdate(f, r, at + j, Mul(f.wrapped, left, right));
        r := r[at + j := Add(r[at + j], Mul(f.wrapped, left, right))];
      }
    }
    ValueIs(f, rhs);
  }

  lemma OverIs(f: Field)
    requires Over(f)
    ensures WfField(f) && Ring(f.wrapped)
  {
  }

  lemma ValueIs(f: Field, p: Row)
    requires WfField(f) && IsCoeffs(f, p)
    ensures Value(f, p) == Comb(f, Unit(f.degree, Width(f.wrapped), 0), p, |p|)
  {
  }

  lemma NoShift(f: Field, before: Row, left: Bits, rhs: Row, at: nat)
    requires WfField(f) && Ring(f.wrapped) && IsCoeffs(f, rhs) && |left| == Width(f.wrapped) && IsRow(before, f.degree, Width(f.wrapped))
    ensures var w := Width(f.wrapped);
      Sum(before, Scale(f, left, XPow(f, Comb(f, Unit(f.degree, w, 0), rhs, 0), at)), f.degree, w) == before
  {
    hide Width, Comb, WfField, Ring, Scale, XPow, Sum, Unit;
    var w := Width(f.wrapped);
    CombNone(f, Unit(f.degree, w, 0), rhs);
    XPowZero(f, at);
    ScaleZero(f, left);
    SumZero(before, f.degree, w);
  }

  lemma {:induction false} XPowZero(f: Field, k: nat)
    requires WfField(f) && Ring(f.wrapped)
    ensures XPow(f, ZeroRow(f.degree, Width(f.wrapped)), k) == ZeroRow(f.degree, Width(f.wrapped))
    decreases k
  {
    hide Width, WfField, Ring, XTime;
    if k > 0 {
      XPowZero(f, k - 1);
      XTimeZero(f);
    }
  }

  lemma ShiftStep(f: Field, before: Row, left: Bits, rhs: Row, at: nat, j: nat)
    requires WfField(f) && Ring(f.wrapped) && IsCoeffs(f, rhs) && |left| == Width(f.wrapped) && j < |rhs|
    requires IsRow(before, f.degree, Width(f.wrapped))
    ensures var w := Width(f.wrapped);
      var one := Unit(f.degree, w, 0);
      Sum(before, Scale(f, left, XPow(f, Comb(f, one, rhs, j + 1), at)), f.degree, w)
      == Sum(Sum(before, Scale(f, left, XPow(f, Comb(f, one, rhs, j), at)), f.degree, w),
             Scale(f, Mul(f.wrapped, left, rhs[j]), XPow(f, one, at + j)), f.degree, w)
  {
    hide Width, Comb, WfField, Ring, Scale, XPow, Sum, Unit, Mul;
    var w := Width(f.wrapped);
    var one := Unit(f.degree, w, 0);
    CombStep(f, one, rhs, j + 1);
    var done, term := Comb(f, one, rhs, j), Scale(f, rhs[j], XPow(f, one, j));
    XPowSum(f, done, term, at);
    XPowScale(f, rhs[j], XPow(f, one, j), at);
    XPowPlus(f, one, j, at);
    ScaleSum(f, left, XPow(f, done, at), XPow(f, term, at));
    ScaleMul(f, left, rhs[j], XPow(f, one, at + j));
    SumAssoc(before, Scale(f, left, XPow(f, done, at)), Scale(f, left, XPow(f, term, at)), f.degree, w);
  }

  /** All products of coefficients, added where their places add up. */
  method PolyMul(f: Field, lhs: Row, rhs: Row) returns (product: Row)
    requires Over(f) && IsCoeffs(f, lhs) && IsCoeffs(f, rhs)
    ensures |product| == |lhs| + |rhs| && IsCoeffs(f, product)
    ensures Value(f, product) == Comb(f, Value(f, rhs), lhs, |lhs|)
  {
    hide Width, Over, Comb, WfField, Ring, Scale, XPow, Sum, Unit, Value, IsZero, Mul;
    OverIs(f);
    ghost var w := Width(f.wrapped);
    var zero := Zeros(Width(f.wrapped));
    product := seq(|lhs| + |rhs|, i requires 0 <= i < |lhs| + |rhs| => zero);
    ValueOfZeros(f, product);
    CombNone(f, Value(f, rhs), lhs);
    for i := 0 to |lhs|
      invariant |product| == |lhs| + |rhs| && IsCoeffs(f, product)
      invariant Value(f, product) == Comb(f, Value(f, rhs), lhs, i)
    {
      CombStep(f, Value(f, rhs), lhs, i + 1);
      ZeroElem(lhs[i]);
      if IsZero(lhs[i]) {
        ScaleNone(f, XPow(f, Value(f, rhs), i), lhs[i]);
        SumZero(Value(f, product), f.degree, w);
      } else {
        product := AddShifted(f, product, lhs[i], rhs, i);
      }
    }
  }

  lemma ValueOfZeros(f: Field, p: Row)
    requires WfField(f) && Ring(f.wrapped) && IsCoeffs(f, p) && forall i | 0 <= i < |p| :: p[i] == Zeros(Width(f.wrapped))
    ensures Value(f, p) == ZeroRow(f.degree, Width(f.wrapped))
  {
    hide Width, WfField, Ring, Comb, Unit;
    CombTail(f, Unit(f.degree, Width(f.wrapped), 0), p, 0, |p|);
    CombNone(f, Unit(f.degree, Width(f.wrapped), 0), p);
  }

  // ---------------------------------------------------------------- long division

  /** The highest place below `n` with a nonzero coefficient, or -1. */
  function Top(p: Row, n: nat): (r: int)
    requires n <= |p|
    ensures -1 <= r < n && (r >= 0 ==> !IsZero(p[r])) && forall i | r < i < n :: IsZero(p[i])
  {
    if n == 0 then -1 else if IsZero(p[n - 1]) then Top(p, n - 1) else n - 1
  }

  method PolyDegree(p: Row) returns (r: int)
    ensures r == Top(p, |p|)
  {
    var n := |p|;
    while n > 0
      invariant 0 <= n <= |p| && Top(p, |p|) == Top(p, n)
    {
      n := n - 1;
      if !IsZero(p[n]) {
        return n;
      }
    }
    r := -1;
  }

  /** Long division by the modulus, cancelling the leading coefficient each time. */
  method PolyMod(f: Field, value: Row) returns (rest: Row)
    requires Over(f) && IsCoeffs(f, value)
    ensures IsRow(rest, f.degree, Width(f.wrapped)) && rest == Value(f, value)
  {
    hide Width, Over, Comb, WfField, Ring, Unit, Value, IsZero, Mul, Modulus, Scale, XPow, Sum;
    OverIs(f);
    rest := value;
    var top := PolyDegree(rest);
    while top >= f.degree
      invariant IsCoeffs(f, rest) && Value(f, rest) == Value(f, value) && top == Top(rest, |rest|)
      decreases top
    {
      ghost var before := rest;
      var lead := rest[top];
      var shift := top - f.degree;
      rest := AddShifted(f, rest, lead, Modulus(f), shift);
      Cancelled(f, before, lead, shift);
      LeadGone(f, before, rest, top);
      top := PolyDegree(rest);
    }
    Remainder(f, rest);
    rest := Fit(f, rest);
  }

  lemma Cancelled(f: Field, before: Row, lead: Bits, shift: nat)
    requires WfField(f) && Ring(f.wrapped) && IsCoeffs(f, before) && |lead| == Width(f.wrapped)
    ensures Sum(Value(f, before), Scale(f, lead, XPow(f, Value(f, Modulus(f)), shift)), f.degree, Width(f.wrapped)) == Value(f, before)
  {
    hide Width, Comb, WfField, Ring, Unit, Value, Scale, XPow, Sum;
    ModulusVanishes(f);
    XPowZero(f, shift);
    ScaleZero(f, lead);
    SumZero(Value(f, before), f.degree, Width(f.wrapped));
  }

  lemma LeadGone(f: Field, before: Row, after: Row, top: nat)
    requires WfField(f) && Ring(f.wrapped) && IsCoeffs(f, before) && top == Top(before, |before|) && f.degree <= top < |before| == |after|
    requires IsCoeffs(f, after)
    requires forall k | 0 <= k < |before| && !(top - f.degree <= k <= top) :: after[k] == before[k]
    requires after[top - f.degree + f.degree] == Add(before[top], Mul(f.wrapped, before[top], Modulus(f)[f.degree]))
    ensures Top(after, |after|) < top
  {
    hide Width, WfField, Ring, Mul, Modulus;
    MonicTop(f);
    LawOne(f.wrapped, before[top]);
    AddSelf(before[top]);
    assert IsZero(after[top]);
    forall i | top < i < |after| ensures IsZero(after[i]) {
      assert after[i] == before[i];
    }
  }

  lemma Remainder(f: Field, rest: Row)
    requires WfField(f) && Ring(f.wrapped) && IsCoeffs(f, rest) && Top(rest, |rest|) < f.degree
    ensures Value(f, rest) == Fit(f, rest)
  {
    hide Width, WfField, Ring, Value, IsZero;
    forall i | f.degree <= i < |rest| ensures rest[i] == Zeros(Width(f.wrapped)) {
      assert IsZero(rest[i]);
      ZeroElem(rest[i]);
    }
    ValueSmall(f, rest);
  }

  /** Schoolbook product and long division agree with the shift-and-add product. */
  method PolyMulMod(f: Field, lhs: Row, rhs: Row) returns (r: Row)
    requires WfField(f) && IsRow(lhs, f.degree, Width(f.wrapped)) && IsRow(rhs, f.degree, Width(f.wrapped))
    ensures r == RowMul(f, lhs, rhs)
  {
    hide Width, Over, WfField, Ring, Value, Comb;
    TowerRing(f.wrapped);
    MakeOver(f);
    var product := PolyMul(f, lhs, rhs);
    r := PolyMod(f, product);
    RowValue(f, rhs);
    RowComm(f, lhs, rhs);
  }

  lemma MakeOver(f: Field)
    requires WfField(f) && Ring(f.wrapped)
    ensures Over(f)
  {
  }

  lemma RowValue(f: Field, a: Row)
    requires WfField(f) && Ring(f.wrapped) && IsRow(a, f.degree, Width(f.wrapped))
    ensures Value(f, a) == a
  {
    hide Width, WfField, Ring, Comb;
    RowOne(f, a);
  }
}
