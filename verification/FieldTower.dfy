/**
 Towers of extension fields over GF(2): elements are bit strings, low coefficient first, and the
 product is a shift-and-add over the coefficients. Whatever the modulus, as long as it is monic, the
 elements form a commutative ring with identity.
 */
module FieldTower {
  import opened Numbers

  type Bits = seq<bool>

  /** What a field's coefficients are. */
  datatype Coeff = Bit | Ext(field: Field)

  /** The modulus has `degree + 1` coefficients, low first, as numbers whose bits are the coefficient. */
  datatype Field = Field(wrapped: Coeff, degree: nat, irreducible: seq<nat>)

  function Width(c: Coeff): nat {
    match c
    case Bit => 1
    case Ext(f) => f.degree * Width(f.wrapped)
  }

  predicate WfCoeff(c: Coeff) {
    match c
    case Bit => true
    case Ext(f) => WfField(f)
  }

  predicate WfField(f: Field): (r: bool)
    ensures r ==> f.degree >= 2 && |f.irreducible| == f.degree + 1 && WfCoeff(f.wrapped)
  {
    f.degree >= 2 && |f.irreducible| == f.degree + 1 && f.irreducible[f.degree] == 1 && WfCoeff(f.wrapped)
  }

  lemma {:induction false} WidthPositive(c: Coeff)
    requires WfCoeff(c)
    ensures Width(c) >= 1
    decreases c
  {
    match c
    case Bit =>
    case Ext(f) =>
      WidthPositive(f.wrapped);
      Grows(f.degree, Width(f.wrapped));
  }

  lemma Grows(n: nat, w: nat)
    requires n >= 2 && w >= 1
    ensures n * w >= 2
  {
    MulMonotone(2, n, w);
  }

  // ---------------------------------------------------------------- bit strings

  function Zeros(width: nat): (r: Bits)
    ensures |r| == width && forall i | 0 <= i < width :: !r[i]
  {
    seq(width, i requires 0 <= i < width => false)
  }

  function One(width: nat): (r: Bits)
    ensures |r| == width && forall i | 0 <= i < width :: r[i] == (i == 0)
  {
    seq(width, i requires 0 <= i < width => i == 0)
  }

  function Add(a: Bits, b: Bits): (r: Bits)
    requires |a| == |b|
    ensures |r| == |a| && forall i | 0 <= i < |a| :: r[i] == (a[i] != b[i])
  {
    seq(|a|, i requires 0 <= i < |a| => a[i] != b[i])
  }

  function ConstBits(value: nat, width: nat): (r: Bits)
    ensures |r| == width && forall i | 0 <= i < width :: r[i] == (value / Pow2(i) % 2 == 1)
  {
    seq(width, i requires 0 <= i < width => value / Pow2(i) % 2 == 1)
  }

  lemma SmallQuotient(p: nat)
    requires p >= 1
    ensures (1 / p % 2 == 1) == (p == 1)
  {
  }

  lemma ConstOne(width: nat)
    ensures ConstBits(1, width) == One(width)
  {
    forall i: nat | i < width ensures (1 / Pow2(i) % 2 == 1) == (i == 0) {
      hide *;
      PowerIsOne(i);
      SmallQuotient(Pow2(i));
    }
  }

  lemma PowerIsOne(i: nat)
    ensures Pow2(i) >= 1 && (Pow2(i) == 1) == (i == 0)
  {
    if i > 0 {
      Pow2Monotone(1, i);
    }
  }

  lemma AddComm(a: Bits, b: Bits)
    requires |a| == |b|
    ensures Add(a, b) == Add(b, a)
  {
  }

  lemma AddAssoc(a: Bits, b: Bits, c: Bits)
    requires |a| == |b| == |c|
    ensures Add(Add(a, b), c) == Add(a, Add(b, c))
  {
  }

  lemma AddZero(a: Bits)
    ensures Add(a, Zeros(|a|)) == a == Add(Zeros(|a|), a)
  {
  }

  lemma AddSelf(a: Bits)
    ensures Add(a, a) == Zeros(|a|)
  {
  }

  lemma AddMedial(a: Bits, b: Bits, c: Bits, d: Bits)
    requires |a| == |b| == |c| == |d|
    ensures Add(Add(a, b), Add(c, d)) == Add(Add(a, c), Add(b, d))
  {
  }

  // ---------------------------------------------------------------- coefficients in a row

  type Row = seq<Bits>

  predicate IsRow(v: Row, n: nat, w: nat) {
    |v| == n && forall i | 0 <= i < n :: |v[i]| == w
  }

  function Split(bits: Bits, n: nat, w: nat): (r: Row)
    requires |bits| == n * w
    ensures IsRow(r, n, w)
    decreases n
  {
    if n == 0 then []
    else
      Peel(n, w);
      [bits[..w]] + Split(bits[w..], n - 1, w)
  }

  lemma Peel(n: nat, w: nat)
    requires n > 0
    ensures n * w == w + (n - 1) * w && n * w >= w
  {
    Distribute(n - 1, 1, w);
  }

  function Flat(v: Row): Bits {
    if v == [] then [] else v[0] + Flat(v[1..])
  }

  lemma {:induction false} FlatLength(v: Row, n: nat, w: nat)
    requires IsRow(v, n, w)
    ensures |Flat(v)| == n * w
    decreases n
  {
    if n > 0 {
      FlatLength(v[1..], n - 1, w);
      Peel(n, w);
    }
  }

  lemma {:induction false} SplitFlat(v: Row, n: nat, w: nat)
    requires IsRow(v, n, w)
    ensures |Flat(v)| == n * w && Split(Flat(v), n, w) == v
    decreases n
  {
    FlatLength(v, n, w);
    if n > 0 {
      SplitFlat(v[1..], n - 1, w);
      assert Flat(v)[..w] == v[0] && Flat(v)[w..] == Flat(v[1..]);
    }
  }

  lemma {:induction false} FlatSplit(bits: Bits, n: nat, w: nat)
    requires |bits| == n * w
    ensures Flat(Split(bits, n, w)) == bits
    decreases n
  {
    if n > 0 {
      Peel(n, w);
      FlatSplit(bits[w..], n - 1, w);
      assert Split(bits, n, w)[1..] == Split(bits[w..], n - 1, w);
      assert bits[..w] + bits[w..] == bits;
    }
  }

  /** Coefficientwise sum. */
  function Sum(u: Row, v: Row, n: nat, w: nat): (r: Row)
    requires IsRow(u, n, w) && IsRow(v, n, w)
    ensures IsRow(r, n, w) && forall i | 0 <= i < n :: r[i] == Add(u[i], v[i])
  {
    seq(n, i requires 0 <= i < n => Add(u[i], v[i]))
  }

  function ZeroRow(n: nat, w: nat): (r: Row)
    ensures IsRow(r, n, w) && forall i | 0 <= i < n :: r[i] == Zeros(w)
  {
    var zero := Zeros(w);
    seq(n, i requires 0 <= i < n => zero)
  }

  /** The unit in place `k`. */
  function Unit(n: nat, w: nat, k: nat): (r: Row)
    ensures IsRow(r, n, w) && forall i | 0 <= i < n :: r[i] == if i == k then One(w) else Zeros(w)
  {
    var one, zero := One(w), Zeros(w);
    seq(n, i requires 0 <= i < n => if i == k then one else zero)
  }

  lemma {:induction false} SplitSum(a: Bits, b: Bits, n: nat, w: nat)
    requires |a| == |b| == n * w
    ensures Split(Add(a, b), n, w) == Sum(Split(a, n, w), Split(b, n, w), n, w)
    decreases n
  {
    if n > 0 {
      Peel(n, w);
      SplitSum(a[w..], b[w..], n - 1, w);
      assert Add(a, b)[..w] == Add(a[..w], b[..w]) && Add(a, b)[w..] == Add(a[w..], b[w..]);
      var left, right := Split(Add(a, b), n, w), Sum(Split(a, n, w), Split(b, n, w), n, w);
      forall i: nat | i < n ensures left[i] == right[i] {
        if i > 0 {
          assert left[i] == Split(Add(a, b)[w..], n - 1, w)[i - 1];
        }
      }
    }
  }

  lemma {:induction false} SplitZeros(n: nat, w: nat)
    ensures Split(Zeros(n * w), n, w) == ZeroRow(n, w)
    decreases n
  {
    if n > 0 {
      Peel(n, w);
      SplitZeros(n - 1, w);
      assert Zeros(n * w)[..w] == Zeros(w) && Zeros(n * w)[w..] == Zeros((n - 1) * w);
    }
  }

  lemma SplitOne(n: nat, w: nat)
    requires n >= 1 && w >= 1
    ensures Split(One(n * w), n, w) == Unit(n, w, 0)
  {
    Peel(n, w);
    SplitZeros(n - 1, w);
    assert One(n * w)[..w] == One(w) && One(n * w)[w..] == Zeros((n - 1) * w);
  }

  // ---------------------------------------------------------------- the product

  /** The product of two coefficients. */
  function Mul(c: Coeff, a: Bits, b: Bits): (r: Bits)
    requires WfCoeff(c) && |a| == |b| == Width(c)
    ensures |r| == Width(c)
    decreases c
  {
    match c
    case Bit => [a[0] && b[0]]
    case Ext(f) =>
      var w := Width(f.wrapped);
      var r := RowMul(f, Split(a, f.degree, w), Split(b, f.degree, w));
      FlatLength(r, f.degree, w);
      Flat(r)
  }

  /** Every coefficient times `r`. */
  function Scale(f: Field, r: Bits, v: Row): (s: Row)
    requires WfField(f) && |r| == Width(f.wrapped) && IsRow(v, f.degree, Width(f.wrapped))
    ensures IsRow(s, f.degree, Width(f.wrapped)) && forall i | 0 <= i < f.degree :: s[i] == Mul(f.wrapped, v[i], r)
    decreases f, 0
  {
    seq(f.degree, i requires 0 <= i < f.degree => Mul(f.wrapped, v[i], r))
  }

  /** The modulus without its leading one. */
  function Reduction(f: Field): (r: Row)
    requires WfField(f)
    ensures IsRow(r, f.degree, Width(f.wrapped))
    ensures forall i | 0 <= i < f.degree :: r[i] == ConstBits(f.irreducible[i], Width(f.wrapped))
  {
    seq(f.degree, i requires 0 <= i < f.degree => ConstBits(f.irreducible[i], Width(f.wrapped)))
  }

  /** All coefficients one place up; what falls out at the top is gone. */
  function Up(v: Row, n: nat, w: nat): (r: Row)
    requires IsRow(v, n, w)
    ensures IsRow(r, n, w) && forall i | 0 <= i < n :: r[i] == if i == 0 then Zeros(w) else v[i - 1]
  {
    seq(n, i requires 0 <= i < n => if i == 0 then Zeros(w) else v[i - 1])
  }

  /** Times x, reduced by the modulus. */
  function XTime(f: Field, v: Row): (r: Row)
    requires WfField(f) && IsRow(v, f.degree, Width(f.wrapped))
    ensures IsRow(r, f.degree, Width(f.wrapped))
    decreases f, 1
  {
    var w := Width(f.wrapped);
    Sum(Up(v, f.degree, w), Overflow(f, v[f.degree - 1]), f.degree, w)
  }

  /** The reduction of `top` times x to the degree. */
  function Overflow(f: Field, top: Bits): (r: Row)
    requires WfField(f) && |top| == Width(f.wrapped)
    ensures IsRow(r, f.degree, Width(f.wrapped))
    ensures forall i | 0 <= i < f.degree :: r[i] == Mul(f.wrapped, top, Reduction(f)[i])
    decreases f, 0
  {
    seq(f.degree, i requires 0 <= i < f.degree => Mul(f.wrapped, top, Reduction(f)[i]))
  }

  function XPow(f: Field, v: Row, k: nat): (r: Row)
    requires WfField(f) && IsRow(v, f.degree, Width(f.wrapped))
    ensures IsRow(r, f.degree, Width(f.wrapped))
    decreases f, 2, k
  {
    if k == 0 then v else XTime(f, XPow(f, v, k - 1))
  }

  /** The first `n` terms of `c[0] u + c[1] x u + c[2] x^2 u + ...`. */
  function Comb(f: Field, u: Row, c: Row, n: nat): (r: Row)
    requires WfField(f) && IsRow(u, f.degree, Width(f.wrapped)) && n <= |c| && forall i | 0 <= i < |c| :: |c[i]| == Width(f.wrapped)
    ensures IsRow(r, f.degree, Width(f.wrapped))
    decreases f, 3, n
  {
    if n == 0 then ZeroRow(f.degree, Width(f.wrapped))
    else Sum(Comb(f, u, c, n - 1), Scale(f, c[n - 1], XPow(f, u, n - 1)), f.degree, Width(f.wrapped))
  }

  function RowMul(f: Field, a: Row, b: Row): (r: Row)
    requires WfField(f) && IsRow(a, f.degree, Width(f.wrapped)) && IsRow(b, f.degree, Width(f.wrapped))
    ensures IsRow(r, f.degree, Width(f.wrapped))
    decreases f, 4
  {
    Comb(f, a, b, f.degree)
  }

  // ---------------------------------------------------------------- ring laws of the coefficients

  ghost predicate Commutes(c: Coeff)
    requires WfCoeff(c)
  {
    forall a, b {:trigger Mul(c, a, b)} | |a| == |b| == Width(c) :: Mul(c, a, b) == Mul(c, b, a)
  }

  ghost predicate Associates(c: Coeff)
    requires WfCoeff(c)
  {
    forall x, y, z {:trigger Mul(c, Mul(c, x, y), z)} | |x| == |y| == |z| == Width(c) :: Mul(c, Mul(c, x, y), z) == Mul(c, x, Mul(c, y, z))
  }

  ghost predicate Distributes(c: Coeff)
    requires WfCoeff(c)
  {
    forall x, y, z {:trigger Mul(c, Add(x, y), z)} | |x| == |y| == |z| == Width(c) ::
      Mul(c, Add(x, y), z) == Add(Mul(c, x, z), Mul(c, y, z))
  }

  ghost predicate HasOne(c: Coeff)
    requires WfCoeff(c)
  {
    forall a {:trigger Mul(c, One(Width(c)), a)} | |a| == Width(c) :: Mul(c, One(Width(c)), a) == a
  }

  ghost predicate Ring(c: Coeff): (r: bool)
    ensures r ==> WfCoeff(c)
  {
    WfCoeff(c) && Commutes(c) && Associates(c) && Distributes(c) && HasOne(c)
  }

  lemma LawComm(c: Coeff, a: Bits, b: Bits)
    requires Ring(c) && |a| == |b| == Width(c)
    ensures Mul(c, a, b) == Mul(c, b, a)
  {
    hide Mul, Associates, Distributes, HasOne;
  }

  lemma LawAssoc(c: Coeff, x: Bits, y: Bits, z: Bits)
    requires Ring(c) && |x| == |y| == |z| == Width(c)
    ensures Mul(c, Mul(c, x, y), z) == Mul(c, x, Mul(c, y, z))
  {
    hide Mul, Commutes, Distributes, HasOne;
  }

  lemma LawLeft(c: Coeff, x: Bits, y: Bits, z: Bits)
    requires Ring(c) && |x| == |y| == |z| == Width(c)
    ensures Mul(c, Add(x, y), z) == Add(Mul(c, x, z), Mul(c, y, z))
  {
    hide Mul, Commutes, Associates, HasOne;
  }

  lemma LawRight(c: Coeff, x: Bits, y: Bits, z: Bits)
    requires Ring(c) && |x| == |y| == |z| == Width(c)
    ensures Mul(c, z, Add(x, y)) == Add(Mul(c, z, x), Mul(c, z, y))
  {
    hide *;
    LawLeft(c, x, y, z);
    LawComm(c, Add(x, y), z);
    LawComm(c, x, z);
    LawComm(c, y, z);
  }

  lemma LawOne(c: Coeff, a: Bits)
    requires Ring(c) && |a| == Width(c)
    ensures Mul(c, One(Width(c)), a) == a == Mul(c, a, One(Width(c)))
  {
    hide Mul, Associates, Distributes;
  }

  lemma LawZero(c: Coeff, a: Bits, z: Bits)
    requires Ring(c) && |a| == |z| == Width(c) && z == Zeros(|z|)
    ensures Mul(c, z, a) == z == Mul(c, a, z)
  {
    hide *;
    AddZero(z);
    LawLeft(c, z, z, a);
    AddSelf(Mul(c, z, a));
    LawComm(c, z, a);
  }

  // ---------------------------------------------------------------- rows over a ring

  lemma ScaleSum(f: Field, r: Bits, u: Row, v: Row)
    requires WfField(f) && Ring(f.wrapped) && |r| == Width(f.wrapped)
    requires IsRow(u, f.degree, Width(f.wrapped)) && IsRow(v, f.degree, Width(f.wrapped))
    ensures Scale(f, r, Sum(u, v, f.degree, Width(f.wrapped))) == Sum(Scale(f, r, u), Scale(f, r, v), f.degree, Width(f.wrapped))
  {
    hide Width, Mul, Ring, WfField, Add;
    forall i | 0 <= i < f.degree
      ensures Mul(f.wrapped, Add(u[i], v[i]), r) == Add(Mul(f.wrapped, u[i], r), Mul(f.wrapped, v[i], r))
    {
      LawLeft(f.wrapped, u[i], v[i], r);
    }
  }

  lemma ScaleScale(f: Field, r: Bits, s: Bits, u: Row)
    requires WfField(f) && Ring(f.wrapped) && |r| == |s| == Width(f.wrapped) && IsRow(u, f.degree, Width(f.wrapped))
    ensures Scale(f, r, Scale(f, s, u)) == Scale(f, s, Scale(f, r, u))
  {
    hide Width, Mul, Ring, WfField;
    forall i | 0 <= i < f.degree ensures Mul(f.wrapped, Mul(f.wrapped, u[i], s), r) == Mul(f.wrapped, Mul(f.wrapped, u[i], r), s) {
      LawAssoc(f.wrapped, u[i], s, r);
      LawAssoc(f.wrapped, u[i], r, s);
      LawComm(f.wrapped, r, s);
    }
  }

  lemma ScaleZero(f: Field, r: Bits)
    requires WfField(f) && Ring(f.wrapped) && |r| == Width(f.wrapped)
    ensures Scale(f, r, ZeroRow(f.degree, Width(f.wrapped))) == ZeroRow(f.degree, Width(f.wrapped))
  {
    hide Width, Mul, Ring, WfField;
    LawZero(f.wrapped, r, Zeros(Width(f.wrapped)));
  }

  lemma XTimeAt(f: Field, v: Row, i: nat)
    requires WfField(f) && IsRow(v, f.degree, Width(f.wrapped)) && i < f.degree
    ensures XTime(f, v)[i] == Add(if i == 0 then Zeros(Width(f.wrapped)) else v[i - 1],
                                  Mul(f.wrapped, v[f.degree - 1], Reduction(f)[i]))
  {
    hide Mul, Reduction;
  }

  lemma XTimeSum(f: Field, u: Row, v: Row)
    requires WfField(f) && Ring(f.wrapped)
    requires IsRow(u, f.degree, Width(f.wrapped)) && IsRow(v, f.degree, Width(f.wrapped))
    ensures XTime(f, Sum(u, v, f.degree, Width(f.wrapped))) == Sum(XTime(f, u), XTime(f, v), f.degree, Width(f.wrapped))
  {
    hide Width, Mul, Ring, WfField, XTime, Reduction;
    var w := Width(f.wrapped);
    var both := Sum(u, v, f.degree, w);
    forall i: nat | i < f.degree ensures XTime(f, both)[i] == Add(XTime(f, u)[i], XTime(f, v)[i]) {
      hide Add, Zeros;
      var m := Reduction(f)[i];
      XTimeAt(f, u, i);
      XTimeAt(f, v, i);
      XTimeAt(f, both, i);
      var p, q := u[f.degree - 1], v[f.degree - 1];
      LawLeft(f.wrapped, p, q, m);
      AddZero(Zeros(w));
      AddMedial(if i == 0 then Zeros(w) else u[i - 1], if i == 0 then Zeros(w) else v[i - 1], Mul(f.wrapped, p, m), Mul(f.wrapped, q, m));
    }
  }

  lemma XTimeScale(f: Field, r: Bits, u: Row)
    requires WfField(f) && Ring(f.wrapped) && |r| == Width(f.wrapped) && IsRow(u, f.degree, Width(f.wrapped))
    ensures XTime(f, Scale(f, r, u)) == Scale(f, r, XTime(f, u))
  {
    hide Width, Mul, Ring, WfField, XTime, Reduction;
    var c, w := f.wrapped, Width(f.wrapped);
    forall i: nat | i < f.degree ensures XTime(f, Scale(f, r, u))[i] == Mul(c, XTime(f, u)[i], r) {
      hide Add, Zeros;
      var m, p := Reduction(f)[i], u[f.degree - 1];
      var below := if i == 0 then Zeros(w) else u[i - 1];
      XTimeAt(f, u, i);
      XTimeAt(f, Scale(f, r, u), i);
      LawZero(c, r, Zeros(w));
      LawLeft(c, below, Mul(c, p, m), r);
      LawAssoc(c, p, m, r);
      LawAssoc(c, p, r, m);
      LawComm(c, m, r);
    }
  }

  lemma {:induction false} XPowSum(f: Field, u: Row, v: Row, k: nat)
    requires WfField(f) && Ring(f.wrapped)
    requires IsRow(u, f.degree, Width(f.wrapped)) && IsRow(v, f.degree, Width(f.wrapped))
    ensures XPow(f, Sum(u, v, f.degree, Width(f.wrapped)), k) == Sum(XPow(f, u, k), XPow(f, v, k), f.degree, Width(f.wrapped))
    decreases k
  {
    hide Width, XTime, Ring, WfField, Sum;
    if k > 0 {
      XPowSum(f, u, v, k - 1);
      XTimeSum(f, XPow(f, u, k - 1), XPow(f, v, k - 1));
    }
  }

  lemma {:induction false} XPowScale(f: Field, r: Bits, u: Row, k: nat)
    requires WfField(f) && Ring(f.wrapped) && |r| == Width(f.wrapped) && IsRow(u, f.degree, Width(f.wrapped))
    ensures XPow(f, Scale(f, r, u), k) == Scale(f, r, XPow(f, u, k))
    decreases k
  {
    hide Width, XTime, Ring, WfField, Scale;
    if k > 0 {
      XPowScale(f, r, u, k - 1);
      XTimeScale(f, r, XPow(f, u, k - 1));
    }
  }

  lemma {:induction false} XPowNext(f: Field, u: Row, k: nat)
    requires WfField(f) && IsRow(u, f.degree, Width(f.wrapped))
    ensures XPow(f, XTime(f, u), k) == XTime(f, XPow(f, u, k))
    decreases k
  {
    hide Width, XTime, WfField;
    if k > 0 {
      XPowNext(f, u, k - 1);
    }
  }

  lemma {:induction false} XPowPlus(f: Field, u: Row, j: nat, k: nat)
    requires WfField(f) && IsRow(u, f.degree, Width(f.wrapped))
    ensures XPow(f, XPow(f, u, j), k) == XPow(f, u, j + k)
    decreases k
  {
    hide Width, XTime, WfField;
    if k > 0 {
      XPowPlus(f, u, j, k - 1);
    }
  }

  lemma SumMedial(a: Row, b: Row, c: Row, d: Row, n: nat, w: nat)
    requires IsRow(a, n, w) && IsRow(b, n, w) && IsRow(c, n, w) && IsRow(d, n, w)
    ensures Sum(Sum(a, b, n, w), Sum(c, d, n, w), n, w) == Sum(Sum(a, c, n, w), Sum(b, d, n, w), n, w)
  {
    hide Add;
    forall i | 0 <= i < n ensures Add(Add(a[i], b[i]), Add(c[i], d[i])) == Add(Add(a[i], c[i]), Add(b[i], d[i])) {
      AddMedial(a[i], b[i], c[i], d[i]);
    }
  }

  lemma SumZero(a: Row, n: nat, w: nat)
    requires IsRow(a, n, w)
    ensures Sum(a, ZeroRow(n, w), n, w) == a == Sum(ZeroRow(n, w), a, n, w)
  {
    hide Add;
    forall i | 0 <= i < n ensures Add(a[i], Zeros(w)) == a[i] == Add(Zeros(w), a[i]) {
      AddZero(a[i]);
    }
  }

  lemma SumSelf(a: Row, n: nat, w: nat)
    requires IsRow(a, n, w)
    ensures Sum(a, a, n, w) == ZeroRow(n, w)
  {
    hide Add;
    forall i | 0 <= i < n ensures Add(a[i], a[i]) == Zeros(w) {
      AddSelf(a[i]);
    }
  }

  /** Coefficients for a combination. */
  predicate IsCoeffs(f: Field, c: Row) {
    forall i | 0 <= i < |c| :: |c[i]| == Width(f.wrapped)
  }

  lemma CombStep(f: Field, u: Row, c: Row, n: nat)
    requires WfField(f) && IsCoeffs(f, c) && 0 < n <= |c| && IsRow(u, f.degree, Width(f.wrapped))
    ensures Comb(f, u, c, n) == Sum(Comb(f, u, c, n - 1), Scale(f, c[n - 1], XPow(f, u, n - 1)), f.degree, Width(f.wrapped))
  {
    hide Width, XPow, WfField, Sum, Scale;
  }

  lemma CombNone(f: Field, u: Row, c: Row)
    requires WfField(f) && IsCoeffs(f, c) && IsRow(u, f.degree, Width(f.wrapped))
    ensures Comb(f, u, c, 0) == ZeroRow(f.degree, Width(f.wrapped))
  {
  }

  lemma {:induction false} CombSum(f: Field, u: Row, v: Row, c: Row, n: nat)
    requires WfField(f) && Ring(f.wrapped) && IsCoeffs(f, c) && n <= |c|
    requires IsRow(u, f.degree, Width(f.wrapped)) && IsRow(v, f.degree, Width(f.wrapped))
    ensures Comb(f, Sum(u, v, f.degree, Width(f.wrapped)), c, n) == Sum(Comb(f, u, c, n), Comb(f, v, c, n), f.degree, Width(f.wrapped))
    decreases n
  {
    hide Width, XPow, Ring, WfField, Sum, Scale, ZeroRow;
    var w := Width(f.wrapped);
    if n == 0 {
      SumZero(ZeroRow(f.degree, w), f.degree, w);
    } else {
      CombSum(f, u, v, c, n - 1);
      XPowSum(f, u, v, n - 1);
      ScaleSum(f, c[n - 1], XPow(f, u, n - 1), XPow(f, v, n - 1));
      SumMedial(Comb(f, u, c, n - 1), Comb(f, v, c, n - 1), Scale(f, c[n - 1], XPow(f, u, n - 1)), Scale(f, c[n - 1], XPow(f, v, n - 1)),
        f.degree, w);
    }
  }

  lemma {:induction false} CombScale(f: Field, r: Bits, u: Row, c: Row, n: nat)
    requires WfField(f) && Ring(f.wrapped) && IsCoeffs(f, c) && n <= |c|
    requires |r| == Width(f.wrapped) && IsRow(u, f.degree, Width(f.wrapped))
    ensures Comb(f, Scale(f, r, u), c, n) == Scale(f, r, Comb(f, u, c, n))
    decreases n
  {
    hide Width, XPow, Ring, WfField, Sum, Scale, ZeroRow;
    if n == 0 {
      ScaleZero(f, r);
    } else {
      CombScale(f, r, u, c, n - 1);
      XPowScale(f, r, u, n - 1);
      ScaleScale(f, c[n - 1], r, XPow(f, u, n - 1));
      ScaleSum(f, r, Comb(f, u, c, n - 1), Scale(f, c[n - 1], XPow(f, u, n - 1)));
    }
  }

  lemma XTimeZero(f: Field)
    requires WfField(f) && Ring(f.wrapped)
    ensures XTime(f, ZeroRow(f.degree, Width(f.wrapped))) == ZeroRow(f.degree, Width(f.wrapped))
  {
    hide Width, XTime, WfField, Ring, ZeroRow, Sum;
    var z := ZeroRow(f.degree, Width(f.wrapped));
    SumSelf(z, f.degree, Width(f.wrapped));
    XTimeSum(f, z, z);
    SumSelf(XTime(f, z), f.degree, Width(f.wrapped));
  }

  lemma {:induction false} CombX(f: Field, u: Row, c: Row, n: nat)
    requires WfField(f) && Ring(f.wrapped) && IsCoeffs(f, c) && n <= |c| && IsRow(u, f.degree, Width(f.wrapped))
    ensures Comb(f, XTime(f, u), c, n) == XTime(f, Comb(f, u, c, n))
    decreases n
  {
    hide Width, XPow, XTime, Ring, WfField, Sum, Scale, ZeroRow;
    if n == 0 {
      XTimeZero(f);
    } else {
      CombX(f, u, c, n - 1);
      XPowNext(f, u, n - 1);
      XTimeScale(f, c[n - 1], XPow(f, u, n - 1));
      XTimeSum(f, Comb(f, u, c, n - 1), Scale(f, c[n - 1], XPow(f, u, n - 1)));
    }
  }

  lemma {:induction false} CombXPow(f: Field, u: Row, c: Row, n: nat, k: nat)
    requires WfField(f) && Ring(f.wrapped) && IsCoeffs(f, c) && n <= |c| && IsRow(u, f.degree, Width(f.wrapped))
    ensures Comb(f, XPow(f, u, k), c, n) == XPow(f, Comb(f, u, c, n), k)
    decreases k
  {
    hide Width, Comb, XTime, Ring, WfField;
    if k > 0 {
      CombXPow(f, u, c, n, k - 1);
      CombX(f, XPow(f, u, k - 1), c, n);
    }
  }

  lemma CombOfZero(f: Field, c: Row, n: nat)
    requires WfField(f) && Ring(f.wrapped) && IsCoeffs(f, c) && n <= |c|
    ensures Comb(f, ZeroRow(f.degree, Width(f.wrapped)), c, n) == ZeroRow(f.degree, Width(f.wrapped))
  {
    hide Width, Comb, WfField, Ring, ZeroRow, Sum;
    var z := ZeroRow(f.degree, Width(f.wrapped));
    SumSelf(z, f.degree, Width(f.wrapped));
    CombSum(f, z, z, c, n);
    SumSelf(Comb(f, z, c, n), f.degree, Width(f.wrapped));
  }

  /** A product of combinations is a combination of products. */
  lemma {:induction false} CombComb(f: Field, u: Row, c: Row, n: nat, d: Row, m: nat)
    requires WfField(f) && Ring(f.wrapped) && IsCoeffs(f, c) && IsCoeffs(f, d) && n <= |c| && m <= |d|
    requires IsRow(u, f.degree, Width(f.wrapped))
    ensures Comb(f, Comb(f, u, c, n), d, m) == Comb(f, Comb(f, u, d, m), c, n)
    decreases n
  {
    hide Width, Comb, XPow, Ring, WfField, Sum, Scale, ZeroRow;
    var v := Comb(f, u, d, m);
    if n == 0 {
      CombNone(f, u, c);
      CombNone(f, v, c);
      CombOfZero(f, d, m);
    } else {
      CombStep(f, u, c, n);
      CombStep(f, v, c, n);
      CombComb(f, u, c, n - 1, d, m);
      CombSum(f, Comb(f, u, c, n - 1), Scale(f, c[n - 1], XPow(f, u, n - 1)), d, m);
      CombScale(f, c[n - 1], XPow(f, u, n - 1), d, m);
      CombXPow(f, u, d, m, n - 1);
    }
  }

  // ---------------------------------------------------------------- the identity

  lemma {:induction false} XPowUnit(f: Field, k: nat)
    requires WfField(f) && Ring(f.wrapped) && k < f.degree
    ensures XPow(f, Unit(f.degree, Width(f.wrapped), 0), k) == Unit(f.degree, Width(f.wrapped), k)
    decreases k
  {
    hide Width, XTime, Ring, WfField, Mul, Reduction, Zeros, One;
    var w := Width(f.wrapped);
    if k > 0 {
      XPowUnit(f, k - 1);
      var u := Unit(f.degree, w, k - 1);
      forall i: nat | i < f.degree ensures XTime(f, u)[i] == Unit(f.degree, w, k)[i] {
        XTimeAt(f, u, i);
        LawZero(f.wrapped, Reduction(f)[i], Zeros(w));
        AddZero(if i == 0 then Zeros(w) else u[i - 1]);
      }
    }
  }

  /** `c` up to place `n`, zero above. */
  function Prefix(c: Row, n: nat, w: nat): (r: Row)
    requires forall i | 0 <= i < |c| :: |c[i]| == w
    ensures IsRow(r, |c|, w) && forall i | 0 <= i < |c| :: r[i] == if i < n then c[i] else Zeros(w)
  {
    var zero := Zeros(w);
    seq(|c|, i requires 0 <= i < |c| => if i < n then c[i] else zero)
  }

  lemma {:induction false} CombUnit(f: Field, c: Row, n: nat)
    requires WfField(f) && Ring(f.wrapped) && IsRow(c, f.degree, Width(f.wrapped)) && n <= f.degree
    ensures Comb(f, Unit(f.degree, Width(f.wrapped), 0), c, n) == Prefix(c, n, Width(f.wrapped))
    decreases n
  {
    hide Width, Comb, XPow, Ring, WfField, Mul, Zeros, One, Add, Unit, Sum, Scale, ZeroRow;
    var w := Width(f.wrapped);
    CombNone(f, Unit(f.degree, w, 0), c);
    if n > 0 {
      CombStep(f, Unit(f.degree, w, 0), c, n);
      CombUnit(f, c, n - 1);
      XPowUnit(f, n - 1);
      var e := Unit(f.degree, w, n - 1);
      ScaleUnit(f, c[n - 1], n - 1);
      forall i: nat | i < f.degree ensures Add(Prefix(c, n - 1, w)[i], Scale(f, c[n - 1], e)[i]) == Prefix(c, n, w)[i] {
        AddZero(Prefix(c, n - 1, w)[i]);
        AddZero(c[n - 1]);
      }
    }
  }

  lemma ScaleUnit(f: Field, r: Bits, k: nat)
    requires WfField(f) && Ring(f.wrapped) && |r| == Width(f.wrapped) && k < f.degree
    ensures forall i | 0 <= i < f.degree ::
      Scale(f, r, Unit(f.degree, Width(f.wrapped), k))[i] == if i == k then r else Zeros(Width(f.wrapped))
  {
    hide Width, Ring, WfField, Mul, Zeros, One;
    LawOne(f.wrapped, r);
    LawZero(f.wrapped, r, Zeros(Width(f.wrapped)));
  }

  lemma RowOne(f: Field, a: Row)
    requires WfField(f) && Ring(f.wrapped) && IsRow(a, f.degree, Width(f.wrapped))
    ensures RowMul(f, Unit(f.degree, Width(f.wrapped), 0), a) == a
  {
    hide Width, Comb, Ring, WfField;
    CombUnit(f, a, f.degree);
  }

  lemma RowComm(f: Field, a: Row, b: Row)
    requires WfField(f) && Ring(f.wrapped) && IsRow(a, f.degree, Width(f.wrapped)) && IsRow(b, f.degree, Width(f.wrapped))
    ensures RowMul(f, a, b) == RowMul(f, b, a)
  {
    hide Width, Comb, Ring, WfField;
    var one := Unit(f.degree, Width(f.wrapped), 0);
    RowOne(f, a);
    RowOne(f, b);
    CombComb(f, one, a, f.degree, b, f.degree);
  }

  lemma RowAssoc(f: Field, a: Row, b: Row, c: Row)
    requires WfField(f) && Ring(f.wrapped)
    requires IsRow(a, f.degree, Width(f.wrapped)) && IsRow(b, f.degree, Width(f.wrapped)) && IsRow(c, f.degree, Width(f.wrapped))
    ensures RowMul(f, RowMul(f, a, b), c) == RowMul(f, a, RowMul(f, b, c))
  {
    hide Width, Comb, Ring, WfField;
    RowComm(f, a, b);
    RowComm(f, a, RowMul(f, b, c));
    CombComb(f, b, a, f.degree, c, f.degree);
  }

  lemma RowLeft(f: Field, a: Row, b: Row, c: Row)
    requires WfField(f) && Ring(f.wrapped)
    requires IsRow(a, f.degree, Width(f.wrapped)) && IsRow(b, f.degree, Width(f.wrapped)) && IsRow(c, f.degree, Width(f.wrapped))
    ensures RowMul(f, Sum(a, b, f.degree, Width(f.wrapped)), c) == Sum(RowMul(f, a, c), RowMul(f, b, c), f.degree, Width(f.wrapped))
  {
    hide Width, Comb, Ring, WfField;
    CombSum(f, a, b, c, f.degree);
  }

  // ---------------------------------------------------------------- the tower

  lemma BitRing()
    ensures Ring(Bit)
  {
    hide Add;
    forall a: Bits | |a| == 1 ensures Mul(Bit, One(1), a) == a {
    }
    forall x: Bits, y: Bits, z: Bits | |x| == |y| == |z| == 1
      ensures Mul(Bit, Mul(Bit, x, y), z) == Mul(Bit, x, Mul(Bit, y, z)) && Mul(Bit, Add(x, y), z) == Add(Mul(Bit, x, z), Mul(Bit, y, z))
    {
    }
  }

  lemma ExtWidth(f: Field)
    ensures Width(Ext(f)) == f.degree * Width(f.wrapped)
  {
  }

  lemma SplitElem(f: Field, a: Bits)
    requires WfField(f) && |a| == Width(Ext(f))
    ensures |a| == f.degree * Width(f.wrapped) && Flat(Split(a, f.degree, Width(f.wrapped))) == a
  {
    FlatSplit(a, f.degree, Width(f.wrapped));
  }

  lemma MulSplit(f: Field, a: Bits, b: Bits)
    requires WfField(f) && |a| == |b| == Width(Ext(f))
    ensures Split(Mul(Ext(f), a, b), f.degree, Width(f.wrapped))
      == RowMul(f, Split(a, f.degree, Width(f.wrapped)), Split(b, f.degree, Width(f.wrapped)))
  {
    hide RowMul, WfField;
    SplitFlat(RowMul(f, Split(a, f.degree, Width(f.wrapped)), Split(b, f.degree, Width(f.wrapped))), f.degree, Width(f.wrapped));
  }

  lemma ExtComm(f: Field)
    requires WfField(f) && Ring(f.wrapped)
    ensures Commutes(Ext(f))
  {
    hide Width, RowMul, WfField, Ring;
    ExtWidth(f);
    var n, w := f.degree, Width(f.wrapped);
    forall a: Bits, b: Bits | |a| == |b| == Width(Ext(f)) ensures Mul(Ext(f), a, b) == Mul(Ext(f), b, a) {
      RowComm(f, Split(a, n, w), Split(b, n, w));
    }
  }

  lemma ExtAssoc(f: Field)
    requires WfField(f) && Ring(f.wrapped)
    ensures Associates(Ext(f))
  {
    hide Width, RowMul, WfField, Ring;
    ExtWidth(f);
    var n, w := f.degree, Width(f.wrapped);
    forall x: Bits, y: Bits, z: Bits | |x| == |y| == |z| == Width(Ext(f))
      ensures Mul(Ext(f), Mul(Ext(f), x, y), z) == Mul(Ext(f), x, Mul(Ext(f), y, z))
    {
      MulSplit(f, x, y);
      MulSplit(f, y, z);
      RowAssoc(f, Split(x, n, w), Split(y, n, w), Split(z, n, w));
    }
  }

  lemma ExtDistributes(f: Field)
    requires WfField(f) && Ring(f.wrapped)
    ensures Distributes(Ext(f))
  {
    hide Width, RowMul, WfField, Ring, Mul;
    ExtWidth(f);
    var n, w := f.degree, Width(f.wrapped);
    forall x: Bits, y: Bits, z: Bits | |x| == |y| == |z| == Width(Ext(f))
      ensures Mul(Ext(f), Add(x, y), z) == Add(Mul(Ext(f), x, z), Mul(Ext(f), y, z))
    {
      MulSplit(f, Add(x, y), z);
      MulSplit(f, x, z);
      MulSplit(f, y, z);
      SplitSum(x, y, n, w);
      SplitSum(Mul(Ext(f), x, z), Mul(Ext(f), y, z), n, w);
      RowLeft(f, Split(x, n, w), Split(y, n, w), Split(z, n, w));
      SplitElem(f, Mul(Ext(f), Add(x, y), z));
      SplitElem(f, Add(Mul(Ext(f), x, z), Mul(Ext(f), y, z)));
    }
  }

  lemma ExtOne(f: Field)
    requires WfField(f) && Ring(f.wrapped)
    ensures HasOne(Ext(f))
  {
    hide Width, RowMul, WfField, Ring, Mul;
    ExtWidth(f);
    var n, w := f.degree, Width(f.wrapped);
    WidthPositive(f.wrapped);
    SplitOne(n, w);
    forall a: Bits | |a| == Width(Ext(f)) ensures Mul(Ext(f), One(Width(Ext(f))), a) == a {
      MulSplit(f, One(Width(Ext(f))), a);
      RowOne(f, Split(a, n, w));
      SplitElem(f, a);
      SplitElem(f, Mul(Ext(f), One(Width(Ext(f))), a));
    }
  }

  /** At every height the product makes a commutative ring with identity. */
  lemma {:induction false} TowerRing(c: Coeff)
    requires WfCoeff(c)
    ensures Ring(c)
    decreases c
  {
    match c
    case Bit => BitRing();
    case Ext(f) =>
      TowerRing(f.wrapped);
      ExtRing(f);
  }

  lemma ExtRing(f: Field)
    requires WfField(f) && Ring(f.wrapped)
    ensures Ring(Ext(f))
  {
    hide Commutes, Associates, Distributes, HasOne, Mul;
    ExtComm(f);
    ExtAssoc(f);
    ExtDistributes(f);
    ExtOne(f);
  }
}
