/**
 When the power 2^w - 2 is the inverse: exactly when no two nonzero elements multiply to zero, which
 is what an irreducible modulus gives. Multiplying by an element then permutes the nonzero elements,
 so their product shows that its power 2^w - 1 is one.
 */
module FieldInverse {
  import opened Numbers
  import opened FieldTower
  import opened FieldArithmetic

  ghost predicate NoZeroDivisors(c: Coeff)
    requires WfCoeff(c)
  {
    forall a, b {:trigger Mul(c, a, b)} | |a| == |b| == Width(c) && a != Zeros(|a|) && b != Zeros(|b|) :: Mul(c, a, b) != Zeros(|a|)
  }

  lemma NonzeroProduct(c: Coeff, a: Bits, b: Bits)
    requires WfCoeff(c) && NoZeroDivisors(c) && |a| == |b| == Width(c) && a != Zeros(|a|) && b != Zeros(|b|)
    ensures Mul(c, a, b) != Zeros(|a|)
  {
    hide Mul, Width;
  }

  // ---------------------------------------------------------------- all elements

  function With(x: bool, s: set<Bits>): set<Bits> {
    set b | b in s :: [x] + b
  }

  lemma WithIs(x: bool, s: set<Bits>, b: Bits)
    ensures b in With(x, s) <==> |b| > 0 && b[0] == x && b[1..] in s
  {
    if b in With(x, s) {
      var t :| t in s && b == [x] + t;
      assert b[1..] == t;
    } else if |b| > 0 {
      assert b == [b[0]] + b[1..];
    }
  }

  /** All bit strings of a length. */
  function All(w: nat): set<Bits> {
    if w == 0 then {[]} else With(false, All(w - 1)) + With(true, All(w - 1))
  }

  lemma {:induction false} WithSize(x: bool, s: set<Bits>)
    ensures |With(x, s)| == |s|
    decreases |s|
  {
    if s != {} {
      var b :| b in s;
      WithSize(x, s - {b});
      forall t ensures t in With(x, s) <==> t in With(x, s - {b}) + {[x] + b} {
        WithIs(x, s, t);
        WithIs(x, s - {b}, t);
        if |t| > 0 && t[1..] == b && t[0] == x {
          assert t == [x] + b;
        }
      }
      WithIs(x, s - {b}, [x] + b);
      assert ([x] + b)[1..] == b;
      assert With(x, s) == With(x, s - {b}) + {[x] + b};
    }
  }

  lemma WithDisjoint(s: set<Bits>)
    ensures |With(false, s) + With(true, s)| == 2 * |s|
  {
    hide With;
    WithSize(false, s);
    WithSize(true, s);
    forall b | b in With(false, s) ensures b !in With(true, s) {
      WithIs(false, s, b);
      WithIs(true, s, b);
    }
    assert With(false, s) !! With(true, s);
  }

  lemma {:induction false} AllSize(w: nat)
    ensures |All(w)| == Pow2(w)
    decreases w
  {
    hide With;
    if w > 0 {
      AllSize(w - 1);
      WithDisjoint(All(w - 1));
    }
  }

  lemma {:induction false} InAll(w: nat, b: Bits)
    ensures b in All(w) <==> |b| == w
    decreases w
  {
    if w > 0 {
      WithIs(false, All(w - 1), b);
      WithIs(true, All(w - 1), b);
      if |b| > 0 {
        InAll(w - 1, b[1..]);
      }
    }
  }

  function Nonzero(w: nat): set<Bits> {
    All(w) - {Zeros(w)}
  }

  lemma NonzeroIs(w: nat, b: Bits)
    ensures b in Nonzero(w) <==> |b| == w && b != Zeros(w)
  {
    InAll(w, b);
  }

  lemma NonzeroSize(w: nat)
    ensures |Nonzero(w)| == Pow2(w) - 1
  {
    AllSize(w);
    InAll(w, Zeros(w));
  }

  // ---------------------------------------------------------------- products over sets

  ghost predicate Elements(c: Coeff, s: set<Bits>) {
    forall b | b in s :: |b| == Width(c)
  }

  ghost function Product(c: Coeff, s: set<Bits>): (r: Bits)
    requires WfCoeff(c) && Elements(c, s)
    ensures |r| == Width(c)
    decreases |s|
  {
    if s == {} then One(Width(c))
    else
      var x :| x in s;
      Mul(c, x, Product(c, s - {x}))
  }

  lemma {:induction false} ProductPick(c: Coeff, s: set<Bits>, y: Bits)
    requires Ring(c) && Elements(c, s) && y in s
    ensures Product(c, s) == Mul(c, y, Product(c, s - {y}))
    decreases |s|
  {
    hide Mul, Ring, Width, One;
    var x :| x in s && Product(c, s) == Mul(c, x, Product(c, s - {x}));
    if x != y {
      ProductPick(c, s - {x}, y);
      ProductPick(c, s - {y}, x);
      assert s - {x} - {y} == s - {y} - {x};
      var rest := Product(c, s - {x} - {y});
      LawAssoc(c, x, y, rest);
      LawAssoc(c, y, x, rest);
      LawComm(c, x, y);
    }
  }

  lemma {:induction false} ProductNonzero(c: Coeff, s: set<Bits>)
    requires Ring(c) && NoZeroDivisors(c) && Elements(c, s) && Zeros(Width(c)) !in s
    ensures Product(c, s) != Zeros(Width(c))
    decreases |s|
  {
    hide Mul, Ring, Width, NoZeroDivisors;
    if s == {} {
      WidthPositive(c);
      assert One(Width(c))[0] && !Zeros(Width(c))[0];
    } else {
      var x :| x in s;
      ProductPick(c, s, x);
      ProductNonzero(c, s - {x});
      NonzeroProduct(c, x, Product(c, s - {x}));
    }
  }

  function Times(c: Coeff, a: Bits, s: set<Bits>): (r: set<Bits>)
    requires WfCoeff(c) && |a| == Width(c) && forall b | b in s :: |b| == Width(c)
  {
    set b | b in s :: Mul(c, a, b)
  }

  /** Without zero divisors, multiplying by a nonzero element is injective. */
  lemma Cancel(c: Coeff, a: Bits, x: Bits, y: Bits)
    requires Ring(c) && NoZeroDivisors(c) && |a| == |x| == |y| == Width(c) && a != Zeros(|a|) && Mul(c, a, x) == Mul(c, a, y)
    ensures x == y
  {
    hide Mul, Ring, Width, NoZeroDivisors;
    LawRight(c, x, y, a);
    AddSelf(Mul(c, a, x));
    if Add(x, y) != Zeros(|x|) {
      NonzeroProduct(c, a, Add(x, y));
    }
    forall i | 0 <= i < |x| ensures x[i] == y[i] {
      assert !Add(x, y)[i];
    }
  }

  lemma {:induction false} TimesProduct(c: Coeff, a: Bits, s: set<Bits>)
    requires Ring(c) && NoZeroDivisors(c) && |a| == Width(c) && a != Zeros(|a|) && Elements(c, s)
    ensures Elements(c, Times(c, a, s)) && |Times(c, a, s)| == |s|
    ensures Product(c, Times(c, a, s)) == Mul(c, Pow(c, a, |s|), Product(c, s))
    decreases |s|
  {
    hide Mul, Ring, Width, NoZeroDivisors, Pow, Product, One;
    if s == {} {
      ProductEmpty(c);
      LawOne(c, One(Width(c)));
      PowNone(c, a);
    } else {
      var x :| x in s;
      var rest := s - {x};
      TimesProduct(c, a, rest);
      TimesPick(c, a, s, x);
      var image := Times(c, a, s);
      ProductPick(c, image, Mul(c, a, x));
      ProductPick(c, s, x);
      PowSnoc(c, a, |rest|);
      Regroup(c, a, x, Pow(c, a, |rest|), Product(c, rest));
    }
  }

  lemma ProductEmpty(c: Coeff)
    requires WfCoeff(c)
    ensures Product(c, {}) == One(Width(c))
  {
  }

  lemma PowNone(c: Coeff, a: Bits)
    requires WfCoeff(c) && |a| == Width(c)
    ensures Pow(c, a, 0) == One(Width(c))
  {
  }

  lemma PowSnoc(c: Coeff, a: Bits, e: nat)
    requires WfCoeff(c) && |a| == Width(c)
    ensures Pow(c, a, e + 1) == Mul(c, a, Pow(c, a, e))
  {
    hide Mul, Width;
  }

  /** The image without the image of `x`. */
  lemma TimesPick(c: Coeff, a: Bits, s: set<Bits>, x: Bits)
    requires Ring(c) && NoZeroDivisors(c) && |a| == Width(c) && a != Zeros(|a|) && Elements(c, s) && x in s
    ensures Elements(c, Times(c, a, s)) && Mul(c, a, x) in Times(c, a, s)
    ensures Times(c, a, s) - {Mul(c, a, x)} == Times(c, a, s - {x})
    ensures |Times(c, a, s)| == |Times(c, a, s - {x})| + 1
  {
    hide Mul, Ring, Width, NoZeroDivisors;
    var image, rest := Times(c, a, s), Times(c, a, s - {x});
    forall z ensures z in image - {Mul(c, a, x)} <==> z in rest {
      if z in rest {
        var b :| b in s - {x} && z == Mul(c, a, b);
        if z == Mul(c, a, x) {
          Cancel(c, a, b, x);
        }
      }
    }
  }

  lemma Regroup(c: Coeff, a: Bits, x: Bits, p: Bits, r: Bits)
    requires Ring(c) && |a| == |x| == |p| == |r| == Width(c)
    ensures Mul(c, Mul(c, a, x), Mul(c, p, r)) == Mul(c, Mul(c, a, p), Mul(c, x, r))
  {
    hide Mul, Ring, Width;
    LawAssoc(c, a, x, Mul(c, p, r));
    LawAssoc(c, x, p, r);
    LawComm(c, x, p);
    LawAssoc(c, p, x, r);
    LawAssoc(c, a, p, Mul(c, x, r));
  }

  lemma SameSize(s: set<Bits>, t: set<Bits>)
    requires s <= t && |s| == |t|
    ensures s == t
  {
    assert t == s + (t - s);
  }

  lemma Permutes(c: Coeff, a: Bits)
    requires Ring(c) && NoZeroDivisors(c) && |a| == Width(c) && a != Zeros(|a|)
    ensures Elements(c, Nonzero(Width(c))) && Times(c, a, Nonzero(Width(c))) == Nonzero(Width(c))
  {
    hide Mul, Ring, Width, NoZeroDivisors, Nonzero;
    var s := Nonzero(Width(c));
    forall b ensures b in s <==> |b| == Width(c) && b != Zeros(Width(c)) {
      NonzeroIs(Width(c), b);
    }
    TimesProduct(c, a, s);
    forall z | z in Times(c, a, s) ensures z in s {
      var b :| b in s && z == Mul(c, a, b);
      NonzeroProduct(c, a, b);
    }
    SameSize(Times(c, a, s), s);
  }

  /** The power 2^w - 1 of a nonzero element is one. */
  lemma FermatInField(c: Coeff, a: Bits)
    requires WfCoeff(c) && NoZeroDivisors(c) && |a| == Width(c) && a != Zeros(|a|)
    ensures Pow(c, a, Pow2(Width(c)) - 1) == One(Width(c))
  {
    hide Mul, Ring, Width, NoZeroDivisors, Pow, Product, Nonzero;
    TowerRing(c);
    var s, w := Nonzero(Width(c)), Width(c);
    Permutes(c, a);
    TimesProduct(c, a, s);
    NonzeroSize(w);
    NonzeroIs(w, Zeros(w));
    ProductNonzero(c, s);
    var p, n := Product(c, s), Pow(c, a, |s|);
    LawOne(c, p);
    LawComm(c, n, p);
    LawComm(c, One(w), p);
    Cancel(c, p, n, One(w));
  }

  /** `FieldInv` inverts every nonzero element exactly when there are no zero divisors. */
  lemma InverseExactly(f: Field)
    requires WfField(f)
    ensures Pow2(Width(Ext(f))) >= 2
    ensures NoZeroDivisors(Ext(f)) <==>
      forall a | |a| == Width(Ext(f)) && a != Zeros(|a|) :: Mul(Ext(f), a, Pow(Ext(f), a, Pow2(Width(Ext(f))) - 2)) == One(Width(Ext(f)))
  {
    hide Mul, Ring, Width, NoZeroDivisors, Pow, WfField;
    var c := Ext(f);
    FieldWidth(f);
    Pow2Monotone(1, Width(c));
    if NoZeroDivisors(c) {
      forall a | |a| == Width(c) && a != Zeros(|a|) ensures Mul(c, a, Pow(c, a, Pow2(Width(c)) - 2)) == One(Width(c)) {
        FermatInField(c, a);
        PowSnoc(c, a, Pow2(Width(c)) - 2);
      }
    } else {
      NotInverted(f);
    }
  }

  lemma NotInverted(f: Field)
    requires WfField(f) && !NoZeroDivisors(Ext(f)) && Pow2(Width(Ext(f))) >= 2
    ensures exists a | |a| == Width(Ext(f)) && a != Zeros(|a|) ::
      Mul(Ext(f), a, Pow(Ext(f), a, Pow2(Width(Ext(f))) - 2)) != One(Width(Ext(f)))
  {
    hide Mul, Ring, Width, Pow, WfField;
    var c := Ext(f);
    TowerRing(c);
    var a: Bits, b: Bits :| |a| == |b| == Width(c) && a != Zeros(|a|) && b != Zeros(|b|) && Mul(c, a, b) == Zeros(|a|);
    var inverse := Pow(c, a, Pow2(Width(c)) - 2);
    if Mul(c, a, inverse) == One(Width(c)) {
      LawAssoc(c, inverse, a, b);
      LawComm(c, inverse, a);
      LawOne(c, b);
      LawZero(c, inverse, Zeros(|a|));
    }
  }
}
