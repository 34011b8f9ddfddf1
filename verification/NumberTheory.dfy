/**
 Facts about primes that Miller-Rabin rests on: Euclid's lemma, Fermat's little theorem,
 and the square roots of one.
 */
module NumberTheory {
  import opened Numbers

  predicate Divides(d: nat, n: int)
    requires d > 0
  {
    n % d == 0
  }

  ghost predicate IsPrime(n: nat) {
    2 <= n && forall d: nat | 2 <= d < n :: !Divides(d, n)
  }

  function Power(a: int, e: nat): int {
    if e == 0 then 1 else a * Power(a, e - 1)
  }

  lemma {:induction false} PowerAdd(a: int, e: nat, f: nat)
    ensures Power(a, e + f) == Power(a, e) * Power(a, f)
  {
    if e > 0 {
      PowerAdd(a, e - 1, f);
      assert e + f - 1 == e - 1 + f;
      MulAssoc(a, Power(a, e - 1), Power(a, f));
    }
  }

  lemma MulAssoc(a: int, b: int, c: int)
    ensures a * (b * c) == (a * b) * c
  {
  }

  lemma MultipleMod(q: int, p: int)
    requires p > 0
    ensures (q * p) % p == 0
  {
    DivModUnique(q * p, p, q, 0);
  }

  /** A nonzero residue can be cancelled, by running the division algorithm on it. */
  lemma {:induction false} CancelResidue(p: nat, r: nat, b: int)
    requires IsPrime(p) && 0 < r < p && Divides(p, r * b)
    ensures Divides(p, b)
    decreases r
  {
    if r > 1 {
      var q, s := p / r, p % r;
      assert !Divides(r, p);
      assert p == q * r + s;
      var m := r * b / p;
      calc {
        s * b;
        (p - q * r) * b;
        b * p - q * (r * b);
        b * p - q * (m * p);
        (b - q * m) * p;
      }
      MultipleMod(b - q * m, p);
      CancelResidue(p, s, b);
    }
  }

  lemma EuclidsLemma(p: nat, a: int, b: int)
    requires IsPrime(p) && Divides(p, a * b)
    ensures Divides(p, a) || Divides(p, b)
  {
    MulModReduce(a, b, p);
    if a % p != 0 {
      CancelResidue(p, a % p, b);
    }
  }

  // ---------------------------------------------------------------- Fermat's little theorem

  function Choose(n: nat, k: nat): nat {
    if k == 0 then 1 else if n == 0 then 0 else Choose(n - 1, k - 1) + Choose(n - 1, k)
  }

  lemma {:induction false} ChooseOutside(n: nat, k: nat)
    requires k > n
    ensures Choose(n, k) == 0
  {
    if n > 0 {
      ChooseOutside(n - 1, k - 1);
      ChooseOutside(n - 1, k);
    }
  }

  lemma {:induction false} ChooseAll(n: nat)
    ensures Choose(n, n) == 1
  {
    if n > 0 {
      ChooseAll(n - 1);
      ChooseOutside(n - 1, n);
    }
  }

  lemma {:induction false} Absorb(n: nat, k: nat)
    requires n >= 1 && k >= 1
    ensures k * Choose(n, k) == n * Choose(n - 1, k - 1)
  {
    if n == 1 {
      if k > 1 {
        ChooseOutside(1, k);
        ChooseOutside(0, k - 1);
      }
    } else {
      Absorb(n - 1, k);
      if k == 1 {
        assert Choose(n - 1, 0) == 1 && Choose(n - 2, 0) == 1;
      } else {
        Absorb(n - 1, k - 1);
        AbsorbStep(n, k, Choose(n - 1, k - 1), Choose(n - 1, k), Choose(n - 2, k - 2), Choose(n - 2, k - 1));
      }
    }
  }

  lemma AbsorbStep(n: nat, k: nat, x: nat, y: nat, u: nat, v: nat)
    requires n >= 1 && k >= 1
    requires (k - 1) * x == (n - 1) * u && k * y == (n - 1) * v && x == u + v
    ensures k * (x + y) == n * x
  {
    calc {
      k * (x + y);
      (k - 1) * x + x + k * y;
      (n - 1) * u + x + (n - 1) * v;
      (n - 1) * (u + v) + x;
      n * x;
    }
  }

  lemma PrimeDividesChoose(p: nat, k: nat)
    requires IsPrime(p) && 0 < k < p
    ensures Divides(p, Choose(p, k))
  {
    Absorb(p, k);
    DividesProduct(p, k, Choose(p, k), Choose(p - 1, k - 1));
    EuclidsLemma(p, k, Choose(p, k));
    SmallMod(k, p);
  }

  lemma DividesProduct(p: nat, a: int, b: int, c: int)
    requires p > 0 && a * b == p * c
    ensures Divides(p, a * b)
  {
    MultipleMod(c, p);
  }

  function BinomialTerm(n: nat, a: nat, k: nat): int {
    Choose(n, k) * Power(a, k)
  }

  /** The first `m` terms of the binomial expansion of `(a + 1)^n`. */
  function Expansion(n: nat, a: nat, m: nat): int {
    if m == 0 then 0 else Expansion(n, a, m - 1) + BinomialTerm(n, a, m - 1)
  }

  lemma PascalTerm(n: nat, a: nat, k: nat)
    ensures BinomialTerm(n + 1, a, k + 1) == a * BinomialTerm(n, a, k) + BinomialTerm(n, a, k + 1)
  {
    var x, y, w := Choose(n, k), Choose(n, k + 1), Power(a, k);
    assert Power(a, k + 1) == a * w;
    calc {
      (x + y) * (a * w);
      x * (a * w) + y * (a * w);
      a * (x * w) + y * (a * w);
    }
  }

  lemma FirstTerm(n: nat, a: nat)
    ensures BinomialTerm(n, a, 0) == 1 && Expansion(n, a, 1) == 1
  {
    assert Expansion(n, a, 1) == Expansion(n, a, 0) + BinomialTerm(n, a, 0);
  }

  lemma {:induction false} ExpansionStep(n: nat, a: nat, m: nat)
    ensures Expansion(n + 1, a, m + 1) == a * Expansion(n, a, m) + Expansion(n, a, m + 1)
  {
    if m == 0 {
      FirstTerm(n, a);
      FirstTerm(n + 1, a);
    } else {
      ExpansionStep(n, a, m - 1);
      PascalTerm(n, a, m - 1);
      Distribute(a, Expansion(n, a, m - 1), BinomialTerm(n, a, m - 1));
    }
  }

  lemma {:induction false} BinomialTheorem(n: nat, a: nat)
    ensures Power(a + 1, n) == Expansion(n, a, n + 1)
  {
    if n == 0 {
      FirstTerm(0, a);
    } else {
      BinomialTheorem(n - 1, a);
      ExpansionStep(n - 1, a, n);
      ChooseOutside(n - 1, n);
      assert BinomialTerm(n - 1, a, n) == 0;
      TimesSuccessor(a, Expansion(n - 1, a, n));
    }
  }

  lemma TimesSuccessor(a: int, x: int)
    ensures (a + 1) * x == a * x + x
  {
  }

  lemma {:induction false} MiddleTermsVanish(p: nat, a: nat, m: nat)
    requires IsPrime(p) && 1 <= m <= p
    ensures Expansion(p, a, m) % p == 1
    decreases m
  {
    if m == 1 {
      FirstTerm(p, a);
      SmallMod(1, p);
    } else {
      MiddleTermsVanish(p, a, m - 1);
      PrimeDividesChoose(p, m - 1);
      DropMultiple(Expansion(p, a, m - 1), Choose(p, m - 1), Power(a, m - 1), p);
    }
  }

  lemma DropMultiple(x: int, c: int, w: int, p: nat)
    requires p > 0 && Divides(p, c)
    ensures (x + c * w) % p == x % p
  {
    var q := c / p;
    assert c == q * p;
    MulAssoc(w, q, p);
    ModOfMultiple(x, w * q, p);
  }

  lemma {:induction false} FermatPower(p: nat, a: nat)
    requires IsPrime(p)
    ensures Power(a, p) % p == a % p
  {
    if a == 0 {
      assert Power(0, p) == 0 * Power(0, p - 1);
    } else {
      FermatPower(p, a - 1);
      BinomialTheorem(p, a - 1);
      MiddleTermsVanish(p, a - 1, p);
      ChooseAll(p);
      assert BinomialTerm(p, a - 1, p) == Power(a - 1, p);
      AddModReduce(Expansion(p, a - 1, p), Power(a - 1, p), p);
      AddModReduce(1, Power(a - 1, p), p);
      AddModReduce(1, a - 1, p);
    }
  }

  /** Fermat's little theorem. */
  lemma FermatLittle(p: nat, a: nat)
    requires IsPrime(p) && a % p != 0
    ensures Power(a, p - 1) % p == 1
  {
    FermatPower(p, a);
    var w := Power(a, p - 1);
    Distribute(a, w, -1);
    EqualModDivides(a * w, a, p);
    EuclidsLemma(p, a, w - 1);
    AddModReduce(w - 1, 1, p);
    SmallMod(1, p);
  }

  lemma EqualModDivides(x: int, y: int, p: nat)
    requires p > 0 && x % p == y % p
    ensures Divides(p, x - y)
  {
    assert x - y == (x / p - y / p) * p;
    MultipleMod(x / p - y / p, p);
  }

  /** Modulo a prime, one has only the square roots 1 and -1. */
  lemma SquareRootsOfOne(p: nat, x: nat)
    requires IsPrime(p) && x < p && (x * x) % p == 1
    ensures x == 1 || x == p - 1
  {
    SmallMod(1, p);
    EqualModDivides(x * x, 1, p);
    assert x * x - 1 == (x - 1) * (x + 1);
    EuclidsLemma(p, x - 1, x + 1);
    if x == 0 {
      SmallMod(0, p);
    } else if x > 1 && x < p - 1 {
      SmallMod(x - 1, p);
      SmallMod(x + 1, p);
    }
  }
}
