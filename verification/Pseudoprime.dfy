/**
 A composite number that the primality test accepts: the bases it takes below 2^64 do not decide every
 number there.
 */
module Pseudoprime {
  import opened Numbers
  import opened NumberTheory
  import opened Primality

  const COMPOSITE: nat := 3825123056546413051
  /** Half the least common multiple of its prime factors less one each. */
  const HALF_ORDER: nat := 85583025

  lemma SameProduct(a: int, b: int, x: int, y: int, n: nat)
    requires n > 0 && a % n == x % n && b % n == y % n
    ensures a * b % n == x * y % n
  {
    MulModReduce(a, b, n);
    MulModReduce(a % n, b, n);
    MulModReduce(x, y, n);
    MulModReduce(x % n, y, n);
  }

  /** Powers of equal residues are equal residues. */
  lemma {:induction false} PowerOfResidue(a: int, e: nat, x: int, k: nat, n: nat)
    requires n > 0 && Power(a, e) % n == x % n
    ensures Power(a, k * e) % n == Power(x, k) % n
  {
    if k > 0 {
      PowerOfResidue(a, e, x, k - 1, n);
      PowerAdd(a, e, (k - 1) * e);
      SameProduct(Power(a, e), Power(a, (k - 1) * e), x, Power(x, k - 1), n);
      assert k * e == e + (k - 1) * e;
    }
  }

  /** The powers up to the seventh, written out. */
  function Digit(a: nat, w: nat): nat {
    if w == 0 then 1
    else if w == 1 then a
    else if w == 2 then a * a
    else if w == 3 then a * a * a
    else if w == 4 then a * a * a * a
    else if w == 5 then a * a * a * a * a
    else if w == 6 then a * a * a * a * a * a
    else a * a * a * a * a * a * a
  }

  lemma DigitIs(a: nat, w: nat)
    requires w < 8
    ensures Digit(a, w) == Power(a, w)
  {
    assert Power(a, 0) == 1;
    assert Power(a, 1) == a;
    assert Power(a, 2) == a * a;
    assert Power(a, 3) == a * a * a;
    assert Power(a, 4) == a * a * a * a;
    assert Power(a, 5) == a * a * a * a * a;
    assert Power(a, 6) == a * a * a * a * a * a;
    assert Power(a, 7) == a * a * a * a * a * a * a;
  }

  lemma EighthPower(x: int)
    ensures Power(x, 8) == x * x * x * x * x * x * x * x
  {
    assert Power(x, 1) == x;
    assert Power(x, 2) == x * x;
    PowerAdd(x, 2, 2);
    PowerAdd(x, 4, 4);
  }

  /** Three more binary digits of the exponent. */
  lemma Append(a: nat, e: nat, x: nat, w: nat, c: nat, y: nat)
    requires Power(a, e) % COMPOSITE == x && w < 8 && c == Digit(a, w)
    requires x * x * x * x * x * x * x * x * c % COMPOSITE == y
    ensures Power(a, 8 * e + w) % COMPOSITE == y
  {
    hide Digit, Power;
    DigitIs(a, w);
    EighthPower(x);
    PowerOfResidue(a, e, x, 8, COMPOSITE);
    PowerAdd(a, 8 * e, w);
    SameProduct(Power(a, 8 * e), c, Power(x, 8), c, COMPOSITE);
  }

  lemma Base2()
    ensures Power(2, HALF_ORDER) % COMPOSITE == COMPOSITE - 1
  {
    hide Power;
    DigitIs(2, 5);
    Append(2, 5, 32, 0, 1, 1099511627776);
    Append(2, 40, 1099511627776, 6, 64, 3054145503703274396);
    Append(2, 326, 3054145503703274396, 3, 8, 620618339643861391);
    Append(2, 2611, 620618339643861391, 6, 64, 1089506113982945967);
    Append(2, 20894, 1089506113982945967, 2, 4, 2046683358452969705);
    Append(2, 167154, 2046683358452969705, 2, 4, 943447001549417094);
    Append(2, 1337234, 943447001549417094, 6, 64, 243839120048151599);
    Append(2, 10697878, 243839120048151599, 1, 2, 3825123056546413050);
  }

  lemma Base3()
    ensures Power(3, HALF_ORDER) % COMPOSITE == COMPOSITE - 1
  {
    hide Power;
    DigitIs(3, 5);
    Append(3, 5, 243, 0, 1, 682296289417689648);
    Append(3, 40, 682296289417689648, 6, 729, 75667530780573791);
    Append(3, 326, 75667530780573791, 3, 27, 2240208811316208979);
    Append(3, 2611, 2240208811316208979, 6, 729, 1440921632299275727);
    Append(3, 20894, 1440921632299275727, 2, 9, 1955804379261980791);
    Append(3, 167154, 1955804379261980791, 2, 9, 733512447649788074);
    Append(3, 1337234, 733512447649788074, 6, 729, 863290590295259075);
    Append(3, 10697878, 863290590295259075, 1, 3, 3825123056546413050);
  }

  lemma Base5()
    ensures Power(5, HALF_ORDER) % COMPOSITE == 1
  {
    hide Power;
    DigitIs(5, 5);
    Append(5, 5, 3125, 0, 1, 325450743106915593);
    Append(5, 40, 325450743106915593, 6, 15625, 2245932430563613191);
    Append(5, 326, 2245932430563613191, 3, 125, 3578681239465739606);
    Append(5, 2611, 3578681239465739606, 6, 15625, 1772242531583990631);
    Append(5, 20894, 1772242531583990631, 2, 25, 3705507540729674968);
    Append(5, 167154, 3705507540729674968, 2, 25, 2621775200532810652);
    Append(5, 1337234, 2621775200532810652, 6, 15625, 1220759244518007619);
    Append(5, 10697878, 1220759244518007619, 1, 5, 1);
  }

  lemma Base7()
    ensures Power(7, HALF_ORDER) % COMPOSITE == 1
  {
    hide Power;
    DigitIs(7, 5);
    Append(7, 5, 16807, 0, 1, 760576185439833774);
    Append(7, 40, 760576185439833774, 6, 117649, 2640720867222032918);
    Append(7, 326, 2640720867222032918, 3, 343, 3575179804176604434);
    Append(7, 2611, 3575179804176604434, 6, 117649, 3781997036958339822);
    Append(7, 20894, 3781997036958339822, 2, 49, 459077880813121198);
    Append(7, 167154, 459077880813121198, 2, 49, 2384678853027209750);
    Append(7, 1337234, 2384678853027209750, 6, 117649, 3801806427540407894);
    Append(7, 10697878, 3801806427540407894, 1, 7, 1);
  }

  lemma Base11()
    ensures Power(11, HALF_ORDER) % COMPOSITE == COMPOSITE - 1
  {
    hide Power;
    DigitIs(11, 5);
    Append(11, 5, 161051, 0, 1, 1185468256645777293);
    Append(11, 40, 1185468256645777293, 6, 1771561, 746976546643495320);
    Append(11, 326, 746976546643495320, 3, 1331, 1290470990912685300);
    Append(11, 2611, 1290470990912685300, 6, 1771561, 1160525521009713104);
    Append(11, 20894, 1160525521009713104, 2, 121, 3145338076444930355);
    Append(11, 167154, 3145338076444930355, 2, 121, 2826908687863696293);
    Append(11, 1337234, 2826908687863696293, 6, 1771561, 2685799658092158917);
    Append(11, 10697878, 2685799658092158917, 1, 11, 3825123056546413050);
  }

  lemma Base13()
    ensures Power(13, HALF_ORDER) % COMPOSITE == 1
  {
    hide Power;
    DigitIs(13, 5);
    Append(13, 5, 371293, 0, 1, 1838240697216191789);
    Append(13, 40, 1838240697216191789, 6, 4826809, 3107296775182127455);
    Append(13, 326, 3107296775182127455, 3, 2197, 2145868785581708204);
    Append(13, 2611, 2145868785581708204, 6, 4826809, 3743006843627342975);
    Append(13, 20894, 3743006843627342975, 2, 169, 2973159040576236888);
    Append(13, 167154, 2973159040576236888, 2, 169, 1558724083383031606);
    Append(13, 1337234, 1558724083383031606, 6, 4826809, 2030632305765924358);
    Append(13, 10697878, 2030632305765924358, 1, 13, 1);
  }

  lemma Base23()
    ensures Power(23, HALF_ORDER) % COMPOSITE == 1
  {
    hide Power;
    DigitIs(23, 5);
    Append(23, 5, 6436343, 0, 1, 3403789911097873324);
    Append(23, 40, 3403789911097873324, 6, 148035889, 3250257750698007519);
    Append(23, 326, 3250257750698007519, 3, 12167, 1923523582828344428);
    Append(23, 2611, 1923523582828344428, 6, 148035889, 960780389890398655);
    Append(23, 20894, 960780389890398655, 2, 529, 509516485481933982);
    Append(23, 167154, 509516485481933982, 2, 529, 3632079225579605305);
    Append(23, 1337234, 3632079225579605305, 6, 148035889, 2084097602963983918);
    Append(23, 10697878, 2084097602963983918, 1, 23, 1);
  }

  lemma {:induction false} OddSign(r: int, k: nat)
    requires (r == 1 || r == -1) && k % 2 == 1
    ensures Power(r, k) == r
  {
    if k > 1 {
      OddSign(r, k - 2);
      assert Power(r, k) == r * (r * Power(r, k - 2));
    }
  }

  /** An odd power of a residue 1 or -1 is that residue. */
  lemma OddPower(a: nat, e: nat, k: nat, n: nat)
    requires n > 1 && k % 2 == 1 && (Power(a, e) % n == 1 || Power(a, e) % n == n - 1)
    ensures Power(a, k * e) % n == Power(a, e) % n
  {
    hide Power;
    var r := if Power(a, e) % n == 1 then 1 else -1;
    MinusOne(n);
    OddSign(r, k);
    PowerOfResidue(a, e, r, k, n);
  }

  lemma MinusOne(n: nat)
    requires n > 1
    ensures -1 % n == n - 1 && 1 % n == 1
  {
    DivModUnique(-1, n, -1, n - 1);
  }

  /** A power 1 or -1 at the half order makes the composite a strong probable prime to that base. */
  lemma PassesBase(a: nat)
    requires Power(a, HALF_ORDER) % COMPOSITE == 1 || Power(a, HALF_ORDER) % COMPOSITE == COMPOSITE - 1
    ensures StrongProbablePrime(COMPOSITE, a)
  {
    hide Power;
    OddPower(a, HALF_ORDER, 22347440141, COMPOSITE);
    assert OddPart(COMPOSITE - 1) == 22347440141 * HALF_ORDER;
    assert TwoPower(COMPOSITE - 1) == 1;
    FirstWitness(COMPOSITE, a);
  }

  /**
   A product of three primes is accepted: it is a strong pseudoprime to all seven bases that the test takes
   for numbers of one limb.
   */
  lemma CompositeAccepted()
    ensures COMPOSITE == 149491 * 747451 * 34233211 && !IsPrime(COMPOSITE) && Accepted(COMPOSITE)
  {
    hide Power, StrongProbablePrime;
    Base2();
    Base3();
    Base5();
    Base7();
    Base11();
    Base13();
    Base23();
    PassesBase(2);
    PassesBase(3);
    PassesBase(5);
    PassesBase(7);
    PassesBase(11);
    PassesBase(13);
    PassesBase(23);
    assert Divides(149491, COMPOSITE);
  }

  /** So a ring of residues modulo a composite passes for a field. */
  method AdmitComposite() returns (r: Admission)
    ensures r.Admitted? && r.k == 62 && Pow2(62) == Limbs(r.n) + COMPOSITE && !IsPrime(COMPOSITE)
  {
    hide Power, Accepted, IsPrime, Pow2;
    CompositeAccepted();
    Powers();
    var n := [786562961880974853];
    OneLimb(n);
    r := PrimeField(62, n);
  }

  lemma OneLimb(n: seq<nat>)
    requires |n| == 1
    ensures Limbs(n) == n[0]
  {
    assert Limbs(n[1..]) == 0;
  }

  lemma Powers()
    ensures Pow2(62) == 786562961880974853 + COMPOSITE && 786562961880974853 < Pow2(61)
  {
    hide Pow2;
    WordIsPow2();
    Double(61);
    Double(62);
    Double(63);
  }

  lemma Double(n: nat)
    ensures Pow2(n + 1) == 2 * Pow2(n)
  {
  }
}
