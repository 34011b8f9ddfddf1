/**
 The 256-bit arithmetic and the Miller-Rabin test that decide whether 2^k - n may become a
 prime field.
 */
module Primality {
  import opened Common
  import opened Numbers
  import opened NumberTheory

  /** Four little-endian 64-bit limbs. */
  type U256 = limbs: seq<nat> | |limbs| == 4 && AreWords(limbs) witness [0, 0, 0, 0]

  ghost function Val(a: U256): nat {
    Limbs(a)
  }

  lemma ValBound(a: U256)
    ensures Val(a) < Pow2(256)
  {
    LimbsBound(a);
  }

  lemma {:induction false} LimbsSnoc(limbs: seq<nat>, x: nat)
    ensures Limbs(limbs + [x]) == Limbs(limbs) + Pow2(64 * |limbs|) * x
  {
    if limbs == [] {
      assert (limbs + [x])[1..] == [];
    } else {
      LimbsSnoc(limbs[1..], x);
      assert (limbs + [x])[1..] == limbs[1..] + [x];
      WordIsPow2();
      Pow2Add(64, 64 * (|limbs| - 1));
      SnocStep(Limbs(limbs[1..]), Pow2(64 * (|limbs| - 1)), x);
    }
  }

  lemma SnocStep(rest: nat, place: nat, x: nat)
    ensures WORD * (rest + place * x) == WORD * rest + WORD * place * x
  {
  }

  /** The number made of the first `i` limbs. */
  ghost function Prefix(a: seq<nat>, i: nat): nat
    requires i <= |a|
  {
    Limbs(a[..i])
  }

  lemma PrefixStep(a: seq<nat>, i: nat)
    requires i < |a|
    ensures Prefix(a, i + 1) == Prefix(a, i) + Pow2(64 * i) * a[i]
  {
    assert a[..i + 1] == a[..i] + [a[i]];
    LimbsSnoc(a[..i], a[i]);
  }

  lemma PrefixEnds(a: U256)
    ensures Prefix(a, 0) == 0 && Prefix(a, 4) == Val(a)
  {
    assert a[..4] == a && a[..0] == [];
  }

  lemma PlaceEnds()
    ensures Limbs([]) == 0 && Pow2(64 * 0) == 1 && Pow2(64 * 4) == Pow2(256)
  {
  }

  lemma PlaceStep(i: nat)
    ensures Pow2(64 * (i + 1)) == WORD * Pow2(64 * i)
  {
    WordIsPow2();
    Pow2Add(64, 64 * i);
  }

  function FromU64(value: nat): (r: U256)
    requires value < WORD
    ensures Val(r) == value
  {
    SingleLimb(value);
    [value, 0, 0, 0]
  }

  lemma SingleLimb(value: nat)
    ensures Limbs([value, 0, 0, 0]) == value
  {
    assert [value, 0, 0, 0][1..] == [0, 0, 0];
    assert [0, 0, 0][1..] == [0, 0];
    assert [0, 0][1..] == [0];
    assert [0][1..] == [];
    assert Limbs([0]) == 0 + WORD * Limbs([0][1..]);
    assert Limbs([0, 0]) == 0 + WORD * Limbs([0, 0][1..]);
    assert Limbs([0, 0, 0]) == 0 + WORD * Limbs([0, 0, 0][1..]);
  }

  predicate IsZero(a: U256)
    ensures IsZero(a) <==> Val(a) == 0
  {
    ZeroLimbs(a);
    forall i | 0 <= i < 4 :: a[i] == 0
  }

  lemma {:induction false} ZeroLimbs(limbs: seq<nat>)
    ensures Limbs(limbs) == 0 <==> forall i | 0 <= i < |limbs| :: limbs[i] == 0
  {
    if limbs != [] {
      ZeroLimbs(limbs[1..]);
    }
  }

  predicate Bit(a: U256, index: nat)
    ensures Bit(a, index) <==> Val(a) / Pow2(index) % 2 == 1
  {
    LimbBitIsDigit(a, index);
    LimbBit(a, index)
  }

  datatype Ordering = Less | Equal | Greater

  function Order(a: int, b: int): Ordering {
    if a < b then Less else if a == b then Equal else Greater
  }

  /** Compare from the most significant of the first `n` limbs down. */
  function CompareFrom(a: seq<nat>, b: seq<nat>, n: nat): (r: Ordering)
    requires |a| == |b| && n <= |a| && AreWords(a) && AreWords(b)
    ensures r == Order(Prefix(a, n), Prefix(b, n))
  {
    if n == 0 then Equal
    else
      CompareStep(a, b, n - 1);
      if a[n - 1] != b[n - 1] then Order(a[n - 1], b[n - 1]) else CompareFrom(a, b, n - 1)
  }

  lemma CompareStep(a: seq<nat>, b: seq<nat>, i: nat)
    requires |a| == |b| && i < |a| && AreWords(a) && AreWords(b)
    ensures Order(Prefix(a, i + 1), Prefix(b, i + 1))
      == if a[i] != b[i] then Order(a[i], b[i]) else Order(Prefix(a, i), Prefix(b, i))
  {
    PrefixStep(a, i);
    PrefixStep(b, i);
    LimbsBound(a[..i]);
    LimbsBound(b[..i]);
    OrderByTop(Prefix(a, i), Prefix(b, i), Pow2(64 * i), a[i], b[i]);
  }

  lemma OrderByTop(lowA: nat, lowB: nat, place: nat, x: nat, y: nat)
    requires lowA < place && lowB < place
    ensures Order(lowA + place * x, lowB + place * y) == if x != y then Order(x, y) else Order(lowA, lowB)
  {
    if x < y {
      OneBlockApart(place, x, y);
    } else if y < x {
      OneBlockApart(place, y, x);
    }
  }

  lemma OneBlockApart(place: nat, x: nat, y: nat)
    requires x < y
    ensures place * x + place <= place * y
  {
    MulMonotone(x + 1, y, place);
    Distribute(place, x, 1);
  }

  function Cmp(a: U256, b: U256): (r: Ordering)
    ensures r == Order(Val(a), Val(b))
  {
    assert a[..4] == a && b[..4] == b;
    CompareFrom(a, b, 4)
  }

  // ---------------------------------------------------------------- carries and borrows

  method Add(a: U256, b: U256) returns (out: U256, carried: bool)
    ensures Val(out) + (if carried then Pow2(256) else 0) == Val(a) + Val(b)
  {
    var acc: seq<nat> := [];
    var carry: nat := 0;
    for i := 0 to 4
      invariant |acc| == i && AreWords(acc) && carry <= 1
      invariant Limbs(acc) + Pow2(64 * i) * carry == Prefix(a, i) + Prefix(b, i)
    {
      var sum := carry + a[i] + b[i];
      ghost var before := acc;
      PrefixStep(a, i);
      PrefixStep(b, i);
      PlaceStep(i);
      LimbsSnoc(acc, sum % WORD);
      CarryStep(Limbs(acc), Pow2(64 * i), carry, a[i], b[i], Prefix(a, i) + Prefix(b, i));
      acc := acc + [sum % WORD];
      carry := sum / WORD;
    }
    assert a[..4] == a && b[..4] == b;
    out, carried := acc, carry != 0;
  }

  lemma CarryStep(low: nat, place: nat, carry: nat, x: nat, y: nat, total: nat)
    requires low + place * carry == total && carry <= 1 && x < WORD && y < WORD
    ensures var sum := carry + x + y;
            low + place * (sum % WORD) + WORD * place * (sum / WORD) == total + place * x + place * y
    ensures (carry + x + y) / WORD <= 1
  {
    var sum := carry + x + y;
    var q, r := sum / WORD, sum % WORD;
    assert sum == q * WORD + r;
    calc {
      place * r + WORD * place * q;
      place * (r + WORD * q);
      place * sum;
      place * carry + place * x + place * y;
    }
  }

  /** Wrapping subtraction. */
  method Sub(a: U256, b: U256) returns (out: U256)
    ensures Val(out) == Val(a) - Val(b) + (if Val(a) < Val(b) then Pow2(256) else 0)
  {
    hide Limbs, Pow2, Prefix;
    PrefixEnds(a);
    PrefixEnds(b);
    PlaceEnds();
    var acc: seq<nat> := [];
    var borrow: nat := 0;
    for i := 0 to 4
      invariant |acc| == i && AreWords(acc) && borrow <= 1
      invariant Limbs(acc) == Prefix(a, i) - Prefix(b, i) + Pow2(64 * i) * borrow
    {
      var diff := a[i] - b[i] - borrow;
      var limb := if diff < 0 then diff + WORD else diff;
      PrefixStep(a, i);
      PrefixStep(b, i);
      PlaceStep(i);
      LimbsSnoc(acc, limb);
      BorrowLimb(Pow2(64 * i), borrow, a[i], b[i]);
      acc := acc + [limb];
      borrow := if diff < 0 then 1 else 0;
    }
    out := acc;
    ValBound(out);
    ValBound(a);
    ValBound(b);
  }

  lemma BorrowLimb(place: nat, borrow: nat, x: nat, y: nat)
    requires borrow <= 1 && x < WORD && y < WORD
    ensures var diff := x - y - borrow;
            var limb := if diff < 0 then diff + WORD else diff;
            && 0 <= limb < WORD
            && place * borrow + place * limb == place * x - place * y + WORD * place * (if diff < 0 then 1 else 0)
  {
    var diff := x - y - borrow;
    calc {
      place * diff;
      place * x - place * y - place * borrow;
    }
    Distribute(place, diff, WORD);
  }

  // ---------------------------------------------------------------- arithmetic mod m

  method AddMod(a: U256, b: U256, modulus: U256) returns (out: U256)
    requires Val(a) < Val(modulus) && Val(b) < Val(modulus)
    ensures Val(out) == (Val(a) + Val(b)) % Val(modulus)
  {
    var gap := Sub(modulus, b);
    if Cmp(a, gap) != Less {
      out := Sub(a, gap);
      DivModUnique(Val(a) + Val(b), Val(modulus), 1, Val(out));
    } else {
      var carried;
      out, carried := Add(a, b);
      ValBound(modulus);
      SmallMod(Val(a) + Val(b), Val(modulus));
    }
  }

  /** `other.0[bit / 64] &= !(1 << (bit % 64))`. */
  function ClearBit(a: U256, bit: nat): (r: U256)
    requires bit < 256
    ensures Val(r) == Val(a) - (if Bit(a, bit) then Pow2(bit) else 0)
  {
    ClearBitValue(a, bit);
    a[bit / 64 := ClearLimb(a[bit / 64], Pow2(bit % 64))]
  }

  lemma ClearBitValue(a: U256, bit: nat)
    requires bit < 256
    ensures Limbs(a[bit / 64 := ClearLimb(a[bit / 64], Pow2(bit % 64))]) == Val(a) - (if Bit(a, bit) then Pow2(bit) else 0)
  {
    hide Limbs, Pow2;
    var limb, place, unit := a[bit / 64], Pow2(bit % 64), Pow2(64 * (bit / 64));
    LimbUpdate(a, bit / 64, ClearLimb(limb, place));
    Pow2Add(64 * (bit / 64), bit % 64);
    assert 64 * (bit / 64) + bit % 64 == bit;
    SubtractPlace(Val(a), unit, limb, place);
    LimbBitIsDigit(a, bit);
  }

  lemma SubtractPlace(v: int, unit: nat, limb: nat, place: int)
    ensures v + unit * (limb - place) - unit * limb == v - unit * place
  {
  }

  function ClearLimb(limb: nat, place: nat): (r: nat)
    requires place > 0
    ensures r == if limb / place % 2 == 1 then limb - place else limb
  {
    if limb / place % 2 == 1 then
      assert limb >= place by {
        if limb < place {
          SmallMod(limb, place);
        }
      }
      limb - place
    else limb
  }

  lemma {:induction false} LimbUpdate(limbs: seq<nat>, i: nat, x: nat)
    requires i < |limbs|
    ensures Limbs(limbs[i := x]) == Limbs(limbs) + Pow2(64 * i) * x - Pow2(64 * i) * limbs[i]
  {
    if i == 0 {
      assert limbs[0 := x][1..] == limbs[1..];
    } else {
      assert limbs[i := x][1..] == limbs[1..][i - 1 := x];
      LimbUpdate(limbs[1..], i - 1, x);
      PlaceStep(i - 1);
      UpdateStep(Limbs(limbs[1..]), Pow2(64 * (i - 1)), x, limbs[i]);
    }
  }

  lemma UpdateStep(rest: nat, place: nat, x: nat, y: nat)
    ensures WORD * (rest + place * x - place * y) == WORD * rest + WORD * place * x - WORD * place * y
  {
  }

  /** What is left of `e` once its `bit` low bits are cleared. */
  ghost function Above(e: nat, bit: nat): int {
    e / Pow2(bit) * Pow2(bit)
  }

  lemma AboveStep(e: nat, bit: nat)
    ensures Above(e, bit) / Pow2(bit) % 2 == e / Pow2(bit) % 2
    ensures Above(e, bit + 1) == Above(e, bit) - (if e / Pow2(bit) % 2 == 1 then Pow2(bit) else 0)
    ensures e % Pow2(bit + 1) == e % Pow2(bit) + (if e / Pow2(bit) % 2 == 1 then Pow2(bit) else 0)
  {
    DivModUnique(Above(e, bit), Pow2(bit), e / Pow2(bit), 0);
    ModStep(e, Pow2(bit));
    AboveIsRest(e, bit);
    AboveIsRest(e, bit + 1);
  }

  lemma AboveIsRest(e: nat, bit: nat)
    ensures Above(e, bit) == e - e % Pow2(bit)
  {
    assert e == e / Pow2(bit) * Pow2(bit) + e % Pow2(bit);
  }

  /** `MulMod` after `bit` rounds: the low bits of `e` are used up, `base` is `x * 2^bit`. */
  ghost predicate MulRound(x: nat, e: nat, m: nat, bit: nat, acc: nat, base: nat, rest: nat)
    requires m > 0
  {
    rest == Above(e, bit) && acc == x * (e % Pow2(bit)) % m && base == x * Pow2(bit) % m
  }

  lemma MulRoundStep(x: nat, e: nat, m: nat, bit: nat, acc: nat, base: nat, rest: nat)
    requires m > 0 && MulRound(x, e, m, bit, acc, base, rest)
    ensures var isSet := rest / Pow2(bit) % 2 == 1;
            && (isSet ==> rest >= Pow2(bit))
            && MulRound(x, e, m, bit + 1, if isSet then (acc + base) % m else acc, (base + base) % m,
                 if isSet then rest - Pow2(bit) else rest)
  {
    AboveStep(e, bit);
    var p := Pow2(bit);
    if rest < p {
      SmallMod(rest, p);
    }
    AddProducts(x, p, p, m);
    AddProducts(x, e % p, p, m);
  }

  lemma AddProducts(x: nat, a: nat, b: nat, m: nat)
    requires m > 0
    ensures (x * a % m + x * b % m) % m == x * (a + b) % m
  {
    AddModReduce(x * a, x * b % m, m);
    AddModReduce(x * a, x * b, m);
    Distribute(x, a, b);
  }

  method MulMod(a: U256, b: U256, modulus: U256) returns (acc: U256)
    requires Val(a) < Val(modulus)
    ensures Val(acc) == Val(a) * Val(b) % Val(modulus) < Val(modulus)
  {
    ghost var m, x, e := Val(modulus), Val(a), Val(b);
    acc := FromU64(0);
    var base, other := a, b;
    RoundsStart(x, e, m);
    for bit := 0 to 256
      invariant MulRound(x, e, m, bit, Val(acc), Val(base), Val(other))
    {
      MulRoundStep(x, e, m, bit, Val(acc), Val(base), Val(other));
      if Bit(other, bit) {
        acc := AddMod(acc, base, modulus);
      }
      other := ClearBit(other, bit);
      base := AddMod(base, base, modulus);
      if IsZero(other) {
        RoundsEnd(e, bit + 1);
        return;
      }
    }
    ValBound(b);
    SmallMod(e, Pow2(256));
  }

  lemma RoundsStart(x: nat, e: nat, m: nat)
    requires m > x
    ensures MulRound(x, e, m, 0, 0, x, e)
  {
    SmallMod(0, m);
    SmallMod(x, m);
    DivModUnique(e, 1, e, 0);
  }

  lemma RoundsEnd(e: nat, bit: nat)
    requires Above(e, bit) == 0
    ensures e % Pow2(bit) == e
  {
    assert e == e / Pow2(bit) * Pow2(bit) + e % Pow2(bit);
  }

  /** `PowMod` after `bit` rounds: the low bits of `e` are used up, `base` is `x^(2^bit)`. */
  ghost predicate PowRound(x: nat, e: nat, m: nat, bit: nat, acc: nat, base: nat, rest: nat)
    requires m > 0
  {
    rest == Above(e, bit) && acc == Power(x, e % Pow2(bit)) % m && base == Power(x, Pow2(bit)) % m
  }

  lemma PowRoundStep(x: nat, e: nat, m: nat, bit: nat, acc: nat, base: nat, rest: nat)
    requires m > 0 && PowRound(x, e, m, bit, acc, base, rest)
    ensures var isSet := rest / Pow2(bit) % 2 == 1;
            && (isSet ==> rest >= Pow2(bit))
            && PowRound(x, e, m, bit + 1, if isSet then acc * base % m else acc, base * base % m,
                 if isSet then rest - Pow2(bit) else rest)
  {
    AboveStep(e, bit);
    var p := Pow2(bit);
    if rest < p {
      SmallMod(rest, p);
    }
    MultiplyPowers(x, p, p, m);
    MultiplyPowers(x, e % p, p, m);
  }

  lemma MultiplyPowers(x: nat, a: nat, b: nat, m: nat)
    requires m > 0
    ensures (Power(x, a) % m) * (Power(x, b) % m) % m == Power(x, a + b) % m
  {
    PowerAdd(x, a, b);
    MulModReduce(Power(x, a), Power(x, b) % m, m);
    MulModReduce(Power(x, a), Power(x, b), m);
  }

  method PowMod(a: U256, exp: U256, modulus: U256) returns (acc: U256)
    requires Val(a) < Val(modulus) && Val(modulus) > 1
    ensures Val(acc) == Power(Val(a), Val(exp)) % Val(modulus) < Val(modulus)
  {
    ghost var m, x, e := Val(modulus), Val(a), Val(exp);
    acc := FromU64(1);
    var base, rest := a, exp;
    PowersStart(x, e, m);
    for bit := 0 to 256
      invariant PowRound(x, e, m, bit, Val(acc), Val(base), Val(rest))
    {
      PowRoundStep(x, e, m, bit, Val(acc), Val(base), Val(rest));
      if Bit(rest, bit) {
        acc := MulMod(acc, base, modulus);
      }
      rest := ClearBit(rest, bit);
      base := MulMod(base, base, modulus);
      if IsZero(rest) {
        RoundsEnd(e, bit + 1);
        return;
      }
    }
    ValBound(exp);
    SmallMod(e, Pow2(256));
  }

  lemma PowersStart(x: nat, e: nat, m: nat)
    requires m > 1 && m > x
    ensures PowRound(x, e, m, 0, 1, x, e)
  {
    SmallMod(1, m);
    SmallMod(x, m);
    DivModUnique(e, 1, e, 0);
    assert Power(x, 1) == x * Power(x, 0);
  }

  function Shr1(a: U256): (r: U256)
    ensures Val(r) == Val(a) / 2
  {
    ShiftRight(a);
    var r := seq(4, i requires 0 <= i < 4 => a[i] / 2 + (if i + 1 < 4 then a[i + 1] % 2 * 0x8000_0000_0000_0000 else 0));
    r
  }

  lemma ShiftRight(a: U256)
    ensures var r := seq(4, i requires 0 <= i < 4 => a[i] / 2 + (if i + 1 < 4 then a[i + 1] % 2 * 0x8000_0000_0000_0000 else 0));
            AreWords(r) && Limbs(r) == Val(a) / 2
  {
    var r: seq<nat> := seq(4, i requires 0 <= i < 4 => a[i] / 2 + (if i + 1 < 4 then a[i + 1] % 2 * 0x8000_0000_0000_0000 else 0));
    Unroll(a);
    Unroll(r);
    assert WORD == 2 * 0x8000_0000_0000_0000;
  }

  lemma Unroll(a: seq<nat>)
    requires |a| == 4
    ensures Limbs(a) == a[0] + WORD * (a[1] + WORD * (a[2] + WORD * a[3]))
  {
    assert a[1..][1..] == a[2..] && a[2..][1..] == a[3..] && a[3..][1..] == [];
    assert Limbs(a[3..]) == a[3] + WORD * Limbs(a[3..][1..]);
    assert Limbs(a[2..]) == a[2] + WORD * Limbs(a[2..][1..]);
    assert Limbs(a[1..]) == a[1] + WORD * Limbs(a[1..][1..]);
  }

  // ---------------------------------------------------------------- Miller-Rabin

  function TwoPower(m: nat): nat
    requires m > 0
  {
    if m % 2 == 1 then 0 else 1 + TwoPower(m / 2)
  }

  function OddPart(m: nat): (r: nat)
    requires m > 0
    ensures r > 0
  {
    if m % 2 == 1 then m else OddPart(m / 2)
  }

  lemma {:induction false} OddPartSplits(m: nat)
    requires m > 0
    ensures m == OddPart(m) * Pow2(TwoPower(m))
    ensures m % 2 == 0 ==> TwoPower(m) >= 1
  {
    if m % 2 == 0 {
      OddPartSplits(m / 2);
      assert Pow2(TwoPower(m)) == 2 * Pow2(TwoPower(m / 2));
      assert OddPart(m) * (2 * Pow2(TwoPower(m / 2))) == 2 * (OddPart(m) * Pow2(TwoPower(m / 2)));
    }
  }

  /** `a^(d * 2^r) mod n`, where `n - 1 = d * 2^s`. */
  function Witness(n: nat, a: nat, r: nat): nat
    requires n > 1
  {
    Power(a, OddPart(n - 1) * Pow2(r)) % n
  }

  /** `n` is a strong probable prime to base `a`. */
  predicate StrongProbablePrime(n: nat, a: nat)
    requires n > 1
  {
    Witness(n, a, 0) == 1 || exists r | 0 <= r < TwoPower(n - 1) :: Witness(n, a, r) == n - 1
  }

  lemma WitnessSquares(n: nat, a: nat, r: nat)
    requires n > 1
    ensures Witness(n, a, r) * Witness(n, a, r) % n == Witness(n, a, r + 1) < n
  {
    var e := OddPart(n - 1) * Pow2(r);
    MultiplyPowers(a, e, e, n);
    assert OddPart(n - 1) * (2 * Pow2(r)) == e + e;
  }

  lemma FirstWitness(n: nat, a: nat)
    requires n > 1
    ensures Witness(n, a, 0) == Power(a, OddPart(n - 1)) % n < n
  {
    assert OddPart(n - 1) * Pow2(0) == OddPart(n - 1);
  }

  /** Walking back from `a^(p-1) = 1`: a value other than 1 and -1 never squares to 1. */
  lemma {:induction false} NoOtherRoot(p: nat, a: nat, r: nat)
    requires IsPrime(p) && Witness(p, a, 0) != 1
    requires forall q | 0 <= q <= r :: Witness(p, a, q) != p - 1
    ensures Witness(p, a, r + 1) != 1
  {
    if r > 0 {
      NoOtherRoot(p, a, r - 1);
    }
    WitnessSquares(p, a, r);
    if Witness(p, a, r + 1) == 1 {
      SquareRootsOfOne(p, Witness(p, a, r));
    }
  }

  /** Every odd prime passes, for every base it does not divide. */
  lemma PrimesPass(p: nat, a: nat)
    requires IsPrime(p) && p > 2 && a % p != 0
    ensures StrongProbablePrime(p, a)
  {
    assert !Divides(2, p);
    OddPartSplits(p - 1);
    FermatLittle(p, a);
    var s := TwoPower(p - 1);
    assert Witness(p, a, s) == 1;
    if Witness(p, a, 0) != 1 && forall q | 0 <= q < s :: Witness(p, a, q) != p - 1 {
      NoOtherRoot(p, a, s - 1);
    }
  }

  function BaseList(oneWord: bool): (r: seq<nat>)
    ensures AreWords(r)
  {
    if oneWord then [2, 3, 5, 7, 11, 13, 23] else [2, 3, 5, 7, 11, 13, 17, 19, 23, 29, 31, 37]
  }

  /** The base list the test uses for `n`. */
  function Bases(n: nat): seq<nat> {
    BaseList(n <= WORD - 1)
  }

  /** What `IsPrimeTest` decides. */
  predicate Accepted(n: nat) {
    n == 2 || n == 3 ||
    (n > 3 && n % 2 == 1 && forall i | 0 <= i < |Bases(n)| && Bases(n)[i] < n :: StrongProbablePrime(n, Bases(n)[i]))
  }

  lemma PrimesAreAccepted(p: nat)
    requires IsPrime(p)
    ensures Accepted(p)
  {
    if p > 3 {
      assert !Divides(2, p);
      forall i | 0 <= i < |Bases(p)| && Bases(p)[i] < p ensures StrongProbablePrime(p, Bases(p)[i]) {
        SmallMod(Bases(p)[i], p);
        PrimesPass(p, Bases(p)[i]);
      }
    }
  }

  /** Split `p - 1` into its odd part and a power of two. */
  method SplitOdd(m: U256) returns (d: U256, s: nat)
    requires Val(m) > 0
    ensures Val(d) == OddPart(Val(m)) && s == TwoPower(Val(m))
  {
    d, s := m, 0;
    Bit0(d);
    while !Bit(d, 0)
      invariant Val(d) > 0 && OddPart(Val(d)) == OddPart(Val(m)) && s + TwoPower(Val(d)) == TwoPower(Val(m))
      decreases Val(d)
    {
      Bit0(d);
      d := Shr1(d);
      s := s + 1;
    }
    Bit0(d);
  }

  lemma Bit0(a: U256)
    ensures Bit(a, 0) <==> Val(a) % 2 == 1
  {
    DivModUnique(Val(a), 1, Val(a), 0);
  }

  /** One base's strong test: `x` runs through the witnesses. */
  method TestBase(p: U256, a: U256, d: U256, s: nat) returns (pass: bool)
    requires Val(p) > 3 && Val(p) % 2 == 1 && Val(a) < Val(p)
    requires Val(d) == OddPart(Val(p) - 1) && s == TwoPower(Val(p) - 1)
    ensures pass <==> StrongProbablePrime(Val(p), Val(a))
  {
    hide Limbs, Val, Witness, OddPart, TwoPower, FromU64, Cmp, Power, Pow2;
    ghost var n, b := Val(p), Val(a);
    var one := FromU64(1);
    var minusOne := Sub(p, one);
    OddPartSplits(n - 1);
    var x := PowMod(a, d, p);
    FirstWitness(n, b);
    if Cmp(x, one) == Equal || Cmp(x, minusOne) == Equal {
      return true;
    }
    for r := 1 to s
      invariant Val(x) == Witness(n, b, r - 1) < n
      invariant forall q | 0 <= q < r :: Witness(n, b, q) != n - 1
    {
      WitnessSquares(n, b, r - 1);
      x := MulMod(x, x, p);
      if Cmp(x, minusOne) == Equal {
        return true;
      }
    }
    pass := false;
  }

  method TestBases(p: U256, d: U256, s: nat, bases: seq<nat>) returns (pass: bool)
    requires Val(p) > 3 && Val(p) % 2 == 1 && AreWords(bases)
    requires Val(d) == OddPart(Val(p) - 1) && s == TwoPower(Val(p) - 1)
    ensures pass <==> forall i | 0 <= i < |bases| && bases[i] < Val(p) :: StrongProbablePrime(Val(p), bases[i])
  {
    hide Limbs, Val, OddPart, TwoPower, FromU64, Cmp, StrongProbablePrime;
    for i := 0 to |bases|
      invariant forall j | 0 <= j < i && bases[j] < Val(p) :: StrongProbablePrime(Val(p), bases[j])
    {
      var a := FromU64(bases[i]);
      if Cmp(a, p) == Less {
        var ok := TestBase(p, a, d, s);
        if !ok {
          return false;
        }
      }
    }
    pass := true;
  }

  method IsPrimeTest(p: U256) returns (r: bool)
    ensures r <==> Accepted(Val(p))
  {
    hide Limbs, Val, OddPart, TwoPower, FromU64, Cmp, StrongProbablePrime, Bit;
    var two, three, one := FromU64(2), FromU64(3), FromU64(1);
    if Cmp(p, two) == Less {
      return false;
    }
    if Cmp(p, two) == Equal || Cmp(p, three) == Equal {
      return true;
    }
    Bit0(p);
    if !Bit(p, 0) {
      return false;
    }
    var m := Sub(p, one);
    var d, s := SplitOdd(m);
    var bases := BaseList(Cmp(p, FromU64(WORD - 1)) != Greater);
    assert bases == Bases(Val(p));
    r := TestBases(p, d, s, bases);
  }

  // ---------------------------------------------------------------- admitting a prime field

  datatype PrimeFieldError = BitLength | NotCanonical | Composite

  datatype Admission = Admitted(k: nat, n: seq<nat>) | Refused(error: PrimeFieldError)

  /** `limbs` carries no high zero limb. */
  ghost predicate Trimmed(limbs: seq<nat>) {
    |limbs| > 0 ==> limbs[|limbs| - 1] != 0
  }

  method Trim(n: seq<nat>) returns (limbs: seq<nat>)
    requires AreWords(n)
    ensures AreWords(limbs) && Trimmed(limbs) && Limbs(limbs) == Limbs(n)
  {
    limbs := n;
    while |limbs| > 0 && limbs[|limbs| - 1] == 0
      invariant AreWords(limbs) && Limbs(limbs) == Limbs(n)
      decreases |limbs|
    {
      assert limbs == limbs[..|limbs| - 1] + [0];
      LimbsSnoc(limbs[..|limbs| - 1], 0);
      limbs := limbs[..|limbs| - 1];
    }
  }

  lemma TopLimb(limbs: seq<nat>)
    requires AreWords(limbs) && |limbs| > 0
    ensures var place := Pow2(64 * (|limbs| - 1));
            place * limbs[|limbs| - 1] <= Limbs(limbs) < place * limbs[|limbs| - 1] + place
  {
    var low := limbs[..|limbs| - 1];
    assert limbs == low + [limbs[|limbs| - 1]];
    LimbsSnoc(low, limbs[|limbs| - 1]);
    LimbsBound(low);
  }

  function LessThanPow2(limbs: seq<nat>, exp: nat): (r: bool)
    requires AreWords(limbs) && Trimmed(limbs) && |limbs| > 0
    ensures r <==> Limbs(limbs) < Pow2(exp)
  {
    LessThanPow2IsRight(limbs, exp);
    var limbLimit := exp / 64;
    if |limbs| > limbLimit + 1 then false
    else if |limbs| <= limbLimit then true
    else limbs[limbLimit] < (if exp % 64 == 0 then 0 else Pow2(exp % 64))
  }

  lemma LessThanPow2IsRight(limbs: seq<nat>, exp: nat)
    requires AreWords(limbs) && Trimmed(limbs) && |limbs| > 0
    ensures Limbs(limbs) < Pow2(exp) <==>
      |limbs| <= exp / 64 || (|limbs| == exp / 64 + 1 && limbs[exp / 64] < (if exp % 64 == 0 then 0 else Pow2(exp % 64)))
  {
    var limit := exp / 64;
    TopLimb(limbs);
    var place, top := Pow2(64 * (|limbs| - 1)), limbs[|limbs| - 1];
    MulMonotone(1, top, place);
    if |limbs| > limit + 1 {
      Pow2Monotone(exp, 64 * (|limbs| - 1));
    } else if |limbs| <= limit {
      LimbsBound(limbs);
      Pow2Monotone(64 * |limbs|, exp);
    } else {
      Pow2Add(64 * limit, exp % 64);
      assert 64 * limit + exp % 64 == exp;
      TopDecides(Limbs(limbs), place, top, Pow2(exp % 64));
    }
  }

  lemma TopDecides(v: nat, place: nat, top: nat, bound: nat)
    requires place * top <= v < place * top + place
    ensures v < place * bound <==> top < bound
  {
    if top < bound {
      MulMonotone(top + 1, bound, place);
    } else {
      MulMonotone(bound, top, place);
    }
  }

  function Pad(limbs: seq<nat>): (r: U256)
    requires AreWords(limbs) && |limbs| <= 4
    ensures Val(r) == Limbs(limbs)
  {
    PadValue(limbs, 4 - |limbs|);
    assert limbs + Zeros(4 - |limbs|) == seq(4, i requires 0 <= i => if i < |limbs| then limbs[i] else 0);
    seq(4, i requires 0 <= i => if i < |limbs| then limbs[i] else 0)
  }

  function Zeros(n: nat): seq<nat> {
    seq(n, i => 0)
  }

  lemma {:induction false} PadValue(limbs: seq<nat>, n: nat)
    ensures Limbs(limbs + Zeros(n)) == Limbs(limbs)
  {
    if n == 0 {
      assert limbs + Zeros(0) == limbs;
    } else {
      PadValue(limbs, n - 1);
      assert limbs + Zeros(n) == (limbs + Zeros(n - 1)) + [0];
      LimbsSnoc(limbs + Zeros(n - 1), 0);
    }
  }

  /** The limb vector with only bit `k` set. */
  function SingleBit(k: nat): (r: U256)
    requires k < 256
    ensures Val(r) == Pow2(k)
  {
    SingleBitValue(k);
    [0, 0, 0, 0][k / 64 := Pow2(k % 64)]
  }

  lemma SingleBitValue(k: nat)
    requires k < 256
    ensures AreWords([0, 0, 0, 0][k / 64 := Pow2(k % 64)])
    ensures Limbs([0, 0, 0, 0][k / 64 := Pow2(k % 64)]) == Pow2(k)
  {
    WordIsPow2();
    Pow2Monotone(k % 64, 63);
    LimbUpdate([0, 0, 0, 0], k / 64, Pow2(k % 64));
    SingleLimb(0);
    Pow2Add(64 * (k / 64), k % 64);
  }

  /** `2^k - n`; at `k = 256` it is the wrapped negation of `n`. */
  method Modulus(k: nat, n: seq<nat>) returns (p: U256)
    requires 2 <= k <= 256 && AreWords(n) && Trimmed(n) && 0 < Limbs(n) < Pow2(k - 1)
    ensures Val(p) == Pow2(k) - Limbs(n)
  {
    ModulusFits(k, n);
    if k == 256 {
      p := Sub(FromU64(0), Pad(n));
    } else {
      p := Sub(SingleBit(k), Pad(n));
    }
  }

  lemma ModulusFits(k: nat, n: seq<nat>)
    requires 2 <= k <= 256 && AreWords(n) && Trimmed(n) && 0 < Limbs(n) < Pow2(k - 1)
    ensures |n| <= 4
  {
    LessThanPow2IsRight(n, k - 1);
  }

  /**
   Which `(k, n)` become a field. A refusal as composite is never wrong; the converse is
   what Miller-Rabin does not promise.
   */
  method PrimeField(k: nat, n: seq<nat>) returns (r: Admission)
    requires AreWords(n)
    ensures r == Refused(BitLength) <==> !(2 <= k <= 256)
    ensures r == Refused(NotCanonical) <==> 2 <= k <= 256 && !(0 < Limbs(n) < Pow2(k - 1))
    ensures r == Refused(Composite) ==> !IsPrime(Pow2(k) - Limbs(n))
    ensures r.Admitted? <==> 2 <= k <= 256 && 0 < Limbs(n) < Pow2(k - 1) && Accepted(Pow2(k) - Limbs(n))
    ensures r.Admitted? ==> r.k == k && Trimmed(r.n) && Limbs(r.n) == Limbs(n) && Accepted(Pow2(k) - Limbs(n))
  {
    if !(2 <= k <= 256) {
      return Refused(BitLength);
    }
    var limbs := Trim(n);
    if |limbs| == 0 || !LessThanPow2(limbs, k - 1) {
      return Refused(NotCanonical);
    }
    ZeroLimbs(limbs);
    var p := Modulus(k, limbs);
    var prime := IsPrimeTest(p);
    if !prime {
      if IsPrime(Val(p)) {
        PrimesAreAccepted(Val(p));
      }
      return Refused(Composite);
    }
    r := Admitted(k, limbs);
  }
}
