/**
 When a shift of limbs is the shift of the number: the limbs of shifted numbers, and the counts
 at which the emitted code joins a whole limb that it should not.
 */
module WasmShiftExact {
  import opened Common
  import opened Numbers
  import opened WasmMachine
  import opened BlockProgram
  import opened WasmLimbs
  import opened WasmConvert
  import opened WasmShift

  // ---------------------------------------------------------------- the limbs of a number

  lemma DivDiv(x: nat, a: nat, b: nat)
    requires a > 0 && b > 0
    ensures a * b > 0 && x / a / b == x / (a * b)
  {
    MulMonotone(1, a, b);
    var r, q := x % a, x / a;
    var s, t := q % b, q / b;
    assert x == t * (a * b) + (s * a + r) by {
      assert x == q * a + r && q == t * b + s;
      assert q * a == (t * b + s) * a == t * b * a + s * a;
      assert t * b * a == t * (a * b);
    }
    MulMonotone(s + 1, b, a);
    DivModUnique(x, a * b, t, s * a + r);
  }

  lemma {:induction false} LimbAt(v: nat, n: nat, i: nat)
    requires i < n
    ensures ToLimbs(v, n)[i] == V64(v / Pow2(64 * i) % WORD)
    decreases n
  {
    hide Pow2;
    if i > 0 {
      LimbAt(v / WORD, n - 1, i - 1);
      WordIsPow2();
      Pow2Add(64, 64 * (i - 1));
      DivDiv(v, WORD, Pow2(64 * (i - 1)));
    } else {
      SmallPowers();
    }
  }

  /** Dropping limbs is dividing. */
  lemma {:induction false} WideFrom(xs: seq<Val>, j: nat)
    requires j <= |xs| && AllTyped(xs, true)
    ensures WideNumber(xs) / Pow2(64 * j) == WideNumber(xs[j..])
    decreases j
  {
    hide Pow2;
    if j > 0 {
      assert Typed(xs[0], true) && AllTyped(xs[1..], true);
      WideFrom(xs[1..], j - 1);
      assert xs[1..][j - 1..] == xs[j..];
      WordIsPow2();
      Pow2Add(64, 64 * (j - 1));
      DivShift(Raw(xs[0]), WideNumber(xs[1..]), WORD, Pow2(64 * (j - 1)));
    } else {
      SmallPowers();
      assert xs[0..] == xs;
    }
  }

  /** Limb `j`, zero beyond the last. */
  function LimbOr0(xs: seq<Val>, j: int): nat {
    if 0 <= j < |xs| then Raw(xs[j]) else 0
  }

  lemma WideStep(xs: seq<Val>, j: nat)
    requires j <= |xs| && AllTyped(xs, true)
    ensures LimbOr0(xs, j) < WORD
    ensures exists z: nat :: WideNumber(xs[j..]) == LimbOr0(xs, j) + WORD * z && (j + 1 <= |xs| ==> z == WideNumber(xs[j + 1..]))
  {
    if j < |xs| {
      assert Typed(xs[j], true) && xs[j..][1..] == xs[j + 1..];
      assert WideNumber(xs[j..]) == LimbOr0(xs, j) + WORD * WideNumber(xs[j + 1..]);
    } else {
      assert WideNumber(xs[j..]) == LimbOr0(xs, j) + WORD * 0;
    }
  }

  // ---------------------------------------------------------------- one limb of a shifted number

  /** Shifted down by a factor `p` of the word: bits of the next limb come in at the top. */
  lemma DownLimb(x: nat, y: nat, z: nat, p: nat, s: nat)
    requires p > 0 && s > 0 && p * s == WORD && x < WORD
    ensures (x + WORD * (y + WORD * z)) / p % WORD == x / p + y * s % WORD
    ensures x / p < s && y * s % WORD % s == 0
  {
    QuotientBelow(x, p, s);
    ScaledRemainder(y, p, s);
    DownQuotient(x, y + WORD * z, p, s);
    DownSum(x / p, y, z, p, s);
  }

  lemma DownQuotient(x: nat, m: nat, p: nat, s: nat)
    requires p > 0 && p * s == WORD
    ensures (x + WORD * m) / p == x / p + s * m
  {
    assert WORD * m == (p * s) * m == (s * m) * p;
    assert (x / p + s * m) * p == x / p * p + (s * m) * p;
    DivModUnique(x + WORD * m, p, x / p + s * m, x % p);
  }

  lemma DownSum(h: nat, y: nat, z: nat, p: nat, s: nat)
    requires p > 0 && s > 0 && p * s == WORD && h < s
    ensures (h + s * (y + WORD * z)) % WORD == h + y * s % WORD
  {
    ScaledRemainder(y, p, s);
    var t := y % p * s;
    assert s * (y + WORD * z) == s * y + (s * z) * WORD by {
      Distribute(s, y, WORD * z);
    }
    assert (s * z + y / p) * WORD == (s * z) * WORD + y / p * WORD;
    DivModUnique(h + s * (y + WORD * z), WORD, s * z + y / p, h + t);
  }

  lemma QuotientBelow(x: nat, p: nat, s: nat)
    requires p > 0 && x < p * s
    ensures x / p < s
  {
    if x / p >= s {
      MulMonotone(s, x / p, p);
    }
  }

  lemma ScaledRemainder(y: nat, p: nat, s: nat)
    requires p > 0 && s > 0 && p * s == WORD
    ensures y * s % WORD == y % p * s && y % p * s + s <= WORD && y % p * s % s == 0
    ensures s * y == y / p * WORD + y % p * s
  {
    ShiftedRemainder(y, p, s);
    MulMonotone(y % p + 1, p, s);
    DivModUnique(y % p * s, s, y % p, 0);
    assert y * s == (y / p * p + y % p) * s == y / p * p * s + y % p * s;
    assert y / p * p * s == y / p * (p * s);
  }

  /** Shifted up: bits of the limb below come in at the bottom. */
  lemma UpLimb(y: nat, x: nat, z: nat, p: nat, s: nat, d: nat)
    requires p > 0 && s > 0 && p * s == WORD && y < WORD && d < p
    ensures ((y + WORD * (x + WORD * z)) * p + d) / WORD % WORD == x * p % WORD + y / s
    ensures y / s < p && x * p % WORD % p == 0
  {
    var q, t := y / s, y % s;
    MulMonotone(t + 1, s, p);
    assert y * p == q * WORD + t * p by {
      assert y == q * s + t;
      assert (q * s + t) * p == q * s * p + t * p;
      assert q * s * p == q * (s * p);
    }
    var high := (x + WORD * z) * p + q;
    assert (y + WORD * (x + WORD * z)) * p + d == high * WORD + (t * p + d) by {
      assert (y + WORD * (x + WORD * z)) * p == y * p + WORD * (x + WORD * z) * p;
      assert WORD * (x + WORD * z) * p == WORD * ((x + WORD * z) * p);
    }
    DivModUnique((y + WORD * (x + WORD * z)) * p + d, WORD, high, t * p + d);
    QuotientBelow(y, s, p);
    ScaledRemainder(x, s, p);
    assert high == (z * p + x / s) * WORD + (x % s * p + q) by {
      assert (x + WORD * z) * p == x * p + WORD * z * p;
      assert WORD * z * p == z * p * WORD;
    }
    DivModUnique(high, WORD, z * p + x / s, x % s * p + q);
  }

  /** The bits below a limb contribute less than the factor. */
  lemma BitsBelow(n: nat, p: nat, b: nat)
    requires p > 0 && b > 0
    ensures n * p / b == n / b * p + n % b * p / b && n % b * p / b < p
  {
    var q, r := n / b, n % b;
    var d, e := r * p / b, r * p % b;
    assert n == q * b + r;
    ScaledSplit(q, b, r, d, p);
    assert r * p == d * b + e;
    DivModUnique(n * p, b, q * p + d, e);
    MulMonotone(r + 1, b, p);
    Distribute(p, r, 1);
    QuotientBelow(r * p, b, p);
  }

  lemma ScaledSplit(q: nat, b: nat, r: nat, d: nat, p: nat)
    ensures (q * b + r) * p == q * p * b + r * p
    ensures (q * p + d) * b == q * p * b + d * b
  {
    assert (q * b + r) * p == q * b * p + r * p;
    assert q * b * p == q * p * b;
  }

  // ---------------------------------------------------------------- joining bits

  /** A multiple of `2^k` and a number below it have no bit in common. */
  lemma OrIsSum(a: nat, b: nat, k: nat)
    requires k <= 64 && a < WORD && a % Pow2(k) == 0 && b < Pow2(k)
    ensures Num(Bitwise(GateOr, Digits(a, 64), Digits(b, 64), 64)) == a + b
  {
    hide Pow2, Low, Num, Digits, Bitwise;
    var x, y, r := Digits(a, 64), Digits(b, 64), Bitwise(GateOr, Digits(a, 64), Digits(b, 64), 64);
    WordIsPow2();
    Pow2Monotone(k, 64);
    SmallMod(a, WORD);
    SmallMod(b, WORD);
    NumOfDigits(a, 64);
    NumOfDigits(b, 64);
    NumSplit(x, k);
    NumSplit(y, k);
    NumSplit(r, k);
    SmallMod(b, Pow2(k));
    NumBound(x[..k]);
    ZeroDigits(x[..k]);
    ZeroDigits(y[k..]);
    JoinedDigits(x, y, r, k);
  }

  lemma ZeroDigits(d: seq<bool>)
    ensures Num(d) == 0 ==> forall i | 0 <= i < |d| :: !d[i]
  {
    if Num(d) == 0 {
      var zeros := seq(|d|, i => false);
      LowZero(zeros, |d|);
      NumInjective(d, zeros);
    }
  }

  lemma JoinedDigits(x: seq<bool>, y: seq<bool>, r: seq<bool>, k: nat)
    requires k <= 64 && |x| == |y| == 64 && r == Bitwise(GateOr, x, y, 64)
    requires (forall i | 0 <= i < k :: !x[..k][i]) && (forall i | 0 <= i < 64 - k :: !y[k..][i])
    ensures r[..k] == y[..k] && r[k..] == x[k..]
  {
    forall i | 0 <= i < k ensures r[i] == y[i] {
      assert !x[..k][i];
    }
    forall i | k <= i < 64 ensures r[i] == x[i] {
      assert !y[k..][i - k];
    }
  }

  lemma OrCommutes(a: nat, b: nat)
    ensures Bitwise(GateOr, Digits(a, 64), Digits(b, 64), 64) == Bitwise(GateOr, Digits(b, 64), Digits(a, 64), 64)
  {
    hide Digits;
    var x, y := Digits(a, 64), Digits(b, 64);
    assert forall i | 0 <= i < 64 :: Bitwise(GateOr, x, y, 64)[i] == Bitwise(GateOr, y, x, 64)[i];
  }

  /** Every bit of `b` is one of `a`. */
  predicate Contains(a: nat, b: nat) {
    forall t: nat | t < 64 :: Digits(b, 64)[t] ==> Digits(a, 64)[t]
  }

  lemma OrAbsorbs(a: nat, b: nat)
    requires a < WORD
    ensures Num(Bitwise(GateOr, Digits(a, 64), Digits(b, 64), 64)) == a <==> Contains(a, b)
  {
    hide Digits, Num;
    var x, y, r := Digits(a, 64), Digits(b, 64), Bitwise(GateOr, Digits(a, 64), Digits(b, 64), 64);
    WordIsPow2();
    SmallMod(a, WORD);
    NumOfDigits(a, 64);
    assert forall t: nat | t < 64 :: r[t] == (x[t] || y[t]);
    if Num(r) == a {
      NumInjective(r, x);
    }
    if Contains(a, b) {
      assert r == x;
    }
  }

  // ---------------------------------------------------------------- the shift

  /** The number a shift is for. */
  function TrueShift(v: nat, c: nat, n: nat, up: bool): nat {
    hide Pow2;
    var p: nat, w: nat := Pow2(c), Pow2(64 * n);
    if up then v * p % w else v / p
  }

  /** Bits that cross from the limb beside: none for a whole number of limbs. */
  function Crossing(xs: seq<Val>, c: nat, up: bool, i: nat): nat {
    hide Pow2;
    var y: nat := if up then LimbOr0(xs, i - c / 64 - 1) else LimbOr0(xs, i + c / 64 + 1);
    var s: nat := Pow2(64 - c % 64);
    if up then y / s else y * s % WORD
  }

  lemma PowerParts(c: nat)
    ensures Pow2(c) == Pow2(64 * (c / 64)) * Pow2(c % 64) && Pow2(c % 64) * Pow2(64 - c % 64) == WORD
  {
    hide Pow2;
    Pow2Add(64 * (c / 64), c % 64);
    Pow2Add(c % 64, 64 - c % 64);
    WordIsPow2();
  }

  lemma DownTrue(xs: seq<Val>, c: nat, i: nat)
    requires i < |xs| && AllTyped(xs, true)
    ensures WideNumber(xs) / Pow2(c) / Pow2(64 * i) % WORD == LimbOr0(xs, i + c / 64) / Pow2(c % 64) + Crossing(xs, c, false, i)
  {
    hide Pow2, WideNumber;
    var j, p, s := i + c / 64, Pow2(c % 64), Pow2(64 - c % 64);
    var v := WideNumber(xs);
    PowerParts(c);
    DivDiv(v, Pow2(c), Pow2(64 * i));
    Pow2Add(64 * (c / 64), 64 * i);
    Regroup(Pow2(64 * (c / 64)), p, Pow2(64 * i));
    DivDiv(v, Pow2(64 * j), p);
    DownTrueFrom(xs, j, p, s);
  }

  lemma DownTrueFrom(xs: seq<Val>, j: nat, p: nat, s: nat)
    requires AllTyped(xs, true) && p > 0 && s > 0 && p * s == WORD
    ensures WideNumber(xs) / Pow2(64 * j) / p % WORD == LimbOr0(xs, j) / p + LimbOr0(xs, j + 1) * s % WORD
  {
    hide Pow2, WideNumber;
    if j < |xs| {
      WideFrom(xs, j);
      WideStep(xs, j);
      WideStep(xs, j + 1);
      var z: nat :| WideNumber(xs[j + 1..]) == LimbOr0(xs, j + 1) + WORD * z;
      DownLimb(LimbOr0(xs, j), LimbOr0(xs, j + 1), z, p, s);
    } else {
      NothingAbove(xs, j);
      NothingLeft(p, s);
    }
  }

  lemma NothingLeft(p: nat, s: nat)
    requires p > 0
    ensures 0 / p % WORD == 0 && 0 * s % WORD == 0 && 0 / p == 0
  {
    SmallMod(0, p);
  }

  lemma Regroup(a: nat, p: nat, b: nat)
    ensures a * p * b == a * b * p
  {
  }

  lemma NothingAbove(xs: seq<Val>, j: nat)
    requires j >= |xs| && AllTyped(xs, true)
    ensures WideNumber(xs) / Pow2(64 * j) == 0
  {
    hide Pow2;
    WideNumberBound(xs);
    Pow2Monotone(64 * |xs|, 64 * j);
    SmallMod(WideNumber(xs), Pow2(64 * j));
  }

  lemma UpTrue(xs: seq<Val>, c: nat, i: nat)
    requires i < |xs| && AllTyped(xs, true)
    ensures WideNumber(xs) * Pow2(c) % Pow2(64 * |xs|) / Pow2(64 * i) % WORD
      == (if i >= c / 64 then LimbOr0(xs, i - c / 64) * Pow2(c % 64) % WORD + Crossing(xs, c, true, i) else 0)
  {
    hide Pow2, WideNumber;
    var k, p, s := c / 64, Pow2(c % 64), Pow2(64 - c % 64);
    var v := WideNumber(xs);
    PowerParts(c);
    LowLimbOf(v * Pow2(c), |xs|, i);
    if i < k {
      Pow2Add(64 * i, 64 * (k - i));
      Pow2Add(64, 64 * (k - i - 1));
      WordIsPow2();
      ClearedLimb(v, Pow2(64 * i), Pow2(64 * (k - i - 1)), p);
    } else {
      var j := i - k;
      Pow2Add(64 * k, 64 * j);
      CancelFactor(v, Pow2(64 * k), p, Pow2(64 * j));
      UpTrueFrom(xs, j, p, s);
    }
  }

  /** Reduction above a limb does not touch it. */
  lemma LowLimbOf(v: nat, n: nat, i: nat)
    requires i < n
    ensures v % Pow2(64 * n) / Pow2(64 * i) % WORD == v / Pow2(64 * i) % WORD
  {
    hide Pow2;
    var b := Pow2(64 * i);
    Pow2Add(64 * i, 64 * (n - i));
    Pow2Add(64, 64 * (n - i - 1));
    WordIsPow2();
    var h := Pow2(64 * (n - i - 1));
    LowPart(v, b, h);
  }

  lemma LowPart(v: nat, b: nat, h: nat)
    requires b > 0 && h > 0
    ensures b * (WORD * h) > 0 && v % (b * (WORD * h)) / b % WORD == v / b % WORD
  {
    MulMonotone(1, WORD * h, b);
    var m := b * (WORD * h);
    var r, q := v % m, v / m;
    var u := q * h;
    LowPartSum(q, h, r, b);
    DivModUnique(v, b, r / b + u * WORD, r % b);
    ModOfMultiple(r / b, u, WORD);
  }

  lemma LowPartSum(q: nat, h: nat, r: nat, b: nat)
    requires b > 0
    ensures q * (b * (WORD * h)) + r == (r / b + q * h * WORD) * b + r % b
  {
    assert r == r / b * b + r % b;
    var u := q * h * WORD;
    assert q * (b * (WORD * h)) == u * b;
    assert (r / b + u) * b == r / b * b + u * b;
  }

  lemma ClearedLimb(v: nat, b: nat, h: nat, p: nat)
    requires b > 0
    ensures v * (b * (WORD * h) * p) / b % WORD == 0
  {
    var u := v * h * p;
    assert v * (b * (WORD * h) * p) == (u * WORD) * b;
    DivModUnique(u * WORD * b, b, u * WORD, 0);
    DivModUnique(u * WORD, WORD, u, 0);
  }

  lemma CancelFactor(v: nat, a: nat, p: nat, b: nat)
    requires a > 0 && b > 0
    ensures a * b > 0 && v * (a * p) / (a * b) == v * p / b
  {
    DivDiv(v * (a * p), a, b);
    assert v * (a * p) == v * p * a;
    DivModUnique(v * (a * p), a, v * p, 0);
  }

  lemma UpTrueFrom(xs: seq<Val>, j: nat, p: nat, s: nat)
    requires j < |xs| && AllTyped(xs, true) && p > 0 && s > 0 && p * s == WORD
    ensures WideNumber(xs) * p / Pow2(64 * j) % WORD == LimbOr0(xs, j) * p % WORD + LimbOr0(xs, j - 1) / s
  {
    hide Pow2, WideNumber;
    var v := WideNumber(xs);
    WideStep(xs, j);
    var z: nat :| WideNumber(xs[j..]) == LimbOr0(xs, j) + WORD * z;
    if j == 0 {
      SmallPowers();
      assert xs[0..] == xs;
      LowestUp(LimbOr0(xs, 0), z, p, s);
    } else {
      var b := Pow2(64 * (j - 1));
      Pow2Add(64 * (j - 1), 64);
      WordIsPow2();
      WideFrom(xs, j - 1);
      WideStep(xs, j - 1);
      BeyondLowest(v, LimbOr0(xs, j - 1), LimbOr0(xs, j), z, p, s, b);
    }
  }

  lemma LowestUp(x: nat, z: nat, p: nat, s: nat)
    requires s > 0
    ensures (x + WORD * z) * p / 1 % WORD == x * p % WORD + 0 / s
  {
    assert (x + WORD * z) * p == x * p + z * p * WORD;
    ModOfMultiple(x * p, z * p, WORD);
    SmallMod(0, s);
  }

  lemma BeyondLowest(v: nat, y: nat, x: nat, z: nat, p: nat, s: nat, b: nat)
    requires p > 0 && s > 0 && p * s == WORD && y < WORD && b > 0 && v / b == y + WORD * (x + WORD * z)
    ensures v * p / (b * WORD) % WORD == x * p % WORD + y / s
  {
    BitsBelow(v, p, b);
    DivDiv(v * p, b, WORD);
    UpLimb(y, x, z, p, s, v % b * p / b);
  }

  /** What the code computes for one limb, against the limb of the shifted number. */
  lemma LimbExactly(xs: seq<Val>, c: nat, up: bool, i: nat)
    requires i < |xs| && AllTyped(xs, true) && c < 64 * |xs| < WORD
    ensures
      var beside := Source(i, c / 64 + 1, |xs|, up);
      ShiftedLimb(xs, c, up, i) == TrueShift(WideNumber(xs), c, |xs|, up) / Pow2(64 * i) % WORD
      <==> (c % 64 != 0 || c == 0 || beside.None? || Contains(Own(xs, c, up, i), Raw(xs[beside.value])))
  {
    hide Pow2, Contains, WideNumber, Num, Bitwise, Digits;
    var k, r := c / 64, c % 64;
    var own, next := Source(i, k, |xs|, up), Source(i, k + 1, |xs|, up);
    var base := Own(xs, c, up, i);
    PowerParts(c);
    OwnBound(xs, c, up, i);
    if up {
      UpTrue(xs, c, i);
    } else {
      DownTrue(xs, c, i);
    }
    if c == 0 || next.None? {
      NoCrossing(xs, c, up, i);
    } else {
      var y := Raw(xs[next.value]);
      assert Typed(xs[next.value], true);
      var x := Raw(xs[own.value]);
      assert Typed(xs[own.value], true);
      if r == 0 {
        WholeLimbs(x, y, c, up);
        OrAbsorbs(x, y);
      } else {
        PartLimbs(x, y, c, up);
      }
    }
  }

  lemma NoCrossing(xs: seq<Val>, c: nat, up: bool, i: nat)
    requires i < |xs| && AllTyped(xs, true)
    requires c == 0 || Source(i, c / 64 + 1, |xs|, up).None?
    ensures Crossing(xs, c, up, i) == 0
    ensures Own(xs, c, up, i) == (if up then (if i >= c / 64 then LimbOr0(xs, i - c / 64) * Pow2(c % 64) % WORD else 0)
                                  else LimbOr0(xs, i + c / 64) / Pow2(c % 64))
  {
    hide Pow2;
    WordIsPow2();
    var y := if up then LimbOr0(xs, i - c / 64 - 1) else LimbOr0(xs, i + c / 64 + 1);
    var p, s := Pow2(c % 64), Pow2(64 - c % 64);
    SmallMod(0, s);
    SmallMod(0, p);
    if c == 0 {
      if 0 <= (if up then i - 1 else i + 1) < |xs| {
        assert Typed(xs[if up then i - 1 else i + 1], true);
      }
      SmallMod(y, WORD);
      DivModUnique(y * WORD, WORD, y, 0);
    }
  }

  /** A count of whole limbs: the code joins the limb beside unshifted. */
  lemma WholeLimbs(x: nat, y: nat, c: nat, up: bool)
    requires c > 0 && c % 64 == 0 && x < WORD && y < WORD
    ensures ShiftBy(x, c, up) == x && ShiftBy(y, 64 - c, !up) == y
    ensures x * Pow2(c % 64) % WORD == x && x / Pow2(c % 64) == x
    ensures y / Pow2(64 - c % 64) == 0 && y * Pow2(64 - c % 64) % WORD == 0
  {
    hide Pow2;
    SmallPowers();
    WordIsPow2();
    SmallMod(x, WORD);
    SmallMod(y, WORD);
    assert (64 - c) % 64 == 0;
    DivModUnique(y * WORD, WORD, y, 0);
    assert x / 1 == x && y / 1 == y;
  }

  /** Any other count: the joined bits do not overlap. */
  lemma PartLimbs(x: nat, y: nat, c: nat, up: bool)
    requires c % 64 != 0 && x < WORD && y < WORD
    ensures
      var base, crossed := ShiftBy(x, c, up), ShiftBy(y, 64 - c, !up);
      Num(Bitwise(GateOr, Digits(base, 64), Digits(crossed, 64), 64)) == base + crossed
      && crossed == (if up then y / Pow2(64 - c % 64) else y * Pow2(64 - c % 64) % WORD)
  {
    hide Pow2, Num, Bitwise, Digits;
    PowerParts(c);
    assert (64 - c) % 64 == 64 - c % 64;
    if up {
      PartUp(x, y, c % 64, Pow2(c % 64), Pow2(64 - c % 64));
    } else {
      PartDown(x, y, c % 64, Pow2(c % 64), Pow2(64 - c % 64));
    }
  }

  lemma PartUp(x: nat, y: nat, r: nat, p: nat, s: nat)
    requires r <= 64 && x < WORD && y < WORD && p == Pow2(r) && s > 0 && p * s == WORD
    ensures Num(Bitwise(GateOr, Digits(x * p % WORD, 64), Digits(y / s, 64), 64)) == x * p % WORD + y / s
  {
    hide *;
    UpLimb(y, x, 0, p, s, 0);
    SmallerRemainder(x * p);
    OrIsSum(x * p % WORD, y / s, r);
  }

  lemma PartDown(x: nat, y: nat, r: nat, p: nat, s: nat)
    requires r <= 64 && x < WORD && y < WORD && p > 0 && s == Pow2(64 - r) && p * s == WORD
    ensures Num(Bitwise(GateOr, Digits(x / p, 64), Digits(y * s % WORD, 64), 64)) == x / p + y * s % WORD
  {
    hide *;
    DownLimb(x, y, 0, p, s);
    SmallerRemainder(y * s);
    OrIsSum(y * s % WORD, x / p, 64 - r);
    OrCommutes(y * s % WORD, x / p);
  }

  lemma SmallerRemainder(x: nat)
    ensures 0 <= x % WORD < WORD
  {
  }

  /** Each limb that stays has every bit of the limb the code joins to it. */
  predicate LimbsContain(xs: seq<Val>, k: nat, up: bool) {
    if up then forall j | 0 < j < |xs| - k :: Contains(Raw(xs[j]), Raw(xs[j - 1]))
    else forall j | k <= j < |xs| - 1 :: Contains(Raw(xs[j]), Raw(xs[j + 1]))
  }

  /**
   A count in range: the result is the shifted number unless the count is a positive number of
   whole limbs and some limb lacks a bit of the limb beside it.
   */
  lemma ShiftExactly(xs: seq<Val>, c: nat, up: bool)
    requires xs != [] && AllTyped(xs, true) && c < 64 * |xs| < WORD
    ensures ShiftedLimbs(xs, c, up) == ToLimbs(TrueShift(WideNumber(xs), c, |xs|, up), |xs|)
      <==> (c % 64 != 0 || c == 0 || LimbsContain(xs, c / 64, up))
  {
    hide *;
    var n, k := |xs|, c / 64;
    var want := ToLimbs(TrueShift(WideNumber(xs), c, n, up), n);
    forall i | 0 <= i < n ensures ShiftedLimbs(xs, c, up)[i] == want[i] <==> (c % 64 != 0 || c == 0 || KeptContains(xs, k, up, i)) {
      PlaceExactly(xs, c, up, i);
    }
    AllKept(xs, k, up);
  }

  lemma PlaceExactly(xs: seq<Val>, c: nat, up: bool, i: nat)
    requires i < |xs| && AllTyped(xs, true) && c < 64 * |xs| < WORD
    ensures ShiftedLimbs(xs, c, up)[i] == ToLimbs(TrueShift(WideNumber(xs), c, |xs|, up), |xs|)[i]
      <==> (c % 64 != 0 || c == 0 || KeptContains(xs, c / 64, up, i))
  {
    hide *;
    LimbExactly(xs, c, up, i);
    LimbAt(TrueShift(WideNumber(xs), c, |xs|, up), |xs|, i);
    ShiftedPlace(xs, c, up, i);
    if c > 0 && c % 64 == 0 {
      KeptIsOwn(xs, c, up, i);
    }
  }

  lemma ShiftedPlace(xs: seq<Val>, c: nat, up: bool, i: nat)
    requires i < |xs| && AllTyped(xs, true) && c < WORD
    ensures ShiftedLimb(xs, c, up, i) < WORD && ShiftedLimbs(xs, c, up)[i] == V64(ShiftedLimb(xs, c, up, i))
  {
    hide ShiftedLimb;
    LimbFits(xs, c, up, i);
    SmallMod(ShiftedLimb(xs, c, up, i), WORD);
  }

  lemma KeptIsOwn(xs: seq<Val>, c: nat, up: bool, i: nat)
    requires i < |xs| && AllTyped(xs, true) && c > 0 && c % 64 == 0
    ensures var beside := Source(i, c / 64 + 1, |xs|, up);
      KeptContains(xs, c / 64, up, i) <==> (beside.None? || Contains(Own(xs, c, up, i), Raw(xs[beside.value])))
  {
    hide Contains, Own;
    WholeOwn(xs, c, up, i);
  }

  predicate KeptContains(xs: seq<Val>, k: nat, up: bool, i: nat)
    requires i < |xs|
  {
    var own, beside := Source(i, k, |xs|, up), Source(i, k + 1, |xs|, up);
    beside.None? || Contains(Raw(xs[own.value]), Raw(xs[beside.value]))
  }

  lemma WholeOwn(xs: seq<Val>, c: nat, up: bool, i: nat)
    requires i < |xs| && AllTyped(xs, true) && c > 0 && c % 64 == 0
    ensures var own := Source(i, c / 64, |xs|, up); own.Some? ==> Own(xs, c, up, i) == Raw(xs[own.value])
  {
    var own := Source(i, c / 64, |xs|, up);
    if own.Some? {
      assert Typed(xs[own.value], true);
      WholeLimbs(Raw(xs[own.value]), 0, c, up);
    }
  }

  lemma AllKept(xs: seq<Val>, k: nat, up: bool)
    ensures LimbsContain(xs, k, up) <==> forall i | 0 <= i < |xs| :: KeptContains(xs, k, up, i)
  {
    hide Contains;
    if forall i | 0 <= i < |xs| :: KeptContains(xs, k, up, i) {
      if up {
        forall j | 0 < j < |xs| - k ensures Contains(Raw(xs[j]), Raw(xs[j - 1])) {
          assert KeptContains(xs, k, up, j + k);
        }
      } else {
        forall j | k <= j < |xs| - 1 ensures Contains(Raw(xs[j]), Raw(xs[j + 1])) {
          assert KeptContains(xs, k, up, j - k);
        }
      }
    }
  }

  lemma LimbFits(xs: seq<Val>, c: nat, up: bool, i: nat)
    requires i < |xs| && AllTyped(xs, true) && c < WORD
    ensures ShiftedLimb(xs, c, up, i) < WORD
  {
    hide Num, Bitwise, Digits;
    OwnBound(xs, c, up, i);
    var next := Source(i, c / 64 + 1, |xs|, up);
    if c != 0 && next.Some? {
      var r := Bitwise(GateOr, Digits(Own(xs, c, up, i), 64), Digits(ShiftBy(Raw(xs[next.value]), 64 - c, !up), 64), 64);
      NumBound(r);
      WordIsPow2();
    }
  }

  /** Integers of two limbs are shifted right by every count in range. */
  lemma TwoLimbsExact(xs: seq<Val>, c: nat, up: bool)
    requires |xs| == 2 && AllTyped(xs, true) && c < 128
    ensures ShiftedLimbs(xs, c, up) == ToLimbs(TrueShift(WideNumber(xs), c, 2, up), 2)
  {
    hide ShiftedLimbs, ToLimbs, TrueShift, Contains;
    ShiftExactly(xs, c, up);
  }

  /** With four limbs a shift by one limb joins the limb below: `1` becomes `2^64 + 2^128`. */
  lemma FourLimbsJoined()
    ensures
      var one := [V64(1), V64(0), V64(0), V64(0)];
      ShiftedLimbs(one, 64, true) != ToLimbs(TrueShift(WideNumber(one), 64, 4, true), 4)
      && ShiftedLimbs(one, 64, true) == [V64(0), V64(1), V64(1), V64(0)]
  {
    hide ToLimbs, TrueShift, WideNumber, Pow2;
    var one := [V64(1), V64(0), V64(0), V64(0)];
    ShiftExactly(one, 64, true);
    SmallPowers();
    assert Digits(1, 64)[0] && !Digits(0, 64)[0];
    assert !Contains(Raw(one[1]), Raw(one[1 - 1]));
    JoinedOnes(one);
  }

  lemma JoinedOnes(one: seq<Val>)
    requires one == [V64(1), V64(0), V64(0), V64(0)]
    ensures ShiftedLimbs(one, 64, true) == [V64(0), V64(1), V64(1), V64(0)]
  {
    hide Num, Bitwise, Digits, Pow2;
    SmallPowers();
    assert (64 - 64) % 64 == 0 && 64 % 64 == 0;
    OrIsSum(0, 1, 1);
    OrIsSum(0, 0, 1);
  }

  /** A count out of range stands for zero, and the code leaves the destinations alone. */
  lemma OutOfRangeIsZero(xs: seq<Val>, c: nat, up: bool)
    requires AllTyped(xs, true) && c >= 64 * |xs|
    ensures TrueShift(WideNumber(xs), c, |xs|, up) == 0
  {
    hide Pow2, WideNumber;
    var n, v := |xs|, WideNumber(xs);
    Pow2Add(64 * n, c - 64 * n);
    if up {
      assert v * Pow2(c) == (v * Pow2(c - 64 * n)) * Pow2(64 * n);
      DivModUnique(v * Pow2(c), Pow2(64 * n), v * Pow2(c - 64 * n), 0);
    } else {
      WideNumberBound(xs);
      Pow2Monotone(64 * n, c);
      SmallMod(v, Pow2(c));
    }
  }

  // ---------------------------------------------------------------- every count

  /** A count in limbs is in range exactly when its number is below the width. */
  lemma CountNumber(counts: seq<Val>, n: nat)
    requires counts != [] && AllTyped(counts, true) && 64 * n < WORD
    ensures CountInRange(counts, n) <==> WideNumber(counts) < 64 * n
    ensures CountInRange(counts, n) ==> WideNumber(counts) == Raw(counts[0])
  {
    var high := counts[1..];
    assert Typed(counts[0], true) && AllTyped(high, true);
    ZeroLimbs(high);
    assert (forall i | 1 <= i < |counts| :: Raw(counts[i]) == 0) <==> (forall i | 0 <= i < |high| :: Raw(high[i]) == 0) by {
      assert forall i | 0 <= i < |high| :: high[i] == counts[i + 1];
      assert forall i | 1 <= i < |counts| :: counts[i] == high[i - 1];
    }
  }

  lemma {:induction false} ZeroLimbs(xs: seq<Val>)
    requires AllTyped(xs, true)
    ensures WideNumber(xs) == 0 <==> forall i | 0 <= i < |xs| :: Raw(xs[i]) == 0
    decreases |xs|
  {
    if xs != [] {
      assert AllTyped(xs[1..], true);
      ZeroLimbs(xs[1..]);
      assert forall i | 0 <= i < |xs| - 1 :: xs[1..][i] == xs[i + 1];
      assert forall i | 1 <= i < |xs| :: xs[i] == xs[1..][i - 1];
    }
  }

  lemma {:induction false} LimbsOfZero(n: nat)
    ensures forall i | 0 <= i < n :: ToLimbs(0, n)[i] == V64(0)
    decreases n
  {
    if n > 0 {
      LimbsOfZero(n - 1);
    }
  }

  /** Destinations left alone are right exactly when they hold zero. */
  lemma StaleExactly(was: seq<Val>)
    requires AllTyped(was, true)
    ensures was == ToLimbs(0, |was|) <==> WideNumber(was) == 0
  {
    hide ToLimbs, WideNumber;
    ZeroLimbs(was);
    LimbsOfZero(|was|);
    if forall i | 0 <= i < |was| :: Raw(was[i]) == 0 {
      forall i | 0 <= i < |was| ensures was[i] == V64(0) {
        assert Typed(was[i], true);
      }
    }
  }

  /**
   Exactly when a wide shift leaves the shifted number, for every count: in range unless it joins a
   whole limb with a bit of its own, out of range if the destinations `was` hold zero already, which
   they need not when the operation runs again.
   */
  lemma WideShiftExactly(xs: seq<Val>, counts: seq<Val>, was: seq<Val>, up: bool)
    requires 0 < |xs| == |counts| == |was| && 64 * |xs| < WORD
    requires AllTyped(xs, true) && AllTyped(counts, true) && AllTyped(was, true)
    ensures
      var c := WideNumber(counts);
      (if CountInRange(counts, |xs|) then ShiftedLimbs(xs, Raw(counts[0]), up) else was) == ToLimbs(TrueShift(WideNumber(xs), c, |xs|, up), |xs|)
      <==> (if c < 64 * |xs| then c % 64 != 0 || c == 0 || LimbsContain(xs, c / 64, up) else WideNumber(was) == 0)
  {
    hide WideNumber, ToLimbs, TrueShift, ShiftedLimbs, LimbsContain, CountInRange;
    CountNumber(counts, |xs|);
    var c := WideNumber(counts);
    if c < 64 * |xs| {
      ShiftExactly(xs, c, up);
    } else {
      OutOfRangeIsZero(xs, c, up);
      StaleExactly(was);
    }
  }
}
