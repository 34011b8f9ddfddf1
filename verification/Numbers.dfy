/**
 Powers of two, remainders and little-endian digit strings: the arithmetic the other
 modules of this project share.
 */
module Numbers {
  import opened Common

  function Pow2(n: nat): (r: nat)
    ensures r > 0
  {
    if n == 0 then 1 else 2 * Pow2(n - 1)
  }

  lemma {:induction false} Pow2Add(a: nat, b: nat)
    ensures Pow2(a + b) == Pow2(a) * Pow2(b)
  {
    if a > 0 {
      Pow2Add(a - 1, b);
    }
  }

  lemma {:induction false} Pow2Monotone(a: nat, b: nat)
    requires a <= b
    ensures Pow2(a) <= Pow2(b)
    decreases b
  {
    if a < b {
      Pow2Monotone(a, b - 1);
    }
  }

  lemma MulMonotone(a: int, b: int, c: int)
    requires a <= b && c >= 0
    ensures a * c <= b * c && c * a <= c * b
  {
  }

  lemma Distribute(a: int, b: int, c: int)
    ensures a * (b + c) == a * b + a * c
  {
  }

  /** `x == q * p + r` with a proper remainder pins down both division results. */
  lemma DivModUnique(x: int, p: int, q: int, r: int)
    requires p > 0 && x == q * p + r && 0 <= r < p
    ensures x / p == q && x % p == r
  {
    var dq, dr := x / p - q, x % p - r;
    assert dq * p + dr == 0;
    if dq >= 1 {
      MulMonotone(1, dq, p);
    } else if dq <= -1 {
      MulMonotone(dq, -1, p);
    }
  }

  lemma SplitDivMod(n: int, lo: int, hi: int, p: int)
    requires 0 <= lo < p && n == lo + p * hi
    ensures n % p == lo && n / p == hi
  {
    DivModUnique(n, p, hi, lo);
  }

  lemma ModOfMultiple(x: int, q: int, p: int)
    requires p > 0
    ensures (x + q * p) % p == x % p
  {
    assert x + q * p == (x / p + q) * p + x % p;
    DivModUnique(x + q * p, p, x / p + q, x % p);
  }

  /** Products may be reduced factor by factor. */
  lemma MulModReduce(a: int, b: int, p: int)
    requires p > 0
    ensures ((a % p) * b) % p == (a * b) % p
    ensures (a * (b % p)) % p == (a * b) % p
  {
    assert a * b == (a % p) * b + (a / p * b) * p;
    ModOfMultiple((a % p) * b, a / p * b, p);
    assert a * b == a * (b % p) + (b / p * a) * p;
    ModOfMultiple(a * (b % p), b / p * a, p);
  }

  lemma AddModReduce(a: int, b: int, p: int)
    requires p > 0
    ensures ((a % p) + b) % p == (a + b) % p
    ensures (a + (b % p)) % p == (a + b) % p
  {
    assert a + b == (a % p) + b + (a / p) * p;
    ModOfMultiple((a % p) + b, a / p, p);
    assert a + b == a + (b % p) + (b / p) * p;
    ModOfMultiple(a + (b % p), b / p, p);
  }

  /** A remainder, reduced by a divisor of its modulus. */
  lemma ModOfMod(x: int, k: nat, p: nat)
    requires k > 0 && p > 0
    ensures k * p > 0 && x % (k * p) % p == x % p
  {
    MulMonotone(1, k, p);
    var q, r := x / (k * p), x % (k * p);
    assert x == q * (k * p) + r;
    assert q * (k * p) == (q * k) * p;
    ModOfMultiple(r, q * k, p);
  }

  lemma ModOfPower(x: int, w: nat, n: nat)
    requires w <= n
    ensures x % Pow2(n) % Pow2(w) == x % Pow2(w)
  {
    hide Pow2;
    Pow2Add(n - w, w);
    ModOfMod(x, Pow2(n - w), Pow2(w));
  }

  lemma SmallPowers()
    ensures Pow2(0) == 1 && Pow2(1) == 2
  {
  }

  // ---------------------------------------------------------------- digit strings

  function Digit(bits: seq<bool>, index: nat): nat {
    if index < |bits| && bits[index] then 1 else 0
  }

  /** The number the low `k` digits of `bits` stand for, missing digits being zero. */
  function Low(bits: seq<bool>, k: nat): nat {
    if k == 0 then 0 else Low(bits, k - 1) + (if Digit(bits, k - 1) == 1 then Pow2(k - 1) else 0)
  }

  /** The number a little-endian digit string stands for. */
  function Num(bits: seq<bool>): nat {
    Low(bits, |bits|)
  }

  /** The `k` low digits of `n`. */
  function Digits(n: nat, k: nat): (bits: seq<bool>)
    ensures |bits| == k
  {
    seq(k, i requires 0 <= i => n / Pow2(i) % 2 == 1)
  }

  lemma {:induction false} LowBound(bits: seq<bool>, k: nat)
    ensures Low(bits, k) < Pow2(k)
  {
    if k > 0 {
      LowBound(bits, k - 1);
    }
  }

  lemma NumBound(bits: seq<bool>)
    ensures Num(bits) < Pow2(|bits|)
  {
    LowBound(bits, |bits|);
  }

  /** Digit strings that agree below `k` have the same low value. */
  lemma {:induction false} LowAgree(a: seq<bool>, b: seq<bool>, k: nat)
    requires forall i: nat | i < k :: Digit(a, i) == Digit(b, i)
    ensures Low(a, k) == Low(b, k)
  {
    if k > 0 {
      assert Digit(a, k - 1) == Digit(b, k - 1);
      LowAgree(a, b, k - 1);
    }
  }

  lemma {:induction false} LowBeyond(bits: seq<bool>, k: nat)
    requires |bits| <= k
    ensures Low(bits, k) == Num(bits)
    decreases k
  {
    if |bits| < k {
      LowBeyond(bits, k - 1);
    }
  }

  lemma {:induction false} LowZero(bits: seq<bool>, k: nat)
    requires forall i: nat | i < k :: Digit(bits, i) == 0
    ensures Low(bits, k) == 0
  {
    if k > 0 {
      assert Digit(bits, k - 1) == 0;
      LowZero(bits, k - 1);
    }
  }

  /** Shifting a digit string up by `s` zeros multiplies its value by `2^s`. */
  lemma {:induction false} LowShift(bits: seq<bool>, shifted: seq<bool>, s: nat, k: nat)
    requires forall i: nat | i < s :: Digit(shifted, i) == 0
    requires forall i: nat | i < k :: Digit(shifted, s + i) == Digit(bits, i)
    ensures Low(shifted, s + k) == Pow2(s) * Low(bits, k)
    decreases k
  {
    if k == 0 {
      LowZero(shifted, s);
    } else {
      LowShift(bits, shifted, s, k - 1);
      assert Digit(shifted, s + (k - 1)) == Digit(bits, k - 1);
      var low, top := Low(bits, k - 1), Digit(bits, k - 1);
      assert Low(shifted, s + k) == Pow2(s) * low + (if top == 1 then Pow2(s + (k - 1)) else 0);
      Pow2Add(s, k - 1);
      assert Low(bits, k) == low + (if top == 1 then Pow2(k - 1) else 0);
      Distribute(Pow2(s), low, Pow2(k - 1));
    }
  }

  /** A digit string splits at `m` into its low digits and the string above them. */
  lemma {:induction false} LowSplit(bits: seq<bool>, high: seq<bool>, m: nat, k: nat)
    requires forall i: nat | i < k :: Digit(high, i) == Digit(bits, m + i)
    ensures Low(bits, m + k) == Low(bits, m) + Pow2(m) * Low(high, k)
    decreases k
  {
    if k > 0 {
      LowSplit(bits, high, m, k - 1);
      assert Digit(high, k - 1) == Digit(bits, m + (k - 1));
      var top := Digit(high, k - 1);
      assert Low(bits, m + k) == Low(bits, m + (k - 1)) + (if top == 1 then Pow2(m + (k - 1)) else 0);
      Pow2Add(m, k - 1);
      Distribute(Pow2(m), Low(high, k - 1), Pow2(k - 1));
    }
  }

  /** The two halves of a digit string are its remainder and quotient. */
  lemma NumSplit(bits: seq<bool>, k: nat)
    requires k <= |bits|
    ensures Num(bits) % Pow2(k) == Num(bits[..k])
    ensures Num(bits) / Pow2(k) == Num(bits[k..])
  {
    var lo, hi := bits[..k], bits[k..];
    assert bits == lo + hi;
    NumConcat(lo, hi);
    NumBound(lo);
    SplitDivMod(Num(bits), Num(lo), Num(hi), Pow2(k));
  }

  lemma NumConcat(a: seq<bool>, b: seq<bool>)
    ensures Num(a + b) == Num(a) + Pow2(|a|) * Num(b)
  {
    LowSplit(a + b, b, |a|, |b|);
    LowAgree(a, a + b, |a|);
  }

  /** The digits of a number are determined by the number. */
  lemma {:induction false} LowInjective(a: seq<bool>, b: seq<bool>, k: nat)
    requires Low(a, k) == Low(b, k)
    ensures forall i: nat | i < k :: Digit(a, i) == Digit(b, i)
  {
    if k > 0 {
      LowBound(a, k - 1);
      LowBound(b, k - 1);
      LowInjective(a, b, k - 1);
    }
  }

  lemma NumInjective(a: seq<bool>, b: seq<bool>)
    requires |a| == |b| && Num(a) == Num(b)
    ensures a == b
  {
    LowInjective(a, b, |a|);
    forall i | 0 <= i < |a| ensures a[i] == b[i] {
      assert Digit(a, i) == Digit(b, i);
    }
  }

  lemma {:induction false} LowOfDigits(n: nat, width: nat, k: nat)
    requires k <= width
    ensures Low(Digits(n, width), k) == n % Pow2(k)
    decreases k
  {
    if k > 0 {
      LowOfDigits(n, width, k - 1);
      ModStep(n, Pow2(k - 1));
    }
  }

  /** Doubling the modulus adds one digit to the remainder. */
  lemma ModStep(n: nat, p: nat)
    requires p > 0
    ensures n % (2 * p) == n % p + (if n / p % 2 == 1 then p else 0)
  {
    var q, r := n / p, n % p;
    var h, top := q / 2, q % 2;
    assert q == 2 * h + top;
    calc {
      n;
      q * p + r;
      (2 * h + top) * p + r;
      h * (2 * p) + (top * p + r);
    }
    DivModUnique(n, 2 * p, h, top * p + r);
  }

  lemma NumOfDigits(n: nat, k: nat)
    ensures Num(Digits(n, k)) == n % Pow2(k)
  {
    LowOfDigits(n, k, k);
  }

  lemma SmallMod(x: int, p: int)
    requires 0 <= x < p
    ensures x % p == x && x / p == 0
  {
    DivModUnique(x, p, 0, x);
  }

  lemma DigitsOfNum(bits: seq<bool>)
    ensures Digits(Num(bits), |bits|) == bits
  {
    NumBound(bits);
    NumOfDigits(Num(bits), |bits|);
    SmallMod(Num(bits), Pow2(|bits|));
    NumInjective(Digits(Num(bits), |bits|), bits);
  }

  lemma ShiftedQuotient(low: nat, h: nat, p: nat)
    requires p > 0
    ensures (low + 2 * (h * p)) / p == low / p + 2 * h
    ensures (low + 2 * (h * p)) / p % 2 == low / p % 2
  {
    calc {
      low + 2 * (h * p);
      low / p * p + low % p + 2 * (h * p);
      (low / p + 2 * h) * p + low % p;
    }
    DivModUnique(low + 2 * (h * p), p, low / p + 2 * h, low % p);
  }

  // ---------------------------------------------------------------- 64-bit limbs

  ghost predicate AreWords(limbs: seq<nat>) {
    forall i | 0 <= i < |limbs| :: limbs[i] < WORD
  }

  /** The number a little-endian limb vector stands for. */
  function Limbs(limbs: seq<nat>): nat {
    if limbs == [] then 0 else limbs[0] + WORD * Limbs(limbs[1..])
  }

  /** Bit `bit` of a limb vector, read out of the limb that holds it. */
  function LimbBit(limbs: seq<nat>, bit: nat): bool {
    bit / 64 < |limbs| && limbs[bit / 64] / Pow2(bit % 64) % 2 == 1
  }

  lemma WordIsPow2()
    ensures Pow2(64) == WORD
  {
    assert Pow2(8) == 256;
    Pow2Add(8, 8);
    Pow2Add(16, 16);
    Pow2Add(32, 32);
  }

  lemma DivShift(l: nat, r: nat, w: nat, p: nat)
    requires l < w && p > 0
    ensures (l + w * r) / (w * p) == r / p
  {
    calc {
      l + w * r;
      l + w * (r / p * p + r % p);
      r / p * (w * p) + (l + w * (r % p));
    }
    MulMonotone(r % p + 1, p, w);
    assert l + w * (r % p) < w * (r % p) + w == w * (r % p + 1);
    DivModUnique(l + w * r, w * p, r / p, l + w * (r % p));
  }

  /** Reading a bit from its limb is reading it from the number. */
  lemma {:induction false} LimbBitIsDigit(limbs: seq<nat>, bit: nat)
    requires AreWords(limbs)
    ensures LimbBit(limbs, bit) == (Limbs(limbs) / Pow2(bit) % 2 == 1)
    decreases |limbs|
  {
    if limbs == [] {
      SmallMod(0, Pow2(bit));
    } else {
      hide Pow2;
      var rest := limbs[1..];
      if bit < 64 {
        LowLimbDigit(limbs[0], Limbs(rest), bit);
        assert bit / 64 == 0 && bit % 64 == bit;
      } else {
        LimbBitIsDigit(rest, bit - 64);
        HighLimbDigit(limbs[0], Limbs(rest), bit - 64);
        assert bit / 64 == (bit - 64) / 64 + 1 && bit % 64 == (bit - 64) % 64;
      }
    }
  }

  lemma LowLimbDigit(l: nat, r: nat, bit: nat)
    requires bit < 64
    ensures (l + WORD * r) / Pow2(bit) % 2 == l / Pow2(bit) % 2
  {
    WordIsPow2();
    Pow2Add(63 - bit, bit);
    Pow2Add(1, 63);
    MulRearrange(WORD, Pow2(63 - bit), Pow2(bit), r);
    ShiftedQuotient(l, Pow2(63 - bit) * r, Pow2(bit));
  }

  lemma MulRearrange(w: nat, h: nat, p: nat, r: nat)
    requires w == 2 * (h * p)
    ensures w * r == 2 * (h * r * p)
  {
  }

  lemma HighLimbDigit(l: nat, r: nat, bit: nat)
    requires l < WORD
    ensures (l + WORD * r) / Pow2(64 + bit) == r / Pow2(bit)
  {
    WordIsPow2();
    Pow2Add(64, bit);
    DivShift(l, r, WORD, Pow2(bit));
  }

  lemma {:induction false} LimbsBound(limbs: seq<nat>)
    requires AreWords(limbs)
    ensures Limbs(limbs) < Pow2(64 * |limbs|)
  {
    if limbs != [] {
      LimbsBound(limbs[1..]);
      WordIsPow2();
      Pow2Add(64, 64 * (|limbs| - 1));
      MulMonotone(Limbs(limbs[1..]) + 1, Pow2(64 * (|limbs| - 1)), WORD);
    }
  }

  // ---------------------------------------------------------------- bitwise operations

  predicate BitAt(word: seq<bool>, i: nat) {
    i < |word| && word[i]
  }

  datatype Gate = GateAnd | GateOr | GateXor

  predicate GateBit(gate: Gate, a: bool, x: bool) {
    match gate
    case GateAnd => a && x
    case GateOr => a || x
    case GateXor => a != x
  }

  /** One gate across the low `n` bits of two words. */
  function Bitwise(gate: Gate, a: seq<bool>, x: seq<bool>, n: nat): (r: seq<bool>)
    ensures |r| == n
  {
    seq(n, i requires 0 <= i => GateBit(gate, BitAt(a, i), BitAt(x, i)))
  }
}
