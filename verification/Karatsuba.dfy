/**
 The arithmetic behind the truncating multiplier: shifted and cut words, schoolbook rows and
 the Karatsuba recombination, all modulo the number of columns wanted.
 */
module Karatsuba {
  import opened Numbers

  /** Reading `k` digits reads the number modulo `2^k`. */
  lemma LowIsMod(bits: seq<bool>, k: nat)
    ensures Low(bits, k) == Num(bits) % Pow2(k)
  {
    NumBound(bits);
    if k <= |bits| {
      NumSplit(bits, k);
      LowAgree(bits, bits[..k], k);
    } else {
      LowBeyond(bits, k);
      Pow2Monotone(|bits|, k);
      SmallMod(Num(bits), Pow2(k));
    }
  }

  /** `bits` cut or zero-extended to `w` digits. */
  function Resized(bits: seq<bool>, w: nat): (r: seq<bool>)
    ensures |r| == w
  {
    seq(w, i requires 0 <= i => i < |bits| && bits[i])
  }

  lemma ResizedNumber(bits: seq<bool>, w: nat)
    ensures Num(Resized(bits, w)) == Num(bits) % Pow2(w)
  {
    LowAgree(bits, Resized(bits, w), w);
    LowIsMod(bits, w);
  }

  /** `bits` moved up to start at column `at` of `want` columns. */
  function Placed(bits: seq<bool>, at: nat, want: nat): (r: seq<bool>)
    ensures |r| == want
  {
    seq(want, k requires 0 <= k => at <= k < at + |bits| && bits[k - at])
  }

  lemma PlacedNumber(bits: seq<bool>, at: nat, want: nat)
    ensures Num(Placed(bits, at, want)) == Num(bits) * Pow2(at) % Pow2(want)
  {
    hide Pow2, Low;
    var zeros := seq(at, i requires 0 <= i => false);
    assert Placed(bits, at, want) == Resized(zeros + bits, want);
    ResizedNumber(zeros + bits, want);
    LeadingZeros(zeros, bits);
  }

  lemma LeadingZeros(zeros: seq<bool>, bits: seq<bool>)
    requires forall i | 0 <= i < |zeros| :: !zeros[i]
    ensures Num(zeros + bits) == Num(bits) * Pow2(|zeros|)
  {
    LowZero(zeros, |zeros|);
    NumConcat(zeros, bits);
  }

  /** A word of zeros is zero. */
  lemma ZeroWord(k: nat)
    ensures Num(Digits(0, k)) == 0
  {
    NumOfDigits(0, k);
    SmallMod(0, Pow2(k));
  }

  /** One schoolbook row: the other operand, if the digit is set, moved up to column `i`. */
  function Row(digit: bool, x: seq<bool>, i: nat, cols: nat): (r: seq<bool>)
    ensures |r| == cols
  {
    if digit then Placed(x, i, cols) else Digits(0, cols)
  }

  /** Adding row `i` accounts for digit `i` of the multiplier. */
  lemma RowStep(a: seq<bool>, x: nat, i: nat, row: nat, acc: nat, p: nat)
    requires i < |a| && p > 0
    requires row == if a[i] then x * Pow2(i) % p else 0
    requires acc == Low(a, i) * x % p
    ensures (acc + row) % p == Low(a, i + 1) * x % p
  {
    var term := if a[i] then Pow2(i) else 0;
    assert Low(a, i + 1) == Low(a, i) + term;
    if !a[i] {
      SmallMod(0, p);
    }
    AddRow(Low(a, i), term, x, row, acc, p);
  }

  lemma AddRow(low: nat, term: nat, x: nat, row: nat, acc: nat, p: nat)
    requires p > 0 && row == x * term % p && acc == low * x % p
    ensures (acc + row) % p == (low + term) * x % p
  {
    var u, v := low * x, x * term;
    ScaledSum(low, term, x);
    AddModReduce(u % p, v, p);
    AddModReduce(u, v, p);
  }

  lemma ScaledSum(a: int, b: int, x: int)
    ensures (a + b) * x == a * x + b * x
  {
  }

  /** Rows beyond the last wanted column change nothing. */
  lemma RowsDone(a: seq<bool>, x: nat, i: nat, cols: nat)
    requires i <= |a| && (i == |a| || i == cols)
    ensures Low(a, i) * x % Pow2(cols) == Num(a) * x % Pow2(cols)
  {
    if i < |a| {
      LowIsMod(a, cols);
      MulModReduce(Num(a), x, Pow2(cols));
    }
  }

  // ---------------------------------------------------------------- Karatsuba

  lemma SubModReduce(u: int, v: int, p: int)
    requires p > 0
    ensures (u % p - v) % p == (u - v) % p
    ensures (u - v % p) % p == (u - v) % p
  {
    AddModReduce(u, -v, p);
    assert u - v % p == u - v + (v / p) * p;
    ModOfMultiple(u - v, v / p, p);
  }

  /** The middle product out of the product of the half sums. */
  lemma MiddleProduct(a0: nat, a1: nat, x0: nat, x1: nat, z1: int, z0: int, z2: int, p: nat)
    requires p > 0
    requires z1 == (a0 + a1) * (x0 + x1) % p && z0 == a0 * x0 % p && z2 == a1 * x1 % p
    ensures ((z1 - z0) % p - z2) % p == (a0 * x1 + a1 * x0) % p
  {
    SubModReduce(z1 - z0, z2, p);
    SubModReduce(z1 - z0, a1 * x1, p);
    SubModReduce(z1 - a1 * x1, a0 * x0, p);
    SubModReduce((a0 + a1) * (x0 + x1), a1 * x1 + a0 * x0, p);
    assert (a0 + a1) * (x0 + x1) - (a1 * x1 + a0 * x0) == a0 * x1 + a1 * x0;
  }

  /** A number kept to `min(want, span)` digits, where `span` digits would hold it whole. */
  lemma CutAgain(v: nat, span: nat, want: nat, kept: nat)
    requires v < Pow2(span) && (kept == want || (kept == span && span <= want))
    ensures v % Pow2(kept) % Pow2(want) == v % Pow2(want)
  {
    if kept == want {
      SmallMod(v % Pow2(want), Pow2(want));
    } else {
      SmallMod(v, Pow2(span));
    }
  }

  lemma ShiftCut(v: nat, span: nat, at: nat, want: nat, kept: nat)
    requires at <= want && v < Pow2(span) && (kept == want - at || (kept == span && span <= want - at))
    ensures v % Pow2(kept) * Pow2(at) % Pow2(want) == v * Pow2(at) % Pow2(want)
  {
    hide Pow2;
    if kept == want - at {
      Pow2Add(kept, at);
      var p := Pow2(kept) * Pow2(at);
      assert Pow2(want) == p;
      ShiftedRemainder(v, Pow2(kept), Pow2(at));
    } else {
      SmallMod(v, Pow2(span));
    }
  }

  lemma ShiftedRemainder(v: nat, p: nat, s: nat)
    requires p > 0 && s > 0
    ensures v % p * s % (p * s) == v * s % (p * s)
  {
    assert v * s == v % p * s + (v / p) * (p * s);
    ModOfMultiple(v % p * s, v / p, p * s);
  }

  /** The half products recombine to the product. */
  lemma Recombine(a0: nat, a1: nat, x0: nat, x1: nat, half: nat)
    ensures (a0 + half * a1) * (x0 + half * x1)
      == a0 * x0 + (a0 * x1 + a1 * x0) * half + a1 * x1 * (half * half)
  {
    calc {
      (a0 + half * a1) * (x0 + half * x1);
      a0 * (x0 + half * x1) + half * a1 * (x0 + half * x1);
      { Distribute(a0, x0, half * x1); Distribute(half * a1, x0, half * x1); }
      a0 * x0 + a0 * (half * x1) + half * a1 * x0 + half * a1 * (half * x1);
    }
  }

  /** Products of bounded factors. */
  lemma ProductSpan(a: nat, x: nat, n: nat, k: nat)
    requires a < Pow2(n) && x < Pow2(k)
    ensures a * x < Pow2(n + k)
  {
    Pow2Add(n, k);
    MulMonotone(a, Pow2(n) - 1, x);
    MulMonotone(x, Pow2(k) - 1, Pow2(n));
  }

  /** The middle product fits twice the width of the half sums. */
  lemma MiddleSpan(a0: nat, a1: nat, x0: nat, x1: nat, h: nat)
    requires a0 < Pow2(h) && a1 < Pow2(h) && x0 < Pow2(h) && x1 < Pow2(h)
    ensures a0 + a1 < Pow2(h + 1) && x0 + x1 < Pow2(h + 1)
    ensures a0 * x1 + a1 * x0 < Pow2(2 * (h + 1))
  {
    ProductSpan(a0, x1, h, h);
    ProductSpan(a1, x0, h, h);
    assert Pow2(h + 1) == 2 * Pow2(h);
    assert Pow2(2 * h + 1) == 2 * Pow2(h + h);
    Pow2Monotone(2 * h + 1, 2 * (h + 1));
  }

  /** Where the top half lies beyond the wanted columns, it does not matter. */
  lemma TopHalfBeyond(a0: nat, a1: nat, x0: nat, x1: nat, m: nat, want: nat)
    requires want <= m
    ensures (a0 + Pow2(m) * a1) * (x0 + Pow2(m) * x1) % Pow2(want) == a0 * x0 % Pow2(want)
  {
    hide Pow2;
    var half, p := Pow2(m), Pow2(want);
    Recombine(a0, a1, x0, x1, half);
    Pow2Add(m - want, want);
    var rest := (a0 * x1 + a1 * x0) * Pow2(m - want) + a1 * x1 * Pow2(m - want) * half;
    MultipleOfWant(a0 * x1 + a1 * x0, a1 * x1, Pow2(m - want), p, half);
    ModOfMultiple(a0 * x0, rest, p);
  }

  lemma MultipleOfWant(mid: nat, top: nat, k: nat, p: nat, half: nat)
    requires half == k * p
    ensures mid * half + top * (half * half) == (mid * k + top * k * half) * p
  {
    calc {
      mid * half + top * (half * half);
      mid * (k * p) + top * half * (k * p);
    }
    assert top * half * (k * p) == top * k * half * p;
    assert mid * (k * p) == mid * k * p;
    ScaledSum(mid * k, top * k * half, p);
  }

  /** All three contributions, each cut to the wanted columns. */
  lemma RecombineCut(a0: nat, a1: nat, x0: nat, x1: nat, m: nat, want: nat, acc: int, mid: int, top: int)
    requires acc == a0 * x0 % Pow2(want)
    requires mid == (a0 * x1 + a1 * x0) * Pow2(m) % Pow2(want)
    requires top == a1 * x1 * Pow2(2 * m) % Pow2(want)
    ensures ((acc + mid) % Pow2(want) + top) % Pow2(want) == (a0 + Pow2(m) * a1) * (x0 + Pow2(m) * x1) % Pow2(want)
  {
    hide Pow2;
    var p, z0, z1, z2 := Pow2(want), a0 * x0, (a0 * x1 + a1 * x0) * Pow2(m), a1 * x1 * Pow2(2 * m);
    Pow2Add(m, m);
    SumOfRemainders(z0, z1, z2, p);
    assert z0 + z1 + z2 == (a0 + Pow2(m) * a1) * (x0 + Pow2(m) * x1) by {
      Recombine(a0, a1, x0, x1, Pow2(m));
    }
  }

  lemma SumOfRemainders(z0: nat, z1: nat, z2: nat, p: nat)
    requires p > 0
    ensures ((z0 % p + z1 % p) % p + z2 % p) % p == (z0 + z1 + z2) % p
  {
    AddModReduce(z0 % p, z1, p);
    AddModReduce(z0, z1, p);
    AddModReduce((z0 + z1) % p, z2, p);
    AddModReduce(z0 + z1, z2, p);
  }

  /** Above twice the half width the top product contributes nothing to the wanted columns. */
  lemma TopBeyond(top: nat, m: nat, want: nat)
    requires want <= 2 * m
    ensures top * Pow2(2 * m) % Pow2(want) == 0
  {
    hide Pow2;
    Pow2Add(2 * m - want, want);
    MultipleVanishes(top, Pow2(2 * m - want), Pow2(want));
  }

  lemma MultipleVanishes(top: nat, k: nat, p: nat)
    requires p > 0
    ensures top * (k * p) % p == 0
  {
    assert top * (k * p) == 0 + top * k * p;
    ModOfMultiple(0, top * k, p);
    SmallMod(0, p);
  }
}
