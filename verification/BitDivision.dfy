/**
 Restoring division: one loop gives the quotient and the remainder, a bit of the dividend at a time from
 the top, each step a full subtractor and a select.
 */
module BitDivision {
  import opened Numbers
  import opened VCircuit
  import opened PolyCoeffs
  import opened Karatsuba
  import opened BitCircuits

  // ---------------------------------------------------------------- numbers

  /** The difference of two words of `n` bits, and the borrow chain behind it. */
  ghost function Difference(r: Bits, x: Bits, n: nat): (d: Bits)
    ensures |d| == n
  {
    seq(n, k requires 0 <= k => (BitAt(r, k) != BitAt(x, k)) != CarryInto(Complement(r), x, false, k))
  }

  lemma {:induction false} DifferenceLow(r: Bits, x: Bits, n: nat, k: nat)
    requires |r| == |x| == n && k <= n
    ensures Low(Difference(r, x, n), k) == Low(r, k) - Low(x, k) + (if CarryInto(Complement(r), x, false, k) then Pow2(k) else 0)
    decreases k
  {
    if k > 0 {
      DifferenceLow(r, x, n, k - 1);
    }
  }

  /** Without a borrow the difference is the difference; a borrow says the subtrahend is greater. */
  lemma DifferenceNumber(r: Bits, x: Bits)
    requires |r| == |x|
    ensures CarryInto(Complement(r), x, false, |r|) <==> Num(r) < Num(x)
    ensures Num(r) >= Num(x) ==> Num(Difference(r, x, |r|)) == Num(r) - Num(x)
  {
    BorrowIsLess(r, x, |r|);
    DifferenceLow(r, x, |r|, |r|);
  }

  /** One more bit below. */
  lemma NumPush(x: bool, w: Bits)
    ensures Num([x] + w) == (if x then 1 else 0) + 2 * Num(w)
  {
    NumConcat([x], w);
    assert Pow2(1) == 2;
    assert Num([x]) == Low([x], 1) == Low([x], 0) + (if x then 1 else 0);
  }

  lemma NumPushFrom(w: Bits, i: nat)
    requires i < |w|
    ensures Num(w[i..]) == (if w[i] then 1 else 0) + 2 * Num(w[i + 1..])
  {
    assert w[i..] == [w[i]] + w[i + 1..];
    NumPush(w[i], w[i + 1..]);
  }

  /** The top bits of the dividend are divided: quotient bits so far, and what remains. */
  ghost predicate Divided(a: Bits, x: Bits, q: Bits, r: Bits, i: nat)
    requires |a| == |x| == |q| == |r| && i <= |a|
  {
    && Num(r) <= Num(a[i..])
    && (Num(x) > 0 ==> Num(a[i..]) == Num(q[i..]) * Num(x) + Num(r) && Num(r) < Num(x))
    && (Num(x) == 0 ==> Num(r) == Num(a[i..]) && forall k | i <= k < |q| :: q[k])
  }

  lemma DividedStart(a: Bits, x: Bits, q: Bits, r: Bits)
    requires |a| == |x| == |q| == |r| && forall k | 0 <= k < |r| :: !r[k]
    ensures Divided(a, x, q, r, |a|)
  {
    LowZero(r, |r|);
    assert a[|a|..] == [] && q[|a|..] == [];
  }

  /** Shifting in the next bit loses nothing: what remains is no longer than the bits consumed. */
  lemma ShiftFits(a: Bits, x: Bits, q: Bits, r: Bits, i: nat)
    requires 0 < i <= |a| && |a| == |x| == |q| == |r| && Divided(a, x, q, r, i)
    ensures Num([a[i - 1]] + r[..|r| - 1]) == (if a[i - 1] then 1 else 0) + 2 * Num(r)
  {
    hide Num, Pow2;
    var n := |r|;
    NumBound(a[i..]);
    Pow2Monotone(n - i, n - 1);
    NumSplit(r, n - 1);
    NoTop(Num(r), Num(r[..n - 1]), Num(r[n - 1..]), Pow2(n - 1));
    NumPush(a[i - 1], r[..n - 1]);
  }

  lemma NoTop(v: nat, low: nat, top: nat, place: nat)
    requires v == low + place * top && v < place
    ensures top == 0 && v == low
  {
  }

  lemma DividedStep(a: Bits, x: Bits, q: Bits, r: Bits, i: nat, shifted: Bits, next: Bits)
    requires 0 < i <= |a| && |a| == |x| == |q| == |r| && Divided(a, x, q, r, i)
    requires shifted == [a[i - 1]] + r[..|r| - 1]
    requires next == if Num(shifted) >= Num(x) then Difference(shifted, x, |a|) else shifted
    ensures Divided(a, x, q[i - 1 := Num(shifted) >= Num(x)], next, i - 1)
  {
    hide Num, Difference;
    ShiftFits(a, x, q, r, i);
    NumPushFrom(a, i - 1);
    DifferenceNumber(shifted, x);
    var q' := q[i - 1 := Num(shifted) >= Num(x)];
    NumPushFrom(q', i - 1);
    assert q'[i..] == q[i..];
    var quotient := Num(q[i..]);
    StepQuotient(quotient, Num(x), Num(r));
  }

  lemma StepQuotient(quotient: nat, x: nat, r: nat)
    ensures (2 * quotient) * x == 2 * (quotient * x) && (1 + 2 * quotient) * x == x + 2 * (quotient * x)
  {
  }

  /** `q` and `r` are quotient and remainder; dividing by zero gives all ones and the dividend. */
  ghost predicate IsDivision(a: Bits, x: Bits, q: Bits, r: Bits) {
    && (Num(x) > 0 ==> Num(a) == Num(q) * Num(x) + Num(r) && Num(r) < Num(x))
    && (Num(x) == 0 ==> Num(r) == Num(a) && forall k | 0 <= k < |q| :: q[k])
  }

  lemma DividedDone(a: Bits, x: Bits, q: Bits, r: Bits)
    requires |a| == |x| == |q| == |r| && Divided(a, x, q, r, 0)
    ensures IsDivision(a, x, q, r)
  {
    assert a[0..] == a && q[0..] == q;
  }

  // ---------------------------------------------------------------- circuits

  /** One position of a subtractor; the borrow is newer than the subtrahend. */
  method SubtractBit(b: Emitter, r: Var, x: Var, borrow: Var) returns (d: Var, next: Var)
    requires r < b.circuit.Size() && x < borrow < b.circuit.Size()
    modifies b
    ensures Pure(old(b.circuit), b.circuit) && BitVar(b.circuit, d) && BitVar(b.circuit, next)
    ensures old(b.circuit).Size() <= d < next < b.circuit.Size()
    ensures forall env {:trigger B(env, b.circuit, d)} ::
      B(env, b.circuit, d) == ((B(env, old(b.circuit), r) != B(env, old(b.circuit), x)) != B(env, old(b.circuit), borrow))
    ensures forall env {:trigger B(env, b.circuit, next)} ::
      B(env, b.circuit, next) == Majority(!B(env, old(b.circuit), r), B(env, old(b.circuit), x), B(env, old(b.circuit), borrow))
    ensures forall env {:trigger Harmless(env, b.circuit)} :: Harmless(env, b.circuit) <==> Harmless(env, old(b.circuit)) && XorSafe(env, old(b.circuit), r, x)
  {
    hide Run, Step, Harmless, Stored, Majority;
    ghost var c0 := b.circuit;
    var notR := b.BcNot(r);
    ghost var c1 := b.circuit;
    var t := b.BcXor(r, x);
    ghost var c2 := b.circuit;
    d := b.BcXor(t, borrow);
    ghost var c3 := b.circuit;
    next := b.BcCarry3(notR, x, borrow);
    forall env
      ensures B(env, b.circuit, d) == ((B(env, c0, r) != B(env, c0, x)) != B(env, c0, borrow))
      ensures B(env, b.circuit, next) == Majority(!B(env, c0, r), B(env, c0, x), B(env, c0, borrow))
      ensures Harmless(env, b.circuit) <==> Harmless(env, c0) && XorSafe(env, c0, r, x)
    {
      BitKept(env, c0, c1, r);
      BitKept(env, c0, c1, x);
      BitKept(env, c0, c1, borrow);
      BitKept(env, c1, c2, borrow);
      BitKept(env, c1, c2, x);
      BitKept(env, c1, c2, notR);
      BitKept(env, c2, c3, borrow);
      BitKept(env, c2, c3, x);
      BitKept(env, c2, c3, notR);
      BitKept(env, c3, b.circuit, d);
      assert B(env, c2, t) == (B(env, c1, r) != B(env, c1, x));
      assert B(env, c1, notR) == !B(env, c0, r);
      assert B(env, c3, d) == (B(env, c2, t) != B(env, c2, borrow));
      assert Harmless(env, c3) <==> Harmless(env, c2) && XorSafe(env, c2, t, borrow);
      assert Harmless(env, c2) <==> Harmless(env, c1) && XorSafe(env, c1, r, x);
      assert Harmless(env, c1) <==> Harmless(env, c0);
    }
  }

  /** The subtractor after `|diff|` positions. */
  ghost predicate SubtractState(env: Env, c0: Circuit, c: Circuit, r: seq<Var>, x: seq<Var>, diff: seq<Var>, borrow: Var)
    requires |diff| <= |r| == |x|
  {
    && B(env, c, borrow) == CarryInto(Complement(Word(env, c0, r)), Word(env, c0, x), false, |diff|)
    && Word(env, c, diff) == Difference(Word(env, c0, r), Word(env, c0, x), |diff|)
    && (Harmless(env, c) <==> Harmless(env, c0) && NoClash(env, c0, r, x, |diff|))
  }

  lemma DifferenceNext(r: Bits, x: Bits, i: nat)
    requires i < |r| == |x|
    ensures Difference(r, x, i + 1) == Difference(r, x, i) + [(r[i] != x[i]) != CarryInto(Complement(r), x, false, i)]
    ensures BitAt(Complement(r), i) == !r[i] && BitAt(x, i) == x[i]
  {
  }

  lemma SubtractStep(env: Env, c0: Circuit, c1: Circuit, c2: Circuit, r: seq<Var>, x: seq<Var>, diff: seq<Var>, borrow: Var, d: Var, next: Var)
    requires |diff| < |r| == |x| && SubtractState(env, c0, c1, r, x, diff, borrow)
    requires Keeps(c0, c1) && Keeps(c1, c2) && r[|diff|] < c0.Size() && x[|diff|] < c0.Size() && forall k | 0 <= k < |diff| :: diff[k] < c1.Size()
    requires
      var y, z := r[|diff|], x[|diff|];
      && B(env, c2, d) == ((B(env, c1, y) != B(env, c1, z)) != B(env, c1, borrow))
      && B(env, c2, next) == Majority(!B(env, c1, y), B(env, c1, z), B(env, c1, borrow))
      && (Harmless(env, c2) <==> Harmless(env, c1) && XorSafe(env, c1, y, z))
    ensures SubtractState(env, c0, c2, r, x, diff + [d], next)
  {
    hide Run, Harmless, Majority, NoClash, Word, Difference, Complement;
    var i := |diff|;
    BitKept(env, c0, c1, r[i]);
    BitKept(env, c0, c1, x[i]);
    VarsKept(env, c1, c2, diff);
    WordConcat(env, c2, diff, [d]);
    NoClashNext(env, c0, c1, r, x, i);
    var wr, wx := Word(env, c0, r), Word(env, c0, x);
    WordBit(env, c0, r, i);
    WordBit(env, c0, x, i);
    OneBit(env, c2, d);
    DifferenceNext(wr, wx, i);
  }

  /** A full subtractor: the difference and the borrow out of the top. */
  method Subtract(b: Emitter, r: seq<Var>, x: seq<Var>) returns (diff: seq<Var>, borrow: Var)
    requires |r| == |x| && BitVars(b.circuit, r) && BitVars(b.circuit, x)
    modifies b
    ensures Pure(old(b.circuit), b.circuit) && |diff| == |r| && BitVars(b.circuit, diff) && BitVar(b.circuit, borrow)
    ensures Newer(diff, old(b.circuit).Size()) && old(b.circuit).Size() <= borrow < b.circuit.Size()
    ensures forall env {:trigger Word(env, b.circuit, diff)} ::
      Word(env, b.circuit, diff) == Difference(Word(env, old(b.circuit), r), Word(env, old(b.circuit), x), |r|)
    ensures forall env {:trigger B(env, b.circuit, borrow)} ::
      B(env, b.circuit, borrow) <==> Num(Word(env, old(b.circuit), r)) < Num(Word(env, old(b.circuit), x))
    ensures forall env {:trigger Harmless(env, b.circuit)} ::
      Harmless(env, b.circuit) <==> Harmless(env, old(b.circuit)) && NoClash(env, old(b.circuit), r, x, |r|)
  {
    hide Run, Step, Harmless, Stored, Majority, NoClash, Word, Difference, Num, CarryInto, BitVar;
    ghost var c0 := b.circuit;
    borrow := b.BcConst(false);
    diff := [];
    BitVarsBelow(c0, r);
    BitVarsBelow(c0, x);
    assert BitVars(b.circuit, diff);
    forall env ensures SubtractState(env, c0, b.circuit, r, x, diff, borrow) {
      SubtractStart(env, c0, b.circuit, r, x, borrow);
    }
    for i := 0 to |r|
      invariant Pure(c0, b.circuit) && |diff| == i && c0.Size() <= borrow < b.circuit.Size()
      invariant BitVars(b.circuit, diff) && BitVar(b.circuit, borrow) && Newer(diff, c0.Size())
      invariant forall env {:trigger SubtractState(env, c0, b.circuit, r, x, diff, borrow)} :: SubtractState(env, c0, b.circuit, r, x, diff, borrow)
    {
      ghost var c1 := b.circuit;
      BitVarsBelow(c1, diff);
      var d, next := SubtractBit(b, r[i], x[i], borrow);
      forall env ensures SubtractState(env, c0, b.circuit, r, x, diff + [d], next) {
        assert SubtractState(env, c0, c1, r, x, diff, borrow);
        assert B(env, b.circuit, d) == ((B(env, c1, r[i]) != B(env, c1, x[i])) != B(env, c1, borrow));
        assert B(env, b.circuit, next) == Majority(!B(env, c1, r[i]), B(env, c1, x[i]), B(env, c1, borrow));
        SubtractStep(env, c0, c1, b.circuit, r, x, diff, borrow, d, next);
      }
      WordKept(c1, b.circuit, diff);
      diff, borrow := diff + [d], next;
    }
    forall env
      ensures Word(env, b.circuit, diff) == Difference(Word(env, c0, r), Word(env, c0, x), |r|)
      ensures B(env, b.circuit, borrow) <==> Num(Word(env, c0, r)) < Num(Word(env, c0, x))
      ensures Harmless(env, b.circuit) <==> Harmless(env, c0) && NoClash(env, c0, r, x, |r|)
    {
      assert SubtractState(env, c0, b.circuit, r, x, diff, borrow);
      DifferenceNumber(Word(env, c0, r), Word(env, c0, x));
    }
  }

  lemma SubtractStart(env: Env, c0: Circuit, c: Circuit, r: seq<Var>, x: seq<Var>, borrow: Var)
    requires |r| == |x| && SameHarm(c0, c) && !B(env, c, borrow)
    ensures SubtractState(env, c0, c, r, x, [], borrow)
  {
    hide Run, Harmless;
  }

  /** No dividend bit from position `from` on is the lowest divisor bit, both set. */
  ghost predicate DividesSafe(env: Env, c: Circuit, a: seq<Var>, x: seq<Var>, from: nat)
    requires |x| > 0 && from <= |a|
  {
    forall i | from <= i < |a| :: XorSafe(env, c, a[i], x[0])
  }

  /** Division after the positions from `i` on. */
  ghost predicate DivideState(env: Env, c0: Circuit, c: Circuit, a: seq<Var>, x: seq<Var>, q: seq<Var>, r: seq<Var>, i: nat)
    requires |a| == |x| == |q| == |r| > 0 && i <= |a|
  {
    && Divided(Word(env, c0, a), Word(env, c0, x), Word(env, c, q), Word(env, c, r), i)
    && (Harmless(env, c) <==> Harmless(env, c0) && DividesSafe(env, c0, a, x, i))
  }

  /** Shift in one bit of the dividend, subtract, and keep the difference unless it borrowed. */
  method DivideBit(b: Emitter, x: seq<Var>, shifted: seq<Var>) returns (keep: Var, r: seq<Var>)
    requires |shifted| == |x| > 0 && BitVars(b.circuit, x) && BitVars(b.circuit, shifted)
    modifies b
    ensures Pure(old(b.circuit), b.circuit) && |r| == |x| && BitVars(b.circuit, r) && BitVar(b.circuit, keep) && Newer(r, old(b.circuit).Size())
    ensures old(b.circuit).Size() <= keep < b.circuit.Size()
    ensures forall env {:trigger B(env, b.circuit, keep)} ::
      B(env, b.circuit, keep) <==> Num(Word(env, old(b.circuit), shifted)) >= Num(Word(env, old(b.circuit), x))
    ensures forall env {:trigger Word(env, b.circuit, r)} ::
      Word(env, b.circuit, r) == Remainder(Word(env, old(b.circuit), shifted), Word(env, old(b.circuit), x))
    ensures forall env {:trigger Harmless(env, b.circuit)} ::
      Harmless(env, b.circuit) <==> Harmless(env, old(b.circuit)) && NoClash(env, old(b.circuit), shifted, x, |x|)
  {
    hide Run, Step, Harmless, Stored, NoClash, Word, Difference, Num, BitVar;
    ghost var c0 := b.circuit;
    BitVarsBelow(c0, shifted);
    var diff, borrow := Subtract(b, shifted, x);
    ghost var c1 := b.circuit;
    keep := b.BcNot(borrow);
    ghost var c2 := b.circuit;
    WordKept(c1, c2, diff);
    WordKept(c0, c2, shifted);
    ghost var kept := [keep];
    assert BitVars(c2, kept);
    r := b.BcSelectVec(keep, diff, shifted);
    WordKept(c2, b.circuit, kept);
    assert BitVar(b.circuit, kept[0]);
    forall env
      ensures B(env, b.circuit, keep) <==> Num(Word(env, c0, shifted)) >= Num(Word(env, c0, x))
      ensures Word(env, b.circuit, r) == Remainder(Word(env, c0, shifted), Word(env, c0, x))
      ensures Harmless(env, b.circuit) <==> Harmless(env, c0) && NoClash(env, c0, shifted, x, |x|)
    {
      BitKept(env, c2, b.circuit, keep);
      assert B(env, c2, keep) == !B(env, c1, borrow);
      assert Word(env, c2, diff) == Word(env, c1, diff) && Word(env, c2, shifted) == Word(env, c0, shifted);
      DistinctNoClash(env, c2, diff, shifted);
      assert Harmless(env, c2) <==> Harmless(env, c1);
    }
  }

  ghost function Remainder(shifted: Bits, x: Bits): Bits {
    if Num(shifted) >= Num(x) then Difference(shifted, x, |shifted|) else shifted
  }

  /**
   Quotient and remainder. Dividing by zero gives the largest quotient and the dividend. What is held
   divides wherever no dividend bit is the lowest divisor bit, both set.
   */
  method BcUdivrem(b: Emitter, a: seq<Var>, x: seq<Var>) returns (q: seq<Var>, r: seq<Var>)
    requires |a| == |x| && BitVars(b.circuit, a) && BitVars(b.circuit, x)
    modifies b
    ensures Pure(old(b.circuit), b.circuit) && |q| == |r| == |a| && BitVars(b.circuit, q) && BitVars(b.circuit, r)
    ensures forall env {:trigger Word(env, b.circuit, q)} ::
      IsDivision(Word(env, old(b.circuit), a), Word(env, old(b.circuit), x), Word(env, b.circuit, q), Word(env, b.circuit, r))
    ensures |a| > 0 ==> forall env {:trigger Harmless(env, b.circuit)} ::
      Harmless(env, b.circuit) <==> Harmless(env, old(b.circuit)) && DividesSafe(env, old(b.circuit), a, x, 0)
    ensures forall env {:trigger Word(env, Stored(b.circuit), q)} | Harmless(env, b.circuit) ::
      Word(env, Stored(b.circuit), q) == Word(env, b.circuit, q) && Word(env, Stored(b.circuit), r) == Word(env, b.circuit, r)
  {
    hide Run, Step, Harmless, Stored, NoClash, Word, Num, BitVar, Divided, DividesSafe, IsDivision;
    ghost var c0 := b.circuit;
    if |a| == 0 {
      q, r := [], [];
      HeldProduct(c0, []);
      forall env ensures IsDivision(Word(env, c0, a), Word(env, c0, x), Word(env, c0, q), Word(env, c0, r)) {
        assert a == x == q == r == [];
        NothingDivided(Word(env, c0, q));
      }
      return;
    }
    r := b.BcConstWord(0, |a|);
    ghost var c1 := b.circuit;
    q := b.BcConstWord(0, |a|);
    WordKept(c1, b.circuit, r);
    forall env ensures DivideState(env, c0, b.circuit, a, x, q, r, |a|) {
      assert Harmless(env, b.circuit) <==> Harmless(env, c1);
      DivideStart(env, c0, b.circuit, a, x, q, r, Word(env, c1, r));
    }
    var i: nat := |a|;
    while i > 0
      invariant i <= |a| == |q| == |r| && Pure(c0, b.circuit) && BitVars(b.circuit, q) && BitVars(b.circuit, r) && Newer(r, c0.Size())
      invariant forall env {:trigger DivideState(env, c0, b.circuit, a, x, q, r, i)} :: DivideState(env, c0, b.circuit, a, x, q, r, i)
    {
      i := i - 1;
      ghost var c2, before := b.circuit, r;
      WordKept(c0, c2, x);
      WordKept(c0, c2, a);
      BitVarsBelow(c0, a);
      BitVarsBelow(c0, x);
      var shifted := [a[i]] + r[..|r| - 1];
      ShiftedVars(c2, a, r, i);
      var keep;
      keep, r := DivideBit(b, x, shifted);
      WordKept(c2, b.circuit, q);
      BitVarsBelow(c2, q);
      var longer := q[i := keep];
      forall env ensures DivideState(env, c0, b.circuit, a, x, longer, r, i) {
        assert DivideState(env, c0, c2, a, x, q, before, i + 1);
        DivideStep(env, c0, c2, b.circuit, a, x, q, before, i, keep, r);
      }
      q := longer;
    }
    HeldProduct(b.circuit, q);
    HeldProduct(b.circuit, r);
    assert i == 0;
    forall env
      ensures IsDivision(Word(env, c0, a), Word(env, c0, x), Word(env, b.circuit, q), Word(env, b.circuit, r))
      ensures Harmless(env, b.circuit) <==> Harmless(env, c0) && DividesSafe(env, c0, a, x, 0)
    {
      assert DivideState(env, c0, b.circuit, a, x, q, r, 0);
      DividedDone(Word(env, c0, a), Word(env, c0, x), Word(env, b.circuit, q), Word(env, b.circuit, r));
    }
  }

  lemma NothingDivided(w: Bits)
    requires |w| == 0
    ensures IsDivision(w, w, w, w)
  {
  }

  lemma ShiftedVars(c: Circuit, a: seq<Var>, r: seq<Var>, i: nat)
    requires i < |a| == |r| && BitVars(c, a) && BitVars(c, r)
    ensures BitVars(c, [a[i]] + r[..|r| - 1])
  {
    hide BitVar;
  }

  lemma DivideStart(env: Env, c0: Circuit, c: Circuit, a: seq<Var>, x: seq<Var>, q: seq<Var>, r: seq<Var>, zeros: Bits)
    requires |a| == |x| == |q| == |r| > 0 && Word(env, c, r) == zeros == Digits(0, |a|) && (Harmless(env, c) <==> Harmless(env, c0))
    ensures DivideState(env, c0, c, a, x, q, r, |a|)
  {
    hide Run, Harmless, Word, Num;
    forall k | 0 <= k < |r| ensures !zeros[k] {
      SmallMod(0, Pow2(k));
    }
    DividedStart(Word(env, c0, a), Word(env, c0, x), Word(env, c, q), Word(env, c, r));
  }

  lemma DivideStep(env: Env, c0: Circuit, c1: Circuit, c2: Circuit, a: seq<Var>, x: seq<Var>, q: seq<Var>, before: seq<Var>, i: nat, keep: Var, r: seq<Var>)
    requires i < |a| == |x| == |q| == |before| == |r| && DivideState(env, c0, c1, a, x, q, before, i + 1)
    requires Keeps(c0, c1) && Keeps(c1, c2) && Newer(before, c0.Size()) && (forall k | 0 <= k < |q| :: q[k] < c1.Size())
    requires forall k | 0 <= k < |a| :: a[k] < c0.Size() && x[k] < c0.Size()
    requires
      var shifted := [a[i]] + before[..|before| - 1];
      && (B(env, c2, keep) <==> Num(Word(env, c1, shifted)) >= Num(Word(env, c1, x)))
      && Word(env, c2, r) == Remainder(Word(env, c1, shifted), Word(env, c1, x))
      && (Harmless(env, c2) <==> Harmless(env, c1) && NoClash(env, c1, shifted, x, |x|))
    ensures DivideState(env, c0, c2, a, x, q[i := keep], r, i)
  {
    hide Run, Harmless, Num, Difference, Divided;
    var shifted := [a[i]] + before[..|before| - 1];
    var wa, wx, wq, wr := Word(env, c0, a), Word(env, c0, x), Word(env, c1, q), Word(env, c1, before);
    VarsKept(env, c0, c1, x);
    VarsKept(env, c1, c2, q);
    BitKept(env, c0, c1, a[i]);
    assert Word(env, c1, shifted) == [wa[i]] + wr[..|wr| - 1];
    assert Word(env, c2, q[i := keep]) == wq[i := B(env, c2, keep)];
    DividedStep(wa, wx, wq, wr, i + 1, Word(env, c1, shifted), Word(env, c2, r));
    assert DividesSafe(env, c0, a, x, i) <==> DividesSafe(env, c0, a, x, i + 1) && XorSafe(env, c0, a[i], x[0]);
    assert NoClash(env, c1, shifted, x, |x|) <==> XorSafe(env, c1, a[i], x[0]) by {
      assert shifted[0] == a[i] && forall k | 1 <= k < |x| :: shifted[k] == before[k - 1];
    }
  }
}
