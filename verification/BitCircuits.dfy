/**
 The bit-level circuits: words in, words out, every bit one GF(2) polynomial over earlier
 variables. Contracts speak about every environment the circuit may later be run in.
 */
module BitCircuits {
  import opened Numbers
  import opened VCircuit
  import opened PolyCoeffs
  import opened Karatsuba

  // ---------------------------------------------------------------- what the ripple chains compute

  /** The carry into position `i` of `a + x + carryIn`. */
  ghost function CarryInto(a: Bits, x: Bits, carryIn: bool, i: nat): bool {
    if i == 0 then carryIn
    else Majority(BitAt(a, i - 1), BitAt(x, i - 1), CarryInto(a, x, carryIn, i - 1))
  }

  ghost function Sum(a: Bits, x: Bits, carryIn: bool, n: nat): (r: Bits)
    ensures |r| == n
  {
    seq(n, i requires 0 <= i => (BitAt(a, i) != BitAt(x, i)) != CarryInto(a, x, carryIn, i))
  }

  lemma {:induction false} SumLow(a: Bits, x: Bits, carryIn: bool, n: nat, i: nat)
    requires i <= n
    ensures Low(Sum(a, x, carryIn, n), i) + (if CarryInto(a, x, carryIn, i) then Pow2(i) else 0)
      == Low(a, i) + Low(x, i) + (if carryIn then 1 else 0)
    decreases i
  {
    if i > 0 {
      SumLow(a, x, carryIn, n, i - 1);
    }
  }

  /** The ripple adder adds, modulo `2^n`. */
  lemma SumNumber(a: Bits, x: Bits, carryIn: bool, n: nat)
    requires |a| == n && |x| == n
    ensures Num(Sum(a, x, carryIn, n)) == (Num(a) + Num(x) + (if carryIn then 1 else 0)) % Pow2(n)
    ensures Num(a) + Num(x) + (if carryIn then 1 else 0) == Num(Sum(a, x, carryIn, n)) + (if CarryInto(a, x, carryIn, n) then Pow2(n) else 0)
  {
    SumLow(a, x, carryIn, n, n);
    NumBound(Sum(a, x, carryIn, n));
    var carry := if CarryInto(a, x, carryIn, n) then 1 else 0;
    DivModUnique(Num(a) + Num(x) + (if carryIn then 1 else 0), Pow2(n), carry, Num(Sum(a, x, carryIn, n)));
  }

  ghost function Complement(x: Bits): (r: Bits)
    ensures |r| == |x|
  {
    seq(|x|, i requires 0 <= i < |x| => !x[i])
  }

  lemma {:induction false} ComplementLow(x: Bits, i: nat)
    requires i <= |x|
    ensures Low(Complement(x), i) == Pow2(i) - 1 - Low(x, i)
  {
    if i > 0 {
      ComplementLow(x, i - 1);
    }
  }

  /** The borrow out of the low `n` bits of `a - x` says `a < x`. */
  lemma BorrowIsLess(a: Bits, x: Bits, n: nat)
    requires |a| == n && |x| == n
    ensures CarryInto(Complement(a), x, false, n) <==> Num(a) < Num(x)
  {
    SumLow(Complement(a), x, false, n, n);
    ComplementLow(a, n);
    LowBound(Sum(Complement(a), x, false, n), n);
  }

  /** The two's-complement reading of a word. */
  function Signed(w: Bits): int {
    if |w| > 0 && w[|w| - 1] then Num(w) - Pow2(|w|) else Num(w)
  }

  lemma SignedOrder(a: Bits, x: Bits)
    requires |a| == |x| > 0
    ensures Signed(a) < Signed(x) <==>
      (a[|a| - 1] && !x[|x| - 1]) || (a[|a| - 1] == x[|x| - 1] && Num(a) < Num(x))
  {
    NumBound(a);
    NumBound(x);
    TopBit(a);
    TopBit(x);
  }

  /** Signed order of two words: the signs decide, or else the unsigned order. */
  lemma SignedWords(env: Env, c: Circuit, a: seq<Var>, x: seq<Var>)
    requires |a| == |x| > 0
    ensures Signed(Word(env, c, a)) < Signed(Word(env, c, x)) <==>
      if B(env, c, a[|a| - 1]) == B(env, c, x[|x| - 1]) then Num(Word(env, c, a)) < Num(Word(env, c, x)) else B(env, c, a[|a| - 1])
  {
    hide Run, Num, Signed;
    SignedOrder(Word(env, c, a), Word(env, c, x));
  }

  lemma TopBit(a: Bits)
    requires |a| > 0
    ensures a[|a| - 1] <==> Num(a) >= Pow2(|a| - 1)
  {
    LowBound(a, |a| - 1);
  }

  lemma RowBit(digit: bool, x: Bits, i: nat, cols: nat, k: nat)
    requires k < cols
    ensures Row(digit, x, i, cols)[k] == (digit && i <= k < i + |x| && x[k - i])
  {
  }

  lemma BitKept(env: Env, c: Circuit, d: Circuit, v: Var)
    requires Keeps(c, d) && v < c.Size()
    ensures B(env, d, v) == B(env, c, v)
  {
    hide Run, Step;
  }

  // ---------------------------------------------------------------- operands on one wire

  /** The operands are two variables, or one that is clear. */
  ghost predicate XorSafe(env: Env, c: Circuit, a: Var, b: Var) {
    a != b || !B(env, c, a)
  }

  ghost predicate SelectSafe(env: Env, c: Circuit, cond: Var, a: Var, b: Var) {
    a != b || !(B(env, c, cond) && B(env, c, a))
  }

  ghost predicate MajoritySafe(env: Env, c: Circuit, x: Var, y: Var, z: Var) {
    CarrySafe(x, y, z) || !(B(env, c, x) && B(env, c, y) && B(env, c, z))
  }

  /** No position combines a set variable with itself, up to position `n`. */
  ghost predicate NoClash(env: Env, c: Circuit, a: seq<Var>, x: seq<Var>, n: nat)
    requires n <= |a| && n <= |x|
  {
    forall i | 0 <= i < n :: XorSafe(env, c, a[i], x[i])
  }

  /** All variables were made at or after `size`. */
  predicate Newer(vars: seq<Var>, size: nat) {
    forall i | 0 <= i < |vars| :: vars[i] >= size
  }

  predicate Ascending(vars: seq<Var>) {
    forall i, j | 0 <= i < j < |vars| :: vars[i] < vars[j]
  }

  /** Words whose variables cannot meet. */
  lemma ApartNoClash(env: Env, c: Circuit, a: seq<Var>, x: seq<Var>, size: nat)
    requires |a| == |x| && Newer(x, size) && forall i | 0 <= i < |a| :: a[i] < size
    ensures NoClash(env, c, a, x, |a|)
  {
  }

  lemma HeldWordKept(env: Env, c: Circuit, d: Circuit, vars: seq<Var>)
    requires Extends(c, d) && forall i | 0 <= i < |vars| :: vars[i] < c.Size()
    ensures Word(env, Stored(d), vars) == Word(env, Stored(c), vars)
  {
    hide Run, Stored;
    HeldKept(c, d);
    forall i | 0 <= i < |vars| ensures B(env, Stored(d), vars[i]) == B(env, Stored(c), vars[i]) {
    }
  }

  lemma NoClashKept(env: Env, c: Circuit, d: Circuit, a: seq<Var>, x: seq<Var>, n: nat)
    requires Keeps(c, d) && n <= |a| && n <= |x| && forall i | 0 <= i < n :: a[i] < c.Size()
    ensures NoClash(env, d, a, x, n) <==> NoClash(env, c, a, x, n)
  {
    hide Run;
    forall i | 0 <= i < n ensures XorSafe(env, d, a[i], x[i]) <==> XorSafe(env, c, a[i], x[i]) {
      BitKept(env, c, d, a[i]);
    }
  }

  lemma NoClashStart(env: Env, c: Circuit, a: seq<Var>, x: seq<Var>)
    ensures NoClash(env, c, a, x, 0)
  {
  }

  lemma NoClashNext(env: Env, c0: Circuit, c1: Circuit, a: seq<Var>, x: seq<Var>, i: nat)
    requires Keeps(c0, c1) && i < |a| == |x| && a[i] < c0.Size()
    ensures NoClash(env, c0, a, x, i + 1) <==> NoClash(env, c0, a, x, i) && XorSafe(env, c1, a[i], x[i])
  {
    hide Run;
    BitKept(env, c0, c1, a[i]);
  }

  ghost predicate SelectsSafe(env: Env, c: Circuit, cond: Var, a: seq<Var>, x: seq<Var>, n: nat)
    requires n <= |a| && n <= |x|
  {
    forall i | 0 <= i < n :: SelectSafe(env, c, cond, a[i], x[i])
  }

  /** A vector select after `|out|` positions: what was asked for, and whether that is what is held. */
  ghost predicate SelectState(env: Env, c0: Circuit, c: Circuit, cond: Var, a: seq<Var>, x: seq<Var>, out: seq<Var>)
    requires |out| <= |a| == |x|
  {
    && Word(env, c, out) == Word(env, c0, if B(env, c0, cond) then a else x)[..|out|]
    && (Harmless(env, c) <==> Harmless(env, c0) && NoClash(env, c0, a, x, |out|))
    && (Word(env, Stored(c), out) == Word(env, Stored(c0), if B(env, Stored(c0), cond) then a else x)[..|out|])
         == SelectsSafe(env, Stored(c0), cond, a, x, |out|)
  }

  lemma SelectStart(env: Env, c: Circuit, cond: Var, a: seq<Var>, x: seq<Var>)
    requires |a| == |x|
    ensures SelectState(env, c, c, cond, a, x, [])
  {
    hide Run, Harmless, Stored;
  }

  /** One more position of words read before and after. */
  lemma WordStep(env: Env, c0: Circuit, c1: Circuit, c2: Circuit, out: seq<Var>, bit: Var, chosen: seq<Var>, right: bool, safe: bool)
    requires |out| < |chosen| && right == (Word(env, c1, out) == Word(env, c0, chosen)[..|out|])
    requires Word(env, c2, out) == Word(env, c1, out) && safe == (B(env, c2, bit) == B(env, c0, chosen[|out|]))
    ensures (Word(env, c2, out + [bit]) == Word(env, c0, chosen)[..|out| + 1]) == (right && safe)
  {
    hide Run;
    var whole, i := Word(env, c0, chosen), |out|;
    WordConcat(env, c2, out, [bit]);
    assert whole[..i + 1] == whole[..i] + [whole[i]];
    var held := Word(env, c2, out + [bit]);
    assert held == Word(env, c1, out) + [B(env, c2, bit)];
    assert held[..i] == Word(env, c1, out) && whole[..i + 1][..i] == whole[..i];
  }

  lemma SelectStep(env: Env, c0: Circuit, c1: Circuit, c2: Circuit, cond: Var, a: seq<Var>, x: seq<Var>, out: seq<Var>, bit: Var)
    requires |out| < |a| == |x| && Keeps(c0, c1) && Keeps(c1, c2) && cond < c0.Size() && forall k | 0 <= k < |out| :: out[k] < c1.Size()
    requires (forall k | 0 <= k < |a| :: a[k] < c0.Size() && x[k] < c0.Size()) && SelectState(env, c0, c1, cond, a, x, out)
    requires
      var y, z := a[|out|], x[|out|];
      && B(env, c2, bit) == (if B(env, c1, cond) then B(env, c1, y) else B(env, c1, z))
      && (Harmless(env, c2) <==> Harmless(env, c1) && XorSafe(env, c1, y, z))
      && (B(env, Stored(c2), bit) == Chosen(env, Stored(c1), cond, y, z)) == SelectSafe(env, Stored(c1), cond, y, z)
    ensures SelectState(env, c0, c2, cond, a, x, out + [bit])
  {
    hide Run, Stored, Harmless, Word;
    var i := |out|;
    var y, z := a[i], x[i];
    HeldKept(c0, c1);
    HeldWordKept(env, c1, c2, out);
    VarsKept(env, c1, c2, out);
    BitKept(env, c0, c1, cond);
    BitKept(env, c0, c1, y);
    BitKept(env, c0, c1, z);
    BitKept(env, Stored(c0), Stored(c1), cond);
    BitKept(env, Stored(c0), Stored(c1), y);
    BitKept(env, Stored(c0), Stored(c1), z);
    NoClashNext(env, c0, c1, a, x, i);
    WordStep(env, c0, c1, c2, out, bit, if B(env, c0, cond) then a else x, true, true);
    var h0 := Stored(c0);
    SelectsNext(env, h0, cond, a, x, i);
    WordStep(env, h0, Stored(c1), Stored(c2), out, bit, if B(env, h0, cond) then a else x,
      SelectsSafe(env, h0, cond, a, x, i), SelectSafe(env, h0, cond, y, z));
  }

  lemma SelectsNext(env: Env, c: Circuit, cond: Var, a: seq<Var>, x: seq<Var>, i: nat)
    requires i < |a| == |x|
    ensures SelectsSafe(env, c, cond, a, x, i + 1) <==> SelectsSafe(env, c, cond, a, x, i) && SelectSafe(env, c, cond, a[i], x[i])
  {
  }

  lemma VarsKept(env: Env, c: Circuit, d: Circuit, vars: seq<Var>)
    requires Keeps(c, d) && forall i | 0 <= i < |vars| :: vars[i] < c.Size()
    ensures Word(env, d, vars) == Word(env, c, vars)
  {
    hide Run;
    forall i | 0 <= i < |vars| ensures B(env, d, vars[i]) == B(env, c, vars[i]) {
      BitKept(env, c, d, vars[i]);
    }
  }

  lemma SelectDone(env: Env, c0: Circuit, c: Circuit, cond: Var, a: seq<Var>, x: seq<Var>, out: seq<Var>)
    requires |out| == |a| == |x| && SelectState(env, c0, c, cond, a, x, out)
    ensures Word(env, c, out) == Word(env, c0, if B(env, c0, cond) then a else x)
    ensures Harmless(env, c) <==> Harmless(env, c0) && NoClash(env, c0, a, x, |a|)
    ensures (Word(env, Stored(c), out) == Word(env, Stored(c0), if B(env, Stored(c0), cond) then a else x))
      == SelectsSafe(env, Stored(c0), cond, a, x, |a|)
  {
    hide Run, Stored, Harmless, SelectsSafe, NoClash;
    var whole, held := Word(env, c0, if B(env, c0, cond) then a else x), Word(env, Stored(c0), if B(env, Stored(c0), cond) then a else x);
    assert whole[..|a|] == whole && held[..|a|] == held;
  }

  /** Two variables agree, as it is held: a set variable does not agree with itself. */
  ghost predicate HeldSame(env: Env, c: Circuit, a: Var, x: Var) {
    B(env, c, a) == B(env, c, x) && XorSafe(env, c, a, x)
  }

  ghost function HeldAgree(env: Env, c: Circuit, a: seq<Var>, x: seq<Var>, n: nat): (r: Bits)
    requires n <= |a| && n <= |x|
    ensures |r| == n
  {
    seq(n, i requires 0 <= i < n => HeldSame(env, c, a[i], x[i]))
  }

  /** What is held of an equality: equal words without a set variable facing itself. */
  ghost predicate HeldEqual(env: Env, c: Circuit, a: seq<Var>, x: seq<Var>)
    requires |a| == |x|
  {
    Word(env, c, a) == Word(env, c, x) && NoClash(env, c, a, x, |a|)
  }

  /** What is held of a signed comparison: false where both words are negative and share their sign variable. */
  ghost predicate HeldLess(env: Env, c: Circuit, a: seq<Var>, x: seq<Var>)
    requires |a| == |x| > 0
  {
    XorSafe(env, c, a[|a| - 1], x[|x| - 1]) && Signed(Word(env, c, a)) < Signed(Word(env, c, x))
  }

  lemma SignedHeld(env: Env, c: Circuit, a: seq<Var>, x: seq<Var>, ult: bool)
    requires |a| == |x| > 0 && ult == (Num(Word(env, c, a)) < Num(Word(env, c, x)))
    ensures var y, z := a[|a| - 1], x[|x| - 1];
      HeldLess(env, c, a, x) <==> (B(env, c, y) && !B(env, c, z)) || (HeldSame(env, c, y, z) && ult)
  {
    hide Run, Num, Signed, Word;
    SignedWords(env, c, a, x);
  }

  /** The last gates of a signed comparison, as they are held. */
  lemma LessHeld(env: Env, c0: Circuit, c3: Circuit, c4: Circuit, c5: Circuit, a: seq<Var>, x: seq<Var>, neg: Var, ult: Var, same: Var, id: Var)
    requires |a| == |x| > 0 && a[|a| - 1] < c0.Size() && x[|x| - 1] < c0.Size() && neg < c3.Size()
    requires Keeps(c0, c3) && Extends(c3, c4) && Harmless(env, c3)
    requires
      var y, z := a[|a| - 1], x[|x| - 1];
      && B(env, c3, ult) == (Num(Word(env, c0, a)) < Num(Word(env, c0, x)))
      && B(env, c3, neg) == (B(env, c0, y) && !B(env, c0, z))
      && B(env, Stored(c4), same) == (HeldSame(env, Stored(c3), y, z) && B(env, Stored(c3), ult))
      && B(env, Stored(c5), id) == (B(env, Stored(c4), neg) || B(env, Stored(c4), same))
    ensures B(env, Stored(c5), id) == HeldLess(env, c0, a, x)
  {
    hide Run, Harmless, Stored, Num, Word, HeldLess;
    HeldKept(c3, c4);
    HarmlessRuns(env, c3);
    BitKept(env, c0, c3, a[|a| - 1]);
    BitKept(env, c0, c3, x[|x| - 1]);
    BitKept(env, Stored(c3), Stored(c4), neg);
    SignedHeld(env, c0, a, x, B(env, c3, ult));
  }

  predicate AllSet(w: Bits, n: nat)
    requires n <= |w|
  {
    forall i | 0 <= i < n :: w[i]
  }

  lemma AllSetNext(env: Env, c: Circuit, vars: seq<Var>, i: nat)
    requires i < |vars|
    ensures AllSet(Word(env, c, vars), i + 1) <==> AllSet(Word(env, c, vars), i) && B(env, c, vars[i])
    ensures i == 0 ==> AllSet(Word(env, c, vars), i)
  {
    hide Run;
    assert Word(env, c, vars)[i] == B(env, c, vars[i]);
  }

  lemma AllAgree(env: Env, c: Circuit, a: seq<Var>, x: seq<Var>)
    requires |a| == |x|
    ensures AllSet(SameBits(Word(env, c, a), Word(env, c, x), |a|), |a|) <==> Word(env, c, a) == Word(env, c, x)
  {
    hide Run;
    var wa, wx := Word(env, c, a), Word(env, c, x);
    if AllSet(SameBits(wa, wx, |a|), |a|) {
      forall i | 0 <= i < |a| ensures wa[i] == wx[i] {
        assert SameBits(wa, wx, |a|)[i];
      }
    }
  }

  lemma AllHeldAgree(env: Env, c: Circuit, a: seq<Var>, x: seq<Var>)
    requires |a| == |x|
    ensures AllSet(HeldAgree(env, c, a, x, |a|), |a|) <==> HeldEqual(env, c, a, x)
  {
    hide Run;
    var wa, wx := Word(env, c, a), Word(env, c, x);
    if AllSet(HeldAgree(env, c, a, x, |a|), |a|) {
      forall i | 0 <= i < |a| ensures wa[i] == wx[i] && XorSafe(env, c, a[i], x[i]) {
        assert HeldAgree(env, c, a, x, |a|)[i];
      }
    }
    if HeldEqual(env, c, a, x) {
      forall i | 0 <= i < |a| ensures HeldAgree(env, c, a, x, |a|)[i] {
        assert wa[i] == wx[i];
      }
    }
  }

  /** A vector agreement after `|out|` positions. */
  ghost predicate AgreeState(env: Env, c0: Circuit, c: Circuit, a: seq<Var>, x: seq<Var>, out: seq<Var>)
    requires |out| <= |a| == |x|
  {
    && Word(env, c, out) == SameBits(Word(env, c0, a), Word(env, c0, x), |out|)
    && (Harmless(env, c) <==> Harmless(env, c0) && NoClash(env, c0, a, x, |out|))
    && Word(env, Stored(c), out) == HeldAgree(env, Stored(c0), a, x, |out|)
  }

  lemma AgreeStart(env: Env, c: Circuit, a: seq<Var>, x: seq<Var>)
    requires |a| == |x|
    ensures AgreeState(env, c, c, a, x, [])
  {
    hide Run, Harmless, Stored;
  }

  lemma AgreeNext(env: Env, c: Circuit, a: seq<Var>, x: seq<Var>, i: nat)
    requires i < |a| == |x|
    ensures SameBits(Word(env, c, a), Word(env, c, x), i + 1) == SameBits(Word(env, c, a), Word(env, c, x), i) + [B(env, c, a[i]) == B(env, c, x[i])]
  {
    hide Run;
  }

  lemma HeldAgreeNext(env: Env, c: Circuit, a: seq<Var>, x: seq<Var>, i: nat)
    requires i < |a| == |x|
    ensures HeldAgree(env, c, a, x, i + 1) == HeldAgree(env, c, a, x, i) + [HeldSame(env, c, a[i], x[i])]
  {
    hide Run;
  }

  lemma OneBit(env: Env, c: Circuit, v: Var)
    ensures Word(env, c, [v]) == [B(env, c, v)]
  {
    hide Run;
  }

  lemma AgreeStep(env: Env, c0: Circuit, c1: Circuit, c2: Circuit, a: seq<Var>, x: seq<Var>, out: seq<Var>, bit: Var)
    requires |out| < |a| == |x| && Keeps(c0, c1) && Keeps(c1, c2) && forall k | 0 <= k < |out| :: out[k] < c1.Size()
    requires (forall k | 0 <= k < |a| :: a[k] < c0.Size() && x[k] < c0.Size()) && AgreeState(env, c0, c1, a, x, out)
    requires
      var y, z := a[|out|], x[|out|];
      && B(env, c2, bit) == (B(env, c1, y) == B(env, c1, z))
      && (Harmless(env, c2) <==> Harmless(env, c1) && XorSafe(env, c1, y, z))
      && B(env, Stored(c2), bit) == HeldSame(env, Stored(c1), y, z)
    ensures AgreeState(env, c0, c2, a, x, out + [bit])
  {
    hide Run, Stored, Harmless, Word, SameBits, HeldAgree, NoClash;
    var i := |out|;
    var y, z := a[i], x[i];
    HeldKept(c0, c1);
    HeldWordKept(env, c1, c2, out);
    VarsKept(env, c1, c2, out);
    BitKept(env, c0, c1, y);
    BitKept(env, c0, c1, z);
    BitKept(env, Stored(c0), Stored(c1), y);
    BitKept(env, Stored(c0), Stored(c1), z);
    NoClashNext(env, c0, c1, a, x, i);
    WordConcat(env, c2, out, [bit]);
    WordConcat(env, Stored(c2), out, [bit]);
    OneBit(env, c2, bit);
    OneBit(env, Stored(c2), bit);
    AgreeNext(env, c0, a, x, i);
    HeldAgreeNext(env, Stored(c0), a, x, i);
  }

  ghost predicate Chosen(env: Env, c: Circuit, cond: Var, a: Var, b: Var) {
    if B(env, c, cond) then B(env, c, a) else B(env, c, b)
  }

  ghost predicate MajorityOf(env: Env, c: Circuit, x: Var, y: Var, z: Var) {
    Majority(B(env, c, x), B(env, c, y), B(env, c, z))
  }

  ghost predicate SumBit(env: Env, c: Circuit, a: Var, x: Var, carry: Var) {
    (B(env, c, a) != B(env, c, x)) != B(env, c, carry)
  }

  lemma BitVarsBelow(c: Circuit, vars: seq<Var>)
    requires BitVars(c, vars)
    ensures forall i | 0 <= i < |vars| :: BitVar(c, vars[i]) && vars[i] < c.Size()
  {
  }

  /** The ripple adder after `|out|` positions: what was asked for, and whether that is what is held. */
  ghost predicate AdderState(env: Env, c0: Circuit, c: Circuit, a: seq<Var>, x: seq<Var>, carryIn: bool, out: seq<Var>, carry: Var)
    requires |out| <= |a| == |x|
  {
    && B(env, c, carry) == CarryInto(Word(env, c0, a), Word(env, c0, x), carryIn, |out|)
    && Word(env, c, out) == Sum(Word(env, c0, a), Word(env, c0, x), carryIn, |out|)
    && (Harmless(env, c) <==> Harmless(env, c0) && NoClash(env, c0, a, x, |out|))
    && (Harmless(env, c0) && !NoClash(env, c0, a, x, |out|) ==>
          Word(env, Stored(c), out) != Sum(Word(env, c0, a), Word(env, c0, x), carryIn, |out|))
  }

  lemma AdderStart(env: Env, c0: Circuit, c: Circuit, a: seq<Var>, x: seq<Var>, carryIn: bool, carry: Var)
    requires |a| == |x| && SameHarm(c0, c) && B(env, c, carry) == carryIn
    ensures AdderState(env, c0, c, a, x, carryIn, [], carry)
  {
    hide Run, Harmless;
  }

  lemma AdderStep(env: Env, c0: Circuit, c1: Circuit, c2: Circuit, a: seq<Var>, x: seq<Var>, carryIn: bool, out: seq<Var>,
                  carry: Var, sum: Var, newCarry: Var)
    requires |out| < |a| == |x| && AdderState(env, c0, c1, a, x, carryIn, out, carry)
    requires Keeps(c0, c1) && Keeps(c1, c2) && a[|out|] < c0.Size() && x[|out|] < c0.Size() && forall k | 0 <= k < |out| :: out[k] < c1.Size()
    requires
      var i := |out|;
      && B(env, c2, sum) == SumBit(env, c1, a[i], x[i], carry)
      && B(env, c2, newCarry) == Majority(B(env, c1, a[i]), B(env, c1, x[i]), B(env, c1, carry))
      && (B(env, Stored(c2), sum) == SumBit(env, Stored(c1), a[i], x[i], carry)) == XorSafe(env, Stored(c1), a[i], x[i])
      && (Harmless(env, c2) <==> Harmless(env, c1) && XorSafe(env, c1, a[i], x[i]))
    ensures AdderState(env, c0, c2, a, x, carryIn, out + [sum], newCarry)
  {
    hide Run, Step, Harmless, Stored, Majority;
    var i := |out|;
    BitKept(env, c0, c1, a[i]);
    BitKept(env, c0, c1, x[i]);
    var wa, wx := Word(env, c0, a), Word(env, c0, x);
    SumSnoc(wa, wx, carryIn, i);
    WordConcat(env, c2, out, [sum]);
    forall k | 0 <= k < |out| ensures B(env, c2, out[k]) == B(env, c1, out[k]) {
      BitKept(env, c1, c2, out[k]);
    }
    assert Word(env, c2, out) == Word(env, c1, out);
    assert NoClash(env, c0, a, x, i + 1) <==> NoClash(env, c0, a, x, i) && XorSafe(env, c0, a[i], x[i]);
    if Harmless(env, c0) && !NoClash(env, c0, a, x, i + 1) {
      WordConcat(env, Stored(c2), out, [sum]);
      HeldWordKept(env, c1, c2, out);
      var held, right := Word(env, Stored(c2), out + [sum]), Sum(wa, wx, carryIn, i + 1);
      assert held[..i] == Word(env, Stored(c1), out) && right[..i] == Sum(wa, wx, carryIn, i);
      if NoClash(env, c0, a, x, i) {
        HarmlessRuns(env, c1);
        assert held[i] == B(env, Stored(c2), sum);
        assert held[i] != right[i];
      }
    }
  }

  lemma AdderDone(env: Env, c0: Circuit, c: Circuit, a: seq<Var>, x: seq<Var>, carryIn: bool, out: seq<Var>, carry: Var)
    requires |out| == |a| == |x| && AdderState(env, c0, c, a, x, carryIn, out, carry)
    ensures Word(env, c, out) == Sum(Word(env, c0, a), Word(env, c0, x), carryIn, |a|)
    ensures Harmless(env, c) <==> Harmless(env, c0) && NoClash(env, c0, a, x, |a|)
    ensures Harmless(env, c0) ==>
      (Word(env, Stored(c), out) == Sum(Word(env, c0, a), Word(env, c0, x), carryIn, |a|)) == NoClash(env, c0, a, x, |a|)
  {
    hide Run, Harmless, Stored, Word, Sum, NoClash;
    if Harmless(env, c) {
      HeldWord(env, c, out);
    }
  }

  // ---------------------------------------------------------------- the emitter

  /**
   Gates hand polynomials over and `circuit` records them as they were handed over; what the circuit
   then holds is `Stored(circuit)`. Every contract speaks of both: what was asked for, and when that is
   what is held.
   */
  class Emitter {
    var circuit: Circuit

    constructor ()
      ensures circuit == Circuit(0, [])
    {
      circuit := Circuit(0, []);
    }

    /** A fresh circuit parameter. Parameters come before every statement. */
    method Param() returns (id: Var)
      requires circuit.stmts == []
      modifies this
      ensures circuit == Circuit(old(circuit).params + 1, []) && id == old(circuit).params
    {
      id := circuit.params;
      circuit := Circuit(circuit.params + 1, []);
    }

    method Emit(stmt: Stmt) returns (id: Var)
      modifies this
      ensures circuit == old(circuit).(stmts := old(circuit).stmts + [stmt])
      ensures id == old(circuit).Size() && circuit.Size() == id + 1
      ensures Keeps(old(circuit), circuit)
      ensures !stmt.StorageWrite? ==> Pure(old(circuit), circuit)
      ensures forall env {:trigger Run(env, circuit)} :: Run(env, circuit) == Step(Run(env, old(circuit)), stmt)
      ensures forall env {:trigger Run(env, Stored(circuit))} :: Run(env, Stored(circuit)) == Step(Run(env, Stored(old(circuit))), StoredStmt(stmt))
      ensures !stmt.Poly? ==> SameHarm(old(circuit), circuit)
      ensures forall env {:trigger Harmless(env, circuit)} ::
        Harmless(env, circuit) <==> Harmless(env, old(circuit)) && StmtHarmless(Run(env, old(circuit)).vals, stmt)
    {
      id := circuit.Size();
      ghost var before := circuit;
      circuit := circuit.(stmts := circuit.stmts + [stmt]);
      Appended(before, stmt, circuit);
      HeldAppended(before, stmt, circuit);
    }

    method BcConst(value: bool) returns (id: Var)
      modifies this
      ensures Pure(old(circuit), circuit) && BitVar(circuit, id) && SameHarm(old(circuit), circuit) && id == old(circuit).Size() < circuit.Size()
      ensures forall env {:trigger B(env, circuit, id)} :: B(env, circuit, id) == value
      ensures forall env {:trigger B(env, Stored(circuit), id)} :: B(env, Stored(circuit), id) == value
    {
      hide Harmless;
      id := Emit(Const(value));
    }

    /** The handed-over terms decide the value; what is held of them decides what the circuit computes. */
    method BcPoly(terms: seq<seq<Var>>, constant: bool) returns (id: Var)
      modifies this
      ensures Pure(old(circuit), circuit) && BitVar(circuit, id) && id == old(circuit).Size() && circuit.Size() == id + 1
      ensures forall env {:trigger B(env, circuit, id)} ::
        B(env, circuit, id) == PolyBit(Run(env, old(circuit)).vals, terms, constant)
      ensures forall env {:trigger B(env, Stored(circuit), id)} ::
        B(env, Stored(circuit), id) == PolyBit(Run(env, Stored(old(circuit))).vals, LastWins(terms), constant)
      ensures forall env {:trigger Harmless(env, circuit)} ::
        Harmless(env, circuit) <==> Harmless(env, old(circuit)) && StmtHarmless(Run(env, old(circuit)).vals, Poly(terms, constant))
    {
      hide Harmless, PolyBit, LastWins;
      id := Emit(Poly(terms, constant));
    }

    /** Held as it should be exactly where the operands are two variables or the one variable is clear. */
    method BcXor(a: Var, b: Var) returns (id: Var)
      modifies this
      ensures Pure(old(circuit), circuit) && BitVar(circuit, id) && id == old(circuit).Size() && circuit.Size() == id + 1
      ensures forall env {:trigger B(env, circuit, id)} ::
        B(env, circuit, id) == (B(env, old(circuit), a) != B(env, old(circuit), b))
      ensures forall env {:trigger B(env, Stored(circuit), id)} ::
        (B(env, Stored(circuit), id) == (B(env, Stored(old(circuit)), a) != B(env, Stored(old(circuit)), b)))
          == XorSafe(env, Stored(old(circuit)), a, b)
      ensures forall env {:trigger Harmless(env, circuit)} ::
        Harmless(env, circuit) <==> Harmless(env, old(circuit)) && XorSafe(env, old(circuit), a, b)
    {
      hide Harmless, PolyBit, LastWins, Run;
      ghost var before := circuit;
      id := BcPoly([[a], [b]], false);
      forall env
        ensures B(env, circuit, id) == (B(env, before, a) != B(env, before, b))
        ensures (B(env, Stored(circuit), id) == (B(env, Stored(before), a) != B(env, Stored(before), b))) == XorSafe(env, Stored(before), a, b)
        ensures Harmless(env, circuit) <==> Harmless(env, before) && XorSafe(env, before, a, b)
      {
        HeldXor(Run(env, before).vals, a, b);
        HeldXor(Run(env, Stored(before)).vals, a, b);
      }
    }

    method BcAnd(a: Var, b: Var) returns (id: Var)
      modifies this
      ensures Pure(old(circuit), circuit) && BitVar(circuit, id) && SameHarm(old(circuit), circuit) && id == old(circuit).Size() < circuit.Size()
      ensures forall env {:trigger B(env, circuit, id)} ::
        B(env, circuit, id) == (B(env, old(circuit), a) && B(env, old(circuit), b))
      ensures forall env {:trigger B(env, Stored(circuit), id)} ::
        B(env, Stored(circuit), id) == (B(env, Stored(old(circuit)), a) && B(env, Stored(old(circuit)), b))
    {
      hide Harmless, PolyBit, LastWins, Run;
      ghost var before := circuit;
      id := BcPoly([SortedPair(a, b)], false);
      DistinctIsKept([SortedPair(a, b)]);
      forall env
        ensures B(env, circuit, id) == (B(env, before, a) && B(env, before, b))
        ensures B(env, Stored(circuit), id) == (B(env, Stored(before), a) && B(env, Stored(before), b))
      {
        HeldAnd(Run(env, before).vals, a, b);
        HeldAnd(Run(env, Stored(before)).vals, a, b);
      }
    }

    method BcNot(a: Var) returns (id: Var)
      modifies this
      ensures Pure(old(circuit), circuit) && BitVar(circuit, id) && SameHarm(old(circuit), circuit) && id == old(circuit).Size() < circuit.Size()
      ensures forall env {:trigger B(env, circuit, id)} :: B(env, circuit, id) == !B(env, old(circuit), a)
      ensures forall env {:trigger B(env, Stored(circuit), id)} :: B(env, Stored(circuit), id) == !B(env, Stored(old(circuit)), a)
    {
      hide Harmless, PolyBit, LastWins, Run;
      ghost var before := circuit;
      id := BcPoly([[a]], true);
      DistinctIsKept([[a]]);
      forall env
        ensures B(env, circuit, id) == !B(env, before, a)
        ensures B(env, Stored(circuit), id) == !B(env, Stored(before), a)
      {
        HeldNot(Run(env, before).vals, a);
        HeldNot(Run(env, Stored(before)).vals, a);
      }
    }

    method BcOr(a: Var, b: Var) returns (id: Var)
      requires a < circuit.Size() && b < circuit.Size()
      modifies this
      ensures Pure(old(circuit), circuit) && BitVar(circuit, id) && SameHarm(old(circuit), circuit) && id >= old(circuit).Size()
      ensures forall env {:trigger B(env, circuit, id)} ::
        B(env, circuit, id) == (B(env, old(circuit), a) || B(env, old(circuit), b))
      ensures forall env {:trigger B(env, Stored(circuit), id)} ::
        B(env, Stored(circuit), id) == (B(env, Stored(old(circuit)), a) || B(env, Stored(old(circuit)), b))
    {
      hide Harmless, Run, Step, Stored;
      ghost var c0 := circuit;
      var na := BcNot(a);
      ghost var c1 := circuit;
      var nb := BcNot(b);
      ghost var c2 := circuit;
      var nand := BcAnd(na, nb);
      ghost var c3 := circuit;
      id := BcNot(nand);
      HeldKept(c0, c1);
      HeldKept(c1, c2);
      forall env
        ensures B(env, circuit, id) == (B(env, c0, a) || B(env, c0, b))
        ensures B(env, Stored(circuit), id) == (B(env, Stored(c0), a) || B(env, Stored(c0), b))
      {
        assert B(env, circuit, id) == !B(env, c3, nand);
        assert B(env, c3, nand) == (B(env, c2, na) && B(env, c2, nb));
        assert B(env, c2, nb) == !B(env, c1, b);
        assert B(env, c1, na) == !B(env, c0, a);
        assert Val(env, c2, na) == Val(env, c1, na);
        assert Val(env, c1, b) == Val(env, c0, b);
        assert B(env, Stored(c3), nand) == (B(env, Stored(c2), na) && B(env, Stored(c2), nb));
        assert B(env, Stored(c2), nb) == !B(env, Stored(c1), b) && B(env, Stored(c1), na) == !B(env, Stored(c0), a);
        assert Val(env, Stored(c2), na) == Val(env, Stored(c1), na);
        assert Val(env, Stored(c1), b) == Val(env, Stored(c0), b);
      }
    }

    /** `cond ? a : b`; with both arms one variable, what is held is clear whenever the condition holds. */
    method BcSelect(cond: Var, a: Var, b: Var) returns (id: Var)
      requires a < circuit.Size() && b < circuit.Size() && cond < circuit.Size()
      modifies this
      ensures Pure(old(circuit), circuit) && BitVar(circuit, id) && id >= old(circuit).Size()
      ensures forall env {:trigger B(env, circuit, id)} ::
        B(env, circuit, id) == if B(env, old(circuit), cond) then B(env, old(circuit), a) else B(env, old(circuit), b)
      ensures forall env {:trigger B(env, Stored(circuit), id)} ::
        (B(env, Stored(circuit), id) == Chosen(env, Stored(old(circuit)), cond, a, b)) == SelectSafe(env, Stored(old(circuit)), cond, a, b)
      ensures forall env {:trigger Harmless(env, circuit)} ::
        Harmless(env, circuit) <==> Harmless(env, old(circuit)) && XorSafe(env, old(circuit), a, b)
    {
      hide Harmless, Run, Step, Stored;
      ghost var c0 := circuit;
      var xab := BcXor(a, b);
      ghost var c1 := circuit;
      var sel := BcAnd(cond, xab);
      ghost var c2 := circuit;
      id := BcXor(sel, b);
      HeldKept(c0, c1);
      HeldKept(c1, c2);
      forall env
        ensures B(env, circuit, id) == if B(env, c0, cond) then B(env, c0, a) else B(env, c0, b)
        ensures (B(env, Stored(circuit), id) == Chosen(env, Stored(c0), cond, a, b)) == SelectSafe(env, Stored(c0), cond, a, b)
      {
        assert Val(env, c1, cond) == Val(env, c0, cond) && Val(env, c2, b) == Val(env, c1, b) && Val(env, c1, b) == Val(env, c0, b);
        assert B(env, c2, sel) == (B(env, c1, cond) && B(env, c1, xab));
        var h0, h1, h2 := Stored(c0), Stored(c1), Stored(c2);
        assert Val(env, h1, cond) == Val(env, h0, cond) && Val(env, h2, b) == Val(env, h1, b) && Val(env, h1, b) == Val(env, h0, b);
        assert B(env, h2, sel) == (B(env, h1, cond) && B(env, h1, xab));
      }
    }

    /** The majority of three bits, one degree-two polynomial. */
    method BcCarry3(a: Var, b: Var, c: Var) returns (id: Var)
      modifies this
      ensures Pure(old(circuit), circuit) && BitVar(circuit, id) && id == old(circuit).Size() && circuit.Size() == id + 1
      ensures forall env {:trigger B(env, circuit, id)} ::
        B(env, circuit, id) == Majority(B(env, old(circuit), a), B(env, old(circuit), b), B(env, old(circuit), c))
      ensures forall env {:trigger B(env, Stored(circuit), id)} ::
        (B(env, Stored(circuit), id) == MajorityOf(env, Stored(old(circuit)), a, b, c)) == MajoritySafe(env, Stored(old(circuit)), a, b, c)
      ensures forall env {:trigger Harmless(env, circuit)} ::
        Harmless(env, circuit) <==> Harmless(env, old(circuit)) && MajoritySafe(env, old(circuit), a, b, c)
    {
      hide Harmless, PolyBit, LastWins, Run, Majority, CarrySafe;
      ghost var before := circuit;
      var ab, ac, bc := SortedPair(a, b), SortedPair(a, c), SortedPair(b, c);
      id := BcPoly([ab, ac, bc], false);
      forall env
        ensures B(env, circuit, id) == Majority(B(env, before, a), B(env, before, b), B(env, before, c))
        ensures (B(env, Stored(circuit), id) == MajorityOf(env, Stored(before), a, b, c)) == MajoritySafe(env, Stored(before), a, b, c)
        ensures Harmless(env, circuit) <==> Harmless(env, before) && MajoritySafe(env, before, a, b, c)
      {
        HeldCarry(Run(env, before).vals, a, b, c);
        HeldCarry(Run(env, Stored(before)).vals, a, b, c);
      }
    }

    // -------------------------------------------------------------- words

    /** One position of the ripple adder; the carry is newer than the operands. */
    method FullAdder(a: Var, x: Var, carry: Var) returns (sum: Var, newCarry: Var)
      requires a < carry && x < carry && carry < circuit.Size()
      modifies this
      ensures Pure(old(circuit), circuit) && BitVar(circuit, sum) && BitVar(circuit, newCarry)
      ensures old(circuit).Size() <= sum < newCarry < circuit.Size()
      ensures forall env {:trigger B(env, circuit, sum)} ::
        B(env, circuit, sum) == ((B(env, old(circuit), a) != B(env, old(circuit), x)) != B(env, old(circuit), carry))
      ensures forall env {:trigger B(env, circuit, newCarry)} ::
        B(env, circuit, newCarry) == Majority(B(env, old(circuit), a), B(env, old(circuit), x), B(env, old(circuit), carry))
      ensures forall env {:trigger B(env, Stored(circuit), sum)} ::
        (B(env, Stored(circuit), sum) == SumBit(env, Stored(old(circuit)), a, x, carry)) == XorSafe(env, Stored(old(circuit)), a, x)
      ensures forall env {:trigger Harmless(env, circuit)} ::
        Harmless(env, circuit) <==> Harmless(env, old(circuit)) && XorSafe(env, old(circuit), a, x)
    {
      hide Harmless, Run, Step, Stored;
      ghost var c1 := circuit;
      var t := BcXor(a, x);
      ghost var c2 := circuit;
      sum := BcXor(t, carry);
      ghost var c3 := circuit;
      newCarry := BcCarry3(a, x, carry);
      HeldKept(c1, c2);
      HeldKept(c3, circuit);
      forall env
        ensures B(env, circuit, sum) == ((B(env, c1, a) != B(env, c1, x)) != B(env, c1, carry))
        ensures B(env, circuit, newCarry) == Majority(B(env, c1, a), B(env, c1, x), B(env, c1, carry))
        ensures Harmless(env, circuit) <==> Harmless(env, c1) && XorSafe(env, c1, a, x)
      {
        assert B(env, c2, t) == (B(env, c1, a) != B(env, c1, x));
        assert Val(env, c2, carry) == Val(env, c1, carry);
        assert B(env, c3, sum) == (B(env, c2, t) != B(env, c2, carry));
        assert Val(env, circuit, sum) == Val(env, c3, sum);
        assert Val(env, c3, a) == Val(env, c1, a) && Val(env, c3, x) == Val(env, c1, x) && Val(env, c3, carry) == Val(env, c1, carry);
        assert B(env, circuit, newCarry) == Majority(B(env, c3, a), B(env, c3, x), B(env, c3, carry));
        assert Harmless(env, circuit) <==> Harmless(env, c3) && MajoritySafe(env, c3, a, x, carry);
      }
      forall env
        ensures (B(env, Stored(circuit), sum) == SumBit(env, Stored(c1), a, x, carry)) == XorSafe(env, Stored(c1), a, x)
      {
        var h1, h2, h3 := Stored(c1), Stored(c2), Stored(c3);
        assert Val(env, Stored(circuit), sum) == Val(env, h3, sum) && Val(env, h2, carry) == Val(env, h1, carry);
        assert B(env, h3, sum) == (B(env, h2, t) != B(env, h2, carry));
        assert (B(env, h2, t) == (B(env, h1, a) != B(env, h1, x))) == XorSafe(env, h1, a, x);
      }
    }

    /**
     Ripple-carry adder; the carry out of the top is dropped. What is held adds exactly where no position
     combines a set variable with itself.
     */
    method BcAdd(a: seq<Var>, x: seq<Var>, carryIn: bool) returns (out: seq<Var>)
      requires |a| == |x| && BitVars(circuit, a) && BitVars(circuit, x)
      modifies this
      ensures Pure(old(circuit), circuit) && |out| == |a| && BitVars(circuit, out) && Newer(out, old(circuit).Size()) && Ascending(out)
      ensures forall env {:trigger Word(env, circuit, out)} ::
        Word(env, circuit, out) == Sum(Word(env, old(circuit), a), Word(env, old(circuit), x), carryIn, |a|)
      ensures forall env {:trigger Harmless(env, circuit)} ::
        Harmless(env, circuit) <==> Harmless(env, old(circuit)) && NoClash(env, old(circuit), a, x, |a|)
      ensures forall env {:trigger Word(env, Stored(circuit), out)} | Harmless(env, old(circuit)) ::
        (Word(env, Stored(circuit), out) == Sum(Word(env, old(circuit), a), Word(env, old(circuit), x), carryIn, |a|))
          == NoClash(env, old(circuit), a, x, |a|)
    {
      hide Run, Step, Majority, Complement, Harmless, Stored, Word, Sum, CarryInto, NoClash, BitVar;
      ghost var c0 := circuit;
      var carry: Var := BcConst(carryIn);
      out := [];
      BitVarsBelow(c0, a);
      BitVarsBelow(c0, x);
      assert BitVars(circuit, out);
      forall env ensures AdderState(env, c0, circuit, a, x, carryIn, out, carry) {
        AdderStart(env, c0, circuit, a, x, carryIn, carry);
      }
      for i := 0 to |a|
        invariant Pure(c0, circuit) && |out| == i && c0.Size() <= carry < circuit.Size() && forall k | 0 <= k < i :: out[k] < carry
        invariant BitVars(circuit, out) && BitVar(circuit, carry) && Newer(out, c0.Size()) && Ascending(out)
        invariant forall env {:trigger AdderState(env, c0, circuit, a, x, carryIn, out, carry)} ::
          AdderState(env, c0, circuit, a, x, carryIn, out, carry)
      {
        ghost var c1 := circuit;
        var sum, newCarry := FullAdder(a[i], x[i], carry);
        forall env ensures AdderState(env, c0, circuit, a, x, carryIn, out + [sum], newCarry) {
          assert AdderState(env, c0, c1, a, x, carryIn, out, carry);
          assert B(env, circuit, sum) == ((B(env, c1, a[i]) != B(env, c1, x[i])) != B(env, c1, carry));
          assert B(env, circuit, newCarry) == Majority(B(env, c1, a[i]), B(env, c1, x[i]), B(env, c1, carry));
          AdderStep(env, c0, c1, circuit, a, x, carryIn, out, carry, sum, newCarry);
        }
        WordKept(c1, circuit, out);
        out := out + [sum];
        carry := newCarry;
      }
      forall env
        ensures Word(env, circuit, out) == Sum(Word(env, c0, a), Word(env, c0, x), carryIn, |a|)
        ensures Harmless(env, circuit) <==> Harmless(env, c0) && NoClash(env, c0, a, x, |a|)
        ensures Harmless(env, c0) ==>
          (Word(env, Stored(circuit), out) == Sum(Word(env, c0, a), Word(env, c0, x), carryIn, |a|)) == NoClash(env, c0, a, x, |a|)
      {
        assert AdderState(env, c0, circuit, a, x, carryIn, out, carry);
        AdderDone(env, c0, circuit, a, x, carryIn, out, carry);
      }
    }

    /** The bit string `seq` of constants. */
    method BcConstWord(value: nat, width: nat) returns (out: seq<Var>)
      modifies this
      ensures Pure(old(circuit), circuit) && |out| == width && BitVars(circuit, out) && SameHarm(old(circuit), circuit) && Newer(out, old(circuit).Size())
      ensures forall env {:trigger Word(env, circuit, out)} :: Word(env, circuit, out) == Digits(value, width)
    {
      hide Run, Step, Harmless, Stored;
      ghost var c0 := circuit;
      out := [];
      for i := 0 to width
        invariant Pure(c0, circuit) && |out| == i && BitVars(circuit, out) && SameHarm(c0, circuit) && Newer(out, c0.Size())
        invariant forall env {:trigger Word(env, circuit, out)} :: Word(env, circuit, out) == Digits(value, i)
      {
        ghost var c1 := circuit;
        var bit := BcConst(value / Pow2(i) % 2 == 1);
        WordKept(c1, circuit, out);
        forall env ensures Word(env, circuit, out + [bit]) == Digits(value, i + 1) {
          WordConcat(env, circuit, out, [bit]);
        }
        out := out + [bit];
      }
    }

    method BcNotVec(x: seq<Var>) returns (out: seq<Var>)
      requires BitVars(circuit, x)
      modifies this
      ensures Pure(old(circuit), circuit) && |out| == |x| && BitVars(circuit, out) && SameHarm(old(circuit), circuit) && Newer(out, old(circuit).Size())
      ensures forall env {:trigger Word(env, circuit, out)} ::
        Word(env, circuit, out) == Complement(Word(env, old(circuit), x))
    {
      hide Run, Step, Harmless, Stored;
      ghost var c0 := circuit;
      out := [];
      for i := 0 to |x|
        invariant Pure(c0, circuit) && |out| == i && BitVars(circuit, out) && SameHarm(c0, circuit) && Newer(out, c0.Size())
        invariant forall env {:trigger Word(env, circuit, out)} ::
          Word(env, circuit, out) == Complement(Word(env, c0, x)[..i])
      {
        ghost var c1 := circuit;
        assert BitVar(c0, x[i]);
        var bit := BcNot(x[i]);
        WordKept(c1, circuit, out);
        forall env ensures Word(env, circuit, out + [bit]) == Complement(Word(env, c0, x)[..i + 1]) {
          assert Val(env, c1, x[i]) == Val(env, c0, x[i]);
          WordConcat(env, circuit, out, [bit]);
        }
        out := out + [bit];
      }
    }

    /** Two's-complement subtraction: `a + ~x + 1`. */
    method BcSub(a: seq<Var>, x: seq<Var>) returns (out: seq<Var>)
      requires |a| == |x| && BitVars(circuit, a) && BitVars(circuit, x)
      modifies this
      ensures Pure(old(circuit), circuit) && |out| == |a| && BitVars(circuit, out) && SameHarm(old(circuit), circuit) && Newer(out, old(circuit).Size())
      ensures forall env {:trigger Word(env, circuit, out)} ::
        Num(Word(env, circuit, out)) == (Num(Word(env, old(circuit), a)) - Num(Word(env, old(circuit), x))) % Pow2(|a|)
    {
      hide Run, Step, Sum, Num, Complement, Harmless, Stored, NoClash, BitVar;
      ghost var c0 := circuit;
      var notX := BcNotVec(x);
      ghost var c1 := circuit;
      WordKept(c0, c1, a);
      BitVarsBelow(c0, a);
      out := BcAdd(a, notX, true);
      forall env ensures Harmless(env, circuit) <==> Harmless(env, c0) {
        ApartNoClash(env, c1, a, notX, c0.Size());
        assert Harmless(env, c1) <==> Harmless(env, c0);
      }
      forall env ensures Num(Word(env, circuit, out)) == (Num(Word(env, c0, a)) - Num(Word(env, c0, x))) % Pow2(|a|) {
        assert Word(env, circuit, out) == Sum(Word(env, c1, a), Word(env, c1, notX), true, |a|);
        SubtractByComplement(Word(env, c0, a), Word(env, c0, x));
      }
    }

    /** One gate across two words, position by position. */
    method BcVec(gate: Gate, a: seq<Var>, x: seq<Var>) returns (out: seq<Var>)
      requires |a| == |x| && BitVars(circuit, a) && BitVars(circuit, x)
      modifies this
      ensures Pure(old(circuit), circuit) && |out| == |a| && BitVars(circuit, out)
      ensures forall env {:trigger Word(env, circuit, out)} ::
        Word(env, circuit, out) == Bitwise(gate, Word(env, old(circuit), a), Word(env, old(circuit), x), |a|)
      ensures forall env {:trigger Harmless(env, circuit)} ::
        Harmless(env, circuit) <==> Harmless(env, old(circuit)) && (gate.GateXor? ==> NoClash(env, old(circuit), a, x, |a|))
    {
      hide Run, Step, Harmless, Stored, NoClash;
      ghost var c0 := circuit;
      out := [];
      forall env ensures NoClash(env, c0, a, x, 0) {
        NoClashStart(env, c0, a, x);
      }
      for i := 0 to |a|
        invariant Pure(c0, circuit) && |out| == i && BitVars(circuit, out)
        invariant forall env {:trigger Word(env, circuit, out)} ::
          Word(env, circuit, out) == Bitwise(gate, Word(env, c0, a), Word(env, c0, x), i)
        invariant forall env {:trigger Harmless(env, circuit)} ::
          Harmless(env, circuit) <==> Harmless(env, c0) && (gate.GateXor? ==> NoClash(env, c0, a, x, i))
      {
        ghost var c1 := circuit;
        assert BitVar(c0, a[i]) && BitVar(c0, x[i]);
        var bit := BcGate(gate, a[i], x[i]);
        WordKept(c1, circuit, out);
        forall env
          ensures Harmless(env, circuit) <==> Harmless(env, c0) && (gate.GateXor? ==> NoClash(env, c0, a, x, i + 1))
        {
          NoClashNext(env, c0, c1, a, x, i);
          assert Harmless(env, c1) <==> Harmless(env, c0) && (gate.GateXor? ==> NoClash(env, c0, a, x, i));
        }
        forall env ensures Word(env, circuit, out + [bit]) == Bitwise(gate, Word(env, c0, a), Word(env, c0, x), i + 1) {
          assert Val(env, c1, a[i]) == Val(env, c0, a[i]) && Val(env, c1, x[i]) == Val(env, c0, x[i]);
          WordConcat(env, circuit, out, [bit]);
        }
        out := out + [bit];
      }
    }

    method BcGate(gate: Gate, a: Var, x: Var) returns (id: Var)
      requires a < circuit.Size() && x < circuit.Size()
      modifies this
      ensures Pure(old(circuit), circuit) && BitVar(circuit, id)
      ensures forall env {:trigger B(env, circuit, id)} ::
        B(env, circuit, id) == GateBit(gate, B(env, old(circuit), a), B(env, old(circuit), x))
      ensures forall env {:trigger Harmless(env, circuit)} ::
        Harmless(env, circuit) <==> Harmless(env, old(circuit)) && (gate.GateXor? ==> XorSafe(env, old(circuit), a, x))
    {
      hide Run, Step, Harmless, Stored;
      match gate
      case GateAnd => id := BcAnd(a, x);
      case GateOr => id := BcOr(a, x);
      case GateXor => id := BcXor(a, x);
    }

    /**
     `cond ? a : x`, position by position. What is held is the chosen word exactly where no position with
     one variable in both arms is set while the condition holds.
     */
    method BcSelectVec(cond: Var, a: seq<Var>, x: seq<Var>) returns (out: seq<Var>)
      requires |a| == |x| && BitVars(circuit, a) && BitVars(circuit, x) && cond < circuit.Size()
      modifies this
      ensures Pure(old(circuit), circuit) && |out| == |a| && BitVars(circuit, out) && Newer(out, old(circuit).Size())
      ensures forall env {:trigger Word(env, circuit, out)} ::
        Word(env, circuit, out) == Word(env, old(circuit), if B(env, old(circuit), cond) then a else x)
      ensures forall env {:trigger Harmless(env, circuit)} ::
        Harmless(env, circuit) <==> Harmless(env, old(circuit)) && NoClash(env, old(circuit), a, x, |a|)
      ensures forall env {:trigger Word(env, Stored(circuit), out)} ::
        (Word(env, Stored(circuit), out) == Word(env, Stored(old(circuit)), if B(env, Stored(old(circuit)), cond) then a else x))
          == SelectsSafe(env, Stored(old(circuit)), cond, a, x, |a|)
    {
      hide Run, Step, Harmless, Stored, NoClash, SelectsSafe, BitVar, Word, Chosen, SelectSafe, XorSafe;
      ghost var c0 := circuit;
      out := [];
      BitVarsBelow(c0, a);
      BitVarsBelow(c0, x);
      assert BitVars(circuit, out);
      forall env ensures SelectState(env, c0, circuit, cond, a, x, out) {
        SelectStart(env, c0, cond, a, x);
      }
      for i := 0 to |a|
        invariant Pure(c0, circuit) && |out| == i && BitVars(circuit, out) && Newer(out, c0.Size())
        invariant forall env {:trigger SelectState(env, c0, circuit, cond, a, x, out)} :: SelectState(env, c0, circuit, cond, a, x, out)
      {
        ghost var c1 := circuit;
        BitVarsBelow(c1, out);
        var bit := BcSelect(cond, a[i], x[i]);
        forall env ensures SelectState(env, c0, circuit, cond, a, x, out + [bit]) {
          assert SelectState(env, c0, c1, cond, a, x, out);
          SelectStep(env, c0, c1, circuit, cond, a, x, out, bit);
        }
        WordKept(c1, circuit, out);
        out := out + [bit];
      }
      forall env
        ensures Word(env, circuit, out) == Word(env, c0, if B(env, c0, cond) then a else x)
        ensures Harmless(env, circuit) <==> Harmless(env, c0) && NoClash(env, c0, a, x, |a|)
        ensures (Word(env, Stored(circuit), out) == Word(env, Stored(c0), if B(env, Stored(c0), cond) then a else x))
          == SelectsSafe(env, Stored(c0), cond, a, x, |a|)
      {
        assert SelectState(env, c0, circuit, cond, a, x, out);
        SelectDone(env, c0, circuit, cond, a, x, out);
      }
    }

    // -------------------------------------------------------------- multiplication

    /** Cut or zero-extend to `w` wires. The padding constant is emitted either way. */
    method ExtBits(v: seq<Var>, w: nat) returns (out: seq<Var>)
      requires BitVars(circuit, v)
      modifies this
      ensures Pure(old(circuit), circuit) && |out| == w && BitVars(circuit, out) && SameHarm(old(circuit), circuit) && old(circuit).Size() < circuit.Size()
      ensures out == seq(w, i requires 0 <= i => if i < |v| then v[i] else old(circuit).Size())
      ensures forall env {:trigger Word(env, circuit, out)} ::
        Word(env, circuit, out) == Resized(Word(env, old(circuit), v), w)
    {
      hide Run, Step, Harmless, Stored;
      ghost var c0 := circuit;
      var zero := BcConst(false);
      WordKept(c0, circuit, v);
      out := seq(w, i requires 0 <= i => if i < |v| then v[i] else zero);
      forall i | 0 <= i < w ensures BitVar(circuit, out[i]) {
        if i < |v| {
          assert BitVar(circuit, v[i]);
        }
      }
      forall env ensures Word(env, circuit, out) == Resized(Word(env, c0, v), w) {
        assert B(env, circuit, zero) == false;
        assert Word(env, circuit, v) == Word(env, c0, v);
        forall i | 0 <= i < w ensures Word(env, circuit, out)[i] == Resized(Word(env, c0, v), w)[i] {
          if i < |v| {
            assert Word(env, circuit, v)[i] == B(env, circuit, v[i]);
          }
        }
      }
    }

    /** Move `bits` up to column `at` of `want` columns. */
    method ShiftInto(bits: seq<Var>, at: nat, want: nat) returns (out: seq<Var>)
      requires BitVars(circuit, bits)
      modifies this
      ensures Pure(old(circuit), circuit) && |out| == want && BitVars(circuit, out) && SameHarm(old(circuit), circuit)
      ensures forall k | 0 <= k < want :: (at <= k < at + |bits| && out[k] == bits[k - at]) || out[k] >= old(circuit).Size()
      ensures forall env {:trigger Word(env, circuit, out)} ::
        Word(env, circuit, out) == Placed(Word(env, old(circuit), bits), at, want)
    {
      hide Run, Step, Harmless, Stored;
      ghost var c0 := circuit;
      out := BcConstWord(0, want);
      WordKept(c0, circuit, bits);
      ghost var zeros := out;
      assert forall k | 0 <= k < want :: BitVar(circuit, zeros[k]);
      for i := 0 to |bits|
        invariant |out| == want
        invariant forall k | 0 <= k < want :: out[k] == if at <= k < at + i then bits[k - at] else zeros[k]
      {
        if at + i < want {
          out := out[at + i := bits[i]];
        }
      }
      forall k | 0 <= k < want ensures BitVar(circuit, out[k]) {
        if at <= k < at + |bits| {
          assert BitVar(circuit, bits[k - at]);
        }
      }
      forall env ensures Word(env, circuit, out) == Placed(Word(env, c0, bits), at, want) {
        assert Word(env, circuit, bits) == Word(env, c0, bits);
        assert Word(env, circuit, zeros) == Digits(0, want);
        forall k | 0 <= k < want ensures Word(env, circuit, out)[k] == Placed(Word(env, c0, bits), at, want)[k] {
          if at <= k < at + |bits| {
            assert Word(env, circuit, bits)[k - at] == B(env, circuit, bits[k - at]);
          } else {
            SmallMod(0, Pow2(k));
            assert Word(env, circuit, zeros)[k] == B(env, circuit, zeros[k]);
          }
        }
      }
    }

    /** Column `k` of a partial product. */
    method PartialBit(digit: Var, x: seq<Var>, i: nat, k: nat) returns (bit: Var)
      requires BitVars(circuit, x) && digit < circuit.Size()
      modifies this
      ensures Pure(old(circuit), circuit) && BitVar(circuit, bit) && SameHarm(old(circuit), circuit) && bit >= old(circuit).Size()
      ensures forall env {:trigger B(env, circuit, bit)} ::
        B(env, circuit, bit) == (B(env, old(circuit), digit) && i <= k < i + |x| && B(env, old(circuit), x[k - i]))
    {
      hide Run, Step, Harmless, Stored;
      if k < i || k - i >= |x| {
        bit := BcConst(false);
      } else {
        assert BitVar(circuit, x[k - i]);
        bit := BcAnd(digit, x[k - i]);
      }
    }

    /** One partial product: digit `i` of the multiplier against the shifted multiplicand. */
    method PartialProduct(digit: Var, x: seq<Var>, i: nat, cols: nat) returns (pp: seq<Var>)
      requires BitVars(circuit, x) && digit < circuit.Size()
      modifies this
      ensures Pure(old(circuit), circuit) && |pp| == cols && BitVars(circuit, pp) && SameHarm(old(circuit), circuit) && Newer(pp, old(circuit).Size())
      ensures forall env {:trigger Word(env, circuit, pp)} ::
        Word(env, circuit, pp) == Row(B(env, old(circuit), digit), Word(env, old(circuit), x), i, cols)
    {
      hide Run, Step, Row, B, Harmless, Stored;
      ghost var c0 := circuit;
      pp := [];
      for k := 0 to cols
        invariant Pure(c0, circuit) && |pp| == k && BitVars(circuit, pp) && SameHarm(c0, circuit) && Newer(pp, c0.Size())
        invariant forall env {:trigger Word(env, circuit, pp)} ::
          Word(env, circuit, pp) == Row(B(env, c0, digit), Word(env, c0, x), i, cols)[..k]
      {
        ghost var c1 := circuit;
        var bit := PartialBit(digit, x, i, k);
        WordKept(c1, circuit, pp);
        WordKept(c0, c1, x);
        forall env
          ensures Word(env, circuit, pp + [bit]) == Row(B(env, c0, digit), Word(env, c0, x), i, cols)[..k + 1]
        {
          WordConcat(env, circuit, pp, [bit]);
          RowBit(B(env, c0, digit), Word(env, c0, x), i, cols, k);
          BitKept(env, c0, c1, digit);
          assert i <= k < i + |x| ==> Word(env, c1, x)[k - i] == Word(env, c0, x)[k - i];
        }
        pp := pp + [bit];
      }
    }

    /** Widening schoolbook multiplication, `cols` product columns. */
    method Schoolbook(a: seq<Var>, x: seq<Var>, cols: nat) returns (acc: seq<Var>)
      requires |a| == |x| && BitVars(circuit, a) && BitVars(circuit, x)
      modifies this
      ensures Pure(old(circuit), circuit) && |acc| == cols && BitVars(circuit, acc) && SameHarm(old(circuit), circuit) && Newer(acc, old(circuit).Size())
      ensures forall env {:trigger Word(env, circuit, acc)} ::
        IsProduct(Word(env, circuit, acc), Word(env, old(circuit), a), Word(env, old(circuit), x))
    {
      hide Run, Step, Num, Low, Pow2, Row, Sum, Harmless, Stored, NoClash;
      ghost var c0 := circuit;
      acc := BcConstWord(0, cols);
      var i := 0;
      forall env ensures RowsSummed(Word(env, circuit, acc), Word(env, c0, a), Word(env, c0, x), 0) {
        assert Word(env, circuit, acc) == Digits(0, cols);
        NoRows(Word(env, circuit, acc), Word(env, c0, a), Word(env, c0, x));
      }
      while i < |a| && i < cols
        invariant i <= |a| && i <= cols
        invariant Pure(c0, circuit) && |acc| == cols && BitVars(circuit, acc) && SameHarm(c0, circuit) && Newer(acc, c0.Size())
        invariant forall env {:trigger Word(env, circuit, acc)} ::
          RowsSummed(Word(env, circuit, acc), Word(env, c0, a), Word(env, c0, x), i)
      {
        ghost var c1, before := circuit, acc;
        assert BitVar(c0, a[i]);
        WordKept(c0, c1, x);
        var pp := PartialProduct(a[i], x, i, cols);
        ghost var c2 := circuit;
        WordKept(c1, c2, acc);
        acc := BcAdd(acc, pp, false);
        BitVarsBelow(c1, before);
        forall env ensures Harmless(env, circuit) <==> Harmless(env, c0) {
          ApartNoClash(env, c2, before, pp, c1.Size());
          assert Harmless(env, c2) <==> Harmless(env, c1);
        }
        forall env ensures RowsSummed(Word(env, circuit, acc), Word(env, c0, a), Word(env, c0, x), i + 1) {
          var wa, wx := Word(env, c0, a), Word(env, c0, x);
          assert Word(env, c2, before) == Word(env, c1, before);
          assert Val(env, c1, a[i]) == Val(env, c0, a[i]);
          assert Word(env, c2, pp) == Row(wa[i], wx, i, cols);
          OneMoreRow(Word(env, c1, before), wa, wx, i);
        }
        i := i + 1;
      }
      forall env ensures IsProduct(Word(env, circuit, acc), Word(env, c0, a), Word(env, c0, x)) {
        AllRows(Word(env, circuit, acc), Word(env, c0, a), Word(env, c0, x), i);
      }
    }

    /**
     The low `want` bits of the product: schoolbook up to 16 bits, Karatsuba above, skipping
     what lies beyond the wanted columns. What is held multiplies wherever no half sum folds a set variable
     onto itself.
     */
    method BcMulLow(a: seq<Var>, x: seq<Var>, want: nat) returns (out: seq<Var>)
      requires |a| == |x| && BitVars(circuit, a) && BitVars(circuit, x)
      modifies this
      ensures Pure(old(circuit), circuit) && |out| == ProductWidth(|a|, want) && BitVars(circuit, out) && Newer(out, old(circuit).Size())
      ensures forall env {:trigger Word(env, circuit, out)} ::
        IsProduct(Word(env, circuit, out), Word(env, old(circuit), a), Word(env, old(circuit), x))
      ensures forall env {:trigger Harmless(env, circuit)} ::
        Harmless(env, circuit) <==> Harmless(env, old(circuit)) && Folds(env, old(circuit), a, want) && Folds(env, old(circuit), x, want)
      ensures forall env {:trigger Word(env, Stored(circuit), out)} | Harmless(env, circuit) ::
        IsProduct(Word(env, Stored(circuit), out), Word(env, old(circuit), a), Word(env, old(circuit), x))
      decreases |a|, 3
    {
      hide Run, Step, IsProduct, Harmless, Stored, HalfFolds, NoClash, BitVar;
      if |a| <= 16 {
        out := Schoolbook(a, x, ProductWidth(|a|, want));
        HeldProduct(circuit, out);
        return;
      }
      ghost var c0 := circuit;
      var m := |a| / 2;
      var a0, a1, x0, x1 := a[..m], a[m..], x[..m], x[m..];
      assert forall i | 0 <= i < |a| :: BitVar(c0, a[i]) && BitVar(c0, x[i]);
      var acc := BcMulLow(a0, x0, if want < 2 * m then want else 2 * m);
      if m >= want {
        forall env ensures IsProduct(Word(env, circuit, acc), Word(env, c0, a), Word(env, c0, x)) {
          WordHalves(env, c0, a, m);
          WordHalves(env, c0, x, m);
          HighHalvesBeyond(Word(env, circuit, acc), Word(env, c0, a), Word(env, c0, x), m);
        }
        HeldProduct(circuit, acc);
        return acc;
      }
      ghost var c1 := circuit;
      WordKept(c0, c1, a0);
      WordKept(c0, c1, a1);
      WordKept(c0, c1, x0);
      WordKept(c0, c1, x1);
      out := AddHigh(a0, a1, x0, x1, acc, want);
      HeldProduct(circuit, out);
      BitVarsBelow(c0, a);
      BitVarsBelow(c0, x);
      forall env
        ensures Harmless(env, circuit) <==> Harmless(env, c0) && Folds(env, c0, a, want) && Folds(env, c0, x, want)
      {
        HighKept(env, c0, c1, a0, a1, want);
        HighKept(env, c0, c1, x0, x1, want);
        assert Harmless(env, c1) <==> Harmless(env, c0) && Folds(env, c0, a0, Least(want, 2 * m)) && Folds(env, c0, x0, Least(want, 2 * m));
      }
      forall env ensures IsProduct(Word(env, circuit, out), Word(env, c0, a), Word(env, c0, x)) {
        WordHalves(env, c0, a, m);
        WordHalves(env, c0, x, m);
        assert Word(env, c1, a0) == Word(env, c0, a0) && Word(env, c1, a1) == Word(env, c0, a1);
        assert Word(env, c1, x0) == Word(env, c0, x0) && Word(env, c1, x1) == Word(env, c0, x1);
      }
    }

    /** `acc`, cut or extended, plus `mid` moved up to column `at`; the operands' variables lie on two sides of `bound`. */
    method AddMiddle(acc: seq<Var>, mid: seq<Var>, at: nat, want: nat, ghost bound: nat) returns (out: seq<Var>)
      requires BitVars(circuit, acc) && BitVars(circuit, mid) && Newer(mid, bound) && bound <= circuit.Size() && forall i | 0 <= i < |acc| :: acc[i] < bound
      modifies this
      ensures Pure(old(circuit), circuit) && |out| == want && BitVars(circuit, out) && Newer(out, old(circuit).Size()) && SameHarm(old(circuit), circuit)
      ensures forall env {:trigger Word(env, circuit, out)} ::
        Word(env, circuit, out)
          == Sum(Resized(Word(env, old(circuit), acc), want), Placed(Word(env, old(circuit), mid), at, want), false, want)
    {
      hide Run, Step, Sum, Placed, Resized, Word, BitVar, Harmless, Stored, NoClash;
      ghost var c1 := circuit;
      var midS := ShiftInto(mid, at, want);
      ghost var c2 := circuit;
      WordKept(c1, c2, acc);
      var accExt := ExtBits(acc, want);
      ghost var c3 := circuit;
      WordKept(c2, c3, midS);
      BitVarsBelow(c2, midS);
      out := BcAdd(accExt, midS, false);
      forall env ensures Harmless(env, circuit) <==> Harmless(env, c1) {
        DistinctNoClash(env, c3, accExt, midS);
        assert Harmless(env, c3) <==> Harmless(env, c2);
      }
      forall env
        ensures Word(env, circuit, out) == Sum(Resized(Word(env, c1, acc), want), Placed(Word(env, c1, mid), at, want), false, want)
      {
        assert Word(env, c3, midS) == Word(env, c2, midS) == Placed(Word(env, c1, mid), at, want);
        assert Word(env, c3, accExt) == Resized(Word(env, c2, acc), want) && Word(env, c2, acc) == Word(env, c1, acc);
      }
    }

    /** `lower` plus `top` moved up to column `at`. */
    method AddTop(lower: seq<Var>, top: seq<Var>, at: nat, ghost bound: nat) returns (out: seq<Var>)
      requires BitVars(circuit, lower) && BitVars(circuit, top) && Newer(top, bound) && bound <= circuit.Size()
      requires forall i | 0 <= i < |lower| :: lower[i] < bound
      modifies this
      ensures Pure(old(circuit), circuit) && |out| == |lower| && BitVars(circuit, out) && Newer(out, old(circuit).Size()) && SameHarm(old(circuit), circuit)
      ensures forall env {:trigger Word(env, circuit, out)} ::
        Word(env, circuit, out) == Sum(Word(env, old(circuit), lower), Placed(Word(env, old(circuit), top), at, |lower|), false, |lower|)
    {
      hide Run, Step, Sum, Placed, Word, BitVar, Harmless, Stored, NoClash;
      ghost var c1 := circuit;
      var topS := ShiftInto(top, at, |lower|);
      ghost var c2 := circuit;
      WordKept(c1, c2, lower);
      out := BcAdd(lower, topS, false);
      forall env ensures Harmless(env, circuit) <==> Harmless(env, c1) {
        DistinctNoClash(env, c2, lower, topS);
        assert Harmless(env, c2) <==> Harmless(env, c1);
      }
      forall env
        ensures Word(env, circuit, out) == Sum(Word(env, c1, lower), Placed(Word(env, c1, top), at, |lower|), false, |lower|)
      {
        assert Word(env, c2, lower) == Word(env, c1, lower);
      }
    }

    /** The product of the low halves is in `acc`; add the middle and, if wanted, the top product. */
    method AddHigh(a0: seq<Var>, a1: seq<Var>, x0: seq<Var>, x1: seq<Var>, acc: seq<Var>, want: nat)
      returns (out: seq<Var>)
      requires 1 < |a0| == |x0| <= |a1| == |x1| <= |a0| + 1 && |a0| < want
      requires BitVars(circuit, a0) && BitVars(circuit, a1) && BitVars(circuit, x0) && BitVars(circuit, x1)
      requires BitVars(circuit, acc) && |acc| == if want < 2 * |a0| then want else 2 * |a0|
      requires forall env {:trigger Word(env, circuit, acc)} ::
        IsProduct(Word(env, circuit, acc), Word(env, circuit, a0), Word(env, circuit, x0))
      modifies this
      ensures Pure(old(circuit), circuit) && |out| == want && BitVars(circuit, out) && Newer(out, old(circuit).Size())
      ensures forall env {:trigger Word(env, circuit, out)} ::
        IsProduct(Word(env, circuit, out), Word(env, old(circuit), a0) + Word(env, old(circuit), a1),
          Word(env, old(circuit), x0) + Word(env, old(circuit), x1))
      ensures forall env {:trigger Harmless(env, circuit)} ::
        Harmless(env, circuit) <==> Harmless(env, old(circuit)) && HighFolds(env, old(circuit), a0, a1, want) && HighFolds(env, old(circuit), x0, x1, want)
      decreases |a0| + |a1|, 2
    {
      hide Run, Step, IsProduct, IsMiddle, Num, Pow2, Sum, Placed, Resized, Word, BitVar, Harmless, Stored, NoClash, Folds, HalfFolds;
      ghost var c0 := circuit;
      var m, h := |a0|, |a1|;
      BitVarsBelow(c0, acc);
      var mid := Middle(a0, a1, x0, x1, if want - m < 2 * (h + 1) then want - m else 2 * (h + 1));
      ghost var c1 := circuit;
      WordKept(c0, c1, acc);
      out := AddMiddle(acc, mid, m, want, c0.Size());
      var lower := out;
      ghost var c2 := circuit;
      if 2 * m >= want {
        forall env
          ensures IsProduct(Word(env, circuit, out), Word(env, c0, a0) + Word(env, c0, a1), Word(env, c0, x0) + Word(env, c0, x1))
        {
          LowerThirds(Word(env, c0, a0), Word(env, c0, a1), Word(env, c0, x0), Word(env, c0, x1), Word(env, c0, acc), Word(env, c1, mid), want);
          assert Word(env, c1, acc) == Word(env, c0, acc);
        }
        return;
      }
      WordKept(c0, c2, a1);
      WordKept(c0, c2, x1);
      BitVarsBelow(c2, lower);
      BitVarsBelow(c0, a1);
      BitVarsBelow(c0, x1);
      var z2Low := BcMulLow(a1, x1, want - 2 * m);
      ghost var c3 := circuit;
      WordKept(c2, c3, lower);
      out := AddTop(lower, z2Low, 2 * m, c2.Size());
      forall env
        ensures Harmless(env, circuit) <==> Harmless(env, c0) && HighFolds(env, c0, a0, a1, want) && HighFolds(env, c0, x0, x1, want)
      {
        FoldsKept(env, c0, c2, a1, want - 2 * m);
        FoldsKept(env, c0, c2, x1, want - 2 * m);
        assert Harmless(env, c3) <==> Harmless(env, c2) && Folds(env, c2, a1, want - 2 * m) && Folds(env, c2, x1, want - 2 * m);
      }
      forall env
        ensures IsProduct(Word(env, circuit, out), Word(env, c0, a0) + Word(env, c0, a1), Word(env, c0, x0) + Word(env, c0, x1))
      {
        var wa0, wa1, wx0, wx1 := Word(env, c0, a0), Word(env, c0, a1), Word(env, c0, x0), Word(env, c0, x1);
        assert Word(env, c2, a1) == wa1 && Word(env, c2, x1) == wx1 && Word(env, c1, acc) == Word(env, c0, acc);
        assert Word(env, c3, lower) == Word(env, c2, lower);
        AllThirds(wa0, wa1, wx0, wx1, Word(env, c0, acc), Word(env, c1, mid), Word(env, c3, z2Low), want);
      }
    }

    /** `(a0 + a1)(x0 + x1) - a0 x0 - a1 x1`, to `w` columns. */
    method Middle(a0: seq<Var>, a1: seq<Var>, x0: seq<Var>, x1: seq<Var>, w: nat) returns (mid: seq<Var>)
      requires 1 < |a0| == |x0| <= |a1| == |x1| <= |a0| + 1 && w <= 2 * (|a1| + 1)
      requires BitVars(circuit, a0) && BitVars(circuit, a1) && BitVars(circuit, x0) && BitVars(circuit, x1)
      modifies this
      ensures Pure(old(circuit), circuit) && |mid| == w && BitVars(circuit, mid) && Newer(mid, old(circuit).Size())
      ensures forall env {:trigger Word(env, circuit, mid)} ::
        IsMiddle(Word(env, circuit, mid), Word(env, old(circuit), a0), Word(env, old(circuit), a1),
          Word(env, old(circuit), x0), Word(env, old(circuit), x1))
      ensures forall env {:trigger Harmless(env, circuit)} ::
        Harmless(env, circuit) <==> Harmless(env, old(circuit)) && HalfFolds(env, old(circuit), a0, a1, w) && HalfFolds(env, old(circuit), x0, x1, w)
      decreases |a0| + |a1|, 0
    {
      hide Run, Step, IsProduct, Num, Pow2, Word, BitVar, Harmless, Stored, NoClash, Folds;
      ghost var c0 := circuit;
      var sa := SumHalves(a0, a1);
      ghost var c1 := circuit;
      WordKept(c0, c1, x0);
      WordKept(c0, c1, x1);
      var sx := SumHalves(x0, x1);
      ghost var c2 := circuit;
      WordKept(c1, c2, sa);
      var z1 := BcMulLow(sa, sx, w);
      ghost var c3 := circuit;
      WordKept(c0, c3, a0);
      WordKept(c0, c3, x0);
      var z0 := CutProduct(a0, x0, w);
      ghost var c4 := circuit;
      WordKept(c0, c4, a1);
      WordKept(c0, c4, x1);
      var z2 := CutProduct(a1, x1, w);
      ghost var c5 := circuit;
      WordKept(c3, c5, z1);
      WordKept(c4, c5, z0);
      var less := BcSub(z1, z0);
      ghost var c6 := circuit;
      WordKept(c5, c6, z2);
      mid := BcSub(less, z2);
      BitVarsBelow(c0, a0);
      BitVarsBelow(c0, a1);
      BitVarsBelow(c0, x0);
      BitVarsBelow(c0, x1);
      forall env
        ensures Harmless(env, circuit) <==> Harmless(env, c0) && HalfFolds(env, c0, a0, a1, w) && HalfFolds(env, c0, x0, x1, w)
      {
        NoClashKept(env, c0, c1, x0, x1, |x0|);
        AscendingFolds(env, c2, sa, w);
        AscendingFolds(env, c2, sx, w);
        FoldsKept(env, c0, c3, a0, Least(w, 2 * |a0|));
        FoldsKept(env, c0, c3, x0, Least(w, 2 * |x0|));
        FoldsKept(env, c0, c4, a1, Least(w, 2 * |a1|));
        FoldsKept(env, c0, c4, x1, Least(w, 2 * |x1|));
        assert Harmless(env, circuit) <==> Harmless(env, c6);
        assert Harmless(env, c6) <==> Harmless(env, c5);
        assert Harmless(env, c5) <==> Harmless(env, c4) && Folds(env, c4, a1, Least(w, 2 * |a1|)) && Folds(env, c4, x1, Least(w, 2 * |x1|));
        assert Harmless(env, c4) <==> Harmless(env, c3) && Folds(env, c3, a0, Least(w, 2 * |a0|)) && Folds(env, c3, x0, Least(w, 2 * |x0|));
        assert Harmless(env, c3) <==> Harmless(env, c2);
        assert Harmless(env, c2) <==> Harmless(env, c1) && NoClash(env, c1, x0, x1, |x0|);
      }
      forall env
        ensures IsMiddle(Word(env, circuit, mid), Word(env, c0, a0), Word(env, c0, a1), Word(env, c0, x0), Word(env, c0, x1))
      {
        var wa0, wa1, wx0, wx1 := Word(env, c0, a0), Word(env, c0, a1), Word(env, c0, x0), Word(env, c0, x1);
        assert Word(env, c1, x0) == wx0 && Word(env, c1, x1) == wx1 && Word(env, c3, a0) == wa0 && Word(env, c3, x0) == wx0;
        assert Word(env, c4, a1) == wa1 && Word(env, c4, x1) == wx1;
        assert Word(env, c2, sa) == Word(env, c1, sa) && Word(env, c5, z1) == Word(env, c3, z1);
        assert Word(env, c5, z0) == Word(env, c4, z0) && Word(env, c6, z2) == Word(env, c5, z2);
        HalfSumProduct(Word(env, c3, z1), Word(env, c2, sa), Word(env, c2, sx), wa0, wa1, wx0, wx1);
        MiddleProduct(Num(wa0), Num(wa1), Num(wx0), Num(wx1),
          Num(Word(env, c3, z1)), Num(Word(env, c4, z0)), Num(Word(env, c5, z2)), Pow2(w));
        assert Num(Word(env, c6, less)) == (Num(Word(env, c5, z1)) - Num(Word(env, c5, z0))) % Pow2(w);
      }
    }

    /** The sum of two halves, one bit wider than the wider of them; what is held is that sum exactly where they do not clash. */
    method SumHalves(lo: seq<Var>, hi: seq<Var>) returns (sum: seq<Var>)
      requires |lo| <= |hi| && BitVars(circuit, lo) && BitVars(circuit, hi)
      modifies this
      ensures Pure(old(circuit), circuit) && |sum| == |hi| + 1 && BitVars(circuit, sum) && Newer(sum, old(circuit).Size()) && Ascending(sum)
      ensures forall env {:trigger Word(env, circuit, sum)} ::
        Num(Word(env, circuit, sum)) == Num(Word(env, old(circuit), lo)) + Num(Word(env, old(circuit), hi))
      ensures forall env {:trigger Harmless(env, circuit)} ::
        Harmless(env, circuit) <==> Harmless(env, old(circuit)) && NoClash(env, old(circuit), lo, hi, |lo|)
      ensures forall env {:trigger Word(env, Stored(circuit), sum)} | Harmless(env, old(circuit)) ::
        (Num(Word(env, Stored(circuit), sum)) == Num(Word(env, old(circuit), lo)) + Num(Word(env, old(circuit), hi)))
          == NoClash(env, old(circuit), lo, hi, |lo|)
    {
      hide Run, Step, Num, Pow2, Word, BitVar, Sum, Resized, Harmless, Stored, NoClash;
      ghost var c0 := circuit;
      var loExt := ExtBits(lo, |hi| + 1);
      ghost var c1 := circuit;
      WordKept(c0, c1, hi);
      var hiExt := ExtBits(hi, |hi| + 1);
      ghost var c2 := circuit;
      WordKept(c1, c2, loExt);
      BitVarsBelow(c0, lo);
      BitVarsBelow(c0, hi);
      sum := BcAdd(loExt, hiExt, false);
      forall env
        ensures Num(Word(env, circuit, sum)) == Num(Word(env, c0, lo)) + Num(Word(env, c0, hi))
        ensures Harmless(env, circuit) <==> Harmless(env, c0) && NoClash(env, c0, lo, hi, |lo|)
        ensures Harmless(env, c0) ==>
          (Num(Word(env, Stored(circuit), sum)) == Num(Word(env, c0, lo)) + Num(Word(env, c0, hi))) == NoClash(env, c0, lo, hi, |lo|)
      {
        ExtendedClash(env, c0, c1, c2, lo, hi, loExt, hiExt);
        assert Harmless(env, c2) <==> Harmless(env, c1);
        SameNumber(Word(env, Stored(circuit), sum), Word(env, circuit, sum));
        assert Word(env, c2, loExt) == Word(env, c1, loExt) && Word(env, c1, hi) == Word(env, c0, hi);
        assert Word(env, circuit, sum) == Sum(Word(env, c2, loExt), Word(env, c2, hiExt), false, |hi| + 1);
        ExactSum(Word(env, c0, lo), Word(env, c0, hi));
      }
    }

    /** A product to `w` columns; no more than its own span is multiplied out. */
    method CutProduct(a: seq<Var>, x: seq<Var>, w: nat) returns (out: seq<Var>)
      requires |a| == |x| && BitVars(circuit, a) && BitVars(circuit, x)
      modifies this
      ensures Pure(old(circuit), circuit) && |out| == w && BitVars(circuit, out) && Newer(out, old(circuit).Size())
      ensures forall env {:trigger Word(env, circuit, out)} ::
        Num(Word(env, circuit, out)) == Num(Word(env, old(circuit), a)) * Num(Word(env, old(circuit), x)) % Pow2(w)
      ensures forall env {:trigger Harmless(env, circuit)} ::
        Harmless(env, circuit) <==>
          Harmless(env, old(circuit)) && Folds(env, old(circuit), a, Least(w, 2 * |a|)) && Folds(env, old(circuit), x, Least(w, 2 * |a|))
      decreases |a|, 4
    {
      hide Run, Step, Num, Pow2, Word, BitVar, Resized, IsProduct, Harmless, Stored, Folds;
      ghost var c0 := circuit;
      var full := BcMulLow(a, x, if w < 2 * |a| then w else 2 * |a|);
      ghost var c1 := circuit;
      out := ExtBits(full, w);
      assert forall k | 0 <= k < w :: out[k] == if k < |full| then full[k] else c1.Size();
      forall env
        ensures Num(Word(env, circuit, out)) == Num(Word(env, c0, a)) * Num(Word(env, c0, x)) % Pow2(w)
      {
        assert Word(env, circuit, out) == Resized(Word(env, c1, full), w);
        ExtendedProduct(Word(env, c1, full), Word(env, c0, a), Word(env, c0, x), w);
      }
    }

    // -------------------------------------------------------------- comparisons

    /** What is held says equal exactly where the words are equal and no position is one set variable twice. */
    method BcEq(a: seq<Var>, x: seq<Var>) returns (id: Var)
      requires |a| == |x| && BitVars(circuit, a) && BitVars(circuit, x)
      modifies this
      ensures Pure(old(circuit), circuit) && BitVar(circuit, id)
      ensures forall env {:trigger B(env, circuit, id)} ::
        B(env, circuit, id) <==> Word(env, old(circuit), a) == Word(env, old(circuit), x)
      ensures forall env {:trigger Harmless(env, circuit)} ::
        Harmless(env, circuit) <==> Harmless(env, old(circuit)) && NoClash(env, old(circuit), a, x, |a|)
      ensures forall env {:trigger B(env, Stored(circuit), id)} ::
        B(env, Stored(circuit), id) == HeldEqual(env, Stored(old(circuit)), a, x)
    {
      hide Run, Step, Num, BitAt, Harmless, Stored, NoClash, Word, BitVar;
      ghost var c0 := circuit;
      if |a| == 0 {
        id := BcConst(true);
        forall env
          ensures Word(env, c0, a) == Word(env, c0, x) && Word(env, Stored(c0), a) == Word(env, Stored(c0), x) && NoClash(env, c0, a, x, 0)
          ensures NoClash(env, Stored(c0), a, x, 0)
        {
          NoClashStart(env, c0, a, x);
          NoClashStart(env, Stored(c0), a, x);
          assert a == x == [];
        }
        return;
      }
      var agree := BcAgree(a, x);
      ghost var c1 := circuit;
      BitVarsBelow(c1, agree);
      id := BcAll(agree);
      forall env
        ensures B(env, circuit, id) <==> Word(env, c0, a) == Word(env, c0, x)
        ensures B(env, Stored(circuit), id) == HeldEqual(env, Stored(c0), a, x)
      {
        AllAgree(env, c0, a, x);
        AllHeldAgree(env, Stored(c0), a, x);
        assert Word(env, c1, agree) == SameBits(Word(env, c0, a), Word(env, c0, x), |a|);
        assert Word(env, Stored(c1), agree) == HeldAgree(env, Stored(c0), a, x, |a|);
      }
    }

    /** The conjunction of some variables. */
    method BcAll(vars: seq<Var>) returns (id: Var)
      requires |vars| > 0 && BitVars(circuit, vars)
      modifies this
      ensures Pure(old(circuit), circuit) && BitVar(circuit, id) && SameHarm(old(circuit), circuit)
      ensures forall env {:trigger B(env, circuit, id)} :: B(env, circuit, id) == AllSet(Word(env, old(circuit), vars), |vars|)
      ensures forall env {:trigger B(env, Stored(circuit), id)} :: B(env, Stored(circuit), id) == AllSet(Word(env, Stored(old(circuit)), vars), |vars|)
    {
      hide Run, Step, BitAt, Harmless, Stored, BitVar, AllSet, Word;
      ghost var c1 := circuit;
      BitVarsBelow(c1, vars);
      id := vars[0];
      forall env
        ensures B(env, c1, id) == AllSet(Word(env, c1, vars), 1) && B(env, Stored(c1), id) == AllSet(Word(env, Stored(c1), vars), 1)
      {
        AllSetNext(env, c1, vars, 0);
        AllSetNext(env, Stored(c1), vars, 0);
      }
      for i := 1 to |vars|
        invariant Pure(c1, circuit) && BitVar(circuit, id) && SameHarm(c1, circuit)
        invariant forall env {:trigger B(env, circuit, id)} :: B(env, circuit, id) == AllSet(Word(env, c1, vars), i)
        invariant forall env {:trigger B(env, Stored(circuit), id)} :: B(env, Stored(circuit), id) == AllSet(Word(env, Stored(c1), vars), i)
      {
        ghost var c2, before := circuit, id;
        id := BcAnd(id, vars[i]);
        HeldKept(c1, c2);
        forall env
          ensures B(env, circuit, id) == AllSet(Word(env, c1, vars), i + 1)
          ensures B(env, Stored(circuit), id) == AllSet(Word(env, Stored(c1), vars), i + 1)
        {
          BitKept(env, c1, c2, vars[i]);
          BitKept(env, Stored(c1), Stored(c2), vars[i]);
          AllSetNext(env, c1, vars, i);
          AllSetNext(env, Stored(c1), vars, i);
          assert B(env, c2, before) == AllSet(Word(env, c1, vars), i);
          assert B(env, Stored(c2), before) == AllSet(Word(env, Stored(c1), vars), i);
        }
      }
    }

    /** Where two words agree. */
    method BcAgree(a: seq<Var>, x: seq<Var>) returns (out: seq<Var>)
      requires |a| == |x| && BitVars(circuit, a) && BitVars(circuit, x)
      modifies this
      ensures Pure(old(circuit), circuit) && |out| == |a| && BitVars(circuit, out)
      ensures forall env {:trigger Word(env, circuit, out)} ::
        Word(env, circuit, out) == SameBits(Word(env, old(circuit), a), Word(env, old(circuit), x), |a|)
      ensures forall env {:trigger Harmless(env, circuit)} ::
        Harmless(env, circuit) <==> Harmless(env, old(circuit)) && NoClash(env, old(circuit), a, x, |a|)
      ensures forall env {:trigger Word(env, Stored(circuit), out)} ::
        Word(env, Stored(circuit), out) == HeldAgree(env, Stored(old(circuit)), a, x, |a|)
    {
      hide Run, Step, Harmless, Stored, NoClash, BitVar, Word, SameBits, HeldAgree;
      ghost var c0 := circuit;
      out := [];
      BitVarsBelow(c0, a);
      BitVarsBelow(c0, x);
      assert BitVars(circuit, out);
      forall env ensures AgreeState(env, c0, circuit, a, x, out) {
        AgreeStart(env, c0, a, x);
      }
      for i := 0 to |a|
        invariant Pure(c0, circuit) && |out| == i && BitVars(circuit, out)
        invariant forall env {:trigger AgreeState(env, c0, circuit, a, x, out)} :: AgreeState(env, c0, circuit, a, x, out)
      {
        ghost var c1 := circuit;
        BitVarsBelow(c1, out);
        var bit := BcAgreeBit(a[i], x[i]);
        forall env ensures AgreeState(env, c0, circuit, a, x, out + [bit]) {
          assert AgreeState(env, c0, c1, a, x, out);
          AgreeStep(env, c0, c1, circuit, a, x, out, bit);
        }
        WordKept(c1, circuit, out);
        out := out + [bit];
      }
      forall env
        ensures Word(env, circuit, out) == SameBits(Word(env, c0, a), Word(env, c0, x), |a|)
        ensures Harmless(env, circuit) <==> Harmless(env, c0) && NoClash(env, c0, a, x, |a|)
        ensures Word(env, Stored(circuit), out) == HeldAgree(env, Stored(c0), a, x, |a|)
      {
        assert AgreeState(env, c0, circuit, a, x, out);
      }
    }

    method BcAgreeBit(a: Var, x: Var) returns (bit: Var)
      requires a < circuit.Size() && x < circuit.Size()
      modifies this
      ensures Pure(old(circuit), circuit) && BitVar(circuit, bit)
      ensures forall env {:trigger B(env, circuit, bit)} :: B(env, circuit, bit) == (B(env, old(circuit), a) == B(env, old(circuit), x))
      ensures forall env {:trigger Harmless(env, circuit)} :: Harmless(env, circuit) <==> Harmless(env, old(circuit)) && XorSafe(env, old(circuit), a, x)
      ensures forall env {:trigger B(env, Stored(circuit), bit)} :: B(env, Stored(circuit), bit) == HeldSame(env, Stored(old(circuit)), a, x)
    {
      hide Run, Step, Harmless, Stored;
      ghost var c1 := circuit;
      var xor := BcXor(a, x);
      ghost var c2 := circuit;
      bit := BcNot(xor);
      forall env
        ensures B(env, circuit, bit) == (B(env, c1, a) == B(env, c1, x))
        ensures B(env, Stored(circuit), bit) == HeldSame(env, Stored(c1), a, x)
      {
        assert B(env, circuit, bit) == !B(env, c2, xor);
        assert B(env, Stored(circuit), bit) == !B(env, Stored(c2), xor);
      }
    }

    method BcNe(a: seq<Var>, x: seq<Var>) returns (id: Var)
      requires |a| == |x| && BitVars(circuit, a) && BitVars(circuit, x)
      modifies this
      ensures Pure(old(circuit), circuit) && BitVar(circuit, id)
      ensures forall env {:trigger B(env, circuit, id)} ::
        B(env, circuit, id) <==> Word(env, old(circuit), a) != Word(env, old(circuit), x)
      ensures forall env {:trigger Harmless(env, circuit)} ::
        Harmless(env, circuit) <==> Harmless(env, old(circuit)) && NoClash(env, old(circuit), a, x, |a|)
      ensures forall env {:trigger B(env, Stored(circuit), id)} ::
        B(env, Stored(circuit), id) == !HeldEqual(env, Stored(old(circuit)), a, x)
    {
      hide Run, Step, Harmless, Stored, NoClash;
      var eq := BcEq(a, x);
      id := BcNot(eq);
    }

    /** The borrow out of `a - x`. */
    method BcUlt(a: seq<Var>, x: seq<Var>) returns (borrow: Var)
      requires |a| == |x| && BitVars(circuit, a) && BitVars(circuit, x)
      modifies this
      ensures Pure(old(circuit), circuit) && BitVar(circuit, borrow) && SameHarm(old(circuit), circuit)
      ensures old(circuit).Size() <= borrow < circuit.Size()
      ensures forall env {:trigger B(env, circuit, borrow)} ::
        B(env, circuit, borrow) <==> Num(Word(env, old(circuit), a)) < Num(Word(env, old(circuit), x))
    {
      hide Run, Step, Majority, Low, Harmless, Stored;
      ghost var c0 := circuit;
      borrow := BcConst(false);
      for i := 0 to |a|
        invariant Pure(c0, circuit) && BitVar(circuit, borrow) && SameHarm(c0, circuit) && c0.Size() <= borrow < circuit.Size()
        invariant forall env {:trigger B(env, circuit, borrow)} ::
          B(env, circuit, borrow) == CarryInto(Complement(Word(env, c0, a)), Word(env, c0, x), false, i)
      {
        ghost var c1 := circuit;
        assert BitVar(c0, a[i]) && BitVar(c0, x[i]);
        var notA := BcNot(a[i]);
        ghost var c2 := circuit;
        var next := BcCarry3(notA, x[i], borrow);
        forall env
          ensures B(env, circuit, next) == CarryInto(Complement(Word(env, c0, a)), Word(env, c0, x), false, i + 1)
        {
          assert Val(env, c1, a[i]) == Val(env, c0, a[i]) && Val(env, c2, x[i]) == Val(env, c0, x[i]);
          assert B(env, c2, borrow) == B(env, c1, borrow);
          assert B(env, c2, notA) == !B(env, c1, a[i]);
          assert BitAt(Complement(Word(env, c0, a)), i) == !B(env, c0, a[i]) && BitAt(Word(env, c0, x), i) == B(env, c0, x[i]);
          assert B(env, circuit, next) == Majority(B(env, c2, notA), B(env, c2, x[i]), B(env, c2, borrow));
        }
        borrow := next;
      }
      forall env ensures B(env, circuit, borrow) <==> Num(Word(env, c0, a)) < Num(Word(env, c0, x)) {
        BorrowIsLess(Word(env, c0, a), Word(env, c0, x), |a|);
      }
    }

    method BcUle(a: seq<Var>, x: seq<Var>) returns (id: Var)
      requires |a| == |x| && BitVars(circuit, a) && BitVars(circuit, x)
      modifies this
      ensures Pure(old(circuit), circuit) && BitVar(circuit, id) && SameHarm(old(circuit), circuit)
      ensures forall env {:trigger B(env, circuit, id)} ::
        B(env, circuit, id) <==> Num(Word(env, old(circuit), a)) <= Num(Word(env, old(circuit), x))
    {
      hide Run, Step, Num, Harmless, Stored;
      var gt := BcUlt(x, a);
      id := BcNot(gt);
    }

    /** What is held misses exactly the pairs of negative words that share their sign variable. */
    method BcSlt(a: seq<Var>, x: seq<Var>) returns (id: Var)
      requires |a| == |x| > 0 && BitVars(circuit, a) && BitVars(circuit, x)
      modifies this
      ensures Pure(old(circuit), circuit) && BitVar(circuit, id)
      ensures forall env {:trigger B(env, circuit, id)} ::
        B(env, circuit, id) <==> Signed(Word(env, old(circuit), a)) < Signed(Word(env, old(circuit), x))
      ensures forall env {:trigger Harmless(env, circuit)} ::
        Harmless(env, circuit) <==> Harmless(env, old(circuit)) && XorSafe(env, old(circuit), a[|a| - 1], x[|x| - 1])
      ensures forall env {:trigger B(env, Stored(circuit), id)} | Harmless(env, old(circuit)) ::
        B(env, Stored(circuit), id) == HeldLess(env, old(circuit), a, x)
    {
      hide Run, Step, Num, Signed, BitAt, Word, Harmless, Stored, BitVar, HeldLess, HeldSame;
      ghost var c0 := circuit;
      var signA, signX := a[|a| - 1], x[|x| - 1];
      BitVarsBelow(c0, a);
      BitVarsBelow(c0, x);
      var notSignX := BcNot(signX);
      ghost var c1 := circuit;
      var aNegXPos := BcAnd(signA, notSignX);
      ghost var c2 := circuit;
      WordKept(c0, c2, a);
      WordKept(c0, c2, x);
      var ult := BcUlt(a, x);
      ghost var c3 := circuit;
      var sameSignLt := BcSameSignLess(signA, signX, ult);
      ghost var c4 := circuit;
      id := BcOr(aNegXPos, sameSignLt);
      ExtendsKeeps(c0, c3);
      forall env | Harmless(env, c0) ensures B(env, Stored(circuit), id) == HeldLess(env, c0, a, x) {
        assert Harmless(env, c3) <==> Harmless(env, c2);
        assert Harmless(env, c2) <==> Harmless(env, c1);
        BitKept(env, c2, c3, aNegXPos);
        BitKept(env, c0, c1, signA);
        assert B(env, c3, ult) <==> Num(Word(env, c0, a)) < Num(Word(env, c0, x));
        assert B(env, c2, aNegXPos) == (B(env, c0, signA) && !B(env, c0, signX));
        LessHeld(env, c0, c3, c4, circuit, a, x, aNegXPos, ult, sameSignLt, id);
      }
      forall env ensures B(env, circuit, id) <==> Signed(Word(env, c0, a)) < Signed(Word(env, c0, x)) {
        SignedWords(env, c0, a, x);
        assert B(env, c1, notSignX) == !B(env, c0, signX) && Val(env, c1, signA) == Val(env, c0, signA);
        assert B(env, c2, aNegXPos) == (B(env, c0, signA) && !B(env, c0, signX));
        assert Val(env, c4, aNegXPos) == Val(env, c2, aNegXPos);
        assert Val(env, c3, signA) == Val(env, c0, signA) && Val(env, c3, signX) == Val(env, c0, signX);
        assert B(env, circuit, id) == (B(env, c4, aNegXPos) || B(env, c4, sameSignLt));
      }
    }

    /** The signs agree and the unsigned comparison says less. */
    method BcSameSignLess(signA: Var, signX: Var, ult: Var) returns (id: Var)
      requires signA < circuit.Size() && signX < circuit.Size() && ult < circuit.Size()
      modifies this
      ensures Pure(old(circuit), circuit) && BitVar(circuit, id) && id < circuit.Size()
      ensures forall env {:trigger B(env, circuit, id)} ::
        B(env, circuit, id) <==>
          B(env, old(circuit), signA) == B(env, old(circuit), signX) && B(env, old(circuit), ult)
      ensures forall env {:trigger Harmless(env, circuit)} :: Harmless(env, circuit) <==> Harmless(env, old(circuit)) && XorSafe(env, old(circuit), signA, signX)
      ensures forall env {:trigger B(env, Stored(circuit), id)} ::
        B(env, Stored(circuit), id) == (HeldSame(env, Stored(old(circuit)), signA, signX) && B(env, Stored(old(circuit)), ult))
    {
      hide Run, Step, Harmless, Stored;
      var signsEq := BcAgreeBit(signA, signX);
      ghost var c2 := circuit;
      HeldKept(old(circuit), c2);
      id := BcAnd(signsEq, ult);
      forall env
        ensures B(env, circuit, id) <==> B(env, old(circuit), signA) == B(env, old(circuit), signX) && B(env, old(circuit), ult)
        ensures B(env, Stored(circuit), id) == (HeldSame(env, Stored(old(circuit)), signA, signX) && B(env, Stored(old(circuit)), ult))
      {
        BitKept(env, old(circuit), c2, ult);
        BitKept(env, Stored(old(circuit)), Stored(c2), ult);
      }
    }

    method BcSle(a: seq<Var>, x: seq<Var>) returns (id: Var)
      requires |a| == |x| > 0 && BitVars(circuit, a) && BitVars(circuit, x)
      modifies this
      ensures Pure(old(circuit), circuit) && BitVar(circuit, id)
      ensures forall env {:trigger B(env, circuit, id)} ::
        B(env, circuit, id) <==> Signed(Word(env, old(circuit), a)) <= Signed(Word(env, old(circuit), x))
      ensures forall env {:trigger Harmless(env, circuit)} ::
        Harmless(env, circuit) <==> Harmless(env, old(circuit)) && XorSafe(env, old(circuit), x[|x| - 1], a[|a| - 1])
      ensures forall env {:trigger B(env, Stored(circuit), id)} | Harmless(env, old(circuit)) ::
        B(env, Stored(circuit), id) == !HeldLess(env, old(circuit), x, a)
    {
      hide Run, Step, Num, Signed, Harmless, Stored, HeldLess;
      var gt := BcSlt(x, a);
      id := BcNot(gt);
    }
  }

  /**
   A one-bit word combined with itself. Asked for: the sum zero, equality, the word itself as the choice.
   Held: the sum is the bit, a set bit is unequal to itself, and the choice clears it while the condition holds.
   */
  method OnItself() returns (b: Emitter, cond: Var, v: Var, sum: seq<Var>, equal: Var, choice: Var)
    ensures |sum| == 1
    ensures forall env {:trigger Run(env, b.circuit)} ::
      !B(env, b.circuit, sum[0]) && B(env, b.circuit, equal) && B(env, b.circuit, choice) == B(env, b.circuit, v)
    ensures forall env {:trigger Run(env, Stored(b.circuit))} ::
      var c, x := B(env, Stored(b.circuit), cond), B(env, Stored(b.circuit), v);
      B(env, Stored(b.circuit), sum[0]) == x && B(env, Stored(b.circuit), equal) == !x && B(env, Stored(b.circuit), choice) == (x && !c)
  {
    hide Run, Step, Harmless, Stored, BitVar, Sum, NoClash, Word, B;
    b := new Emitter();
    cond := b.Param();
    v := b.Param();
    ghost var c0 := b.circuit;
    TwoParams(c0);
    sum := b.BcAdd([v], [v], false);
    ghost var c1 := b.circuit;
    BitVarsBelow(c1, sum);
    WordKept(c0, c1, [v]);
    equal := b.BcEq([v], [v]);
    ghost var c2, whole := b.circuit, [equal];
    BitVarsBelow(c2, whole);
    assert whole[0] == equal && equal < c2.Size();
    choice := b.BcSelect(cond, v, v);
    HeldKept(c0, c1);
    HeldKept(c1, c2);
    HeldKept(c2, b.circuit);
    ghost var c3 := b.circuit;
    forall env
      ensures !B(env, c3, sum[0]) && B(env, c3, equal) && B(env, c3, choice) == B(env, c3, v)
      ensures
        var c, x := B(env, Stored(c3), cond), B(env, Stored(c3), v);
        B(env, Stored(c3), sum[0]) == x && B(env, Stored(c3), equal) == !x && B(env, Stored(c3), choice) == (x && !c)
    {
      var h0, h1, h2, h3 := Stored(c0), Stored(c1), Stored(c2), Stored(c3);
      HeldWord(env, c0, [v]);
      OneBit(env, h0, v);
      TwiceSum(B(env, c0, v));
      OneBit(env, c0, v);
      assert sum == [sum[0]];
      OneBit(env, c1, sum[0]);
      OneBit(env, h1, sum[0]);
      assert Word(env, c1, sum) == Sum(Word(env, c0, [v]), Word(env, c0, [v]), false, 1);
      assert (Word(env, h1, sum) == [false]) == NoClash(env, c0, [v], [v], 1);
      OnlyClash(env, c0, v);
      OnlyClash(env, h1, v);
      assert B(env, c2, equal) && B(env, h2, equal) == HeldEqual(env, h1, [v], [v]);
      BitKept(env, c1, c2, sum[0]);
      BitKept(env, c2, c3, sum[0]);
      BitKept(env, c2, c3, equal);
      BitKept(env, c2, c3, v);
      BitKept(env, h0, h1, v);
      BitKept(env, h1, h2, v);
      BitKept(env, h2, h3, v);
      BitKept(env, h0, h1, cond);
      BitKept(env, h1, h2, cond);
      BitKept(env, h2, h3, cond);
      BitKept(env, h1, h2, sum[0]);
      BitKept(env, h2, h3, sum[0]);
      BitKept(env, h2, h3, equal);
    }
  }

  /** Two words of two bits with one sign variable. Asked for: the order of their low bits. Held: nothing is less where both are negative. */
  method SharedSign() returns (b: Emitter, u: Var, w: Var, v: Var, less: Var)
    ensures forall env {:trigger Run(env, b.circuit)} ::
      B(env, b.circuit, less) == (!B(env, b.circuit, u) && B(env, b.circuit, w))
      && B(env, Stored(b.circuit), less) == (!B(env, b.circuit, u) && B(env, b.circuit, w) && !B(env, b.circuit, v))
  {
    hide Run, Step, Harmless, Stored, BitVar, Signed, Word, B, XorSafe;
    b := new Emitter();
    u := b.Param();
    w := b.Param();
    v := b.Param();
    ghost var c0 := b.circuit;
    ThreeParams(c0);
    less := b.BcSlt([u, v], [w, v]);
    ghost var c1 := b.circuit;
    forall env
      ensures B(env, c1, less) == (!B(env, c1, u) && B(env, c1, w))
      ensures B(env, Stored(c1), less) == (!B(env, c1, u) && B(env, c1, w) && !B(env, c1, v))
    {
      BitKept(env, c0, c1, u);
      BitKept(env, c0, c1, w);
      BitKept(env, c0, c1, v);
      WordBit(env, c0, [u, v], 0);
      WordBit(env, c0, [u, v], 1);
      WordBit(env, c0, [w, v], 0);
      WordBit(env, c0, [w, v], 1);
      TwoBitOrder(Word(env, c0, [u, v]), Word(env, c0, [w, v]));
      assert B(env, Stored(c1), less) == HeldLess(env, c0, [u, v], [w, v]);
      OneSign(env, c0, [u, v], [w, v], v);
    }
  }

  lemma ThreeParams(c: Circuit)
    requires c == Circuit(3, [])
    ensures BitVars(c, [0, 2]) && BitVars(c, [1, 2]) && forall env :: Harmless(env, c)
  {
  }

  lemma TwoBitOrder(a: Bits, x: Bits)
    requires |a| == |x| == 2 && a[1] == x[1]
    ensures Signed(a) < Signed(x) <==> !a[0] && x[0]
  {
    assert Pow2(0) == 1 && Pow2(1) == 2 && Pow2(2) == 4;
    assert Num(a) == (if a[0] then 1 else 0) + (if a[1] then 2 else 0) by { TwoBits(a); }
    assert Num(x) == (if x[0] then 1 else 0) + (if x[1] then 2 else 0) by { TwoBits(x); }
  }

  lemma TwoBits(a: Bits)
    requires |a| == 2
    ensures Num(a) == (if a[0] then 1 else 0) + (if a[1] then 2 else 0)
  {
    assert Low(a, 0) == 0 && Pow2(0) == 1 && Pow2(1) == 2;
    assert Low(a, 1) == if a[0] then 1 else 0;
  }

  lemma OneSign(env: Env, c: Circuit, a: seq<Var>, x: seq<Var>, v: Var)
    requires |a| == |x| > 0 && a[|a| - 1] == v && x[|x| - 1] == v
    ensures HeldLess(env, c, a, x) <==> !B(env, c, v) && Signed(Word(env, c, a)) < Signed(Word(env, c, x))
  {
    hide Run, Signed;
  }

  lemma TwiceSum(x: bool)
    ensures Sum([x], [x], false, 1) == [false]
  {
  }

  lemma OnlyClash(env: Env, c: Circuit, v: Var)
    ensures NoClash(env, c, [v], [v], 1) <==> !B(env, c, v)
  {
    hide Run;
    assert [v][0] == v;
  }

  lemma WordBit(env: Env, c: Circuit, vars: seq<Var>, i: nat)
    requires i < |vars|
    ensures Word(env, c, vars)[i] == B(env, c, vars[i])
  {
    hide Run;
  }

  lemma TwoParams(c: Circuit)
    requires c == Circuit(2, [])
    ensures BitVars(c, [0]) && BitVars(c, [1]) && forall env :: Harmless(env, c)
  {
  }

  lemma SumSnoc(a: Bits, x: Bits, carryIn: bool, n: nat)
    ensures Sum(a, x, carryIn, n + 1) == Sum(a, x, carryIn, n) + [(BitAt(a, n) != BitAt(x, n)) != CarryInto(a, x, carryIn, n)]
  {
  }

  ghost function SameBits(a: Bits, x: Bits, n: nat): (r: Bits)
    ensures |r| == n
  {
    seq(n, i requires 0 <= i => BitAt(a, i) == BitAt(x, i))
  }

  /** `a + ~x + 1` is `a - x`, modulo the word size. */
  lemma SubtractByComplement(a: Bits, x: Bits)
    requires |a| == |x|
    ensures Num(Sum(a, Complement(x), true, |a|)) == (Num(a) - Num(x)) % Pow2(|a|)
  {
    SumNumber(a, Complement(x), true, |a|);
    ComplementLow(x, |x|);
    assert Num(a) + Num(Complement(x)) + 1 == Num(a) - Num(x) + 1 * Pow2(|a|);
    ModOfMultiple(Num(a) - Num(x), 1, Pow2(|a|));
  }

  // ---------------------------------------------------------------- words as products

  ghost predicate IsProduct(r: Bits, a: Bits, x: Bits) {
    Num(r) == Num(a) * Num(x) % Pow2(|r|)
  }

  /** `r` is the middle product of the halves, to as many columns as it has. */
  ghost predicate IsMiddle(r: Bits, a0: Bits, a1: Bits, x0: Bits, x1: Bits) {
    Num(r) == (Num(a0) * Num(x1) + Num(a1) * Num(x0)) % Pow2(|r|)
  }

  /** How many columns the multiplier returns. */
  function ProductWidth(n: nat, want: nat): nat {
    if n <= 16 && 2 * n < want then 2 * n else want
  }

  /** How many columns the middle product is wanted to. */
  function MiddleWidth(n: nat, want: nat): nat
    requires n / 2 <= want
  {
    var m, h := n / 2, n - n / 2;
    if want - m < 2 * (h + 1) then want - m else 2 * (h + 1)
  }

  function Least(a: nat, b: nat): nat {
    if a < b then a else b
  }

  /** Every half sum the multiplier makes of this word, at every level, combines no set variable with itself. */
  ghost predicate Folds(env: Env, c: Circuit, a: seq<Var>, want: nat)
    decreases |a|, 0
  {
    var m, h := |a| / 2, |a| - |a| / 2;
    |a| <= 16 || (
      && Folds(env, c, a[..m], Least(want, 2 * m))
      && (m < want ==> HalfFolds(env, c, a[..m], a[m..], MiddleWidth(|a|, want)))
      && (2 * m < want ==> Folds(env, c, a[m..], want - 2 * m)))
  }

  /** What the middle product to `w` columns needs of one word. */
  ghost predicate HalfFolds(env: Env, c: Circuit, lo: seq<Var>, hi: seq<Var>, w: nat)
    requires |lo| <= |hi|
    decreases |hi|, 1
  {
    NoClash(env, c, lo, hi, |lo|) && Folds(env, c, lo, Least(w, 2 * |lo|)) && Folds(env, c, hi, Least(w, 2 * |hi|))
  }

  ghost predicate HighFolds(env: Env, c: Circuit, lo: seq<Var>, hi: seq<Var>, want: nat)
    requires |lo| <= |hi| <= |lo| + 1 && |lo| < want
  {
    && HalfFolds(env, c, lo, hi, MiddleWidth(|lo| + |hi|, want))
    && (2 * |lo| < want ==> Folds(env, c, hi, want - 2 * |lo|))
  }

  lemma HighKept(env: Env, c: Circuit, d: Circuit, lo: seq<Var>, hi: seq<Var>, want: nat)
    requires |lo| <= |hi| <= |lo| + 1 && |lo| < want && Keeps(c, d)
    requires forall i | 0 <= i < |lo| :: lo[i] < c.Size()
    requires forall i | 0 <= i < |hi| :: hi[i] < c.Size()
    ensures HighFolds(env, d, lo, hi, want) <==> HighFolds(env, c, lo, hi, want)
  {
    hide Run, NoClash, Keeps, Folds;
    var w := MiddleWidth(|lo| + |hi|, want);
    NoClashKept(env, c, d, lo, hi, |lo|);
    FoldsKept(env, c, d, lo, Least(w, 2 * |lo|));
    FoldsKept(env, c, d, hi, Least(w, 2 * |hi|));
    if 2 * |lo| < want {
      FoldsKept(env, c, d, hi, want - 2 * |lo|);
    }
  }

  lemma DistinctNoClash(env: Env, c: Circuit, a: seq<Var>, x: seq<Var>)
    requires |a| == |x| && forall i | 0 <= i < |a| :: a[i] != x[i]
    ensures NoClash(env, c, a, x, |a|)
  {
  }

  /** Padding constants are apart from everything, so extended halves clash where the halves do. */
  lemma ExtendedClash(env: Env, c0: Circuit, c1: Circuit, c2: Circuit, lo: seq<Var>, hi: seq<Var>, loExt: seq<Var>, hiExt: seq<Var>)
    requires |lo| <= |hi| && |loExt| == |hiExt| == |hi| + 1 && Keeps(c0, c1) && Keeps(c1, c2) && c0.Size() < c1.Size()
    requires forall i | 0 <= i < |loExt| :: loExt[i] == if i < |lo| then lo[i] else c0.Size()
    requires forall i | 0 <= i < |hiExt| :: hiExt[i] == if i < |hi| then hi[i] else c1.Size()
    requires forall i | 0 <= i < |lo| :: lo[i] < c0.Size()
    requires forall i | 0 <= i < |hi| :: hi[i] < c0.Size()
    ensures NoClash(env, c2, loExt, hiExt, |loExt|) <==> NoClash(env, c0, lo, hi, |lo|)
  {
    hide Run;
    forall i | 0 <= i < |lo| ensures B(env, c2, lo[i]) == B(env, c0, lo[i]) {
      BitKept(env, c0, c1, lo[i]);
      BitKept(env, c1, c2, lo[i]);
    }
    if NoClash(env, c2, loExt, hiExt, |loExt|) {
      forall i | 0 <= i < |lo| ensures XorSafe(env, c0, lo[i], hi[i]) {
        assert XorSafe(env, c2, loExt[i], hiExt[i]);
      }
    }
  }

  /** Words of one length are equal exactly when their numbers are. */
  lemma SameNumber(a: Bits, b: Bits)
    requires |a| == |b|
    ensures a == b <==> Num(a) == Num(b)
  {
    hide Num;
    if Num(a) == Num(b) {
      NumInjective(a, b);
    }
  }

  /** A product asked for is held wherever nothing needed is lost. */
  lemma HeldProduct(c: Circuit, out: seq<Var>)
    ensures forall env {:trigger Word(env, Stored(c), out)} | Harmless(env, c) :: Word(env, Stored(c), out) == Word(env, c, out)
  {
    hide Run, Harmless, Stored, Word;
    forall env | Harmless(env, c) ensures Word(env, Stored(c), out) == Word(env, c, out) {
      HeldWord(env, c, out);
    }
  }

  /** Distinct variables never fold onto each other. */
  lemma {:induction false} AscendingFolds(env: Env, c: Circuit, a: seq<Var>, want: nat)
    requires Ascending(a)
    ensures Folds(env, c, a, want)
    decreases |a|
  {
    hide Run;
    if |a| > 16 {
      var m := |a| / 2;
      var lo, hi := a[..m], a[m..];
      assert Ascending(lo) && Ascending(hi);
      AscendingFolds(env, c, lo, Least(want, 2 * m));
      if m < want {
        var w := MiddleWidth(|a|, want);
        AscendingFolds(env, c, lo, Least(w, 2 * |lo|));
        AscendingFolds(env, c, hi, Least(w, 2 * |hi|));
        assert forall i | 0 <= i < m :: lo[i] == a[i] && hi[i] == a[m + i];
      }
      if 2 * m < want {
        AscendingFolds(env, c, hi, want - 2 * m);
      }
    }
  }

  lemma {:induction false} FoldsKept(env: Env, c: Circuit, d: Circuit, a: seq<Var>, want: nat)
    requires Keeps(c, d) && forall i | 0 <= i < |a| :: a[i] < c.Size()
    ensures Folds(env, d, a, want) <==> Folds(env, c, a, want)
    decreases |a|
  {
    hide Run, NoClash, Keeps;
    if |a| > 16 {
      var m := |a| / 2;
      var lo, hi := a[..m], a[m..];
      FoldsKept(env, c, d, lo, Least(want, 2 * m));
      if m < want {
        var w := MiddleWidth(|a|, want);
        NoClashKept(env, c, d, lo, hi, m);
        FoldsKept(env, c, d, lo, Least(w, 2 * |lo|));
        FoldsKept(env, c, d, hi, Least(w, 2 * |hi|));
      }
      if 2 * m < want {
        FoldsKept(env, c, d, hi, want - 2 * m);
      }
    }
  }

  ghost predicate RowsSummed(acc: Bits, a: Bits, x: Bits, i: nat) {
    Num(acc) == Low(a, i) * Num(x) % Pow2(|acc|)
  }

  lemma NoRows(acc: Bits, a: Bits, x: Bits)
    requires acc == Digits(0, |acc|)
    ensures RowsSummed(acc, a, x, 0)
  {
    ZeroWord(|acc|);
    SmallMod(0, Pow2(|acc|));
  }

  lemma OneMoreRow(acc: Bits, a: Bits, x: Bits, i: nat)
    requires i < |a| && RowsSummed(acc, a, x, i)
    ensures RowsSummed(Sum(acc, Row(a[i], x, i, |acc|), false, |acc|), a, x, i + 1)
  {
    hide Pow2, Sum;
    var row := Row(a[i], x, i, |acc|);
    SumNumber(acc, row, false, |acc|);
    PlacedNumber(x, i, |acc|);
    ZeroWord(|acc|);
    RowStep(a, Num(x), i, Num(row), Num(acc), Pow2(|acc|));
  }

  lemma AllRows(acc: Bits, a: Bits, x: Bits, i: nat)
    requires i <= |a| && (i == |a| || i == |acc|) && RowsSummed(acc, a, x, i)
    ensures IsProduct(acc, a, x)
  {
    RowsDone(a, Num(x), i, |acc|);
  }

  lemma ExactSum(lo: Bits, hi: Bits)
    requires |lo| <= |hi|
    ensures Num(Sum(Resized(lo, |hi| + 1), Resized(hi, |hi| + 1), false, |hi| + 1)) == Num(lo) + Num(hi)
  {
    hide Sum, Resized, Low;
    var w := |hi| + 1;
    ResizedNumber(lo, w);
    ResizedNumber(hi, w);
    NumBound(lo);
    NumBound(hi);
    Pow2Monotone(|lo|, |hi|);
    SmallMod(Num(lo), Pow2(w));
    SmallMod(Num(hi), Pow2(w));
    SumNumber(Resized(lo, w), Resized(hi, w), false, w);
    SmallMod(Num(lo) + Num(hi), Pow2(w));
  }

  lemma ExtendedProduct(full: Bits, a: Bits, x: Bits, w: nat)
    requires |a| == |x| && IsProduct(full, a, x)
    requires |full| == if w < 2 * |a| then w else 2 * |a|
    ensures Num(Resized(full, w)) == Num(a) * Num(x) % Pow2(w)
  {
    hide Num, Pow2, Resized;
    NumBound(a);
    NumBound(x);
    ProductSpan(Num(a), Num(x), |a|, |a|);
    ResizedNumber(full, w);
    CutAgain(Num(a) * Num(x), 2 * |a|, w, |full|);
  }

  lemma HalfSumProduct(z1: Bits, sa: Bits, sx: Bits, a0: Bits, a1: Bits, x0: Bits, x1: Bits)
    requires IsProduct(z1, sa, sx) && Num(sa) == Num(a0) + Num(a1) && Num(sx) == Num(x0) + Num(x1)
    ensures Num(z1) == (Num(a0) + Num(a1)) * (Num(x0) + Num(x1)) % Pow2(|z1|)
  {
  }

  lemma MiddlePlaced(mid: Bits, a0: Bits, a1: Bits, x0: Bits, x1: Bits, want: nat)
    requires |a0| == |x0| <= |a1| == |x1| && |a0| < want && IsMiddle(mid, a0, a1, x0, x1)
    requires |mid| == if want - |a0| < 2 * (|a1| + 1) then want - |a0| else 2 * (|a1| + 1)
    ensures Num(Placed(mid, |a0|, want)) == (Num(a0) * Num(x1) + Num(a1) * Num(x0)) * Pow2(|a0|) % Pow2(want)
  {
    hide Num, Pow2, Placed;
    var h := |a1|;
    var v := Num(a0) * Num(x1) + Num(a1) * Num(x0);
    assert v < Pow2(2 * (h + 1)) by {
      NumBound(a0);
      NumBound(a1);
      NumBound(x0);
      NumBound(x1);
      Pow2Monotone(|a0|, h);
      MiddleSpan(Num(a0), Num(a1), Num(x0), Num(x1), h);
    }
    PlacedNumber(mid, |a0|, want);
    ShiftCut(v, 2 * (h + 1), |a0|, want, |mid|);
  }

  lemma TopPlaced(top: Bits, a1: Bits, x1: Bits, m: nat, want: nat)
    requires |a1| == |x1| && 2 * m < want && IsProduct(top, a1, x1) && |top| == ProductWidth(|a1|, want - 2 * m)
    ensures Num(Placed(top, 2 * m, want)) == Num(a1) * Num(x1) * Pow2(2 * m) % Pow2(want)
  {
    hide Num, Pow2, Placed;
    NumBound(a1);
    NumBound(x1);
    ProductSpan(Num(a1), Num(x1), |a1|, |a1|);
    PlacedNumber(top, 2 * m, want);
    ShiftCut(Num(a1) * Num(x1), 2 * |a1|, 2 * m, want, |top|);
  }

  /** Low and middle contributions, to the wanted columns. */
  lemma LowAndMiddle(a0: Bits, a1: Bits, x0: Bits, x1: Bits, acc: Bits, mid: Bits, want: nat)
    requires |a0| == |x0| <= |a1| == |x1| && |a0| < want
    requires IsProduct(acc, a0, x0) && |acc| == if want < 2 * |a0| then want else 2 * |a0|
    requires IsMiddle(mid, a0, a1, x0, x1)
    requires |mid| == if want - |a0| < 2 * (|a1| + 1) then want - |a0| else 2 * (|a1| + 1)
    ensures Num(Sum(Resized(acc, want), Placed(mid, |a0|, want), false, want))
      == (Num(a0) * Num(x0) % Pow2(want)
        + (Num(a0) * Num(x1) + Num(a1) * Num(x0)) * Pow2(|a0|) % Pow2(want)) % Pow2(want)
  {
    hide Num, Pow2, Placed, Resized, Sum, IsProduct, IsMiddle;
    ExtendedProduct(acc, a0, x0, want);
    MiddlePlaced(mid, a0, a1, x0, x1, want);
    SumNumber(Resized(acc, want), Placed(mid, |a0|, want), false, want);
  }

  lemma AllThirds(a0: Bits, a1: Bits, x0: Bits, x1: Bits, acc: Bits, mid: Bits, top: Bits, want: nat)
    requires |a0| == |x0| <= |a1| == |x1| && 2 * |a0| < want
    requires IsProduct(acc, a0, x0) && |acc| == 2 * |a0|
    requires IsMiddle(mid, a0, a1, x0, x1)
    requires |mid| == if want - |a0| < 2 * (|a1| + 1) then want - |a0| else 2 * (|a1| + 1)
    requires IsProduct(top, a1, x1) && |top| == ProductWidth(|a1|, want - 2 * |a0|)
    ensures IsProduct(Sum(Sum(Resized(acc, want), Placed(mid, |a0|, want), false, want), Placed(top, 2 * |a0|, want), false, want),
              a0 + a1, x0 + x1)
  {
    hide Num, Pow2, Placed, Resized, Sum, IsMiddle;
    LowAndMiddle(a0, a1, x0, x1, acc, mid, want);
    TopPlaced(top, a1, x1, |a0|, want);
    var lower := Sum(Resized(acc, want), Placed(mid, |a0|, want), false, want);
    SumNumber(lower, Placed(top, 2 * |a0|, want), false, want);
    NumConcat(a0, a1);
    NumConcat(x0, x1);
    RecombineCut(Num(a0), Num(a1), Num(x0), Num(x1), |a0|, want, Num(a0) * Num(x0) % Pow2(want),
      (Num(a0) * Num(x1) + Num(a1) * Num(x0)) * Pow2(|a0|) % Pow2(want), Num(Placed(top, 2 * |a0|, want)));
  }

  lemma LowerThirds(a0: Bits, a1: Bits, x0: Bits, x1: Bits, acc: Bits, mid: Bits, want: nat)
    requires |a0| == |x0| <= |a1| == |x1| && |a0| < want <= 2 * |a0|
    requires IsProduct(acc, a0, x0) && |acc| == want
    requires IsMiddle(mid, a0, a1, x0, x1)
    requires |mid| == if want - |a0| < 2 * (|a1| + 1) then want - |a0| else 2 * (|a1| + 1)
    ensures IsProduct(Sum(Resized(acc, want), Placed(mid, |a0|, want), false, want), a0 + a1, x0 + x1)
  {
    hide Num, Pow2, Placed, Resized, Sum, IsMiddle;
    LowAndMiddle(a0, a1, x0, x1, acc, mid, want);
    TopBeyond(Num(a1) * Num(x1), |a0|, want);
    var lower := Num(Sum(Resized(acc, want), Placed(mid, |a0|, want), false, want));
    NumBound(Sum(Resized(acc, want), Placed(mid, |a0|, want), false, want));
    SmallMod(lower, Pow2(want));
    NumConcat(a0, a1);
    NumConcat(x0, x1);
    RecombineCut(Num(a0), Num(a1), Num(x0), Num(x1), |a0|, want, Num(a0) * Num(x0) % Pow2(want),
      (Num(a0) * Num(x1) + Num(a1) * Num(x0)) * Pow2(|a0|) % Pow2(want), 0);
  }

  lemma WordHalves(env: Env, c: Circuit, a: seq<Var>, m: nat)
    requires m <= |a|
    ensures Word(env, c, a) == Word(env, c, a[..m]) + Word(env, c, a[m..])
  {
  }

  lemma HighHalvesBeyond(r: Bits, a: Bits, x: Bits, m: nat)
    requires |r| <= m <= |a| == |x| && IsProduct(r, a[..m], x[..m])
    ensures IsProduct(r, a, x)
  {
    hide Pow2, Num;
    assert a == a[..m] + a[m..] && x == x[..m] + x[m..];
    NumConcat(a[..m], a[m..]);
    NumConcat(x[..m], x[m..]);
    TopHalfBeyond(Num(a[..m]), Num(a[m..]), Num(x[..m]), Num(x[m..]), m, |r|);
  }
}
