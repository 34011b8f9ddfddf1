/**
 Symbolic WASM values: words of circuit variables with the number they are known to hold, and
 why folding known numbers in 64-bit registers agrees with the bits.
 */
module WasmValues {
  import opened Common
  import opened Numbers
  import opened VCircuit
  import opened Karatsuba
  import opened BitCircuits
  import opened WasmProgram

  datatype ImportError =
    | Unsupported
    | ImportedFunction
    | RecursiveCall
    | NonFiniteControl
    | ResourceLimit
      // an index or an operand the source would panic on
    | Malformed

  datatype Result<T> = Ok(value: T) | Err(error: ImportError)

  // ---------------------------------------------------------------- symbolic values

  /** A word of variables, and its number where that is the same in every run. */
  datatype Value = Value(bits: seq<Var>, known: Option<nat>)

  function Mask(value: nat, width: nat): nat {
    if width >= 64 then value else value % Pow2(width)
  }

  function WithBits(bits: seq<Var>, known: Option<nat>): Value {
    Value(bits, if known.Some? then Some(Mask(known.value, |bits|)) else None)
  }

  /** The value's wires are bits of `c`, and what is known of it is true in every run. */
  ghost predicate Good(c: Circuit, v: Value) {
    && BitVars(c, v.bits)
    && (v.known.Some? ==> |v.bits| <= 64 && forall env {:trigger Word(env, c, v.bits)} :: Num(Word(env, c, v.bits)) == v.known.value)
  }

  ghost predicate AllGood(c: Circuit, vs: seq<Value>) {
    forall i | 0 <= i < |vs| :: Good(c, vs[i])
  }

  ghost predicate MapGood(c: Circuit, values: map<ValueId, Value>) {
    forall k | k in values :: Good(c, values[k])
  }

  ghost function Words(env: Env, c: Circuit, vs: seq<Value>): (r: seq<Bits>)
    ensures |r| == |vs|
  {
    seq(|vs|, i requires 0 <= i < |vs| => Word(env, c, vs[i].bits))
  }

  ghost function MapWords(env: Env, c: Circuit, values: map<ValueId, Value>): (r: map<ValueId, Bits>)
    ensures r.Keys == values.Keys
  {
    map k | k in values :: Word(env, c, values[k].bits)
  }

  lemma GoodKept(c: Circuit, d: Circuit, v: Value)
    requires Keeps(c, d) && Good(c, v)
    ensures Good(d, v)
    ensures forall env {:trigger Word(env, d, v.bits)} :: Word(env, d, v.bits) == Word(env, c, v.bits)
  {
    hide Run, Word, BitVars, Keeps, Num;
    WordKept(c, d, v.bits);
  }

  lemma AllKept(c: Circuit, d: Circuit, vs: seq<Value>)
    requires Keeps(c, d) && AllGood(c, vs)
    ensures AllGood(d, vs)
    ensures forall env {:trigger Words(env, d, vs)} :: Words(env, d, vs) == Words(env, c, vs)
  {
    hide Run, Word, Good, Keeps;
    forall i | 0 <= i < |vs| ensures Good(d, vs[i]) {
      GoodKept(c, d, vs[i]);
    }
    forall env ensures Words(env, d, vs) == Words(env, c, vs) {
      forall i | 0 <= i < |vs| ensures Word(env, d, vs[i].bits) == Word(env, c, vs[i].bits) {
        GoodKept(c, d, vs[i]);
      }
    }
  }

  lemma MapKept(c: Circuit, d: Circuit, values: map<ValueId, Value>)
    requires Keeps(c, d) && MapGood(c, values)
    ensures MapGood(d, values)
    ensures forall env {:trigger MapWords(env, d, values)} :: MapWords(env, d, values) == MapWords(env, c, values)
  {
    hide Run, Word, Good, Keeps;
    forall k | k in values ensures Good(d, values[k]) {
      GoodKept(c, d, values[k]);
    }
    forall env ensures MapWords(env, d, values) == MapWords(env, c, values) {
      forall k | k in values ensures Word(env, d, values[k].bits) == Word(env, c, values[k].bits) {
        GoodKept(c, d, values[k]);
      }
    }
  }

  lemma KeepsTransitive(c: Circuit, d: Circuit, e: Circuit)
    requires Keeps(c, d) && Keeps(d, e)
    ensures Keeps(c, e)
  {
    hide Run;
  }

  lemma PureReflexive(c: Circuit)
    ensures Pure(c, c)
  {
  }

  lemma WordsSnoc(env: Env, c: Circuit, vs: seq<Value>, v: Value)
    ensures Words(env, c, vs + [v]) == Words(env, c, vs) + [Word(env, c, v.bits)]
  {
    hide Run, Word;
  }

  // ---------------------------------------------------------------- what known values mean

  /** A known operand, in a 64-bit register. */
  function Register(value: nat): Bits {
    Digits(value, 64)
  }

  function KnownBinary(op: BinOp, x: nat, y: nat): nat {
    match op
    case Add => (x + y) % Pow2(64)
    case Sub => (x - y) % Pow2(64)
    case Mul => x * y % Pow2(64)
    case BitOp(gate) => Num(Bitwise(gate, Register(x), Register(y), 64))
  }

  /** Shift the low `width` bits to the top of a signed 64-bit register and back. */
  function AsSigned(value: nat, width: nat): int
    requires width <= 64
  {
    var shifted := value * Pow2(64 - width) % Pow2(64);
    var signed := if shifted >= Pow2(63) then shifted - Pow2(64) else shifted;
    signed / Pow2(64 - width)
  }

  predicate KnownHolds(pred: Pred, x: nat, y: nat, width: nat)
    requires width <= 64
  {
    match pred
    case Eq => x == y
    case Ne => x != y
    case Ult => x < y
    case Ule => x <= y
    case Ugt => x > y
    case Uge => x >= y
    case Slt => AsSigned(x, width) < AsSigned(y, width)
    case Sle => AsSigned(x, width) <= AsSigned(y, width)
    case Sgt => AsSigned(x, width) > AsSigned(y, width)
    case Sge => AsSigned(x, width) >= AsSigned(y, width)
  }

  lemma MaskIsRemainder(value: nat, w: nat)
    requires value < Pow2(64) && w <= 64
    ensures Mask(value, w) == value % Pow2(w)
  {
    hide Pow2;
    if w == 64 {
      SmallMod(value, Pow2(w));
    }
  }

  /** Folding known operands in a 64-bit register, masked to the width, agrees with the word. */
  lemma KnownBinaryRight(op: BinOp, a: Bits, x: Bits)
    requires |a| == |x| <= 64
    ensures Num(BinaryWord(op, a, x)) == Mask(KnownBinary(op, Num(a), Num(x)), |a|)
  {
    hide Pow2, Low, Mask;
    var w := |a|;
    if op.BitOp? {
      var wide := Bitwise(op.gate, Register(Num(a)), Register(Num(x)), 64);
      RegisterOf(a);
      RegisterOf(x);
      assert Resized(wide, w) == Bitwise(op.gate, a, x, w);
      ResizedNumber(wide, w);
      NumBound(wide);
      MaskIsRemainder(Num(wide), w);
    } else {
      hide Num;
      var exact := match op case Add => Num(a) + Num(x) case Sub => Num(a) - Num(x) case _ => Num(a) * Num(x);
      ModOfPower(exact, w, 64);
      MaskIsRemainder(exact % Pow2(64), w);
      NumOfDigits(exact % Pow2(w), w);
      SmallMod(exact % Pow2(w), Pow2(w));
    }
  }

  lemma RegisterOf(a: Bits)
    requires |a| <= 64
    ensures Register(Num(a)) == Resized(a, 64)
  {
    hide Pow2, Low;
    NumBound(a);
    Pow2Monotone(|a|, 64);
    SmallMod(Num(a), Pow2(64));
    NumOfDigits(Num(a), 64);
    ResizedNumber(a, 64);
    NumInjective(Register(Num(a)), Resized(a, 64));
  }

  lemma AsSignedRight(a: Bits)
    requires 0 < |a| <= 64
    ensures AsSigned(Num(a), |a|) == Signed(a)
  {
    hide Pow2, Low;
    var w, k := |a|, Pow2(64 - |a|);
    NumBound(a);
    TopBit(a);
    Pow2Add(64 - w, w);
    Pow2Add(64 - w, w - 1);
    ShiftUpAndBack(Num(a), Signed(a), Pow2(w), Pow2(w - 1), k, a[w - 1]);
  }

  lemma ShiftUpAndBack(n: nat, signed: int, p: nat, half: nat, k: nat, top: bool)
    requires n < p && k > 0 && half > 0 && (top <==> n >= half) && signed == if top then n - p else n
    ensures n * k < k * p && (n * k >= k * half <==> top) && n * k % (k * p) == n * k
    ensures (if n * k >= k * half then n * k - k * p else n * k) / k == signed
  {
    MulMonotone(n + 1, p, k);
    SmallMod(n * k, k * p);
    if top {
      MulMonotone(half, n, k);
    } else {
      MulMonotone(n + 1, half, k);
    }
    assert n * k - k * p == (n - p) * k + 0;
    DivModUnique(signed * k, k, signed, 0);
  }

  lemma KnownHoldsRight(pred: Pred, a: Bits, x: Bits)
    requires 0 < |a| == |x| <= 64
    ensures KnownHolds(pred, Num(a), Num(x), |a|) <==> Holds(pred, a, x)
  {
    hide Num, AsSigned, Signed;
    AsSignedRight(a);
    AsSignedRight(x);
    if Num(a) == Num(x) {
      NumInjective(a, x);
    }
  }

  /**
   A signed extension that keeps the known number of the narrower word keeps the right number
   exactly when the word's sign bit is clear.
   */
  lemma SignedExtensionKnown(w: Bits, width: nat)
    requires 0 < |w| < width <= 64
    ensures Mask(Num(w), width) == Num(Extended(w, width, true)) <==> !w[|w| - 1]
  {
    hide Num, Pow2;
    NumBound(w);
    Pow2Monotone(|w|, width);
    Pow2Monotone(|w|, width - 1);
    Pow2Monotone(width, 64);
    MaskIsRemainder(Num(w), width);
    SmallMod(Num(w), Pow2(width));
    if w[|w| - 1] {
      TopBit(Extended(w, width, true));
    } else {
      assert Extended(w, width, true) == Resized(w, width);
      ResizedNumber(w, width);
    }
  }

  // ---------------------------------------------------------------- folded shifts

  datatype ShiftKind = Shl | ShrU | ShrS

  function SignedNumber(x: nat, width: nat): int {
    if 2 * x >= Pow2(width) then x - Pow2(width) else x
  }

  /** What a shift is for: counts are taken modulo the width. */
  function Shifted(kind: ShiftKind, x: nat, count: nat, width: nat): nat
    requires width > 0
  {
    hide Pow2;
    var p: nat, w: nat := Pow2(count % width), Pow2(width);
    match kind
    case Shl => x * p % w
    case ShrU => x / p
    case ShrS => SignedNumber(x, width) / p % w
  }

  /** The folded number: counts are taken modulo 64, or cut to the width less one. */
  function KnownShift(kind: ShiftKind, x: nat, count: nat, width: nat): nat
    requires 0 < width <= 64
  {
    hide Pow2;
    var p: nat, w: nat := Pow2(count % 64), Pow2(width);
    match kind
    case Shl => x * p % w
    case ShrU => x / p
    case ShrS => SignedNumber(x, width) / ArithmeticFactor(count, width) % w
  }

  function ArithmeticFactor(count: nat, width: nat): nat
    requires width > 0
  {
    Pow2(if count < width then count else width - 1)
  }

  /** Logical shifts of 64-bit numbers fold right, and so do counts below the width. */
  lemma KnownShiftRight(kind: ShiftKind, x: nat, count: nat, width: nat)
    requires 0 < width <= 64 && (count < width || (width == 64 && !kind.ShrS?))
    ensures KnownShift(kind, x, count, width) == Shifted(kind, x, count, width)
  {
    hide Pow2, SignedNumber;
    if count < width {
      SmallMod(count, width);
      SmallMod(count, 64);
    }
  }

  /** A 32-bit number whose folded count is 32 to 63 becomes zero: right only if the shift by 32 less is zero. */
  lemma KnownShiftExactly(kind: ShiftKind, x: nat, count: nat)
    requires x < Pow2(32) && !kind.ShrS?
    ensures KnownShift(kind, x, count, 32) == Shifted(kind, x, count, 32)
      <==> (count % 64 < 32 || if kind.Shl? then x * Pow2(count % 32) % Pow2(32) == 0 else x < Pow2(count % 32))
  {
    hide Pow2;
    if count % 64 < 32 {
      assert count % 64 == count % 32;
    } else {
      var r := count % 32;
      assert count % 64 == 32 + r;
      Pow2Add(32, r);
      FoldedAway(x, Pow2(32), Pow2(r));
    }
  }

  /** One shifted up by 32 is one, and folds to zero. */
  lemma FoldedToZero()
    ensures KnownShift(Shl, 1, 32, 32) == 0 && Shifted(Shl, 1, 32, 32) == 1
  {
    hide Pow2;
    SmallPowers();
    Pow2Monotone(1, 32);
    SmallMod(1, Pow2(32));
    FoldedAway(1, Pow2(32), 1);
    assert 32 % 32 == 0 && 32 % 64 == 32;
  }

  lemma FoldedAway(x: nat, w: nat, p: nat)
    requires w > 0 && p > 0 && x < w
    ensures x * (w * p) % w == 0 && w * p > 0 && x / (w * p) == 0
    ensures x / p == 0 <==> x < p
  {
    MulMonotone(1, p, w);
    SmallMod(x, w * p);
    assert x * (w * p) == (x * p) * w;
    DivModUnique(x * (w * p), w, x * p, 0);
    if x < p {
      SmallMod(x, p);
    }
  }

  /** A folded arithmetic shift by the width or more fills with the sign: right only if the wrapped count leaves nothing else. */
  lemma KnownArithmeticExactly(x: nat, count: nat, width: nat)
    requires 0 < width <= 64 && x < Pow2(width) && count >= width
    ensures KnownShift(ShrS, x, count, width) == Shifted(ShrS, x, count, width)
      <==> -(Pow2(count % width) as int) <= SignedNumber(x, width) < Pow2(count % width)
  {
    hide Pow2;
    var s, p, q, w := SignedNumber(x, width), Pow2(count % width), Pow2(width - 1), Pow2(width);
    assert w == 2 * q by {
      Pow2Add(1, width - 1);
      SmallPowers();
    }
    Pow2Monotone(count % width, width - 1);
    SignFill(s, q);
    SignedQuotientRange(s, p, q);
    SameSigned(s / p, s / q, w);
  }

  lemma SignFill(s: int, q: nat)
    requires q > 0 && -(q as int) <= s < q
    ensures s / q == if s < 0 then -1 else 0
  {
    if s < 0 {
      DivModUnique(s, q, -1, s + q);
    } else {
      SmallMod(s, q);
    }
  }

  lemma SignedQuotientRange(s: int, p: nat, q: nat)
    requires 0 < p <= q && -(q as int) <= s < q
    ensures -(q as int) <= s / p < q
    ensures s / p == (if s < 0 then -1 else 0) <==> -(p as int) <= s < p
  {
    QuotientSign(s, p);
    if -(p as int) <= s < p {
      SignFill(s, p);
    }
  }

  /** Flooring division moves toward zero or minus one, and is there only for small numbers. */
  lemma QuotientSign(s: int, p: nat)
    requires p > 0
    ensures s >= 0 ==> 0 <= s / p <= s && (s / p == 0 ==> s < p)
    ensures s < 0 ==> s <= s / p < 0 && (s / p == -1 ==> -(p as int) <= s)
  {
    QuotientParts(s, p, s / p, s % p);
  }

  lemma QuotientParts(s: int, p: nat, d: int, r: nat)
    requires s == d * p + r && r < p
    ensures s >= 0 ==> 0 <= d <= s && (d == 0 ==> s < p)
    ensures s < 0 ==> s <= d < 0 && (d == -1 ==> -(p as int) <= s)
  {
    if d < 0 {
      MulMonotone(d, -1, p);
      Distribute(d, 1, p - 1);
      MulMonotone(d, -1, p - 1);
    } else {
      MulMonotone(1, p, d);
    }
  }

  lemma SameSigned(a: int, b: int, w: nat)
    requires w > 0 && -(w as int) <= 2 * a < w && -(w as int) <= 2 * b < w
    ensures a % w == b % w <==> a == b
  {
    if a < 0 {
      DivModUnique(a, w, -1, a + w);
    } else {
      SmallMod(a, w);
    }
    if b < 0 {
      DivModUnique(b, w, -1, b + w);
    } else {
      SmallMod(b, w);
    }
  }

  // ---------------------------------------------------------------- words of variables

  lemma IsZeroWord(w: Bits)
    ensures w == Digits(0, |w|) <==> Num(w) == 0
  {
    hide Num, Digits;
    ZeroWord(|w|);
    if Num(w) == 0 {
      NumInjective(w, Digits(0, |w|));
    }
  }

  lemma PrefixBits(c: Circuit, bits: seq<Var>, n: nat)
    requires n <= |bits| && BitVars(c, bits)
    ensures BitVars(c, bits[..n])
  {
  }

  lemma PrefixWord(env: Env, c: Circuit, bits: seq<Var>, n: nat)
    requires n <= |bits|
    ensures Word(env, c, bits[..n]) == Word(env, c, bits)[..n]
  {
    hide Run;
  }

  lemma SliceBits(c: Circuit, bits: seq<Var>, i: nat, j: nat)
    requires i <= j <= |bits| && BitVars(c, bits)
    ensures BitVars(c, bits[i..j])
  {
    forall k | 0 <= k < j - i ensures BitVar(c, bits[i..j][k]) {
      assert bits[i..j][k] == bits[i + k];
    }
  }

  lemma SliceWord(env: Env, c: Circuit, bits: seq<Var>, i: nat, j: nat)
    requires i <= j <= |bits|
    ensures Word(env, c, bits[i..j]) == Word(env, c, bits)[i..j]
  {
    hide Run;
  }

  /** Writing back what a cell holds changes nothing. */
  lemma WriteBack(mem: Memory, cell: Cell)
    ensures Put(mem, cell, Look(mem, cell)) == mem
  {
  }

  lemma NoBytes(m: Module, storage: nat)
    ensures forall mem: Memory, address: Bits, value: Bits {:trigger StoreBytes(m, mem, storage, address, value, 0)} ::
      StoreBytes(m, mem, storage, address, value, 0) == Some(mem)
  {
  }

  lemma OneMoreByte(m: Module, mem: Memory, storage: nat, address: Bits, value: Bits, k: nat, before: Memory, cell: Cell)
    requires StoreBytes(m, mem, storage, address, value, k) == Some(before)
    requires ByteCell(m, storage, address, k) == Some(cell) && 8 * (k + 1) <= |value|
    ensures StoreBytes(m, mem, storage, address, value, k + 1) == Some(Put(before, cell, value[8 * k..8 * (k + 1)]))
  {
    hide Put, ByteCell;
  }

  lemma IsDigits(w: Bits, n: int)
    requires Num(w) == n % Pow2(|w|)
    ensures w == Digits(n % Pow2(|w|), |w|)
  {
    hide Num, Pow2;
    NumOfDigits(n % Pow2(|w|), |w|);
    SmallMod(n % Pow2(|w|), Pow2(|w|));
    NumInjective(w, Digits(n % Pow2(|w|), |w|));
  }

  lemma BoolWordNumber(value: bool, width: nat)
    requires 0 < width
    ensures Num(BoolWord(value, width)) == if value then 1 else 0
    ensures width <= 64 ==> Num(BoolWord(value, width)) == Mask(if value then 1 else 0, width)
  {
    hide Num;
    var n := if value then 1 else 0;
    NumOfDigits(n, width);
    Pow2Monotone(1, width);
    SmallMod(n, Pow2(width));
    assert Pow2(1) == 2;
  }

  lemma OneBitWord(value: bool)
    ensures BoolWord(value, 1) == [value]
  {
    assert Pow2(0) == 1;
  }

  lemma BoolWordSnoc(value: bool, width: nat)
    requires width > 0
    ensures BoolWord(value, width + 1) == BoolWord(value, width) + [false]
  {
    var n := if value then 1 else 0;
    Pow2Monotone(1, width);
    assert Pow2(1) == 2;
    SmallMod(n, Pow2(width));
    assert Digits(n, width + 1) == Digits(n, width) + [false];
  }

  lemma MaskOfNumber(w: Bits)
    requires |w| <= 64
    ensures Mask(Num(w), |w|) == Num(w)
  {
    NumBound(w);
    SmallMod(Num(w), Pow2(|w|));
  }

  ghost predicate AnySet(w: Bits, n: nat)
    requires n <= |w|
  {
    exists i :: 0 <= i < n && w[i]
  }

  lemma NonZero(w: Bits)
    ensures Num(w) != 0 <==> AnySet(w, |w|)
  {
    SomeDigit(w, |w|);
  }

  lemma {:induction false} SomeDigit(w: Bits, n: nat)
    requires n <= |w|
    ensures Low(w, n) != 0 <==> AnySet(w, n)
  {
    if n > 0 {
      SomeDigit(w, n - 1);
    }
  }

  lemma ZeroExtension(w: Bits, width: nat)
    ensures Resized(w, width) == Extended(w, width, false)
  {
  }
}
