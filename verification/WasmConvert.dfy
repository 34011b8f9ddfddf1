/**
 Conversions of one local into another: the instructions, that they compute the conversion, and
 when zero extension, sign extension and truncation mean what the types say.
 */
module WasmConvert {
  import opened Common
  import opened Numbers
  import opened WasmMachine
  import opened BlockProgram
  import opened WasmStraight

  function ConvCode(conv: Conv): seq<Instr> {
    match conv
    case Keep => []
    case Wrap => [Plain(WrapI)]
    case ZeroExtend => [Plain(ExtendU)]
    case SignExtend => [Plain(ExtendS)]
    case MaskTo(bits) => WithConst(AndK, false, Pow2(bits) - 1)
    case SignFrom(bits) => WithConst(ShlK, false, 32 - bits) + WithConst(AshrK, false, 32 - bits)
    case Flip(is64) => WithConst(XorK, is64, -1)
    case FlipLowest => WithConst(XorK, false, 1)
  }

  /** Combine what is on the stack with a constant. */
  function WithConst(kind: BinKind, is64: bool, k: int): seq<Instr> {
    [Plain(ConstI(is64, k)), Plain(BinI(kind, is64))]
  }

  lemma WithConstRuns(ctx: Context, fuel: nat, kind: BinKind, is64: bool, k: int, a: Val, m: Mach)
    requires m.stack == [a] && Typed(a, is64) && Arith(kind, is64, Raw(a), k % Size(is64)).Some?
    ensures Exec(ctx, fuel, WithConst(kind, is64, k), m)
      == Normal(m.(stack := [Wrapped(Arith(kind, is64, Raw(a), k % Size(is64)).value, is64)]))
  {
    hide Exec, Arith, Wrapped;
    var b := Wrapped(k, is64);
    var pushed := m.(stack := [a, b]);
    PlainRuns(ctx, fuel, ConstI(is64, k), m);
    assert m.stack + [b] == pushed.stack;
    BinRuns(ctx, fuel, kind, is64, a, b, pushed);
    ExecThen(ctx, fuel, [Plain(ConstI(is64, k))], [Plain(BinI(kind, is64))], m, pushed);
    assert [Plain(ConstI(is64, k))] + [Plain(BinI(kind, is64))] == WithConst(kind, is64, k);
  }

  // ---------------------------------------------------------------- bitwise arithmetic with constants

  lemma {:induction false} OnesDigit(n: nat, i: nat)
    ensures (Pow2(n) - 1) / Pow2(i) % 2 == if i < n then 1 else 0
  {
    if i < n {
      Pow2Add(n - 1 - i, i);
      OnesQuotient(Pow2(n - 1 - i), Pow2(i));
    } else {
      Pow2Monotone(n, i);
      SmallMod(Pow2(n) - 1, Pow2(i));
    }
  }

  lemma OnesQuotient(h: nat, p: nat)
    requires h > 0 && p > 0
    ensures (2 * (h * p) - 1) / p % 2 == 1
  {
    assert 2 * (h * p) - 1 == (2 * h - 1) * p + (p - 1);
    DivModUnique(2 * (h * p) - 1, p, 2 * h - 1, p - 1);
  }

  lemma MaskedDigits(x: nat, bits: nat, n: nat)
    requires bits <= n
    ensures var r := Bitwise(GateAnd, Digits(x, n), Digits(Pow2(bits) - 1, n), n);
      r[..bits] == Digits(x, n)[..bits] && forall i: nat | bits <= i < n :: !r[i]
  {
    hide Pow2;
    forall i: nat | i < n ensures Bitwise(GateAnd, Digits(x, n), Digits(Pow2(bits) - 1, n), n)[i] == (Digits(x, n)[i] && i < bits) {
      OnesDigit(bits, i);
    }
  }

  /** A conjunction with ones below `bits` is the remainder. */
  lemma MaskIsRemainder(x: nat, bits: nat, n: nat)
    requires bits <= n
    ensures Num(Bitwise(GateAnd, Digits(x, n), Digits(Pow2(bits) - 1, n), n)) == x % Pow2(bits)
  {
    hide Pow2, Low, Digits, Bitwise, Num;
    var d, r := Digits(x, n), Bitwise(GateAnd, Digits(x, n), Digits(Pow2(bits) - 1, n), n);
    MaskedDigits(x, bits, n);
    NumSplit(r, bits);
    ClearAbove(r[bits..]);
    NumSplit(d, bits);
    NumOfDigits(x, n);
    ModOfPower(x, bits, n);
    Recompose(Num(r), Pow2(bits));
  }

  lemma ClearAbove(high: seq<bool>)
    requires forall i | 0 <= i < |high| :: !high[i]
    ensures Num(high) == 0
  {
    LowZero(high, |high|);
  }

  lemma Recompose(x: nat, p: nat)
    requires p > 0 && x / p == 0
    ensures x == x % p
  {
  }

  /** An exclusive or with ones is the complement. */
  lemma FlipIsComplement(x: nat, n: nat)
    requires x < Pow2(n)
    ensures Num(Bitwise(GateXor, Digits(x, n), Digits(Pow2(n) - 1, n), n)) == Pow2(n) - 1 - x
  {
    var d, r := Digits(x, n), Bitwise(GateXor, Digits(x, n), Digits(Pow2(n) - 1, n), n);
    forall i: nat | i < n ensures r[i] == !d[i] {
      OnesDigit(n, i);
    }
    ComplementLow(d, r, n);
    NumOfDigits(x, n);
    SmallMod(x, Pow2(n));
  }

  lemma {:induction false} ComplementLow(d: seq<bool>, r: seq<bool>, k: nat)
    requires k <= |d| == |r| && forall i: nat | i < |d| :: r[i] == !d[i]
    ensures Low(d, k) + Low(r, k) == Pow2(k) - 1
  {
    if k > 0 {
      ComplementLow(d, r, k - 1);
    }
  }

  /** An exclusive or with one changes the lowest bit only. */
  lemma FlipLowestIsNeighbour(x: nat, n: nat)
    requires 0 < n && x < Pow2(n)
    ensures Num(Bitwise(GateXor, Digits(x, n), Digits(1, n), n)) == if x % 2 == 0 then x + 1 else x - 1
  {
    var d, r := Digits(x, n), Bitwise(GateXor, Digits(x, n), Digits(1, n), n);
    assert Pow2(1) == 2;
    forall i: nat | i < n ensures r[i] == if i == 0 then !d[i] else d[i] {
      OnesDigit(1, i);
    }
    assert r[1..] == d[1..];
    NumSplit(d, 1);
    NumSplit(r, 1);
    assert Low(d[..1], 0) == 0 && Low(r[..1], 0) == 0;
    assert Num(d[..1]) == (if d[0] then 1 else 0) && Num(r[..1]) == (if r[0] then 1 else 0);
    NumOfDigits(x, n);
    SmallMod(x, Pow2(n));
  }

  lemma PowersOfWords()
    ensures Pow2(32) == WORD32 && Pow2(64) == WORD
  {
    WordIsPow2();
    Pow2Add(32, 32);
    SquareRoot(Pow2(32));
  }

  lemma SquareRoot(x: nat)
    requires x * x == WORD
    ensures x == WORD32
  {
    if x < WORD32 {
      MulMonotone(x, WORD32 - 1, x);
      MulMonotone(x, WORD32 - 1, WORD32 - 1);
    } else if x > WORD32 {
      MulMonotone(WORD32 + 1, x, x);
      MulMonotone(WORD32 + 1, x, WORD32 + 1);
    }
  }

  /** Shifting up and arithmetically down again extends the sign of the low bits. */
  lemma ShiftPairSigns(x: nat, bits: nat, n: nat)
    requires 0 < bits <= n
    ensures
      var up := x * Pow2(n - bits) % Pow2(n);
      (if 2 * up >= Pow2(n) then up - Pow2(n) else up) / Pow2(n - bits) == SignedLow(x, bits)
  {
    var s, p := Pow2(n - bits), Pow2(bits);
    Pow2Add(bits, n - bits);
    ShiftedRemainder(x, p, s);
    SignedQuotient(x % p, p, s);
  }

  lemma ShiftedRemainder(x: nat, p: nat, s: nat)
    requires p > 0 && s > 0
    ensures p * s > 0 && x * s % (p * s) == x % p * s
  {
    assert p * s > 0 by { MulMonotone(1, p, s); }
    assert x * s == x / p * (p * s) + x % p * s by {
      assert x == x / p * p + x % p;
      assert (x / p * p + x % p) * s == x / p * p * s + x % p * s;
      assert x / p * p * s == x / p * (p * s);
    }
    MulMonotone(x % p + 1, p, s);
    DivModUnique(x * s, p * s, x / p, x % p * s);
  }

  lemma SignedQuotient(low: nat, p: nat, s: nat)
    requires low < p && s > 0
    ensures var up := low * s; (if 2 * up >= p * s then up - p * s else up) / s == if 2 * low >= p then low - p else low
  {
    if 2 * low >= p {
      MulMonotone(p, 2 * low, s);
      assert low * s - p * s == (low - p) * s;
      DivModUnique(low * s - p * s, s, low - p, 0);
    } else {
      MulMonotone(2 * low + 1, p, s);
      DivModUnique(low * s, s, low, 0);
    }
  }

  // ---------------------------------------------------------------- the code computes the conversion

  lemma MaskRuns(ctx: Context, fuel: nat, bits: nat, v: Val, m: Mach)
    requires m.stack == [v] && v.V32? && bits < 32
    ensures Exec(ctx, fuel, ConvCode(MaskTo(bits)), m) == Normal(m.(stack := [Wrapped(v.n % Pow2(bits), false)]))
  {
    hide Exec, WithConst, Digits, Num, Pow2;
    PowersOfWords();
    Pow2Monotone(bits, 32);
    SmallMod(Pow2(bits) - 1, WORD32);
    MaskIsRemainder(v.n, bits, 32);
    WithConstRuns(ctx, fuel, AndK, false, Pow2(bits) - 1, v, m);
  }

  lemma SignRuns(ctx: Context, fuel: nat, bits: nat, v: Val, m: Mach)
    requires m.stack == [v] && v.V32? && 0 < bits < 32
    ensures Exec(ctx, fuel, ConvCode(SignFrom(bits)), m) == Normal(m.(stack := [Wrapped(SignedLow(v.n, bits), false)]))
  {
    hide Exec, WithConst, Pow2, SignedLow;
    PowersOfWords();
    var s := 32 - bits;
    SmallMod(s, WORD32);
    SmallMod(s, 32);
    var up := Wrapped(v.n * Pow2(s), false);
    WithConstRuns(ctx, fuel, ShlK, false, s, v, m);
    WithConstRuns(ctx, fuel, AshrK, false, s, up, m.(stack := [up]));
    ShiftPairSigns(v.n, bits, 32);
    ExecThen(ctx, fuel, WithConst(ShlK, false, s), WithConst(AshrK, false, s), m, m.(stack := [up]));
  }

  lemma FlipRuns(ctx: Context, fuel: nat, is64: bool, v: Val, m: Mach)
    requires m.stack == [v] && Typed(v, is64)
    ensures Exec(ctx, fuel, ConvCode(Flip(is64)), m) == Normal(m.(stack := [Wrapped(Size(is64) - 1 - Raw(v), is64)]))
  {
    hide Exec, WithConst, Digits, Num, Pow2;
    PowersOfWords();
    DivModUnique(-1, Size(is64), -1, Size(is64) - 1);
    FlipIsComplement(Raw(v), Bits64(is64));
    WithConstRuns(ctx, fuel, XorK, is64, -1, v, m);
  }

  lemma FlipLowestRuns(ctx: Context, fuel: nat, v: Val, m: Mach)
    requires m.stack == [v] && v.V32?
    ensures Exec(ctx, fuel, ConvCode(FlipLowest), m)
      == Normal(m.(stack := [Wrapped(if v.n % 2 == 0 then v.n + 1 else v.n - 1, false)]))
  {
    hide Exec, WithConst, Digits, Num, Pow2;
    PowersOfWords();
    FlipLowestIsNeighbour(v.n, 32);
    WithConstRuns(ctx, fuel, XorK, false, 1, v, m);
  }

  /** The instructions of a conversion compute it. */
  lemma ConvRuns(ctx: Context, fuel: nat, conv: Conv, v: Val, m: Mach)
    requires m.stack == [v] && ConvFits(conv) && Converted(conv, v).Some?
    ensures Exec(ctx, fuel, ConvCode(conv), m) == Normal(m.(stack := [Converted(conv, v).value]))
  {
    hide Exec, Pow2, WithConst, SignedLow;
    match conv
    case Keep => ExecNothing(ctx, fuel, m);
    case MaskTo(bits) => MaskRuns(ctx, fuel, bits, v, m);
    case SignFrom(bits) => SignRuns(ctx, fuel, bits, v, m);
    case Flip(is64) => FlipRuns(ctx, fuel, is64, v, m);
    case FlipLowest => FlipLowestRuns(ctx, fuel, v, m);
    case Wrap =>
      PlainRuns(ctx, fuel, WrapI, m);
      assert Pop(m.stack, 1) == [];
    case ZeroExtend =>
      PlainRuns(ctx, fuel, ExtendU, m);
      assert Pop(m.stack, 1) == [];
    case SignExtend =>
      PlainRuns(ctx, fuel, ExtendS, m);
      assert Pop(m.stack, 1) == [];
  }
}
