/**
 Addition and subtraction of integers in 64-bit limbs: the code with its carry chain, and the
 arithmetic it performs.
 */
module WasmLimbs {
  import opened Common
  import opened Numbers
  import opened WasmMachine
  import opened BlockProgram
  import opened WasmStraight

  /** The partial limb and its carry. */
  function PartialCode(dest: nat, lhs: nat, rhs: nat, subtract: bool, aux: nat): seq<Instr> {
    Group([lhs, rhs], [Plain(BinI(if subtract then SubK else AddK, true))], dest)
      + Group(if subtract then [lhs, rhs] else [dest, lhs], [Plain(CmpI(Ult, true))], aux)
  }

  /** The carry folded in, and the new carry. */
  function FoldCode(dest: nat, subtract: bool, carry: nat, aux: nat): seq<Instr> {
    Group([dest, carry], [Plain(ExtendU), Plain(BinI(if subtract then SubK else AddK, true))], dest)
      + Group([carry, dest], AgainCode(subtract), carry)
      + Group([aux, carry], [Plain(BinI(OrK, false))], carry)
  }

  function AgainCode(subtract: bool): seq<Instr> {
    [Plain(ConstI(true, if subtract then -1 else 0)), Plain(CmpI(Eq, true)), Plain(BinI(AndK, false))]
  }

  function LimbCode(dest: nat, lhs: nat, rhs: nat, subtract: bool, carry: nat, aux: nat): seq<Instr> {
    PartialCode(dest, lhs, rhs, subtract, aux) + FoldCode(dest, subtract, carry, aux)
  }

  function LimbsCode(dests: seq<nat>, left: seq<nat>, right: seq<nat>, subtract: bool, carry: nat, aux: nat): seq<Instr>
    requires |dests| == |left| == |right|
  {
    if dests == [] then []
    else
      LimbCode(dests[0], left[0], right[0], subtract, carry, aux)
        + LimbsCode(dests[1..], left[1..], right[1..], subtract, carry, aux)
  }

  /** The carry or borrow out of one limb, and the limb. */
  function LimbOut(x: nat, y: nat, c: bool, subtract: bool): (nat, bool) {
    var cin := if c then 1 else 0;
    var total: int := if subtract then x - y - cin else x + y + cin;
    (total % WORD, if subtract then total < 0 else total >= WORD)
  }

  lemma FlagOps(a: bool, b: bool)
    ensures Arith(AndK, false, if a then 1 else 0, if b then 1 else 0) == Some(if a && b then 1 else 0)
    ensures Arith(OrK, false, if a then 1 else 0, if b then 1 else 0) == Some(if a || b then 1 else 0)
  {
    hide Num, Pow2, Digits;
    BitDigits(a);
    BitDigits(b);
    BitDigits(a && b);
    BitDigits(a || b);
    assert Bitwise(GateAnd, OneBit(a), OneBit(b), 32) == OneBit(a && b);
    assert Bitwise(GateOr, OneBit(a), OneBit(b), 32) == OneBit(a || b);
  }

  function OneBit(b: bool): (r: seq<bool>)
    ensures |r| == 32
  {
    seq(32, i => i == 0 && b)
  }

  lemma BitDigits(b: bool)
    ensures Digits(if b then 1 else 0, 32) == OneBit(b) && Num(OneBit(b)) == if b then 1 else 0
  {
    hide Pow2, Num;
    var n := if b then 1 else 0;
    SmallPowers();
    forall i | 0 <= i < 32 ensures Digits(n, 32)[i] == OneBit(b)[i] {
      if i > 0 {
        Pow2Monotone(1, i);
        SmallMod(n, Pow2(i));
      }
    }
    NumOfDigits(n, 32);
    Pow2Monotone(1, 32);
    SmallMod(n, Pow2(32));
  }

  /** A number at most one modulus out of range, reduced. */
  lemma WrapOnce(t: int, w: nat)
    requires w > 0 && 0 <= t + w && t < 2 * w
    ensures t % w == if t < 0 then t + w else if t >= w then t - w else t
  {
    if t < 0 {
      DivModUnique(t, w, -1, t + w);
    } else if t >= w {
      DivModUnique(t, w, 1, t - w);
    } else {
      DivModUnique(t, w, 0, t);
    }
  }

  /** The two comparisons catch exactly the carry of the limb. */
  lemma LimbCarry(x: U64, y: U64, c: bool, subtract: bool)
    ensures
      var cin := if c then 1 else 0;
      var d0 := (if subtract then x - y else x + y) % WORD;
      var a0 := if subtract then x < y else d0 < x;
      var d1 := (if subtract then d0 - cin else d0 + cin) % WORD;
      LimbOut(x, y, c, subtract) == (d1, a0 || (c && d1 == if subtract then WORD - 1 else 0))
  {
    var cin := if c then 1 else 0;
    var t0: int := if subtract then x - y else x + y;
    WrapOnce(t0, WORD);
    var d0 := t0 % WORD;
    WrapOnce(if subtract then d0 - cin else d0 + cin, WORD);
    WrapOnce(if subtract then x - y - cin else x + y + cin, WORD);
  }

  /** Extend the carry, then add or subtract it. */
  lemma FoldRuns(ctx: Context, fuel: nat, kind: BinKind, d: U64, c: bool, m: Mach)
    requires m.stack == [V64(d), Flag(c)] && (kind.AddK? || kind.SubK?)
    ensures
      var cin := if c then 1 else 0;
      Exec(ctx, fuel, [Plain(ExtendU), Plain(BinI(kind, true))], m)
        == Normal(m.(stack := [Wrapped(if kind.AddK? then d + cin else d - cin, true)]))
  {
    hide Exec;
    var cin: U64 := if c then 1 else 0;
    var between := m.(stack := [V64(d), V64(cin)]);
    PlainRuns(ctx, fuel, ExtendU, m);
    assert Pop(m.stack, 1) == [V64(d)];
    assert Exec(ctx, fuel, [Plain(ExtendU)], m) == Normal(between);
    ExecThen(ctx, fuel, [Plain(ExtendU)], [Plain(BinI(kind, true))], m, between);
    assert [Plain(ExtendU)] + [Plain(BinI(kind, true))] == [Plain(ExtendU), Plain(BinI(kind, true))];
    BinRuns(ctx, fuel, kind, true, V64(d), V64(cin), between);
  }

  /** Compare the folded limb with its wrap-around value and combine with the carry. */
  lemma AgainRuns(ctx: Context, fuel: nat, subtract: bool, c: bool, d: U64, m: Mach)
    requires m.stack == [Flag(c), V64(d)]
    ensures
      var edge := if subtract then WORD - 1 else 0;
      Exec(ctx, fuel, [Plain(ConstI(true, if subtract then -1 else 0)), Plain(CmpI(Eq, true)), Plain(BinI(AndK, false))], m)
        == Normal(m.(stack := [Flag(c && d == edge)]))
  {
    hide Exec, Arith;
    var edge: U64 := if subtract then WORD - 1 else 0;
    var first, second, third := Plain(ConstI(true, if subtract then -1 else 0)), Plain(CmpI(Eq, true)), Plain(BinI(AndK, false));
    DivModUnique(if subtract then -1 else 0, WORD, if subtract then -1 else 0, edge);
    var m1 := m.(stack := [Flag(c), V64(d), V64(edge)]);
    PlainRuns(ctx, fuel, ConstI(true, if subtract then -1 else 0), m);
    assert m.stack + [V64(edge)] == m1.stack;
    var m2 := m.(stack := [Flag(c), Flag(d == edge)]);
    PlainRuns(ctx, fuel, CmpI(Eq, true), m1);
    assert Pop(m1.stack, 2) == [Flag(c)];
    FlagOps(c, d == edge);
    BinRuns(ctx, fuel, AndK, false, Flag(c), Flag(d == edge), m2);
    ExecThen(ctx, fuel, [first], [second], m, m1);
    ExecThen(ctx, fuel, [first] + [second], [third], m, m2);
    assert [first] + [second] + [third] == [first, second, third];
  }

  lemma PartialRuns(ctx: Context, fuel: nat, kind: BinKind, dest: nat, lhs: nat, rhs: nat, m: Mach, x: U64, y: U64)
    requires m.stack == [] && dest < |m.locals| && lhs < |m.locals| && rhs < |m.locals| && (kind.AddK? || kind.SubK?)
    requires m.locals[lhs] == V64(x) && m.locals[rhs] == V64(y)
    ensures Exec(ctx, fuel, Group([lhs, rhs], [Plain(BinI(kind, true))], dest), m)
      == Normal(Set(m, dest, V64((if kind.SubK? then x - y else x + y) % WORD)))
  {
    hide Exec, Group, Arith;
    SumArith(kind, x, y);
    assert Reads(m.locals, [lhs, rhs]) == [V64(x), V64(y)];
    BinRuns(ctx, fuel, kind, true, V64(x), V64(y), m.(stack := [V64(x), V64(y)]));
    GroupRuns(ctx, fuel, [lhs, rhs], [Plain(BinI(kind, true))], dest, m, V64((if kind.SubK? then x - y else x + y) % WORD));
  }

  lemma BelowRuns(ctx: Context, fuel: nat, a: nat, b: nat, aux: nat, m: Mach, x: U64, y: U64)
    requires m.stack == [] && a < |m.locals| && b < |m.locals| && aux < |m.locals|
    requires m.locals[a] == V64(x) && m.locals[b] == V64(y)
    ensures Exec(ctx, fuel, Group([a, b], [Plain(CmpI(Ult, true))], aux), m) == Normal(Set(m, aux, Flag(x < y)))
  {
    hide Exec, Group;
    assert Reads(m.locals, [a, b]) == [V64(x), V64(y)];
    CmpRuns(ctx, fuel, Ult, true, V64(x), V64(y), m.(stack := [V64(x), V64(y)]));
    GroupRuns(ctx, fuel, [a, b], [Plain(CmpI(Ult, true))], aux, m, Flag(x < y));
  }

  lemma CarryInRuns(ctx: Context, fuel: nat, kind: BinKind, dest: nat, carry: nat, m: Mach, d: U64, c: bool)
    requires m.stack == [] && dest < |m.locals| && carry < |m.locals| && (kind.AddK? || kind.SubK?)
    requires m.locals[dest] == V64(d) && m.locals[carry] == Flag(c)
    ensures Exec(ctx, fuel, Group([dest, carry], [Plain(ExtendU), Plain(BinI(kind, true))], dest), m)
      == Normal(Set(m, dest, V64((if kind.SubK? then d - (if c then 1 else 0) else d + (if c then 1 else 0)) % WORD)))
  {
    hide Exec, Group;
    assert Reads(m.locals, [dest, carry]) == [V64(d), Flag(c)];
    FoldRuns(ctx, fuel, kind, d, c, m.(stack := [V64(d), Flag(c)]));
    GroupRuns(ctx, fuel, [dest, carry], [Plain(ExtendU), Plain(BinI(kind, true))], dest, m,
      V64((if kind.SubK? then d - (if c then 1 else 0) else d + (if c then 1 else 0)) % WORD));
  }

  lemma CarryAgainRuns(ctx: Context, fuel: nat, subtract: bool, dest: nat, carry: nat, m: Mach, d: U64, c: bool)
    requires m.stack == [] && dest < |m.locals| && carry < |m.locals|
    requires m.locals[dest] == V64(d) && m.locals[carry] == Flag(c)
    ensures Exec(ctx, fuel, Group([carry, dest], AgainCode(subtract), carry), m)
      == Normal(Set(m, carry, Flag(c && d == if subtract then WORD - 1 else 0)))
  {
    hide Exec, Group;
    assert Reads(m.locals, [carry, dest]) == [Flag(c), V64(d)];
    AgainRuns(ctx, fuel, subtract, c, d, m.(stack := [Flag(c), V64(d)]));
    GroupRuns(ctx, fuel, [carry, dest], AgainCode(subtract), carry, m, Flag(c && d == if subtract then WORD - 1 else 0));
  }

  lemma EitherFlagRuns(ctx: Context, fuel: nat, aux: nat, carry: nat, m: Mach, a: bool, c: bool)
    requires m.stack == [] && aux < |m.locals| && carry < |m.locals|
    requires m.locals[aux] == Flag(a) && m.locals[carry] == Flag(c)
    ensures Exec(ctx, fuel, Group([aux, carry], [Plain(BinI(OrK, false))], carry), m) == Normal(Set(m, carry, Flag(a || c)))
  {
    hide Exec, Group, Arith;
    assert Reads(m.locals, [aux, carry]) == [Flag(a), Flag(c)];
    FlagOps(a, c);
    BinRuns(ctx, fuel, OrK, false, Flag(a), Flag(c), m.(stack := [Flag(a), Flag(c)]));
    GroupRuns(ctx, fuel, [aux, carry], [Plain(BinI(OrK, false))], carry, m, Flag(a || c));
  }

  lemma PartialCodeRuns(ctx: Context, fuel: nat, dest: nat, lhs: nat, rhs: nat, subtract: bool, aux: nat, m: Mach, x: U64, y: U64)
    requires m.stack == [] && dest < |m.locals| && lhs < |m.locals| && rhs < |m.locals| && aux < |m.locals|
    requires m.locals[lhs] == V64(x) && m.locals[rhs] == V64(y) && dest != lhs && dest != rhs
    ensures
      var d0 := (if subtract then x - y else x + y) % WORD;
      Exec(ctx, fuel, PartialCode(dest, lhs, rhs, subtract, aux), m)
        == Normal(Set(Set(m, dest, V64(d0)), aux, Flag(if subtract then x < y else d0 < x)))
  {
    hide Exec, Group;
    var kind := if subtract then SubK else AddK;
    var d0: U64 := (if subtract then x - y else x + y) % WORD;
    var m1 := Set(m, dest, V64(d0));
    PartialRuns(ctx, fuel, kind, dest, lhs, rhs, m, x, y);
    if subtract {
      BelowRuns(ctx, fuel, lhs, rhs, aux, m1, x, y);
    } else {
      BelowRuns(ctx, fuel, dest, lhs, aux, m1, d0, x);
    }
    ExecThen(ctx, fuel, Group([lhs, rhs], [Plain(BinI(kind, true))], dest),
      Group(if subtract then [lhs, rhs] else [dest, lhs], [Plain(CmpI(Ult, true))], aux), m, m1);
  }

  lemma FoldCodeRuns(ctx: Context, fuel: nat, dest: nat, subtract: bool, carry: nat, aux: nat, m: Mach, d: U64, a: bool, c: bool)
    requires m.stack == [] && dest < |m.locals| && carry < |m.locals| && aux < |m.locals|
    requires m.locals[dest] == V64(d) && m.locals[carry] == Flag(c) && m.locals[aux] == Flag(a)
    requires dest != carry && dest != aux && carry != aux
    ensures
      var cin := if c then 1 else 0;
      var d1 := (if subtract then d - cin else d + cin) % WORD;
      Exec(ctx, fuel, FoldCode(dest, subtract, carry, aux), m)
        == Normal(Set(Set(m, dest, V64(d1)), carry, Flag(a || (c && d1 == if subtract then WORD - 1 else 0))))
  {
    hide Exec, Group, AgainCode;
    var kind := if subtract then SubK else AddK;
    var cin := if c then 1 else 0;
    var d1: U64 := (if subtract then d - cin else d + cin) % WORD;
    var c1 := c && d1 == if subtract then WORD - 1 else 0;
    var m1 := Set(m, dest, V64(d1));
    CarryInRuns(ctx, fuel, kind, dest, carry, m, d, c);
    var m2 := Set(m1, carry, Flag(c1));
    CarryAgainRuns(ctx, fuel, subtract, dest, carry, m1, d1, c);
    EitherFlagRuns(ctx, fuel, aux, carry, m2, a, c1);
    var one, two, three := Group([dest, carry], [Plain(ExtendU), Plain(BinI(kind, true))], dest),
                           Group([carry, dest], AgainCode(subtract), carry), Group([aux, carry], [Plain(BinI(OrK, false))], carry);
    ExecThen(ctx, fuel, one, two, m, m1);
    ExecThen(ctx, fuel, one + two, three, m, m2);
    assert Set(m2, carry, Flag(a || c1)) == Set(m1, carry, Flag(a || c1));
  }

  /** One limb's code computes the limb and leaves the true carry. */
  lemma LimbRuns(ctx: Context, fuel: nat, dest: nat, lhs: nat, rhs: nat, subtract: bool, carry: nat, aux: nat, m: Mach,
                 x: U64, y: U64, c: bool) returns (a0: bool)
    requires m.stack == [] && dest < |m.locals| && lhs < |m.locals| && rhs < |m.locals| && carry < |m.locals| && aux < |m.locals|
    requires m.locals[lhs] == V64(x) && m.locals[rhs] == V64(y) && m.locals[carry] == Flag(c)
    requires dest != lhs && dest != rhs && dest != carry && dest != aux && carry != aux
    ensures Exec(ctx, fuel, LimbCode(dest, lhs, rhs, subtract, carry, aux), m)
      == Normal(Set(Set(Set(m, aux, Flag(a0)), dest, V64(LimbOut(x, y, c, subtract).0)), carry, Flag(LimbOut(x, y, c, subtract).1)))
  {
    hide Exec, PartialCode, FoldCode, LimbOut;
    var d0: U64 := (if subtract then x - y else x + y) % WORD;
    a0 := if subtract then x < y else d0 < x;
    LimbCarry(x, y, c, subtract);
    PartialCodeRuns(ctx, fuel, dest, lhs, rhs, subtract, aux, m, x, y);
    var between := Set(Set(m, dest, V64(d0)), aux, Flag(a0));
    FoldCodeRuns(ctx, fuel, dest, subtract, carry, aux, between, d0, a0, c);
    ExecThen(ctx, fuel, PartialCode(dest, lhs, rhs, subtract, aux), FoldCode(dest, subtract, carry, aux), m, between);
    assert between.locals[dest := V64(LimbOut(x, y, c, subtract).0)]
      == m.locals[aux := Flag(a0)][dest := V64(LimbOut(x, y, c, subtract).0)];
  }

  lemma SumArith(kind: BinKind, x: U64, y: U64)
    requires kind.AddK? || kind.SubK?
    ensures Arith(kind, true, x, y) == Some(if kind.AddK? then x + y else x - y)
  {
  }

  /** All limbs, least significant first: the limbs and the carry out. */
  function WideOut(xs: seq<Val>, ys: seq<Val>, c: bool, subtract: bool): (r: (seq<Val>, bool))
    requires |xs| == |ys|
    ensures |r.0| == |xs|
  {
    if xs == [] then ([], c)
    else
      var limb := LimbOut(Raw(xs[0]), Raw(ys[0]), c, subtract);
      var rest := WideOut(xs[1..], ys[1..], limb.1, subtract);
      ([V64(limb.0)] + rest.0, rest.1)
  }

  function WideTotal(xs: seq<Val>, ys: seq<Val>, c: bool, subtract: bool): int {
    var cin := if c then 1 else 0;
    if subtract then WideNumber(xs) - WideNumber(ys) - cin else WideNumber(xs) + WideNumber(ys) + cin
  }

  lemma {:induction false} WideNumberBound(xs: seq<Val>)
    requires AllTyped(xs, true)
    ensures WideNumber(xs) < Pow2(64 * |xs|)
  {
    hide Pow2;
    if xs != [] {
      WideNumberBound(xs[1..]);
      WordIsPow2();
      Pow2Add(64, 64 * (|xs| - 1));
      MulMonotone(WideNumber(xs[1..]) + 1, Pow2(64 * (|xs| - 1)), WORD);
    } else {
      SmallPowers();
    }
  }

  /** The limb chain is addition or subtraction modulo the total width, and its carry is the true one. */
  lemma {:induction false} WideOutIsArithmetic(xs: seq<Val>, ys: seq<Val>, c: bool, subtract: bool)
    requires |xs| == |ys| && AllTyped(xs, true) && AllTyped(ys, true)
    ensures
      var total := WideTotal(xs, ys, c, subtract);
      WideOut(xs, ys, c, subtract).0 == ToLimbs(total % Pow2(64 * |xs|), |xs|)
      && (WideOut(xs, ys, c, subtract).1 <==> if subtract then total < 0 else total >= Pow2(64 * |xs|))
  {
    hide Pow2;
    if xs == [] {
      SmallPowers();
    } else {
      var n := |xs| - 1;
      var limb := LimbOut(Raw(xs[0]), Raw(ys[0]), c, subtract);
      WideOutIsArithmetic(xs[1..], ys[1..], limb.1, subtract);
      var rest := WideTotal(xs[1..], ys[1..], limb.1, subtract);
      LimbTotal(Raw(xs[0]), Raw(ys[0]), c, subtract);
      WordIsPow2();
      Pow2Add(64, 64 * n);
      PeelLimb(limb.0, rest, Pow2(64 * n));
      CarryAcross(limb.0, rest, Pow2(64 * n));
      TotalOfLimbs(xs, ys, c, subtract);
    }
  }

  /** A limb and its carry stand for the limb's exact total. */
  lemma LimbTotal(x: U64, y: U64, c: bool, subtract: bool)
    ensures
      var cin := if c then 1 else 0;
      var limb := LimbOut(x, y, c, subtract);
      var carried := if limb.1 then WORD else 0;
      limb.0 < WORD
      && (if subtract then x - y - cin == limb.0 - carried else x + y + cin == limb.0 + carried)
  {
    WrapOnce(if subtract then x - y - (if c then 1 else 0) else x + y + (if c then 1 else 0), WORD);
  }

  lemma TotalOfLimbs(xs: seq<Val>, ys: seq<Val>, c: bool, subtract: bool)
    requires |xs| == |ys| > 0 && AllTyped(xs, true) && AllTyped(ys, true)
    ensures
      var limb := LimbOut(Raw(xs[0]), Raw(ys[0]), c, subtract);
      WideTotal(xs, ys, c, subtract) == limb.0 + WORD * WideTotal(xs[1..], ys[1..], limb.1, subtract)
  {
    hide LimbOut;
    LimbTotal(Raw(xs[0]), Raw(ys[0]), c, subtract);
  }

  lemma PeelLimb(d: nat, rest: int, p: nat)
    requires d < WORD && p > 0
    ensures (d + WORD * rest) % (WORD * p) % WORD == d
    ensures (d + WORD * rest) % (WORD * p) / WORD == rest % p
  {
    var r, q := rest % p, rest / p;
    assert d + WORD * rest == q * (WORD * p) + (d + WORD * r) by {
      assert rest == q * p + r;
      assert WORD * rest == q * (WORD * p) + WORD * r;
    }
    MulMonotone(r + 1, p, WORD);
    DivModUnique(d + WORD * rest, WORD * p, q, d + WORD * r);
    DivModUnique(d + WORD * r, WORD, r, d);
  }

  lemma CarryAcross(d: nat, rest: int, p: nat)
    requires d < WORD
    ensures d + WORD * rest < 0 <==> rest < 0
    ensures d + WORD * rest >= WORD * p <==> rest >= p
  {
  }

  /** The code of all limbs. */
  lemma {:induction false} LimbsRun(ctx: Context, fuel: nat, dests: seq<nat>, left: seq<nat>, right: seq<nat>, subtract: bool,
                                    carry: nat, aux: nat, m: Mach, c: bool) returns (final: Mach)
    requires |dests| == |left| == |right| && m.stack == []
    requires LimbLocals(dests, left, right, carry, aux, |m.locals|)
    requires AllTyped(Reads(m.locals, left), true) && AllTyped(Reads(m.locals, right), true) && m.locals[carry] == Flag(c)
    ensures Exec(ctx, fuel, LimbsCode(dests, left, right, subtract, carry, aux), m) == Normal(final)
    ensures final.stack == [] && final.log == m.log
    ensures LimbsDone(m.locals, final.locals, dests, carry, aux, WideOut(Reads(m.locals, left), Reads(m.locals, right), c, subtract))
    decreases |dests|
  {
    hide Exec, LimbCode, LimbOut, LimbsDone, AllTyped;
    if dests == [] {
      ExecNothing(ctx, fuel, m);
      final := m;
      NoLimbs(m.locals, carry, aux, c);
    } else {
      var xs, ys := Reads(m.locals, left), Reads(m.locals, right);
      assert xs[0] == m.locals[left[0]] && ys[0] == m.locals[right[0]];
      FirstTyped(xs);
      FirstTyped(ys);
      var limb := LimbOut(Raw(xs[0]), Raw(ys[0]), c, subtract);
      LimbTotal(Raw(xs[0]), Raw(ys[0]), c, subtract);
      var a0 := LimbRuns(ctx, fuel, dests[0], left[0], right[0], subtract, carry, aux, m, Raw(xs[0]), Raw(ys[0]), c);
      var between := Set(Set(Set(m, aux, Flag(a0)), dests[0], V64(limb.0)), carry, Flag(limb.1));
      FewerLimbs(dests, left, right, carry, aux, |m.locals|);
      assert Reads(between.locals, left[1..]) == xs[1..] && Reads(between.locals, right[1..]) == ys[1..];
      final := LimbsRun(ctx, fuel, dests[1..], left[1..], right[1..], subtract, carry, aux, between, limb.1);
      ExecThen(ctx, fuel, LimbCode(dests[0], left[0], right[0], subtract, carry, aux),
        LimbsCode(dests[1..], left[1..], right[1..], subtract, carry, aux), m, between);
      OneMoreLimb(m.locals, final.locals, dests, carry, aux, V64(limb.0), limb.1, a0,
        WideOut(xs[1..], ys[1..], limb.1, subtract));
    }
  }

  /** Every destination has its limb, the carry local the carry, and only scratch changed besides. */
  ghost predicate LimbsDone(before: seq<Val>, after: seq<Val>, dests: seq<nat>, carry: nat, aux: nat, out: (seq<Val>, bool)) {
    && |after| == |before| && |out.0| == |dests| && InRange(dests, |before|) && carry < |before|
    && after[carry] == Flag(out.1)
    && (forall i | 0 <= i < |dests| :: after[dests[i]] == out.0[i])
    && (forall x | 0 <= x < |before| && x !in dests && x != carry && x != aux :: after[x] == before[x])
  }

  lemma NoLimbs(locals: seq<Val>, carry: nat, aux: nat, c: bool)
    requires carry < |locals| && locals[carry] == Flag(c)
    ensures LimbsDone(locals, locals, [], carry, aux, ([], c))
  {
  }

  lemma OneMoreLimb(before: seq<Val>, after: seq<Val>, dests: seq<nat>, carry: nat, aux: nat, limb: Val, c: bool, a0: bool,
                    rest: (seq<Val>, bool))
    requires dests != [] && InRange(dests, |before|) && carry < |before| && aux < |before| && dests[0] !in dests[1..]
    requires carry != dests[0] && aux != dests[0] && carry !in dests && aux !in dests
    requires LimbsDone(before[aux := Flag(a0)][dests[0] := limb][carry := Flag(c)], after, dests[1..], carry, aux, rest)
    ensures LimbsDone(before, after, dests, carry, aux, ([limb] + rest.0, rest.1))
  {
    forall i | 0 <= i < |dests| ensures after[dests[i]] == ([limb] + rest.0)[i] {
      if i > 0 {
        assert dests[1..][i - 1] == dests[i];
      }
    }
  }

  lemma FirstTyped(xs: seq<Val>)
    requires xs != [] && AllTyped(xs, true)
    ensures Typed(xs[0], true) && AllTyped(xs[1..], true)
  {
  }

  /** Destinations, operands and scratch locals are pairwise different. */
  ghost predicate LimbLocals(dests: seq<nat>, left: seq<nat>, right: seq<nat>, carry: nat, aux: nat, n: nat) {
    && InRange(dests, n) && InRange(left, n) && InRange(right, n) && carry < n && aux < n && carry != aux
    && Unique(dests) && Apart(dests, left) && Apart(dests, right)
    && carry !in dests && aux !in dests && carry !in left && aux !in left && carry !in right && aux !in right
  }

  lemma FewerLimbs(dests: seq<nat>, left: seq<nat>, right: seq<nat>, carry: nat, aux: nat, n: nat)
    requires |dests| == |left| == |right| > 0 && LimbLocals(dests, left, right, carry, aux, n)
    ensures LimbLocals(dests[1..], left[1..], right[1..], carry, aux, n)
    ensures dests[0] !in dests[1..] && dests[0] !in left && dests[0] !in right
    ensures carry != left[0] && carry != right[0] && aux != left[0] && aux != right[0] && carry != dests[0] && aux != dests[0]
  {
  }
}
