/**
 Shifts of integers in 64-bit limbs: the code, what it computes, and when that is the shifted
 number.
 */
module WasmShift {
  import opened Common
  import opened Numbers
  import opened WasmMachine
  import opened BlockProgram
  import opened WasmStraight
  import opened WasmLimbs
  import opened WasmConvert

  // ---------------------------------------------------------------- the code

  /** Compare a local with a constant. */
  function Test(local: nat, pred: Pred, k: int): seq<Instr> {
    [Plain(LocalGet(local)), Plain(ConstI(true, k)), Plain(CmpI(pred, true))]
  }

  function AndTest(local: nat, pred: Pred, k: int): seq<Instr> {
    Test(local, pred, k) + [Plain(BinI(AndK, false))]
  }

  /** Limbs `1` to `n - 1` of the count are zero. */
  function HighCode(shift: seq<nat>, n: nat): seq<Instr>
    requires n <= |shift|
  {
    if n <= 1 then [Plain(ConstI(false, 1))] else HighCode(shift, n - 1) + AndTest(shift[n - 1], Eq, 0)
  }

  function ShiftKind(up: bool): BinKind {
    if up then ShlK else LshrK
  }

  /** The limbs from which the first `n` destinations take their own bits. */
  function OwnCode(dests: seq<nat>, val: seq<nat>, count: nat, up: bool, k: nat, n: nat): seq<Instr>
    requires n <= |dests| == |val|
  {
    if n == 0 then []
    else
      var source := Source(n - 1, k, |val|, up);
      OwnCode(dests, val, count, up, k, n - 1)
        + if source.Some? then Group([val[source.value], count], [Plain(BinI(ShiftKind(up), true))], dests[n - 1])
          else Group([], [Plain(ConstI(true, 0))], dests[n - 1])
  }

  function JoinCode(count: nat, up: bool): seq<Instr> {
    [Plain(ConstI(true, 64)), Plain(LocalGet(count)), Plain(BinI(SubK, true)), Plain(BinI(ShiftKind(!up), true)), Plain(BinI(OrK, true))]
  }

  /** The bits that cross into the first `n` destinations from the limb beside their own. */
  function NextCode(dests: seq<nat>, val: seq<nat>, count: nat, up: bool, k: nat, n: nat): seq<Instr>
    requires n <= |dests| == |val|
  {
    if n == 0 then []
    else
      var source := Source(n - 1, k + 1, |val|, up);
      NextCode(dests, val, count, up, k, n - 1)
        + if source.Some? then Group([dests[n - 1], val[source.value]], JoinCode(count, up), dests[n - 1]) else []
  }

  function WindowCode(dests: seq<nat>, val: seq<nat>, count: nat, up: bool, k: nat): seq<Instr>
    requires |dests| == |val|
  {
    OwnCode(dests, val, count, up, k, |dests|) + Test(count, Ne, 0) + [If(NextCode(dests, val, count, up, k, |dests|), [])]
  }

  /** The first `n` windows of 64 counts, each guarded by its bounds. */
  function WindowsCode(dests: seq<nat>, val: seq<nat>, count: nat, up: bool, n: nat): seq<Instr>
    requires |dests| == |val|
  {
    if n == 0 then []
    else
      var k := n - 1;
      WindowsCode(dests, val, count, up, k)
        + Test(count, Uge, 64 * k) + AndTest(count, Ult, 64 * (k + 1)) + [If(WindowCode(dests, val, count, up, k), [])]
  }

  function ShiftCode(dests: seq<nat>, val: seq<nat>, shift: seq<nat>, up: bool): seq<Instr>
    requires |dests| == |val| == |shift| > 0
  {
    HighCode(shift, |shift|) + AndTest(shift[0], Ult, 64 * |dests|) + [If(WindowsCode(dests, val, shift[0], up, |dests|), [])]
  }

  // ---------------------------------------------------------------- tests

  lemma TestRuns(ctx: Context, fuel: nat, local: nat, pred: Pred, k: nat, m: Mach, x: U64)
    requires local < |m.locals| && m.locals[local] == V64(x) && k < WORD
    ensures Exec(ctx, fuel, Test(local, pred, k), m) == Normal(m.(stack := m.stack + [Flag(Compared(pred, true, x, k))]))
  {
    hide Exec, Compared;
    SmallMod(k, WORD);
    var a, b, c := [Plain(LocalGet(local))], [Plain(ConstI(true, k))], [Plain(CmpI(pred, true))];
    var m1, m2 := m.(stack := m.stack + [V64(x)]), m.(stack := m.stack + [V64(x)] + [V64(k)]);
    PlainRuns(ctx, fuel, LocalGet(local), m);
    PlainRuns(ctx, fuel, ConstI(true, k), m1);
    PlainRuns(ctx, fuel, CmpI(pred, true), m2);
    assert Pop(m2.stack, 2) == m.stack;
    ExecThen(ctx, fuel, a, b, m, m1);
    ExecThen(ctx, fuel, a + b, c, m, m2);
    assert a + b + c == Test(local, pred, k);
  }

  lemma AndTestRuns(ctx: Context, fuel: nat, local: nat, pred: Pred, k: nat, m: Mach, x: U64, b: bool)
    requires m.stack == [Flag(b)] && local < |m.locals| && m.locals[local] == V64(x) && k < WORD
    ensures Exec(ctx, fuel, AndTest(local, pred, k), m) == Normal(m.(stack := [Flag(b && Compared(pred, true, x, k))]))
  {
    hide Exec, Compared, Test, Arith;
    TestRuns(ctx, fuel, local, pred, k, m, x);
    var t := Compared(pred, true, x, k);
    var tested := m.(stack := [Flag(b), Flag(t)]);
    assert m.stack + [Flag(t)] == tested.stack;
    ExecThen(ctx, fuel, Test(local, pred, k), [Plain(BinI(AndK, false))], m, tested);
    FlagOps(b, t);
    BinRuns(ctx, fuel, AndK, false, Flag(b), Flag(t), tested);
  }

  lemma {:induction false} HighRuns(ctx: Context, fuel: nat, shift: seq<nat>, n: nat, m: Mach)
    requires n <= |shift| && m.stack == [] && InRange(shift, |m.locals|) && AllTyped(Reads(m.locals, shift), true)
    ensures Exec(ctx, fuel, HighCode(shift, n), m)
      == Normal(m.(stack := [Flag(forall i | 1 <= i < n :: Raw(Reads(m.locals, shift)[i]) == 0)]))
    decreases n
  {
    hide Exec, AndTest;
    var counts := Reads(m.locals, shift);
    if n <= 1 {
      PlainRuns(ctx, fuel, ConstI(false, 1), m);
      SmallMod(1, WORD32);
      assert m.stack + [Flag(true)] == [Flag(true)];
    } else {
      HighRuns(ctx, fuel, shift, n - 1, m);
      var before := forall i | 1 <= i < n - 1 :: Raw(counts[i]) == 0;
      var between := m.(stack := [Flag(before)]);
      assert Typed(counts[n - 1], true);
      AndTestRuns(ctx, fuel, shift[n - 1], Eq, 0, between, Raw(counts[n - 1]), before);
      ExecThen(ctx, fuel, HighCode(shift, n - 1), AndTest(shift[n - 1], Eq, 0), m, between);
    }
  }

  // ---------------------------------------------------------------- one window

  /** Operands, count and destinations of a shift in range. */
  ghost predicate ShiftLocals(dests: seq<nat>, val: seq<nat>, count: nat, m: Mach) {
    && m.stack == [] && |dests| == |val| && 64 * |dests| < WORD
    && InRange(dests, |m.locals|) && InRange(val, |m.locals|) && count < |m.locals|
    && Unique(dests) && Apart(dests, val) && count !in dests
    && AllTyped(Reads(m.locals, val), true) && Typed(m.locals[count], true)
  }

  function Own(xs: seq<Val>, c: nat, up: bool, i: nat): nat
    requires i < |xs|
  {
    var own := Source(i, c / 64, |xs|, up);
    if own.Some? then ShiftBy(Raw(xs[own.value]), c, up) else 0
  }

  /** The first `n` destinations have their values, everything else is as before. */
  ghost predicate Filled(before: seq<Val>, after: seq<Val>, dests: seq<nat>, vals: seq<Val>, n: nat)
    requires n <= |dests| == |vals| && InRange(dests, |before|)
  {
    && |after| == |before|
    && (forall i | 0 <= i < n :: after[dests[i]] == vals[i])
    && (forall x: nat | x < |before| && x !in dests[..n] :: after[x] == before[x])
  }

  lemma FilledMore(before: seq<Val>, between: seq<Val>, after: seq<Val>, dests: seq<nat>, vals: seq<Val>, n: nat)
    requires n < |dests| == |vals| && InRange(dests, |before|) && Unique(dests)
    requires Filled(before, between, dests, vals, n) && after == between[dests[n] := vals[n]]
    ensures Filled(before, after, dests, vals, n + 1)
  {
    assert dests[..n + 1] == dests[..n] + [dests[n]];
  }

  lemma FilledIsAssigned(before: seq<Val>, after: seq<Val>, dests: seq<nat>, vals: seq<Val>)
    requires |dests| == |vals| && InRange(dests, |before|) && Unique(dests) && Filled(before, after, dests, vals, |dests|)
    ensures after == Assign(before, dests, vals)
  {
    AssignSimultaneous(before, dests, vals);
    assert dests[..|dests|] == dests;
    forall x: nat | x < |before| ensures after[x] == Assign(before, dests, vals)[x] {
      if x in dests {
        var i :| 0 <= i < |dests| && dests[i] == x;
      }
    }
  }

  lemma ShiftArith(x: U64, c: U64, up: bool)
    ensures Arith(ShiftKind(up), true, x, c).Some?
    ensures Wrapped(Arith(ShiftKind(up), true, x, c).value, true) == V64(ShiftBy(x, c, up) % WORD)
    ensures ShiftBy(x, c, up) < WORD
  {
    hide Pow2;
    var p: nat := Pow2(c % 64);
    DivNoLarger(x, p);
    if up {
      assert ShiftBy(x, c, up) == x * p % WORD;
      SmallMod(x * p % WORD, WORD);
    }
  }

  lemma DivNoLarger(x: nat, p: nat)
    requires p > 0
    ensures 0 <= x / p <= x
  {
    if x / p > x {
      MulMonotone(1, p, x / p);
    }
  }

  /** Bits crossing over: the count of the crossing shift wraps below zero and is reduced modulo 64. */
  lemma CrossArith(c: U64, x: nat, up: bool)
    ensures Arith(SubK, true, 64, c) == Some(64 - c)
    ensures ShiftBy(x, Wrapped(64 - c, true).w, up) == ShiftBy(x, 64 - c, up)
  {
    hide Pow2;
    SameMod64(64 - c);
  }

  lemma SameMod64(t: int)
    ensures t % WORD % 64 == t % 64
  {
    var q := t / WORD;
    assert t == q * WORD + t % WORD;
    ModOfMultiple(t % WORD, q * 0x400_0000_0000_0000, 64);
  }

  lemma {:induction false} OwnRuns(ctx: Context, fuel: nat, dests: seq<nat>, val: seq<nat>, count: nat, up: bool, n: nat, m: Mach, c: U64)
    returns (after: seq<Val>)
    requires ShiftLocals(dests, val, count, m) && n <= |dests| && m.locals[count] == V64(c)
    ensures Exec(ctx, fuel, OwnCode(dests, val, count, up, c / 64, n), m) == Normal(m.(locals := after))
    ensures Filled(m.locals, after, dests, OwnLimbs(Reads(m.locals, val), c, up), n)
    decreases n
  {
    hide Exec, Group, Arith, ShiftBy, Wrapped;
    var xs := Reads(m.locals, val);
    var vals := OwnLimbs(xs, c, up);
    if n == 0 {
      ExecNothing(ctx, fuel, m);
      after := m.locals;
    } else {
      var before := OwnRuns(ctx, fuel, dests, val, count, up, n - 1, m, c);
      var now := m.(locals := before);
      var source := Source(n - 1, c / 64, |val|, up);
      after := before[dests[n - 1] := vals[n - 1]];
      FilledMore(m.locals, before, after, dests, vals, n - 1);
      Undisturbed(dests, val, count, m, before, vals, n - 1);
      OneOwnRuns(ctx, fuel, dests, val, count, up, n - 1, now, c, xs);
      var code := if source.Some? then Group([val[source.value], count], [Plain(BinI(ShiftKind(up), true))], dests[n - 1])
      else Group([], [Plain(ConstI(true, 0))], dests[n - 1]);
      ExecThen(ctx, fuel, OwnCode(dests, val, count, up, c / 64, n - 1), code, m, now);
    }
  }

  function OwnLimbs(xs: seq<Val>, c: nat, up: bool): (r: seq<Val>)
    ensures |r| == |xs|
  {
    seq(|xs|, i requires 0 <= i < |xs| => V64(Own(xs, c, up, i) % WORD))
  }

  /** Operands and count are not among the destinations. */
  lemma Undisturbed(dests: seq<nat>, val: seq<nat>, count: nat, m: Mach, after: seq<Val>, vals: seq<Val>, n: nat)
    requires ShiftLocals(dests, val, count, m) && n <= |dests| == |vals| && Filled(m.locals, after, dests, vals, n)
    ensures Reads(after, val) == Reads(m.locals, val) && after[count] == m.locals[count]
    ensures ShiftLocals(dests, val, count, m.(locals := after))
  {
    forall i | 0 <= i < |val| ensures after[val[i]] == m.locals[val[i]] {
      assert val[i] !in dests[..n];
    }
    assert count !in dests[..n];
    assert Reads(after, val) == Reads(m.locals, val);
  }

  lemma OneOwnRuns(ctx: Context, fuel: nat, dests: seq<nat>, val: seq<nat>, count: nat, up: bool, i: nat, m: Mach, c: U64, xs: seq<Val>)
    requires ShiftLocals(dests, val, count, m) && i < |dests| && m.locals[count] == V64(c) && xs == Reads(m.locals, val)
    ensures
      var source := Source(i, c / 64, |val|, up);
      var code := if source.Some? then Group([val[source.value], count], [Plain(BinI(ShiftKind(up), true))], dests[i])
                  else Group([], [Plain(ConstI(true, 0))], dests[i]);
      Exec(ctx, fuel, code, m) == Normal(m.(locals := m.locals[dests[i] := OwnLimbs(xs, c, up)[i]]))
  {
    hide Exec, Group, Arith, ShiftBy, Wrapped;
    var source := Source(i, c / 64, |val|, up);
    if source.Some? {
      var x := xs[source.value];
      assert Typed(x, true);
      var gets := [val[source.value], count];
      assert Reads(m.locals, gets) == [x, V64(c)];
      ShiftArith(Raw(x), c, up);
      BinRuns(ctx, fuel, ShiftKind(up), true, x, V64(c), m.(stack := [x, V64(c)]));
      GroupRuns(ctx, fuel, gets, [Plain(BinI(ShiftKind(up), true))], dests[i], m, OwnLimbs(xs, c, up)[i]);
    } else {
      PlainRuns(ctx, fuel, ConstI(true, 0), m);
      ZeroWord();
      assert m.stack + [V64(0)] == [V64(0)] && Reads(m.locals, []) == [];
      GroupRuns(ctx, fuel, [], [Plain(ConstI(true, 0))], dests[i], m, V64(0));
    }
  }

  lemma ZeroWord()
    ensures Wrapped(0, true) == V64(0)
  {
  }

  /** Own bits and crossing bits of one limb. */
  lemma JoinRuns(ctx: Context, fuel: nat, count: nat, up: bool, m: Mach, base: U64, x: U64, c: U64)
    requires m.stack == [V64(base), V64(x)] && count < |m.locals| && m.locals[count] == V64(c)
    ensures Exec(ctx, fuel, JoinCode(count, up), m)
      == Normal(m.(stack := [V64(Num(Bitwise(GateOr, Digits(base, 64), Digits(ShiftBy(x, 64 - c, !up), 64), 64)) % WORD)]))
  {
    hide Exec, Num, Bitwise, Digits, ShiftBy, Pow2;
    var below := [V64(base)];
    var a, b, d, e, f := [Plain(ConstI(true, 64))], [Plain(LocalGet(count))], [Plain(BinI(SubK, true))],
                         [Plain(BinI(ShiftKind(!up), true))], [Plain(BinI(OrK, true))];
    var t := Wrapped(64 - c, true).w;
    CrossArith(c, x, !up);
    SmallMod(64, WORD);
    var m1, m2, m3 := m.(stack := below + [V64(x), V64(64)]), m.(stack := below + [V64(x), V64(64), V64(c)]), m.(stack := below + [V64(x), V64(t)]);
    PlainRuns(ctx, fuel, ConstI(true, 64), m);
    assert m.stack + [V64(64)] == m1.stack;
    PlainRuns(ctx, fuel, LocalGet(count), m1);
    assert m1.stack + [V64(c)] == m2.stack;
    PlainRuns(ctx, fuel, BinI(SubK, true), m2);
    assert Pop(m2.stack, 2) + [V64(t)] == m3.stack;
    ShiftArith(x, t, !up);
    var y: U64 := ShiftBy(x, 64 - c, !up);
    SmallMod(y, WORD);
    var m4 := m.(stack := [V64(base), V64(y)]);
    PlainRuns(ctx, fuel, BinI(ShiftKind(!up), true), m3);
    assert Pop(m3.stack, 2) + [V64(y)] == m4.stack;
    BinRuns(ctx, fuel, OrK, true, V64(base), V64(y), m4);
    ExecThen(ctx, fuel, a, b, m, m1);
    ExecThen(ctx, fuel, a + b, d, m, m2);
    ExecThen(ctx, fuel, a + b + d, e, m, m3);
    ExecThen(ctx, fuel, a + b + d + e, f, m, m4);
    assert a + b + d + e + f == JoinCode(count, up);
  }

  lemma OwnBound(xs: seq<Val>, c: U64, up: bool, i: nat)
    requires i < |xs| && AllTyped(xs, true)
    ensures Own(xs, c, up, i) < WORD
  {
    var own := Source(i, c / 64, |xs|, up);
    if own.Some? {
      assert Typed(xs[own.value], true);
      ShiftArith(Raw(xs[own.value]), c, up);
    }
  }

  /** Destinations that hold their own bits. */
  ghost predicate HoldsOwn(dests: seq<nat>, locals: seq<Val>, vals: seq<Val>) {
    |vals| == |dests| && InRange(dests, |locals|) && forall i | 0 <= i < |dests| :: locals[dests[i]] == vals[i]
  }

  lemma {:induction false} NextRuns(ctx: Context, fuel: nat, dests: seq<nat>, val: seq<nat>, count: nat, up: bool, n: nat, m: Mach, c: U64)
    returns (after: seq<Val>)
    requires ShiftLocals(dests, val, count, m) && n <= |dests| && m.locals[count] == V64(c) && c != 0
    requires HoldsOwn(dests, m.locals, OwnLimbs(Reads(m.locals, val), c, up))
    ensures Exec(ctx, fuel, NextCode(dests, val, count, up, c / 64, n), m) == Normal(m.(locals := after))
    ensures Filled(m.locals, after, dests, ShiftedLimbs(Reads(m.locals, val), c, up), n)
    decreases n
  {
    hide Exec, Group, ShiftBy, Wrapped, ShiftedLimb;
    var xs := Reads(m.locals, val);
    var vals := ShiftedLimbs(xs, c, up);
    if n == 0 {
      ExecNothing(ctx, fuel, m);
      after := m.locals;
    } else {
      var i := n - 1;
      var before := NextRuns(ctx, fuel, dests, val, count, up, i, m, c);
      var now := m.(locals := before);
      var source := Source(i, c / 64 + 1, |val|, up);
      after := before[dests[i] := vals[i]];
      FilledMore(m.locals, before, after, dests, vals, i);
      Undisturbed(dests, val, count, m, before, vals, i);
      LaterUnfilled(dests, m.locals, before, vals, i);
      OneNextRuns(ctx, fuel, dests, val, count, up, i, now, c, xs);
      var code := if source.Some? then Group([dests[i], val[source.value]], JoinCode(count, up), dests[i]) else [];
      ExecThen(ctx, fuel, NextCode(dests, val, count, up, c / 64, i), code, m, now);
    }
  }

  lemma LaterUnfilled(dests: seq<nat>, before: seq<Val>, after: seq<Val>, vals: seq<Val>, n: nat)
    requires n < |dests| == |vals| && InRange(dests, |before|) && Unique(dests) && Filled(before, after, dests, vals, n)
    ensures after[dests[n]] == before[dests[n]]
  {
    assert dests[n] !in dests[..n];
  }

  lemma OneNextRuns(ctx: Context, fuel: nat, dests: seq<nat>, val: seq<nat>, count: nat, up: bool, i: nat, m: Mach, c: U64, xs: seq<Val>)
    requires ShiftLocals(dests, val, count, m) && i < |dests| && m.locals[count] == V64(c) && xs == Reads(m.locals, val) && c != 0
    requires m.locals[dests[i]] == OwnLimbs(xs, c, up)[i]
    ensures
      var source := Source(i, c / 64 + 1, |val|, up);
      var code := if source.Some? then Group([dests[i], val[source.value]], JoinCode(count, up), dests[i]) else [];
      Exec(ctx, fuel, code, m) == Normal(m.(locals := m.locals[dests[i] := ShiftedLimbs(xs, c, up)[i]]))
  {
    hide Exec, Group, ShiftBy, JoinCode, Num, Digits, Bitwise;
    var source := Source(i, c / 64 + 1, |val|, up);
    OwnBound(xs, c, up, i);
    var base: U64 := Own(xs, c, up, i);
    SmallMod(base, WORD);
    if source.Some? {
      var x := xs[source.value];
      assert Typed(x, true);
      var gets := [dests[i], val[source.value]];
      assert Reads(m.locals, gets) == [V64(base), x];
      JoinRuns(ctx, fuel, count, up, m.(stack := [V64(base), x]), base, Raw(x), c);
      GroupRuns(ctx, fuel, gets, JoinCode(count, up), dests[i], m, ShiftedLimbs(xs, c, up)[i]);
    } else {
      ExecNothing(ctx, fuel, m);
      assert m.locals[dests[i] := m.locals[dests[i]]] == m.locals;
    }
  }

  lemma WindowRuns(ctx: Context, fuel: nat, dests: seq<nat>, val: seq<nat>, count: nat, up: bool, m: Mach, c: U64)
    requires ShiftLocals(dests, val, count, m) && m.locals[count] == V64(c)
    ensures Exec(ctx, fuel, WindowCode(dests, val, count, up, c / 64), m)
      == Normal(m.(locals := Assign(m.locals, dests, ShiftedLimbs(Reads(m.locals, val), c, up))))
  {
    hide Exec, OwnCode, NextCode, Test, ShiftedLimb, Own, Assign;
    var xs := Reads(m.locals, val);
    var own, vals := OwnLimbs(xs, c, up), ShiftedLimbs(xs, c, up);
    var k, n := c / 64, |dests|;
    var filled := OwnRuns(ctx, fuel, dests, val, count, up, n, m, c);
    var now := m.(locals := filled);
    Undisturbed(dests, val, count, m, filled, own, n);
    TestRuns(ctx, fuel, count, Ne, 0, now, c);
    var tested := now.(stack := [Flag(c != 0)]);
    assert now.stack + [Flag(c != 0)] == tested.stack;
    var last;
    if c != 0 {
      last := NextRuns(ctx, fuel, dests, val, count, up, n, now, c);
      FilledTwice(m.locals, filled, last, dests, own, vals);
    } else {
      last := filled;
      ExecNothing(ctx, fuel, now);
      UnshiftedOwn(xs, up);
    }
    FilledIsAssigned(m.locals, last, dests, vals);
    assert tested.(stack := []) == now;
    IfRuns(ctx, fuel, NextCode(dests, val, count, up, k, n), [], c != 0, tested, now.(locals := last));
    ExecThen(ctx, fuel, OwnCode(dests, val, count, up, k, n), Test(count, Ne, 0), m, now);
    ExecThen(ctx, fuel, OwnCode(dests, val, count, up, k, n) + Test(count, Ne, 0), [If(NextCode(dests, val, count, up, k, n), [])], m, tested);
  }

  lemma FilledTwice(before: seq<Val>, between: seq<Val>, after: seq<Val>, dests: seq<nat>, vals: seq<Val>, vals': seq<Val>)
    requires |dests| == |vals| == |vals'| && InRange(dests, |before|)
    requires Filled(before, between, dests, vals, |dests|) && Filled(between, after, dests, vals', |dests|)
    ensures Filled(before, after, dests, vals', |dests|)
  {
  }

  lemma UnshiftedOwn(xs: seq<Val>, up: bool)
    ensures ShiftedLimbs(xs, 0, up) == OwnLimbs(xs, 0, up)
  {
    hide ShiftBy;
    forall i | 0 <= i < |xs| ensures ShiftedLimb(xs, 0, up, i) == Own(xs, 0, up, i) {
    }
  }

  // ---------------------------------------------------------------- all windows

  /** Only the window that holds the count does anything. */
  lemma {:induction false} WindowsRun(ctx: Context, fuel: nat, dests: seq<nat>, val: seq<nat>, count: nat, up: bool, n: nat, m: Mach, c: U64)
    requires ShiftLocals(dests, val, count, m) && n <= |dests| && m.locals[count] == V64(c)
    ensures Exec(ctx, fuel, WindowsCode(dests, val, count, up, n), m)
      == Normal(m.(locals := if c / 64 < n then Assign(m.locals, dests, ShiftedLimbs(Reads(m.locals, val), c, up)) else m.locals))
    decreases n
  {
    hide Exec, WindowCode, Test, AndTest, ShiftedLimb, Assign;
    var vals := ShiftedLimbs(Reads(m.locals, val), c, up);
    if n == 0 {
      ExecNothing(ctx, fuel, m);
    } else {
      var k := n - 1;
      WindowsRun(ctx, fuel, dests, val, count, up, k, m, c);
      var now := m.(locals := if c / 64 < k then Assign(m.locals, dests, vals) else m.locals);
      StillShift(dests, val, count, m, now, vals);
      TestRuns(ctx, fuel, count, Uge, 64 * k, now, c);
      var first := now.(stack := [Flag(c >= 64 * k)]);
      assert now.stack + [Flag(c >= 64 * k)] == first.stack;
      AndTestRuns(ctx, fuel, count, Ult, 64 * (k + 1), first, c, c >= 64 * k);
      var here := c >= 64 * k && c < 64 * (k + 1);
      WindowOf(c, k);
      var second := now.(stack := [Flag(here)]);
      var after := if here then now.(locals := Assign(m.locals, dests, vals)) else now;
      assert second.(stack := []) == now;
      if here {
        WindowRuns(ctx, fuel, dests, val, count, up, now, c);
      } else {
        ExecNothing(ctx, fuel, now);
      }
      IfRuns(ctx, fuel, WindowCode(dests, val, count, up, k), [], here, second, after);
      var a, b, d, e := WindowsCode(dests, val, count, up, k), Test(count, Uge, 64 * k), AndTest(count, Ult, 64 * (k + 1)),
                        [If(WindowCode(dests, val, count, up, k), [])];
      ExecThen(ctx, fuel, a, b, m, now);
      ExecThen(ctx, fuel, a + b, d, m, first);
      ExecThen(ctx, fuel, a + b + d, e, m, second);
    }
  }

  lemma WindowOf(c: nat, k: nat)
    ensures c >= 64 * k && c < 64 * (k + 1) <==> c / 64 == k
  {
  }

  lemma StillShift(dests: seq<nat>, val: seq<nat>, count: nat, m: Mach, now: Mach, vals: seq<Val>)
    requires ShiftLocals(dests, val, count, m) && |vals| == |dests|
    requires now == m || now == m.(locals := Assign(m.locals, dests, vals))
    ensures ShiftLocals(dests, val, count, now) && now.locals[count] == m.locals[count]
  {
    AssignSimultaneous(m.locals, dests, vals);
    assert Reads(now.locals, val) == Reads(m.locals, val);
  }

  /** The code of a shift leaves the shifted limbs, or everything as it was where the count is out of range. */
  lemma ShiftRuns(ctx: Context, fuel: nat, dests: seq<nat>, val: seq<nat>, shift: seq<nat>, up: bool, m: Mach)
    requires |dests| == |val| == |shift| > 0 && InRange(shift, |m.locals|) && Apart(dests, shift)
    requires ShiftLocals(dests, val, shift[0], m) && AllTyped(Reads(m.locals, shift), true)
    ensures
      var counts := Reads(m.locals, shift);
      Exec(ctx, fuel, ShiftCode(dests, val, shift, up), m)
        == Normal(m.(locals := if CountInRange(counts, |dests|) then Assign(m.locals, dests, ShiftedLimbs(Reads(m.locals, val), Raw(counts[0]), up))
                               else m.locals))
  {
    hide Exec, WindowsCode, HighCode, AndTest, ShiftedLimb, Assign;
    var counts, n := Reads(m.locals, shift), |dests|;
    assert counts[0] == m.locals[shift[0]] && Typed(counts[0], true);
    var c: U64 := Raw(counts[0]);
    HighRuns(ctx, fuel, shift, n, m);
    var high := forall i | 1 <= i < n :: Raw(counts[i]) == 0;
    var first := m.(stack := [Flag(high)]);
    AndTestRuns(ctx, fuel, shift[0], Ult, 64 * n, first, c, high);
    var fits := high && c < 64 * n;
    assert fits == CountInRange(counts, n);
    var second := m.(stack := [Flag(fits)]);
    WindowsRun(ctx, fuel, dests, val, shift[0], up, n, m, c);
    ExecNothing(ctx, fuel, m);
    var after := if fits then m.(locals := Assign(m.locals, dests, ShiftedLimbs(Reads(m.locals, val), c, up))) else m;
    assert second.(stack := []) == m;
    IfRuns(ctx, fuel, WindowsCode(dests, val, shift[0], up, n), [], fits, second, after);
    ExecThen(ctx, fuel, HighCode(shift, n), AndTest(shift[0], Ult, 64 * n), m, first);
    ExecThen(ctx, fuel, HighCode(shift, n) + AndTest(shift[0], Ult, 64 * n), [If(WindowsCode(dests, val, shift[0], up, n), [])], m, second);
  }
}
