/**
 Straight-line code that pushes locals, computes and stores, and what running it does.
 */
module WasmStraight {
  import opened Common
  import opened Numbers
  import opened WasmMachine
  import opened BlockProgram

  function Gets(xs: seq<nat>): seq<Instr> {
    seq(|xs|, i requires 0 <= i < |xs| => Plain(LocalGet(xs[i])))
  }

  /** Store the operand stack into `ds`, the last local first. */
  function Sets(ds: seq<nat>): seq<Instr> {
    if ds == [] then [] else Sets(ds[1..]) + [Plain(LocalSet(ds[0]))]
  }

  /** Push some locals, compute, store one result. */
  function Group(gets: seq<nat>, mid: seq<Instr>, dest: nat): seq<Instr> {
    Gets(gets) + mid + [Plain(LocalSet(dest))]
  }

  lemma ExecSingle(ctx: Context, fuel: nat, i: Instr, m: Mach)
    ensures Exec(ctx, fuel, [i], m) == ExecOne(ctx, fuel, i, m)
  {
    assert [i][1..] == [];
  }

  lemma ExecThen(ctx: Context, fuel: nat, a: seq<Instr>, b: seq<Instr>, m: Mach, between: Mach)
    requires Exec(ctx, fuel, a, m) == Normal(between)
    ensures Exec(ctx, fuel, a + b, m) == Exec(ctx, fuel, b, between)
  {
    hide Exec;
    ExecConcat(ctx, fuel, a, b, m);
  }

  lemma ExecEnds(ctx: Context, fuel: nat, a: seq<Instr>, b: seq<Instr>, m: Mach)
    requires !Exec(ctx, fuel, a, m).Normal?
    ensures Exec(ctx, fuel, a + b, m) == Exec(ctx, fuel, a, m)
  {
    hide Exec;
    ExecConcat(ctx, fuel, a, b, m);
  }

  lemma {:induction false} GetsRun(ctx: Context, fuel: nat, xs: seq<nat>, m: Mach)
    requires InRange(xs, |m.locals|)
    ensures Exec(ctx, fuel, Gets(xs), m) == Normal(m.(stack := m.stack + Reads(m.locals, xs)))
    decreases |xs|
  {
    hide Exec, ExecOne;
    if xs == [] {
      assert Gets(xs) == [];
      ExecNothing(ctx, fuel, m);
      assert m.stack + Reads(m.locals, xs) == m.stack;
    } else {
      var init, last := xs[..|xs| - 1], xs[|xs| - 1];
      GetsRun(ctx, fuel, init, m);
      var between := m.(stack := m.stack + Reads(m.locals, init));
      assert Gets(xs) == Gets(init) + [Plain(LocalGet(last))];
      ExecThen(ctx, fuel, Gets(init), [Plain(LocalGet(last))], m, between);
      PlainRuns(ctx, fuel, LocalGet(last), between);
      assert Reads(m.locals, xs) == Reads(m.locals, init) + [m.locals[last]];
      assert m.stack + Reads(m.locals, xs) == between.stack + [m.locals[last]];
    }
  }

  lemma ExecNothing(ctx: Context, fuel: nat, m: Mach)
    ensures Exec(ctx, fuel, [], m) == Normal(m)
  {
  }

  lemma PlainRuns(ctx: Context, fuel: nat, p: Prim, m: Mach)
    ensures Exec(ctx, fuel, [Plain(p)], m) == StepPrim(ctx, p, m)
  {
    ExecSingle(ctx, fuel, Plain(p), m);
  }

  lemma {:induction false} SetsRun(ctx: Context, fuel: nat, ds: seq<nat>, vals: seq<Val>, m: Mach, below: seq<Val>)
    requires |ds| == |vals| && InRange(ds, |m.locals|) && m.stack == below + vals
    ensures Exec(ctx, fuel, Sets(ds), m) == Normal(m.(locals := Assign(m.locals, ds, vals), stack := below))
    decreases |ds|
  {
    hide Exec, ExecOne;
    if ds == [] {
      ExecNothing(ctx, fuel, m);
      assert m.stack == below;
    } else {
      assert forall i | 0 <= i < |ds| - 1 :: ds[1..][i] == ds[i + 1];
      assert m.stack == (below + [vals[0]]) + vals[1..];
      SetsRun(ctx, fuel, ds[1..], vals[1..], m, below + [vals[0]]);
      var between := m.(locals := Assign(m.locals, ds[1..], vals[1..]), stack := below + [vals[0]]);
      ExecThen(ctx, fuel, Sets(ds[1..]), [Plain(LocalSet(ds[0]))], m, between);
      PlainRuns(ctx, fuel, LocalSet(ds[0]), between);
      assert Pop(between.stack, 1) == below;
    }
  }

  lemma GroupRuns(ctx: Context, fuel: nat, gets: seq<nat>, mid: seq<Instr>, dest: nat, m: Mach, v: Val)
    requires m.stack == [] && InRange(gets, |m.locals|) && dest < |m.locals|
    requires Exec(ctx, fuel, mid, m.(stack := Reads(m.locals, gets))) == Normal(m.(stack := [v]))
    ensures Exec(ctx, fuel, Group(gets, mid, dest), m) == Normal(m.(locals := m.locals[dest := v]))
  {
    hide Exec, ExecOne;
    GetsRun(ctx, fuel, gets, m);
    assert m.stack + Reads(m.locals, gets) == Reads(m.locals, gets);
    ExecThen(ctx, fuel, Gets(gets), mid, m, m.(stack := Reads(m.locals, gets)));
    ExecThen(ctx, fuel, Gets(gets) + mid, [Plain(LocalSet(dest))], m, m.(stack := [v]));
    PlainRuns(ctx, fuel, LocalSet(dest), m.(stack := [v]));
  }

  lemma GroupTraps(ctx: Context, fuel: nat, gets: seq<nat>, mid: seq<Instr>, dest: nat, m: Mach)
    requires m.stack == [] && InRange(gets, |m.locals|)
    requires Exec(ctx, fuel, mid, m.(stack := Reads(m.locals, gets))) == Trapped(m.log)
    ensures Exec(ctx, fuel, Group(gets, mid, dest), m) == Trapped(m.log)
  {
    hide Exec, ExecOne;
    GetsRun(ctx, fuel, gets, m);
    assert m.stack + Reads(m.locals, gets) == Reads(m.locals, gets);
    ExecThen(ctx, fuel, Gets(gets), mid, m, m.(stack := Reads(m.locals, gets)));
    ExecEnds(ctx, fuel, Gets(gets) + mid, [Plain(LocalSet(dest))], m);
  }

  lemma BinRuns(ctx: Context, fuel: nat, kind: BinKind, is64: bool, a: Val, b: Val, m: Mach)
    requires m.stack == [a, b] && Typed(a, is64) && Typed(b, is64) && Arith(kind, is64, Raw(a), Raw(b)).Some?
    ensures Exec(ctx, fuel, [Plain(BinI(kind, is64))], m)
      == Normal(m.(stack := [Wrapped(Arith(kind, is64, Raw(a), Raw(b)).value, is64)]))
  {
    hide Exec, Arith, Wrapped;
    PlainRuns(ctx, fuel, BinI(kind, is64), m);
  }

  lemma CmpRuns(ctx: Context, fuel: nat, pred: Pred, is64: bool, a: Val, b: Val, m: Mach)
    requires m.stack == [a, b] && Typed(a, is64) && Typed(b, is64)
    ensures Exec(ctx, fuel, [Plain(CmpI(pred, is64))], m) == Normal(m.(stack := [Flag(Compared(pred, is64, Raw(a), Raw(b)))]))
  {
    hide Exec, Compared;
    PlainRuns(ctx, fuel, CmpI(pred, is64), m);
  }

  function Set(m: Mach, i: nat, v: Val): Mach
    requires i < |m.locals|
  {
    m.(locals := m.locals[i := v])
  }

  /** A conditional whose chosen arm makes a transition. */
  lemma IfRuns(ctx: Context, fuel: nat, thenCode: seq<Instr>, elseCode: seq<Instr>, b: bool, m: Mach, after: Mach)
    requires m.stack == [Flag(b)] && after.stack == []
    requires Exec(ctx, fuel, if b then thenCode else elseCode, m.(stack := [])) == Normal(after)
    ensures Exec(ctx, fuel, [If(thenCode, elseCode)], m) == Normal(after)
  {
    hide Exec;
    ExecSingle(ctx, fuel, If(thenCode, elseCode), m);
    assert Pop(m.stack, 1) == [];
  }

  // ---------------------------------------------------------------- storing one after the other

  lemma SingleAssign(locals: seq<Val>, dest: nat, v: Val)
    requires dest < |locals|
    ensures Assign(locals, [dest], [v]) == locals[dest := v]
  {
    assert Assign(locals, [dest][1..], [v][1..]) == locals;
  }

  /** A store elsewhere may be made before or after. */
  lemma {:induction false} AssignElsewhere(locals: seq<Val>, dests: seq<nat>, vals: seq<Val>, d: nat, v: Val)
    requires |dests| == |vals| && InRange(dests, |locals|) && d < |locals| && d !in dests
    ensures Assign(locals[d := v], dests, vals) == Assign(locals, dests, vals)[d := v]
    decreases |dests|
  {
    if dests != [] {
      assert forall i | 0 <= i < |dests| - 1 :: dests[1..][i] == dests[i + 1];
      AssignElsewhere(locals, dests[1..], vals[1..], d, v);
      var rest := Assign(locals, dests[1..], vals[1..]);
      assert rest[d := v][dests[0] := vals[0]] == rest[dests[0] := vals[0]][d := v];
    }
  }

  /** Storing one after the other, for distinct locals, is storing all at once. */
  lemma AssignFirst(locals: seq<Val>, dests: seq<nat>, vals: seq<Val>)
    requires dests != [] && |dests| == |vals| && InRange(dests, |locals|) && Unique(dests)
    ensures InRange(dests[1..], |locals|) && Assign(locals, dests, vals) == Assign(locals[dests[0] := vals[0]], dests[1..], vals[1..])
  {
    assert forall i | 0 <= i < |dests| - 1 :: dests[1..][i] == dests[i + 1];
    AssignElsewhere(locals, dests[1..], vals[1..], dests[0], vals[0]);
  }

  lemma NothingAssigned(locals: seq<Val>, vals: seq<Val>)
    requires vals == []
    ensures Assign(locals, [], vals) == locals
  {
  }
}
