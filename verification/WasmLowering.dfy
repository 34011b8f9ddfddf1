/**
 The code the backend emits for block exits and whole functions, as structured code, and the
 simulation: a loop around nested blocks and a `br_table` on a program counter runs exactly the
 block program.
 */
module WasmLowering {
  import opened Common
  import opened Numbers
  import opened WasmMachine
  import opened BlockProgram
  import opened WasmStraight
  import opened WasmOps
  import opened WasmTyping

  function GotoCode(g: Goto, blocks: seq<BlockState>, pc: nat): seq<Instr>
    requires g.target < |blocks|
  {
    Gets(g.args) + Sets(blocks[g.target].params) + [Plain(ConstI(false, g.target))] + [Plain(LocalSet(pc))]
  }

  /** A chain of comparisons, the fallback innermost; only the program counter is chosen here. */
  function TableCode(index: nat, is64: bool, cases: seq<Case>, fallback: Goto, blocks: seq<BlockState>, pc: nat, i: nat): seq<Instr>
    requires i <= |cases| && fallback.target < |blocks| && forall j | 0 <= j < |cases| :: cases[j].goto.target < |blocks|
    decreases |cases| - i
  {
    if i == |cases| then GotoCode(fallback, blocks, pc)
    else
      [Plain(LocalGet(index))] + [Plain(ConstI(is64, cases[i].key))] + [Plain(CmpI(Eq, is64))]
        + [If(GotoCode(cases[i].goto, blocks, pc), TableCode(index, is64, cases, fallback, blocks, pc, i + 1))]
  }

  predicate GotosIn(e: Exit, n: nat) {
    match e
    case Ret(_) => true
    case Jump(g) => g.target < n
    case BranchTo(_, g, h) => g.target < n && h.target < n
    case Table(_, _, cases, g) => g.target < n && forall j | 0 <= j < |cases| :: cases[j].goto.target < n
  }

  function ExitCode(e: Exit, blocks: seq<BlockState>, pc: nat, depth: nat): seq<Instr>
    requires GotosIn(e, |blocks|)
  {
    match e
    case Ret(vals) => Gets(vals) + [WasmMachine.Return]
    case Jump(g) => GotoCode(g, blocks, pc) + [WasmMachine.Br(depth)]
    case BranchTo(cond, g, h) =>
      [Plain(LocalGet(cond))] + [If(GotoCode(g, blocks, pc), GotoCode(h, blocks, pc))] + [WasmMachine.Br(depth)]
    case Table(index, is64, cases, fallback) =>
      TableCode(index, is64, cases, fallback, blocks, pc, 0) + [WasmMachine.Br(depth)]
  }

  predicate BlocksEmittable(blocks: seq<BlockState>) {
    forall k | 0 <= k < |blocks| ::
      (forall i | 0 <= i < |blocks[k].ops| :: Emittable(blocks[k].ops[i]))
      && (blocks[k].exit.Some? ==> GotosIn(blocks[k].exit.value, |blocks|))
  }

  function OpsCode(ops: seq<Op>, n: nat): seq<Instr>
    requires n <= |ops| && forall i | 0 <= i < |ops| :: Emittable(ops[i])
  {
    if n == 0 then [] else OpsCode(ops, n - 1) + OpCode(ops[n - 1])
  }

  /** The body of block `k`, inside the blocks of the later bodies and the loop. */
  function BlockCode(blocks: seq<BlockState>, pc: nat, k: nat): seq<Instr>
    requires k < |blocks| && BlocksEmittable(blocks)
  {
    OpsCode(blocks[k].ops, |blocks[k].ops|)
      + if blocks[k].exit.Some? then ExitCode(blocks[k].exit.value, blocks, pc, |blocks| - k) else [WasmMachine.Unreachable]
  }

  /** What lies inside the innermost label still open before body `k`. */
  function DispatchCode(blocks: seq<BlockState>, pc: nat, k: nat): seq<Instr>
    requires k <= |blocks| && BlocksEmittable(blocks)
  {
    if k == 0 then [Plain(LocalGet(pc))] + [BrTable(seq(|blocks|, i requires 0 <= i => i), |blocks|)]
    else [Block(DispatchCode(blocks, pc, k - 1))] + BlockCode(blocks, pc, k - 1)
  }

  function LoopBody(blocks: seq<BlockState>, pc: nat): seq<Instr>
    requires BlocksEmittable(blocks)
  {
    [Block(DispatchCode(blocks, pc, |blocks|))] + [WasmMachine.Unreachable]
  }

  function FunctionCode(blocks: seq<BlockState>, pc: nat): seq<Instr>
    requires BlocksEmittable(blocks)
  {
    [Plain(ConstI(false, 0))] + [Plain(LocalSet(pc))] + [Loop(LoopBody(blocks, pc))] + [WasmMachine.Unreachable]
  }

  /** The machine after a transition to `g`. */
  function Entered(m: Mach, g: Goto, blocks: seq<BlockState>, pc: nat): Mach
    requires g.target < |blocks| && |blocks[g.target].params| == |g.args| && g.target < WORD32
    requires InRange(g.args, |m.locals|) && InRange(blocks[g.target].params, |m.locals|) && pc < |m.locals|
  {
    m.(locals := Assign(m.locals, blocks[g.target].params, Reads(m.locals, g.args))[pc := V32(g.target)])
  }

  lemma GotoRuns(ctx: Context, fuel: nat, g: Goto, blocks: seq<BlockState>, pc: nat, m: Mach)
    requires m.stack == [] && g.target < |blocks| && |blocks[g.target].params| == |g.args| && g.target < WORD32
    requires InRange(g.args, |m.locals|) && InRange(blocks[g.target].params, |m.locals|) && pc < |m.locals|
    ensures Exec(ctx, fuel, GotoCode(g, blocks, pc), m) == Normal(Entered(m, g, blocks, pc))
  {
    hide Exec, Gets, Sets, Assign;
    var vals := Reads(m.locals, g.args);
    GetsRun(ctx, fuel, g.args, m);
    assert m.stack + vals == vals == [] + vals;
    var m1 := m.(stack := vals);
    SetsRun(ctx, fuel, blocks[g.target].params, vals, m1, []);
    var m2 := m.(locals := Assign(m.locals, blocks[g.target].params, vals));
    ExecThen(ctx, fuel, Gets(g.args), Sets(blocks[g.target].params), m, m1);
    var m3 := m2.(stack := [V32(g.target)]);
    PlainRuns(ctx, fuel, ConstI(false, g.target), m2);
    SmallMod(g.target, WORD32);
    assert m2.stack + [V32(g.target)] == m3.stack;
    ExecThen(ctx, fuel, Gets(g.args) + Sets(blocks[g.target].params), [Plain(ConstI(false, g.target))], m, m2);
    PlainRuns(ctx, fuel, LocalSet(pc), m3);
    ExecThen(ctx, fuel, Gets(g.args) + Sets(blocks[g.target].params) + [Plain(ConstI(false, g.target))], [Plain(LocalSet(pc))], m, m3);
  }

  predicate CanEnter(g: Goto, blocks: seq<BlockState>, n: nat) {
    && g.target < |blocks| && |blocks[g.target].params| == |g.args| && g.target < WORD32
    && InRange(g.args, n) && InRange(blocks[g.target].params, n)
  }

  /** The comparison chain from case `i` on makes the transition the index picks. */
  lemma {:induction false} TableRuns(ctx: Context, fuel: nat, index: nat, is64: bool, cases: seq<Case>, fallback: Goto,
                                     blocks: seq<BlockState>, pc: nat, i: nat, m: Mach)
    requires m.stack == [] && i <= |cases| && index < |m.locals| && pc < |m.locals| && Typed(m.locals[index], is64)
    requires CanEnter(fallback, blocks, |m.locals|) && forall j | 0 <= j < |cases| :: CanEnter(cases[j].goto, blocks, |m.locals|)
    requires forall j | 0 <= j < |cases| :: cases[j].goto.target < |blocks|
    ensures var g := Picked(m.locals[index], is64, cases, fallback, i);
      CanEnter(g, blocks, |m.locals|)
      && Exec(ctx, fuel, TableCode(index, is64, cases, fallback, blocks, pc, i), m) == Normal(Entered(m, g, blocks, pc))
    decreases |cases| - i
  {
    hide Exec, GotoCode, Entered, Compared, Wrapped;
    if i == |cases| {
      GotoRuns(ctx, fuel, fallback, blocks, pc, m);
    } else {
      var v, key := m.locals[index], KeyOf(cases[i].key, is64);
      var g := Picked(v, is64, cases, fallback, i);
      KeyEquals(v, key, is64, cases[i].key);
      PlainRuns(ctx, fuel, LocalGet(index), m);
      assert m.stack + [v] == [v];
      var m1, m2 := m.(stack := [v]), m.(stack := [v, key]);
      PlainRuns(ctx, fuel, ConstI(is64, cases[i].key), m1);
      assert m1.stack + [key] == m2.stack;
      CmpRuns(ctx, fuel, Eq, is64, v, key, m2);
      var m3 := m.(stack := [Flag(v == key)]);
      var rest := TableCode(index, is64, cases, fallback, blocks, pc, i + 1);
      if v == key {
        GotoRuns(ctx, fuel, cases[i].goto, blocks, pc, m);
      } else {
        TableRuns(ctx, fuel, index, is64, cases, fallback, blocks, pc, i + 1, m);
      }
      EnteredStack(m, g, blocks, pc);
      IfRuns(ctx, fuel, GotoCode(cases[i].goto, blocks, pc), rest, v == key, m3, Entered(m, g, blocks, pc));
      var a, b, c, d := [Plain(LocalGet(index))], [Plain(ConstI(is64, cases[i].key))], [Plain(CmpI(Eq, is64))],
                        [If(GotoCode(cases[i].goto, blocks, pc), rest)];
      ExecThen(ctx, fuel, a, b, m, m1);
      ExecThen(ctx, fuel, a + b, c, m, m2);
      ExecThen(ctx, fuel, a + b + c, d, m, m3);
    }
  }

  lemma EnteredStack(m: Mach, g: Goto, blocks: seq<BlockState>, pc: nat)
    requires CanEnter(g, blocks, |m.locals|) && pc < |m.locals|
    ensures Entered(m, g, blocks, pc).stack == m.stack
  {
  }

  lemma KeyEquals(v: Val, key: Val, is64: bool, number: int)
    requires Typed(v, is64) && key == KeyOf(number, is64)
    ensures Typed(key, is64) && (Compared(Eq, is64, Raw(v), Raw(key)) <==> v == key)
  {
  }

  /** A return pushes the values and returns exactly them. */
  lemma RetRuns(ctx: Context, fuel: nat, vals: seq<nat>, m: Mach)
    requires m.stack == [] && InRange(vals, |m.locals|) && |vals| == ctx.results
    ensures Exec(ctx, fuel, Gets(vals) + [WasmMachine.Return], m) == Returned(Reads(m.locals, vals), m.log)
  {
    hide Exec, Gets;
    GetsRun(ctx, fuel, vals, m);
    var r := Reads(m.locals, vals);
    assert m.stack + r == r && Top(r, |r|) == r;
    ExecSingle(ctx, fuel, WasmMachine.Return, m.(stack := r));
    ExecThen(ctx, fuel, Gets(vals), [WasmMachine.Return], m, m.(stack := r));
  }

  /** Any other exit makes its transition and branches to the loop. */
  lemma ExitRuns(ctx: Context, fuel: nat, e: Exit, blocks: seq<BlockState>, pc: nat, depth: nat, m: Mach)
    requires m.stack == [] && !e.Ret? && pc < |m.locals| && |blocks| < WORD32 && GotosIn(e, |blocks|)
    requires NextGoto(e, m.locals).Some? && GotosEnter(e, blocks, |m.locals|)
    ensures var g := NextGoto(e, m.locals).value;
      CanEnter(g, blocks, |m.locals|)
      && Exec(ctx, fuel, ExitCode(e, blocks, pc, depth), m) == Branch(depth, Entered(m, g, blocks, pc))
  {
    hide Exec, GotoCode, Entered, TableCode, Picked;
    var g := NextGoto(e, m.locals).value;
    var after;
    match e
    case Jump(_) =>
      GotoRuns(ctx, fuel, g, blocks, pc, m);
      after := Entered(m, g, blocks, pc);
      JumpOut(ctx, fuel, GotoCode(g, blocks, pc), depth, m, after);
    case BranchTo(cond, p, q) =>
      var v := m.locals[cond];
      PlainRuns(ctx, fuel, LocalGet(cond), m);
      assert m.stack + [v] == [v];
      GotoRuns(ctx, fuel, g, blocks, pc, m);
      after := Entered(m, g, blocks, pc);
      EnteredStack(m, g, blocks, pc);
      IfValue(ctx, fuel, GotoCode(p, blocks, pc), GotoCode(q, blocks, pc), v, m.(stack := [v]), after);
      ExecThen(ctx, fuel, [Plain(LocalGet(cond))], [If(GotoCode(p, blocks, pc), GotoCode(q, blocks, pc))], m, m.(stack := [v]));
      JumpOut(ctx, fuel, [Plain(LocalGet(cond))] + [If(GotoCode(p, blocks, pc), GotoCode(q, blocks, pc))], depth, m, after);
    case Table(index, is64, cases, fallback) =>
      TableRuns(ctx, fuel, index, is64, cases, fallback, blocks, pc, 0, m);
      after := Entered(m, g, blocks, pc);
      JumpOut(ctx, fuel, TableCode(index, is64, cases, fallback, blocks, pc, 0), depth, m, after);
  }

  predicate GotosEnter(e: Exit, blocks: seq<BlockState>, n: nat) {
    match e
    case Ret(_) => true
    case Jump(g) => CanEnter(g, blocks, n)
    case BranchTo(_, g, h) => CanEnter(g, blocks, n) && CanEnter(h, blocks, n)
    case Table(_, _, cases, g) => CanEnter(g, blocks, n) && forall j | 0 <= j < |cases| :: CanEnter(cases[j].goto, blocks, n)
  }

  lemma JumpOut(ctx: Context, fuel: nat, code: seq<Instr>, depth: nat, m: Mach, after: Mach)
    requires Exec(ctx, fuel, code, m) == Normal(after)
    ensures Exec(ctx, fuel, code + [WasmMachine.Br(depth)], m) == Branch(depth, after)
  {
    hide Exec;
    ExecThen(ctx, fuel, code, [WasmMachine.Br(depth)], m, after);
    ExecSingle(ctx, fuel, WasmMachine.Br(depth), after);
  }

  lemma IfValue(ctx: Context, fuel: nat, thenCode: seq<Instr>, elseCode: seq<Instr>, v: Val, m: Mach, after: Mach)
    requires m.stack == [v] && v.V32? && after.stack == []
    requires Exec(ctx, fuel, if v.n != 0 then thenCode else elseCode, m.(stack := [])) == Normal(after)
    ensures Exec(ctx, fuel, [If(thenCode, elseCode)], m) == Normal(after)
  {
    hide Exec;
    ExecSingle(ctx, fuel, If(thenCode, elseCode), m);
    assert Pop(m.stack, 1) == [];
  }

  /** How the machine's outcome matches a run of operations. */
  ghost predicate OpsMatch(r: Outcome, ran: Ran, machine: seq<Val>, scratch: set<nat>, pc: nat)
  {
    match ran
    case RanIllTyped => true
    case RanTrap(log) => r == Trapped(log)
    case Ran(locals, log) =>
      && r.Normal? && r.m.stack == [] && r.m.log == log && Agree(r.m.locals, locals, scratch)
      && KeepsPc(machine, r.m.locals, pc)
  }

  lemma {:induction false} OpsRun(ctx: Context, fuel: nat, ops: seq<Op>, n: nat, machine: seq<Val>, locals: seq<Val>, log: Log,
                                  scratch: set<nat>, pc: nat)
    requires n <= |ops| && OpsFit(ops, |locals|, scratch, pc) && Agree(machine, locals, scratch) && (pc < |machine| ==> pc in scratch)
    requires forall i | 0 <= i < |ops| :: Emittable(ops[i])
    ensures OpsMatch(Exec(ctx, fuel, OpsCode(ops, n), Mach(machine, log, [])), RunOps(ctx.host, ops, n, locals, log), machine, scratch, pc)
    decreases n
  {
    hide Exec, OpCode, OpMeaning, Agree, OpFits, Assign;
    if n == 0 {
      ExecNothing(ctx, fuel, Mach(machine, log, []));
    } else {
      OpsRun(ctx, fuel, ops, n - 1, machine, locals, log, scratch, pc);
      var before := RunOps(ctx.host, ops, n - 1, locals, log);
      var r := Exec(ctx, fuel, OpsCode(ops, n - 1), Mach(machine, log, []));
      if before.Ran? {
        assert r.m == Mach(r.m.locals, before.log, []);
        OpInRange(ops[n - 1], |locals|, scratch, pc);
        SameLength(machine, locals, scratch);
        SameLength(r.m.locals, before.locals, scratch);
        OpMatches(ctx, fuel, ops[n - 1], r.m.locals, before.locals, before.log, scratch, pc);
        ExecThen(ctx, fuel, OpsCode(ops, n - 1), OpCode(ops[n - 1]), Mach(machine, log, []), r.m);
      } else if before.RanTrap? {
        ExecEnds(ctx, fuel, OpsCode(ops, n - 1), OpCode(ops[n - 1]), Mach(machine, log, []));
      }
    }
  }

  lemma OpInRange(op: Op, n: nat, scratch: set<nat>, pc: nat)
    requires OpFits(op, n, scratch, pc)
    ensures InRange(Sources(op), n) && InRange(Dests(op), n)
  {
  }

  /** The labels between a body and the outside, peeled off an outcome. */
  function Outward(r: Outcome, labels: nat): Outcome {
    if r.Branch? && r.depth >= labels then Branch(r.depth - labels, r.m) else r
  }

  /** A body never runs into the next one. */
  predicate LeavesBy(r: Outcome, labels: nat) {
    !r.Normal? && (r.Branch? ==> r.depth >= labels)
  }

  /** With the program counter at `k`, everything inside the labels of bodies up to `k` only branches. */
  lemma {:induction false} DispatchBranches(ctx: Context, fuel: nat, blocks: seq<BlockState>, pc: nat, k: nat, j: nat, m: Mach)
    requires BlocksEmittable(blocks) && j <= k < |blocks| < WORD32 && m.stack == [] && pc < |m.locals| && m.locals[pc] == V32(k)
    ensures Exec(ctx, fuel, DispatchCode(blocks, pc, j), m) == Branch(k - j, m)
    decreases j
  {
    hide Exec, BlockCode;
    if j == 0 {
      var table := BrTable(seq(|blocks|, i requires 0 <= i => i), |blocks|);
      PlainRuns(ctx, fuel, LocalGet(pc), m);
      var pushed := m.(stack := [V32(k)]);
      assert m.stack + [V32(k)] == pushed.stack;
      ExecThen(ctx, fuel, [Plain(LocalGet(pc))], [table], m, pushed);
      ExecSingle(ctx, fuel, table, pushed);
      assert Pop(pushed.stack, 1) == [];
    } else {
      DispatchBranches(ctx, fuel, blocks, pc, k, j - 1, m);
      var inner := Block(DispatchCode(blocks, pc, j - 1));
      ExecSingle(ctx, fuel, inner, m);
      assert m.(stack := []) == m;
      ExecEnds(ctx, fuel, [inner], BlockCode(blocks, pc, j - 1), m);
    }
  }

  /** With the program counter at `k`, the nest runs body `k`, and only that one. */
  lemma {:induction false} DispatchReaches(ctx: Context, fuel: nat, blocks: seq<BlockState>, pc: nat, k: nat, j: nat, m: Mach)
    requires BlocksEmittable(blocks) && k < j <= |blocks| < WORD32 && m.stack == [] && pc < |m.locals| && m.locals[pc] == V32(k)
    requires LeavesBy(Exec(ctx, fuel, BlockCode(blocks, pc, k), m), j - k - 1)
    ensures Exec(ctx, fuel, DispatchCode(blocks, pc, j), m) == Outward(Exec(ctx, fuel, BlockCode(blocks, pc, k), m), j - k - 1)
    decreases j
  {
    hide Exec, BlockCode;
    var inner := Block(DispatchCode(blocks, pc, j - 1));
    assert m.(stack := []) == m;
    ExecSingle(ctx, fuel, inner, m);
    if j == k + 1 {
      DispatchBranches(ctx, fuel, blocks, pc, k, k, m);
      ExecThen(ctx, fuel, [inner], BlockCode(blocks, pc, j - 1), m, m);
    } else {
      DispatchReaches(ctx, fuel, blocks, pc, k, j - 1, m);
      ExecEnds(ctx, fuel, [inner], BlockCode(blocks, pc, j - 1), m);
    }
  }

  /** One pass of the loop body, given what the body of block `k` does. */
  lemma PassRuns(ctx: Context, fuel: nat, blocks: seq<BlockState>, pc: nat, k: nat, m: Mach)
    requires BlocksEmittable(blocks) && k < |blocks| < WORD32 && m.stack == [] && pc < |m.locals| && m.locals[pc] == V32(k)
    requires var r := Exec(ctx, fuel, BlockCode(blocks, pc, k), m); !r.Normal? && (r.Branch? ==> r.depth == |blocks| - k)
    ensures var r := Exec(ctx, fuel, BlockCode(blocks, pc, k), m);
      Exec(ctx, fuel, LoopBody(blocks, pc), m) == if r.Branch? then Branch(0, r.m) else r
  {
    hide Exec, BlockCode, DispatchCode;
    var inner := Block(DispatchCode(blocks, pc, |blocks|));
    DispatchReaches(ctx, fuel, blocks, pc, k, |blocks|, m);
    assert m.(stack := []) == m;
    ExecSingle(ctx, fuel, inner, m);
    ExecEnds(ctx, fuel, [inner], [WasmMachine.Unreachable], m);
  }

  /** What the code of one block does, against the run of its operations and its exit. */
  ghost predicate BlockMatches(r: Outcome, ctx: Context, blocks: seq<BlockState>, k: nat, locals: seq<Val>, log: Log, scratch: set<nat>, pc: nat)
    requires k < |blocks|
  {
    var block := blocks[k];
    var ran := RunOps(ctx.host, block.ops, |block.ops|, locals, log);
    match ran
    case RanIllTyped => true
    case RanTrap(after) => r == Trapped(after)
    case Ran(now, after) =>
      if block.exit.None? then r == Trapped(after)
      else if block.exit.value.Ret? then
        (InRange(block.exit.value.vals, |now|) && |block.exit.value.vals| == ctx.results) ==>
          r == Returned(Reads(now, block.exit.value.vals), after)
      else
        var next := NextGoto(block.exit.value, now);
        next.None? || (
          && CanEnter(next.value, blocks, |now|)
          && r.Branch? && r.depth == |blocks| - k && r.m.stack == [] && r.m.log == after
          && Agree(r.m.locals, Assign(now, blocks[next.value.target].params, Reads(now, next.value.args)), scratch)
          && pc < |r.m.locals| && r.m.locals[pc] == V32(next.value.target))
  }

  lemma ExitFacts(blocks: seq<BlockState>, k: nat, n: nat, scratch: set<nat>, pc: nat)
    requires Fits(blocks, n, scratch, pc) && k < |blocks| && blocks[k].exit.Some?
    ensures GotosEnter(blocks[k].exit.value, blocks, n) && GotosIn(blocks[k].exit.value, |blocks|)
  {
    assert BlockFits(blocks[k], blocks, n, scratch, pc);
    var e := blocks[k].exit.value;
    match e
    case Ret(_) =>
    case Jump(g) =>
      assert BlockFits(blocks[g.target], blocks, n, scratch, pc);
    case BranchTo(_, g, h) =>
      assert BlockFits(blocks[g.target], blocks, n, scratch, pc) && BlockFits(blocks[h.target], blocks, n, scratch, pc);
    case Table(_, _, cases, g) =>
      assert BlockFits(blocks[g.target], blocks, n, scratch, pc);
      forall j | 0 <= j < |cases| ensures CanEnter(cases[j].goto, blocks, n) {
        assert GotoFits(cases[j].goto, blocks, n, scratch);
        assert BlockFits(blocks[cases[j].goto.target], blocks, n, scratch, pc);
      }
  }

  lemma FitsEmittable(blocks: seq<BlockState>, n: nat, scratch: set<nat>, pc: nat)
    requires Fits(blocks, n, scratch, pc)
    ensures BlocksEmittable(blocks)
  {
    hide GotosEnter;
    forall k | 0 <= k < |blocks|
      ensures forall i | 0 <= i < |blocks[k].ops| :: Emittable(blocks[k].ops[i])
      ensures blocks[k].exit.Some? ==> GotosIn(blocks[k].exit.value, |blocks|)
    {
      assert BlockFits(blocks[k], blocks, n, scratch, pc);
      assert forall i | 0 <= i < |blocks[k].ops| :: OpFits(blocks[k].ops[i], n, scratch, pc);
      if blocks[k].exit.Some? {
        ExitFacts(blocks, k, n, scratch, pc);
      }
    }
  }

  /** The choice of an exit does not depend on scratch locals. */
  lemma NextAgrees(e: Exit, blocks: seq<BlockState>, machine: seq<Val>, locals: seq<Val>, scratch: set<nat>)
    requires ExitFits(e, blocks, |locals|, scratch) && Agree(machine, locals, scratch)
    ensures NextGoto(e, machine) == NextGoto(e, locals)
    ensures NextGoto(e, locals).Some? ==> GotoFits(NextGoto(e, locals).value, blocks, |locals|, scratch)
  {
    hide Picked;
    if e.Table? && e.index < |locals| && Typed(locals[e.index], e.is64) {
      PickedFits(locals[e.index], e.is64, e.cases, e.fallback, 0, blocks, |locals|, scratch);
    }
  }

  lemma {:induction false} PickedFits(v: Val, is64: bool, cases: seq<Case>, fallback: Goto, i: nat, blocks: seq<BlockState>, n: nat, scratch: set<nat>)
    requires i <= |cases| && GotoFits(fallback, blocks, n, scratch)
    requires forall j | 0 <= j < |cases| :: GotoFits(cases[j].goto, blocks, n, scratch)
    ensures GotoFits(Picked(v, is64, cases, fallback, i), blocks, n, scratch)
    decreases |cases| - i
  {
    if i < |cases| && v != KeyOf(cases[i].key, is64) {
      PickedFits(v, is64, cases, fallback, i + 1, blocks, n, scratch);
    }
  }

  /** A transition from agreeing locals leads to agreeing locals, with the program counter set. */
  lemma EnteredAgrees(machine: seq<Val>, locals: seq<Val>, log: Log, g: Goto, blocks: seq<BlockState>, scratch: set<nat>, pc: nat)
    requires Agree(machine, locals, scratch) && pc < |locals| && pc in scratch
    requires GotoFits(g, blocks, |locals|, scratch) && CanEnter(g, blocks, |locals|)
    ensures CanEnter(g, blocks, |machine|) && pc < |machine|
    ensures var m := Entered(Mach(machine, log, []), g, blocks, pc);
      Agree(m.locals, Assign(locals, blocks[g.target].params, Reads(locals, g.args)), scratch)
      && pc < |m.locals| && m.locals[pc] == V32(g.target) && m.stack == [] && m.log == log
  {
    hide Assign;
    AgreeReads(machine, locals, scratch, g.args);
    AgreeAssign(machine, locals, scratch, blocks[g.target].params, Reads(locals, g.args));
  }

  lemma BlockRuns(ctx: Context, fuel: nat, blocks: seq<BlockState>, k: nat, machine: seq<Val>, locals: seq<Val>, log: Log,
                  scratch: set<nat>, pc: nat)
    requires Fits(blocks, |locals|, scratch, pc) && BlocksEmittable(blocks) && k < |blocks| && Agree(machine, locals, scratch)
    ensures BlockMatches(Exec(ctx, fuel, BlockCode(blocks, pc, k), Mach(machine, log, [])), ctx, blocks, k, locals, log, scratch, pc)
  {
    hide Exec, OpsCode, ExitCode, Agree, Assign, ExitFits, GotosIn, GotosEnter, RunOps, NextGoto, OpsFit, OpFits, ParamsFit, Entered, CanEnter, GotoFits;
    var block := blocks[k];
    assert BlockFits(block, blocks, |locals|, scratch, pc);
    SameLength(machine, locals, scratch);
    var m := Mach(machine, log, []);
    OpsRun(ctx, fuel, block.ops, |block.ops|, machine, locals, log, scratch, pc);
    var ran := RunOps(ctx.host, block.ops, |block.ops|, locals, log);
    var r := Exec(ctx, fuel, OpsCode(block.ops, |block.ops|), m);
    var tail := if block.exit.Some? then ExitCode(block.exit.value, blocks, pc, |blocks| - k) else [WasmMachine.Unreachable];
    if ran.RanTrap? {
      ExecEnds(ctx, fuel, OpsCode(block.ops, |block.ops|), tail, m);
    } else if ran.Ran? {
      var now := r.m;
      assert now == Mach(now.locals, ran.log, []);
      ExecThen(ctx, fuel, OpsCode(block.ops, |block.ops|), tail, m, now);
      SameLength(now.locals, ran.locals, scratch);
      if block.exit.None? {
        ExecSingle(ctx, fuel, WasmMachine.Unreachable, now);
      } else if block.exit.value.Ret? {
        ReturnMatches(ctx, fuel, block.exit.value, blocks, pc, |blocks| - k, now, ran.locals, scratch);
      } else {
        var e := block.exit.value;
        ExitFacts(blocks, k, |locals|, scratch, pc);
        NextAgrees(e, blocks, now.locals, ran.locals, scratch);
        if NextGoto(e, ran.locals).Some? {
          ExitRuns(ctx, fuel, e, blocks, pc, |blocks| - k, now);
          EnteredAgrees(now.locals, ran.locals, ran.log, NextGoto(e, ran.locals).value, blocks, scratch, pc);
        }
      }
    }
  }

  lemma ReturnMatches(ctx: Context, fuel: nat, e: Exit, blocks: seq<BlockState>, pc: nat, depth: nat, m: Mach, locals: seq<Val>, scratch: set<nat>)
    requires e.Ret? && GotosIn(e, |blocks|) && ExitFits(e, blocks, |locals|, scratch) && Agree(m.locals, locals, scratch) && m.stack == []
    ensures InRange(e.vals, |locals|) && |e.vals| == ctx.results ==>
      Exec(ctx, fuel, ExitCode(e, blocks, pc, depth), m) == Returned(Reads(locals, e.vals), m.log)
  {
    hide Exec;
    if InRange(e.vals, |locals|) && |e.vals| == ctx.results {
      AgreeReads(m.locals, locals, scratch, e.vals);
      RetRuns(ctx, fuel, e.vals, m);
    }
  }

  /** The outcome of the machine for the outcome of the block program. */
  function Expected(f: Finish): Outcome {
    match f
    case Result(vals, log) => Returned(vals, log)
    case Trap(log) => Trapped(log)
    case OutOfTransitions => OutOfFuel
    case Refused => Stuck
  }

  /**
   The loop, entered with the program counter at `k`, does what the block program does from block
   `k`: the same calls and the same result after the same number of transitions, and it goes on
   exactly as long.
   */
  lemma {:induction false} LoopSimulates(ctx: Context, fuel: nat, blocks: seq<BlockState>, k: nat, machine: seq<Val>, locals: seq<Val>, log: Log,
                                         scratch: set<nat>, pc: nat)
    requires Fits(blocks, |locals|, scratch, pc) && BlocksEmittable(blocks) && k < |blocks| && Agree(machine, locals, scratch)
    requires pc < |machine| && machine[pc] == V32(k)
    ensures var run := RunBlocks(fuel, ctx, blocks, k, locals, log);
      run.Refused? || ExecOne(ctx, fuel, Loop(LoopBody(blocks, pc)), Mach(machine, log, [])) == Expected(run)
    decreases fuel
  {
    hide Exec, BlockCode, LoopBody, Agree, Assign, RunOps, NextGoto, CanEnter, Fits;
    var m := Mach(machine, log, []);
    var block := blocks[k];
    var ran := RunOps(ctx.host, block.ops, |block.ops|, locals, log);
    var run := RunBlocks(fuel, ctx, blocks, k, locals, log);
    if !run.Refused? {
      FitsBound(blocks, |locals|, scratch, pc);
      BlockRuns(ctx, fuel, blocks, k, machine, locals, log, scratch, pc);
      var r := Exec(ctx, fuel, BlockCode(blocks, pc, k), m);
      PassRuns(ctx, fuel, blocks, pc, k, m);
      assert m.(stack := []) == m;
      if r.Branch? && fuel > 0 {
        var next := NextGoto(block.exit.value, ran.locals).value;
        var entered := Assign(ran.locals, blocks[next.target].params, Reads(ran.locals, next.args));
        assert r.m == Mach(r.m.locals, ran.log, []);
        LoopSimulates(ctx, fuel - 1, blocks, next.target, r.m.locals, entered, ran.log, scratch, pc);
      }
    }
  }

  lemma FitsBound(blocks: seq<BlockState>, n: nat, scratch: set<nat>, pc: nat)
    requires Fits(blocks, n, scratch, pc)
    ensures |blocks| < WORD32
  {
  }

  /** The emitted function against its block program, as long as that is not refused. */
  lemma RunsUnlessRefused(ctx: Context, fuel: nat, blocks: seq<BlockState>, locals: seq<Val>, log: Log, scratch: set<nat>, pc: nat)
    requires Fits(blocks, |locals|, scratch, pc) && BlocksEmittable(blocks) && 0 < |blocks|
    ensures var run := RunBlocks(fuel, ctx, blocks, 0, locals, log);
      run.Refused? || Exec(ctx, fuel, FunctionCode(blocks, pc), Mach(locals, log, [])) == Expected(run)
  {
    hide Exec, ExecOne, LoopBody, Fits, RunBlocks, Agree, BlocksEmittable;
    var m := Mach(locals, log, []);
    var run := RunBlocks(fuel, ctx, blocks, 0, locals, log);
    PcInRange(blocks, |locals|, scratch, pc);
    var m2 := m.(locals := locals[pc := V32(0)]);
    StartRuns(ctx, fuel, pc, m);
    var start := [Plain(ConstI(false, 0))] + [Plain(LocalSet(pc))];
    ExecThen(ctx, fuel, start, [Loop(LoopBody(blocks, pc))], m, m2);
    ExecSingle(ctx, fuel, Loop(LoopBody(blocks, pc)), m2);
    LoopSimulates(ctx, fuel, blocks, 0, m2.locals, locals, log, scratch, pc);
    if !run.Refused? {
      ExecEnds(ctx, fuel, start + [Loop(LoopBody(blocks, pc))], [WasmMachine.Unreachable], m);
    }
  }

  /**
   The emitted function runs exactly its block program, from any typed locals and with any host
   that keeps to the signatures: the same calls, results and traps within every number of
   transitions, and no end where that has none. Nothing ill typed is ever run.
   */
  lemma FunctionSimulates(ctx: Context, fuel: nat, blocks: seq<BlockState>, types: seq<bool>, sigs: seq<Signature>, results: seq<bool>,
                          locals: seq<Val>, log: Log, scratch: set<nat>, pc: nat)
    requires Fits(blocks, |locals|, scratch, pc) && BlocksEmittable(blocks) && 0 < |blocks|
    requires WellTyped(blocks, types, sigs, results) && ctx.results == |results|
    requires ValsTyped(locals, types) && HostKeeps(ctx.host, sigs)
    ensures var run := RunBlocks(fuel, ctx, blocks, 0, locals, log);
      FinishTyped(run, results) && Exec(ctx, fuel, FunctionCode(blocks, pc), Mach(locals, log, [])) == Expected(run)
  {
    hide Exec, FunctionCode, Fits, RunBlocks, WellTyped, HostKeeps, ValsTyped;
    NeverRefused(fuel, ctx, blocks, 0, types, sigs, results, locals, log);
    RunsUnlessRefused(ctx, fuel, blocks, locals, log, scratch, pc);
  }

  /** The stream of a function with several blocks, read as structured code in whatever way, runs the block program. */
  lemma StreamSimulates(ctx: Context, fuel: nat, code: seq<Instr>, blocks: seq<BlockState>, types: seq<bool>, sigs: seq<Signature>,
                        results: seq<bool>, locals: seq<Val>, log: Log, scratch: set<nat>, pc: nat)
    requires Fits(blocks, |locals|, scratch, pc) && BlocksEmittable(blocks) && 0 < |blocks|
    requires WellTyped(blocks, types, sigs, results) && ctx.results == |results|
    requires ValsTyped(locals, types) && HostKeeps(ctx.host, sigs)
    requires Flat(code) == Flat(FunctionCode(blocks, pc))
    ensures var run := RunBlocks(fuel, ctx, blocks, 0, locals, log);
      FinishTyped(run, results) && Conclude(Exec(ctx, fuel, code, Mach(locals, log, [])), ctx.results) == Expected(run)
  {
    hide Exec, FunctionCode, Fits, RunBlocks, WellTyped, HostKeeps, ValsTyped, Flat;
    SameStream(code, FunctionCode(blocks, pc));
    FunctionSimulates(ctx, fuel, blocks, types, sigs, results, locals, log, scratch, pc);
  }

  lemma SameStream(a: seq<Instr>, b: seq<Instr>)
    requires Flat(a) == Flat(b)
    ensures a == b
  {
    hide Flat;
    assert Flat(a) + [] == Flat(a) && Flat(b) + [] == Flat(b);
    FlatInjective(a, [], b, []);
  }

  // ---------------------------------------------------------------- functions of one block

  /** A block that ends the function: its operations, then a return if it has one. */
  predicate SingleEmittable(block: BlockState) {
    (forall i | 0 <= i < |block.ops| :: Emittable(block.ops[i])) && (block.exit.Some? ==> block.exit.value.Ret?)
  }

  function SingleCode(block: BlockState): seq<Instr>
    requires SingleEmittable(block)
  {
    OpsCode(block.ops, |block.ops|) + if block.exit.Some? then Gets(block.exit.value.vals) + [WasmMachine.Return] else []
  }

  /** Without a program counter nothing jumps; the body returns its values or falls off its end. */
  lemma SingleRuns(ctx: Context, fuel: nat, block: BlockState, locals: seq<Val>, log: Log, scratch: set<nat>)
    requires SingleEmittable(block) && OpsFit(block.ops, |locals|, scratch, |locals|)
    requires block.exit.Some? ==> InRange(block.exit.value.vals, |locals|) && Avoids(block.exit.value.vals, scratch)
    ensures var run := RunSingle(ctx, block, locals, log);
      run.Refused? || Conclude(Exec(ctx, fuel, SingleCode(block), Mach(locals, log, [])), ctx.results) == Expected(run)
  {
    hide Exec, OpsCode, RunOps, OpsFit, Agree, Gets;
    var n := |block.ops|;
    var m := Mach(locals, log, []);
    AgreeItself(locals, scratch);
    OpsRun(ctx, fuel, block.ops, n, locals, locals, log, scratch, |locals|);
    var ran := RunOps(ctx.host, block.ops, n, locals, log);
    var tail := if block.exit.Some? then Gets(block.exit.value.vals) + [WasmMachine.Return] else [];
    if ran.RanTrap? {
      ExecEnds(ctx, fuel, OpsCode(block.ops, n), tail, m);
    } else if ran.Ran? {
      var now := Exec(ctx, fuel, OpsCode(block.ops, n), m).m;
      ExecThen(ctx, fuel, OpsCode(block.ops, n), tail, m, now);
      if block.exit.None? {
        ExecNothing(ctx, fuel, now);
      } else if |block.exit.value.vals| == ctx.results {
        SameLength(now.locals, ran.locals, scratch);
        AgreeReads(now.locals, ran.locals, scratch, block.exit.value.vals);
        RetRuns(ctx, fuel, block.exit.value.vals, now);
      }
    }
  }

  lemma AgreeItself(locals: seq<Val>, scratch: set<nat>)
    ensures Agree(locals, locals, scratch)
  {
  }

  predicate SingleTyped(block: BlockState, types: seq<bool>, sigs: seq<Signature>, results: seq<bool>) {
    OpsTyped(block.ops, types, sigs) && if block.exit.Some? then block.exit.value.Ret? && AllHave(types, block.exit.value.vals, results) else results == []
  }

  /** The stream of a function of one block runs that block. */
  lemma SingleSimulates(ctx: Context, fuel: nat, code: seq<Instr>, block: BlockState, types: seq<bool>, sigs: seq<Signature>,
                        results: seq<bool>, locals: seq<Val>, log: Log, scratch: set<nat>)
    requires SingleEmittable(block) && OpsFit(block.ops, |locals|, scratch, |locals|)
    requires block.exit.Some? ==> Avoids(block.exit.value.vals, scratch)
    requires SingleTyped(block, types, sigs, results) && ctx.results == |results|
    requires ValsTyped(locals, types) && HostKeeps(ctx.host, sigs)
    requires Flat(code) == Flat(SingleCode(block))
    ensures var run := RunSingle(ctx, block, locals, log);
      FinishTyped(run, results) && Conclude(Exec(ctx, fuel, code, Mach(locals, log, [])), ctx.results) == Expected(run)
  {
    hide Exec, OpsFit, RunOps, OpsTyped, HostKeeps, ValsTyped, Flat, SingleCode;
    SameStream(code, SingleCode(block));
    OpsAreSound(ctx.host, block.ops, |block.ops|, locals, types, sigs, log);
    if block.exit.Some? {
      TypedInRange(types, locals, block.exit.value.vals, results);
      var ran := RunOps(ctx.host, block.ops, |block.ops|, locals, log);
      if ran.Ran? {
        ReadsTyped(ran.locals, types, block.exit.value.vals, results);
      }
    }
    NothingTyped();
    SingleRuns(ctx, fuel, block, locals, log, scratch);
  }

  lemma TypedInRange(types: seq<bool>, locals: seq<Val>, xs: seq<nat>, words: seq<bool>)
    requires AllHave(types, xs, words) && ValsTyped(locals, types)
    ensures InRange(xs, |locals|) && |xs| == |words|
  {
    ReadsTyped(locals, types, xs, words);
  }

  lemma NothingTyped()
    ensures ValsTyped([], [])
  {
  }

  lemma StartRuns(ctx: Context, fuel: nat, pc: nat, m: Mach)
    requires m.stack == [] && pc < |m.locals|
    ensures Exec(ctx, fuel, [Plain(ConstI(false, 0))] + [Plain(LocalSet(pc))], m) == Normal(m.(locals := m.locals[pc := V32(0)]))
  {
    hide Exec;
    var m1 := m.(stack := [V32(0)]);
    PlainRuns(ctx, fuel, ConstI(false, 0), m);
    assert m.stack + [V32(0)] == m1.stack && Pop(m1.stack, 1) == [];
    PlainRuns(ctx, fuel, LocalSet(pc), m1);
    ExecThen(ctx, fuel, [Plain(ConstI(false, 0))], [Plain(LocalSet(pc))], m, m1);
  }

  lemma PcInRange(blocks: seq<BlockState>, n: nat, scratch: set<nat>, pc: nat)
    requires Fits(blocks, n, scratch, pc)
    ensures pc < n && pc in scratch
    ensures forall locals: seq<Val>, v: Val {:trigger Agree(locals[pc := v], locals, scratch)} ::
      |locals| == n ==> Agree(locals[pc := v], locals, scratch)
  {
  }
}
