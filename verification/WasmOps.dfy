/**
 The code of every buffered operation, and that it does what the operation means.
 */
module WasmOps {
  import opened Common
  import opened Numbers
  import opened WasmMachine
  import opened BlockProgram
  import opened WasmStraight
  import opened WasmLimbs
  import opened WasmConvert
  import opened WasmShift

  function SelectCode(dests: seq<nat>, cond: nat, thens: seq<nat>, elses: seq<nat>): seq<Instr>
    requires |dests| == |thens| == |elses|
  {
    if dests == [] then []
    else
      Group([thens[0], elses[0], cond], [Plain(SelectI)], dests[0]) + SelectCode(dests[1..], cond, thens[1..], elses[1..])
  }

  /** Each destination gets its own constant. */
  function ConstCode(dests: seq<nat>, words: seq<bool>, value: int): seq<Instr>
    requires |dests| == |words|
  {
    if dests == [] then []
    else Group([], [Plain(ConstI(words[0], value))], dests[0]) + ConstCode(dests[1..], words[1..], 0)
  }

  function OpCode(op: Op): seq<Instr>
    requires Emittable(op)
  {
    match op
    case Iconst(dests, words, value) => ConstCode(dests, words, value)
    case Zero(dests, is64) => ConstCode(dests, Repeat(is64, |dests|), 0)
    case Copy(dest, src) => Group([src], [], dest)
    case Convert(dest, src, conv) => Group([src], ConvCode(conv), dest)
    case Binop(dest, kind, lhs, rhs, is64) => Group([lhs, rhs], [Plain(BinI(kind, is64))], dest)
    case Icmp(dest, pred, lhs, rhs, is64) => Group([lhs, rhs], [Plain(CmpI(pred, is64))], dest)
    case Select(dests, cond, thens, elses) => SelectCode(dests, cond, thens, elses)
    case WideAddSub(dests, left, right, subtract, carry, aux) =>
      Group([], [Plain(ConstI(false, 0))], carry) + LimbsCode(dests, left, right, subtract, carry, aux)
    case WideShift(dests, val, shift, up) => ShiftCode(dests, val, shift, up)
    case Call(dests, func, args) => Gets(args) + [Plain(CallI(func, |args|))] + Sets(dests)
  }

  /** The machine's locals hold the program's values; scratch locals may differ. */
  ghost predicate Agree(machine: seq<Val>, locals: seq<Val>, scratch: set<nat>) {
    |machine| == |locals| && forall i: nat | i < |locals| && i !in scratch :: machine[i] == locals[i]
  }

  lemma AgreeReads(machine: seq<Val>, locals: seq<Val>, scratch: set<nat>, xs: seq<nat>)
    requires Agree(machine, locals, scratch) && InRange(xs, |locals|) && Avoids(xs, scratch)
    ensures Reads(machine, xs) == Reads(locals, xs)
  {
  }

  lemma {:induction false} AgreeAssign(machine: seq<Val>, locals: seq<Val>, scratch: set<nat>, dests: seq<nat>, vals: seq<Val>)
    requires Agree(machine, locals, scratch) && InRange(dests, |locals|) && |dests| == |vals|
    ensures Agree(Assign(machine, dests, vals), Assign(locals, dests, vals), scratch)
    decreases |dests|
  {
    if dests != [] {
      assert forall i | 0 <= i < |dests| - 1 :: dests[1..][i] == dests[i + 1];
      AgreeAssign(machine, locals, scratch, dests[1..], vals[1..]);
    }
  }

  /** The program counter, if there is one, is as before. */
  ghost predicate KeepsPc(before: seq<Val>, after: seq<Val>, pc: nat) {
    pc < |before| ==> pc < |after| && after[pc] == before[pc]
  }

  /** How the machine's outcome matches the meaning of an operation. */
  ghost predicate Matches(r: Outcome, mean: Meaning, op: Op, machine: seq<Val>, locals: seq<Val>, scratch: set<nat>, pc: nat)
    requires InRange(Dests(op), |locals|) && (mean.Values? ==> |mean.vals| == |Dests(op)|)
  {
    match mean
    case IllTyped => true
    case Traps(log) => r == Trapped(log)
    case Values(vals, log) =>
      && r.Normal? && r.m.stack == [] && r.m.log == log
      && Agree(r.m.locals, Assign(locals, Dests(op), vals), scratch)
      && KeepsPc(machine, r.m.locals, pc)
  }

  /** Code that assigns the destinations and nothing else. */
  lemma AssignsMatches(op: Op, vals: seq<Val>, log: Log, machine: seq<Val>, locals: seq<Val>, scratch: set<nat>, pc: nat)
    requires InRange(Dests(op), |locals|) && Unique(Dests(op)) && Avoids(Dests(op), scratch) && |vals| == |Dests(op)|
    requires Agree(machine, locals, scratch) && (pc < |machine| ==> pc in scratch)
    ensures Matches(Normal(Mach(Assign(machine, Dests(op), vals), log, [])), Values(vals, log), op, machine, locals, scratch, pc)
  {
    AgreeAssign(machine, locals, scratch, Dests(op), vals);
    AssignSimultaneous(machine, Dests(op), vals);
  }

  lemma {:induction false} ConstsRun(ctx: Context, fuel: nat, dests: seq<nat>, words: seq<bool>, value: int, m: Mach)
    requires |dests| == |words| && m.stack == [] && InRange(dests, |m.locals|) && Unique(dests)
    ensures Exec(ctx, fuel, ConstCode(dests, words, value), m)
      == Normal(m.(locals := Assign(m.locals, dests, Constants(words, value))))
    decreases |dests|
  {
    hide Exec, Group, Assign, Wrapped;
    var vals := Constants(words, value);
    if dests == [] {
      ExecNothing(ctx, fuel, m);
      NothingAssigned(m.locals, vals);
    } else {
      var v := Wrapped(value, words[0]);
      PlainRuns(ctx, fuel, ConstI(words[0], value), m);
      assert m.stack + [v] == [v] && Reads(m.locals, []) == [];
      GroupRuns(ctx, fuel, [], [Plain(ConstI(words[0], value))], dests[0], m, v);
      var between := m.(locals := m.locals[dests[0] := v]);
      ConstsRun(ctx, fuel, dests[1..], words[1..], 0, between);
      ExecThen(ctx, fuel, Group([], [Plain(ConstI(words[0], value))], dests[0]), ConstCode(dests[1..], words[1..], 0), m, between);
      assert Constants(words[1..], 0) == vals[1..];
      AssignFirst(m.locals, dests, vals);
    }
  }

  lemma ConstMatches(ctx: Context, fuel: nat, op: Op, machine: seq<Val>, locals: seq<Val>, log: Log, scratch: set<nat>, pc: nat)
    requires (op.Iconst? || op.Zero?) && OpFits(op, |locals|, scratch, pc) && Agree(machine, locals, scratch) && (pc < |machine| ==> pc in scratch)
    ensures Matches(Exec(ctx, fuel, OpCode(op), Mach(machine, log, [])), OpMeaning(ctx.host, op, locals, log), op, machine, locals, scratch, pc)
  {
    hide Exec, ConstCode, Agree, Assign, Wrapped;
    var words := if op.Iconst? then op.words else Repeat(op.is64, |op.dests|);
    var value := if op.Iconst? then op.value else 0;
    SameLength(machine, locals, scratch);
    ConstsRun(ctx, fuel, op.dests, words, value, Mach(machine, log, []));
    AssignsMatches(op, Constants(words, value), log, machine, locals, scratch, pc);
    assert op.Zero? ==> Constants(words, 0) == seq(|op.dests|, i => Wrapped(0, op.is64));
  }

  lemma ConvertMatches(ctx: Context, fuel: nat, op: Op, machine: seq<Val>, locals: seq<Val>, log: Log, scratch: set<nat>, pc: nat)
    requires op.Convert? && OpFits(op, |locals|, scratch, pc) && Agree(machine, locals, scratch) && (pc < |machine| ==> pc in scratch)
    ensures Matches(Exec(ctx, fuel, OpCode(op), Mach(machine, log, [])), OpMeaning(ctx.host, op, locals, log), op, machine, locals, scratch, pc)
  {
    hide Exec, Group, Agree, Assign, Converted, ConvCode;
    assert Dests(op)[0] == op.dest && Sources(op)[0] == op.src;
    var m := Mach(machine, log, []);
    SameLength(machine, locals, scratch);
    AgreeReads(machine, locals, scratch, [op.src]);
    var v := Reads(locals, [op.src])[0];
    assert Reads(machine, [op.src]) == [v];
    var r := Converted(op.conv, v);
    if r.Some? {
      ConvRuns(ctx, fuel, op.conv, v, m.(stack := [v]));
      GroupRuns(ctx, fuel, [op.src], ConvCode(op.conv), op.dest, m, r.value);
      SingleAssign(machine, op.dest, r.value);
      AssignsMatches(op, [r.value], log, machine, locals, scratch, pc);
    }
  }

  lemma ShiftMatches(ctx: Context, fuel: nat, op: Op, machine: seq<Val>, locals: seq<Val>, log: Log, scratch: set<nat>, pc: nat)
    requires op.WideShift? && OpFits(op, |locals|, scratch, pc) && Agree(machine, locals, scratch) && (pc < |machine| ==> pc in scratch)
    ensures Matches(Exec(ctx, fuel, OpCode(op), Mach(machine, log, [])), OpMeaning(ctx.host, op, locals, log), op, machine, locals, scratch, pc)
  {
    hide Exec, ShiftCode, Agree, Assign, ShiftedLimbs, CountInRange;
    ShiftSources(op, |locals|);
    ShiftApart(op, scratch);
    SameLength(machine, locals, scratch);
    AgreeReads(machine, locals, scratch, op.val);
    AgreeReads(machine, locals, scratch, op.shift);
    var xs, counts := Reads(locals, op.val), Reads(locals, op.shift);
    if AllTyped(xs, true) && AllTyped(counts, true) {
      var m := Mach(machine, log, []);
      assert machine[op.shift[0]] == counts[0] && Typed(counts[0], true);
      ShiftRuns(ctx, fuel, op.dests, op.val, op.shift, op.up, m);
      if CountInRange(counts, |op.dests|) {
        AssignsMatches(op, ShiftedLimbs(xs, Raw(counts[0]), op.up), log, machine, locals, scratch, pc);
      } else {
        AgreeReads(machine, locals, scratch, op.dests);
        AssignsMatches(op, Reads(locals, op.dests), log, machine, locals, scratch, pc);
        StoringBack(machine, op.dests);
      }
    }
  }

  lemma {:induction false} StoringBack(locals: seq<Val>, dests: seq<nat>)
    requires InRange(dests, |locals|)
    ensures Assign(locals, dests, Reads(locals, dests)) == locals
    decreases |dests|
  {
    if dests != [] {
      StoringBack(locals, dests[1..]);
      assert Reads(locals, dests)[1..] == Reads(locals, dests[1..]);
    }
  }

  lemma ShiftApart(op: Op, scratch: set<nat>)
    requires op.WideShift? && Apart(op.dests, Sources(op)) && Avoids(Sources(op), scratch) && |op.val| == |op.shift| > 0
    ensures Apart(op.dests, op.val) && Apart(op.dests, op.shift) && op.shift[0] !in op.dests
    ensures Avoids(op.val, scratch) && Avoids(op.shift, scratch)
  {
    var all := Sources(op);
    assert forall i | 0 <= i < |op.val| :: all[i] == op.val[i];
    assert forall i | 0 <= i < |op.shift| :: all[|op.val| + i] == op.shift[i];
    forall i | 0 <= i < |op.dests| ensures op.dests[i] !in op.val && op.dests[i] !in op.shift {
      assert op.dests[i] !in all;
    }
  }

  lemma SameLength(machine: seq<Val>, locals: seq<Val>, scratch: set<nat>)
    requires Agree(machine, locals, scratch)
    ensures |machine| == |locals|
  {
  }

  lemma CopyMatches(ctx: Context, fuel: nat, op: Op, machine: seq<Val>, locals: seq<Val>, log: Log, scratch: set<nat>, pc: nat)
    requires op.Copy? && OpFits(op, |locals|, scratch, pc) && Agree(machine, locals, scratch) && (pc < |machine| ==> pc in scratch)
    ensures Matches(Exec(ctx, fuel, OpCode(op), Mach(machine, log, [])), OpMeaning(ctx.host, op, locals, log), op, machine, locals, scratch, pc)
  {
    hide Exec, Group, Agree, Assign;
    assert Dests(op)[0] == op.dest && Sources(op)[0] == op.src;
    var m := Mach(machine, log, []);
    SameLength(machine, locals, scratch);
    AgreeReads(machine, locals, scratch, [op.src]);
    var v := Reads(locals, [op.src])[0];
    assert Reads(machine, [op.src]) == [v];
    ExecNothing(ctx, fuel, m.(stack := [v]));
    GroupRuns(ctx, fuel, [op.src], [], op.dest, m, v);
    SingleAssign(machine, op.dest, v);
    AssignsMatches(op, [v], log, machine, locals, scratch, pc);
  }

  lemma BinopMatches(ctx: Context, fuel: nat, op: Op, machine: seq<Val>, locals: seq<Val>, log: Log, scratch: set<nat>, pc: nat)
    requires op.Binop? && OpFits(op, |locals|, scratch, pc) && Agree(machine, locals, scratch) && (pc < |machine| ==> pc in scratch)
    ensures Matches(Exec(ctx, fuel, OpCode(op), Mach(machine, log, [])), OpMeaning(ctx.host, op, locals, log), op, machine, locals, scratch, pc)
  {
    hide Exec, Group, Agree, Assign, Arith, Wrapped;
    assert Dests(op)[0] == op.dest && Sources(op)[0] == op.lhs && Sources(op)[1] == op.rhs;
    var m := Mach(machine, log, []);
    SameLength(machine, locals, scratch);
    AgreeReads(machine, locals, scratch, [op.lhs, op.rhs]);
    var a, b := locals[op.lhs], locals[op.rhs];
    assert Reads(machine, [op.lhs, op.rhs]) == Reads(locals, [op.lhs, op.rhs]) == [a, b];
    if Typed(a, op.is64) && Typed(b, op.is64) {
      var r := Arith(op.kind, op.is64, Raw(a), Raw(b));
      PlainRuns(ctx, fuel, BinI(op.kind, op.is64), m.(stack := [a, b]));
      if r.None? {
        GroupTraps(ctx, fuel, [op.lhs, op.rhs], [Plain(BinI(op.kind, op.is64))], op.dest, m);
      } else {
        var v := Wrapped(r.value, op.is64);
        BinRuns(ctx, fuel, op.kind, op.is64, a, b, m.(stack := [a, b]));
        GroupRuns(ctx, fuel, [op.lhs, op.rhs], [Plain(BinI(op.kind, op.is64))], op.dest, m, v);
        SingleAssign(machine, op.dest, v);
        AssignsMatches(op, [v], log, machine, locals, scratch, pc);
      }
    }
  }

  lemma IcmpMatches(ctx: Context, fuel: nat, op: Op, machine: seq<Val>, locals: seq<Val>, log: Log, scratch: set<nat>, pc: nat)
    requires op.Icmp? && OpFits(op, |locals|, scratch, pc) && Agree(machine, locals, scratch) && (pc < |machine| ==> pc in scratch)
    ensures Matches(Exec(ctx, fuel, OpCode(op), Mach(machine, log, [])), OpMeaning(ctx.host, op, locals, log), op, machine, locals, scratch, pc)
  {
    hide Exec, Group, Agree, Assign, Compared;
    assert Dests(op)[0] == op.dest && Sources(op)[0] == op.lhs && Sources(op)[1] == op.rhs;
    var m := Mach(machine, log, []);
    SameLength(machine, locals, scratch);
    AgreeReads(machine, locals, scratch, [op.lhs, op.rhs]);
    var a, b := locals[op.lhs], locals[op.rhs];
    assert Reads(machine, [op.lhs, op.rhs]) == Reads(locals, [op.lhs, op.rhs]) == [a, b];
    if Typed(a, op.is64) && Typed(b, op.is64) {
      var v := Flag(Compared(op.pred, op.is64, Raw(a), Raw(b)));
      CmpRuns(ctx, fuel, op.pred, op.is64, a, b, m.(stack := [a, b]));
      GroupRuns(ctx, fuel, [op.lhs, op.rhs], [Plain(CmpI(op.pred, op.is64))], op.dest, m, v);
      SingleAssign(machine, op.dest, v);
      AssignsMatches(op, [v], log, machine, locals, scratch, pc);
    }
  }

  lemma {:induction false} SelectRuns(ctx: Context, fuel: nat, dests: seq<nat>, cond: nat, thens: seq<nat>, elses: seq<nat>, m: Mach)
    requires |dests| == |thens| == |elses| && m.stack == [] && cond < |m.locals| && m.locals[cond].V32?
    requires InRange(dests, |m.locals|) && InRange(thens, |m.locals|) && InRange(elses, |m.locals|)
    requires Unique(dests) && Apart(dests, thens) && Apart(dests, elses) && cond !in dests
    ensures Exec(ctx, fuel, SelectCode(dests, cond, thens, elses), m)
      == Normal(m.(locals := Assign(m.locals, dests, Reads(m.locals, if m.locals[cond].n != 0 then thens else elses))))
    decreases |dests|
  {
    hide Exec, Group, Assign;
    var chosen := if m.locals[cond].n != 0 then thens else elses;
    var vals := Reads(m.locals, chosen);
    if dests == [] {
      ExecNothing(ctx, fuel, m);
      NothingAssigned(m.locals, vals);
    } else {
      var a, b, c := m.locals[thens[0]], m.locals[elses[0]], m.locals[cond];
      var gets := [thens[0], elses[0], cond];
      assert Reads(m.locals, gets) == [a, b, c];
      var chosenVal := if c.n != 0 then a else b;
      PlainRuns(ctx, fuel, SelectI, m.(stack := [a, b, c]));
      assert Pop([a, b, c], 3) == [];
      GroupRuns(ctx, fuel, gets, [Plain(SelectI)], dests[0], m, chosenVal);
      var between := m.(locals := m.locals[dests[0] := chosenVal]);
      TailsApart(dests, thens, elses);
      SelectRuns(ctx, fuel, dests[1..], cond, thens[1..], elses[1..], between);
      ExecThen(ctx, fuel, Group(gets, [Plain(SelectI)], dests[0]), SelectCode(dests[1..], cond, thens[1..], elses[1..]), m, between);
      assert Reads(between.locals, chosen[1..]) == vals[1..];
      AssignFirst(m.locals, dests, vals);
    }
  }

  lemma TailsApart(dests: seq<nat>, thens: seq<nat>, elses: seq<nat>)
    requires |dests| == |thens| == |elses| > 0 && Unique(dests) && Apart(dests, thens) && Apart(dests, elses)
    ensures Unique(dests[1..]) && Apart(dests[1..], thens[1..]) && Apart(dests[1..], elses[1..])
    ensures dests[0] !in thens && dests[0] !in elses
  {
  }

  lemma SelectMatches(ctx: Context, fuel: nat, op: Op, machine: seq<Val>, locals: seq<Val>, log: Log, scratch: set<nat>, pc: nat)
    requires op.Select? && OpFits(op, |locals|, scratch, pc) && Agree(machine, locals, scratch) && (pc < |machine| ==> pc in scratch)
    ensures Matches(Exec(ctx, fuel, OpCode(op), Mach(machine, log, [])), OpMeaning(ctx.host, op, locals, log), op, machine, locals, scratch, pc)
  {
    hide Exec, SelectCode, Agree, Assign;
    SelectSources(op, |locals|);
    SelectApart(op, scratch);
    SameLength(machine, locals, scratch);
    AgreeReads(machine, locals, scratch, [op.cond]);
    AgreeReads(machine, locals, scratch, op.thens);
    AgreeReads(machine, locals, scratch, op.elses);
    assert Reads(machine, [op.cond])[0] == Reads(locals, [op.cond])[0];
    if locals[op.cond].V32? {
      SelectRuns(ctx, fuel, op.dests, op.cond, op.thens, op.elses, Mach(machine, log, []));
      AssignsMatches(op, Reads(locals, if locals[op.cond].n != 0 then op.thens else op.elses), log, machine, locals, scratch, pc);
    }
  }

  lemma SelectApart(op: Op, scratch: set<nat>)
    requires op.Select? && Apart(op.dests, Sources(op)) && Avoids(Sources(op), scratch)
    ensures Apart(op.dests, op.thens) && Apart(op.dests, op.elses) && op.cond !in op.dests
    ensures Avoids(op.thens, scratch) && Avoids(op.elses, scratch) && Avoids([op.cond], scratch)
  {
    var all := Sources(op);
    assert all[0] == op.cond;
    assert forall i | 0 <= i < |op.thens| :: all[1 + i] == op.thens[i];
    assert forall i | 0 <= i < |op.elses| :: all[1 + |op.thens| + i] == op.elses[i];
    forall i | 0 <= i < |op.dests| ensures op.dests[i] !in op.thens && op.dests[i] !in op.elses && op.dests[i] != op.cond {
      assert op.dests[i] !in all;
    }
  }

  lemma WideMatches(ctx: Context, fuel: nat, op: Op, machine: seq<Val>, locals: seq<Val>, log: Log, scratch: set<nat>, pc: nat)
    requires op.WideAddSub? && OpFits(op, |locals|, scratch, pc) && Agree(machine, locals, scratch) && (pc < |machine| ==> pc in scratch)
    ensures Matches(Exec(ctx, fuel, OpCode(op), Mach(machine, log, [])), OpMeaning(ctx.host, op, locals, log), op, machine, locals, scratch, pc)
  {
    hide Exec, Group, LimbsCode, Agree, Assign, WideNumber, ToLimbs, Pow2, LimbLocals, LimbsDone;
    WideSources(op, |locals|);
    WideApart(op, |locals|, scratch, pc);
    SameLength(machine, locals, scratch);
    AgreeReads(machine, locals, scratch, op.left);
    AgreeReads(machine, locals, scratch, op.right);
    var xs, ys := Reads(locals, op.left), Reads(locals, op.right);
    if AllTyped(xs, true) && AllTyped(ys, true) {
      var m := Mach(machine, log, []);
      PlainRuns(ctx, fuel, ConstI(false, 0), m);
      ZeroFlag();
      assert m.stack + [Flag(false)] == [Flag(false)] && Reads(machine, []) == [];
      GroupRuns(ctx, fuel, [], [Plain(ConstI(false, 0))], op.carry, m, Flag(false));
      var between := m.(locals := machine[op.carry := Flag(false)]);
      CarryUnread(op, machine, scratch);
      var final := LimbsRun(ctx, fuel, op.dests, op.left, op.right, op.subtract, op.carry, op.aux, between, false);
      ExecThen(ctx, fuel, Group([], [Plain(ConstI(false, 0))], op.carry),
        LimbsCode(op.dests, op.left, op.right, op.subtract, op.carry, op.aux), m, between);
      WideOutIsArithmetic(xs, ys, false, op.subtract);
      LimbsAgree(op, machine, locals, final.locals, scratch, pc, WideOut(xs, ys, false, op.subtract));
    }
  }

  lemma ZeroFlag()
    ensures Wrapped(0, false) == Flag(false)
  {
  }

  lemma CarryUnread(op: Op, machine: seq<Val>, scratch: set<nat>)
    requires op.WideAddSub? && op.carry < |machine| && op.carry in scratch
    requires InRange(op.left, |machine|) && InRange(op.right, |machine|) && Avoids(op.left, scratch) && Avoids(op.right, scratch)
    ensures Reads(machine[op.carry := Flag(false)], op.left) == Reads(machine, op.left)
    ensures Reads(machine[op.carry := Flag(false)], op.right) == Reads(machine, op.right)
  {
  }

  lemma WideApart(op: Op, n: nat, scratch: set<nat>, pc: nat)
    requires op.WideAddSub? && OpFits(op, n, scratch, pc)
    ensures LimbLocals(op.dests, op.left, op.right, op.carry, op.aux, n)
    ensures Avoids(op.left, scratch) && Avoids(op.right, scratch)
  {
    var all := Sources(op);
    assert forall i | 0 <= i < |op.left| :: all[i] == op.left[i];
    assert forall i | 0 <= i < |op.right| :: all[|op.left| + i] == op.right[i];
    forall i | 0 <= i < |op.dests| ensures op.dests[i] !in op.left && op.dests[i] !in op.right {
      assert op.dests[i] !in all;
    }
  }

  lemma LimbsAgree(op: Op, machine: seq<Val>, locals: seq<Val>, after: seq<Val>, scratch: set<nat>, pc: nat, out: (seq<Val>, bool))
    requires op.WideAddSub? && OpFits(op, |locals|, scratch, pc) && Agree(machine, locals, scratch) && (pc < |machine| ==> pc in scratch)
    requires LimbsDone(machine[op.carry := Flag(false)], after, op.dests, op.carry, op.aux, out)
    ensures Agree(after, Assign(locals, op.dests, out.0), scratch) && KeepsPc(machine, after, pc)
  {
    AssignSimultaneous(locals, op.dests, out.0);
    assert Dests(op) == op.dests;
    LimbsLookAlike(op.dests, op.carry, op.aux, machine, locals, after, Assign(locals, op.dests, out.0), scratch, pc, out);
  }

  lemma LimbsLookAlike(dests: seq<nat>, carry: nat, aux: nat, machine: seq<Val>, locals: seq<Val>, after: seq<Val>, stored: seq<Val>,
                       scratch: set<nat>, pc: nat, out: (seq<Val>, bool))
    requires Agree(machine, locals, scratch) && carry in scratch && aux in scratch && carry != pc && aux != pc
    requires (pc < |machine| ==> pc in scratch) && carry < |machine| && Avoids(dests, scratch) && |stored| == |locals|
    requires LimbsDone(machine[carry := Flag(false)], after, dests, carry, aux, out)
    requires forall i | 0 <= i < |dests| :: dests[i] < |stored| && stored[dests[i]] == out.0[i]
    requires forall x | 0 <= x < |locals| && x !in dests :: stored[x] == locals[x]
    ensures Agree(after, stored, scratch) && KeepsPc(machine, after, pc)
  {
    forall x: nat | x < |locals| && x !in scratch ensures after[x] == stored[x] {
      if x in dests {
        var i :| 0 <= i < |dests| && dests[i] == x;
      }
    }
  }

  lemma CallMatches(ctx: Context, fuel: nat, op: Op, machine: seq<Val>, locals: seq<Val>, log: Log, scratch: set<nat>, pc: nat)
    requires op.Call? && OpFits(op, |locals|, scratch, pc) && Agree(machine, locals, scratch) && (pc < |machine| ==> pc in scratch)
    ensures Matches(Exec(ctx, fuel, OpCode(op), Mach(machine, log, [])), OpMeaning(ctx.host, op, locals, log), op, machine, locals, scratch, pc)
  {
    hide Exec, Gets, Sets, Agree, Assign;
    var m := Mach(machine, log, []);
    SameLength(machine, locals, scratch);
    AgreeReads(machine, locals, scratch, op.args);
    var args := Reads(locals, op.args);
    GetsRun(ctx, fuel, op.args, m);
    assert m.stack + args == args && Top(args, |args|) == args && Pop(args, |args|) == [];
    var pushed := m.(stack := args);
    PlainRuns(ctx, fuel, CallI(op.func, |op.args|), pushed);
    ExecThen(ctx, fuel, Gets(op.args), [Plain(CallI(op.func, |op.args|))], m, pushed);
    var after := log + [Invocation(op.func, args)];
    var answer := ctx.host(after);
    var code := Gets(op.args) + [Plain(CallI(op.func, |op.args|))];
    if answer.None? {
      ExecEnds(ctx, fuel, code, Sets(op.dests), m);
    } else if |answer.value| == |op.dests| {
      var called := Mach(machine, after, [] + answer.value);
      ExecThen(ctx, fuel, code, Sets(op.dests), m, called);
      SetsRun(ctx, fuel, op.dests, answer.value, called, []);
      AssignsMatches(op, answer.value, after, machine, locals, scratch, pc);
    }
  }

  /** The code of an operation does what the operation means. */
  lemma OpMatches(ctx: Context, fuel: nat, op: Op, machine: seq<Val>, locals: seq<Val>, log: Log, scratch: set<nat>, pc: nat)
    requires Emittable(op) && OpFits(op, |locals|, scratch, pc) && Agree(machine, locals, scratch) && (pc < |machine| ==> pc in scratch)
    ensures Matches(Exec(ctx, fuel, OpCode(op), Mach(machine, log, [])), OpMeaning(ctx.host, op, locals, log), op, machine, locals, scratch, pc)
  {
    hide Exec, OpCode, OpMeaning, Matches, Agree;
    match op
    case Iconst(_, _, _) => ConstMatches(ctx, fuel, op, machine, locals, log, scratch, pc);
    case Zero(_, _) => ConstMatches(ctx, fuel, op, machine, locals, log, scratch, pc);
    case Copy(_, _) => CopyMatches(ctx, fuel, op, machine, locals, log, scratch, pc);
    case Convert(_, _, _) => ConvertMatches(ctx, fuel, op, machine, locals, log, scratch, pc);
    case Binop(_, _, _, _, _) => BinopMatches(ctx, fuel, op, machine, locals, log, scratch, pc);
    case Icmp(_, _, _, _, _) => IcmpMatches(ctx, fuel, op, machine, locals, log, scratch, pc);
    case Select(_, _, _, _) => SelectMatches(ctx, fuel, op, machine, locals, log, scratch, pc);
    case WideAddSub(_, _, _, _, _, _) => WideMatches(ctx, fuel, op, machine, locals, log, scratch, pc);
    case WideShift(_, _, _, _) => ShiftMatches(ctx, fuel, op, machine, locals, log, scratch, pc);
    case Call(_, _, _) => CallMatches(ctx, fuel, op, machine, locals, log, scratch, pc);
  }
}
