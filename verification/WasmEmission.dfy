/**
 Building a function and writing its code: local variables are handed out one after the other,
 operations are buffered per block, and lowering appends instructions to a flat stream.
 */
module WasmEmission {
  import opened Common
  import opened Numbers
  import opened WasmMachine
  import opened BlockProgram
  import opened WasmStraight
  import opened WasmLimbs
  import opened WasmConvert
  import opened WasmShift
  import opened WasmOps
  import opened WasmLowering

  // ---------------------------------------------------------------- the flat stream of straight-line code

  /** The flat stream of code made of plain instructions only. */
  function Tokens(code: seq<Instr>): seq<Token>
    requires forall i | 0 <= i < |code| :: code[i].Plain?
  {
    seq(|code|, i requires 0 <= i < |code| => PlainT(code[i].prim))
  }

  lemma {:induction false} FlatPlain(code: seq<Instr>)
    requires forall i | 0 <= i < |code| :: code[i].Plain?
    ensures Flat(code) == Tokens(code)
    decreases |code|
  {
    if code != [] {
      FlatPlain(code[1..]);
    }
  }

  lemma FlatThree(a: seq<Instr>, b: seq<Instr>, c: seq<Instr>)
    ensures Flat(a + b + c) == Flat(a) + Flat(b) + Flat(c)
  {
    hide Flat;
    FlatConcat(a, b);
    FlatConcat(a + b, c);
  }

  lemma PlainFlat(p: Prim)
    ensures Flat([Plain(p)]) == [PlainT(p)]
  {
    FlatSingle(Plain(p));
  }

  // ---------------------------------------------------------------- the function body

  class Function {
    var code: seq<Token>

    constructor ()
      ensures code == []
    {
      code := [];
    }

    method Emit(t: Token)
      modifies this
      ensures code == old(code) + [t]
    {
      code := code + [t];
    }

    method EmitGets(xs: seq<nat>)
      modifies this
      ensures code == old(code) + Flat(Gets(xs))
    {
      ghost var before := code;
      for i := 0 to |xs|
        invariant code == before + Tokens(Gets(xs[..i]))
      {
        Emit(PlainT(LocalGet(xs[i])));
        assert Tokens(Gets(xs[..i + 1])) == Tokens(Gets(xs[..i])) + [PlainT(LocalGet(xs[i]))];
      }
      assert xs[..|xs|] == xs;
      FlatPlain(Gets(xs));
    }

    /** The last local is set first. */
    method EmitSets(ds: seq<nat>)
      modifies this
      ensures code == old(code) + Flat(Sets(ds))
    {
      hide Flat;
      ghost var before := code;
      var i := |ds|;
      EmptyFlat();
      assert ds[|ds|..] == [];
      while i > 0
        invariant 0 <= i <= |ds| && code == before + Flat(Sets(ds[i..]))
      {
        i := i - 1;
        Emit(PlainT(LocalSet(ds[i])));
        assert ds[i..][1..] == ds[i + 1..];
        FlatConcat(Sets(ds[i + 1..]), [Plain(LocalSet(ds[i]))]);
        PlainFlat(LocalSet(ds[i]));
      }
      assert ds[0..] == ds;
    }

    method EmitPlain(prims: seq<Instr>)
      requires forall i | 0 <= i < |prims| :: prims[i].Plain?
      modifies this
      ensures code == old(code) + Flat(prims)
    {
      ghost var before := code;
      for i := 0 to |prims|
        invariant code == before + Tokens(prims)[..i]
      {
        Emit(PlainT(prims[i].prim));
      }
      FlatPlain(prims);
    }

    method EmitGroup(gets: seq<nat>, mid: seq<Instr>, dest: nat)
      requires forall i | 0 <= i < |mid| :: mid[i].Plain?
      modifies this
      ensures code == old(code) + Flat(Group(gets, mid, dest))
    {
      hide Flat, Gets;
      EmitGets(gets);
      EmitPlain(mid);
      Emit(PlainT(LocalSet(dest)));
      FlatThree(Gets(gets), mid, [Plain(LocalSet(dest))]);
      PlainFlat(LocalSet(dest));
    }

    method EmitLimb(dest: nat, lhs: nat, rhs: nat, subtract: bool, carry: nat, aux: nat)
      modifies this
      ensures code == old(code) + Flat(LimbCode(dest, lhs, rhs, subtract, carry, aux))
    {
      hide Flat, Group;
      var kind := if subtract then SubK else AddK;
      ghost var before := code;
      EmitGroup([lhs, rhs], [Plain(BinI(kind, true))], dest);
      EmitGroup(if subtract then [lhs, rhs] else [dest, lhs], [Plain(CmpI(Ult, true))], aux);
      FlatConcat(Group([lhs, rhs], [Plain(BinI(kind, true))], dest),
        Group(if subtract then [lhs, rhs] else [dest, lhs], [Plain(CmpI(Ult, true))], aux));
      assert code == before + Flat(PartialCode(dest, lhs, rhs, subtract, aux));
      ghost var middle := code;
      EmitGroup([dest, carry], [Plain(ExtendU), Plain(BinI(kind, true))], dest);
      EmitGroup([carry, dest], AgainCode(subtract), carry);
      EmitGroup([aux, carry], [Plain(BinI(OrK, false))], carry);
      FlatThree(Group([dest, carry], [Plain(ExtendU), Plain(BinI(kind, true))], dest), Group([carry, dest], AgainCode(subtract), carry),
        Group([aux, carry], [Plain(BinI(OrK, false))], carry));
      assert code == middle + Flat(FoldCode(dest, subtract, carry, aux));
      FlatConcat(PartialCode(dest, lhs, rhs, subtract, aux), FoldCode(dest, subtract, carry, aux));
    }

    method EmitLimbs(dests: seq<nat>, left: seq<nat>, right: seq<nat>, subtract: bool, carry: nat, aux: nat)
      requires |dests| == |left| == |right|
      modifies this
      ensures code == old(code) + Flat(LimbsCode(dests, left, right, subtract, carry, aux))
    {
      hide Flat, LimbCode;
      ghost var before := code;
      EmptyFlat();
      for i := 0 to |dests|
        invariant code + Flat(LimbsCode(dests[i..], left[i..], right[i..], subtract, carry, aux))
          == before + Flat(LimbsCode(dests, left, right, subtract, carry, aux))
      {
        ghost var rest := LimbsCode(dests[i + 1..], left[i + 1..], right[i + 1..], subtract, carry, aux);
        assert dests[i..][1..] == dests[i + 1..] && left[i..][1..] == left[i + 1..] && right[i..][1..] == right[i + 1..];
        FlatConcat(LimbCode(dests[i], left[i], right[i], subtract, carry, aux), rest);
        ghost var now := code;
        EmitLimb(dests[i], left[i], right[i], subtract, carry, aux);
        assert code + Flat(rest) == now + (Flat(LimbCode(dests[i], left[i], right[i], subtract, carry, aux)) + Flat(rest));
      }
    }

    method EmitSelects(dests: seq<nat>, cond: nat, thens: seq<nat>, elses: seq<nat>)
      requires |dests| == |thens| == |elses|
      modifies this
      ensures code == old(code) + Flat(SelectCode(dests, cond, thens, elses))
    {
      hide Flat, Group;
      ghost var before := code;
      EmptyFlat();
      for i := 0 to |dests|
        invariant code + Flat(SelectCode(dests[i..], cond, thens[i..], elses[i..])) == before + Flat(SelectCode(dests, cond, thens, elses))
      {
        ghost var rest := SelectCode(dests[i + 1..], cond, thens[i + 1..], elses[i + 1..]);
        assert dests[i..][1..] == dests[i + 1..] && thens[i..][1..] == thens[i + 1..] && elses[i..][1..] == elses[i + 1..];
        FlatConcat(Group([thens[i], elses[i], cond], [Plain(SelectI)], dests[i]), rest);
        ghost var now := code;
        EmitGroup([thens[i], elses[i], cond], [Plain(SelectI)], dests[i]);
        assert code + Flat(rest) == now + (Flat(Group([thens[i], elses[i], cond], [Plain(SelectI)], dests[i])) + Flat(rest));
      }
    }

    method EmitConsts(dests: seq<nat>, words: seq<bool>, value: int)
      requires |dests| == |words|
      modifies this
      ensures code == old(code) + Flat(ConstCode(dests, words, value))
    {
      hide Flat, Group;
      ghost var before := code;
      EmptyFlat();
      for i := 0 to |dests|
        invariant code + Flat(ConstCode(dests[i..], words[i..], if i == 0 then value else 0)) == before + Flat(ConstCode(dests, words, value))
      {
        ghost var rest := ConstCode(dests[i + 1..], words[i + 1..], 0);
        var v := if i == 0 then value else 0;
        assert dests[i..][1..] == dests[i + 1..] && words[i..][1..] == words[i + 1..];
        FlatConcat(Group([], [Plain(ConstI(words[i], v))], dests[i]), rest);
        ghost var now := code;
        EmitGroup([], [Plain(ConstI(words[i], v))], dests[i]);
        assert code + Flat(rest) == now + (Flat(Group([], [Plain(ConstI(words[i], v))], dests[i])) + Flat(rest));
      }
    }

    // -------------------------------------------------------------- shifts of limbs

    method EmitHigh(shift: seq<nat>)
      requires shift != []
      modifies this
      ensures code == old(code) + Flat(HighCode(shift, |shift|))
    {
      hide Flat, AndTest;
      ghost var before := code;
      Emit(PlainT(ConstI(false, 1)));
      PlainFlat(ConstI(false, 1));
      for i := 1 to |shift|
        invariant code == before + Flat(HighCode(shift, i))
      {
        PlainTests(shift[i], Eq, 0);
        EmitPlain(AndTest(shift[i], Eq, 0));
        FlatConcat(HighCode(shift, i), AndTest(shift[i], Eq, 0));
      }
    }

    method EmitOwn(dests: seq<nat>, val: seq<nat>, count: nat, up: bool, k: nat)
      requires |dests| == |val|
      modifies this
      ensures code == old(code) + Flat(OwnCode(dests, val, count, up, k, |dests|))
    {
      hide Flat, Group;
      ghost var before := code;
      EmptyFlat();
      for i := 0 to |dests|
        invariant code == before + Flat(OwnCode(dests, val, count, up, k, i))
      {
        var source := Source(i, k, |val|, up);
        if source.Some? {
          EmitGroup([val[source.value], count], [Plain(BinI(ShiftKind(up), true))], dests[i]);
          FlatConcat(OwnCode(dests, val, count, up, k, i), Group([val[source.value], count], [Plain(BinI(ShiftKind(up), true))], dests[i]));
        } else {
          EmitGroup([], [Plain(ConstI(true, 0))], dests[i]);
          FlatConcat(OwnCode(dests, val, count, up, k, i), Group([], [Plain(ConstI(true, 0))], dests[i]));
        }
      }
    }

    method EmitNext(dests: seq<nat>, val: seq<nat>, count: nat, up: bool, k: nat)
      requires |dests| == |val|
      modifies this
      ensures code == old(code) + Flat(NextCode(dests, val, count, up, k, |dests|))
    {
      hide Flat, Group;
      ghost var before := code;
      EmptyFlat();
      for i := 0 to |dests|
        invariant code == before + Flat(NextCode(dests, val, count, up, k, i))
      {
        var source := Source(i, k + 1, |val|, up);
        if source.Some? {
          EmitGroup([dests[i], val[source.value]], JoinCode(count, up), dests[i]);
          FlatConcat(NextCode(dests, val, count, up, k, i), Group([dests[i], val[source.value]], JoinCode(count, up), dests[i]));
        } else {
          FlatConcat(NextCode(dests, val, count, up, k, i), []);
        }
      }
    }

    /** One window of 64 counts, inside its guard. */
    method EmitWindow(dests: seq<nat>, val: seq<nat>, count: nat, up: bool, k: nat)
      requires |dests| == |val|
      modifies this
      ensures code == old(code) + Flat(WindowCode(dests, val, count, up, k))
    {
      hide Flat, OwnCode, NextCode, Test;
      EmitOwn(dests, val, count, up, k);
      PlainTests(count, Ne, 0);
      EmitPlain(Test(count, Ne, 0));
      Emit(IfT);
      EmitNext(dests, val, count, up, k);
      Emit(EndT);
      var own, next := OwnCode(dests, val, count, up, k, |dests|), NextCode(dests, val, count, up, k, |dests|);
      WhenFlat(next);
      FlatThree(own, Test(count, Ne, 0), [If(next, [])]);
    }

    method EmitWindows(dests: seq<nat>, val: seq<nat>, count: nat, up: bool)
      requires |dests| == |val|
      modifies this
      ensures code == old(code) + Flat(WindowsCode(dests, val, count, up, |dests|))
    {
      hide Flat, WindowCode, Test, AndTest;
      ghost var before := code;
      EmptyFlat();
      for k := 0 to |dests|
        invariant code == before + Flat(WindowsCode(dests, val, count, up, k))
      {
        PlainTests(count, Uge, 64 * k);
        PlainTests(count, Ult, 64 * (k + 1));
        EmitPlain(Test(count, Uge, 64 * k));
        EmitPlain(AndTest(count, Ult, 64 * (k + 1)));
        Emit(IfT);
        EmitWindow(dests, val, count, up, k);
        Emit(EndT);
        var a, b, c, d := WindowsCode(dests, val, count, up, k), Test(count, Uge, 64 * k), AndTest(count, Ult, 64 * (k + 1)),
                          [If(WindowCode(dests, val, count, up, k), [])];
        WhenFlat(WindowCode(dests, val, count, up, k));
        FlatThree(a, b, c);
        FlatConcat(a + b + c, d);
      }
    }

    method EmitShift(dests: seq<nat>, val: seq<nat>, shift: seq<nat>, up: bool)
      requires |dests| == |val| == |shift| > 0
      modifies this
      ensures code == old(code) + Flat(ShiftCode(dests, val, shift, up))
    {
      hide Flat, HighCode, AndTest, WindowsCode;
      EmitHigh(shift);
      PlainTests(shift[0], Ult, 64 * |dests|);
      EmitPlain(AndTest(shift[0], Ult, 64 * |dests|));
      Emit(IfT);
      EmitWindows(dests, val, shift[0], up);
      Emit(EndT);
      var windows := WindowsCode(dests, val, shift[0], up, |dests|);
      WhenFlat(windows);
      FlatThree(HighCode(shift, |shift|), AndTest(shift[0], Ult, 64 * |dests|), [If(windows, [])]);
    }

    // -------------------------------------------------------------- operations, exits, functions

    method EmitOp(op: Op)
      requires Emittable(op)
      modifies this
      ensures code == old(code) + Flat(OpCode(op))
    {
      hide Flat, Group, LimbsCode, SelectCode, ConstCode, ShiftCode, Gets, Sets;
      match op
      case Iconst(dests, words, value) => EmitConsts(dests, words, value);
      case Zero(dests, is64) => EmitConsts(dests, Repeat(is64, |dests|), 0);
      case Copy(dest, src) => EmitGroup([src], [], dest);
      case Convert(dest, src, conv) => EmitGroup([src], ConvCode(conv), dest);
      case Binop(dest, kind, lhs, rhs, is64) => EmitGroup([lhs, rhs], [Plain(BinI(kind, is64))], dest);
      case Icmp(dest, pred, lhs, rhs, is64) => EmitGroup([lhs, rhs], [Plain(CmpI(pred, is64))], dest);
      case Select(dests, cond, thens, elses) => EmitSelects(dests, cond, thens, elses);
      case WideShift(dests, val, shift, up) => EmitShift(dests, val, shift, up);
      case WideAddSub(dests, left, right, subtract, carry, aux) =>
        EmitGroup([], [Plain(ConstI(false, 0))], carry);
        EmitLimbs(dests, left, right, subtract, carry, aux);
        FlatConcat(Group([], [Plain(ConstI(false, 0))], carry), LimbsCode(dests, left, right, subtract, carry, aux));
      case Call(dests, func, args) =>
        EmitGets(args);
        Emit(PlainT(CallI(func, |args|)));
        EmitSets(dests);
        PlainFlat(CallI(func, |args|));
        FlatThree(Gets(args), [Plain(CallI(func, |args|))], Sets(dests));
    }

    /** Assign the target's parameters through the operand stack and set the program counter. */
    method EmitGoto(g: Goto, blocks: seq<BlockState>, pc: nat)
      requires g.target < |blocks|
      modifies this
      ensures code == old(code) + Flat(GotoCode(g, blocks, pc))
    {
      hide Flat, Gets, Sets;
      EmitGets(g.args);
      EmitSets(blocks[g.target].params);
      Emit(PlainT(ConstI(false, g.target)));
      Emit(PlainT(LocalSet(pc)));
      var a, b := Gets(g.args), Sets(blocks[g.target].params);
      FlatThree(a, b, [Plain(ConstI(false, g.target))]);
      FlatConcat(a + b + [Plain(ConstI(false, g.target))], [Plain(LocalSet(pc))]);
      PlainFlat(ConstI(false, g.target));
      PlainFlat(LocalSet(pc));
    }

    /** The comparison chain: one open `if` per case, closed together at the end. */
    method EmitTable(index: nat, is64: bool, cases: seq<Case>, fallback: Goto, blocks: seq<BlockState>, pc: nat)
      requires fallback.target < |blocks| && forall j | 0 <= j < |cases| :: cases[j].goto.target < |blocks|
      modifies this
      ensures code == old(code) + Flat(TableCode(index, is64, cases, fallback, blocks, pc, 0))
    {
      hide Flat, GotoCode;
      ghost var before := code;
      ghost var whole := Flat(TableCode(index, is64, cases, fallback, blocks, pc, 0));
      for i := 0 to |cases|
        invariant code + Flat(TableCode(index, is64, cases, fallback, blocks, pc, i)) + Ends(i) == before + whole
      {
        ghost var now := code;
        Emit(PlainT(LocalGet(index)));
        Emit(PlainT(ConstI(is64, cases[i].key)));
        Emit(PlainT(CmpI(Eq, is64)));
        Emit(IfT);
        EmitGoto(cases[i].goto, blocks, pc);
        Emit(ElseT);
        OpenCase(index, is64, cases, fallback, blocks, pc, i, now, code);
      }
      EmitGoto(fallback, blocks, pc);
      for i := 0 to |cases|
        invariant code + Ends(|cases| - i) == before + whole
      {
        Emit(EndT);
        MoreEnds(|cases| - i - 1);
      }
    }

    method EmitTerminator(e: Exit, blocks: seq<BlockState>, pc: nat, depth: nat)
      requires GotosIn(e, |blocks|)
      modifies this
      ensures code == old(code) + Flat(ExitCode(e, blocks, pc, depth))
    {
      hide Flat, GotoCode, Gets, TableCode;
      FlatSingle(WasmMachine.Br(depth));
      match e
      case Ret(vals) =>
        EmitGets(vals);
        Emit(ReturnT);
        FlatSingle(WasmMachine.Return);
        FlatConcat(Gets(vals), [WasmMachine.Return]);
      case Jump(g) =>
        EmitGoto(g, blocks, pc);
        Emit(BrT(depth));
        FlatConcat(GotoCode(g, blocks, pc), [WasmMachine.Br(depth)]);
      case BranchTo(cond, g, h) =>
        Emit(PlainT(LocalGet(cond)));
        Emit(IfT);
        EmitGoto(g, blocks, pc);
        Emit(ElseT);
        EmitGoto(h, blocks, pc);
        Emit(EndT);
        Emit(BrT(depth));
        var conditional := If(GotoCode(g, blocks, pc), GotoCode(h, blocks, pc));
        PlainFlat(LocalGet(cond));
        GotoWrites(h, blocks, pc);
        EitherFlat(GotoCode(g, blocks, pc), GotoCode(h, blocks, pc));
        FlatThree([Plain(LocalGet(cond))], [conditional], [WasmMachine.Br(depth)]);
      case Table(index, is64, cases, fallback) =>
        EmitTable(index, is64, cases, fallback, blocks, pc);
        Emit(BrT(depth));
        FlatConcat(TableCode(index, is64, cases, fallback, blocks, pc, 0), [WasmMachine.Br(depth)]);
    }

    method EmitBlock(blocks: seq<BlockState>, pc: nat, k: nat)
      requires k < |blocks| && BlocksEmittable(blocks)
      modifies this
      ensures code == old(code) + Flat(BlockCode(blocks, pc, k))
    {
      hide Flat, OpCode, OpsCode, ExitCode;
      var block := blocks[k];
      EmitOps(block.ops);
      ghost var tail := if block.exit.Some? then ExitCode(block.exit.value, blocks, pc, |blocks| - k) else [WasmMachine.Unreachable];
      if block.exit.Some? {
        EmitTerminator(block.exit.value, blocks, pc, |blocks| - k);
      } else {
        Emit(UnreachableT);
        FlatSingle(WasmMachine.Unreachable);
      }
      FlatConcat(OpsCode(block.ops, |block.ops|), tail);
    }

    /** The operations of the only block, one after the other. */
    method EmitOps(ops: seq<Op>)
      requires forall i | 0 <= i < |ops| :: Emittable(ops[i])
      modifies this
      ensures code == old(code) + Flat(OpsCode(ops, |ops|))
    {
      hide Flat, OpCode, Emittable;
      ghost var before := code;
      EmptyFlat();
      for i := 0 to |ops|
        invariant code == before + Flat(OpsCode(ops, i))
      {
        EmitOp(ops[i]);
        FlatConcat(OpsCode(ops, i), OpCode(ops[i]));
      }
    }

    method LowerSingle(block: BlockState)
      requires SingleEmittable(block)
      modifies this
      ensures code == old(code) + Flat(SingleCode(block))
    {
      hide Flat, OpsCode, Gets;
      EmitOps(block.ops);
      if block.exit.Some? {
        EmitGets(block.exit.value.vals);
        Emit(ReturnT);
        FlatSingle(WasmMachine.Return);
        FlatConcat(Gets(block.exit.value.vals), [WasmMachine.Return]);
        FlatConcat(OpsCode(block.ops, |block.ops|), Gets(block.exit.value.vals) + [WasmMachine.Return]);
      } else {
        EmptyFlat();
        FlatConcat(OpsCode(block.ops, |block.ops|), []);
      }
    }

    /** The loop around nested blocks and a branch table. */
    method LowerFunction(blocks: seq<BlockState>, pc: nat)
      requires BlocksEmittable(blocks)
      modifies this
      ensures code == old(code) + Flat(FunctionCode(blocks, pc))
    {
      hide Flat, BlockCode, DispatchCode, FunctionCode, BlocksEmittable;
      var n := |blocks|;
      ghost var before := code;
      Emit(PlainT(ConstI(false, 0)));
      Emit(PlainT(LocalSet(pc)));
      Emit(LoopT);
      Emit(BlockT);
      ghost var prefix := code;
      for i := 0 to n
        invariant code == prefix + Opens(i)
      {
        Emit(BlockT);
        MoreOpens(i);
      }
      var targets := seq(n, i requires 0 <= i => i);
      Emit(PlainT(LocalGet(pc)));
      Emit(BrTableT(targets, n));
      TableFlat(blocks, pc);
      for k := 0 to n
        invariant code == prefix + Opens(n - k) + Flat(DispatchCode(blocks, pc, k))
      {
        Emit(EndT);
        MoreOpens(n - k - 1);
        DispatchFlat(blocks, pc, k);
        EmitBlock(blocks, pc, k);
        assert code == prefix + Opens(n - k - 1) + Flat(DispatchCode(blocks, pc, k + 1));
      }
      Emit(EndT);
      Emit(UnreachableT);
      Emit(EndT);
      Emit(UnreachableT);
      Closed(blocks, pc, before);
    }
  }

  lemma PlainTests(local: nat, pred: Pred, k: int)
    ensures forall i | 0 <= i < |AndTest(local, pred, k)| :: AndTest(local, pred, k)[i].Plain?
    ensures forall i | 0 <= i < |Test(local, pred, k)| :: Test(local, pred, k)[i].Plain?
  {
  }

  lemma WhenFlat(body: seq<Instr>)
    ensures Flat([If(body, [])]) == [IfT] + Flat(body) + [EndT]
  {
    FlatSingle(If(body, []));
  }

  lemma EitherFlat(a: seq<Instr>, b: seq<Instr>)
    requires b != []
    ensures Flat([If(a, b)]) == [IfT] + Flat(a) + [ElseT] + Flat(b) + [EndT]
  {
    hide Flat;
    FlatSingle(If(a, b));
  }

  lemma GotoWrites(g: Goto, blocks: seq<BlockState>, pc: nat)
    requires g.target < |blocks|
    ensures GotoCode(g, blocks, pc) != []
  {
  }

  lemma TableWrites(index: nat, is64: bool, cases: seq<Case>, fallback: Goto, blocks: seq<BlockState>, pc: nat, i: nat)
    requires i <= |cases| && fallback.target < |blocks| && forall j | 0 <= j < |cases| :: cases[j].goto.target < |blocks|
    ensures TableCode(index, is64, cases, fallback, blocks, pc, i) != []
  {
    GotoWrites(fallback, blocks, pc);
  }

  lemma EmptyFlat()
    ensures Flat([]) == []
  {
  }

  function Opens(n: nat): (r: seq<Token>)
    ensures |r| == n
  {
    seq(n, i requires 0 <= i => BlockT)
  }

  lemma MoreOpens(n: nat)
    ensures Opens(n + 1) == Opens(n) + [BlockT]
  {
  }

  function Ends(n: nat): (r: seq<Token>)
    ensures |r| == n
  {
    seq(n, i requires 0 <= i => EndT)
  }

  lemma MoreEnds(n: nat)
    ensures Ends(n + 1) == [EndT] + Ends(n)
  {
  }

  /** Case `i` opened, the rest of the chain goes inside its else arm. */
  lemma OpenCase(index: nat, is64: bool, cases: seq<Case>, fallback: Goto, blocks: seq<BlockState>, pc: nat, i: nat,
                 now: seq<Token>, after: seq<Token>)
    requires i < |cases| && fallback.target < |blocks| && forall j | 0 <= j < |cases| :: cases[j].goto.target < |blocks|
    requires after == now + [PlainT(LocalGet(index))] + [PlainT(ConstI(is64, cases[i].key))] + [PlainT(CmpI(Eq, is64))] + [IfT]
      + Flat(GotoCode(cases[i].goto, blocks, pc)) + [ElseT]
    ensures after + Flat(TableCode(index, is64, cases, fallback, blocks, pc, i + 1)) + Ends(i + 1)
      == now + Flat(TableCode(index, is64, cases, fallback, blocks, pc, i)) + Ends(i)
  {
    hide Flat, GotoCode;
    var rest := TableCode(index, is64, cases, fallback, blocks, pc, i + 1);
    var conditional := If(GotoCode(cases[i].goto, blocks, pc), rest);
    var a, b, c := [Plain(LocalGet(index))], [Plain(ConstI(is64, cases[i].key))], [Plain(CmpI(Eq, is64))];
    FlatThree(a, b, c);
    FlatConcat(a + b + c, [conditional]);
    TableWrites(index, is64, cases, fallback, blocks, pc, i + 1);
    EitherFlat(GotoCode(cases[i].goto, blocks, pc), rest);
    PlainFlat(LocalGet(index));
    PlainFlat(ConstI(is64, cases[i].key));
    PlainFlat(CmpI(Eq, is64));
    MoreEnds(i);
  }

  /** The innermost code selects a body by the program counter. */
  lemma TableFlat(blocks: seq<BlockState>, pc: nat)
    requires BlocksEmittable(blocks)
    ensures Flat(DispatchCode(blocks, pc, 0)) == [PlainT(LocalGet(pc))] + [BrTableT(seq(|blocks|, i requires 0 <= i => i), |blocks|)]
  {
    var table := BrTable(seq(|blocks|, i requires 0 <= i => i), |blocks|);
    hide Flat;
    PlainFlat(LocalGet(pc));
    FlatSingle(table);
    FlatConcat([Plain(LocalGet(pc))], [table]);
  }

  /** One label closed, and the body behind it. */
  lemma DispatchFlat(blocks: seq<BlockState>, pc: nat, k: nat)
    requires BlocksEmittable(blocks) && k < |blocks|
    ensures Flat(DispatchCode(blocks, pc, k + 1)) == [BlockT] + Flat(DispatchCode(blocks, pc, k)) + [EndT] + Flat(BlockCode(blocks, pc, k))
  {
    hide Flat, BlockCode;
    FlatSingle(Block(DispatchCode(blocks, pc, k)));
    FlatConcat([Block(DispatchCode(blocks, pc, k))], BlockCode(blocks, pc, k));
  }

  /** All bodies written, the two outer labels closed. */
  lemma Closed(blocks: seq<BlockState>, pc: nat, before: seq<Token>)
    requires BlocksEmittable(blocks)
    ensures before + [PlainT(ConstI(false, 0))] + [PlainT(LocalSet(pc))] + [LoopT] + [BlockT] + Opens(0)
        + Flat(DispatchCode(blocks, pc, |blocks|)) + [EndT] + [UnreachableT] + [EndT] + [UnreachableT]
      == before + Flat(FunctionCode(blocks, pc))
  {
    hide Flat, DispatchCode;
    var inner := Block(DispatchCode(blocks, pc, |blocks|));
    var dispatch := Loop(LoopBody(blocks, pc));
    FlatSingle(inner);
    FlatSingle(WasmMachine.Unreachable);
    FlatConcat([inner], [WasmMachine.Unreachable]);
    FlatSingle(dispatch);
    PlainFlat(ConstI(false, 0));
    PlainFlat(LocalSet(pc));
    FlatThree([Plain(ConstI(false, 0))], [Plain(LocalSet(pc))], [dispatch]);
    FlatConcat([Plain(ConstI(false, 0))] + [Plain(LocalSet(pc))] + [dispatch], [WasmMachine.Unreachable]);
  }
}
