/**
 Writing a block as Bristol Fashion text, and why reading and importing that text gives the block back.
 */
module BristolExport {
  import opened Common
  import opened Numerals
  import opened BristolText
  import opened Bristol

  // ---------------------------------------------------------------- valid blocks

  function Operands(s: Stmt): seq<nat> {
    match s
    case And(a, b) => [a, b]
    case Or(a, b) => [a, b]
    case Xor(a, b) => [a, b]
    case Not(v) => [v]
    case _ => []
  }

  predicate StmtOk(b: Block, i: nat)
    requires i < |b.stmts|
  {
    !b.stmts[i].Storage? && forall v | v in Operands(b.stmts[i]) :: v < b.params + i
  }

  /** Statements use only earlier values, outputs only defined ones, and all identifiers fit 32 bits. */
  predicate ValidBlock(b: Block) {
    && b.params + |b.stmts| < U32
    && (forall i | 0 <= i < |b.stmts| :: StmtOk(b, i))
    && (forall v | v in b.outputs :: v < b.params + |b.stmts|)
  }

  /** A program: its blocks, whether each returns, and whether storage is initialized. */
  datatype Program = Program(blocks: seq<Block>, isReturn: bool, preInit: bool)

  /** The checks before either conversion. */
  method Validate(p: Program) returns (r: Result<Block>)
    ensures r.Ok? <==> |p.blocks| == 1 && !p.preInit && p.isReturn && ValidBlock(p.blocks[0])
    ensures r.Ok? ==> r.value == p.blocks[0]
  {
    if |p.blocks| != 1 || p.preInit || !p.isReturn {
      return Err(BadBlock);
    }
    var b := p.blocks[0];
    for index := 0 to |b.stmts|
      invariant index > 0 ==> b.params + index - 1 < U32
      invariant forall i | 0 <= i < index :: StmtOk(b, i)
    {
      if b.params + index >= U32 || !StmtOk(b, index) {
        return Err(if b.params + index >= U32 then VarSpaceOverflow else BadBlock);
      }
    }
    if b.params + |b.stmts| >= U32 {
      return Err(VarSpaceOverflow);
    }
    for j := 0 to |b.outputs|
      invariant forall i | 0 <= i < j :: b.outputs[i] < b.params + |b.stmts|
    {
      if b.outputs[j] >= b.params + |b.stmts| {
        assert b.outputs[j] in b.outputs;
        return Err(BadBlock);
      }
    }
    r := Ok(b);
  }

  // ---------------------------------------------------------------- the gates of a block

  /** Gates so far, the wire of each statement, and the next unused wire. */
  datatype Emission = Emission(gates: seq<Gate>, wires: seq<nat>, next: nat)

  function WireFor(params: nat, wires: seq<nat>, v: nat): nat {
    if v < params then v else if v - params < |wires| then wires[v - params] else 0
  }

  function Out(e: Emission, g: Gate): Emission {
    Emission(e.gates + [g], e.wires + [e.next], e.next + 1)
  }

  function EmitStmt(params: nat, e: Emission, s: Stmt): Emission {
    match s
    case Zero => Out(e, GConst(false, e.next))
    case One => Out(e, GConst(true, e.next))
    case And(a, b) => Out(e, GAnd(WireFor(params, e.wires, a), WireFor(params, e.wires, b), e.next))
    case Xor(a, b) => Out(e, GXor(WireFor(params, e.wires, a), WireFor(params, e.wires, b), e.next))
    case Not(v) => Out(e, GNot(WireFor(params, e.wires, v), e.next))
    case Or(a, b) =>
      var x, y := WireFor(params, e.wires, a), WireFor(params, e.wires, b);
      Emission(e.gates + [GAnd(x, y, e.next), GXor(x, y, e.next + 1), GXor(e.next, e.next + 1, e.next + 2)], e.wires + [e.next + 2], e.next + 3)
    case Storage => e
  }

  function EmitStmts(b: Block, n: nat): Emission
    requires n <= |b.stmts|
  {
    if n == 0 then Emission([], [], b.params) else EmitStmt(b.params, EmitStmts(b, n - 1), b.stmts[n - 1])
  }

  /** Outputs are copied to the highest wires. */
  function EmitOutputs(b: Block, n: nat): Emission
    requires n <= |b.outputs|
  {
    if n == 0 then EmitStmts(b, |b.stmts|)
    else
      var e := EmitOutputs(b, n - 1);
      Emission(e.gates + [GCopy(WireFor(b.params, e.wires, b.outputs[n - 1]), e.next)], e.wires, e.next + 1)
  }

  datatype Layout = Layout(inputGroups: seq<nat>, outputGroups: seq<nat>)

  function EmitCircuit(b: Block, io: Layout): Circuit {
    var e := EmitOutputs(b, |b.outputs|);
    Circuit(e.next, io.inputGroups, io.outputGroups, e.gates)
  }

  predicate LayoutFits(b: Block, io: Layout) {
    Total(io.inputGroups) == b.params && Total(io.outputGroups) == |b.outputs|
  }

  // ---------------------------------------------------------------- every gate assigns the next wire

  /** Gate `k` assigns wire `params + k` and reads lower ones. */
  ghost predicate Fresh(gates: seq<Gate>, params: nat) {
    forall k: nat | k < |gates| :: FreshGate(gates[k], params + k)
  }

  predicate FreshGate(g: Gate, out: nat) {
    !g.GBatch? && GateOutputs(g) == [out] && forall w | w in GateInputs(g) :: w < out
  }

  ghost predicate EmissionOk(b: Block, e: Emission, n: nat) {
    && |e.wires| == n && e.next == b.params + |e.gates| && Fresh(e.gates, b.params)
    && forall i | 0 <= i < n :: e.wires[i] < e.next
  }

  lemma FreshSnoc(gates: seq<Gate>, params: nat, g: Gate)
    requires Fresh(gates, params) && FreshGate(g, params + |gates|)
    ensures Fresh(gates + [g], params)
  {
    hide FreshGate;
  }

  lemma WireBound(b: Block, e: Emission, n: nat, v: nat)
    requires EmissionOk(b, e, n) && v < b.params + n
    ensures WireFor(b.params, e.wires, v) < e.next
  {
    hide Fresh;
  }

  lemma {:induction false} StmtsOk(b: Block, n: nat)
    requires ValidBlock(b) && n <= |b.stmts|
    ensures EmissionOk(b, EmitStmts(b, n), n)
    decreases n
  {
    hide Fresh, ValidBlock;
    if n == 0 {
      NoGates(b.params);
    } else {
      StmtsOk(b, n - 1);
      StmtStep(b, EmitStmts(b, n - 1), n - 1);
    }
  }

  lemma NoGates(params: nat)
    ensures Fresh([], params)
  {
  }

  lemma StmtStep(b: Block, e: Emission, i: nat)
    requires ValidBlock(b) && i < |b.stmts| && EmissionOk(b, e, i)
    ensures EmissionOk(b, EmitStmt(b.params, e, b.stmts[i]), i + 1)
  {
    hide Fresh;
    var s := b.stmts[i];
    assert StmtOk(b, i);
    forall v | v in Operands(s) ensures WireFor(b.params, e.wires, v) < e.next {
      WireBound(b, e, i, v);
    }
    match s
    case Zero => FreshSnoc(e.gates, b.params, GConst(false, e.next));
    case One => FreshSnoc(e.gates, b.params, GConst(true, e.next));
    case And(x, y) =>
      assert x in Operands(s) && y in Operands(s);
      FreshSnoc(e.gates, b.params, GAnd(WireFor(b.params, e.wires, x), WireFor(b.params, e.wires, y), e.next));
    case Xor(x, y) =>
      assert x in Operands(s) && y in Operands(s);
      FreshSnoc(e.gates, b.params, GXor(WireFor(b.params, e.wires, x), WireFor(b.params, e.wires, y), e.next));
    case Not(v) =>
      assert v in Operands(s);
      FreshSnoc(e.gates, b.params, GNot(WireFor(b.params, e.wires, v), e.next));
    case Or(x, y) =>
      assert x in Operands(s) && y in Operands(s);
      var g, h := GAnd(WireFor(b.params, e.wires, x), WireFor(b.params, e.wires, y), e.next),
        GXor(WireFor(b.params, e.wires, x), WireFor(b.params, e.wires, y), e.next + 1);
      var j := GXor(e.next, e.next + 1, e.next + 2);
      FreshSnoc(e.gates, b.params, g);
      FreshSnoc(e.gates + [g], b.params, h);
      FreshSnoc(e.gates + [g] + [h], b.params, j);
      assert e.gates + [g, h, j] == e.gates + [g] + [h] + [j];
  }

  lemma {:induction false} OutputsOk(b: Block, n: nat)
    requires ValidBlock(b) && n <= |b.outputs|
    ensures EmissionOk(b, EmitOutputs(b, n), |b.stmts|) && EmitOutputs(b, n).wires == EmitStmts(b, |b.stmts|).wires
    ensures |EmitOutputs(b, n).gates| == |EmitStmts(b, |b.stmts|).gates| + n
    decreases n
  {
    hide Fresh, EmitStmts;
    StmtsOk(b, |b.stmts|);
    if n > 0 {
      OutputsOk(b, n - 1);
      var e := EmitOutputs(b, n - 1);
      assert b.outputs[n - 1] in b.outputs;
      WireBound(b, e, |b.stmts|, b.outputs[n - 1]);
      FreshSnoc(e.gates, b.params, GCopy(WireFor(b.params, e.wires, b.outputs[n - 1]), e.next));
    }
  }

  lemma {:induction false} FreshProduced(gates: seq<Gate>, params: nat, n: nat)
    requires Fresh(gates, params) && n <= |gates|
    ensures forall w: nat :: w in Produced(gates, n) <==> params <= w < params + n
    decreases n
  {
    hide Fresh;
    if n > 0 {
      FreshProduced(gates, params, n - 1);
      OneOutput(gates, params, n - 1);
    }
  }

  lemma OneOutput(gates: seq<Gate>, params: nat, k: nat)
    requires Fresh(gates, params) && k < |gates|
    ensures FreshGate(gates[k], params + k) && AsSet(GateOutputs(gates[k])) == {params + k}
  {
  }

  /** The emitted circuit is one the reader accepts. */
  lemma EmittedWf(b: Block, io: Layout)
    requires ValidBlock(b) && LayoutFits(b, io) && EmitCircuit(b, io).wireCount < USIZE
    ensures WfCircuit(EmitCircuit(b, io)) && Fresh(EmitCircuit(b, io).gates, b.params)
    ensures EmitCircuit(b, io).wireCount == b.params + |EmitCircuit(b, io).gates|
  {
    hide Fresh, EmitOutputs, EmitStmts, Total, Produced, GateOutputs, GateInputs;
    OutputsOk(b, |b.outputs|);
    var c := EmitCircuit(b, io);
    forall k: nat | k < |c.gates| ensures GateFits(c.gates[k], c.wireCount) && ReadsDefined(c, k) {
      OneOutput(c.gates, b.params, k);
      FreshProduced(c.gates, b.params, k);
    }
    FreshProduced(c.gates, b.params, |c.gates|);
  }

  // ---------------------------------------------------------------- what the emitted circuit computes

  lemma {:induction false} RunPrefix(gates: seq<Gate>, g: Gate, n: nat, inputs: seq<bool>)
    requires n <= |gates|
    ensures RunGates(gates + [g], n, inputs) == RunGates(gates, n, inputs)
    decreases n
  {
    hide StepGate;
    if n > 0 {
      RunPrefix(gates, g, n - 1, inputs);
    }
  }

  /** The registers after all gates. */
  function Final(gates: seq<Gate>, inputs: seq<bool>): Registers {
    RunGates(gates, |gates|, inputs)
  }

  lemma FinalSnoc(gates: seq<Gate>, g: Gate, inputs: seq<bool>)
    ensures Final(gates + [g], inputs) == StepGate(Final(gates, inputs), g)
  {
    hide StepGate;
    RunPrefix(gates, g, |gates|, inputs);
  }

  /** A gate that assigns one wire leaves the others alone. */
  lemma StepOther(regs: Registers, g: Gate, out: nat, w: nat)
    requires FreshGate(g, out) && w != out
    ensures Reg(StepGate(regs, g), w) == Reg(regs, w)
  {
    match g
    case GAnd(_, _, o) => assert GateOutputs(g)[0] == o;
    case GXor(_, _, o) => assert GateOutputs(g)[0] == o;
    case GNot(_, o) => assert GateOutputs(g)[0] == o;
    case GConst(_, o) => assert GateOutputs(g)[0] == o;
    case GCopy(_, o) => assert GateOutputs(g)[0] == o;
  }

  lemma {:induction false} InputsStay(gates: seq<Gate>, n: nat, inputs: seq<bool>, v: nat)
    requires Fresh(gates, |inputs|) && n <= |gates| && v < |inputs|
    ensures Reg(RunGates(gates, n, inputs), v) == inputs[v]
    decreases n
  {
    hide StepGate, FreshGate;
    if n > 0 {
      InputsStay(gates, n - 1, inputs, v);
      StepOther(RunGates(gates, n - 1, inputs), gates[n - 1], |inputs| + n - 1, v);
    }
  }

  /** The wire of every value so far holds that value. */
  ghost predicate Carries(b: Block, e: Emission, n: nat, inputs: seq<bool>)
    requires n <= |b.stmts|
  {
    forall v: nat {:trigger WireFor(b.params, e.wires, v)} | v < b.params + n ::
      Reg(Final(e.gates, inputs), WireFor(b.params, e.wires, v)) == ValueOf(EvalStmts(b.stmts, n, inputs), v)
  }

  lemma CarriedValue(b: Block, e: Emission, n: nat, inputs: seq<bool>, v: nat)
    requires n <= |b.stmts| && Carries(b, e, n, inputs) && v < b.params + n
    ensures Reg(Final(e.gates, inputs), WireFor(b.params, e.wires, v)) == ValueOf(EvalStmts(b.stmts, n, inputs), v)
  {
    hide Final, WireFor, EvalStmts, ValueOf, Reg;
  }

  /** New gates on new wires leave the values of old wires alone. */
  lemma OldWire(gates: seq<Gate>, g: Gate, params: nat, inputs: seq<bool>, w: nat)
    requires FreshGate(g, params + |gates|) && w < params + |gates|
    ensures Reg(Final(gates + [g], inputs), w) == Reg(Final(gates, inputs), w)
  {
    hide StepGate, FreshGate, RunGates;
    FinalSnoc(gates, g, inputs);
    StepOther(Final(gates, inputs), g, params + |gates|, w);
  }

  /** One statement emitted as one gate. */
  lemma OutCarries(b: Block, e: Emission, i: nat, g: Gate, inputs: seq<bool>)
    requires i < |b.stmts| && EmissionOk(b, e, i) && |inputs| == b.params && Carries(b, e, i, inputs) && FreshGate(g, e.next)
    requires Reg(StepGate(Final(e.gates, inputs), g), e.next) == EvalStmt(b.stmts[i], EvalStmts(b.stmts, i, inputs))
    ensures Carries(b, Out(e, g), i + 1, inputs)
  {
    hide Final, StepGate, EvalStmt, Fresh, FreshGate;
    var next := Out(e, g);
    var env := EvalStmts(b.stmts, i, inputs);
    FinalSnoc(e.gates, g, inputs);
    forall v: nat {:trigger WireFor(b.params, next.wires, v)} | v < b.params + i + 1
      ensures Reg(Final(next.gates, inputs), WireFor(b.params, next.wires, v)) == ValueOf(EvalStmts(b.stmts, i + 1, inputs), v)
    {
      if v < b.params + i {
        assert WireFor(b.params, next.wires, v) == WireFor(b.params, e.wires, v);
        WireBound(b, e, i, v);
        OldWire(e.gates, g, b.params, inputs, WireFor(b.params, e.wires, v));
        CarriedValue(b, e, i, inputs, v);
      }
    }
  }

  lemma OrCarries(b: Block, e: Emission, i: nat, inputs: seq<bool>)
    requires ValidBlock(b) && i < |b.stmts| && b.stmts[i].Or? && EmissionOk(b, e, i) && |inputs| == b.params && Carries(b, e, i, inputs)
    ensures Carries(b, EmitStmt(b.params, e, b.stmts[i]), i + 1, inputs)
  {
    hide Final, Fresh, EvalStmts, ValidBlock;
    var s := b.stmts[i];
    OrOperands(b, i);
    WireBound(b, e, i, s.a);
    WireBound(b, e, i, s.b);
    CarriedValue(b, e, i, inputs, s.a);
    CarriedValue(b, e, i, inputs, s.b);
    var x, y := WireFor(b.params, e.wires, s.a), WireFor(b.params, e.wires, s.b);
    var g, h, j := GAnd(x, y, e.next), GXor(x, y, e.next + 1), GXor(e.next, e.next + 1, e.next + 2);
    var next := EmitStmt(b.params, e, s);
    assert next.gates == e.gates + [g] + [h] + [j];
    FinalSnoc(e.gates, g, inputs);
    FinalSnoc(e.gates + [g], h, inputs);
    FinalSnoc(e.gates + [g] + [h], j, inputs);
    var r0, r1 := Final(e.gates, inputs), Final(e.gates + [g], inputs);
    var r2, r3 := Final(e.gates + [g] + [h], inputs), Final(next.gates, inputs);
    assert r1 == r0[e.next := Reg(r0, x) && Reg(r0, y)];
    assert r2 == r1[e.next + 1 := Reg(r1, x) != Reg(r1, y)];
    assert r3 == r2[e.next + 2 := Reg(r2, e.next) != Reg(r2, e.next + 1)];
    OrValue(b, i, inputs);
    forall v: nat {:trigger WireFor(b.params, next.wires, v)} | v < b.params + i + 1
      ensures Reg(r3, WireFor(b.params, next.wires, v)) == ValueOf(EvalStmts(b.stmts, i + 1, inputs), v)
    {
      if v < b.params + i {
        assert WireFor(b.params, next.wires, v) == WireFor(b.params, e.wires, v);
        WireBound(b, e, i, v);
        CarriedValue(b, e, i, inputs, v);
        EnvOld(b, i, inputs, v);
      }
    }
  }

  lemma OrOperands(b: Block, i: nat)
    requires ValidBlock(b) && i < |b.stmts| && b.stmts[i].Or?
    ensures b.stmts[i].a < b.params + i && b.stmts[i].b < b.params + i
  {
    assert StmtOk(b, i);
    assert b.stmts[i].a in Operands(b.stmts[i]) && b.stmts[i].b in Operands(b.stmts[i]);
  }

  lemma OrValue(b: Block, i: nat, inputs: seq<bool>)
    requires i < |b.stmts| && b.stmts[i].Or? && |inputs| == b.params
    ensures var env := EvalStmts(b.stmts, i, inputs);
      ValueOf(EvalStmts(b.stmts, i + 1, inputs), b.params + i) == (ValueOf(env, b.stmts[i].a) || ValueOf(env, b.stmts[i].b))
  {
  }

  lemma EnvOld(b: Block, i: nat, inputs: seq<bool>, v: nat)
    requires i < |b.stmts| && |inputs| == b.params && v < b.params + i
    ensures ValueOf(EvalStmts(b.stmts, i + 1, inputs), v) == ValueOf(EvalStmts(b.stmts, i, inputs), v)
  {
    hide EvalStmt;
  }

  lemma StmtCarries(b: Block, e: Emission, i: nat, inputs: seq<bool>)
    requires ValidBlock(b) && i < |b.stmts| && EmissionOk(b, e, i) && |inputs| == b.params && Carries(b, e, i, inputs)
    ensures Carries(b, EmitStmt(b.params, e, b.stmts[i]), i + 1, inputs)
  {
    hide Final, Fresh, EvalStmts, Carries, WireFor;
    var s := b.stmts[i];
    assert StmtOk(b, i);
    if s.Or? {
      OrCarries(b, e, i, inputs);
    } else {
      forall v | v in Operands(s)
        ensures WireFor(b.params, e.wires, v) < e.next
        ensures Reg(Final(e.gates, inputs), WireFor(b.params, e.wires, v)) == ValueOf(EvalStmts(b.stmts, i, inputs), v)
      {
        WireBound(b, e, i, v);
        CarriedValue(b, e, i, inputs, v);
      }
      match s
      case Zero => OutCarries(b, e, i, GConst(false, e.next), inputs);
      case One => OutCarries(b, e, i, GConst(true, e.next), inputs);
      case And(x, y) =>
        assert x in Operands(s) && y in Operands(s);
        OutCarries(b, e, i, GAnd(WireFor(b.params, e.wires, x), WireFor(b.params, e.wires, y), e.next), inputs);
      case Xor(x, y) =>
        assert x in Operands(s) && y in Operands(s);
        OutCarries(b, e, i, GXor(WireFor(b.params, e.wires, x), WireFor(b.params, e.wires, y), e.next), inputs);
      case Not(v) =>
        assert v in Operands(s);
        OutCarries(b, e, i, GNot(WireFor(b.params, e.wires, v), e.next), inputs);
    }
  }

  lemma {:induction false} StmtsCarry(b: Block, n: nat, inputs: seq<bool>)
    requires ValidBlock(b) && n <= |b.stmts| && |inputs| == b.params
    ensures Carries(b, EmitStmts(b, n), n, inputs)
    decreases n
  {
    hide ValidBlock, EmitStmt, EvalStmt, Fresh;
    if n == 0 {
      NoGates(b.params);
      forall v: nat | v < b.params ensures Reg(RunGates([], 0, inputs), v) == inputs[v] {
        InputsStay([], 0, inputs, v);
      }
    } else {
      StmtsOk(b, n - 1);
      StmtsCarry(b, n - 1, inputs);
      StmtCarries(b, EmitStmts(b, n - 1), n - 1, inputs);
    }
  }

  /** The last `n` wires hold the first `n` outputs. */
  ghost predicate OutputsHold(b: Block, e: Emission, n: nat, inputs: seq<bool>)
    requires n <= |b.outputs|
  {
    e.next >= n && forall j | 0 <= j < n :: Reg(Final(e.gates, inputs), e.next - n + j) == ValueOf(EvalStmts(b.stmts, |b.stmts|, inputs), b.outputs[j])
  }

  lemma {:induction false} OutputsCarry(b: Block, n: nat, inputs: seq<bool>)
    requires ValidBlock(b) && n <= |b.outputs| && |inputs| == b.params
    ensures Carries(b, EmitOutputs(b, n), |b.stmts|, inputs)
    ensures OutputsHold(b, EmitOutputs(b, n), n, inputs)
    decreases n
  {
    hide ValidBlock, EmitStmts, EvalStmts, Fresh, Final, WireFor, ValueOf;
    if n == 0 {
      StmtsCarry(b, |b.stmts|, inputs);
    } else {
      OutputsCarry(b, n - 1, inputs);
      OutputStep(b, n - 1, inputs);
    }
  }

  lemma OutputStep(b: Block, i: nat, inputs: seq<bool>)
    requires ValidBlock(b) && i < |b.outputs| && |inputs| == b.params && Carries(b, EmitOutputs(b, i), |b.stmts|, inputs)
    requires OutputsHold(b, EmitOutputs(b, i), i, inputs)
    ensures Carries(b, EmitOutputs(b, i + 1), |b.stmts|, inputs) && OutputsHold(b, EmitOutputs(b, i + 1), i + 1, inputs)
  {
    hide EmitStmts, EvalStmts, Fresh, Final, WireFor, ValueOf;
    var e := EmitOutputs(b, i);
    var w := WireFor(b.params, e.wires, b.outputs[i]);
    var g := GCopy(w, e.next);
    OutputsOk(b, i);
    assert b.outputs[i] in b.outputs;
    WireBound(b, e, |b.stmts|, b.outputs[i]);
    CarriedValue(b, e, |b.stmts|, inputs, b.outputs[i]);
    FinalSnoc(e.gates, g, inputs);
    var next := EmitOutputs(b, i + 1);
    forall v: nat {:trigger WireFor(b.params, next.wires, v)} | v < b.params + |b.stmts|
      ensures Reg(Final(next.gates, inputs), WireFor(b.params, next.wires, v)) == ValueOf(EvalStmts(b.stmts, |b.stmts|, inputs), v)
    {
      WireBound(b, e, |b.stmts|, v);
      CarriedValue(b, e, |b.stmts|, inputs, v);
    }
    forall j | 0 <= j < i + 1
      ensures Reg(Final(next.gates, inputs), next.next - (i + 1) + j) == ValueOf(EvalStmts(b.stmts, |b.stmts|, inputs), b.outputs[j])
    {
      assert next.next - (i + 1) + j == e.next - i + j;
    }
  }

  /** The emitted circuit computes what the block computes. */
  lemma EmitMeans(b: Block, io: Layout, inputs: seq<bool>)
    requires ValidBlock(b) && LayoutFits(b, io) && |inputs| == b.params
    ensures Total(io.outputGroups) <= EmitCircuit(b, io).wireCount
    ensures RunCircuit(EmitCircuit(b, io), inputs) == EvalBlock(b, inputs)
  {
    hide ValidBlock, EmitOutputs, EvalStmts, Fresh, Total, ValueOf, RunGates;
    OutputsOk(b, |b.outputs|);
    OutputsCarry(b, |b.outputs|, inputs);
  }

  // ---------------------------------------------------------------- import undoes export

  predicate NoOr(b: Block) {
    forall i | 0 <= i < |b.stmts| :: !b.stmts[i].Or?
  }

  lemma {:induction false} ImportPrefix(gates: seq<Gate>, g: Gate, params: nat, n: nat)
    requires n <= |gates|
    ensures ImportGates(gates + [g], params, n) == ImportGates(gates, params, n)
    decreases n
  {
    hide ImportGate;
    if n > 0 {
      ImportPrefix(gates, g, params, n - 1);
    }
  }

  lemma ImportSnoc(gates: seq<Gate>, g: Gate, params: nat)
    ensures ImportGates(gates + [g], params, |gates + [g]|) == ImportGate(ImportGates(gates, params, |gates|), params, g)
  {
    hide ImportGate;
    ImportPrefix(gates, g, params, |gates|);
  }

  /** Each statement comes back, and each wire holds the value of its own number. */
  ghost predicate Undone(b: Block, e: Emission, imp: Import, n: nat) {
    && n <= |b.stmts| && e.next == b.params + n && |e.wires| == n && (forall i | 0 <= i < n :: e.wires[i] == b.params + i)
    && imp.stmts == b.stmts[..n] && forall w: nat | w < e.next :: Cur(imp.current, w) == w
  }

  lemma {:induction false} StmtsUndone(b: Block, n: nat)
    requires ValidBlock(b) && NoOr(b) && n <= |b.stmts|
    ensures Undone(b, EmitStmts(b, n), ImportGates(EmitStmts(b, n).gates, b.params, |EmitStmts(b, n).gates|), n)
    decreases n
  {
    hide ValidBlock, EmitStmt, ImportGate;
    if n > 0 {
      StmtsUndone(b, n - 1);
      StmtUndone(b, EmitStmts(b, n - 1), n - 1);
    }
  }

  /** The one gate of a statement that is no disjunction. */
  function PlainGate(params: nat, e: Emission, s: Stmt): Gate {
    match s
    case One => GConst(true, e.next)
    case And(a, b) => GAnd(WireFor(params, e.wires, a), WireFor(params, e.wires, b), e.next)
    case Xor(a, b) => GXor(WireFor(params, e.wires, a), WireFor(params, e.wires, b), e.next)
    case Not(v) => GNot(WireFor(params, e.wires, v), e.next)
    case _ => GConst(false, e.next)
  }

  lemma PlainEmit(params: nat, e: Emission, s: Stmt)
    requires !s.Or? && !s.Storage?
    ensures EmitStmt(params, e, s) == Out(e, PlainGate(params, e, s))
  {
  }

  lemma StmtUndone(b: Block, e: Emission, i: nat)
    requires ValidBlock(b) && NoOr(b) && i < |b.stmts| && Undone(b, e, ImportGates(e.gates, b.params, |e.gates|), i)
    ensures var next := EmitStmt(b.params, e, b.stmts[i]);
      Undone(b, next, ImportGates(next.gates, b.params, |next.gates|), i + 1)
  {
    hide ValidBlock, EmitStmt, PlainGate, ImportGate;
    var s := b.stmts[i];
    var g := PlainGate(b.params, e, s);
    var imp := ImportGates(e.gates, b.params, |e.gates|);
    NotStorage(b, i);
    PlainEmit(b.params, e, s);
    ImportSnoc(e.gates, g, b.params);
    forall v | v in Operands(s) ensures WireFor(b.params, e.wires, v) == v && Cur(imp.current, v) == v {
    }
    GateUndone(b, e, imp, s);
    assert b.stmts[..i + 1] == b.stmts[..i] + [s];
    BoundUndone(b, e, imp, i, g);
  }

  lemma BoundUndone(b: Block, e: Emission, imp: Import, i: nat, g: Gate)
    requires i < |b.stmts| && Undone(b, e, imp, i)
    ensures Undone(b, Out(e, g), Bind(imp, b.params, b.stmts[i], e.next), i + 1)
  {
    var next := Bind(imp, b.params, b.stmts[i], e.next);
    assert b.stmts[..i + 1] == b.stmts[..i] + [b.stmts[i]];
    forall w: nat | w < e.next + 1 ensures Cur(next.current, w) == w {
      if w < e.next {
        assert Cur(imp.current, w) == w;
      }
    }
  }

  lemma NotStorage(b: Block, i: nat)
    requires ValidBlock(b) && i < |b.stmts|
    ensures !b.stmts[i].Storage? && forall v | v in Operands(b.stmts[i]) :: v < b.params + i
  {
    assert StmtOk(b, i);
  }

  lemma GateUndone(b: Block, e: Emission, imp: Import, s: Stmt)
    requires !s.Or? && !s.Storage?
    requires forall v | v in Operands(s) :: WireFor(b.params, e.wires, v) == v && Cur(imp.current, v) == v
    ensures ImportGate(imp, b.params, PlainGate(b.params, e, s)) == Bind(imp, b.params, s, e.next)
  {
    hide WireFor, Cur;
    match s
    case And(x, y) => assert x in Operands(s) && y in Operands(s);
    case Xor(x, y) => assert x in Operands(s) && y in Operands(s);
    case Not(v) => assert v in Operands(s);
    case Zero =>
    case One =>
  }

  ghost predicate AllUndone(b: Block, e: Emission, imp: Import, n: nat)
    requires n <= |b.outputs|
  {
    && e.next == b.params + |b.stmts| + n && |e.wires| == |b.stmts| && (forall i | 0 <= i < |b.stmts| :: e.wires[i] == b.params + i)
    && imp.stmts == b.stmts && (forall w: nat | w < b.params + |b.stmts| :: Cur(imp.current, w) == w)
    && (forall j | 0 <= j < n :: Cur(imp.current, b.params + |b.stmts| + j) == b.outputs[j])
  }

  lemma {:induction false} OutputsUndone(b: Block, n: nat)
    requires ValidBlock(b) && NoOr(b) && n <= |b.outputs|
    ensures AllUndone(b, EmitOutputs(b, n), ImportGates(EmitOutputs(b, n).gates, b.params, |EmitOutputs(b, n).gates|), n)
    decreases n
  {
    hide ValidBlock, EmitStmts, ImportGates;
    if n == 0 {
      StmtsUndone(b, |b.stmts|);
      assert b.stmts[..|b.stmts|] == b.stmts;
    } else {
      OutputsUndone(b, n - 1);
      OutputUndone(b, EmitOutputs(b, n - 1), n - 1);
    }
  }

  lemma OutputUndone(b: Block, e: Emission, i: nat)
    requires ValidBlock(b) && i < |b.outputs| && AllUndone(b, e, ImportGates(e.gates, b.params, |e.gates|), i)
    ensures var next := Emission(e.gates + [GCopy(WireFor(b.params, e.wires, b.outputs[i]), e.next)], e.wires, e.next + 1);
      AllUndone(b, next, ImportGates(next.gates, b.params, |next.gates|), i + 1)
  {
    hide ValidBlock, ImportGates;
    OutputValid(b, i);
    var imp := ImportGates(e.gates, b.params, |e.gates|);
    var g := GCopy(b.outputs[i], e.next);
    assert WireFor(b.params, e.wires, b.outputs[i]) == b.outputs[i] == Cur(imp.current, b.outputs[i]);
    ImportSnoc(e.gates, g, b.params);
    var next := Import(imp.stmts, imp.current[e.next := b.outputs[i]]);
    forall w: nat | w < b.params + |b.stmts| ensures Cur(next.current, w) == w {
      assert Cur(imp.current, w) == w;
    }
    forall j | 0 <= j < i + 1 ensures Cur(next.current, b.params + |b.stmts| + j) == b.outputs[j] {
      if j < i {
        assert Cur(imp.current, b.params + |b.stmts| + j) == b.outputs[j];
      }
    }
  }

  lemma OutputValid(b: Block, j: nat)
    requires ValidBlock(b) && j < |b.outputs|
    ensures b.outputs[j] < b.params + |b.stmts|
  {
    assert b.outputs[j] in b.outputs;
  }

  /** Importing what was emitted gives the block back: statements, identifiers and outputs. */
  lemma ImportUndoesEmit(b: Block, io: Layout)
    requires ValidBlock(b) && NoOr(b) && LayoutFits(b, io)
    ensures Total(io.outputGroups) <= EmitCircuit(b, io).wireCount && ImportBlock(EmitCircuit(b, io)) == b
    ensures EmitCircuit(b, io).inputGroups == io.inputGroups && EmitCircuit(b, io).outputGroups == io.outputGroups
  {
    hide ValidBlock, EmitOutputs, Total, ImportGates, Cur;
    OutputsUndone(b, |b.outputs|);
    assert ImportBlock(EmitCircuit(b, io)).outputs == b.outputs;
  }
}
