/**
 Scheduling a circuit as a lane plan: inputs take the first slots, every live statement the next free
 one, statements nobody uses are dropped. The plan computes what the circuit computes, so the bytecode
 evaluates the circuit in every one of 256 lanes.
 */
module LanePlanner {
  import opened Common
  import opened Bristol
  import opened BristolExport
  import opened EvmEmission
  import EvmMachine

  /** A use that is never reached by a statement index: kept for the outputs. */
  const ALWAYS: nat := USIZE - 1

  /** Value `v` is an operand of one of the first `n` statements. */
  predicate UsedBy(b: Block, n: nat, v: nat)
    requires n <= |b.stmts|
  {
    exists i :: 0 <= i < n && v in Operands(b.stmts[i])
  }

  predicate Live(b: Block, v: nat) {
    UsedBy(b, |b.stmts|, v) || v in b.outputs
  }

  /** What the use table says once the first `n` statements were looked at. */
  ghost predicate UsesSeen(b: Block, n: nat, lastUse: seq<nat>)
    requires n <= |b.stmts|
  {
    && |lastUse| == b.params + |b.stmts|
    && forall v: nat | b.params <= v < |lastUse| :: UseSeen(b, n, v, lastUse[v])
  }

  /** A statement's last use lies behind it exactly when it is used. */
  ghost predicate UseSeen(b: Block, n: nat, v: nat, last: nat)
    requires n <= |b.stmts|
  {
    v - b.params <= last && (last > v - b.params <==> UsedBy(b, n, v))
  }

  method RecordUse(lastUse: seq<nat>, v: nat, index: nat) returns (r: seq<nat>)
    requires v < |lastUse|
    ensures r == lastUse[v := if lastUse[v] >= index then lastUse[v] else index]
  {
    r := lastUse[v := if lastUse[v] >= index then lastUse[v] else index];
  }

  lemma UsedSnoc(b: Block, n: nat, v: nat)
    requires n < |b.stmts|
    ensures UsedBy(b, n + 1, v) <==> UsedBy(b, n, v) || v in Operands(b.stmts[n])
  {
  }

  lemma NothingUsed(b: Block)
    ensures forall v :: !UsedBy(b, 0, v)
  {
  }

  /** The last statement that uses each value; a statement's own index while nothing does. */
  method LastUses(b: Block) returns (lastUse: seq<nat>)
    requires ValidBlock(b) && |b.stmts| < ALWAYS
    ensures |lastUse| == b.params + |b.stmts|
    ensures forall v: nat | b.params <= v < |lastUse| :: lastUse[v] == v - b.params <==> !Live(b, v)
  {
    hide ValidBlock, UsedBy;
    SmallBlock(b);
    NothingUsed(b);
    lastUse := seq(b.params + |b.stmts|, v requires 0 <= v => if v < b.params then 0 else v - b.params);
    for index := 0 to |b.stmts|
      invariant UsesSeen(b, index, lastUse)
    {
      NotStorage(b, index);
      ghost var before := lastUse;
      var operands := Operands(b.stmts[index]);
      for k := 0 to |operands|
        invariant |lastUse| == |before|
        invariant forall v: nat | v < |before| :: lastUse[v] == if v in operands[..k] && before[v] < index then index else before[v]
      {
        assert operands[..k + 1] == operands[..k] + [operands[k]];
        assert operands[k] in operands;
        lastUse := RecordUse(lastUse, operands[k], index);
      }
      assert operands[..|operands|] == operands;
      var next := index + 1;
      forall v: nat | b.params <= v < |lastUse| ensures UseSeen(b, next, v, lastUse[v]) {
        UsedSnoc(b, index, v);
        assert UseSeen(b, index, v, before[v]);
      }
    }
    ghost var seen := lastUse;
    assert forall v: nat | b.params <= v < |seen| :: UseSeen(b, |b.stmts|, v, seen[v]);
    for j := 0 to |b.outputs|
      invariant |lastUse| == |seen|
      invariant forall v: nat | v < |seen| :: lastUse[v] == if v in b.outputs[..j] then ALWAYS else seen[v]
    {
      OutputValid(b, j);
      assert b.outputs[..j + 1] == b.outputs[..j] + [b.outputs[j]];
      lastUse := lastUse[b.outputs[j] := ALWAYS];
    }
    assert b.outputs[..|b.outputs|] == b.outputs;
  }

  // ---------------------------------------------------------------- slots

  /** The slot of a value, once it has one. */
  type Slots = seq<Option<nat>>

  /** The plan of the first `n` statements. */
  datatype Planned = Planned(stmts: seq<LaneStmt>, slots: Slots, next: nat)

  function SlotOf(slots: Slots, v: nat): nat {
    if v < |slots| && slots[v].Some? then slots[v].value else 0
  }

  function OpOf(slots: Slots, s: Stmt): LaneOp {
    match s
    case Zero => LConst(false)
    case One => LConst(true)
    case And(a, b) => LAnd(SlotOf(slots, a), SlotOf(slots, b))
    case Or(a, b) => LOr(SlotOf(slots, a), SlotOf(slots, b))
    case Xor(a, b) => LXor(SlotOf(slots, a), SlotOf(slots, b))
    case Not(v) => LNot(SlotOf(slots, v))
    case Storage => LConst(false)
  }

  /** The plan so far as a plan of its own. */
  function AsPlan(b: Block, p: Planned): LanePlan {
    LanePlan(b.params, p.stmts, [])
  }

  /** Live values so far have distinct, defined slots below `next`. */
  ghost predicate PlannedOk(b: Block, p: Planned, n: nat)
    requires n <= |b.stmts|
  {
    && |p.slots| == b.params + |b.stmts| && b.params <= p.next <= b.params + n
    && (forall v: nat | v < |p.slots| :: p.slots[v].Some? <==> v < b.params + n && (v < b.params || Live(b, v)))
    && (forall v: nat | v < b.params :: p.slots[v].value == v)
    && (forall v: nat | v < |p.slots| && p.slots[v].Some? :: p.slots[v].value < p.next && HasSlot(AsPlan(b, p), |p.stmts|, p.slots[v].value))
    && (forall k: nat | k < |p.stmts| :: p.stmts[k].dst < p.next && EvmEmission.StmtOk(AsPlan(b, p), k))
  }

  /** The slots hold the values, in every lane. */
  ghost predicate Computes(b: Block, p: Planned, n: nat, inputs: seq<bool>)
    requires n <= |b.stmts|
  {
    forall v: nat | v < |p.slots| && p.slots[v].Some? ::
      Bit(EvalLane(AsPlan(b, p), |p.stmts|, inputs), p.slots[v].value) == ValueOf(EvalStmts(b.stmts, n, inputs), v)
  }

  /** Statement `n` is live: it takes the next slot. */
  function Take(b: Block, p: Planned, n: nat): Planned
    requires n < |b.stmts| && |p.slots| == b.params + |b.stmts|
  {
    var slots := p.slots[b.params + n := Some(p.next)];
    Planned(p.stmts + [LaneStmt(p.next, OpOf(slots, b.stmts[n]))], slots, p.next + 1)
  }

  lemma {:induction false} LanePrefix(params: nat, stmts: seq<LaneStmt>, s: LaneStmt, n: nat, inputs: seq<bool>)
    requires n <= |stmts|
    ensures EvalLane(LanePlan(params, stmts + [s], []), n, inputs) == EvalLane(LanePlan(params, stmts, []), n, inputs)
    decreases n
  {
    hide OpBit;
    if n > 0 {
      LanePrefix(params, stmts, s, n - 1, inputs);
    }
  }

  lemma HasMore(params: nat, stmts: seq<LaneStmt>, s: LaneStmt, n: nat, slot: nat)
    requires n <= |stmts| && HasSlot(LanePlan(params, stmts, []), n, slot)
    ensures HasSlot(LanePlan(params, stmts + [s], []), n, slot) && HasSlot(LanePlan(params, stmts + [s], []), n + 1, slot)
  {
    if slot >= params {
      var i :| 0 <= i < n && stmts[i].dst == slot;
      assert (stmts + [s])[i].dst == slot;
    }
  }

  lemma StmtStays(params: nat, stmts: seq<LaneStmt>, s: LaneStmt, k: nat)
    requires k < |stmts| && EvmEmission.StmtOk(LanePlan(params, stmts, []), k)
    ensures EvmEmission.StmtOk(LanePlan(params, stmts + [s], []), k)
  {
    hide HasSlot;
    forall slot | slot in Sources(stmts[k].op) ensures HasSlot(LanePlan(params, stmts + [s], []), k, slot) {
      HasMore(params, stmts, s, k, slot);
    }
  }

  /** Operands of a statement are live and have their slot. */
  lemma OperandSlot(b: Block, p: Planned, n: nat, v: nat)
    requires ValidBlock(b) && n < |b.stmts| && PlannedOk(b, p, n) && v in Operands(b.stmts[n])
    ensures v < b.params + n && p.slots[v].Some?
  {
    hide HasSlot, EvmEmission.StmtOk, ValidBlock;
    NotStorage(b, n);
    assert UsedBy(b, |b.stmts|, v);
  }

  lemma {:induction false} SourceOf(slots: Slots, s: Stmt, slot: nat) returns (v: nat)
    requires slot in Sources(OpOf(slots, s))
    ensures v in Operands(s) && slot == SlotOf(slots, v)
  {
    match s
    case And(x, y) => v := if slot == SlotOf(slots, x) then x else y;
    case Or(x, y) => v := if slot == SlotOf(slots, x) then x else y;
    case Xor(x, y) => v := if slot == SlotOf(slots, x) then x else y;
    case Not(x) => v := x;
  }

  lemma PlannedStmt(b: Block, p: Planned, n: nat, k: nat)
    requires n <= |b.stmts| && PlannedOk(b, p, n) && k < |p.stmts|
    ensures p.stmts[k].dst < p.next && EvmEmission.StmtOk(LanePlan(b.params, p.stmts, []), k)
  {
    hide HasSlot, EvmEmission.StmtOk, Live;
    var dst := p.stmts[k].dst;
    assert EvmEmission.StmtOk(AsPlan(b, p), k);
  }

  lemma TakeOk(b: Block, p: Planned, n: nat)
    requires ValidBlock(b) && n < |b.stmts| && PlannedOk(b, p, n) && Live(b, b.params + n)
    ensures PlannedOk(b, Take(b, p, n), n + 1)
  {
    hide HasSlot, EvmEmission.StmtOk, Live, ValidBlock, OpOf, Sources;
    var q := Take(b, p, n);
    var s := LaneStmt(p.next, OpOf(q.slots, b.stmts[n]));
    SmallBlock(b);
    NewSlot(b.params, p.stmts, s);
    forall v: nat | v < |q.slots| && q.slots[v].Some?
      ensures q.slots[v].value < q.next && HasSlot(AsPlan(b, q), |q.stmts|, q.slots[v].value)
    {
      if v != b.params + n {
        HasMore(b.params, p.stmts, s, |p.stmts|, p.slots[v].value);
      }
    }
    forall k: nat | k < |q.stmts| ensures q.stmts[k].dst < q.next && EvmEmission.StmtOk(AsPlan(b, q), k) {
      if k < |p.stmts| {
        PlannedStmt(b, p, n, k);
        StmtStays(b.params, p.stmts, s, k);
      } else {
        NewStmtOk(b, p, n);
      }
    }
  }

  lemma SmallBlock(b: Block)
    requires ValidBlock(b)
    ensures b.params + |b.stmts| < EvmEmission.U32
  {
  }

  lemma NewSlot(params: nat, stmts: seq<LaneStmt>, s: LaneStmt)
    ensures HasSlot(LanePlan(params, stmts + [s], []), |stmts| + 1, s.dst)
  {
    assert (stmts + [s])[|stmts|].dst == s.dst;
  }

  lemma NewStmtOk(b: Block, p: Planned, n: nat)
    requires ValidBlock(b) && n < |b.stmts| && PlannedOk(b, p, n)
    ensures EvmEmission.StmtOk(AsPlan(b, Take(b, p, n)), |p.stmts|)
  {
    hide HasSlot, Live, ValidBlock, OpOf, Sources;
    var q := Take(b, p, n);
    var s := LaneStmt(p.next, OpOf(q.slots, b.stmts[n]));
    SmallBlock(b);
    forall slot | slot in Sources(s.op) ensures HasSlot(AsPlan(b, q), |p.stmts|, slot) {
      var v := SourceOf(q.slots, b.stmts[n], slot);
      OperandSlot(b, p, n, v);
      HasMore(b.params, p.stmts, s, |p.stmts|, p.slots[v].value);
    }
  }

  /** A dropped statement changes nothing anybody reads. */
  lemma DropOk(b: Block, p: Planned, n: nat, inputs: seq<bool>)
    requires n < |b.stmts| && PlannedOk(b, p, n) && !Live(b, b.params + n) && |inputs| == b.params
    ensures PlannedOk(b, p, n + 1) && (Computes(b, p, n, inputs) ==> Computes(b, p, n + 1, inputs))
  {
    hide HasSlot, EvmEmission.StmtOk, Live, EvalLane, EvalStmt;
    if Computes(b, p, n, inputs) {
      forall v: nat | v < |p.slots| && p.slots[v].Some?
        ensures Bit(EvalLane(AsPlan(b, p), |p.stmts|, inputs), p.slots[v].value) == ValueOf(EvalStmts(b.stmts, n + 1, inputs), v)
      {
        SlotEarly(b, p, n, v);
        EnvOld(b, n, inputs, v);
      }
    }
  }

  lemma SlotEarly(b: Block, p: Planned, n: nat, v: nat)
    requires n <= |b.stmts| && PlannedOk(b, p, n) && v < |p.slots| && p.slots[v].Some?
    ensures v < b.params + n
  {
    hide HasSlot, EvmEmission.StmtOk, Live;
  }

  lemma TakeComputes(b: Block, p: Planned, n: nat, inputs: seq<bool>)
    requires ValidBlock(b) && n < |b.stmts| && PlannedOk(b, p, n) && Live(b, b.params + n) && |inputs| == b.params && Computes(b, p, n, inputs)
    ensures Computes(b, Take(b, p, n), n + 1, inputs)
  {
    hide HasSlot, EvmEmission.StmtOk, Live, ValidBlock, EvalLane, EvalStmts;
    var q := Take(b, p, n);
    var s := LaneStmt(p.next, OpOf(q.slots, b.stmts[n]));
    var env := EvalLane(AsPlan(b, p), |p.stmts|, inputs);
    LaneSnoc(b.params, p.stmts, s, inputs);
    TakenValue(b, p, n, inputs);
    forall v: nat | v < |q.slots| && q.slots[v].Some?
      ensures Bit(EvalLane(AsPlan(b, q), |q.stmts|, inputs), q.slots[v].value) == ValueOf(EvalStmts(b.stmts, n + 1, inputs), v)
    {
      if v != b.params + n {
        SlotEarly(b, p, n, v);
        EnvOld(b, n, inputs, v);
      }
    }
  }

  lemma LaneSnoc(params: nat, stmts: seq<LaneStmt>, s: LaneStmt, inputs: seq<bool>)
    ensures EvalLane(LanePlan(params, stmts + [s], []), |stmts| + 1, inputs)
      == EvalLane(LanePlan(params, stmts, []), |stmts|, inputs)[s.dst := OpBit(s.op, EvalLane(LanePlan(params, stmts, []), |stmts|, inputs))]
  {
    hide OpBit;
    LanePrefix(params, stmts, s, |stmts|, inputs);
  }

  /** The operation on slots computes what the statement computes on values. */
  lemma TakenValue(b: Block, p: Planned, n: nat, inputs: seq<bool>)
    requires ValidBlock(b) && n < |b.stmts| && PlannedOk(b, p, n) && |inputs| == b.params && Computes(b, p, n, inputs)
    ensures OpBit(OpOf(Take(b, p, n).slots, b.stmts[n]), EvalLane(AsPlan(b, p), |p.stmts|, inputs))
      == ValueOf(EvalStmts(b.stmts, n + 1, inputs), b.params + n)
  {
    hide HasSlot, EvmEmission.StmtOk, Live, ValidBlock, EvalLane;
    var s, slots := b.stmts[n], Take(b, p, n).slots;
    NotStorage(b, n);
    forall v | v in Operands(s)
      ensures Bit(EvalLane(AsPlan(b, p), |p.stmts|, inputs), SlotOf(slots, v)) == ValueOf(EvalStmts(b.stmts, n, inputs), v)
    {
      OperandSlot(b, p, n, v);
    }
    match s
    case And(x, y) => assert x in Operands(s) && y in Operands(s);
    case Or(x, y) => assert x in Operands(s) && y in Operands(s);
    case Xor(x, y) => assert x in Operands(s) && y in Operands(s);
    case Not(x) => assert x in Operands(s);
    case Zero =>
    case One =>
  }

  // ---------------------------------------------------------------- the planner

  function Restrict(b: Block, p: Planned): LanePlan {
    LanePlan(b.params, p.stmts, seq(|b.outputs|, j requires 0 <= j < |b.outputs| => SlotOf(p.slots, b.outputs[j])))
  }

  /** Schedule a circuit; its plan is well formed and computes the circuit. */
  method PlanLanes(b: Block) returns (plan: LanePlan)
    requires ValidBlock(b) && |b.outputs| < EvmEmission.U32
    ensures PlanOk(plan) && plan.numParams == b.params && |plan.outputs| == |b.outputs| && |plan.stmts| <= |b.stmts|
    ensures forall inputs, j: nat | |inputs| == b.params && j < |b.outputs| ::
      Bit(EvalLane(plan, |plan.stmts|, inputs), plan.outputs[j]) == EvalBlock(b, inputs)[j]
  {
    hide ValidBlock, HasSlot, EvmEmission.StmtOk, EvalLane, EvalStmts, Live, OpOf, PlannedOk, Computes, Bit, ValueOf, PlanOk;
    SmallBlock(b);
    var lastUse := LastUses(b);
    var slots: Slots := seq(b.params + |b.stmts|, v requires 0 <= v => if v < b.params then Some(v) else None);
    var p := Planned([], slots, b.params);
    StartOk(b, p);
    for index := 0 to |b.stmts|
      invariant PlannedOk(b, p, index) && |p.stmts| <= index
      invariant forall inputs | |inputs| == b.params :: Computes(b, p, index, inputs)
    {
      PlannedWidth(b, p, index);
      ghost var before := p;
      if lastUse[b.params + index] == index {
        forall inputs | |inputs| == b.params ensures Computes(b, p, index + 1, inputs) {
          assert Computes(b, p, index, inputs);
          DropOk(b, p, index, inputs);
        }
        DropOk(b, p, index, seq(b.params, i requires 0 <= i < b.params => false));
      } else {
        TakeOk(b, p, index);
        forall inputs | |inputs| == b.params ensures Computes(b, Take(b, p, index), index + 1, inputs) {
          assert Computes(b, p, index, inputs);
          TakeComputes(b, p, index, inputs);
        }
        p := Take(b, p, index);
      }
    }
    plan := Restrict(b, p);
    FinalOk(b, p);
    forall inputs, j: nat | |inputs| == b.params && j < |b.outputs|
      ensures Bit(EvalLane(plan, |plan.stmts|, inputs), plan.outputs[j]) == EvalBlock(b, inputs)[j]
    {
      assert Computes(b, p, |b.stmts|, inputs);
      FinalValue(b, p, inputs, j);
    }
  }

  lemma PlannedWidth(b: Block, p: Planned, n: nat)
    requires n <= |b.stmts| && PlannedOk(b, p, n)
    ensures |p.slots| == b.params + |b.stmts|
  {
  }

  lemma StartOk(b: Block, p: Planned)
    requires p == Planned([], seq(b.params + |b.stmts|, v requires 0 <= v => if v < b.params then Some(v) else None), b.params)
    ensures PlannedOk(b, p, 0) && forall inputs | |inputs| == b.params :: Computes(b, p, 0, inputs)
  {
  }

  lemma {:induction false} SameLanes(params: nat, stmts: seq<LaneStmt>, outputs: seq<nat>, n: nat, inputs: seq<bool>)
    requires n <= |stmts|
    ensures EvalLane(LanePlan(params, stmts, outputs), n, inputs) == EvalLane(LanePlan(params, stmts, []), n, inputs)
    decreases n
  {
    hide OpBit;
    if n > 0 {
      SameLanes(params, stmts, outputs, n - 1, inputs);
    }
  }

  lemma OutputLive(b: Block, p: Planned, j: nat)
    requires ValidBlock(b) && PlannedOk(b, p, |b.stmts|) && j < |b.outputs|
    ensures b.outputs[j] < |p.slots| && p.slots[b.outputs[j]].Some?
  {
    hide HasSlot, EvmEmission.StmtOk, ValidBlock;
    OutputValid(b, j);
    assert Live(b, b.outputs[j]);
  }

  lemma FinalOk(b: Block, p: Planned)
    requires ValidBlock(b) && PlannedOk(b, p, |b.stmts|) && |b.outputs| < EvmEmission.U32
    ensures PlanOk(Restrict(b, p))
  {
    hide HasSlot, Live, ValidBlock;
    SmallBlock(b);
    var plan := Restrict(b, p);
    forall k | 0 <= k < |plan.stmts| ensures EvmEmission.StmtOk(plan, k) {
      assert EvmEmission.StmtOk(AsPlan(b, p), k);
      forall s | s in Sources(plan.stmts[k].op) ensures HasSlot(plan, k, s) {
        SameHas(b.params, p.stmts, plan.outputs, k, s);
      }
    }
    forall s | s in plan.outputs ensures HasSlot(plan, |plan.stmts|, s) {
      var j :| 0 <= j < |plan.outputs| && plan.outputs[j] == s;
      OutputLive(b, p, j);
      SameHas(b.params, p.stmts, plan.outputs, |p.stmts|, s);
    }
  }

  lemma SameHas(params: nat, stmts: seq<LaneStmt>, outputs: seq<nat>, n: nat, s: nat)
    requires n <= |stmts|
    ensures HasSlot(LanePlan(params, stmts, outputs), n, s) == HasSlot(LanePlan(params, stmts, []), n, s)
  {
  }

  lemma FinalValue(b: Block, p: Planned, inputs: seq<bool>, j: nat)
    requires ValidBlock(b) && PlannedOk(b, p, |b.stmts|) && |inputs| == b.params && Computes(b, p, |b.stmts|, inputs) && j < |b.outputs|
    ensures Bit(EvalLane(Restrict(b, p), |p.stmts|, inputs), Restrict(b, p).outputs[j]) == EvalBlock(b, inputs)[j]
  {
    hide HasSlot, EvmEmission.StmtOk, ValidBlock, PlannedOk, EvalLane, EvalStmts, ValueOf, Bit;
    OutputLive(b, p, j);
    SameLanes(b.params, p.stmts, Restrict(b, p).outputs, |p.stmts|, inputs);
  }

  /** From circuit to bytecode: every lane of the returned words is the circuit on that lane of the call data. */
  method EmitCircuitCode(b: Block, scratchBase: nat) returns (code: seq<nat>, plan: LanePlan)
    requires ValidBlock(b) && |b.outputs| < EvmEmission.U32 && scratchBase < EvmEmission.U32
    ensures plan.numParams == b.params && code == PlanCode(scratchBase, plan)
    ensures forall data :: LanesMatch(b, plan, code, data)
  {
    hide ValidBlock, PlanOk, EvalLane, EvalBlock, PlanCode, LanesMatch;
    plan := PlanLanes(b);
    code := EmitPlan(plan, scratchBase);
    forall data ensures LanesMatch(b, plan, code, data) {
      MatchAll(b, plan, scratchBase, data);
    }
  }

  /** The code returns one word per output, whose bit `i` is the output of the circuit on bit `i` of the input words. */
  ghost predicate LanesMatch(b: Block, plan: LanePlan, code: seq<nat>, data: seq<EvmMachine.Byte>) {
    var outcome := EvmMachine.Exec(code, EvmMachine.Machine([], map[]), data);
    && outcome.Returned? && |outcome.bytes| == 32 * |b.outputs| && plan.numParams == b.params
    && forall j: nat, i: nat | j < |b.outputs| && i < 256 :: ReturnedBit(outcome.bytes, j, i) == EvalBlock(b, Lane(plan, data, i))[j]
  }

  lemma MatchAll(b: Block, plan: LanePlan, base: nat, data: seq<EvmMachine.Byte>)
    requires PlanOk(plan) && base < EvmEmission.U32 && plan.numParams == b.params && |plan.outputs| == |b.outputs|
    requires forall inputs, j: nat | |inputs| == b.params && j < |b.outputs| ::
      Bit(EvalLane(plan, |plan.stmts|, inputs), plan.outputs[j]) == EvalBlock(b, inputs)[j]
    ensures LanesMatch(b, plan, PlanCode(base, plan), data)
  {
    hide EvmMachine.Exec, PlanOk, EvalLane, EvalStmts, PlanCode, ReturnedBit, Bit, Lane;
    var bytes := CodeComputesPlan(base, plan, data);
    forall j: nat, i: nat | j < |b.outputs| && i < 256 ensures ReturnedBit(bytes, j, i) == EvalBlock(b, Lane(plan, data, i))[j] {
      var inputs := Lane(plan, data, i);
      assert Bit(EvalLane(plan, |plan.stmts|, inputs), plan.outputs[j]) == EvalBlock(b, inputs)[j];
    }
  }
}
