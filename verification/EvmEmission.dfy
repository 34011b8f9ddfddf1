/**
 Lane plans as straight-line bytecode. Every slot is one scratch word of memory; a gate loads its
 operands, applies one word instruction, and stores. Running the bytes returns, lane by lane, what the
 plan computes.
 */
module EvmEmission {
  import opened Common
  import opened Numbers
  import opened EvmMachine

  const U32: nat := 0x1_0000_0000

  // ---------------------------------------------------------------- plans

  datatype LaneOp = LConst(value: bool) | LAnd(a: nat, b: nat) | LOr(a: nat, b: nat) | LXor(a: nat, b: nat) | LNot(a: nat)

  datatype LaneStmt = LaneStmt(dst: nat, op: LaneOp)

  datatype LanePlan = LanePlan(numParams: nat, stmts: seq<LaneStmt>, outputs: seq<nat>)

  function Sources(op: LaneOp): seq<nat> {
    match op
    case LConst(_) => []
    case LAnd(a, b) => [a, b]
    case LOr(a, b) => [a, b]
    case LXor(a, b) => [a, b]
    case LNot(a) => [a]
  }

  /** Slots that hold something after the first `n` statements. */
  predicate HasSlot(plan: LanePlan, n: nat, s: nat)
    requires n <= |plan.stmts|
  {
    s < plan.numParams || exists i :: 0 <= i < n && plan.stmts[i].dst == s
  }

  /** Slots are read only once defined, and all counts fit 32 bits. */
  ghost predicate PlanOk(plan: LanePlan) {
    && plan.numParams < U32 && |plan.outputs| < U32
    && (forall i | 0 <= i < |plan.stmts| :: StmtOk(plan, i))
    && (forall s | s in plan.outputs :: HasSlot(plan, |plan.stmts|, s))
  }

  ghost predicate StmtOk(plan: LanePlan, i: nat)
    requires i < |plan.stmts|
  {
    plan.stmts[i].dst < U32 && forall s | s in Sources(plan.stmts[i].op) :: HasSlot(plan, i, s)
  }

  // ---------------------------------------------------------------- what a plan computes, bit by bit and word by word

  function Bit(env: map<nat, bool>, s: nat): bool {
    s in env && env[s]
  }

  function OpBit(op: LaneOp, env: map<nat, bool>): bool {
    match op
    case LConst(value) => value
    case LAnd(a, b) => Bit(env, a) && Bit(env, b)
    case LOr(a, b) => Bit(env, a) || Bit(env, b)
    case LXor(a, b) => Bit(env, a) != Bit(env, b)
    case LNot(a) => !Bit(env, a)
  }

  /** One lane of the plan. */
  function EvalLane(plan: LanePlan, n: nat, inputs: seq<bool>): map<nat, bool>
    requires n <= |plan.stmts|
  {
    if n == 0 then map i: nat | 0 <= i < |inputs| :: inputs[i]
    else
      var env := EvalLane(plan, n - 1, inputs);
      env[plan.stmts[n - 1].dst := OpBit(plan.stmts[n - 1].op, env)]
  }

  const ZERO: Word := ToWord(0)

  function AllOnes(): Word {
    seq(256, i requires 0 <= i < 256 => true)
  }

  /** The word a statement puts into its slot, from the scratch memory. */
  function OpWord(op: LaneOp, mem: Memory, base: nat): Word {
    match op
    case LConst(value) => if value then AllOnes() else ZERO
    case LAnd(a, b) => AndWord(Load(mem, SlotAddr(base, b)), Load(mem, SlotAddr(base, a)))
    case LOr(a, b) => OrWord(Load(mem, SlotAddr(base, b)), Load(mem, SlotAddr(base, a)))
    case LXor(a, b) => XorWord(Load(mem, SlotAddr(base, b)), Load(mem, SlotAddr(base, a)))
    case LNot(a) => NotWord(Load(mem, SlotAddr(base, a)))
  }

  function SlotAddr(base: nat, slot: nat): nat {
    base + 32 * slot
  }

  // ---------------------------------------------------------------- code

  /** The `n` low bytes of a value, the highest first. */
  function BeBytes(v: nat, n: nat): (r: seq<nat>)
    ensures |r| == n
  {
    if n == 0 then [] else BeBytes(v / 256, n - 1) + [v % 256]
  }

  function FirstNonzero(bytes: seq<nat>): (n: nat)
    ensures n <= |bytes| && (forall i | 0 <= i < n :: bytes[i] == 0) && (n < |bytes| ==> bytes[n] != 0)
  {
    if bytes == [] || bytes[0] != 0 then 0 else 1 + FirstNonzero(bytes[1..])
  }

  /** The shortest push of a 64-bit value. */
  function PushCode(v: nat): seq<nat> {
    if v == 0 then [OP_PUSH0]
    else
      var bytes := BeBytes(v, 8);
      var start := FirstNonzero(bytes);
      [0x5f + (8 - start)] + bytes[start..]
  }

  function LoadCode(addr: nat): seq<nat> {
    PushCode(addr) + [OP_MLOAD]
  }

  function StoreCode(addr: nat): seq<nat> {
    PushCode(addr) + [OP_MSTORE]
  }

  function OnesCode(): seq<nat> {
    [0x7f] + seq(32, i requires 0 <= i < 32 => 0xff)
  }

  function InputCode(base: nat, slot: nat, index: nat): seq<nat> {
    PushCode(32 * index) + [OP_CALLDATALOAD] + StoreCode(SlotAddr(base, slot))
  }

  function OpCode(op: LaneOp): nat {
    match op
    case LOr(_, _) => OP_OR
    case LXor(_, _) => OP_XOR
    case _ => OP_AND
  }

  function StmtCode(base: nat, s: LaneStmt): seq<nat> {
    match s.op
    case LConst(value) => (if value then OnesCode() else [OP_PUSH0]) + StoreCode(SlotAddr(base, s.dst))
    case LNot(a) => LoadCode(SlotAddr(base, a)) + [OP_NOT] + StoreCode(SlotAddr(base, s.dst))
    case _ => LoadCode(SlotAddr(base, s.op.a)) + LoadCode(SlotAddr(base, s.op.b)) + [OpCode(s.op)] + StoreCode(SlotAddr(base, s.dst))
  }

  function InputsCode(base: nat, n: nat): seq<nat> {
    if n == 0 then [] else InputsCode(base, n - 1) + InputCode(base, n - 1, n - 1)
  }

  function StmtsCode(base: nat, stmts: seq<LaneStmt>, n: nat): seq<nat>
    requires n <= |stmts|
  {
    if n == 0 then [] else StmtsCode(base, stmts, n - 1) + StmtCode(base, stmts[n - 1])
  }

  function OutputsCode(base: nat, outBase: nat, outputs: seq<nat>, n: nat): seq<nat>
    requires n <= |outputs|
  {
    if n == 0 then []
    else OutputsCode(base, outBase, outputs, n - 1) + LoadCode(SlotAddr(base, outputs[n - 1])) + StoreCode(outBase + 32 * (n - 1))
  }

  /** One more than the highest slot defined by the inputs and the first `n` statements. */
  function SlotsUsed(plan: LanePlan, n: nat): nat
    requires n <= |plan.stmts|
  {
    if n == 0 then plan.numParams
    else
      var before := SlotsUsed(plan, n - 1);
      if plan.stmts[n - 1].dst + 1 > before then plan.stmts[n - 1].dst + 1 else before
  }

  function OutBase(base: nat, plan: LanePlan): nat {
    base + 32 * SlotsUsed(plan, |plan.stmts|)
  }

  function PlanCode(base: nat, plan: LanePlan): seq<nat> {
    InputsCode(base, plan.numParams) + StmtsCode(base, plan.stmts, |plan.stmts|) +
    OutputsCode(base, OutBase(base, plan), plan.outputs, |plan.outputs|) + PushCode(32 * |plan.outputs|) + PushCode(OutBase(base, plan)) + [OP_RETURN]
  }

  // ---------------------------------------------------------------- the emitter

  class RawEvm {
    const scratchBase: nat
    var code: seq<nat>
      // output stores wait until every slot is known
    var outOps: seq<(nat, nat)>
    var maxSlot: Option<nat>

    constructor (scratchBase: nat)
      ensures this.scratchBase == scratchBase && code == [] && outOps == [] && maxSlot == None
    {
      this.scratchBase, code, outOps, maxSlot := scratchBase, [], [], None;
    }

    function NumSlots(): nat
      reads this`maxSlot
    {
      if maxSlot.None? then 0 else maxSlot.value + 1
    }

    method Touch(slot: nat)
      modifies this`maxSlot
      ensures NumSlots() == if slot + 1 > old(NumSlots()) then slot + 1 else old(NumSlots())
    {
      maxSlot := Some(if maxSlot.Some? && maxSlot.value > slot then maxSlot.value else slot);
    }

    method PushUint(value: nat)
      modifies this`code
      ensures code == old(code) + PushCode(value)
    {
      hide BeBytes;
      if value == 0 {
        code := code + [OP_PUSH0];
        return;
      }
      var bytes := BeBytes(value, 8);
      var start := SkipZeros(bytes);
      var width := 8 - start;
      code := code + [0x5f + width];
      code := code + bytes[start..];
    }

    static method SkipZeros(bytes: seq<nat>) returns (start: nat)
      ensures start == FirstNonzero(bytes)
    {
      start := 0;
      while start < |bytes| && bytes[start] == 0
        invariant start <= |bytes| && FirstNonzero(bytes) == start + FirstNonzero(bytes[start..])
      {
        assert bytes[start..][1..] == bytes[start + 1..];
        start := start + 1;
      }
    }

    method MloadFrom(addr: nat)
      modifies this`code
      ensures code == old(code) + LoadCode(addr)
    {
      PushUint(addr);
      code := code + [OP_MLOAD];
    }

    method MstoreTo(addr: nat)
      modifies this`code
      ensures code == old(code) + StoreCode(addr)
    {
      PushUint(addr);
      code := code + [OP_MSTORE];
    }

    method Input(slot: nat, index: nat)
      modifies this`code, this`maxSlot
      ensures code == old(code) + InputCode(scratchBase, slot, index)
      ensures NumSlots() == if slot + 1 > old(NumSlots()) then slot + 1 else old(NumSlots())
    {
      hide PushCode;
      Touch(slot);
      PushUint(32 * index);
      code := code + [OP_CALLDATALOAD];
      MstoreTo(SlotAddr(scratchBase, slot));
    }

    /** One statement: a constant, an inversion, or a gate of two operands. */
    method Statement(s: LaneStmt)
      modifies this`code, this`maxSlot
      ensures code == old(code) + StmtCode(scratchBase, s)
      ensures NumSlots() == if s.dst + 1 > old(NumSlots()) then s.dst + 1 else old(NumSlots())
    {
      hide PushCode;
      Touch(s.dst);
      match s.op
      case LConst(value) =>
        if value {
          code := code + OnesCode();
        } else {
          code := code + [OP_PUSH0];
        }
        MstoreTo(SlotAddr(scratchBase, s.dst));
      case LNot(a) =>
        MloadFrom(SlotAddr(scratchBase, a));
        code := code + [OP_NOT];
        MstoreTo(SlotAddr(scratchBase, s.dst));
      case LAnd(a, b) =>
        Gate2(s.dst, a, b, OP_AND);
      case LOr(a, b) =>
        Gate2(s.dst, a, b, OP_OR);
      case LXor(a, b) =>
        Gate2(s.dst, a, b, OP_XOR);
    }

    method Gate2(dst: nat, a: nat, b: nat, op: nat)
      modifies this`code
      ensures code == old(code) + (LoadCode(SlotAddr(scratchBase, a)) + LoadCode(SlotAddr(scratchBase, b)) + [op] + StoreCode(SlotAddr(scratchBase, dst)))
    {
      hide LoadCode, StoreCode;
      MloadFrom(SlotAddr(scratchBase, a));
      MloadFrom(SlotAddr(scratchBase, b));
      code := code + [op];
      MstoreTo(SlotAddr(scratchBase, dst));
    }

    method Output(index: nat, slot: nat)
      modifies this`outOps
      ensures outOps == old(outOps) + [(index, slot)]
    {
      outOps := outOps + [(index, slot)];
    }

    /** Stage the outputs behind the highest slot and return them. */
    method Finish(outputs: seq<nat>) returns (bytes: seq<nat>)
      requires |outOps| == |outputs| && forall j | 0 <= j < |outputs| :: outOps[j] == (j, outputs[j])
      modifies this`code
      ensures var outBase := scratchBase + 32 * NumSlots();
        bytes == old(code) + OutputsCode(scratchBase, outBase, outputs, |outputs|) + PushCode(32 * |outputs|) + PushCode(outBase) + [OP_RETURN]
    {
      hide PushCode, LoadCode, StoreCode;
      var outBase := scratchBase + 32 * NumSlots();
      for j := 0 to |outOps|
        invariant code == old(code) + OutputsCode(scratchBase, outBase, outputs, j)
      {
        MloadFrom(SlotAddr(scratchBase, outOps[j].1));
        MstoreTo(outBase + 32 * outOps[j].0);
      }
      PushUint(32 * |outOps|);
      PushUint(outBase);
      code := code + [OP_RETURN];
      bytes := code;
    }
  }

  /** Drive the emitter through inputs, statements and outputs. */
  method EmitPlan(plan: LanePlan, scratchBase: nat) returns (bytes: seq<nat>)
    ensures bytes == PlanCode(scratchBase, plan)
  {
    hide InputCode, StmtCode, PushCode, LoadCode, StoreCode;
    var emit := new RawEvm(scratchBase);
    for index := 0 to plan.numParams
      invariant emit.code == InputsCode(scratchBase, index) && emit.outOps == [] && emit.NumSlots() == index
      invariant emit.scratchBase == scratchBase
    {
      emit.Input(index, index);
    }
    for i := 0 to |plan.stmts|
      invariant emit.code == InputsCode(scratchBase, plan.numParams) + StmtsCode(scratchBase, plan.stmts, i) && emit.outOps == []
      invariant emit.NumSlots() == SlotsUsed(plan, i)
    {
      emit.Statement(plan.stmts[i]);
    }
    for j := 0 to |plan.outputs|
      invariant emit.code == InputsCode(scratchBase, plan.numParams) + StmtsCode(scratchBase, plan.stmts, |plan.stmts|)
      invariant |emit.outOps| == j && forall i | 0 <= i < j :: emit.outOps[i] == (i, plan.outputs[i])
      invariant emit.NumSlots() == SlotsUsed(plan, |plan.stmts|)
    {
      emit.Output(j, plan.outputs[j]);
    }
    bytes := emit.Finish(plan.outputs);
  }

  // ---------------------------------------------------------------- running the pieces

  lemma {:induction false} BeValue(v: nat, n: nat)
    ensures BigEndian(BeBytes(v, n)) == v % Pow2(8 * n)
    decreases n
  {
    if n == 0 {
      assert Pow2(0) == 1;
    } else {
      BeValue(v / 256, n - 1);
      assert BeBytes(v, n)[..n - 1] == BeBytes(v / 256, n - 1);
      Pow2Add(8 * (n - 1), 8);
      assert Pow2(8) == 256 by {
        Pow2Add(4, 4);
        assert Pow2(4) == 16;
      }
      ByteStep(v, Pow2(8 * (n - 1)));
    }
  }

  lemma ByteStep(v: nat, p: nat)
    requires p > 0
    ensures 256 * (v / 256 % p) + v % 256 == v % (p * 256)
  {
    var q, r := v / 256, v % 256;
    var h, l := q / p, q % p;
    assert q == h * p + l && v == 256 * q + r;
    assert 256 * q == h * (p * 256) + 256 * l by {
      Scale256(h, p, l, q);
    }
    DivModUnique(v, p * 256, h, 256 * l + r);
  }

  lemma Scale256(h: nat, p: nat, l: nat, q: nat)
    requires q == h * p + l
    ensures 256 * q == h * (p * 256) + 256 * l
  {
    assert h * (p * 256) == 256 * (h * p);
  }

  lemma {:induction false} DropZeroBytes(bytes: seq<nat>, start: nat)
    requires start <= |bytes| && forall i | 0 <= i < start :: bytes[i] == 0
    ensures BigEndian(bytes[start..]) == BigEndian(bytes)
    decreases |bytes|
  {
    if start < |bytes| {
      var n := |bytes| - 1;
      DropZeroBytes(bytes[..n], start);
      assert bytes[start..][..n - start] == bytes[..n][start..];
    } else if bytes != [] {
      var n := |bytes| - 1;
      DropZeroBytes(bytes[..n], n);
      assert bytes[..n][n..] == [] && bytes[start..] == [];
    }
  }

  /** The address or offset fits 64 bits and the stack has room. */
  predicate Room(v: nat, m: Machine) {
    v < Pow2(64) && |m.stack| < 8
  }

  lemma ExecPushCode(v: nat, rest: seq<nat>, m: Machine, data: seq<Byte>)
    requires Room(v, m)
    ensures Exec(PushCode(v) + rest, m, data) == Exec(rest, Machine(m.stack + [ToWord(v)], m.mem), data)
  {
    hide Exec, ToWord, BeBytes, Pow2;
    if v == 0 {
      ExecPush0(rest, m, data);
    } else {
      var bytes := BeBytes(v, 8);
      var start := FirstNonzero(bytes);
      BeValue(v, 8);
      SmallMod(v, Pow2(64));
      DropZeroBytes(bytes, start);
      if start == 8 {
        AllZero(bytes);
      }
      ExecPush(bytes[start..], rest, m, data);
    }
  }

  lemma {:induction false} AllZero(bytes: seq<nat>)
    requires forall i | 0 <= i < |bytes| :: bytes[i] == 0
    ensures BigEndian(bytes) == 0
    decreases |bytes|
  {
    if bytes != [] {
      AllZero(bytes[..|bytes| - 1]);
    }
  }

  lemma ExecLoadCode(addr: nat, rest: seq<nat>, m: Machine, data: seq<Byte>)
    requires Room(addr, m)
    ensures Exec(LoadCode(addr) + rest, m, data) == Exec(rest, Machine(m.stack + [Load(m.mem, addr)], m.mem), data)
  {
    hide Exec, ToWord, PushCode, Load, Pow2;
    assert LoadCode(addr) + rest == PushCode(addr) + ([OP_MLOAD] + rest);
    ExecPushCode(addr, [OP_MLOAD] + rest, m, data);
    WordBack(addr);
    ExecLoad(rest, Machine(m.stack + [ToWord(addr)], m.mem), data, m.stack, ToWord(addr));
  }

  lemma ExecStoreCode(addr: nat, rest: seq<nat>, m: Machine, data: seq<Byte>, below: seq<Word>, value: Word)
    requires Room(addr, m) && m.stack == below + [value]
    ensures Exec(StoreCode(addr) + rest, m, data) == Exec(rest, Machine(below, Store(m.mem, addr, value)), data)
  {
    hide Exec, ToWord, PushCode, Store, Pow2;
    assert StoreCode(addr) + rest == PushCode(addr) + ([OP_MSTORE] + rest);
    ExecPushCode(addr, [OP_MSTORE] + rest, m, data);
    WordBack(addr);
    assert m.stack + [ToWord(addr)] == below + [value, ToWord(addr)];
    ExecStore(rest, Machine(m.stack + [ToWord(addr)], m.mem), data, below, value, ToWord(addr));
  }

  lemma OnesValue()
    ensures ToWord(BigEndian(seq(32, i requires 0 <= i < 32 => 0xff))) == AllOnes()
  {
    hide ToWord;
    OnesPrefix(32);
    assert seq(32, i requires 0 <= i < 32 => 0xff)[..32] == seq(32, i requires 0 <= i < 32 => 0xff);
    AllOnesNumber();
  }

  lemma {:induction false} OnesPrefix(n: nat)
    requires n <= 32
    ensures BigEndian(seq(32, i requires 0 <= i < 32 => 0xff)[..n]) == Pow2(8 * n) - 1
    decreases n
  {
    var bytes := seq(32, i requires 0 <= i < 32 => 0xff);
    if n == 0 {
      assert Pow2(0) == 1;
    } else {
      OnesPrefix(n - 1);
      assert bytes[..n][..n - 1] == bytes[..n - 1];
      Pow2Add(8 * (n - 1), 8);
      assert Pow2(8) == 256 by {
        Pow2Add(4, 4);
        assert Pow2(4) == 16;
      }
    }
  }

  lemma AllOnesNumber()
    ensures ToWord(Pow2(256) - 1) == AllOnes()
  {
    hide Digits, Pow2, Low;
    OnesNum(AllOnes(), 256);
    DigitsOfNum(AllOnes());
  }

  lemma {:induction false} OnesNum(bits: seq<bool>, k: nat)
    requires k <= |bits| && forall i | 0 <= i < k :: bits[i]
    ensures Low(bits, k) == Pow2(k) - 1
    decreases k
  {
    if k > 0 {
      OnesNum(bits, k - 1);
    }
  }

  lemma ExecOnes(rest: seq<nat>, m: Machine, data: seq<Byte>)
    requires |m.stack| < 8
    ensures Exec(OnesCode() + rest, m, data) == Exec(rest, Machine(m.stack + [AllOnes()], m.mem), data)
  {
    hide Exec, ToWord, BigEndian;
    OnesValue();
    ExecPush(seq(32, i requires 0 <= i < 32 => 0xff), rest, m, data);
  }

  lemma ExecInput(base: nat, slot: nat, index: nat, rest: seq<nat>, mem: Memory, data: seq<Byte>)
    requires 32 * index < Pow2(64) && SlotAddr(base, slot) < Pow2(64)
    ensures Exec(InputCode(base, slot, index) + rest, Machine([], mem), data)
      == Exec(rest, Machine([], Store(mem, SlotAddr(base, slot), CallDataWord(data, 32 * index))), data)
  {
    hide Exec, ToWord, PushCode, Store, StoreCode, CallDataWord, Pow2;
    var tail := StoreCode(SlotAddr(base, slot)) + rest;
    var none: seq<Word> := [];
    assert InputCode(base, slot, index) + rest == PushCode(32 * index) + ([OP_CALLDATALOAD] + tail);
    ExecPushCode(32 * index, [OP_CALLDATALOAD] + tail, Machine(none, mem), data);
    WordBack(32 * index);
    ExecCallDataLoad(tail, Machine(none + [ToWord(32 * index)], mem), data, none, ToWord(32 * index));
    ExecStoreCode(SlotAddr(base, slot), rest, Machine(none + [CallDataWord(data, 32 * index)], mem), data, none, CallDataWord(data, 32 * index));
  }

  lemma ExecGate(base: nat, s: LaneStmt, rest: seq<nat>, mem: Memory, data: seq<Byte>)
    requires (s.op.LAnd? || s.op.LOr? || s.op.LXor?) && SlotAddr(base, s.op.a) < Pow2(64) && SlotAddr(base, s.op.b) < Pow2(64)
    requires SlotAddr(base, s.dst) < Pow2(64)
    ensures Exec(StmtCode(base, s) + rest, Machine([], mem), data)
      == Exec(rest, Machine([], Store(mem, SlotAddr(base, s.dst), OpWord(s.op, mem, base))), data)
  {
    hide Exec, Store, StoreCode, LoadCode, Load, AndWord, OrWord, XorWord, SlotAddr, Pow2;
    var none: seq<Word> := [];
    var x, y := Load(mem, SlotAddr(base, s.op.a)), Load(mem, SlotAddr(base, s.op.b));
    var tail2 := StoreCode(SlotAddr(base, s.dst)) + rest;
    var tail1 := LoadCode(SlotAddr(base, s.op.b)) + ([OpCode(s.op)] + tail2);
    assert StmtCode(base, s) + rest == LoadCode(SlotAddr(base, s.op.a)) + tail1;
    ExecLoadCode(SlotAddr(base, s.op.a), tail1, Machine(none, mem), data);
    ExecLoadCode(SlotAddr(base, s.op.b), [OpCode(s.op)] + tail2, Machine(none + [x], mem), data);
    assert none + [x] + [y] == none + [x, y];
    ExecBinary(OpCode(s.op), tail2, Machine(none + [x, y], mem), data, none, x, y);
    ExecStoreCode(SlotAddr(base, s.dst), rest, Machine(none + [OpWord(s.op, mem, base)], mem), data, none, OpWord(s.op, mem, base));
  }

  lemma ExecOther(base: nat, s: LaneStmt, rest: seq<nat>, mem: Memory, data: seq<Byte>)
    requires s.op.LConst? || (s.op.LNot? && SlotAddr(base, s.op.a) < Pow2(64))
    requires SlotAddr(base, s.dst) < Pow2(64)
    ensures Exec(StmtCode(base, s) + rest, Machine([], mem), data)
      == Exec(rest, Machine([], Store(mem, SlotAddr(base, s.dst), OpWord(s.op, mem, base))), data)
  {
    hide Exec, Store, StoreCode, LoadCode, Load, NotWord, SlotAddr, AllOnes, OnesCode, ToWord, Pow2;
    var none: seq<Word> := [];
    var tail := StoreCode(SlotAddr(base, s.dst)) + rest;
    var w := OpWord(s.op, mem, base);
    match s.op
    case LConst(value) =>
      if value {
        assert StmtCode(base, s) + rest == OnesCode() + tail;
        ExecOnes(tail, Machine(none, mem), data);
      } else {
        assert StmtCode(base, s) + rest == [OP_PUSH0] + tail;
        ExecPush0(tail, Machine(none, mem), data);
      }
      ExecStoreCode(SlotAddr(base, s.dst), rest, Machine(none + [w], mem), data, none, w);
    case LNot(a) =>
      assert StmtCode(base, s) + rest == LoadCode(SlotAddr(base, a)) + ([OP_NOT] + tail);
      ExecLoadCode(SlotAddr(base, a), [OP_NOT] + tail, Machine(none, mem), data);
      ExecNot(tail, Machine(none + [Load(mem, SlotAddr(base, a))], mem), data, none, Load(mem, SlotAddr(base, a)));
      ExecStoreCode(SlotAddr(base, s.dst), rest, Machine(none + [w], mem), data, none, w);
  }

  // ---------------------------------------------------------------- running the whole plan

  function MemInputs(base: nat, n: nat, data: seq<Byte>): Memory {
    if n == 0 then map[] else Store(MemInputs(base, n - 1, data), SlotAddr(base, n - 1), CallDataWord(data, 32 * (n - 1)))
  }

  function MemStmts(base: nat, plan: LanePlan, n: nat, data: seq<Byte>): Memory
    requires n <= |plan.stmts|
  {
    if n == 0 then MemInputs(base, plan.numParams, data)
    else
      var mem := MemStmts(base, plan, n - 1, data);
      Store(mem, SlotAddr(base, plan.stmts[n - 1].dst), OpWord(plan.stmts[n - 1].op, mem, base))
  }

  function MemOutputs(base: nat, plan: LanePlan, n: nat, data: seq<Byte>): Memory
    requires n <= |plan.outputs|
  {
    if n == 0 then MemStmts(base, plan, |plan.stmts|, data)
    else
      var mem := MemOutputs(base, plan, n - 1, data);
      Store(mem, OutBase(base, plan) + 32 * (n - 1), Load(mem, SlotAddr(base, plan.outputs[n - 1])))
  }

  /** Every address in sight is below 2^64. */
  lemma Addresses(base: nat, plan: LanePlan)
    requires PlanOk(plan) && base < U32
    ensures Pow2(64) == U32 * U32
    ensures forall s: nat | s < U32 :: SlotAddr(base, s) < Pow2(64) && 32 * s < Pow2(64)
    ensures SlotsUsed(plan, |plan.stmts|) <= U32
    ensures forall j | 0 <= j <= |plan.outputs| :: OutBase(base, plan) + 32 * j < Pow2(64)
  {
    hide PlanOk, SlotsUsed, StmtOk;
    PowU32();
    SlotsBelow(plan, |plan.stmts|);
    OutputsBelow(plan);
  }

  lemma PowU32()
    ensures Pow2(64) == U32 * U32
  {
    hide Pow2;
    Pow16();
    Pow2Add(4, 4);
    Pow2Add(8, 8);
    Pow2Add(16, 16);
    Pow2Add(32, 32);
  }

  lemma Pow16()
    ensures Pow2(4) == 16
  {
  }

  lemma OutputsBelow(plan: LanePlan)
    requires PlanOk(plan)
    ensures |plan.outputs| < U32 && plan.numParams < U32
  {
  }

  lemma {:induction false} SlotsBelow(plan: LanePlan, n: nat)
    requires PlanOk(plan) && n <= |plan.stmts|
    ensures SlotsUsed(plan, n) <= U32
    decreases n
  {
    if n > 0 {
      SlotsBelow(plan, n - 1);
      assert StmtOk(plan, n - 1);
    }
  }

  lemma {:induction false} HasBelow(plan: LanePlan, n: nat, s: nat)
    requires n <= |plan.stmts| && HasSlot(plan, n, s)
    ensures s < SlotsUsed(plan, n)
    decreases n
  {
    if n > 0 {
      if s < plan.numParams || exists i :: 0 <= i < n - 1 && plan.stmts[i].dst == s {
        HasBelow(plan, n - 1, s);
      }
    }
  }

  lemma {:induction false} ExecInputs(base: nat, plan: LanePlan, n: nat, rest: seq<nat>, data: seq<Byte>)
    requires PlanOk(plan) && base < U32 && n <= plan.numParams
    ensures Exec(InputsCode(base, n) + rest, Machine([], map[]), data) == Exec(rest, Machine([], MemInputs(base, n, data)), data)
    decreases n
  {
    hide Exec, InputCode, Store, CallDataWord, PlanOk, SlotAddr, Pow2;
    if n == 0 {
      assert InputsCode(base, 0) + rest == rest;
    } else {
      Addresses(base, plan);
      OutputsBelow(plan);
      assert InputsCode(base, n) + rest == InputsCode(base, n - 1) + (InputCode(base, n - 1, n - 1) + rest);
      ExecInputs(base, plan, n - 1, InputCode(base, n - 1, n - 1) + rest, data);
      ExecInput(base, n - 1, n - 1, rest, MemInputs(base, n - 1, data), data);
    }
  }

  lemma StmtSlots(plan: LanePlan, i: nat)
    requires PlanOk(plan) && i < |plan.stmts|
    ensures plan.stmts[i].dst < U32 && forall s | s in Sources(plan.stmts[i].op) :: s < U32 && HasSlot(plan, i, s)
  {
    assert StmtOk(plan, i);
    forall s | s in Sources(plan.stmts[i].op) ensures s < U32 {
      HasBelow(plan, i, s);
      SlotsBelow(plan, i);
    }
  }

  lemma ExecStmt(base: nat, plan: LanePlan, i: nat, rest: seq<nat>, mem: Memory, data: seq<Byte>)
    requires PlanOk(plan) && base < U32 && i < |plan.stmts|
    ensures Exec(StmtCode(base, plan.stmts[i]) + rest, Machine([], mem), data)
      == Exec(rest, Machine([], Store(mem, SlotAddr(base, plan.stmts[i].dst), OpWord(plan.stmts[i].op, mem, base))), data)
  {
    hide Exec, StmtCode, Store, OpWord, PlanOk, SlotAddr, Pow2;
    Addresses(base, plan);
    StmtSlots(plan, i);
    var s := plan.stmts[i];
    match s.op
    case LConst(_) => ExecOther(base, s, rest, mem, data);
    case LNot(a) =>
      assert a in Sources(s.op);
      ExecOther(base, s, rest, mem, data);
    case LAnd(a, b) =>
      assert a in Sources(s.op) && b in Sources(s.op);
      ExecGate(base, s, rest, mem, data);
    case LOr(a, b) =>
      assert a in Sources(s.op) && b in Sources(s.op);
      ExecGate(base, s, rest, mem, data);
    case LXor(a, b) =>
      assert a in Sources(s.op) && b in Sources(s.op);
      ExecGate(base, s, rest, mem, data);
  }

  lemma {:induction false} ExecStmts(base: nat, plan: LanePlan, n: nat, rest: seq<nat>, data: seq<Byte>)
    requires PlanOk(plan) && base < U32 && n <= |plan.stmts|
    ensures Exec(StmtsCode(base, plan.stmts, n) + rest, Machine([], MemInputs(base, plan.numParams, data)), data)
      == Exec(rest, Machine([], MemStmts(base, plan, n, data)), data)
    decreases n
  {
    hide Exec, StmtCode, Store, OpWord, PlanOk, SlotAddr, MemInputs;
    if n == 0 {
      assert StmtsCode(base, plan.stmts, 0) + rest == rest;
    } else {
      var code := StmtCode(base, plan.stmts[n - 1]);
      assert StmtsCode(base, plan.stmts, n) + rest == StmtsCode(base, plan.stmts, n - 1) + (code + rest);
      ExecStmts(base, plan, n - 1, code + rest, data);
      ExecStmt(base, plan, n - 1, rest, MemStmts(base, plan, n - 1, data), data);
    }
  }

  lemma {:induction false} ExecOutputs(base: nat, plan: LanePlan, n: nat, rest: seq<nat>, data: seq<Byte>)
    requires PlanOk(plan) && base < U32 && n <= |plan.outputs|
    ensures Exec(OutputsCode(base, OutBase(base, plan), plan.outputs, n) + rest, Machine([], MemStmts(base, plan, |plan.stmts|, data)), data)
      == Exec(rest, Machine([], MemOutputs(base, plan, n, data)), data)
    decreases n
  {
    hide Exec, LoadCode, StoreCode, Store, Load, PlanOk, SlotAddr, MemStmts, OutBase, Pow2;
    var outBase := OutBase(base, plan);
    if n == 0 {
      assert OutputsCode(base, outBase, plan.outputs, 0) + rest == rest;
    } else {
      Addresses(base, plan);
      OutputSlot(plan, n - 1);
      var none: seq<Word> := [];
      var slot, addr := SlotAddr(base, plan.outputs[n - 1]), outBase + 32 * (n - 1);
      var mem := MemOutputs(base, plan, n - 1, data);
      var tail := StoreCode(addr) + rest;
      assert OutputsCode(base, outBase, plan.outputs, n) + rest == OutputsCode(base, outBase, plan.outputs, n - 1) + (LoadCode(slot) + tail);
      ExecOutputs(base, plan, n - 1, LoadCode(slot) + tail, data);
      ExecLoadCode(slot, tail, Machine(none, mem), data);
      ExecStoreCode(addr, rest, Machine(none + [Load(mem, slot)], mem), data, none, Load(mem, slot));
    }
  }

  lemma OutputSlot(plan: LanePlan, j: nat)
    requires PlanOk(plan) && j < |plan.outputs|
    ensures plan.outputs[j] < U32 && plan.outputs[j] < SlotsUsed(plan, |plan.stmts|) && HasSlot(plan, |plan.stmts|, plan.outputs[j])
  {
    assert plan.outputs[j] in plan.outputs;
    HasBelow(plan, |plan.stmts|, plan.outputs[j]);
    SlotsBelow(plan, |plan.stmts|);
  }

  /** The stack is empty between pieces, and the run ends by returning the staged words. */
  lemma PlanRuns(base: nat, plan: LanePlan, data: seq<Byte>)
    requires PlanOk(plan) && base < U32
    ensures Exec(PlanCode(base, plan), Machine([], map[]), data)
      == Returned(MemBytes(MemOutputs(base, plan, |plan.outputs|, data), OutBase(base, plan), 32 * |plan.outputs|))
  {
    hide Exec, InputsCode, StmtsCode, OutputsCode, PlanOk, MemOutputs, MemStmts, MemInputs, OutBase, PushCode, ToWord, Pow2, MemBytes;
    Addresses(base, plan);
    OutputsBelow(plan);
    var none: seq<Word> := [];
    var outBase, size, mem := OutBase(base, plan), 32 * |plan.outputs|, MemOutputs(base, plan, |plan.outputs|, data);
    var tail3 := PushCode(size) + (PushCode(outBase) + [OP_RETURN]);
    var tail2 := OutputsCode(base, outBase, plan.outputs, |plan.outputs|) + tail3;
    var tail1 := StmtsCode(base, plan.stmts, |plan.stmts|) + tail2;
    assert PlanCode(base, plan) == InputsCode(base, plan.numParams) + tail1;
    ExecInputs(base, plan, plan.numParams, tail1, data);
    ExecStmts(base, plan, |plan.stmts|, tail2, data);
    ExecOutputs(base, plan, |plan.outputs|, tail3, data);
    ExecPushCode(size, PushCode(outBase) + [OP_RETURN], Machine(none, mem), data);
    assert outBase + 32 * 0 == outBase;
    ExecPushCode(outBase, [OP_RETURN], Machine(none + [ToWord(size)], mem), data);
    WordBack(size);
    WordBack(outBase);
    assert none + [ToWord(size)] + [ToWord(outBase)] == none + [ToWord(size), ToWord(outBase)];
    ExecReturn(Machine(none + [ToWord(size), ToWord(outBase)], mem), data, none, ToWord(size), ToWord(outBase));
  }

  // ---------------------------------------------------------------- what the memory holds

  /** The inputs of one lane: its bit of every packed input word. */
  function Lane(plan: LanePlan, data: seq<Byte>, i: nat): (r: seq<bool>)
    requires i < 256
    ensures |r| == plan.numParams
  {
    seq(plan.numParams, k requires 0 <= k < plan.numParams => CallDataWord(data, 32 * k)[i])
  }

  lemma Apart(base: nat, s: nat, t: nat)
    requires s != t
    ensures SlotAddr(base, s) + 32 <= SlotAddr(base, t) || SlotAddr(base, t) + 32 <= SlotAddr(base, s)
  {
  }

  lemma {:induction false} InputHeld(base: nat, n: nat, data: seq<Byte>, s: nat)
    requires s < n
    ensures Load(MemInputs(base, n, data), SlotAddr(base, s)) == CallDataWord(data, 32 * s)
    decreases n
  {
    hide Load, Store, CallDataWord, SlotAddr;
    var mem := MemInputs(base, n - 1, data);
    if s == n - 1 {
      LoadStored(mem, SlotAddr(base, s), CallDataWord(data, 32 * s));
    } else {
      InputHeld(base, n - 1, data, s);
      Apart(base, s, n - 1);
      LoadElsewhere(mem, SlotAddr(base, n - 1), CallDataWord(data, 32 * (n - 1)), SlotAddr(base, s));
    }
  }

  /** Bit `i` of a defined slot is what lane `i` of the plan has there. */
  lemma {:induction false} SlotHeld(base: nat, plan: LanePlan, n: nat, data: seq<Byte>, s: nat, i: nat)
    requires PlanOk(plan) && n <= |plan.stmts| && HasSlot(plan, n, s) && i < 256
    ensures Load(MemStmts(base, plan, n, data), SlotAddr(base, s))[i] == Bit(EvalLane(plan, n, Lane(plan, data, i)), s)
    decreases n, 0
  {
    hide Load, Store, CallDataWord, SlotAddr, OpWord, OpBit, PlanOk, MemInputs;
    if n == 0 {
      InputHeld(base, plan.numParams, data, s);
    } else {
      var stmt, mem := plan.stmts[n - 1], MemStmts(base, plan, n - 1, data);
      var w := OpWord(stmt.op, mem, base);
      if s == stmt.dst {
        LoadStored(mem, SlotAddr(base, s), w);
        OpHeld(base, plan, n - 1, data, i);
      } else {
        SlotHeld(base, plan, n - 1, data, s, i);
        Apart(base, s, stmt.dst);
        LoadElsewhere(mem, SlotAddr(base, stmt.dst), w, SlotAddr(base, s));
      }
    }
  }

  lemma {:induction false} OpHeld(base: nat, plan: LanePlan, k: nat, data: seq<Byte>, i: nat)
    requires PlanOk(plan) && k < |plan.stmts| && i < 256
    ensures OpWord(plan.stmts[k].op, MemStmts(base, plan, k, data), base)[i]
      == OpBit(plan.stmts[k].op, EvalLane(plan, k, Lane(plan, data, i)))
    decreases k, 1
  {
    hide Load, SlotAddr, PlanOk, MemStmts, EvalLane;
    var op := plan.stmts[k].op;
    StmtSlots(plan, k);
    forall s | s in Sources(op)
      ensures Load(MemStmts(base, plan, k, data), SlotAddr(base, s))[i] == Bit(EvalLane(plan, k, Lane(plan, data, i)), s)
    {
      SlotHeld(base, plan, k, data, s, i);
    }
    match op
    case LConst(value) =>
      if !value {
        ZeroBits(i);
      }
    case LNot(a) => assert a in Sources(op);
    case LAnd(a, b) => assert a in Sources(op) && b in Sources(op);
    case LOr(a, b) => assert a in Sources(op) && b in Sources(op);
    case LXor(a, b) => assert a in Sources(op) && b in Sources(op);
  }

  lemma ZeroBits(i: nat)
    requires i < 256
    ensures !ZERO[i]
  {
    ZeroQuotient(Pow2(i));
  }

  lemma ZeroQuotient(p: nat)
    requires p > 0
    ensures 0 / p % 2 == 0
  {
  }

  /** Staging outputs writes above every slot. */
  lemma {:induction false} SlotStays(base: nat, plan: LanePlan, n: nat, data: seq<Byte>, s: nat)
    requires n <= |plan.outputs| && s < SlotsUsed(plan, |plan.stmts|)
    ensures Load(MemOutputs(base, plan, n, data), SlotAddr(base, s)) == Load(MemStmts(base, plan, |plan.stmts|, data), SlotAddr(base, s))
    decreases n
  {
    hide Load, Store, MemStmts, SlotsUsed;
    if n > 0 {
      SlotStays(base, plan, n - 1, data, s);
      var mem := MemOutputs(base, plan, n - 1, data);
      LoadElsewhere(mem, OutBase(base, plan) + 32 * (n - 1), Load(mem, SlotAddr(base, plan.outputs[n - 1])), SlotAddr(base, s));
    }
  }

  lemma {:induction false} OutputHeld(base: nat, plan: LanePlan, n: nat, data: seq<Byte>, j: nat)
    requires PlanOk(plan) && j < n <= |plan.outputs|
    ensures Load(MemOutputs(base, plan, n, data), OutBase(base, plan) + 32 * j)
      == Load(MemStmts(base, plan, |plan.stmts|, data), SlotAddr(base, plan.outputs[j]))
    decreases n
  {
    hide Load, Store, MemStmts, SlotsUsed, OutBase, SlotAddr, PlanOk;
    var outBase, mem := OutBase(base, plan), MemOutputs(base, plan, n - 1, data);
    var w := Load(mem, SlotAddr(base, plan.outputs[n - 1]));
    if j == n - 1 {
      LoadStored(mem, outBase + 32 * j, w);
      OutputSlot(plan, j);
      SlotStays(base, plan, n - 1, data, plan.outputs[j]);
    } else {
      OutputHeld(base, plan, n - 1, data, j);
      LoadElsewhere(mem, outBase + 32 * (n - 1), w, outBase + 32 * j);
    }
  }

  // ---------------------------------------------------------------- the result

  /** Bit `i` of output word `j` among returned bytes, words in big-endian order. */
  function ReturnedBit(bytes: seq<Byte>, j: nat, i: nat): bool
    requires i < 256 && |bytes| >= 32 * j + 32
  {
    bytes[32 * j + 31 - i / 8][i % 8]
  }

  /** Whatever the call data, the code returns one word per output; each lane is what the plan computes on that lane. */
  lemma CodeComputesPlan(base: nat, plan: LanePlan, data: seq<Byte>) returns (bytes: seq<Byte>)
    requires PlanOk(plan) && base < U32
    ensures Exec(PlanCode(base, plan), Machine([], map[]), data) == Returned(bytes) && |bytes| == 32 * |plan.outputs|
    ensures forall j: nat, i: nat | j < |plan.outputs| && i < 256 ::
      ReturnedBit(bytes, j, i) == Bit(EvalLane(plan, |plan.stmts|, Lane(plan, data, i)), plan.outputs[j])
  {
    hide Exec, PlanCode, PlanOk, MemOutputs, MemStmts, OutBase, EvalLane, Bit, LoadByte, HasSlot;
    PlanRuns(base, plan, data);
    var mem, outBase := MemOutputs(base, plan, |plan.outputs|, data), OutBase(base, plan);
    bytes := MemBytes(mem, outBase, 32 * |plan.outputs|);
    forall j: nat, i: nat | j < |plan.outputs| && i < 256
      ensures ReturnedBit(bytes, j, i) == Bit(EvalLane(plan, |plan.stmts|, Lane(plan, data, i)), plan.outputs[j])
    {
      BitPlace(i);
      OutputHeld(base, plan, |plan.outputs|, data, j);
      OutputSlot(plan, j);
      SlotHeld(base, plan, |plan.stmts|, data, plan.outputs[j], i);
      assert bytes[32 * j + 31 - i / 8] == LoadByte(mem, outBase + (32 * j + 31 - i / 8));
    }
  }
}
