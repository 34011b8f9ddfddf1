/**
 The WASM programs the importer accepts, as block graphs over SSA values, and what running one
 means: words are bit strings, arithmetic is arithmetic modulo the word size, memory is bytes.
 `fuel` bounds how many blocks a run may enter one inside or after the other.
 */
module WasmProgram {
  import opened Common
  import opened Numbers
  import opened VCircuit
  import opened Karatsuba
  import opened BitCircuits

  type ValueId = nat
  type BlockId = nat
  type FuncId = nat

  datatype Ty = I32 | I64 | OtherTy

  function Width(ty: Ty): Option<nat> {
    match ty
    case I32 => Some(32)
    case I64 => Some(64)
    case OtherTy => None
  }

  datatype BinOp = Add | Sub | Mul | BitOp(gate: Gate)

  datatype Operator =
    | ConstOp(ty: Ty, value: U64)
    | BinaryOp(op: BinOp)
    | EqzOp
    | CompareOp(pred: Pred)
    | WrapOp
    | ExtendUOp
    | SelectOp
    | GlobalGetOp(global: nat)
    | GlobalSetOp(global: nat)
    | CallOp(func: FuncId)
    | LoadOp(storage: nat, offset: U64, bytes: U64, ty: Ty, signed: bool)
    | StoreOp(storage: nat, offset: U64, bytes: U64)
    | NopOp
    | UnsupportedOp

  datatype ValueDef =
    | OpValue(operator: Operator, args: seq<ValueId>, results: seq<Ty>)
    | PickOutput(from: ValueId, index: nat, ty: Ty)
    | Alias(to: ValueId)
    | NoDef

  datatype Target = Target(block: BlockId, args: seq<ValueId>)

  datatype Terminator =
    | Br(target: Target)
    | CondBr(cond: ValueId, ifTrue: Target, ifFalse: Target)
    | Return(values: seq<ValueId>)
    | ReturnCall(func: FuncId, args: seq<ValueId>)
    | Unreachable
    | UnsupportedTerminator

  datatype Param = Param(ty: Ty, value: ValueId)

  datatype BlockDef = BlockDef(params: seq<Param>, insts: seq<ValueId>, terminator: Terminator)

  datatype Body = Body(entry: BlockId, blocks: seq<BlockDef>, values: seq<ValueDef>, rets: seq<Ty>) {
    function Def(v: ValueId): ValueDef {
      if v < |values| then values[v] else NoDef
    }
  }

  datatype FuncDecl = Imported | Defined(body: Body)

  datatype GlobalDecl = GlobalDecl(mutable: bool, ty: Ty, init: U64)

  /** `addressBits` low bits of an effective address select the storage cell. */
  datatype Module = Module(funcs: seq<FuncDecl>, globals: seq<GlobalDecl>, addressBits: nat) {
    function BodyOf(f: FuncId): Option<Body> {
      if f < |funcs| && funcs[f].Defined? then Some(funcs[f].body) else None
    }
  }

  // ---------------------------------------------------------------- words

  function BinaryWord(op: BinOp, a: Bits, x: Bits): (r: Bits)
    requires |a| == |x|
  {
    match op
    case Add => Digits((Num(a) + Num(x)) % Pow2(|a|), |a|)
    case Sub => Digits((Num(a) - Num(x)) % Pow2(|a|), |a|)
    case Mul => Digits(Num(a) * Num(x) % Pow2(|a|), |a|)
    case BitOp(gate) => Bitwise(gate, a, x, |a|)
  }

  predicate Holds(pred: Pred, a: Bits, x: Bits) {
    match pred
    case Eq => a == x
    case Ne => a != x
    case Ult => Num(a) < Num(x)
    case Ule => Num(a) <= Num(x)
    case Ugt => Num(a) > Num(x)
    case Uge => Num(a) >= Num(x)
    case Slt => Signed(a) < Signed(x)
    case Sle => Signed(a) <= Signed(x)
    case Sgt => Signed(a) > Signed(x)
    case Sge => Signed(a) >= Signed(x)
  }

  function BoolWord(value: bool, width: nat): Bits {
    Digits(if value then 1 else 0, width)
  }

  /** Cut or extend a word, with its top bit when `signed`. */
  function Extended(a: Bits, width: nat, signed: bool): (r: Bits)
    ensures |r| == width
  {
    seq(width, i requires 0 <= i => if i < |a| then a[i] else signed && a != [] && a[|a| - 1])
  }

  /** `base + offset`, modulo `2^32`; an address used without an offset may have any width. */
  function EffectiveAddress(base: Bits, offset: nat): Option<Bits> {
    if offset == 0 then Some(base)
    else if |base| == 32 then Some(BinaryWord(Add, base, Digits(offset, 32)))
    else None
  }

  function ByteCell(m: Module, storage: nat, address: Bits, k: nat): Option<Cell> {
    var at := EffectiveAddress(address, k);
    if at.Some? && m.addressBits <= |at.value| then Some(Cell(storage, at.value[..m.addressBits])) else None
  }

  function Byte(mem: Memory, cell: Cell): (r: Bits)
    ensures |r| == 8
  {
    seq(8, i requires 0 <= i => BitAt(Look(mem, cell), i))
  }

  /** The `k` bytes from `address` on, little-endian. */
  function LoadBytes(m: Module, mem: Memory, storage: nat, address: Bits, k: nat): (r: Option<Bits>)
    ensures r.Some? ==> |r.value| == 8 * k
  {
    if k == 0 then Some([])
    else
      var before, cell := LoadBytes(m, mem, storage, address, k - 1), ByteCell(m, storage, address, k - 1);
      if before.Some? && cell.Some? then Some(before.value + Byte(mem, cell.value)) else None
  }

  function StoreBytes(m: Module, mem: Memory, storage: nat, address: Bits, value: Bits, k: nat): Option<Memory> {
    if k == 0 then Some(mem)
    else
      var before, cell := StoreBytes(m, mem, storage, address, value, k - 1), ByteCell(m, storage, address, k - 1);
      if before.Some? && cell.Some? && 8 * k <= |value| then
        Some(Put(before.value, cell.value, value[8 * (k - 1)..8 * k]))
      else None
  }

  // ---------------------------------------------------------------- values

  const ALIAS_LIMIT: nat := 10_000

  /** The value `v` stands for: the first along its aliases that is defined. */
  function Resolve(body: Body, known: set<ValueId>, v: ValueId, steps: nat): Option<ValueId>
    decreases steps
  {
    if steps == 0 then None
    else if v in known then Some(v)
    else if body.Def(v).Alias? then Resolve(body, known, body.Def(v).to, steps - 1)
    else None
  }

  datatype Frame = Frame(values: map<ValueId, Bits>, globals: seq<Bits>, mem: Memory)

  datatype Done = Done(outputs: seq<Bits>, globals: seq<Bits>, mem: Memory)

  function Operand<T>(body: Body, values: map<ValueId, T>, v: ValueId): Option<T> {
    var key := Resolve(body, values.Keys, v, ALIAS_LIMIT);
    if key.Some? && key.value in values then Some(values[key.value]) else None
  }

  /** The first `n` operands, in order. */
  function Operands<T>(body: Body, values: map<ValueId, T>, args: seq<ValueId>, n: nat): (r: Option<seq<T>>)
    requires n <= |args|
    ensures r.Some? ==> |r.value| == n
  {
    if n == 0 then Some([])
    else
      var before, last := Operands(body, values, args, n - 1), Operand(body, values, args[n - 1]);
      if before.Some? && last.Some? then Some(before.value + [last.value]) else None
  }

  /** Bind the first `n` parameters, all at once from values read before. */
  function Bound<T>(values: map<ValueId, T>, params: seq<Param>, args: seq<T>, n: nat): map<ValueId, T>
    requires n <= |params| == |args|
  {
    if n == 0 then values else Bound(values, params, args, n - 1)[params[n - 1].value := args[n - 1]]
  }

  /** How many mutable globals precede `g`. */
  function MutableIndex(globals: seq<GlobalDecl>, g: nat): nat
    requires g <= |globals|
  {
    if g == 0 then 0 else MutableIndex(globals, g - 1) + (if globals[g - 1].mutable then 1 else 0)
  }

  /** Where output `index` of a call starts in the word of all its outputs. */
  function OutputOffset(results: seq<Ty>, index: nat): Option<nat> {
    if index == 0 then Some(0)
    else if index <= |results| then
      var before, width := OutputOffset(results, index - 1), Width(results[index - 1]);
      if before.Some? && width.Some? then Some(before.value + width.value) else None
    else OutputOffset(results, index - 1)
  }

  function ConcatAll(words: seq<Bits>): Bits {
    if words == [] then [] else ConcatAll(words[..|words| - 1]) + words[|words| - 1]
  }

  /** The operators that only compute a value. */
  function PureResult(m: Module, operator: Operator, args: seq<Bits>, results: seq<Ty>, globals: seq<Bits>): Option<Bits> {
    match operator
    case ConstOp(ty, value) => if Width(ty).Some? then Some(Digits(value, Width(ty).value)) else None
    case BinaryOp(op) =>
      if |args| >= 2 && |args[0]| == |args[1]| then Some(BinaryWord(op, args[0], args[1])) else None
    case EqzOp => if |args| >= 1 && |args[0]| == 32 then Some(BoolWord(Num(args[0]) == 0, 32)) else None
    case CompareOp(pred) =>
      if |args| >= 2 && |args[0]| == |args[1]| > 0 && |results| > 0 && Width(results[0]).Some? then
        Some(BoolWord(Holds(pred, args[0], args[1]), Width(results[0]).value))
      else None
    case WrapOp => if |args| >= 1 && |args[0]| >= 32 then Some(args[0][..32]) else None
    case ExtendUOp => if |args| >= 1 then Some(Extended(args[0], 64, false)) else None
    case SelectOp =>
      if |args| >= 3 && |args[0]| == |args[1]| then Some(if Num(args[2]) != 0 then args[0] else args[1]) else None
    case GlobalGetOp(g) =>
      if g >= |m.globals| then None
      else if m.globals[g].mutable then
        var index := MutableIndex(m.globals, g);
        if index < |globals| then Some(globals[index]) else None
      else
        var width := Width(m.globals[g].ty);
        if width.Some? then Some(Digits(m.globals[g].init, width.value)) else None
    case _ => None
  }

  function LoadResult(m: Module, mem: Memory, operator: Operator, args: seq<Bits>): Option<Bits>
    requires operator.LoadOp?
  {
    var width := Width(operator.ty);
    if |args| < 1 || width.None? || operator.bytes == 0 then None
    else
      var address := EffectiveAddress(args[0], operator.offset);
      if address.None? then None
      else
        var loaded := LoadBytes(m, mem, operator.storage, address.value, operator.bytes);
        if loaded.Some? then Some(Extended(loaded.value, width.value, operator.signed)) else None
  }

  function StoreResult(m: Module, mem: Memory, operator: Operator, args: seq<Bits>): Option<Memory>
    requires operator.StoreOp?
  {
    if |args| < 2 then None
    else
      var address := EffectiveAddress(args[0], operator.offset);
      if address.None? then None else StoreBytes(m, mem, operator.storage, address.value, args[1], operator.bytes)
  }

  function SetGlobal(m: Module, g: nat, args: seq<Bits>, globals: seq<Bits>): Option<seq<Bits>> {
    if g >= |m.globals| then None
    else if !m.globals[g].mutable then Some(globals)
    else
      var index := MutableIndex(m.globals, g);
      if index < |globals| && |args| >= 1 then Some(globals[index := args[0]]) else None
  }

  // ---------------------------------------------------------------- runs

  function RunFunction(fuel: nat, m: Module, f: FuncId, args: seq<Bits>, globals: seq<Bits>, mem: Memory): Option<Done>
    decreases fuel, 3, 0
  {
    var body := m.BodyOf(f);
    if body.None? || body.value.entry >= |body.value.blocks| then None
    else
      var params := body.value.blocks[body.value.entry].params;
      if |params| != |args| then None
      else RunBlock(fuel, m, body.value, body.value.entry, Frame(Bound(map[], params, args, |args|), globals, mem))
  }

  function RunBlock(fuel: nat, m: Module, body: Body, block: BlockId, frame: Frame): Option<Done>
    decreases fuel, 2, 0
  {
    if fuel == 0 || block >= |body.blocks| then None
    else
      var after := RunInsts(fuel, m, body, body.blocks[block].insts, |body.blocks[block].insts|, frame);
      if after.None? then None else RunTerminator(fuel, m, body, body.blocks[block].terminator, after.value)
  }

  /** The first `n` instructions of a block. */
  function RunInsts(fuel: nat, m: Module, body: Body, insts: seq<ValueId>, n: nat, frame: Frame): Option<Frame>
    requires fuel > 0 && n <= |insts|
    decreases fuel, 1, n
  {
    if n == 0 then Some(frame)
    else
      var before := RunInsts(fuel, m, body, insts, n - 1, frame);
      if before.None? then None else RunInst(fuel, m, body, insts[n - 1], before.value)
  }

  function RunInst(fuel: nat, m: Module, body: Body, v: ValueId, frame: Frame): Option<Frame>
    requires fuel > 0
    decreases fuel, 1, 0
  {
    match body.Def(v)
    case OpValue(operator, args, results) =>
      var words := Operands(body, frame.values, args, |args|);
      if words.None? then None else RunOperator(fuel, m, v, operator, words.value, results, frame)
    case PickOutput(from, index, ty) =>
      var source, width := Operand(body, frame.values, from), Width(ty);
      var start := if body.Def(from).OpValue? then OutputOffset(body.Def(from).results, index) else None;
      if source.None? || width.None? || start.None? || start.value + width.value > |source.value| then None
      else Some(frame.(values := frame.values[v := source.value[start.value..start.value + width.value]]))
    case Alias(to) =>
      var word := Operand(body, frame.values, to);
      if word.None? then None else Some(frame.(values := frame.values[v := word.value]))
    case NoDef => Some(frame)
  }

  function RunOperator(fuel: nat, m: Module, v: ValueId, operator: Operator, args: seq<Bits>, results: seq<Ty>, frame: Frame)
    : Option<Frame>
    requires fuel > 0
    decreases fuel, 0, 0
  {
    match operator
    case CallOp(f) =>
      var done := RunFunction(fuel - 1, m, f, args, frame.globals, frame.mem);
      if done.None? then None
      else
        var values := if done.value.outputs == [] then frame.values
                      else frame.values[v := ConcatAll(done.value.outputs)];
        Some(Frame(values, done.value.globals, done.value.mem))
    case LoadOp(_, _, _, _, _) =>
      var word := LoadResult(m, frame.mem, operator, args);
      if word.None? then None else Some(frame.(values := frame.values[v := word.value]))
    case StoreOp(_, _, _) =>
      var mem := StoreResult(m, frame.mem, operator, args);
      if mem.None? then None else Some(frame.(mem := mem.value))
    case GlobalSetOp(g) =>
      var globals := SetGlobal(m, g, args, frame.globals);
      if globals.None? then None else Some(frame.(globals := globals.value))
    case NopOp => Some(frame)
    case _ =>
      var word := PureResult(m, operator, args, results, frame.globals);
      if word.None? then None else Some(frame.(values := frame.values[v := word.value]))
  }

  function RunTerminator(fuel: nat, m: Module, body: Body, terminator: Terminator, frame: Frame): Option<Done>
    requires fuel > 0
    decreases fuel, 0, 0
  {
    match terminator
    case Br(target) => RunTarget(fuel, m, body, target, frame)
    case CondBr(cond, ifTrue, ifFalse) =>
      var word := Operand(body, frame.values, cond);
      if word.None? then None
      else RunTarget(fuel, m, body, if Num(word.value) != 0 then ifTrue else ifFalse, frame)
    case Return(values) =>
      var words := Operands(body, frame.values, values, |values|);
      if words.None? then None else Some(Done(words.value, frame.globals, frame.mem))
    case ReturnCall(f, args) =>
      var words := Operands(body, frame.values, args, |args|);
      if words.None? then None else RunFunction(fuel - 1, m, f, words.value, frame.globals, frame.mem)
    case Unreachable =>
      var zeros := Zeros(body.rets, |body.rets|);
      if zeros.None? then None else Some(Done(zeros.value, frame.globals, frame.mem))
    case UnsupportedTerminator => None
  }

  /** Jump: the target's parameters take the values the arguments had before the jump. */
  function RunTarget(fuel: nat, m: Module, body: Body, target: Target, frame: Frame): Option<Done>
    requires fuel > 0
    decreases fuel - 1, 4, 0
  {
    if target.block >= |body.blocks| || |body.blocks[target.block].params| != |target.args| then None
    else
      var words := Operands(body, frame.values, target.args, |target.args|);
      if words.None? then None
      else
        var values := Bound(frame.values, body.blocks[target.block].params, words.value, |target.args|);
        RunBlock(fuel - 1, m, body, target.block, frame.(values := values))
  }

  /** An unreachable end counts as returning zeros. */
  function Zeros(rets: seq<Ty>, n: nat): (r: Option<seq<Bits>>)
    requires n <= |rets|
    ensures r.Some? ==> |r.value| == n
  {
    if n == 0 then Some([])
    else
      var before, width := Zeros(rets, n - 1), Width(rets[n - 1]);
      if before.Some? && width.Some? then Some(before.value + [Digits(0, width.value)]) else None
  }
}
