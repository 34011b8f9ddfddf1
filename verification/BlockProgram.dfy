/**
 The buffered functions of the WASM backend: blocks of operations over local variables, with
 block parameters assigned all at once, and what running them means. An operation reads all of
 its operands before it writes any of its destinations.
 */
module BlockProgram {
  import opened Common
  import opened Numbers
  import opened WasmMachine

  /** How the value of one local becomes that of another; `Wrap` keeps the low 32 bits. */
  datatype Conv =
    | Keep
    | Wrap
    | ZeroExtend
    | SignExtend
    | MaskTo(bits: nat)
    | SignFrom(bits: nat)
    | Flip(is64: bool)
    | FlipLowest

  datatype Op =
      // the first destination gets the value, the others zero, each in its own type
    | Iconst(dests: seq<nat>, words: seq<bool>, value: int)
    | Zero(dests: seq<nat>, is64: bool)
    | Copy(dest: nat, src: nat)
    | Convert(dest: nat, src: nat, conv: Conv)
    | Binop(dest: nat, kind: BinKind, lhs: nat, rhs: nat, is64: bool)
    | Icmp(dest: nat, pred: Pred, lhs: nat, rhs: nat, is64: bool)
    | Select(dests: seq<nat>, cond: nat, thens: seq<nat>, elses: seq<nat>)
      // limb-wise addition or subtraction; `carry` and `aux` are scratch locals
    | WideAddSub(dests: seq<nat>, left: seq<nat>, right: seq<nat>, subtract: bool, carry: nat, aux: nat)
      // a shift of the limbs `val` by the number in the limbs `shift`
    | WideShift(dests: seq<nat>, val: seq<nat>, shift: seq<nat>, up: bool)
    | Call(dests: seq<nat>, func: nat, args: seq<nat>)
      // a call by name, which becomes a `Call` once all functions of the module are known
    | CallSibling(dests: seq<nat>, name: string, args: seq<nat>)

  datatype Goto = Goto(target: nat, args: seq<nat>)

  datatype Case = Case(key: int, goto: Goto)

  datatype Exit =
    | Ret(vals: seq<nat>)
    | Jump(goto: Goto)
    | BranchTo(cond: nat, thenGoto: Goto, elseGoto: Goto)
    | Table(index: nat, is64: bool, cases: seq<Case>, fallback: Goto)

  datatype BlockState = BlockState(params: seq<nat>, ops: seq<Op>, exit: Option<Exit>)

  // ---------------------------------------------------------------- locals

  predicate InRange(xs: seq<nat>, n: nat) {
    forall i | 0 <= i < |xs| :: xs[i] < n
  }

  function Reads(locals: seq<Val>, xs: seq<nat>): (r: seq<Val>)
    requires InRange(xs, |locals|)
    ensures |r| == |xs|
  {
    seq(|xs|, i requires 0 <= i < |xs| => locals[xs[i]])
  }

  /** The last value is stored first, as the values come off a stack. */
  function Assign(locals: seq<Val>, dests: seq<nat>, vals: seq<Val>): (r: seq<Val>)
    requires |dests| == |vals| && InRange(dests, |locals|)
    ensures |r| == |locals|
    decreases |dests|
  {
    if dests == [] then locals
    else
      assert forall i | 0 <= i < |dests| - 1 :: dests[1..][i] == dests[i + 1];
      Assign(locals, dests[1..], vals[1..])[dests[0] := vals[0]]
  }

  predicate Unique(xs: seq<nat>) {
    forall i, j | 0 <= i < j < |xs| :: xs[i] != xs[j]
  }

  /** Assigning distinct locals is simultaneous: each gets its value, and nothing else changes. */
  lemma {:induction false} AssignSimultaneous(locals: seq<Val>, dests: seq<nat>, vals: seq<Val>)
    requires |dests| == |vals| && InRange(dests, |locals|) && Unique(dests)
    ensures forall i | 0 <= i < |dests| :: Assign(locals, dests, vals)[dests[i]] == vals[i]
    ensures forall x | 0 <= x < |locals| && x !in dests :: Assign(locals, dests, vals)[x] == locals[x]
    decreases |dests|
  {
    if dests != [] {
      assert forall i | 0 <= i < |dests| - 1 :: dests[1..][i] == dests[i + 1];
      AssignSimultaneous(locals, dests[1..], vals[1..]);
    }
  }

  // ---------------------------------------------------------------- operations

  function Dests(op: Op): seq<nat> {
    match op
    case Iconst(dests, _, _) => dests
    case Zero(dests, _) => dests
    case Copy(dest, _) => [dest]
    case Convert(dest, _, _) => [dest]
    case Binop(dest, _, _, _, _) => [dest]
    case Icmp(dest, _, _, _, _) => [dest]
    case Select(dests, _, _, _) => dests
    case WideAddSub(dests, _, _, _, _, _) => dests
    case WideShift(dests, _, _, _) => dests
    case Call(dests, _, _) => dests
    case CallSibling(dests, _, _) => dests
  }

  function Sources(op: Op): seq<nat> {
    match op
    case Iconst(_, _, _) => []
    case Zero(_, _) => []
    case Copy(_, src) => [src]
    case Convert(_, src, _) => [src]
    case Binop(_, _, lhs, rhs, _) => [lhs, rhs]
    case Icmp(_, _, lhs, rhs, _) => [lhs, rhs]
    case Select(_, cond, thens, elses) => [cond] + thens + elses
    case WideAddSub(_, left, right, _, _, _) => left + right
    case WideShift(_, val, shift, _) => val + shift
    case Call(_, _, args) => args
    case CallSibling(_, _, args) => args
  }

  datatype Meaning = Values(vals: seq<Val>, log: Log) | Traps(log: Log) | IllTyped

  predicate AllTyped(vals: seq<Val>, is64: bool) {
    forall i | 0 <= i < |vals| :: Typed(vals[i], is64)
  }

  /** The number little-endian 64-bit values stand for. */
  function WideNumber(vals: seq<Val>): nat {
    if vals == [] then 0 else Raw(vals[0]) + WORD * WideNumber(vals[1..])
  }

  /** The `n` low limbs of a number. */
  function ToLimbs(v: nat, n: nat): (r: seq<Val>)
    ensures |r| == n
  {
    if n == 0 then [] else [V64(v % WORD)] + ToLimbs(v / WORD, n - 1)
  }

  function Repeat(is64: bool, n: nat): (r: seq<bool>)
    ensures |r| == n
  {
    seq(n, i => is64)
  }

  /** The values of a constant: the number in the first word, zero in the others. */
  function Constants(words: seq<bool>, value: int): (r: seq<Val>)
    ensures |r| == |words|
  {
    seq(|words|, i requires 0 <= i < |words| => Wrapped(if i == 0 then value else 0, words[i]))
  }

  /** The number the low `bits` bits of `x` stand for, with sign. */
  function SignedLow(x: nat, bits: nat): int {
    var low := x % Pow2(bits);
    if 2 * low >= Pow2(bits) then low - Pow2(bits) else low
  }

  /** The converted value; none for an operand of another type. */
  function Converted(conv: Conv, v: Val): Option<Val> {
    match conv
    case Keep => Some(v)
    case Wrap => if v.V64? then Some(Wrapped(v.w, false)) else None
    case ZeroExtend => if v.V32? then Some(V64(v.n)) else None
    case SignExtend => if v.V32? then Some(Wrapped(AsInt(v.n, false), true)) else None
    case MaskTo(bits) => if v.V32? then Some(Wrapped(v.n % Pow2(bits), false)) else None
    case SignFrom(bits) => if v.V32? then Some(Wrapped(SignedLow(v.n, bits), false)) else None
    case Flip(is64) => if Typed(v, is64) then Some(Wrapped(Size(is64) - 1 - Raw(v), is64)) else None
    case FlipLowest => if v.V32? then Some(Wrapped(if v.n % 2 == 0 then v.n + 1 else v.n - 1, false)) else None
  }

  function ShiftBy(x: nat, count: int, up: bool): nat {
    hide Pow2;
    var p: nat := Pow2(count % 64);
    if up then x * p % WORD else x / p
  }

  /** The limb that a shift by `k` limbs brings to place `i`, if there is one. */
  function Source(i: nat, k: nat, n: nat, up: bool): Option<nat> {
    if up then (if i >= k then Some(i - k) else None) else if i + k < n then Some(i + k) else None
  }

  /** A limb of the shifted value: its own limb shifted, and bits of the next unless the count is zero. */
  function ShiftedLimb(xs: seq<Val>, c: nat, up: bool, i: nat): nat
    requires i < |xs|
  {
    var own, next := Source(i, c / 64, |xs|, up), Source(i, c / 64 + 1, |xs|, up);
    var base := if own.Some? then ShiftBy(Raw(xs[own.value]), c, up) else 0;
    if c == 0 || next.None? then base
    else Num(Bitwise(GateOr, Digits(base, 64), Digits(ShiftBy(Raw(xs[next.value]), 64 - c, !up), 64), 64))
  }

  /** Every limb, in 64 bits. */
  function ShiftedLimbs(xs: seq<Val>, c: nat, up: bool): (r: seq<Val>)
    ensures |r| == |xs|
  {
    seq(|xs|, i requires 0 <= i < |xs| => V64(ShiftedLimb(xs, c, up, i) % WORD))
  }

  /** A count in limbs that is below the width of the value. */
  predicate CountInRange(counts: seq<Val>, n: nat) {
    counts != [] && Raw(counts[0]) < 64 * n && forall i | 1 <= i < |counts| :: Raw(counts[i]) == 0
  }

  ghost function OpMeaning(host: Host, op: Op, locals: seq<Val>, log: Log): (r: Meaning)
    requires InRange(Sources(op), |locals|) && InRange(Dests(op), |locals|)
    ensures r.Values? ==> |r.vals| == |Dests(op)|
  {
    match op
    case Iconst(dests, words, value) => if |words| != |dests| then IllTyped else Values(Constants(words, value), log)
    case Zero(dests, is64) => Values(seq(|dests|, i => Wrapped(0, is64)), log)
    case Copy(_, src) => assert Sources(op)[0] == src; Values([locals[src]], log)
    case Convert(_, src, conv) =>
      assert Sources(op)[0] == src;
      var r := Converted(conv, locals[src]);
      if r.None? then IllTyped else Values([r.value], log)
    case Binop(_, kind, lhs, rhs, is64) =>
      assert Sources(op)[0] == lhs && Sources(op)[1] == rhs;
      if !Typed(locals[lhs], is64) || !Typed(locals[rhs], is64) then IllTyped
      else
        var r := Arith(kind, is64, Raw(locals[lhs]), Raw(locals[rhs]));
        if r.None? then Traps(log) else Values([Wrapped(r.value, is64)], log)
    case Icmp(_, pred, lhs, rhs, is64) =>
      assert Sources(op)[0] == lhs && Sources(op)[1] == rhs;
      if !Typed(locals[lhs], is64) || !Typed(locals[rhs], is64) then IllTyped
      else Values([Flag(Compared(pred, is64, Raw(locals[lhs]), Raw(locals[rhs])))], log)
    case Select(dests, cond, thens, elses) =>
      SelectSources(op, |locals|);
      if !locals[cond].V32? || |thens| != |dests| || |elses| != |dests| then IllTyped
      else Values(Reads(locals, if locals[cond].n != 0 then thens else elses), log)
    case WideAddSub(dests, left, right, subtract, _, _) =>
      WideSources(op, |locals|);
      var xs, ys := Reads(locals, left), Reads(locals, right);
      if |left| != |dests| || |right| != |dests| || !AllTyped(xs, true) || !AllTyped(ys, true) then IllTyped
      else
        var total := if subtract then WideNumber(xs) - WideNumber(ys) else WideNumber(xs) + WideNumber(ys);
        Values(ToLimbs(total % Pow2(64 * |dests|), |dests|), log)
    case WideShift(dests, val, shift, up) =>
      ShiftSources(op, |locals|);
      var xs, counts := Reads(locals, val), Reads(locals, shift);
      if |val| != |dests| || |shift| != |dests| || dests == [] || !AllTyped(xs, true) || !AllTyped(counts, true) then IllTyped
      else if CountInRange(counts, |dests|) then Values(ShiftedLimbs(xs, Raw(counts[0]), up), log)
      else Values(Reads(locals, dests), log)
    case CallSibling(_, _, _) => IllTyped
    case Call(dests, func, args) =>
      var after := log + [Invocation(func, Reads(locals, args))];
      var answer := host(after);
      if answer.None? then Traps(after)
      else if |answer.value| != |dests| then IllTyped
      else Values(answer.value, after)
  }

  lemma SelectSources(op: Op, n: nat)
    requires op.Select? && InRange(Sources(op), n)
    ensures op.cond < n && InRange(op.thens, n) && InRange(op.elses, n)
  {
    var all := Sources(op);
    assert all[0] == op.cond;
    assert forall i | 0 <= i < |op.thens| :: all[1 + i] == op.thens[i];
    assert forall i | 0 <= i < |op.elses| :: all[1 + |op.thens| + i] == op.elses[i];
  }

  lemma ShiftSources(op: Op, n: nat)
    requires op.WideShift? && InRange(Sources(op), n)
    ensures InRange(op.val, n) && InRange(op.shift, n)
  {
    var all := Sources(op);
    assert forall i | 0 <= i < |op.val| :: all[i] == op.val[i];
    assert forall i | 0 <= i < |op.shift| :: all[|op.val| + i] == op.shift[i];
  }

  lemma WideSources(op: Op, n: nat)
    requires op.WideAddSub? && InRange(Sources(op), n)
    ensures InRange(op.left, n) && InRange(op.right, n)
  {
    var all := Sources(op);
    assert forall i | 0 <= i < |op.left| :: all[i] == op.left[i];
    assert forall i | 0 <= i < |op.right| :: all[|op.left| + i] == op.right[i];
  }

  // ---------------------------------------------------------------- well-formed functions

  ghost predicate Avoids(xs: seq<nat>, scratch: set<nat>) {
    forall i | 0 <= i < |xs| :: xs[i] !in scratch
  }

  ghost predicate Apart(xs: seq<nat>, ys: seq<nat>) {
    forall i | 0 <= i < |xs| :: xs[i] !in ys
  }

  /** The bit counts of a conversion within 32-bit integers. */
  predicate ConvFits(conv: Conv) {
    (conv.MaskTo? || conv.SignFrom?) ==> 0 < conv.bits < 32
  }

  /** As many operands as destinations. */
  predicate Shaped(op: Op) {
    match op
    case Iconst(dests, words, _) => |words| == |dests|
    case Convert(_, _, conv) => ConvFits(conv)
    case Select(dests, _, thens, elses) => |thens| == |dests| == |elses|
    case WideAddSub(dests, left, right, _, _, _) => |left| == |dests| == |right|
    case WideShift(dests, val, shift, _) => |val| == |dests| == |shift| && dests != [] && 64 * |dests| < WORD
    case _ => true
  }

  /** Operations with code of their own: calls by name are resolved first. */
  predicate Emittable(op: Op) {
    Shaped(op) && !op.CallSibling?
  }

  /** Destinations are fresh values, and scratch locals are nobody's value. */
  ghost predicate OpFits(op: Op, n: nat, scratch: set<nat>, pc: nat) {
    && InRange(Sources(op), n) && InRange(Dests(op), n)
    && Unique(Dests(op)) && Apart(Dests(op), Sources(op))
    && Avoids(Sources(op), scratch) && Avoids(Dests(op), scratch)
    && (op.WideAddSub? ==>
          && op.carry < n && op.aux < n && op.carry != op.aux && op.carry != pc && op.aux != pc
          && op.carry in scratch && op.aux in scratch)
    && Shaped(op)
  }

  ghost predicate OpsFit(ops: seq<Op>, n: nat, scratch: set<nat>, pc: nat) {
    forall i | 0 <= i < |ops| :: OpFits(ops[i], n, scratch, pc)
  }

  ghost predicate GotoFits(g: Goto, blocks: seq<BlockState>, n: nat, scratch: set<nat>) {
    && g.target < |blocks| && |blocks[g.target].params| == |g.args|
    && InRange(g.args, n) && Avoids(g.args, scratch)
  }

  ghost predicate ExitFits(e: Exit, blocks: seq<BlockState>, n: nat, scratch: set<nat>) {
    match e
    case Ret(vals) => InRange(vals, n) && Avoids(vals, scratch)
    case Jump(g) => GotoFits(g, blocks, n, scratch)
    case BranchTo(cond, g, h) =>
      cond < n && cond !in scratch && GotoFits(g, blocks, n, scratch) && GotoFits(h, blocks, n, scratch)
    case Table(index, _, cases, g) =>
      && index < n && index !in scratch && GotoFits(g, blocks, n, scratch)
      && forall i | 0 <= i < |cases| :: GotoFits(cases[i].goto, blocks, n, scratch)
  }

  ghost predicate ParamsFit(params: seq<nat>, n: nat, scratch: set<nat>) {
    InRange(params, n) && Unique(params) && Avoids(params, scratch)
  }

  ghost predicate BlockFits(b: BlockState, blocks: seq<BlockState>, n: nat, scratch: set<nat>, pc: nat) {
    && ParamsFit(b.params, n, scratch)
    && OpsFit(b.ops, n, scratch, pc) && (forall i | 0 <= i < |b.ops| :: !b.ops[i].CallSibling?)
    && (b.exit.Some? ==> ExitFits(b.exit.value, blocks, n, scratch))
  }

  ghost predicate Fits(blocks: seq<BlockState>, n: nat, scratch: set<nat>, pc: nat) {
    && pc < n && pc in scratch && |blocks| < WORD32
    && forall k | 0 <= k < |blocks| :: BlockFits(blocks[k], blocks, n, scratch, pc)
  }

  // ---------------------------------------------------------------- runs

  datatype Ran = Ran(locals: seq<Val>, log: Log) | RanTrap(log: Log) | RanIllTyped

  /** The first `n` operations. */
  ghost function RunOps(host: Host, ops: seq<Op>, n: nat, locals: seq<Val>, log: Log): (r: Ran)
    requires n <= |ops|
    ensures r.Ran? ==> |r.locals| == |locals|
  {
    if n == 0 then Ran(locals, log)
    else
      var before := RunOps(host, ops, n - 1, locals, log);
      if !before.Ran? then before else RunOp(host, ops[n - 1], before.locals, before.log)
  }

  ghost function RunOp(host: Host, op: Op, locals: seq<Val>, log: Log): (r: Ran)
    ensures r.Ran? ==> |r.locals| == |locals|
  {
    if !InRange(Sources(op), |locals|) || !InRange(Dests(op), |locals|) then RanIllTyped
    else
      var mean := OpMeaning(host, op, locals, log);
      if mean.Traps? then RanTrap(mean.log)
      else if mean.IllTyped? then RanIllTyped
      else Ran(Assign(locals, Dests(op), mean.vals), mean.log)
  }

  /** A table key as a value of the index's type. */
  function KeyOf(key: int, is64: bool): Val {
    Wrapped(key, is64)
  }

  /** The first case whose key the index equals, from case `i` on. */
  function Picked(v: Val, is64: bool, cases: seq<Case>, fallback: Goto, i: nat): Goto
    requires i <= |cases|
    decreases |cases| - i
  {
    if i == |cases| then fallback
    else if v == KeyOf(cases[i].key, is64) then cases[i].goto
    else Picked(v, is64, cases, fallback, i + 1)
  }

  /** Where an exit other than a return goes. */
  function NextGoto(e: Exit, locals: seq<Val>): Option<Goto> {
    match e
    case Ret(_) => None
    case Jump(g) => Some(g)
    case BranchTo(cond, g, h) =>
      if cond < |locals| && locals[cond].V32? then Some(if locals[cond].n != 0 then g else h) else None
    case Table(index, is64, cases, fallback) =>
      if index < |locals| && Typed(locals[index], is64) then Some(Picked(locals[index], is64, cases, fallback, 0)) else None
  }

  datatype Finish = Result(vals: seq<Val>, log: Log) | Trap(log: Log) | OutOfTransitions | Refused

  /** A function of one block and no program counter: it ends with its block. */
  ghost function RunSingle(ctx: Context, block: BlockState, locals: seq<Val>, log: Log): Finish {
    var ran := RunOps(ctx.host, block.ops, |block.ops|, locals, log);
    if ran.RanTrap? then Trap(ran.log)
    else if ran.RanIllTyped? then Refused
    else if block.exit.None? then (if ctx.results == 0 then Result([], ran.log) else Refused)
    else if !block.exit.value.Ret? then Refused
    else
      var vals := block.exit.value.vals;
      if InRange(vals, |ran.locals|) && |vals| == ctx.results then Result(Reads(ran.locals, vals), ran.log) else Refused
  }

  /** Run block `k`, with at most `fuel` transitions to further blocks. */
  ghost function RunBlocks(fuel: nat, ctx: Context, blocks: seq<BlockState>, k: nat, locals: seq<Val>, log: Log): Finish
    requires k < |blocks|
    decreases fuel
  {
    var block := blocks[k];
    var ran := RunOps(ctx.host, block.ops, |block.ops|, locals, log);
    if ran.RanTrap? then Trap(ran.log)
    else if ran.RanIllTyped? then Refused
    else if block.exit.None? then Trap(ran.log)
    else if block.exit.value.Ret? then
      var vals := block.exit.value.vals;
      if InRange(vals, |ran.locals|) && |vals| == ctx.results then Result(Reads(ran.locals, vals), ran.log) else Refused
    else
      var next := NextGoto(block.exit.value, ran.locals);
      if next.None? then Refused
      else
        var target, args := next.value.target, next.value.args;
        if target >= |blocks| || |blocks[target].params| != |args| then Refused
        else if !InRange(args, |ran.locals|) || !InRange(blocks[target].params, |ran.locals|) then Refused
        else if fuel == 0 then OutOfTransitions
        else
          RunBlocks(fuel - 1, ctx, blocks, target, Assign(ran.locals, blocks[target].params, Reads(ran.locals, args)), ran.log)
  }
}
