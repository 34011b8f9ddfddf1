/**
 Types of locals, operations and exits, as the validation of section 3.3 of the WebAssembly Core
 Specification 1.0 demands them, and what they guarantee: a well-typed block program is never
 refused, from any typed locals and with any host that keeps to its signatures.
 */
module WasmTyping {
  import opened Common
  import opened Numbers
  import opened WasmMachine
  import opened BlockProgram

  /** Value types are told apart by being 64 bits wide. */
  datatype Signature = Signature(params: seq<bool>, results: seq<bool>)

  predicate Has(types: seq<bool>, x: nat, is64: bool) {
    x < |types| && types[x] == is64
  }

  predicate AllHave(types: seq<bool>, xs: seq<nat>, words: seq<bool>) {
    |xs| == |words| && forall i | 0 <= i < |xs| :: Has(types, xs[i], words[i])
  }

  predicate SameTypes(types: seq<bool>, xs: seq<nat>, ys: seq<nat>) {
    |xs| == |ys| && forall i | 0 <= i < |xs| :: xs[i] < |types| && ys[i] < |types| && types[xs[i]] == types[ys[i]]
  }

  predicate ConvTyped(conv: Conv, from: bool, to: bool) {
    match conv
    case Keep => from == to
    case Wrap => from && !to
    case ZeroExtend => !from && to
    case SignExtend => !from && to
    case MaskTo(_) => !from && !to
    case SignFrom(_) => !from && !to
    case Flip(is64) => from == is64 && to == is64
    case FlipLowest => !from && !to
  }

  predicate OpTyped(op: Op, types: seq<bool>, sigs: seq<Signature>) {
    match op
    case Iconst(dests, words, _) => AllHave(types, dests, words)
    case Zero(dests, is64) => AllHave(types, dests, Repeat(is64, |dests|))
    case Copy(dest, src) => SameTypes(types, [dest], [src])
    case Convert(dest, src, conv) => dest < |types| && src < |types| && ConvTyped(conv, types[src], types[dest])
    case Binop(dest, _, lhs, rhs, is64) => Has(types, dest, is64) && Has(types, lhs, is64) && Has(types, rhs, is64)
    case Icmp(dest, _, lhs, rhs, is64) => Has(types, dest, false) && Has(types, lhs, is64) && Has(types, rhs, is64)
    case Select(dests, cond, thens, elses) => Has(types, cond, false) && SameTypes(types, dests, thens) && SameTypes(types, dests, elses)
    case WideAddSub(dests, left, right, _, carry, aux) =>
      && AllHave(types, dests, Repeat(true, |dests|)) && AllHave(types, left, Repeat(true, |dests|))
      && AllHave(types, right, Repeat(true, |dests|)) && Has(types, carry, false) && Has(types, aux, false)
    case WideShift(dests, val, shift, _) =>
      && AllHave(types, dests, Repeat(true, |dests|)) && AllHave(types, val, Repeat(true, |dests|))
      && AllHave(types, shift, Repeat(true, |dests|))
    case Call(dests, func, args) =>
      func < |sigs| && AllHave(types, args, sigs[func].params) && AllHave(types, dests, sigs[func].results)
    case CallSibling(_, _, _) => false
  }

  predicate GotoTyped(g: Goto, blocks: seq<BlockState>, types: seq<bool>) {
    g.target < |blocks| && SameTypes(types, blocks[g.target].params, g.args)
  }

  predicate ExitTyped(e: Exit, blocks: seq<BlockState>, types: seq<bool>, results: seq<bool>) {
    match e
    case Ret(vals) => AllHave(types, vals, results)
    case Jump(g) => GotoTyped(g, blocks, types)
    case BranchTo(cond, g, h) => Has(types, cond, false) && GotoTyped(g, blocks, types) && GotoTyped(h, blocks, types)
    case Table(index, is64, cases, g) =>
      && Has(types, index, is64) && GotoTyped(g, blocks, types)
      && forall i | 0 <= i < |cases| :: GotoTyped(cases[i].goto, blocks, types)
  }

  predicate OpsTyped(ops: seq<Op>, types: seq<bool>, sigs: seq<Signature>) {
    forall i | 0 <= i < |ops| :: OpTyped(ops[i], types, sigs)
  }

  predicate BlockTyped(b: BlockState, blocks: seq<BlockState>, types: seq<bool>, sigs: seq<Signature>, results: seq<bool>) {
    OpsTyped(b.ops, types, sigs) && (b.exit.Some? ==> ExitTyped(b.exit.value, blocks, types, results))
  }

  /** What can be checked of a function without running it. */
  predicate WellTyped(blocks: seq<BlockState>, types: seq<bool>, sigs: seq<Signature>, results: seq<bool>) {
    forall k | 0 <= k < |blocks| :: BlockTyped(blocks[k], blocks, types, sigs, results)
  }

  // ---------------------------------------------------------------- typed states

  ghost predicate ValsTyped(vals: seq<Val>, words: seq<bool>) {
    |vals| == |words| && forall i | 0 <= i < |vals| :: Typed(vals[i], words[i])
  }

  /** A host that answers every call of a known function with values of its result types. */
  ghost predicate HostKeeps(host: Host, sigs: seq<Signature>) {
    forall log: Log | log != [] && log[|log| - 1].func < |sigs| && host(log).Some? ::
      ValsTyped(host(log).value, sigs[log[|log| - 1].func].results)
  }

  lemma ReadsTyped(locals: seq<Val>, types: seq<bool>, xs: seq<nat>, words: seq<bool>)
    requires ValsTyped(locals, types) && AllHave(types, xs, words)
    ensures InRange(xs, |locals|) && ValsTyped(Reads(locals, xs), words)
  {
    forall i | 0 <= i < |xs| ensures xs[i] < |locals| && Typed(locals[xs[i]], words[i]) {
      assert Has(types, xs[i], words[i]);
    }
  }

  function TypesOf(types: seq<bool>, xs: seq<nat>): (r: seq<bool>)
    requires InRange(xs, |types|)
    ensures |r| == |xs|
  {
    seq(|xs|, i requires 0 <= i < |xs| => types[xs[i]])
  }

  lemma ReadsSame(locals: seq<Val>, types: seq<bool>, xs: seq<nat>, ys: seq<nat>)
    requires ValsTyped(locals, types) && SameTypes(types, xs, ys)
    ensures InRange(xs, |locals|) && InRange(ys, |locals|) && ValsTyped(Reads(locals, ys), TypesOf(types, xs))
  {
  }

  lemma {:induction false} AssignTyped(locals: seq<Val>, types: seq<bool>, dests: seq<nat>, vals: seq<Val>)
    requires ValsTyped(locals, types) && InRange(dests, |locals|) && ValsTyped(vals, TypesOf(types, dests))
    ensures ValsTyped(Assign(locals, dests, vals), types)
    decreases |dests|
  {
    if dests != [] {
      assert forall i | 0 <= i < |dests| - 1 :: dests[1..][i] == dests[i + 1] && vals[1..][i] == vals[i + 1];
      assert forall i | 0 <= i < |dests| :: Typed(vals[i], types[dests[i]]);
      AssignTyped(locals, types, dests[1..], vals[1..]);
    }
  }

  // ---------------------------------------------------------------- operations

  ghost predicate OpSound(host: Host, op: Op, locals: seq<Val>, types: seq<bool>, log: Log) {
    && |types| == |locals| && InRange(Sources(op), |locals|) && InRange(Dests(op), |locals|)
    && var mean := OpMeaning(host, op, locals, log);
       !mean.IllTyped? && (mean.Values? ==> ValsTyped(mean.vals, TypesOf(types, Dests(op))))
  }

  lemma AllWide(locals: seq<Val>, types: seq<bool>, xs: seq<nat>, n: nat)
    requires ValsTyped(locals, types) && AllHave(types, xs, Repeat(true, n))
    ensures InRange(xs, |locals|) && AllTyped(Reads(locals, xs), true) && TypesOf(types, xs) == Repeat(true, n)
  {
    ReadsTyped(locals, types, xs, Repeat(true, n));
    forall i | 0 <= i < |xs| ensures types[xs[i]] {
      assert Has(types, xs[i], Repeat(true, n)[i]);
    }
  }

  lemma HaveTypes(types: seq<bool>, xs: seq<nat>, words: seq<bool>)
    requires AllHave(types, xs, words)
    ensures InRange(xs, |types|) && TypesOf(types, xs) == words
  {
    forall i | 0 <= i < |xs| ensures xs[i] < |types| && types[xs[i]] == words[i] {
      assert Has(types, xs[i], words[i]);
    }
  }

  lemma WideSound(host: Host, op: Op, locals: seq<Val>, types: seq<bool>, sigs: seq<Signature>, log: Log)
    requires op.WideAddSub? && OpTyped(op, types, sigs) && Shaped(op) && ValsTyped(locals, types)
    ensures OpSound(host, op, locals, types, log)
  {
    hide ToLimbs, WideNumber, Pow2, AllHave, Repeat, AllTyped;
    var n := |op.dests|;
    AllWide(locals, types, op.dests, n);
    AllWide(locals, types, op.left, n);
    AllWide(locals, types, op.right, n);
    var xs, ys := Reads(locals, op.left), Reads(locals, op.right);
    var total := if op.subtract then WideNumber(xs) - WideNumber(ys) else WideNumber(xs) + WideNumber(ys);
    LimbsTyped(total % Pow2(64 * n), n);
  }

  lemma {:induction false} LimbsTyped(v: nat, n: nat)
    ensures ValsTyped(ToLimbs(v, n), Repeat(true, n))
    decreases n
  {
    if n > 0 {
      LimbsTyped(v / WORD, n - 1);
    }
  }

  lemma ShiftSound(host: Host, op: Op, locals: seq<Val>, types: seq<bool>, sigs: seq<Signature>, log: Log)
    requires op.WideShift? && OpTyped(op, types, sigs) && Shaped(op) && ValsTyped(locals, types)
    ensures OpSound(host, op, locals, types, log)
  {
    hide ShiftedLimb, CountInRange, AllHave;
    var n := |op.dests|;
    AllWide(locals, types, op.dests, n);
    AllWide(locals, types, op.val, n);
    AllWide(locals, types, op.shift, n);
  }

  lemma SelectSound(host: Host, op: Op, locals: seq<Val>, types: seq<bool>, sigs: seq<Signature>, log: Log)
    requires op.Select? && OpTyped(op, types, sigs) && ValsTyped(locals, types)
    ensures OpSound(host, op, locals, types, log)
  {
    hide SameTypes;
    SelectRange(op, locals, types);
    assert Has(types, op.cond, false);
    ReadsSame(locals, types, op.dests, op.thens);
    ReadsSame(locals, types, op.dests, op.elses);
    SameLengths(types, op.dests, op.thens);
    SameLengths(types, op.dests, op.elses);
  }

  lemma SameLengths(types: seq<bool>, xs: seq<nat>, ys: seq<nat>)
    requires SameTypes(types, xs, ys)
    ensures |xs| == |ys|
  {
  }

  lemma SelectRange(op: Op, locals: seq<Val>, types: seq<bool>)
    requires op.Select? && op.cond < |types| == |locals|
    requires SameTypes(types, op.dests, op.thens) && SameTypes(types, op.dests, op.elses)
    ensures InRange(Sources(op), |locals|) && InRange(Dests(op), |locals|)
  {
  }

  lemma CallSound(host: Host, op: Op, locals: seq<Val>, types: seq<bool>, sigs: seq<Signature>, log: Log)
    requires op.Call? && OpTyped(op, types, sigs) && ValsTyped(locals, types) && HostKeeps(host, sigs)
    ensures OpSound(host, op, locals, types, log)
  {
    hide AllHave;
    ReadsTyped(locals, types, op.args, sigs[op.func].params);
    HaveTypes(types, op.dests, sigs[op.func].results);
    var after := log + [Invocation(op.func, Reads(locals, op.args))];
    assert after[|after| - 1].func == op.func;
  }

  /** A typed operation on typed locals gives typed values, or traps. */
  lemma OpIsSound(host: Host, op: Op, locals: seq<Val>, types: seq<bool>, sigs: seq<Signature>, log: Log)
    requires OpTyped(op, types, sigs) && Shaped(op) && ValsTyped(locals, types) && HostKeeps(host, sigs)
    ensures OpSound(host, op, locals, types, log)
  {
    hide HostKeeps, Arith, Compared, Wrapped;
    match op
    case Iconst(dests, words, _) => HaveTypes(types, dests, words);
    case Zero(dests, is64) => HaveTypes(types, dests, Repeat(is64, |dests|));
    case WideAddSub(_, _, _, _, _, _) => WideSound(host, op, locals, types, sigs, log);
    case WideShift(_, _, _, _) => ShiftSound(host, op, locals, types, sigs, log);
    case Select(_, _, _, _) => SelectSound(host, op, locals, types, sigs, log);
    case Call(_, _, _) => CallSound(host, op, locals, types, sigs, log);
    case Copy(dest, src) => assert [dest][0] == dest && [src][0] == src;
    case Convert(_, _, conv) =>
    case Binop(_, _, _, _, _) =>
    case Icmp(_, _, _, _, _) =>
  }

  // ---------------------------------------------------------------- runs

  /** Typed locals stay typed. */
  lemma {:induction false} OpsAreSound(host: Host, ops: seq<Op>, n: nat, locals: seq<Val>, types: seq<bool>, sigs: seq<Signature>, log: Log)
    requires n <= |ops| && OpsTyped(ops, types, sigs) && (forall i | 0 <= i < |ops| :: Shaped(ops[i]))
    requires ValsTyped(locals, types) && HostKeeps(host, sigs)
    ensures var ran := RunOps(host, ops, n, locals, log); !ran.RanIllTyped? && (ran.Ran? ==> ValsTyped(ran.locals, types))
    decreases n
  {
    hide OpTyped, Shaped, HostKeeps, OpMeaning, ValsTyped, Assign;
    if n > 0 {
      OpsAreSound(host, ops, n - 1, locals, types, sigs, log);
      var before := RunOps(host, ops, n - 1, locals, log);
      if before.Ran? {
        OpIsSound(host, ops[n - 1], before.locals, types, sigs, before.log);
        var mean := OpMeaning(host, ops[n - 1], before.locals, before.log);
        if mean.Values? {
          AssignTyped(before.locals, types, Dests(ops[n - 1]), mean.vals);
        }
      }
    }
  }

  lemma {:induction false} PickedTyped(v: Val, is64: bool, cases: seq<Case>, fallback: Goto, i: nat, blocks: seq<BlockState>, types: seq<bool>)
    requires i <= |cases| && GotoTyped(fallback, blocks, types) && forall j | 0 <= j < |cases| :: GotoTyped(cases[j].goto, blocks, types)
    ensures GotoTyped(Picked(v, is64, cases, fallback, i), blocks, types)
    decreases |cases| - i
  {
    if i < |cases| && v != KeyOf(cases[i].key, is64) {
      PickedTyped(v, is64, cases, fallback, i + 1, blocks, types);
    }
  }

  lemma NextTyped(e: Exit, blocks: seq<BlockState>, types: seq<bool>, results: seq<bool>, locals: seq<Val>)
    requires ExitTyped(e, blocks, types, results) && ValsTyped(locals, types) && !e.Ret?
    ensures NextGoto(e, locals).Some? && GotoTyped(NextGoto(e, locals).value, blocks, types)
  {
    hide Picked, GotoTyped;
    if e.Table? {
      PickedTyped(locals[e.index], e.is64, e.cases, e.fallback, 0, blocks, types);
    }
  }

  ghost predicate FinishTyped(run: Finish, results: seq<bool>) {
    !run.Refused? && (run.Result? ==> ValsTyped(run.vals, results))
  }

  /** A well-typed block program is never refused, and what it returns has the result types. */
  lemma {:induction false} NeverRefused(fuel: nat, ctx: Context, blocks: seq<BlockState>, k: nat, types: seq<bool>, sigs: seq<Signature>,
                                        results: seq<bool>, locals: seq<Val>, log: Log)
    requires k < |blocks| && WellTyped(blocks, types, sigs, results)
    requires forall b | 0 <= b < |blocks| :: forall i | 0 <= i < |blocks[b].ops| :: Shaped(blocks[b].ops[i])
    requires ctx.results == |results| && ValsTyped(locals, types) && HostKeeps(ctx.host, sigs)
    ensures FinishTyped(RunBlocks(fuel, ctx, blocks, k, locals, log), results)
    decreases fuel
  {
    hide RunOps, HostKeeps, ValsTyped, Shaped, NextGoto, OpsTyped, Assign, AllHave, SameTypes;
    var block := blocks[k];
    assert BlockTyped(block, blocks, types, sigs, results);
    OpsAreSound(ctx.host, block.ops, |block.ops|, locals, types, sigs, log);
    var ran := RunOps(ctx.host, block.ops, |block.ops|, locals, log);
    if ran.Ran? && block.exit.Some? {
      var e := block.exit.value;
      if e.Ret? {
        ReadsTyped(ran.locals, types, e.vals, results);
        SameCount(types, e.vals, results);
      } else {
        NextTyped(e, blocks, types, results, ran.locals);
        var g := NextGoto(e, ran.locals).value;
        var params := blocks[g.target].params;
        ReadsSame(ran.locals, types, params, g.args);
        SameLengths(types, params, g.args);
        AssignTyped(ran.locals, types, params, Reads(ran.locals, g.args));
        if fuel > 0 {
          NeverRefused(fuel - 1, ctx, blocks, g.target, types, sigs, results, Assign(ran.locals, params, Reads(ran.locals, g.args)), ran.log);
        }
      }
    }
  }

  lemma SameCount(types: seq<bool>, xs: seq<nat>, words: seq<bool>)
    requires AllHave(types, xs, words)
    ensures |xs| == |words|
  {
  }
}
