/**
 What a function under construction keeps: locals handed out one after the other to values,
 scratch and the program counter never meet, every local has the type its owner gives it, and
 operations recorded on operands of the right types are well typed.
 */
module BuilderDiscipline {
  import opened Common
  import opened Numbers
  import opened WasmMachine
  import opened BlockProgram
  import opened WasmTyping
  import opened WasmLowering
  import opened LirTypes
  import opened WasmComponents

  datatype ValueInfo = ValueInfo(locals: seq<nat>, ty: LirTy)

  function FreshLocals(start: nat, n: nat): (r: seq<nat>)
    ensures |r| == n
  {
    seq(n, i requires 0 <= i => start + i)
  }

  // ---------------------------------------------------------------- locals apart

  /** The operands of an exit are nobody's scratch. */
  ghost predicate ExitReads(e: Exit, n: nat, scratch: set<nat>) {
    match e
    case Ret(vals) => InRange(vals, n) && Avoids(vals, scratch)
    case Jump(g) => InRange(g.args, n) && Avoids(g.args, scratch)
    case BranchTo(cond, g, h) =>
      && cond < n && cond !in scratch
      && InRange(g.args, n) && Avoids(g.args, scratch) && InRange(h.args, n) && Avoids(h.args, scratch)
    case Table(index, _, cases, g) =>
      && index < n && index !in scratch && InRange(g.args, n) && Avoids(g.args, scratch)
      && forall i | 0 <= i < |cases| :: InRange(cases[i].goto.args, n) && Avoids(cases[i].goto.args, scratch)
  }

  ghost predicate BlockDisciplined(b: BlockState, n: nat, scratch: set<nat>, pc: nat) {
    && ParamsFit(b.params, n, scratch) && OpsFit(b.ops, n, scratch, pc)
    && (b.exit.Some? ==> ExitReads(b.exit.value, n, scratch))
  }

  ghost predicate BlocksDisciplined(blocks: seq<BlockState>, n: nat, scratch: set<nat>, pc: nat) {
    forall k | 0 <= k < |blocks| :: BlockDisciplined(blocks[k], n, scratch, pc)
  }

  ghost predicate ValueDisciplined(v: ValueInfo, n: nat, scratch: set<nat>) {
    |v.locals| == Locals(v.ty) && InRange(v.locals, n) && Unique(v.locals) && Avoids(v.locals, scratch)
  }

  /** Values in range, apart from scratch, and apart from each other. */
  ghost predicate ValuesDisciplined(values: seq<ValueInfo>, n: nat, scratch: set<nat>) {
    && (forall i | 0 <= i < |values| :: ValueDisciplined(values[i], n, scratch))
    && (forall i, j | 0 <= i < j < |values| :: Apart(values[i].locals, values[j].locals))
  }

  /** More locals, the new scratch among the new ones. */
  ghost predicate Grown(n: nat, scratch: set<nat>, pc: nat, n': nat, scratch': set<nat>, pc': nat) {
    && n <= n' && scratch <= scratch' && (forall x | x in scratch' :: x in scratch || x >= n)
    && (pc == pc' || (pc >= n && pc' >= n))
  }

  lemma OpGrown(op: Op, n: nat, scratch: set<nat>, pc: nat, n': nat, scratch': set<nat>, pc': nat)
    requires OpFits(op, n, scratch, pc) && Grown(n, scratch, pc, n', scratch', pc')
    ensures OpFits(op, n', scratch', pc')
  {
  }

  lemma BlocksGrown(blocks: seq<BlockState>, n: nat, scratch: set<nat>, pc: nat, n': nat, scratch': set<nat>, pc': nat)
    requires BlocksDisciplined(blocks, n, scratch, pc) && Grown(n, scratch, pc, n', scratch', pc')
    ensures BlocksDisciplined(blocks, n', scratch', pc')
  {
    hide OpFits;
    forall k | 0 <= k < |blocks| ensures BlockDisciplined(blocks[k], n', scratch', pc') {
      assert BlockDisciplined(blocks[k], n, scratch, pc);
      forall i | 0 <= i < |blocks[k].ops| ensures OpFits(blocks[k].ops[i], n', scratch', pc') {
        OpGrown(blocks[k].ops[i], n, scratch, pc, n', scratch', pc');
      }
    }
  }

  lemma ValuesGrown(values: seq<ValueInfo>, n: nat, scratch: set<nat>, pc: nat, n': nat, scratch': set<nat>, pc': nat)
    requires ValuesDisciplined(values, n, scratch) && Grown(n, scratch, pc, n', scratch', pc')
    ensures ValuesDisciplined(values, n', scratch')
  {
    forall i | 0 <= i < |values| ensures ValueDisciplined(values[i], n', scratch') {
      assert ValueDisciplined(values[i], n, scratch);
    }
  }

  /** A new value on fresh locals. */
  lemma ValueAdded(values: seq<ValueInfo>, n: nat, scratch: set<nat>, ty: LirTy)
    requires ValuesDisciplined(values, n, scratch) && forall x | x in scratch :: x < n
    ensures ValuesDisciplined(values + [ValueInfo(FreshLocals(n, Locals(ty)), ty)], n + Locals(ty), scratch)
  {
    hide Locals;
    var v := ValueInfo(FreshLocals(n, Locals(ty)), ty);
    var all := values + [v];
    forall i | 0 <= i < |all| ensures ValueDisciplined(all[i], n + Locals(ty), scratch) {
      if i < |values| {
        assert ValueDisciplined(values[i], n, scratch);
      }
    }
    forall i, j | 0 <= i < j < |all| ensures Apart(all[i].locals, all[j].locals) {
      assert ValueDisciplined(values[i], n, scratch);
    }
  }

  /** Operations appended to block `k`. */
  function Pushed(blocks: seq<BlockState>, k: nat, ops: seq<Op>): seq<BlockState>
    requires k < |blocks|
  {
    blocks[k := blocks[k].(ops := blocks[k].ops + ops)]
  }

  lemma PushedTwice(blocks: seq<BlockState>, k: nat, a: seq<Op>, b: seq<Op>)
    requires k < |blocks|
    ensures Pushed(Pushed(blocks, k, a), k, b) == Pushed(blocks, k, a + b)
  {
    assert blocks[k].ops + a + b == blocks[k].ops + (a + b);
  }

  lemma PushedNothing(blocks: seq<BlockState>, k: nat)
    requires k < |blocks|
    ensures Pushed(blocks, k, []) == blocks
  {
    assert blocks[k].ops + [] == blocks[k].ops;
    assert blocks[k].(ops := blocks[k].ops) == blocks[k];
  }

  lemma PushedDisciplined(blocks: seq<BlockState>, k: nat, op: Op, n: nat, scratch: set<nat>, pc: nat)
    requires k < |blocks| && BlocksDisciplined(blocks, n, scratch, pc) && OpFits(op, n, scratch, pc)
    ensures BlocksDisciplined(Pushed(blocks, k, [op]), n, scratch, pc)
  {
    hide OpFits;
    var all := Pushed(blocks, k, [op]);
    assert BlockDisciplined(blocks[k], n, scratch, pc);
    forall j | 0 <= j < |all| ensures BlockDisciplined(all[j], n, scratch, pc) {
      assert BlockDisciplined(blocks[j], n, scratch, pc);
    }
  }

  lemma ExitDisciplined(blocks: seq<BlockState>, k: nat, e: Exit, n: nat, scratch: set<nat>, pc: nat)
    requires k < |blocks| && BlocksDisciplined(blocks, n, scratch, pc) && ExitReads(e, n, scratch)
    ensures BlocksDisciplined(blocks[k := blocks[k].(exit := Some(e))], n, scratch, pc)
  {
    hide ExitReads, OpsFit, ParamsFit;
    var all := blocks[k := blocks[k].(exit := Some(e))];
    assert BlockDisciplined(blocks[k], n, scratch, pc);
    forall j | 0 <= j < |all| ensures BlockDisciplined(all[j], n, scratch, pc) {
      assert BlockDisciplined(blocks[j], n, scratch, pc);
    }
  }

  lemma BlockAdded(blocks: seq<BlockState>, n: nat, scratch: set<nat>, pc: nat)
    requires BlocksDisciplined(blocks, n, scratch, pc)
    ensures BlocksDisciplined(blocks + [BlockState([], [], None)], n, scratch, pc)
  {
    var all := blocks + [BlockState([], [], None)];
    forall k | 0 <= k < |all| ensures BlockDisciplined(all[k], n, scratch, pc) {
      if k < |blocks| {
        assert BlockDisciplined(blocks[k], n, scratch, pc);
      }
    }
  }

  /** Fresh parameters after the old ones. */
  lemma ParamsAdded(blocks: seq<BlockState>, k: nat, n: nat, count: nat, scratch: set<nat>, before: nat, pc: nat)
    requires k < |blocks| && BlocksDisciplined(blocks, n, scratch, before) && BlocksDisciplined(blocks, n + count, scratch, pc)
    requires forall x | x in scratch :: x < n
    ensures BlocksDisciplined(blocks[k := blocks[k].(params := blocks[k].params + FreshLocals(n, count))], n + count, scratch, pc)
  {
    hide OpsFit, ExitReads;
    var all := blocks[k := blocks[k].(params := blocks[k].params + FreshLocals(n, count))];
    assert BlockDisciplined(blocks[k], n, scratch, before) && BlockDisciplined(blocks[k], n + count, scratch, pc);
    MoreParams(blocks[k].params, n, count, scratch);
    forall j | 0 <= j < |all| ensures BlockDisciplined(all[j], n + count, scratch, pc) {
      assert BlockDisciplined(blocks[j], n + count, scratch, pc);
    }
  }

  lemma MoreParams(params: seq<nat>, n: nat, count: nat, scratch: set<nat>)
    requires InRange(params, n) && Unique(params) && Avoids(params, scratch) && forall x | x in scratch :: x < n
    ensures ParamsFit(params + FreshLocals(n, count), n + count, scratch)
  {
  }

  /** An operation on fresh destinations fits. */
  lemma FreshFits(op: Op, n: nat, scratch: set<nat>, pc: nat)
    requires !op.WideAddSub? && Shaped(op) && Ready(Dests(op), Sources(op), n, scratch)
    ensures OpFits(op, n, scratch, pc)
  {
  }

  lemma WideFits(op: Op, n: nat, scratch: set<nat>, pc: nat)
    requires op.WideAddSub? && Shaped(op) && Ready(op.dests, op.left, n, scratch) && Ready(op.dests, op.right, n, scratch)
    requires op.carry < n && op.aux < n && op.carry != op.aux && op.carry in scratch && op.aux in scratch && op.carry != pc && op.aux != pc
    ensures OpFits(op, n, scratch, pc)
  {
  }

  lemma ReadyJoined(dests: seq<nat>, a: seq<nat>, b: seq<nat>, n: nat, scratch: set<nat>)
    requires Ready(dests, a, n, scratch) && Ready(dests, b, n, scratch)
    ensures Ready(dests, a + b, n, scratch)
  {
  }

  /** Fresh destinations are apart from everything older. */
  lemma FreshReady(start: nat, count: nat, sources: seq<nat>, n: nat, scratch: set<nat>)
    requires start + count <= n && InRange(sources, start) && Avoids(sources, scratch) && forall x | x in scratch :: x < start
    ensures Ready(FreshLocals(start, count), sources, n, scratch)
  {
  }

  lemma ReadyGrown(dests: seq<nat>, sources: seq<nat>, n: nat, scratch: set<nat>, n': nat, scratch': set<nat>)
    requires Ready(dests, sources, n, scratch) && n <= n' && (forall x | x in scratch' :: x in scratch || x >= n)
    ensures Ready(dests, sources, n', scratch')
  {
  }

  lemma ReadyPart(dests: seq<nat>, sources: seq<nat>, n: nat, scratch: set<nat>, ds: seq<nat>, ss: seq<nat>)
    requires Ready(dests, sources, n, scratch) && (forall i | 0 <= i < |ds| :: ds[i] in dests) && (forall i | 0 <= i < |ss| :: ss[i] in sources)
    requires Unique(ds)
    ensures Ready(ds, ss, n, scratch)
  {
  }

  // ---------------------------------------------------------------- every local has its type

  ghost predicate ValuesTyped(values: seq<ValueInfo>, types: seq<bool>) {
    forall i | 0 <= i < |values| :: AllHave(types, values[i].locals, Words(values[i].ty))
  }

  ghost predicate SlotsTyped(temps: seq<nat>, pc: Option<nat>, types: seq<bool>) {
    (forall i | 0 <= i < |temps| :: Has(types, temps[i], false)) && (pc.Some? ==> Has(types, pc.value, false))
  }

  predicate Owns(values: seq<ValueInfo>, temps: seq<nat>, pc: Option<nat>, x: nat) {
    (exists i :: 0 <= i < |values| && x in values[i].locals) || x in temps || pc == Some(x)
  }

  /** No local is without an owner. */
  ghost predicate Covered(values: seq<ValueInfo>, temps: seq<nat>, pc: Option<nat>, n: nat) {
    forall x: nat | x < n :: Owns(values, temps, pc, x)
  }

  lemma HasMore(types: seq<bool>, more: seq<bool>, xs: seq<nat>, words: seq<bool>)
    requires AllHave(types, xs, words)
    ensures AllHave(types + more, xs, words)
  {
    forall i | 0 <= i < |xs| ensures Has(types + more, xs[i], words[i]) {
      assert Has(types, xs[i], words[i]);
    }
  }

  lemma ValuesTypedMore(values: seq<ValueInfo>, types: seq<bool>, more: seq<bool>)
    requires ValuesTyped(values, types)
    ensures ValuesTyped(values, types + more)
  {
    forall i | 0 <= i < |values| ensures AllHave(types + more, values[i].locals, Words(values[i].ty)) {
      HasMore(types, more, values[i].locals, Words(values[i].ty));
    }
  }

  lemma FreshTyped(types: seq<bool>, words: seq<bool>)
    ensures AllHave(types + words, FreshLocals(|types|, |words|), words)
  {
  }

  lemma ValueTypedAdded(values: seq<ValueInfo>, types: seq<bool>, ty: LirTy)
    requires ValuesTyped(values, types)
    ensures ValuesTyped(values + [ValueInfo(FreshLocals(|types|, Locals(ty)), ty)], types + Words(ty))
  {
    hide AllHave, Words;
    LocalsAreWords(ty);
    ValuesTypedMore(values, types, Words(ty));
    FreshTyped(types, Words(ty));
  }

  lemma CoveredMore(values: seq<ValueInfo>, temps: seq<nat>, pc: Option<nat>, n: nat, ty: LirTy)
    requires Covered(values, temps, pc, n)
    ensures Covered(values + [ValueInfo(FreshLocals(n, Locals(ty)), ty)], temps, pc, n + Locals(ty))
  {
    var all := values + [ValueInfo(FreshLocals(n, Locals(ty)), ty)];
    forall x: nat | x < n + Locals(ty) ensures Owns(all, temps, pc, x) {
      if x < n {
        assert Owns(values, temps, pc, x);
        if i :| 0 <= i < |values| && x in values[i].locals {
          assert x in all[i].locals;
        }
      } else {
        assert FreshLocals(n, Locals(ty))[x - n] == x;
        assert x in all[|values|].locals;
      }
    }
  }

  lemma CoveredSlot(values: seq<ValueInfo>, temps: seq<nat>, pc: Option<nat>, temps': seq<nat>, pc': Option<nat>, n: nat)
    requires Covered(values, temps, pc, n) && (forall x | x in temps :: x in temps') && (pc.Some? ==> pc' == pc)
    requires n in temps' || pc' == Some(n)
    ensures Covered(values, temps', pc', n + 1)
  {
    forall x: nat | x < n + 1 ensures Owns(values, temps', pc', x) {
      if x < n {
        assert Owns(values, temps, pc, x);
      }
    }
  }

  // ---------------------------------------------------------------- every operation is well typed

  /** A call by name, once the functions of the module are known. */
  function Resolve(op: Op, siblings: map<string, nat>): Op {
    if op.CallSibling? && op.name in siblings then Call(op.dests, siblings[op.name], op.args) else op
  }

  ghost predicate OpTypedIn(op: Op, types: seq<bool>, sigs: seq<Signature>, siblings: map<string, nat>) {
    OpTyped(Resolve(op, siblings), types, sigs)
  }

  ghost predicate BlocksTyped(blocks: seq<BlockState>, types: seq<bool>, sigs: seq<Signature>, siblings: map<string, nat>) {
    forall k | 0 <= k < |blocks| :: forall i | 0 <= i < |blocks[k].ops| :: OpTypedIn(blocks[k].ops[i], types, sigs, siblings)
  }

  lemma OpTypedMore(op: Op, types: seq<bool>, more: seq<bool>, sigs: seq<Signature>)
    requires OpTyped(op, types, sigs)
    ensures OpTyped(op, types + more, sigs)
  {
    hide AllHave;
    match op
    case Iconst(dests, words, _) => HasMore(types, more, dests, words);
    case Zero(dests, is64) => HasMore(types, more, dests, Repeat(is64, |dests|));
    case Select(_, _, _, _) =>
    case WideAddSub(dests, left, right, _, _, _) =>
      HasMore(types, more, dests, Repeat(true, |dests|));
      HasMore(types, more, left, Repeat(true, |dests|));
      HasMore(types, more, right, Repeat(true, |dests|));
    case WideShift(dests, val, shift, _) =>
      HasMore(types, more, dests, Repeat(true, |dests|));
      HasMore(types, more, val, Repeat(true, |dests|));
      HasMore(types, more, shift, Repeat(true, |dests|));
    case Call(dests, func, args) =>
      HasMore(types, more, args, sigs[func].params);
      HasMore(types, more, dests, sigs[func].results);
    case _ =>
  }

  lemma BlocksTypedMore(blocks: seq<BlockState>, types: seq<bool>, more: seq<bool>, sigs: seq<Signature>, siblings: map<string, nat>)
    requires BlocksTyped(blocks, types, sigs, siblings)
    ensures BlocksTyped(blocks, types + more, sigs, siblings)
  {
    hide OpTyped;
    forall k, i | 0 <= k < |blocks| && 0 <= i < |blocks[k].ops| ensures OpTypedIn(blocks[k].ops[i], types + more, sigs, siblings) {
      assert OpTypedIn(blocks[k].ops[i], types, sigs, siblings);
      OpTypedMore(Resolve(blocks[k].ops[i], siblings), types, more, sigs);
    }
  }

  lemma BlocksTypedPushed(blocks: seq<BlockState>, k: nat, op: Op, types: seq<bool>, sigs: seq<Signature>, siblings: map<string, nat>)
    requires k < |blocks| && BlocksTyped(blocks, types, sigs, siblings) && OpTypedIn(op, types, sigs, siblings)
    ensures BlocksTyped(Pushed(blocks, k, [op]), types, sigs, siblings)
  {
    hide OpTypedIn;
  }

  // ---------------------------------------------------------------- transitions

  predicate GotoLinked(g: Goto, blocks: seq<BlockState>) {
    g.target < |blocks| && |blocks[g.target].params| == |g.args|
  }

  predicate ExitLinked(e: Exit, blocks: seq<BlockState>) {
    match e
    case Ret(_) => true
    case Jump(g) => GotoLinked(g, blocks)
    case BranchTo(_, g, h) => GotoLinked(g, blocks) && GotoLinked(h, blocks)
    case Table(_, _, cases, g) => GotoLinked(g, blocks) && forall i | 0 <= i < |cases| :: GotoLinked(cases[i].goto, blocks)
  }

  /** Every transition leads to a block and passes it as many values as it has parameters. */
  predicate Linked(blocks: seq<BlockState>) {
    forall k | 0 <= k < |blocks| && blocks[k].exit.Some? :: ExitLinked(blocks[k].exit.value, blocks)
  }

  // ---------------------------------------------------------------- calls by name

  /** Functions follow the imports; of two with one name the later is found. */
  function SiblingIndices(imports: nat, names: seq<string>): map<string, nat> {
    if names == [] then map[]
    else
      var last := |names| - 1;
      SiblingIndices(imports, names[..last])[names[last] := imports + last]
  }

  predicate Distinct(names: seq<string>) {
    forall i, j | 0 <= i < j < |names| :: names[i] != names[j]
  }

  /** Every function is reached by its name exactly when no two share one. */
  lemma {:induction false} SiblingsReached(imports: nat, names: seq<string>)
    ensures forall i | 0 <= i < |names| :: names[i] in SiblingIndices(imports, names)
    ensures forall x | x in SiblingIndices(imports, names) :: imports <= SiblingIndices(imports, names)[x] < imports + |names|
    ensures (forall i | 0 <= i < |names| :: SiblingIndices(imports, names)[names[i]] == imports + i) <==> Distinct(names)
    decreases |names|
  {
    if names != [] {
      var last := |names| - 1;
      var fewer := names[..last];
      SiblingsReached(imports, fewer);
      var all, some := SiblingIndices(imports, names), SiblingIndices(imports, fewer);
      assert forall i | 0 <= i < last :: fewer[i] == names[i];
      if forall i | 0 <= i < |names| :: all[names[i]] == imports + i {
        forall i | 0 <= i < last ensures names[i] != names[last] && some[fewer[i]] == imports + i {
          assert all[names[i]] == imports + i;
        }
        assert Distinct(fewer);
      }
      if Distinct(names) {
        assert Distinct(fewer);
        forall i | 0 <= i < |names| ensures all[names[i]] == imports + i {
          if i < last {
            assert some[fewer[i]] == imports + i;
          }
        }
      }
    }
  }

  predicate NamesKnown(blocks: seq<BlockState>, siblings: map<string, nat>) {
    forall k | 0 <= k < |blocks| :: OpNamesKnown(blocks[k].ops, siblings)
  }

  predicate OpNamesKnown(ops: seq<Op>, siblings: map<string, nat>) {
    forall i | 0 <= i < |ops| && ops[i].CallSibling? :: ops[i].name in siblings
  }

  function ResolveOps(ops: seq<Op>, siblings: map<string, nat>): (r: seq<Op>)
    ensures |r| == |ops|
  {
    seq(|ops|, i requires 0 <= i < |ops| => Resolve(ops[i], siblings))
  }

  function ResolveBlock(b: BlockState, siblings: map<string, nat>): BlockState {
    b.(ops := ResolveOps(b.ops, siblings))
  }

  function ResolveBlocks(blocks: seq<BlockState>, siblings: map<string, nat>): (r: seq<BlockState>)
    ensures |r| == |blocks|
  {
    seq(|blocks|, k requires 0 <= k < |blocks| => ResolveBlock(blocks[k], siblings))
  }

  lemma ResolvedOpFits(op: Op, siblings: map<string, nat>, n: nat, scratch: set<nat>, pc: nat)
    requires OpFits(op, n, scratch, pc)
    ensures OpFits(Resolve(op, siblings), n, scratch, pc)
  {
  }

  lemma ResolvedDisciplined(blocks: seq<BlockState>, siblings: map<string, nat>, n: nat, scratch: set<nat>, pc: nat)
    requires BlocksDisciplined(blocks, n, scratch, pc)
    ensures BlocksDisciplined(ResolveBlocks(blocks, siblings), n, scratch, pc)
  {
    hide OpFits, ExitReads, ParamsFit;
    var all := ResolveBlocks(blocks, siblings);
    forall k | 0 <= k < |all| ensures BlockDisciplined(all[k], n, scratch, pc) {
      assert BlockDisciplined(blocks[k], n, scratch, pc);
      forall i | 0 <= i < |all[k].ops| ensures OpFits(all[k].ops[i], n, scratch, pc) {
        ResolvedOpFits(blocks[k].ops[i], siblings, n, scratch, pc);
      }
    }
  }

  lemma ResolvedKnown(blocks: seq<BlockState>, siblings: map<string, nat>, k: nat)
    requires k < |blocks| && NamesKnown(blocks, siblings)
    ensures forall i | 0 <= i < |ResolveBlocks(blocks, siblings)[k].ops| :: !ResolveBlocks(blocks, siblings)[k].ops[i].CallSibling?
  {
    assert OpNamesKnown(blocks[k].ops, siblings);
  }

  lemma ResolvedLinked(blocks: seq<BlockState>, siblings: map<string, nat>)
    ensures Linked(ResolveBlocks(blocks, siblings)) <==> Linked(blocks)
  {
    var all := ResolveBlocks(blocks, siblings);
    forall k | 0 <= k < |blocks| ensures all[k].params == blocks[k].params && all[k].exit == blocks[k].exit {
    }
    forall g: Goto ensures GotoLinked(g, all) <==> GotoLinked(g, blocks) {
    }
    forall e: Exit ensures ExitLinked(e, all) <==> ExitLinked(e, blocks) {
    }
  }

  // ---------------------------------------------------------------- what lowering relies on

  predicate SingleBlock(blocks: seq<BlockState>, pc: Option<nat>) {
    |blocks| == 1 && pc.None?
  }

  /** All that is needed of the locals of a function, its calls resolved. */
  ghost predicate Lowered(blocks: seq<BlockState>, n: nat, scratch: set<nat>, pc: Option<nat>) {
    if SingleBlock(blocks, pc) then
      && SingleEmittable(blocks[0]) && OpsFit(blocks[0].ops, n, scratch, n)
      && (blocks[0].exit.Some? ==> Avoids(blocks[0].exit.value.vals, scratch))
    else blocks != [] && pc.Some? && Fits(blocks, n, scratch, pc.value) && BlocksEmittable(blocks)
  }

  predicate CanLower(blocks: seq<BlockState>, pc: Option<nat>) {
    if SingleBlock(blocks, pc) then blocks[0].exit.Some? ==> blocks[0].exit.value.Ret?
    else |blocks| < WORD32 && Linked(blocks)
  }

  lemma ManyLowered(blocks: seq<BlockState>, n: nat, scratch: set<nat>, pc: nat)
    requires blocks != [] && BlocksDisciplined(blocks, n, scratch, pc) && Linked(blocks) && pc < n && pc in scratch && |blocks| < WORD32
    requires forall k | 0 <= k < |blocks| :: forall i | 0 <= i < |blocks[k].ops| :: !blocks[k].ops[i].CallSibling?
    ensures Fits(blocks, n, scratch, pc) && BlocksEmittable(blocks)
  {
    hide OpFits;
    forall k | 0 <= k < |blocks| ensures BlockFits(blocks[k], blocks, n, scratch, pc) {
      assert BlockDisciplined(blocks[k], n, scratch, pc);
    }
    FitsEmittable(blocks, n, scratch, pc);
  }

  lemma OneLowered(blocks: seq<BlockState>, n: nat, scratch: set<nat>)
    requires |blocks| == 1 && BlocksDisciplined(blocks, n, scratch, n) && CanLower(blocks, None)
    requires forall i | 0 <= i < |blocks[0].ops| :: !blocks[0].ops[i].CallSibling?
    ensures Lowered(blocks, n, scratch, None)
  {
    assert BlockDisciplined(blocks[0], n, scratch, n);
    forall i | 0 <= i < |blocks[0].ops| ensures Emittable(blocks[0].ops[i]) {
      assert OpFits(blocks[0].ops[i], n, scratch, n);
    }
  }

  /** The code of a function body: straight for one block, through the dispatch loop for several. */
  function BodyCode(blocks: seq<BlockState>, pc: Option<nat>): seq<Instr>
    requires if SingleBlock(blocks, pc) then SingleEmittable(blocks[0]) else pc.Some? && BlocksEmittable(blocks)
  {
    if SingleBlock(blocks, pc) then SingleCode(blocks[0]) else FunctionCode(blocks, pc.value)
  }

  ghost function RunBody(fuel: nat, ctx: Context, blocks: seq<BlockState>, pc: Option<nat>, locals: seq<Val>, log: Log): Finish
    requires blocks != []
  {
    if SingleBlock(blocks, pc) then RunSingle(ctx, blocks[0], locals, log) else RunBlocks(fuel, ctx, blocks, 0, locals, log)
  }

  /** Types of exits, checked once all parameters are known. */
  predicate ExitsTyped(blocks: seq<BlockState>, pc: Option<nat>, types: seq<bool>, results: seq<bool>) {
    if SingleBlock(blocks, pc) then
      (if blocks[0].exit.Some? then blocks[0].exit.value.Ret? && AllHave(types, blocks[0].exit.value.vals, results) else results == [])
    else forall k | 0 <= k < |blocks| && blocks[k].exit.Some? :: ExitTyped(blocks[k].exit.value, blocks, types, results)
  }

  lemma ResolvedTyped(blocks: seq<BlockState>, siblings: map<string, nat>, types: seq<bool>, sigs: seq<Signature>, k: nat)
    requires BlocksTyped(blocks, types, sigs, siblings) && k < |blocks|
    ensures OpsTyped(ResolveBlocks(blocks, siblings)[k].ops, types, sigs)
  {
    hide OpTyped;
    var ops := ResolveBlocks(blocks, siblings)[k].ops;
    forall i | 0 <= i < |ops| ensures OpTyped(ops[i], types, sigs) {
      assert OpTypedIn(blocks[k].ops[i], types, sigs, siblings);
    }
  }

  /**
   A function built on operands of the right types, its exits typed: from typed locals, with any
   host that keeps to the signatures, the emitted stream is never stuck and does exactly what the
   block program does.
   */
  lemma BuiltRuns(ctx: Context, fuel: nat, code: seq<Instr>, built: seq<BlockState>, siblings: map<string, nat>, pc: Option<nat>,
                  types: seq<bool>, sigs: seq<Signature>, results: seq<bool>, locals: seq<Val>, log: Log, scratch: set<nat>)
    requires built != [] && Lowered(ResolveBlocks(built, siblings), |locals|, scratch, pc)
    requires BlocksTyped(built, types, sigs, siblings) && ExitsTyped(ResolveBlocks(built, siblings), pc, types, results)
    requires ctx.results == |results| && ValsTyped(locals, types) && HostKeeps(ctx.host, sigs)
    requires Flat(code) == Flat(BodyCode(ResolveBlocks(built, siblings), pc))
    ensures var run := RunBody(fuel, ctx, ResolveBlocks(built, siblings), pc, locals, log);
      FinishTyped(run, results) && Conclude(Exec(ctx, fuel, code, Mach(locals, log, [])), ctx.results) == Expected(run)
  {
    hide Exec, Flat, RunBlocks, RunSingle, HostKeeps, ValsTyped, Fits, SingleCode, FunctionCode, OpsFit, OpsTyped, ExitTyped, ResolveBlocks;
    var blocks := ResolveBlocks(built, siblings);
    forall k | 0 <= k < |blocks| ensures OpsTyped(blocks[k].ops, types, sigs) {
      ResolvedTyped(built, siblings, types, sigs, k);
    }
    if SingleBlock(blocks, pc) {
      SingleSimulates(ctx, fuel, code, blocks[0], types, sigs, results, locals, log, scratch);
    } else {
      assert WellTyped(blocks, types, sigs, results);
      StreamSimulates(ctx, fuel, code, blocks, types, sigs, results, locals, log, scratch, pc.value);
    }
  }

  // ---------------------------------------------------------------- a call of the function

  function Zeros(decls: seq<bool>): (r: seq<Val>)
    ensures |r| == |decls|
  {
    seq(|decls|, i requires 0 <= i < |decls| => Wrapped(0, decls[i]))
  }

  /** A call starts from its arguments and zeros of the declared types. */
  lemma InitialTyped(args: seq<Val>, params: seq<bool>, types: seq<bool>)
    requires ValsTyped(args, params) && params <= types
    ensures ValsTyped(args + Zeros(types[|params|..]), types)
  {
    hide Wrapped;
    var all := args + Zeros(types[|params|..]);
    forall i | 0 <= i < |all| ensures Typed(all[i], types[i]) {
      if i < |params| {
        assert types[i] == params[i];
      } else {
        assert types[|params|..][i - |params|] == types[i];
        ZeroTyped(types[i]);
      }
    }
  }

  lemma ZeroTyped(is64: bool)
    ensures Typed(Wrapped(0, is64), is64)
  {
  }
}
