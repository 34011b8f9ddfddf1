/**
 A function under construction. Every call allocates fresh locals, records operations or an exit,
 and keeps the discipline on locals and types; lowering writes the code.
 */
module FunctionBuilder {
  import opened Common
  import opened Numbers
  import opened WasmMachine
  import opened BlockProgram
  import opened WasmTyping
  import opened WasmLowering
  import opened WasmEmission
  import opened LirTypes
  import opened WasmComponents
  import opened BuilderDiscipline

  /** The value types of several values, in order. */
  function WordsOf(tys: seq<LirTy>): (r: seq<bool>) {
    if tys == [] then [] else WordsOf(tys[..|tys| - 1]) + Words(tys[|tys| - 1])
  }

  predicate Known(values: seq<ValueInfo>, ids: seq<nat>) {
    forall i | 0 <= i < |ids| :: ids[i] < |values|
  }

  /** The locals of several values, in order. */
  function Flatten(values: seq<ValueInfo>, ids: seq<nat>): (r: seq<nat>)
    requires Known(values, ids)
  {
    if ids == [] then [] else values[ids[0]].locals + Flatten(values, ids[1..])
  }

  function FlatWords(values: seq<ValueInfo>, ids: seq<nat>): (r: seq<bool>)
    requires Known(values, ids)
  {
    if ids == [] then [] else Words(values[ids[0]].ty) + FlatWords(values, ids[1..])
  }

  predicate CasesKnown(values: seq<ValueInfo>, cases: seq<(int, nat, seq<nat>)>) {
    forall i | 0 <= i < |cases| :: Known(values, cases[i].2)
  }

  function CasesOf(values: seq<ValueInfo>, cases: seq<(int, nat, seq<nat>)>): (r: seq<Case>)
    requires CasesKnown(values, cases)
    ensures |r| == |cases|
  {
    if cases == [] then []
    else
      var rest, last := cases[..|cases| - 1], cases[|cases| - 1];
      CasesOf(values, rest) + [Case(last.0, Goto(last.1, Flatten(values, last.2)))]
  }

  /** The values from `first` on have the given types. */
  predicate TypesFrom(values: seq<ValueInfo>, first: nat, tys: seq<LirTy>) {
    first + |tys| == |values| && forall j | first <= j < |values| :: values[j].ty == tys[j - first]
  }

  /** The elements of an array, each in one local. */
  predicate ArrayKnown(values: seq<ValueInfo>, first: nat, elems: seq<nat>) {
    && first + |elems| <= |values|
    && (forall i | 0 <= i < |elems| :: elems[i] < |values| && |values[elems[i]].locals| == 1)
    && (forall j | first <= j < first + |elems| :: |values[j].locals| == 1)
  }

  function ArrayOps(values: seq<ValueInfo>, first: nat, elems: seq<nat>): (r: seq<Op>)
    requires ArrayKnown(values, first, elems)
  {
    if elems == [] then []
    else
      var n := |elems| - 1;
      ArrayOps(values, first, elems[..n]) + [Copy(values[first + n].locals[0], values[elems[n]].locals[0])]
  }

  lemma {:induction false} ArrayOpsMore(values: seq<ValueInfo>, more: seq<ValueInfo>, first: nat, elems: seq<nat>)
    requires ArrayKnown(values, first, elems) && values <= more
    ensures ArrayKnown(more, first, elems) && ArrayOps(more, first, elems) == ArrayOps(values, first, elems)
    decreases |elems|
  {
    if elems != [] {
      ArrayOpsMore(values, more, first, elems[..|elems| - 1]);
    }
  }

  lemma NoArray(values: seq<ValueInfo>, first: nat)
    requires first <= |values|
    ensures ArrayKnown(values, first, []) && ArrayOps(values, first, []) == []
  {
  }

  lemma OneMoreElem(values: seq<ValueInfo>, first: nat, elems: seq<nat>, k: nat)
    requires k < |elems| && ArrayKnown(values, first, elems[..k]) && first + k < |values| && elems[k] < |values|
    requires |values[elems[k]].locals| == 1 && |values[first + k].locals| == 1
    ensures ArrayKnown(values, first, elems[..k + 1])
    ensures ArrayOps(values, first, elems[..k + 1])
      == ArrayOps(values, first, elems[..k]) + [Copy(values[first + k].locals[0], values[elems[k]].locals[0])]
  {
    var more := elems[..k + 1];
    assert more[..k] == elems[..k];
    forall i | 0 <= i < |more| ensures more[i] < |values| && |values[more[i]].locals| == 1 {
      if i < k {
        assert more[i] == elems[..k][i];
      }
    }
  }

  ghost function Elements(xs: seq<nat>): (r: set<nat>)
    ensures forall x: nat :: x in r <==> x in xs
  {
    if xs == [] then {} else Elements(xs[..|xs| - 1]) + {xs[|xs| - 1]}
  }

  /** Locals that hold no value. */
  ghost function ScratchOf(temps: seq<nat>, pc: Option<nat>): set<nat> {
    Elements(temps) + if pc.Some? then {pc.value} else {}
  }

  lemma OneMoreTemp(temps: seq<nat>, pc: Option<nat>, n: nat)
    ensures ScratchOf(temps + [n], pc) == ScratchOf(temps, pc) + {n}
  {
    assert (temps + [n])[..|temps|] == temps;
  }

  /** The next local becomes scratch, or the program counter. */
  lemma SlotGrows(temps: seq<nat>, pc: Option<nat>, temps': seq<nat>, pc': Option<nat>, n: nat)
    requires (temps' == temps + [n] && pc' == pc) || (temps' == temps && pc.None? && pc' == Some(n))
    requires forall x | x in ScratchOf(temps, pc) :: x < n
    ensures Grown(n, ScratchOf(temps, pc), PcOf(pc, n), n + 1, ScratchOf(temps', pc'), PcOf(pc', n + 1))
    ensures forall x | x in ScratchOf(temps', pc') :: x < n + 1
    ensures PcOf(pc, n) !in temps ==> PcOf(pc', n + 1) !in temps'
  {
    if temps' == temps + [n] {
      OneMoreTemp(temps, pc, n);
    }
    forall x | x in temps' ensures x < n || (x == n && temps' != temps) {
      if x in temps {
        assert x in ScratchOf(temps, pc);
      }
    }
    if pc.Some? {
      assert pc.value in ScratchOf(temps, pc);
    }
  }

  ghost function PcOf(pc: Option<nat>, n: nat): nat {
    if pc.Some? then pc.value else n
  }

  lemma NoWords()
    ensures WordsOf([]) == []
  {
  }

  lemma MoreWords(tys: seq<LirTy>, i: nat)
    requires i < |tys|
    ensures WordsOf(tys[..i + 1]) == WordsOf(tys[..i]) + Words(tys[i]) && Locals(tys[i]) == |Words(tys[i])|
  {
    hide Words;
    assert tys[..i + 1][..i] == tys[..i];
  }

  class FunctionState {
    var params: seq<bool>
    var values: seq<ValueInfo>
    var nextLocal: nat
    var blocks: seq<BlockState>
    var current: Option<nat>
    var pc: Option<nat>
    var temps: seq<nat>

    /** The type of every local handed out so far. */
    ghost var types: seq<bool>
    /** Whether all operands so far had the types their operations take. */
    ghost var typed: bool
    /** The functions of the module, by index and by name. */
    ghost const sigs: seq<Signature>
    ghost const siblings: map<string, nat>

    ghost function Scratch(): set<nat>
      reads this
    {
      ScratchOf(temps, pc)
    }

    ghost function Pc(): nat
      reads this
    {
      PcOf(pc, nextLocal)
    }

    ghost predicate Separate()
      reads this
    {
      && (forall x | x in Scratch() :: x < nextLocal) && Pc() !in temps
      && ValuesDisciplined(values, nextLocal, Scratch())
      && BlocksDisciplined(blocks, nextLocal, Scratch(), Pc())
    }

    ghost predicate TypesKept()
      reads this
    {
      && |types| == nextLocal && params <= types
      && ValuesTyped(values, types) && SlotsTyped(temps, pc, types) && Covered(values, temps, pc, nextLocal)
      && (typed ==> BlocksTyped(blocks, types, sigs, siblings))
    }

    ghost predicate Valid()
      reads this
    {
      && Separate() && TypesKept()
      && blocks != [] && (|blocks| > 1 ==> pc.Some?) && (current.Some? ==> current.value < |blocks|)
    }

    /** A function starts with one block; its parameters are its first values, in the first locals. */
    constructor (tys: seq<LirTy>, ghost sigs: seq<Signature>, ghost siblings: map<string, nat>)
      ensures Valid() && |values| == |tys| && (forall i | 0 <= i < |tys| :: values[i].ty == tys[i])
      ensures params == types == WordsOf(tys)
      ensures blocks == [BlockState([], [], None)] && pc.None? && temps == [] && current.None? && typed
      ensures this.sigs == sigs && this.siblings == siblings
    {
      params, values, nextLocal, blocks, current, pc, temps := [], [], 0, [BlockState([], [], None)], None, None, [];
      types, typed := [], true;
      this.sigs, this.siblings := sigs, siblings;
      new;
      TakeParams(tys);
    }

    method TakeParams(tys: seq<LirTy>)
      requires Valid() && values == [] && types == [] && params == []
      modifies this`values, this`nextLocal, this`types, this`params
      ensures Valid() && |values| == |tys| && (forall i | 0 <= i < |tys| :: values[i].ty == tys[i])
      ensures params == types == WordsOf(tys)
    {
      hide Separate, ValuesTyped, SlotsTyped, Covered, BlocksTyped, AllHave, Words;
      for i := 0 to |tys|
        invariant Valid() && |values| == i && (forall j | 0 <= j < i :: values[j].ty == tys[j])
        invariant types == WordsOf(tys[..i]) && params == []
      {
        var id := AllocValue(tys[i]);
        assert tys[..i + 1][..i] == tys[..i];
      }
      assert tys[..|tys|] == tys;
      DeclareParams(WordsOf(tys));
    }

    method DeclareParams(words: seq<bool>)
      requires Valid() && words <= types
      modifies this`params
      ensures Valid() && params == words
    {
      hide ValuesDisciplined, BlocksDisciplined, ValuesTyped, SlotsTyped, Covered, BlocksTyped;
      params := words;
    }

    // -------------------------------------------------------------- locals

    method AllocValue(ty: LirTy) returns (id: nat)
      requires Valid()
      modifies this`nextLocal, this`values, this`types
      ensures Valid() && id == |old(values)| && values == old(values) + [ValueInfo(FreshLocals(old(nextLocal), Locals(ty)), ty)]
      ensures nextLocal == old(nextLocal) + Locals(ty) && types == old(types) + Words(ty)
      ensures AllHave(types, values[id].locals, Words(ty)) && forall x | x in Scratch() :: x < old(nextLocal)
    {
      hide ValuesDisciplined, BlocksDisciplined, ValuesTyped, Covered, BlocksTyped, AllHave, Words;
      ghost var n, p := nextLocal, Pc();
      id := |values|;
      LocalsAreWords(ty);
      values := values + [ValueInfo(FreshLocals(nextLocal, Locals(ty)), ty)];
      nextLocal := nextLocal + Locals(ty);
      types := types + Words(ty);
      ValueAdded(old(values), n, Scratch(), ty);
      BlocksGrown(blocks, n, Scratch(), p, nextLocal, Scratch(), Pc());
      ValueTypedAdded(old(values), old(types), ty);
      SlotsTypedMore(temps, pc, old(types), Words(ty));
      CoveredMore(old(values), temps, pc, n, ty);
      FreshTyped(old(types), Words(ty));
      if typed {
        BlocksTypedMore(blocks, old(types), Words(ty), sigs, siblings);
      }
    }

    /** Scratch for limb arithmetic is 32 bits wide. */
    method AllocTemp() returns (local: nat)
      requires Valid()
      modifies this`nextLocal, this`temps, this`types
      ensures Valid() && local == old(nextLocal) && nextLocal == local + 1 && temps == old(temps) + [local]
      ensures types == old(types) + [false]
      ensures Scratch() == old(Scratch()) + {local}
    {
      hide ValuesDisciplined, BlocksDisciplined, ValuesTyped, SlotsTyped, Covered, BlocksTyped, ScratchOf, PcOf;
      local := nextLocal;
      nextLocal := nextLocal + 1;
      temps := temps + [local];
      types := types + [false];
      OneMoreTemp(old(temps), pc, local);
      SlotAdded(values, blocks, local, old(temps), pc, temps, pc, old(types), sigs, siblings);
    }

    method EnsurePc()
      requires Valid()
      modifies this`nextLocal, this`pc, this`types
      ensures Valid() && pc.Some? && nextLocal >= old(nextLocal) && old(types) <= types
      ensures old(pc).Some? ==> pc == old(pc) && nextLocal == old(nextLocal) && types == old(types)
    {
      hide ValuesDisciplined, BlocksDisciplined, ValuesTyped, SlotsTyped, Covered, BlocksTyped, ScratchOf, PcOf;
      if pc.Some? {
        return;
      }
      ghost var n := nextLocal;
      pc := Some(nextLocal);
      nextLocal := nextLocal + 1;
      types := types + [false];
      SlotAdded(values, blocks, n, temps, None, temps, pc, old(types), sigs, siblings);
    }

    // -------------------------------------------------------------- blocks

    /** A second block makes the function need a program counter. */
    method CreateBlock() returns (id: nat)
      requires Valid()
      modifies this`blocks, this`nextLocal, this`pc, this`types
      ensures Valid() && id == |old(blocks)| && blocks == old(blocks) + [BlockState([], [], None)] && pc.Some?
      ensures nextLocal >= old(nextLocal) && old(types) <= types
    {
      hide ValuesDisciplined, BlocksDisciplined, ValuesTyped, Covered;
      EnsurePc();
      id := |blocks|;
      blocks := blocks + [BlockState([], [], None)];
      BlockAdded(old(blocks), nextLocal, Scratch(), Pc());
    }

    method AddBlockParam(block: nat, ty: LirTy) returns (id: nat)
      requires Valid() && block < |blocks|
      modifies this`blocks, this`nextLocal, this`values, this`types
      ensures Valid() && id == |old(values)| && values == old(values) + [ValueInfo(FreshLocals(old(nextLocal), Locals(ty)), ty)]
      ensures types == old(types) + Words(ty)
      ensures blocks == old(blocks)[block := old(blocks)[block].(params := old(blocks)[block].params + values[id].locals)]
    {
      hide ValuesDisciplined, BlocksDisciplined, ValuesTyped, Covered, Words;
      id := AllocValue(ty);
      blocks := blocks[block := blocks[block].(params := blocks[block].params + values[id].locals)];
      ParamsAdded(old(blocks), block, old(nextLocal), Locals(ty), Scratch(), old(Pc()), Pc());
    }

    method SwitchTo(block: nat)
      requires Valid() && block < |blocks|
      modifies this`current
      ensures Valid() && current == Some(block)
    {
      current := Some(block);
    }

    /** Operations go to the current block while it is not terminated. */
    ghost predicate Open()
      reads this
    {
      current.Some? && current.value < |blocks| && blocks[current.value].exit.None?
    }

    method PushOp(op: Op)
      requires Valid() && Open() && OpFits(op, nextLocal, Scratch(), Pc())
      modifies this`blocks, this`typed
      ensures Valid() && Open() && blocks == Pushed(old(blocks), current.value, [op])
      ensures typed == (old(typed) && OpTypedIn(op, types, sigs, siblings))
    {
      hide OpFits, ValuesDisciplined, BlocksDisciplined, ValuesTyped, Covered, BlocksTyped, OpTypedIn;
      var k := current.value;
      blocks := blocks[k := blocks[k].(ops := blocks[k].ops + [op])];
      typed := typed && OpTypedIn(op, types, sigs, siblings);
      PushedDisciplined(old(blocks), k, op, nextLocal, Scratch(), Pc());
      if typed {
        BlocksTypedPushed(old(blocks), k, op, types, sigs, siblings);
      }
    }

    method SetExit(e: Exit)
      requires Valid() && Open() && ExitReads(e, nextLocal, Scratch())
      modifies this`blocks
      ensures Valid() && blocks == old(blocks)[current.value := old(blocks)[current.value].(exit := Some(e))]
    {
      hide ValuesDisciplined, BlocksDisciplined, ValuesTyped, Covered, ExitReads;
      var k := current.value;
      blocks := blocks[k := blocks[k].(exit := Some(e))];
      ExitDisciplined(old(blocks), k, e, nextLocal, Scratch(), Pc());
    }

    /** What a value's locals keep. */
    lemma ValueFacts(id: nat)
      requires Valid() && id < |values|
      ensures var v := values[id];
        |v.locals| == Locals(v.ty) && InRange(v.locals, nextLocal) && Avoids(v.locals, Scratch()) && AllHave(types, v.locals, Words(v.ty))
    {
      assert ValueDisciplined(values[id], nextLocal, Scratch());
    }

    // -------------------------------------------------------------- constants and scalars

    /** The number in the first word; the other words of a wide or vector constant are zero. */
    method Iconst(ty: LirTy, value: int) returns (id: nat)
      requires Valid() && Open()
      modifies this`nextLocal, this`values, this`types, this`blocks, this`typed
      ensures Valid() && Open() && id == |old(values)| && values == old(values) + [ValueInfo(FreshLocals(old(nextLocal), Locals(ty)), ty)]
      ensures blocks == Pushed(old(blocks), current.value, [Op.Iconst(values[id].locals, Words(ty), value)])
      ensures types == old(types) + Words(ty) && typed == old(typed)
    {
      hide Valid, Words, AllHave, OpFits;
      id := AllocValue(ty);
      LocalsAreWords(ty);
      var op := Op.Iconst(values[id].locals, Words(ty), value);
      FreshOp(op, old(nextLocal), Locals(ty));
      PushOp(op);
    }

    /** One instruction on fresh scalars. */
    method Icmp(pred: Pred, lhs: nat, rhs: nat) returns (id: nat)
      requires Valid() && Open() && lhs < |values| && rhs < |values|
      requires Scalar(values[lhs].ty) && Locals(values[rhs].ty) == 1
      modifies this`nextLocal, this`values, this`types, this`blocks, this`typed
      ensures Valid() && Open() && id == |old(values)| && values == old(values) + [ValueInfo([old(nextLocal)], Boolean)]
      ensures |values[lhs].locals| == 1 == |values[rhs].locals|
      ensures blocks == Pushed(old(blocks), current.value,
        [Op.Icmp(old(nextLocal), pred, values[lhs].locals[0], values[rhs].locals[0], values[lhs].ty.Long?)])
      ensures old(typed) && Words(values[lhs].ty) == Words(values[rhs].ty) ==> typed
    {
      hide Valid, OpFits;
      ValueFacts(lhs);
      ValueFacts(rhs);
      var left, right, is64 := values[lhs].locals[0], values[rhs].locals[0], values[lhs].ty.Long?;
      ghost var n := nextLocal;
      id := AllocValue(Boolean);
      assert FreshLocals(n, 1) == [n];
      var op := Op.Icmp(values[id].locals[0], pred, left, right, is64);
      FreshOp(op, n, 1);
      ValueFacts(lhs);
      ValueFacts(rhs);
      ValueFacts(id);
      IcmpTyped(op, types, values[id].locals, values[lhs].locals, values[rhs].locals, values[lhs].ty, values[rhs].ty, sigs);
      PushOp(op);
    }

    method Select(cond: nat, thenVal: nat, elseVal: nat) returns (id: nat)
      requires Valid() && Open() && cond < |values| && thenVal < |values| && elseVal < |values|
      requires Locals(values[cond].ty) == 1 && Locals(values[thenVal].ty) == Locals(values[elseVal].ty)
      modifies this`nextLocal, this`values, this`types, this`blocks, this`typed
      ensures Valid() && Open() && id == |old(values)|
      ensures values == old(values) + [ValueInfo(FreshLocals(old(nextLocal), Locals(old(values)[thenVal].ty)), old(values)[thenVal].ty)]
      ensures |values[cond].locals| == 1
      ensures blocks == Pushed(old(blocks), current.value,
        [Op.Select(values[id].locals, values[cond].locals[0], values[thenVal].locals, values[elseVal].locals)])
      ensures old(typed) && Words(values[cond].ty) == [false] && Words(values[thenVal].ty) == Words(values[elseVal].ty) ==> typed
    {
      hide Valid, OpFits, Words, AllHave;
      ValueFacts(cond);
      ValueFacts(thenVal);
      ValueFacts(elseVal);
      var c, thens, elses := values[cond].locals, values[thenVal].locals, values[elseVal].locals;
      ghost var n := nextLocal;
      id := AllocValue(values[thenVal].ty);
      var op := Op.Select(values[id].locals, c[0], thens, elses);
      SelectSourcesOlder(op, c, n, Scratch());
      FreshOp(op, n, |thens|);
      ValueFacts(cond);
      ValueFacts(thenVal);
      ValueFacts(elseVal);
      SelectTyped(op, types, c, values[cond].ty, values[thenVal].ty, values[elseVal].ty, sigs);
      PushOp(op);
    }

    /** Scalars are converted by one instruction sequence. */
    method Convert(val: nat, ty: LirTy, conv: Conv) returns (id: nat)
      requires Valid() && Open() && val < |values| && Scalar(values[val].ty) && Scalar(ty) && ConvFits(conv)
      modifies this`nextLocal, this`values, this`types, this`blocks, this`typed
      ensures Valid() && Open() && id == |old(values)| && values == old(values) + [ValueInfo([old(nextLocal)], ty)]
      ensures |values[val].locals| == 1
      ensures blocks == Pushed(old(blocks), current.value, [Op.Convert(old(nextLocal), values[val].locals[0], conv)])
      ensures old(typed) && ConvTyped(conv, values[val].ty.Long?, ty.Long?) ==> typed
      ensures nextLocal == old(nextLocal) + 1
    {
      hide Valid, OpFits;
      ValueFacts(val);
      var src := values[val].locals[0];
      ghost var n := nextLocal;
      id := AllocValue(ty);
      assert FreshLocals(n, 1) == [n];
      var op := Op.Convert(values[id].locals[0], src, conv);
      FreshOp(op, n, 1);
      ValueFacts(val);
      ValueFacts(id);
      ConvertTyped(op, types, values[id].locals, values[val].locals, ty, values[val].ty, sigs);
      PushOp(op);
    }

    // -------------------------------------------------------------- component by component

    /** Both operands of the same number of components. */
    method Binary(kind: BinKind, lhs: nat, rhs: nat) returns (id: nat)
      requires Valid() && Open() && lhs < |values| && rhs < |values|
      requires Locals(values[lhs].ty) == Locals(values[rhs].ty) && Supported(kind, values[lhs].ty)
      modifies this`nextLocal, this`values, this`types, this`blocks, this`temps, this`typed
      ensures Valid() && Open() && id == |old(values)|
      ensures values == old(values) + [ValueInfo(FreshLocals(old(nextLocal), Locals(old(values)[lhs].ty)), old(values)[lhs].ty)]
      ensures |values[lhs].locals| == |values[rhs].locals| == |values[id].locals| == Locals(values[lhs].ty)
      ensures blocks == Pushed(old(blocks), current.value,
        ComponentOps(kind, values[lhs].ty, values[id].locals, values[lhs].locals, values[rhs].locals, old(nextLocal) + Locals(values[lhs].ty)))
      ensures old(typed) && Words(values[lhs].ty) == Words(values[rhs].ty) ==> typed
    {
      hide Valid, OpFits, Words, AllHave, ComponentOps, Supported;
      ValueFacts(lhs);
      ValueFacts(rhs);
      var ty, left, right := values[lhs].ty, values[lhs].locals, values[rhs].locals;
      ghost var n := nextLocal;
      id := AllocValue(ty);
      FreshReady(n, Locals(ty), left, nextLocal, Scratch());
      FreshReady(n, Locals(ty), right, nextLocal, Scratch());
      ValueFacts(lhs);
      ValueFacts(rhs);
      ghost var known := types;
      PushComponents(kind, ty, values[id].locals, left, right);
      if old(typed) && Words(ty) == Words(values[rhs].ty) {
        assert typed;
      }
    }

    /** Scalars take one instruction, packed integers their limbs together, vectors each lane in turn. */
    method PushComponents(kind: BinKind, ty: LirTy, dests: seq<nat>, left: seq<nat>, right: seq<nat>)
      requires Valid() && Open() && |dests| == |left| == |right| == Locals(ty) && Supported(kind, ty)
      requires Ready(dests, left, nextLocal, Scratch()) && Ready(dests, right, nextLocal, Scratch())
      modifies this`blocks, this`nextLocal, this`temps, this`types, this`typed
      ensures Valid() && Open() && nextLocal == old(nextLocal) + Temps(kind, ty) && old(types) <= types
      ensures blocks == Pushed(old(blocks), current.value, ComponentOps(kind, ty, dests, left, right, old(nextLocal)))
      ensures forall x | x in Scratch() :: x in old(Scratch()) || x >= old(nextLocal)
      ensures old(typed) && HaveTypes3(old(types), dests, left, right, Words(ty)) ==> typed
      decreases ty, 1
    {
      hide Valid, OpFits, AllHave;
      if ty.Packed? {
        PushPacked(kind, ty, dests, left, right);
      } else if ty.Lanes? {
        PushLanes(kind, ty, dests, left, right);
      } else {
        PushLimb(kind, ty.Long?, dests, left, right, 0);
        if HaveTypes3(types, dests, left, right, Words(ty)) {
          assert Has(types, dests[0], ty.Long?) && Has(types, left[0], ty.Long?) && Has(types, right[0], ty.Long?) by {
            HaveFirst(types, dests, left, right, ty.Long?);
          }
        }
      }
    }

    method PushPacked(kind: BinKind, ty: LirTy, dests: seq<nat>, left: seq<nat>, right: seq<nat>)
      requires Valid() && Open() && ty.Packed? && |dests| == |left| == |right| == Locals(ty) && Supported(kind, ty)
      requires Ready(dests, left, nextLocal, Scratch()) && Ready(dests, right, nextLocal, Scratch())
      modifies this`blocks, this`nextLocal, this`temps, this`types, this`typed
      ensures Valid() && Open() && nextLocal == old(nextLocal) + Temps(kind, ty) && old(types) <= types
      ensures blocks == Pushed(old(blocks), current.value, ComponentOps(kind, ty, dests, left, right, old(nextLocal)))
      ensures forall x | x in Scratch() :: x in old(Scratch()) || x >= old(nextLocal)
      ensures old(typed) && HaveTypes3(old(types), dests, left, right, Words(ty)) ==> typed
    {
      hide Valid, OpFits, AllHave;
      if kind.AddK? || kind.SubK? {
        PushCarryChain(kind.SubK?, dests, left, right);
      } else if kind.ShlK? || kind.LshrK? {
        PushShift(kind.ShlK?, dests, left, right);
      } else {
        PushLimbs(kind, dests, left, right);
      }
    }

    method AllocPair() returns (carry: nat, aux: nat)
      requires Valid()
      modifies this`nextLocal, this`temps, this`types
      ensures Valid() && carry == old(nextLocal) && aux == carry + 1 && nextLocal == carry + 2 && old(types) <= types
      ensures Scratch() == old(Scratch()) + {carry, aux} && carry != Pc() && aux != Pc()
      ensures Has(types, carry, false) && Has(types, aux, false)
    {
      hide Valid;
      carry := AllocTemp();
      aux := AllocTemp();
      SlotFact(|temps| - 2);
      SlotFact(|temps| - 1);
    }

    method PushCarryChain(subtract: bool, dests: seq<nat>, left: seq<nat>, right: seq<nat>)
      requires Valid() && Open() && |dests| == |left| == |right|
      requires Ready(dests, left, nextLocal, Scratch()) && Ready(dests, right, nextLocal, Scratch())
      modifies this`blocks, this`nextLocal, this`temps, this`types, this`typed
      ensures Valid() && Open() && nextLocal == old(nextLocal) + 2 && old(types) <= types
      ensures blocks == Pushed(old(blocks), current.value, [WideAddSub(dests, left, right, subtract, old(nextLocal), old(nextLocal) + 1)])
      ensures forall x | x in Scratch() :: x in old(Scratch()) || x >= old(nextLocal)
      ensures old(typed) && HaveTypes3(old(types), dests, left, right, Repeat(true, |dests|)) ==> typed
    {
      hide Valid, OpFits, AllHave, HaveTypes3, Ready;
      ghost var n, s := nextLocal, Scratch();
      var carry, aux := AllocPair();
      var op := WideAddSub(dests, left, right, subtract, carry, aux);
      ReadyGrown(dests, left, n, s, nextLocal, Scratch());
      ReadyGrown(dests, right, n, s, nextLocal, Scratch());
      WideFits(op, nextLocal, Scratch(), Pc());
      if HaveTypes3(old(types), dests, left, right, Repeat(true, |dests|)) {
        WideTyped(op, old(types), types, sigs);
      }
      PushOp(op);
    }

    method PushShift(up: bool, dests: seq<nat>, left: seq<nat>, right: seq<nat>)
      requires Valid() && Open() && 0 < |dests| == |left| == |right| && 64 * |dests| < WORD
      requires Ready(dests, left, nextLocal, Scratch()) && Ready(dests, right, nextLocal, Scratch())
      modifies this`blocks, this`typed
      ensures Valid() && Open() && blocks == Pushed(old(blocks), current.value, [WideShift(dests, left, right, up)])
      ensures old(typed) && HaveTypes3(types, dests, left, right, Repeat(true, |dests|)) ==> typed
    {
      hide Valid, OpFits, AllHave, Ready;
      var op := WideShift(dests, left, right, up);
      ReadyJoined(dests, left, right, nextLocal, Scratch());
      FreshFits(op, nextLocal, Scratch(), Pc());
      PushOp(op);
    }

    method PushLimbs(kind: BinKind, dests: seq<nat>, left: seq<nat>, right: seq<nat>)
      requires Valid() && Open() && |dests| == |left| == |right|
      requires Ready(dests, left, nextLocal, Scratch()) && Ready(dests, right, nextLocal, Scratch())
      modifies this`blocks, this`typed
      ensures Valid() && Open() && blocks == Pushed(old(blocks), current.value, LimbOps(kind, dests, left, right, |dests|))
      ensures old(typed) && HaveTypes3(types, dests, left, right, Repeat(true, |dests|)) ==> typed
    {
      hide Valid, OpFits, AllHave, HaveTypes3, Ready;
      PushedNothing(blocks, current.value);
      for i := 0 to |dests|
        invariant Valid() && Open() && blocks == Pushed(old(blocks), current.value, LimbOps(kind, dests, left, right, i))
        invariant old(typed) && HaveTypes3(types, dests, left, right, Repeat(true, |dests|)) ==> typed
      {
        PushedTwice(old(blocks), current.value, LimbOps(kind, dests, left, right, i), [Binop(dests[i], kind, left[i], right[i], true)]);
        PushLimb(kind, true, dests, left, right, i);
        if HaveTypes3(types, dests, left, right, Repeat(true, |dests|)) {
          HaveAt(types, dests, left, right, Repeat(true, |dests|), i);
        }
      }
    }

    method PushLanes(kind: BinKind, ty: LirTy, dests: seq<nat>, left: seq<nat>, right: seq<nat>)
      requires Valid() && Open() && ty.Lanes? && |dests| == |left| == |right| == Locals(ty) && Supported(kind, ty)
      requires Ready(dests, left, nextLocal, Scratch()) && Ready(dests, right, nextLocal, Scratch())
      modifies this`blocks, this`nextLocal, this`temps, this`types, this`typed
      ensures Valid() && Open() && nextLocal == old(nextLocal) + Temps(kind, ty) && old(types) <= types
      ensures blocks == Pushed(old(blocks), current.value, ComponentOps(kind, ty, dests, left, right, old(nextLocal)))
      ensures forall x | x in Scratch() :: x in old(Scratch()) || x >= old(nextLocal)
      ensures old(typed) && HaveTypes3(old(types), dests, left, right, Words(ty)) ==> typed
      decreases ty, 0
    {
      hide Valid, OpFits, AllHave, ComponentOps, Words, Locals, Temps, Supported;
      var elem, n := ty.elem, ty.n;
      LanesLocals(elem, n);
      var w := Locals(elem);
      LaneStart(kind, ty, dests, left, right, nextLocal);
      PushedNothing(blocks, current.value);
      ghost var start, s := nextLocal, Scratch();
      for k := 0 to n
        invariant Valid() && Open() && k * w <= n * w && nextLocal == Offset(start, k, Temps(kind, elem)) && old(types) <= types
        invariant start <= nextLocal && forall x | x in Scratch() :: x in s || x >= start
        invariant blocks == Pushed(old(blocks), current.value, LaneOps(kind, elem, k, dests, left, right, start))
        invariant old(typed) && HaveTypes3(old(types), dests, left, right, Words(ty)) ==> typed
      {
        LaneStep(kind, ty, k, dests, left, right, start);
        ReadyGrown(dests, left, start, s, nextLocal, Scratch());
        ReadyGrown(dests, right, start, s, nextLocal, Scratch());
        ReadyLane(dests, left, nextLocal, Scratch(), w, k);
        ReadyLane(dests, right, nextLocal, Scratch(), w, k);
        if HaveTypes3(old(types), dests, left, right, Words(ty)) {
          LaneHas(old(types), types, dests, left, right, elem, n, k);
        }
        ghost var before := blocks;
        PushComponents(kind, elem, Lane(dests, w, k), Lane(left, w, k), Lane(right, w, k));
        PushedTwice(old(blocks), current.value, LaneOps(kind, elem, k, dests, left, right, start),
          ComponentOps(kind, elem, Lane(dests, w, k), Lane(left, w, k), Lane(right, w, k), Offset(start, k, Temps(kind, elem))));
        LaneBounds(k, Temps(kind, elem));
      }
    }

    /** Scratch is in range, is not the program counter, and is 32 bits wide. */
    lemma SlotFact(i: nat)
      requires Valid() && i < |temps|
      ensures temps[i] < nextLocal && temps[i] in Scratch() && temps[i] != Pc() && Has(types, temps[i], false)
    {
      assert temps[i] in Elements(temps);
    }

    method PushLimb(kind: BinKind, is64: bool, dests: seq<nat>, left: seq<nat>, right: seq<nat>, i: nat)
      requires Valid() && Open() && i < |dests| == |left| == |right|
      requires Ready(dests, left, nextLocal, Scratch()) && Ready(dests, right, nextLocal, Scratch())
      modifies this`blocks, this`typed
      ensures Valid() && Open() && blocks == Pushed(old(blocks), current.value, [Binop(dests[i], kind, left[i], right[i], is64)])
      ensures typed == (old(typed) && Has(types, dests[i], is64) && Has(types, left[i], is64) && Has(types, right[i], is64))
    {
      hide Valid;
      var op := Binop(dests[i], kind, left[i], right[i], is64);
      ReadyJoined(dests, left, right, nextLocal, Scratch());
      ReadyPart(dests, left + right, nextLocal, Scratch(), [dests[i]], [left[i], right[i]]);
      FreshFits(op, nextLocal, Scratch(), Pc());
      PushOp(op);
    }

    method Not(val: nat) returns (id: nat)
      requires Valid() && Open() && val < |values|
      modifies this`nextLocal, this`values, this`types, this`blocks, this`typed
      ensures Valid() && Open() && id == |old(values)|
      ensures values == old(values) + [ValueInfo(FreshLocals(old(nextLocal), Locals(old(values)[val].ty)), old(values)[val].ty)]
      ensures |values[val].locals| == |values[id].locals| == Locals(values[val].ty)
      ensures blocks == Pushed(old(blocks), current.value, NotOps(values[val].ty, values[id].locals, values[val].locals))
      ensures typed == old(typed)
    {
      hide Valid, Words, AllHave, NotOps;
      ValueFacts(val);
      var ty, vals := values[val].ty, values[val].locals;
      ghost var n := nextLocal;
      id := AllocValue(ty);
      FreshReady(n, Locals(ty), vals, nextLocal, Scratch());
      ValueFacts(val);
      PushNot(ty, values[id].locals, vals);
    }

    method PushNot(ty: LirTy, dests: seq<nat>, vals: seq<nat>)
      requires Valid() && Open() && |dests| == |vals| == Locals(ty) && Ready(dests, vals, nextLocal, Scratch())
      requires AllHave(types, dests, Words(ty)) && AllHave(types, vals, Words(ty))
      modifies this`blocks, this`typed
      ensures Valid() && Open() && blocks == Pushed(old(blocks), current.value, NotOps(ty, dests, vals))
      ensures typed == old(typed)
      decreases ty, 1
    {
      hide Valid, AllHave;
      if ty.Packed? {
        PushFlips(dests, vals);
      } else if ty.Lanes? {
        PushNotLanes(ty.elem, ty.n, dests, vals);
      } else {
        PushConvert(dests, vals, 0, NotConv(ty), [ty.Long?], [ty.Long?]);
      }
    }

    method PushNotLanes(elem: LirTy, n: nat, dests: seq<nat>, vals: seq<nat>)
      requires Valid() && Open() && |dests| == |vals| == n * Locals(elem) && Ready(dests, vals, nextLocal, Scratch())
      requires AllHave(types, dests, Copies(Words(elem), n)) && AllHave(types, vals, Copies(Words(elem), n))
      modifies this`blocks, this`typed
      ensures Valid() && Open() && blocks == Pushed(old(blocks), current.value, LaneNots(elem, n, dests, vals))
      ensures typed == old(typed)
      decreases elem, 2
    {
      hide Valid, AllHave, Words, Locals, NotOps, Ready;
      LocalsAreWords(elem);
      var w := Locals(elem);
      PushedNothing(blocks, current.value);
      for k := 0 to n
        invariant Valid() && Open() && 0 <= k * w <= n * w
        invariant blocks == Pushed(old(blocks), current.value, LaneNots(elem, k, dests, vals)) && typed == old(typed)
      {
        NotStep(elem, n, k, dests, vals);
        ReadyLane(dests, vals, nextLocal, Scratch(), w, k);
        LaneTypes(types, dests, Words(elem), n, k);
        LaneTypes(types, vals, Words(elem), n, k);
        PushNot(elem, Lane(dests, w, k), Lane(vals, w, k));
        PushedTwice(old(blocks), current.value, LaneNots(elem, k, dests, vals), NotOps(elem, Lane(dests, w, k), Lane(vals, w, k)));
      }
    }

    method PushFlips(dests: seq<nat>, vals: seq<nat>)
      requires Valid() && Open() && |dests| == |vals| && Ready(dests, vals, nextLocal, Scratch())
      requires AllHave(types, dests, Repeat(true, |dests|)) && AllHave(types, vals, Repeat(true, |dests|))
      modifies this`blocks, this`typed
      ensures Valid() && Open() && typed == old(typed)
      ensures blocks == Pushed(old(blocks), current.value, seq(|dests|, i requires 0 <= i < |dests| => Op.Convert(dests[i], vals[i], Flip(true))))
    {
      hide Valid, AllHave;
      ghost var ops := seq(|dests|, i requires 0 <= i < |dests| => Op.Convert(dests[i], vals[i], Flip(true)));
      PushedNothing(blocks, current.value);
      assert ops[..0] == [];
      for i := 0 to |dests|
        invariant Valid() && Open() && blocks == Pushed(old(blocks), current.value, ops[..i]) && typed == old(typed)
      {
        PushConvert(dests, vals, i, Flip(true), Repeat(true, |dests|), Repeat(true, |dests|));
        PushedTwice(old(blocks), current.value, ops[..i], [ops[i]]);
        assert ops[..i + 1] == ops[..i] + [ops[i]];
      }
      assert ops[..|dests|] == ops;
    }

    method PushConvert(dests: seq<nat>, vals: seq<nat>, i: nat, conv: Conv, ghost from: seq<bool>, ghost to: seq<bool>)
      requires Valid() && Open() && i < |dests| == |vals| && Ready(dests, vals, nextLocal, Scratch()) && ConvFits(conv)
      requires AllHave(types, dests, to) && AllHave(types, vals, from)
      modifies this`blocks, this`typed
      ensures Valid() && Open() && blocks == Pushed(old(blocks), current.value, [Op.Convert(dests[i], vals[i], conv)])
      ensures |from| == |to| == |dests| && typed == (old(typed) && ConvTyped(conv, from[i], to[i]))
    {
      hide Valid;
      var op := Op.Convert(dests[i], vals[i], conv);
      ReadyPart(dests, vals, nextLocal, Scratch(), [dests[i]], [vals[i]]);
      FreshFits(op, nextLocal, Scratch(), Pc());
      assert Has(types, dests[i], to[i]) && Has(types, vals[i], from[i]);
      PushOp(op);
    }

    // -------------------------------------------------------------- conversions

    /** Into a packed integer through its low limb, which a 32-bit scalar reaches by an extension of its own. */
    method Zext(val: nat, ty: LirTy) returns (id: nat)
      requires Valid() && Open() && val < |values| && !values[val].ty.Lanes? && !ty.Lanes?
      requires if ty.Packed? then Locals(values[val].ty) <= Locals(ty) else Scalar(values[val].ty)
      modifies this`nextLocal, this`values, this`types, this`blocks, this`typed
      ensures Valid() && Open() && id < |values| && values[id].ty == ty && old(values) <= values
      ensures |values[val].locals| == Locals(values[val].ty) && |values[id].locals| == Locals(ty)
      ensures blocks == Pushed(old(blocks), current.value, ZextOps(values[val].ty, ty, values[id].locals, values[val].locals, old(nextLocal)))
      ensures old(typed) && (!ty.Packed? ==> ConvTyped(ZextConv(values[val].ty, ty), values[val].ty.Long?, ty.Long?)) ==> typed
    {
      hide Valid, PackOps;
      ValueFacts(val);
      ghost var k := current.value;
      if !ty.Packed? {
        id := Convert(val, ty, ZextConv(values[val].ty, ty));
      } else if Scalar(values[val].ty) && !values[val].ty.Long? {
        var wide := Convert(val, Long, ZeroExtend);
        id := Pack(wide, ty);
        PushedTwice(old(blocks), k, [Op.Convert(old(nextLocal), values[val].locals[0], ZeroExtend)], PackOps(values[id].locals, values[wide].locals));
      } else {
        id := Pack(val, ty);
      }
    }

    method Sext(val: nat, ty: LirTy) returns (id: nat)
      requires Valid() && Open() && val < |values| && Scalar(values[val].ty) && Scalar(ty)
      modifies this`nextLocal, this`values, this`types, this`blocks, this`typed
      ensures Valid() && Open() && id == |old(values)| && values == old(values) + [ValueInfo([old(nextLocal)], ty)]
      ensures |values[val].locals| == 1
      ensures blocks == Pushed(old(blocks), current.value, [Op.Convert(old(nextLocal), values[val].locals[0], SextConv(values[val].ty, ty))])
      ensures old(typed) && ConvTyped(SextConv(values[val].ty, ty), values[val].ty.Long?, ty.Long?) ==> typed
    {
      hide Valid;
      id := Convert(val, ty, SextConv(values[val].ty, ty));
    }

    /** Out of a packed integer by taking its low limbs. */
    method Trunc(val: nat, ty: LirTy) returns (id: nat)
      requires Valid() && Open() && val < |values| && !values[val].ty.Lanes? && !ty.Lanes?
      requires if values[val].ty.Packed? then Locals(ty) <= Locals(values[val].ty) else Scalar(ty)
      modifies this`nextLocal, this`values, this`types, this`blocks, this`typed
      ensures Valid() && Open() && id < |values| && values[id].ty == ty && old(values) <= values
      ensures |values[val].locals| == Locals(values[val].ty) && |values[id].locals| == Locals(ty)
      ensures blocks == Pushed(old(blocks), current.value, TruncOps(values[val].ty, ty, values[id].locals, values[val].locals))
      ensures old(typed) && (Scalar(values[val].ty) ==> ConvTyped(TruncConv(values[val].ty, ty), values[val].ty.Long?, ty.Long?)) ==> typed
    {
      hide Valid, CopyOps;
      ValueFacts(val);
      if !values[val].ty.Packed? {
        id := Convert(val, ty, TruncConv(values[val].ty, ty));
      } else {
        id := LowLimbs(val, ty);
      }
    }

    method LowLimbs(val: nat, ty: LirTy) returns (id: nat)
      requires Valid() && Open() && val < |values| && values[val].ty.Packed? && !ty.Lanes? && Locals(ty) <= Locals(values[val].ty)
      modifies this`nextLocal, this`values, this`types, this`blocks, this`typed
      ensures Valid() && Open() && id == |old(values)|
      ensures values == old(values) + [ValueInfo(FreshLocals(old(nextLocal), Locals(ty)), ty)]
      ensures |values[val].locals| == Locals(values[val].ty)
      ensures blocks == Pushed(old(blocks), current.value, TruncOps(values[val].ty, ty, values[id].locals, values[val].locals))
      ensures typed == old(typed)
    {
      hide Valid, CopyOps, Ready, SameTypes, AllHave;
      LimbWords(values[val].ty);
      LimbWords(ty);
      ValueFacts(val);
      var sources := values[val].locals;
      ghost var n := nextLocal;
      id := AllocValue(ty);
      ValueFacts(val);
      ValueFacts(id);
      FreshReady(n, Locals(ty), sources, nextLocal, Scratch());
      var dests := values[id].locals;
      if !ty.Long? && !ty.Packed? {
        ReadyPart(dests, sources, nextLocal, Scratch(), dests, [sources[0]]);
        LimbHas(types, sources, 0);
        PushConvert(dests, [sources[0]], 0, Wrap, [true], [false]);
      } else {
        var low := sources[..|dests|];
        ReadyPart(dests, sources, nextLocal, Scratch(), dests, low);
        LowHave(types, sources, |dests|);
        SameWords(types, dests, low, Repeat(true, |dests|));
        PushCopies(dests, low);
      }
    }

    method Pack(val: nat, ty: LirTy) returns (id: nat)
      requires Valid() && Open() && val < |values| && (values[val].ty.Long? || values[val].ty.Packed?)
      requires ty.Packed? && Locals(values[val].ty) <= Locals(ty)
      modifies this`nextLocal, this`values, this`types, this`blocks, this`typed
      ensures Valid() && Open() && id == |old(values)|
      ensures values == old(values) + [ValueInfo(FreshLocals(old(nextLocal), Locals(ty)), ty)]
      ensures |values[val].locals| == Locals(values[val].ty)
      ensures blocks == Pushed(old(blocks), current.value, PackOps(values[id].locals, values[val].locals)) && typed == old(typed)
    {
      hide Valid, CopyOps, Ready, SameTypes, AllHave;
      LimbWords(values[val].ty);
      LimbWords(ty);
      ValueFacts(val);
      var sources := values[val].locals;
      ghost var n := nextLocal;
      id := AllocValue(ty);
      ValueFacts(val);
      ValueFacts(id);
      FreshReady(n, Locals(ty), sources, nextLocal, Scratch());
      PushPack(values[id].locals, sources);
    }

    method PushPack(dests: seq<nat>, sources: seq<nat>)
      requires Valid() && Open() && |sources| <= |dests| && Ready(dests, sources, nextLocal, Scratch())
      requires AllHave(types, dests, Repeat(true, |dests|)) && AllHave(types, sources, Repeat(true, |sources|))
      modifies this`blocks, this`typed
      ensures Valid() && Open() && blocks == Pushed(old(blocks), current.value, PackOps(dests, sources)) && typed == old(typed)
    {
      hide Valid, CopyOps, Ready, SameTypes, AllHave;
      var low, high := dests[..|sources|], dests[|sources|..];
      UniqueParts(dests, sources, nextLocal, Scratch());
      PartsOf(types, dests, |sources|);
      ReadyPart(dests, sources, nextLocal, Scratch(), low, sources);
      SameWords(types, low, sources, Repeat(true, |sources|));
      PushCopies(low, sources);
      if |sources| < |dests| {
        var op := Zero(high, true);
        ReadyPart(dests, sources, nextLocal, Scratch(), high, []);
        FreshFits(op, nextLocal, Scratch(), Pc());
        PushOp(op);
        PushedTwice(old(blocks), current.value, CopyOps(low, sources), [op]);
      } else {
        assert CopyOps(low, sources) + [] == CopyOps(low, sources);
      }
    }

    method PushCopies(dests: seq<nat>, sources: seq<nat>)
      requires Valid() && Open() && |dests| == |sources| && Ready(dests, sources, nextLocal, Scratch())
      modifies this`blocks, this`typed
      ensures Valid() && Open() && blocks == Pushed(old(blocks), current.value, CopyOps(dests, sources))
      ensures typed == (old(typed) && SameTypes(types, dests, sources))
    {
      hide Valid, Ready, SameTypes;
      ghost var ops := CopyOps(dests, sources);
      PushedNothing(blocks, current.value);
      assert ops[..0] == [];
      NothingSame(types);
      for i := 0 to |dests|
        invariant Valid() && Open() && blocks == Pushed(old(blocks), current.value, ops[..i])
        invariant typed == (old(typed) && SameTypes(types, dests[..i], sources[..i]))
      {
        var op := Copy(dests[i], sources[i]);
        ReadyPart(dests, sources, nextLocal, Scratch(), [dests[i]], [sources[i]]);
        FreshFits(op, nextLocal, Scratch(), Pc());
        PushOp(op);
        MoreSame(types, dests, sources, i);
        PushedTwice(old(blocks), current.value, ops[..i], [ops[i]]);
        assert ops[..i + 1] == ops[..i] + [ops[i]];
      }
      assert ops[..|dests|] == ops && dests[..|dests|] == dests && sources[..|dests|] == sources;
    }

    // -------------------------------------------------------------- copies and calls

    /** An array is a list of copies of its elements. */
    method ArrNew(elems: seq<nat>) returns (first: nat)
      requires Valid() && Open() && forall i | 0 <= i < |elems| :: elems[i] < |values| && Locals(values[elems[i]].ty) == 1
      modifies this`nextLocal, this`values, this`types, this`blocks, this`typed
      ensures Valid() && Open() && first == |old(values)| && |values| == first + |elems| && old(values) <= values
      ensures forall i | 0 <= i < |elems| :: values[first + i].ty == values[elems[i]].ty
      ensures ArrayKnown(values, first, elems) && blocks == Pushed(old(blocks), current.value, ArrayOps(values, first, elems))
      ensures typed == old(typed)
    {
      hide Valid, OpFits, ArrayOps, Locals;
      first := |values|;
      PushedNothing(blocks, current.value);
      NoArray(values, first);
      for k := 0 to |elems|
        invariant Valid() && Open() && |values| == first + k && old(values) <= values && typed == old(typed)
        invariant forall i | 0 <= i < k :: values[first + i].ty == values[elems[i]].ty
        invariant ArrayKnown(values, first, elems[..k])
        invariant blocks == Pushed(old(blocks), current.value, ArrayOps(values, first, elems[..k]))
      {
        ghost var before := values;
        var id := CopyValue(elems[k]);
        ArrayOpsMore(before, values, first, elems[..k]);
        OneMoreElem(values, first, elems, k);
        PushedTwice(old(blocks), current.value, ArrayOps(values, first, elems[..k]), [Copy(values[id].locals[0], values[elems[k]].locals[0])]);
      }
      assert elems[..|elems|] == elems;
    }

    method CopyValue(val: nat) returns (id: nat)
      requires Valid() && Open() && val < |values| && Locals(values[val].ty) == 1
      modifies this`nextLocal, this`values, this`types, this`blocks, this`typed
      ensures Valid() && Open() && id == |old(values)| && values == old(values) + [ValueInfo([old(nextLocal)], old(values)[val].ty)]
      ensures |values[val].locals| == 1 && blocks == Pushed(old(blocks), current.value, [Copy(old(nextLocal), values[val].locals[0])])
      ensures typed == old(typed)
    {
      hide Valid, Words, AllHave, OpFits;
      ValueFacts(val);
      var ty, src := values[val].ty, values[val].locals;
      ghost var n := nextLocal;
      id := AllocValue(ty);
      assert FreshLocals(n, 1) == [n];
      ValueFacts(val);
      var op := Copy(values[id].locals[0], src[0]);
      FreshOp(op, n, 1);
      SameWords(types, [n], src, Words(ty));
      assert src == [src[0]];
      PushOp(op);
    }

    lemma FlattenDisciplined(ids: seq<nat>)
      requires Valid() && Known(values, ids)
      ensures InRange(Flatten(values, ids), nextLocal) && Avoids(Flatten(values, ids), Scratch()) && AllHave(types, Flatten(values, ids), FlatWords(values, ids))
      decreases |ids|
    {
      hide Valid, Words;
      if ids != [] {
        ValueFacts(ids[0]);
        FlattenDisciplined(ids[1..]);
        HaveBoth(types, values[ids[0]].locals, Words(values[ids[0]].ty), Flatten(values, ids[1..]), FlatWords(values, ids[1..]));
      }
    }

    /** One value per result type. */
    method AllocValues(tys: seq<LirTy>) returns (first: nat, locals: seq<nat>)
      requires Valid()
      modifies this`nextLocal, this`values, this`types
      ensures Valid() && first == |old(values)| && TypesFrom(values, first, tys) && old(values) <= values
      ensures locals == FreshLocals(old(nextLocal), |WordsOf(tys)|) && nextLocal == old(nextLocal) + |locals|
      ensures types == old(types) + WordsOf(tys) && AllHave(types, locals, WordsOf(tys))
      ensures forall x | x in Scratch() :: x < old(nextLocal)
    {
      hide Words, AllHave, Valid, WordsOf;
      NoWords();
      assert tys[..0] == [];
      first, locals := |values|, [];
      assert FreshLocals(nextLocal, 0) == [];
      ghost var start := nextLocal;
      ScratchOlder();
      assert types + [] == types;
      for i := 0 to |tys|
        invariant Valid() && TypesFrom(values, first, tys[..i]) && old(values) <= values
        invariant locals == FreshLocals(start, |WordsOf(tys[..i])|) && nextLocal == start + |locals|
        invariant types == old(types) + WordsOf(tys[..i]) && temps == old(temps) && pc == old(pc)
        invariant forall x | x in Scratch() :: x < start
      {
        var id := AllocValue(tys[i]);
        locals := locals + values[id].locals;
        MoreWords(tys, i);
        FreshJoined(start, |WordsOf(tys[..i])|, Locals(tys[i]));
        assert old(types) + WordsOf(tys[..i]) + Words(tys[i]) == old(types) + (WordsOf(tys[..i]) + Words(tys[i]));
      }
      assert tys[..|tys|] == tys;
      TypesCount();
      FreshTyped(old(types), WordsOf(tys));
    }

    lemma ScratchOlder()
      requires Valid()
      ensures forall x | x in Scratch() :: x < nextLocal
    {
    }

    lemma TypesCount()
      requires Valid()
      ensures |types| == nextLocal
    {
    }

    /** A call of an import with any list of result types. */
    method CallExtern(func: nat, args: seq<nat>, rets: seq<LirTy>) returns (first: nat)
      requires Valid() && Open() && Known(values, args)
      modifies this`nextLocal, this`values, this`types, this`blocks, this`typed
      ensures Valid() && Open() && first == |old(values)| && TypesFrom(values, first, rets) && old(values) <= values
      ensures blocks == Pushed(old(blocks), current.value,
        [Call(FreshLocals(old(nextLocal), |WordsOf(rets)|), func, Flatten(old(values), args))])
      ensures old(typed) && func < |sigs| && sigs[func] == Signature(FlatWords(old(values), args), WordsOf(rets)) ==> typed
    {
      hide Valid, Words, AllHave;
      var locals := Flatten(values, args);
      FlattenDisciplined(args);
      ghost var n, words, known := nextLocal, FlatWords(values, args), types;
      var dests;
      first, dests := AllocValues(rets);
      HasMore(known, WordsOf(rets), locals, words);
      var op := Call(dests, func, locals);
      FreshOp(op, n, |dests|);
      PushOp(op);
    }

    ghost predicate NameHas(name: string, sig: Signature) {
      name in siblings && siblings[name] < |sigs| && sigs[siblings[name]] == sig
    }

    /** A call of a function of the same module, by name. */
    method CallByName(name: string, args: seq<nat>, rets: seq<LirTy>) returns (first: nat)
      requires Valid() && Open() && Known(values, args)
      modifies this`nextLocal, this`values, this`types, this`blocks, this`typed
      ensures Valid() && Open() && first == |old(values)| && TypesFrom(values, first, rets) && old(values) <= values
      ensures blocks == Pushed(old(blocks), current.value,
        [CallSibling(FreshLocals(old(nextLocal), |WordsOf(rets)|), name, Flatten(old(values), args))])
      ensures old(typed) && NameHas(name, Signature(FlatWords(old(values), args), WordsOf(rets))) ==> typed
    {
      hide Valid, Words, AllHave;
      var locals := Flatten(values, args);
      FlattenDisciplined(args);
      ghost var n, words, known := nextLocal, FlatWords(values, args), types;
      var dests;
      first, dests := AllocValues(rets);
      HasMore(known, WordsOf(rets), locals, words);
      var op := CallSibling(dests, name, locals);
      FreshOp(op, n, |dests|);
      PushOp(op);
    }

    // -------------------------------------------------------------- exits

    method JumpTo(target: nat, args: seq<nat>)
      requires Valid() && Open() && Known(values, args)
      modifies this`blocks
      ensures Valid()
      ensures blocks == old(blocks)[current.value := old(blocks)[current.value].(exit := Some(Jump(Goto(target, Flatten(values, args)))))]
    {
      hide Valid;
      FlattenDisciplined(args);
      SetExit(Jump(Goto(target, Flatten(values, args))));
    }

    method BranchOn(cond: nat, thenBlock: nat, thenArgs: seq<nat>, elseBlock: nat, elseArgs: seq<nat>)
      requires Valid() && Open() && cond < |values| && Locals(values[cond].ty) == 1
      requires Known(values, thenArgs)
      requires Known(values, elseArgs)
      modifies this`blocks
      ensures Valid() && |values[cond].locals| == 1
      ensures blocks == old(blocks)[current.value := old(blocks)[current.value].(exit :=
        Some(BranchTo(values[cond].locals[0], Goto(thenBlock, Flatten(values, thenArgs)), Goto(elseBlock, Flatten(values, elseArgs)))))]
    {
      hide Valid;
      ValueFacts(cond);
      FlattenDisciplined(thenArgs);
      FlattenDisciplined(elseArgs);
      SetExit(BranchTo(values[cond].locals[0], Goto(thenBlock, Flatten(values, thenArgs)), Goto(elseBlock, Flatten(values, elseArgs))));
    }

    method SwitchOn(index: nat, cases: seq<(int, nat, seq<nat>)>, fallback: nat, fallbackArgs: seq<nat>)
      requires Valid() && Open() && index < |values| && Scalar(values[index].ty) && CasesKnown(values, cases)
      requires Known(values, fallbackArgs)
      modifies this`blocks
      ensures Valid() && |values[index].locals| == 1
      ensures blocks == old(blocks)[current.value := old(blocks)[current.value].(exit := Some(Table(values[index].locals[0], values[index].ty.Long?,
        CasesOf(values, cases), Goto(fallback, Flatten(values, fallbackArgs)))))]
    {
      hide Valid;
      ValueFacts(index);
      FlattenDisciplined(fallbackArgs);
      var gotos := BuildCases(cases);
      SetExit(Table(values[index].locals[0], values[index].ty.Long?, gotos, Goto(fallback, Flatten(values, fallbackArgs))));
    }

    method BuildCases(cases: seq<(int, nat, seq<nat>)>) returns (gotos: seq<Case>)
      requires Valid() && CasesKnown(values, cases)
      ensures gotos == CasesOf(values, cases)
      ensures forall j | 0 <= j < |gotos| :: InRange(gotos[j].goto.args, nextLocal) && Avoids(gotos[j].goto.args, Scratch())
    {
      hide Valid, Scratch;
      gotos := [];
      for i := 0 to |cases|
        invariant gotos == CasesOf(values, cases[..i])
        invariant forall j | 0 <= j < i :: InRange(gotos[j].goto.args, nextLocal) && Avoids(gotos[j].goto.args, Scratch())
      {
        FlattenDisciplined(cases[i].2);
        assert cases[..i + 1][..i] == cases[..i];
        gotos := gotos + [Case(cases[i].0, Goto(cases[i].1, Flatten(values, cases[i].2)))];
      }
      assert cases[..|cases|] == cases;
    }

    method ReturnValues(vals: seq<nat>)
      requires Valid() && Open() && Known(values, vals)
      modifies this`blocks
      ensures Valid()
      ensures blocks == old(blocks)[current.value := old(blocks)[current.value].(exit := Some(Ret(Flatten(values, vals))))]
    {
      hide Valid;
      FlattenDisciplined(vals);
      SetExit(Ret(Flatten(values, vals)));
    }

    // -------------------------------------------------------------- the finished function

    /** The declared locals: every local after the parameters exactly once, in order, with its type. */
    method LocalDecls() returns (decls: seq<bool>)
      requires Valid()
      ensures decls == types[|params|..]
    {
      hide Separate, BlocksTyped, Words, AllHave;
      var found: map<nat, bool> := map[];
      for i := 0 to |values|
        invariant forall x | x in found :: |params| <= x < nextLocal && found[x] == types[x]
        invariant forall j, x: nat | 0 <= j < i && x in values[j].locals && x >= |params| :: x in found
      {
        found := AddLocals(found, i);
      }
      if pc.Some? && pc.value >= |params| {
        found := found[pc.value := false];
      }
      for i := 0 to |temps|
        invariant forall x | x in found :: |params| <= x < nextLocal && found[x] == types[x]
        invariant forall j, x: nat | 0 <= j < |values| && x in values[j].locals && x >= |params| :: x in found
        invariant pc.Some? && pc.value >= |params| ==> pc.value in found
        invariant forall j | 0 <= j < i && temps[j] >= |params| :: temps[j] in found
      {
        assert Has(types, temps[i], false);
        if temps[i] >= |params| {
          found := found[temps[i] := false];
        }
      }
      decls := [];
      for x := |params| to nextLocal
        invariant decls == types[|params|..x]
      {
        assert Owns(values, temps, pc, x);
        assert x in found;
        decls := decls + [found[x]];
      }
    }

    method AddLocals(found: map<nat, bool>, i: nat) returns (more: map<nat, bool>)
      requires Valid() && i < |values| && forall x | x in found :: |params| <= x < nextLocal && found[x] == types[x]
      ensures forall x | x in more :: |params| <= x < nextLocal && more[x] == types[x]
      ensures forall x | x in found :: x in more
      ensures forall x: nat | x in values[i].locals && x >= |params| :: x in more
    {
      hide Separate, BlocksTyped, Words, Covered;
      more := found;
      var words := Words(values[i].ty);
      assert AllHave(types, values[i].locals, words);
      for j := 0 to |words|
        invariant forall x | x in more :: |params| <= x < nextLocal && more[x] == types[x]
        invariant forall x | x in found :: x in more
        invariant forall k | 0 <= k < j && values[i].locals[k] >= |params| :: values[i].locals[k] in more
      {
        assert Has(types, values[i].locals[j], words[j]);
        if values[i].locals[j] >= |params| {
          more := more[values[i].locals[j] := words[j]];
        }
      }
    }

    /**
     Lower the function, calls by name resolved. A jump in a function without a program counter, a
     transition to a block that does not exist or takes another number of values, and a call of
     an unknown name are refused; nothing else is.
     */
    method Lower(names: map<string, nat>) returns (r: Option<seq<Token>>)
      requires Valid() && names == siblings
      ensures r.Some? <==> NamesKnown(blocks, names) && CanLower(blocks, pc)
      ensures r.Some? ==> Lowered(ResolveBlocks(blocks, names), nextLocal, Scratch(), pc)
      ensures r.Some? ==> r.value == Flat(BodyCode(ResolveBlocks(blocks, names), pc))
    {
      hide Flat, ResolveBlocks, Linked, Fits, BlocksDisciplined, ValuesDisciplined, NamesKnown;
      if !NamesKnown(blocks, names) || !CanLower(blocks, pc) {
        return None;
      }
      var resolved := ResolveBlocks(blocks, names);
      ResolvedDisciplined(blocks, names, nextLocal, Scratch(), Pc());
      forall k | 0 <= k < |resolved| ensures forall i | 0 <= i < |resolved[k].ops| :: !resolved[k].ops[i].CallSibling? {
        ResolvedKnown(blocks, names, k);
      }
      var func := new Function();
      if |resolved| == 1 && pc.None? {
        ResolvedExit(blocks, names, 0);
        OneLowered(resolved, nextLocal, Scratch());
        func.LowerSingle(resolved[0]);
      } else {
        ResolvedLinked(blocks, names);
        ManyLowered(resolved, nextLocal, Scratch(), pc.value);
        func.LowerFunction(resolved, pc.value);
      }
      r := Some(func.code);
    }

    /**
     What the lowered function does when it is called: built on operands of the right types, it is
     never stuck and does, on every argument and with every host that keeps to the signatures, what
     its blocks mean.
     */
    lemma Runs(ctx: Context, fuel: nat, code: seq<Instr>, results: seq<bool>, args: seq<Val>, log: Log)
      requires Valid() && typed && Lowered(ResolveBlocks(blocks, siblings), nextLocal, Scratch(), pc)
      requires ExitsTyped(ResolveBlocks(blocks, siblings), pc, types, results) && ctx.results == |results|
      requires ValsTyped(args, params) && HostKeeps(ctx.host, sigs)
      requires Flat(code) == Flat(BodyCode(ResolveBlocks(blocks, siblings), pc))
      ensures
        var locals := args + Zeros(types[|params|..]);
        var run := RunBody(fuel, ctx, ResolveBlocks(blocks, siblings), pc, locals, log);
        FinishTyped(run, results) && Conclude(Exec(ctx, fuel, code, Mach(locals, log, [])), ctx.results) == Expected(run)
    {
      hide Separate, ValuesTyped, SlotsTyped, Covered, BlocksTyped, Lowered, ExitsTyped, ResolveBlocks, Exec, Flat, BodyCode, RunBody, Zeros, HostKeeps;
      InitialTyped(args, params, types);
      var locals := args + Zeros(types[|params|..]);
      SameCounts(locals, types);
      BuiltRuns(ctx, fuel, code, blocks, siblings, pc, types, sigs, results, locals, log, Scratch());
    }

    /** A recorded operation whose destinations are the newest locals. */
    lemma FreshOp(op: Op, start: nat, count: nat)
      requires Valid() && !op.WideAddSub? && Shaped(op) && start + count == nextLocal
      requires Dests(op) == FreshLocals(start, count) && InRange(Sources(op), start) && Avoids(Sources(op), Scratch())
      requires forall x | x in Scratch() :: x < start
      ensures OpFits(op, nextLocal, Scratch(), Pc())
    {
      FreshReady(start, count, Sources(op), nextLocal, Scratch());
      FreshFits(op, nextLocal, Scratch(), Pc());
    }
  }

  /** One more local for scratch or the program counter. */
  lemma SlotAdded(values: seq<ValueInfo>, blocks: seq<BlockState>, n: nat, temps: seq<nat>, pc: Option<nat>, temps': seq<nat>,
                  pc': Option<nat>, types: seq<bool>, sigs: seq<Signature>, siblings: map<string, nat>)
    requires ValuesDisciplined(values, n, ScratchOf(temps, pc)) && BlocksDisciplined(blocks, n, ScratchOf(temps, pc), PcOf(pc, n))
    requires ValuesTyped(values, types) && SlotsTyped(temps, pc, types) && Covered(values, temps, pc, n) && |types| == n
    requires (temps' == temps + [n] && pc' == pc) || (temps' == temps && pc.None? && pc' == Some(n))
    requires (forall x | x in ScratchOf(temps, pc) :: x < n) && PcOf(pc, n) !in temps
    ensures ValuesDisciplined(values, n + 1, ScratchOf(temps', pc'))
    ensures BlocksDisciplined(blocks, n + 1, ScratchOf(temps', pc'), PcOf(pc', n + 1))
    ensures ValuesTyped(values, types + [false]) && SlotsTyped(temps', pc', types + [false]) && Covered(values, temps', pc', n + 1)
    ensures BlocksTyped(blocks, types, sigs, siblings) ==> BlocksTyped(blocks, types + [false], sigs, siblings)
    ensures (forall x | x in ScratchOf(temps', pc') :: x < n + 1) && PcOf(pc', n + 1) !in temps'
  {
    hide ValuesDisciplined, BlocksDisciplined, ValuesTyped, Covered, BlocksTyped, ScratchOf, PcOf;
    SlotGrows(temps, pc, temps', pc', n);
    ValuesGrown(values, n, ScratchOf(temps, pc), PcOf(pc, n), n + 1, ScratchOf(temps', pc'), PcOf(pc', n + 1));
    BlocksGrown(blocks, n, ScratchOf(temps, pc), PcOf(pc, n), n + 1, ScratchOf(temps', pc'), PcOf(pc', n + 1));
    ValuesTypedMore(values, types, [false]);
    SlotsTypedMore(temps, pc, types, [false]);
    CoveredSlot(values, temps, pc, temps', pc', n);
    if BlocksTyped(blocks, types, sigs, siblings) {
      BlocksTypedMore(blocks, types, [false], sigs, siblings);
    }
  }

  lemma IcmpTyped(op: Op, types: seq<bool>, dests: seq<nat>, left: seq<nat>, right: seq<nat>, ty: LirTy, other: LirTy, sigs: seq<Signature>)
    requires op.Icmp? && Scalar(ty) && AllHave(types, dests, [false]) && AllHave(types, left, Words(ty)) && AllHave(types, right, Words(other))
    requires dests == [op.dest] && left == [op.lhs] && right == [op.rhs] && op.is64 == ty.Long?
    ensures Words(ty) == Words(other) ==> OpTyped(op, types, sigs)
  {
    assert Has(types, dests[0], false) && Has(types, left[0], ty.Long?);
    if Words(ty) == Words(other) {
      assert Has(types, right[0], Words(other)[0]);
    }
  }

  lemma ConvertTyped(op: Op, types: seq<bool>, dests: seq<nat>, vals: seq<nat>, dst: LirTy, src: LirTy, sigs: seq<Signature>)
    requires op.Convert? && Scalar(dst) && Scalar(src) && AllHave(types, dests, Words(dst)) && AllHave(types, vals, Words(src))
    requires dests == [op.dest] && vals == [op.src]
    ensures ConvTyped(op.conv, src.Long?, dst.Long?) ==> OpTyped(op, types, sigs)
  {
    assert Has(types, dests[0], dst.Long?) && Has(types, vals[0], src.Long?);
  }

  lemma SelectTyped(op: Op, types: seq<bool>, conds: seq<nat>, condTy: LirTy, thenTy: LirTy, elseTy: LirTy, sigs: seq<Signature>)
    requires op.Select? && |conds| == 1 && conds[0] == op.cond && AllHave(types, conds, Words(condTy))
    requires AllHave(types, op.dests, Words(thenTy)) && AllHave(types, op.thens, Words(thenTy)) && AllHave(types, op.elses, Words(elseTy))
    ensures Words(condTy) == [false] && Words(thenTy) == Words(elseTy) ==> OpTyped(op, types, sigs)
  {
    hide Words;
    if Words(condTy) == [false] && Words(thenTy) == Words(elseTy) {
      assert Has(types, conds[0], [false][0]);
      SameWords(types, op.dests, op.thens, Words(thenTy));
      SameWords(types, op.dests, op.elses, Words(thenTy));
    }
  }

  lemma SameWords(types: seq<bool>, xs: seq<nat>, ys: seq<nat>, words: seq<bool>)
    requires AllHave(types, xs, words) && AllHave(types, ys, words)
    ensures SameTypes(types, xs, ys)
  {
    forall i | 0 <= i < |xs| ensures xs[i] < |types| && ys[i] < |types| && types[xs[i]] == types[ys[i]] {
      assert Has(types, xs[i], words[i]) && Has(types, ys[i], words[i]);
    }
  }

  lemma SelectSourcesOlder(op: Op, conds: seq<nat>, n: nat, scratch: set<nat>)
    requires op.Select? && |conds| == 1 && conds[0] == op.cond
    requires InRange(conds, n) && InRange(op.thens, n) && InRange(op.elses, n)
    requires Avoids(conds, scratch) && Avoids(op.thens, scratch) && Avoids(op.elses, scratch)
    ensures InRange(Sources(op), n) && Avoids(Sources(op), scratch)
  {
  }

  /** Destinations and both operands with the same types. */
  predicate HaveTypes3(types: seq<bool>, dests: seq<nat>, left: seq<nat>, right: seq<nat>, words: seq<bool>) {
    AllHave(types, dests, words) && AllHave(types, left, words) && AllHave(types, right, words)
  }

  lemma HaveFirst(types: seq<bool>, dests: seq<nat>, left: seq<nat>, right: seq<nat>, is64: bool)
    requires HaveTypes3(types, dests, left, right, [is64])
    ensures |dests| == |left| == |right| == 1
    ensures Has(types, dests[0], is64) && Has(types, left[0], is64) && Has(types, right[0], is64)
  {
    assert Has(types, dests[0], [is64][0]) && Has(types, left[0], [is64][0]) && Has(types, right[0], [is64][0]);
  }

  lemma HaveAt(types: seq<bool>, dests: seq<nat>, left: seq<nat>, right: seq<nat>, words: seq<bool>, i: nat)
    requires HaveTypes3(types, dests, left, right, words) && i < |words|
    ensures |dests| == |left| == |right| == |words|
    ensures Has(types, dests[i], words[i]) && Has(types, left[i], words[i]) && Has(types, right[i], words[i])
  {
  }

  lemma WideTyped(op: Op, types: seq<bool>, types': seq<bool>, sigs: seq<Signature>)
    requires op.WideAddSub? && HaveTypes3(types, op.dests, op.left, op.right, Repeat(true, |op.dests|)) && types <= types'
    requires Has(types', op.carry, false) && Has(types', op.aux, false)
    ensures OpTyped(op, types', sigs)
  {
    hide AllHave;
    var more := types'[|types|..];
    assert types' == types + more;
    HasMore(types, more, op.dests, Repeat(true, |op.dests|));
    HasMore(types, more, op.left, Repeat(true, |op.dests|));
    HasMore(types, more, op.right, Repeat(true, |op.dests|));
  }

  lemma LanesLocals(elem: LirTy, n: nat)
    ensures Locals(Lanes(elem, n)) == n * Locals(elem) && Words(Lanes(elem, n)) == Copies(Words(elem), n)
  {
  }

  lemma LaneStart(kind: BinKind, ty: LirTy, dests: seq<nat>, left: seq<nat>, right: seq<nat>, scratch: nat)
    requires ty.Lanes? && |dests| == |left| == |right| == Locals(ty) && Supported(kind, ty) && Locals(ty) == ty.n * Locals(ty.elem)
    ensures 0 * Locals(ty.elem) <= |dests| && LaneOps(kind, ty.elem, 0, dests, left, right, scratch) == []
    ensures Offset(scratch, 0, Temps(kind, ty.elem)) == scratch && (ty.n == 0 || Supported(kind, ty.elem))
    ensures Temps(kind, ty) == ty.n * Temps(kind, ty.elem)
    ensures ComponentOps(kind, ty, dests, left, right, scratch) == LaneOps(kind, ty.elem, ty.n, dests, left, right, scratch)
  {
  }

  lemma LaneStep(kind: BinKind, ty: LirTy, k: nat, dests: seq<nat>, left: seq<nat>, right: seq<nat>, scratch: nat)
    requires ty.Lanes? && k < ty.n && |dests| == |left| == |right| == ty.n * Locals(ty.elem) && Supported(kind, ty)
    ensures Supported(kind, ty.elem) && k * Locals(ty.elem) <= (k + 1) * Locals(ty.elem) <= |dests|
    ensures
      var w := Locals(ty.elem);
      LaneOps(kind, ty.elem, k + 1, dests, left, right, scratch) == LaneOps(kind, ty.elem, k, dests, left, right, scratch)
        + ComponentOps(kind, ty.elem, Lane(dests, w, k), Lane(left, w, k), Lane(right, w, k), Offset(scratch, k, Temps(kind, ty.elem)))
  {
    hide Locals, LaneOps, ComponentOps;
    LaneBounds(k, Locals(ty.elem));
    MulMonotone(k + 1, ty.n, Locals(ty.elem));
    LaneOpsStep(kind, ty.elem, k, dests, left, right, scratch);
  }

  lemma LaneHas(types: seq<bool>, types': seq<bool>, dests: seq<nat>, left: seq<nat>, right: seq<nat>, elem: LirTy, n: nat, k: nat)
    requires HaveTypes3(types, dests, left, right, Words(Lanes(elem, n))) && types <= types' && k < n
    ensures |dests| == |left| == |right| && (k + 1) * Locals(elem) <= |dests|
    ensures HaveTypes3(types', Lane(dests, Locals(elem), k), Lane(left, Locals(elem), k), Lane(right, Locals(elem), k), Words(elem))
  {
    hide AllHave, Words, Lane;
    LanesLocals(elem, n);
    LocalsAreWords(elem);
    HaveCount(types, dests, Copies(Words(elem), n));
    HaveCount(types, left, Copies(Words(elem), n));
    HaveCount(types, right, Copies(Words(elem), n));
    LaneTypes(types, dests, Words(elem), n, k);
    LaneTypes(types, left, Words(elem), n, k);
    LaneTypes(types, right, Words(elem), n, k);
    var more := types'[|types|..];
    assert types' == types + more;
    var w := Locals(elem);
    HasMore(types, more, Lane(dests, w, k), Words(elem));
    HasMore(types, more, Lane(left, w, k), Words(elem));
    HasMore(types, more, Lane(right, w, k), Words(elem));
  }

  /** What zero extension records; `temp` is the local of the extended low limb. */
  function ZextOps(src: LirTy, dst: LirTy, dests: seq<nat>, vals: seq<nat>, temp: nat): seq<Op>
    requires |vals| == Locals(src) && |dests| == Locals(dst) && !src.Lanes? && !dst.Lanes?
    requires if dst.Packed? then Locals(src) <= Locals(dst) else Scalar(src)
  {
    if !dst.Packed? then [Op.Convert(dests[0], vals[0], ZextConv(src, dst))]
    else if Scalar(src) && !src.Long? then [Op.Convert(temp, vals[0], ZeroExtend)] + PackOps(dests, [temp])
    else PackOps(dests, vals)
  }

  function TruncOps(src: LirTy, dst: LirTy, dests: seq<nat>, vals: seq<nat>): seq<Op>
    requires |vals| == Locals(src) && |dests| == Locals(dst) && !src.Lanes? && !dst.Lanes?
    requires if src.Packed? then Locals(dst) <= Locals(src) else Scalar(dst)
  {
    if !src.Packed? then [Op.Convert(dests[0], vals[0], TruncConv(src, dst))]
    else if !dst.Long? && !dst.Packed? then [Op.Convert(dests[0], vals[0], Wrap)]
    else CopyOps(dests, vals[..|dests|])
  }

  lemma NotStep(elem: LirTy, n: nat, k: nat, dests: seq<nat>, vals: seq<nat>)
    requires k < n && |dests| == |vals| == n * Locals(elem)
    ensures 0 <= k * Locals(elem) <= (k + 1) * Locals(elem) <= |dests|
    ensures LaneNots(elem, k + 1, dests, vals)
      == LaneNots(elem, k, dests, vals) + NotOps(elem, Lane(dests, Locals(elem), k), Lane(vals, Locals(elem), k))
  {
    hide Locals, NotOps;
    LaneBounds(k, Locals(elem));
    MulMonotone(k + 1, n, Locals(elem));
    MulMonotone(0, k, Locals(elem));
  }

  lemma LimbWords(ty: LirTy)
    requires !ty.Lanes?
    ensures ty.Long? || ty.Packed? ==> Words(ty) == Repeat(true, Locals(ty))
    ensures !ty.Long? && !ty.Packed? ==> Words(ty) == [false]
    ensures Locals(ty) > 0
  {
  }

  lemma UniqueParts(dests: seq<nat>, sources: seq<nat>, n: nat, scratch: set<nat>)
    requires Ready(dests, sources, n, scratch)
    ensures Unique(dests)
  {
  }

  lemma LimbHas(types: seq<bool>, xs: seq<nat>, i: nat)
    requires AllHave(types, xs, Repeat(true, |xs|)) && i < |xs|
    ensures AllHave(types, [xs[i]], [true])
  {
    assert Has(types, xs[i], Repeat(true, |xs|)[i]);
  }

  lemma LowHave(types: seq<bool>, xs: seq<nat>, n: nat)
    requires AllHave(types, xs, Repeat(true, |xs|)) && n <= |xs|
    ensures AllHave(types, xs[..n], Repeat(true, n))
  {
    forall i | 0 <= i < n ensures Has(types, xs[..n][i], true) {
      assert Has(types, xs[i], Repeat(true, |xs|)[i]);
    }
  }

  lemma PartsOf(types: seq<bool>, xs: seq<nat>, n: nat)
    requires AllHave(types, xs, Repeat(true, |xs|)) && n <= |xs| && Unique(xs)
    ensures AllHave(types, xs[..n], Repeat(true, n)) && AllHave(types, xs[n..], Repeat(true, |xs| - n))
    ensures Unique(xs[..n]) && Unique(xs[n..])
  {
    LowHave(types, xs, n);
    forall i | 0 <= i < |xs| - n ensures Has(types, xs[n..][i], true) {
      assert Has(types, xs[n + i], Repeat(true, |xs|)[n + i]);
    }
  }

  lemma NothingSame(types: seq<bool>)
    ensures SameTypes(types, [], [])
  {
  }

  lemma MoreSame(types: seq<bool>, xs: seq<nat>, ys: seq<nat>, i: nat)
    requires i < |xs| == |ys|
    ensures SameTypes(types, xs[..i + 1], ys[..i + 1]) <==> SameTypes(types, xs[..i], ys[..i]) && SameTypes(types, [xs[i]], [ys[i]])
  {
    var a, b := xs[..i + 1], ys[..i + 1];
    assert a == xs[..i] + [xs[i]] && b == ys[..i] + [ys[i]];
    if SameTypes(types, a, b) {
      assert a[i] < |types| && b[i] < |types| && types[a[i]] == types[b[i]];
      assert forall j | 0 <= j < i :: a[j] == xs[..i][j] && b[j] == ys[..i][j];
    }
    if SameTypes(types, xs[..i], ys[..i]) && SameTypes(types, [xs[i]], [ys[i]]) {
      assert [xs[i]][0] < |types| && [ys[i]][0] < |types| && types[[xs[i]][0]] == types[[ys[i]][0]];
    }
  }

  lemma HaveBoth(types: seq<bool>, xs: seq<nat>, a: seq<bool>, ys: seq<nat>, b: seq<bool>)
    requires AllHave(types, xs, a) && AllHave(types, ys, b)
    ensures AllHave(types, xs + ys, a + b)
  {
  }

  lemma FreshJoined(start: nat, a: nat, b: nat)
    ensures FreshLocals(start, a) + FreshLocals(start + a, b) == FreshLocals(start, a + b)
  {
  }

  lemma SameCounts(vals: seq<Val>, words: seq<bool>)
    requires ValsTyped(vals, words)
    ensures |vals| == |words|
  {
  }

  lemma ResolvedExit(blocks: seq<BlockState>, names: map<string, nat>, k: nat)
    requires k < |blocks|
    ensures ResolveBlocks(blocks, names)[k].exit == blocks[k].exit
  {
  }

  lemma SlotsTypedMore(temps: seq<nat>, pc: Option<nat>, types: seq<bool>, more: seq<bool>)
    requires SlotsTyped(temps, pc, types)
    ensures SlotsTyped(temps, pc, types + more)
  {
    forall i | 0 <= i < |temps| ensures Has(types + more, temps[i], false) {
      assert Has(types, temps[i], false);
    }
  }
}
