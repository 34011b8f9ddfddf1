/**
 Deciding what the C renderer drops and what it folds into its use: count uses forward, drop dead
 pure definitions backward, then fold single uses across windows of pure definitions.
 */
module CFolding {
  import opened Common
  import opened CProgram

  // ---------------------------------------------------------------- specification

  /** Uses of `v` in the first `n` items. */
  function Uses(items: seq<Item>, n: nat, v: nat): nat
    requires n <= |items|
  {
    if n == 0 then 0 else Uses(items, n - 1, v) + OccItem(items[n - 1], v)
  }

  datatype Plan = Plan(dropped: seq<bool>, inlined: seq<bool>, effectInlined: seq<bool>, defItem: seq<Option<nat>>)

  predicate DroppedDef(items: seq<Item>, dropped: seq<bool>, i: nat)
    requires i < |items|
  {
    items[i].Def? && items[i].id < |dropped| && dropped[items[i].id]
  }

  /** Uses of `v` in the items from `i` on that are no dropped definitions. */
  function Live(items: seq<Item>, dropped: seq<bool>, n: nat, v: nat): nat
    requires n <= |items|
  {
    if n == 0 then 0
    else Live(items, dropped, n - 1, v) + (if DroppedDef(items, dropped, n - 1) then 0 else OccItem(items[n - 1], v))
  }

  predicate PureDef(item: Item) {
    item.Def? && item.kind.Pure?
  }

  /** Only pure definitions strictly between `d` and `u`. */
  ghost predicate PureWindow(items: seq<Item>, d: nat, u: nat) {
    u <= |items| && forall i | d < i < u :: PureDef(items[i])
  }

  /** What folding `v` from its definition at `d` into item `u` relies on. */
  ghost predicate FoldsInto(p: Prog, plan: Plan, v: nat, d: nat, u: nat) {
    && d < u < |p.items| && IsDef(p.items[d], v) && !p.items[d].kind.RngVal?
    && !DroppedDef(p.items, plan.dropped, u)
    && OccItem(p.items[u], v) == 1 && (forall i | 0 <= i < |p.items| && i != u :: OccItem(p.items[i], v) == 0)
    && PureWindow(p.items, d, u)
  }

  /** A dropped value is a definition without effect that only dropped definitions use. */
  ghost predicate DropOk(p: Prog, plan: Plan, v: nat)
    requires v < |plan.dropped|
  {
    plan.dropped[v] ==>
      && (exists d :: 0 <= d < |p.items| && IsDef(p.items[d], v))
      && (forall d | 0 <= d < |p.items| && IsDef(p.items[d], v) :: p.items[d].kind.Pure? || p.items[d].kind.MemRead?)
      && (forall i | 0 <= i < |p.items| && !DroppedDef(p.items, plan.dropped, i) :: OccItem(p.items[i], v) == 0)
  }

  ghost predicate InlineOk(p: Prog, plan: Plan, v: nat)
    requires v < |plan.inlined| == |plan.dropped| == |plan.effectInlined| == |plan.defItem|
  {
    && (plan.inlined[v] ==>
          && !plan.dropped[v] && plan.defItem[v].Some?
          && exists u :: FoldsInto(p, plan, v, plan.defItem[v].value, u))
    && (plan.effectInlined[v] <==>
          plan.inlined[v] && plan.defItem[v].Some? && plan.defItem[v].value < |p.items|
          && p.items[plan.defItem[v].value].Def? && p.items[plan.defItem[v].value].kind.CallRet?)
  }

  ghost predicate PlanOk(p: Prog, plan: Plan) {
    && |plan.dropped| == |plan.inlined| == |plan.effectInlined| == |plan.defItem| == p.values
    && (forall v | 0 <= v < p.values :: DropOk(p, plan, v))
    && (forall v | 0 <= v < p.values :: InlineOk(p, plan, v))
  }

  /** Nothing that could be dropped or folded is left. */
  ghost predicate Maximal(p: Prog, plan: Plan)
    requires |plan.dropped| == |plan.inlined| == |plan.effectInlined| == |plan.defItem| == p.values
  {
    && (forall v: nat, d: nat | v < p.values && d < |p.items| && IsDef(p.items[d], v) && !plan.dropped[v] :: KeptForReason(p, plan, v, d))
    && (forall v: nat, d: nat | v < p.values && d < |p.items| && IsDef(p.items[d], v) && !plan.dropped[v] && !plan.inlined[v] ::
          !Foldable(p, plan, v, d))
  }

  /** A definition is kept for its effect, or for a use in something that is kept. */
  ghost predicate KeptForReason(p: Prog, plan: Plan, v: nat, d: nat)
    requires d < |p.items| && IsDef(p.items[d], v)
  {
    || p.items[d].kind.CallRet? || p.items[d].kind.RngVal?
    || exists i: nat :: i < |p.items| && !DroppedDef(p.items, plan.dropped, i) && OccItem(p.items[i], v) > 0
  }

  ghost predicate Foldable(p: Prog, plan: Plan, v: nat, d: nat) {
    exists u: nat :: FoldsInto(p, plan, v, d, u)
  }

  /** Folding switched off: everything is materialized. */
  function Disabled(p: Prog, defItem: seq<Option<nat>>): Plan {
    var none := seq(p.values, i requires 0 <= i => false);
    Plan(none, none, none, defItem)
  }

  lemma DisabledOk(p: Prog, defItem: seq<Option<nat>>)
    requires |defItem| == p.values
    ensures PlanOk(p, Disabled(p, defItem))
  {
  }

  // ---------------------------------------------------------------- counting

  lemma {:induction false} UsesPositive(items: seq<Item>, n: nat, v: nat, i: nat)
    requires i < n <= |items| && OccItem(items[i], v) > 0
    ensures Uses(items, n, v) >= OccItem(items[i], v)
    decreases n
  {
    if i < n - 1 {
      UsesPositive(items, n - 1, v, i);
    }
  }

  lemma {:induction false} UsesTwo(items: seq<Item>, n: nat, v: nat, i: nat, j: nat)
    requires i < j < n <= |items|
    ensures Uses(items, n, v) >= OccItem(items[i], v) + OccItem(items[j], v)
    decreases n
  {
    hide OccItem;
    if j < n - 1 {
      UsesTwo(items, n - 1, v, i, j);
    } else if OccItem(items[i], v) > 0 {
      UsesPositive(items, n - 1, v, i);
    }
  }

  class UseCounter {
    var uses: seq<nat>
    var firstUse: seq<Option<nat>>
    var multiUse: seq<bool>

    constructor (n: nat)
      ensures uses == seq(n, i requires 0 <= i => 0) && firstUse == seq(n, i requires 0 <= i => None)
      ensures multiUse == seq(n, i requires 0 <= i => false)
    {
      uses, firstUse, multiUse := seq(n, i requires 0 <= i => 0), seq(n, i requires 0 <= i => None), seq(n, i requires 0 <= i => false);
    }

    ghost predicate Shaped(n: nat)
      reads this
    {
      |uses| == |firstUse| == |multiUse| == n
    }

    /** The counts are of the first uses `count(v)`, the first of them at `first(v)`. */
    ghost predicate Tracks(n: nat, was: seq<nat>, firstWas: seq<Option<nat>>, multiWas: seq<bool>, more: nat -> nat, at: nat)
      reads this
      requires |was| == |firstWas| == |multiWas| == n
    {
      && Shaped(n)
      && forall v: nat | v < n ::
           && uses[v] == was[v] + more(v)
           && firstUse[v] == (if firstWas[v].Some? then firstWas[v] else if more(v) > 0 then Some(at) else None)
           && multiUse[v] == (multiWas[v] || more(v) >= 2 || (more(v) == 1 && firstWas[v].Some?))
    }

    method Walk(e: Expr, at: nat, n: nat)
      requires Shaped(n) && forall v: nat | Occ(e, v) > 0 :: v < n
      modifies this
      ensures Tracks(n, old(uses), old(firstUse), old(multiUse), v => Occ(e, v), at)
      decreases e, 0
    {
      match e
      case Name(id) =>
        assert Occ(e, id) > 0;
        uses := uses[id := uses[id] + 1];
        if firstUse[id].Some? {
          multiUse := multiUse[id := true];
        } else {
          firstUse := firstUse[id := Some(at)];
        }
      case Lit(_) =>
      case Op(_, args) =>
        assert forall v: nat :: Occ(e, v) == OccAll(args, v);
        WalkAll(args, at, n);
      case Select(c, t, f) =>
        assert forall v: nat :: Occ(e, v) == Occ(c, v) + Occ(t, v) + Occ(f, v);
        Walk(c, at, n);
        Walk(t, at, n);
        Walk(f, at, n);
      case Load(addr) =>
        assert forall v: nat :: Occ(e, v) == Occ(addr, v);
        Walk(addr, at, n);
      case Call(_, args) =>
        assert forall v: nat :: Occ(e, v) == OccAll(args, v);
        WalkAll(args, at, n);
    }

    method WalkAll(es: seq<Expr>, at: nat, n: nat)
      requires Shaped(n) && forall v: nat | OccAll(es, v) > 0 :: v < n
      modifies this
      ensures Tracks(n, old(uses), old(firstUse), old(multiUse), v => OccAll(es, v), at)
      decreases es, 1
    {
      if es != [] {
        assert forall v: nat :: OccAll(es, v) == Occ(es[0], v) + OccAll(es[1..], v);
        Walk(es[0], at, n);
        WalkAll(es[1..], at, n);
      }
    }
  }

  // ---------------------------------------------------------------- pass 1: uses

  function FirstUse(items: seq<Item>, n: nat, v: nat): (r: Option<nat>)
    requires n <= |items|
    ensures r.Some? ==> r.value < n && OccItem(items[r.value], v) > 0
    ensures r.None? <==> Uses(items, n, v) == 0
  {
    hide OccItem;
    if n == 0 then None
    else
      var before := FirstUse(items, n - 1, v);
      if before.Some? then before else if OccItem(items[n - 1], v) > 0 then Some(n - 1) else None
  }

  ghost predicate Counted(items: seq<Item>, n: nat, values: nat, uses: seq<nat>, firstUse: seq<Option<nat>>, multiUse: seq<bool>)
    requires n <= |items|
  {
    && |uses| == |firstUse| == |multiUse| == values
    && forall v: nat | v < values ::
         uses[v] == Uses(items, n, v) && firstUse[v] == FirstUse(items, n, v) && multiUse[v] == (Uses(items, n, v) >= 2)
  }

  ghost predicate NamesIn(p: Prog) {
    forall i: nat, v: nat | i < |p.items| && OccItem(p.items[i], v) > 0 :: v < p.values
  }

  method CountUses(p: Prog) returns (uses: seq<nat>, firstUse: seq<Option<nat>>, multiUse: seq<bool>, defItem: seq<Option<nat>>)
    requires NamesIn(p) && forall i | 0 <= i < |p.items| && p.items[i].Def? :: p.items[i].id < p.values
    ensures Counted(p.items, |p.items|, p.values, uses, firstUse, multiUse)
    ensures |defItem| == p.values
    ensures forall v: nat, i: nat | v < p.values && i < |p.items| && IsDef(p.items[i], v) :: defItem[v].Some? && defItem[v].value >= i
    ensures forall v: nat | v < p.values && defItem[v].Some? :: defItem[v].value < |p.items| && IsDef(p.items[defItem[v].value], v)
  {
    hide Occ, OccAll, OccItem;
    var counter := new UseCounter(p.values);
    defItem := seq(p.values, i requires 0 <= i => None);
    for i := 0 to |p.items|
      invariant Counted(p.items, i, p.values, counter.uses, counter.firstUse, counter.multiUse)
      invariant |defItem| == p.values
      invariant forall v: nat, j: nat | v < p.values && j < i && IsDef(p.items[j], v) :: defItem[v].Some? && defItem[v].value >= j
      invariant forall v: nat | v < p.values && defItem[v].Some? :: defItem[v].value < i && IsDef(p.items[defItem[v].value], v)
    {
      if p.items[i].Def? {
        defItem := defItem[p.items[i].id := Some(i)];
      }
      OccItemIs(p.items[i]);
      ghost var uses0, first0, multi0 := counter.uses, counter.firstUse, counter.multiUse;
      counter.WalkAll(Parts(p.items[i]), i, p.values);
      CountedStep(p.items, i, p.values, uses0, first0, multi0, counter.uses, counter.firstUse, counter.multiUse);
    }
    uses, firstUse, multiUse := counter.uses, counter.firstUse, counter.multiUse;
  }

  lemma OccItemIs(item: Item)
    ensures forall v: nat {:trigger OccItem(item, v)} {:trigger OccAll(Parts(item), v)} :: OccItem(item, v) == OccAll(Parts(item), v)
  {
    hide OccAll, Parts;
  }

  lemma CountedStep(items: seq<Item>, i: nat, values: nat, uses: seq<nat>, first: seq<Option<nat>>, multi: seq<bool>,
                    uses': seq<nat>, first': seq<Option<nat>>, multi': seq<bool>)
    requires i < |items| && Counted(items, i, values, uses, first, multi) && |uses'| == |first'| == |multi'| == values
    requires forall v: nat | v < values ::
      && uses'[v] == uses[v] + OccItem(items[i], v)
      && first'[v] == (if first[v].Some? then first[v] else if OccItem(items[i], v) > 0 then Some(i) else None)
      && multi'[v] == (multi[v] || OccItem(items[i], v) >= 2 || (OccItem(items[i], v) == 1 && first[v].Some?))
    ensures Counted(items, i + 1, values, uses', first', multi')
  {
    hide OccItem;
  }

  // ---------------------------------------------------------------- pass 2: dead definitions

  lemma {:induction false} LiveDrop(items: seq<Item>, dropped: seq<bool>, n: nat, d: nat, v: nat)
    requires n <= |items| && d < |items| && items[d].Def? && items[d].id < |dropped| && !dropped[items[d].id]
    requires forall i | 0 <= i < |items| && i != d && items[i].Def? :: items[i].id != items[d].id
    ensures Live(items, dropped, n, v)
      == Live(items, dropped[items[d].id := true], n, v) + (if d < n then OccItem(items[d], v) else 0)
    decreases n
  {
    hide OccItem;
    if n > 0 {
      LiveDrop(items, dropped, n - 1, d, v);
    }
  }

  lemma {:induction false} LiveZero(items: seq<Item>, dropped: seq<bool>, n: nat, v: nat, i: nat)
    requires i < n <= |items| && !DroppedDef(items, dropped, i)
    ensures Live(items, dropped, n, v) >= OccItem(items[i], v)
    decreases n
  {
    hide OccItem;
    if i < n - 1 {
      LiveZero(items, dropped, n - 1, v, i);
    }
  }

  lemma {:induction false} LiveAtMostUses(items: seq<Item>, dropped: seq<bool>, n: nat, v: nat)
    requires n <= |items|
    ensures Live(items, dropped, n, v) <= Uses(items, n, v)
    ensures (forall i | 0 <= i < n :: !DroppedDef(items, dropped, i)) ==> Live(items, dropped, n, v) == Uses(items, n, v)
    decreases n
  {
    hide OccItem;
    if n > 0 {
      LiveAtMostUses(items, dropped, n - 1, v);
    }
  }

  /** Take the uses of one expression off the counts. */
  method Subtract(e: Expr, counts: seq<nat>) returns (r: seq<nat>)
    requires forall v: nat | v < |counts| :: counts[v] >= Occ(e, v)
    requires forall v: nat | Occ(e, v) > 0 :: v < |counts|
    ensures |r| == |counts| && forall v: nat | v < |counts| :: r[v] == counts[v] - Occ(e, v)
    decreases e, 0
  {
    r := counts;
    match e
    case Name(id) =>
      assert Occ(e, id) == 1;
      r := counts[id := counts[id] - 1];
    case Lit(_) =>
    case Op(_, args) =>
      assert forall v: nat :: Occ(e, v) == OccAll(args, v);
      r := SubtractAll(args, counts);
    case Select(c, t, f) =>
      assert forall v: nat :: Occ(e, v) == Occ(c, v) + Occ(t, v) + Occ(f, v);
      r := Subtract(c, counts);
      r := Subtract(t, r);
      r := Subtract(f, r);
    case Load(addr) =>
      assert forall v: nat :: Occ(e, v) == Occ(addr, v);
      r := Subtract(addr, counts);
    case Call(_, args) =>
      assert forall v: nat :: Occ(e, v) == OccAll(args, v);
      r := SubtractAll(args, counts);
  }

  method SubtractAll(es: seq<Expr>, counts: seq<nat>) returns (r: seq<nat>)
    requires forall v: nat | v < |counts| :: counts[v] >= OccAll(es, v)
    requires forall v: nat | OccAll(es, v) > 0 :: v < |counts|
    ensures |r| == |counts| && forall v: nat | v < |counts| :: r[v] == counts[v] - OccAll(es, v)
    decreases es, 1
  {
    r := counts;
    if es != [] {
      assert forall v: nat :: OccAll(es, v) == Occ(es[0], v) + OccAll(es[1..], v);
      r := Subtract(es[0], counts);
      r := SubtractAll(es[1..], r);
    }
  }

  ghost predicate UniqueDefs(items: seq<Item>) {
    forall i, j | 0 <= i < j < |items| && items[i].Def? && items[j].Def? :: items[i].id != items[j].id
  }

  ghost predicate LiveCounts(items: seq<Item>, dropped: seq<bool>, counts: seq<nat>) {
    |counts| == |dropped| && forall v: nat | v < |counts| :: counts[v] == Live(items, dropped, |items|, v)
  }

  /** The definitions dropped so far are at `i` or later, without effect, and dead. */
  ghost predicate DeadFrom(items: seq<Item>, dropped: seq<bool>, counts: seq<nat>, i: nat) {
    |counts| == |dropped| &&
    forall v: nat | v < |dropped| && dropped[v] ::
      && counts[v] == 0
      && (exists d :: 0 <= d < |items| && IsDef(items[d], v))
      && (forall d | 0 <= d < |items| && IsDef(items[d], v) :: d >= i && (items[d].kind.Pure? || items[d].kind.MemRead?))
  }

  ghost predicate DefinedFirst(items: seq<Item>) {
    forall i: nat, d: nat, v: nat | i < |items| && d < |items| && OccItem(items[i], v) > 0 && IsDef(items[d], v) :: d < i
  }

  /** Definitions without effect from `i` on are dropped or still used. */
  ghost predicate NoneDeadFrom(items: seq<Item>, dropped: seq<bool>, counts: seq<nat>, i: nat) {
    |counts| == |dropped| &&
    forall j: nat | i <= j < |items| && items[j].Def? && (items[j].kind.Pure? || items[j].kind.MemRead?) && items[j].id < |dropped| ::
      dropped[items[j].id] || counts[items[j].id] > 0
  }

  method DropDead(p: Prog, uses: seq<nat>) returns (dropped: seq<bool>, counts: seq<nat>)
    requires NamesIn(p) && UniqueDefs(p.items) && DefinedFirst(p.items) && |uses| == p.values
    requires forall i | 0 <= i < |p.items| && p.items[i].Def? :: p.items[i].id < p.values
    requires forall v: nat | v < p.values :: uses[v] == Uses(p.items, |p.items|, v)
    ensures |dropped| == p.values && LiveCounts(p.items, dropped, counts) && DeadFrom(p.items, dropped, counts, 0)
    ensures NoneDeadFrom(p.items, dropped, counts, 0)
  {
    hide Occ, OccAll, OccItem, Live, Uses, DefinedFirst;
    dropped, counts := seq(p.values, i requires 0 <= i => false), uses;
    forall v: nat | v < p.values ensures counts[v] == Live(p.items, dropped, |p.items|, v) {
      LiveAtMostUses(p.items, dropped, |p.items|, v);
    }
    var i := |p.items|;
    while i > 0
      invariant 0 <= i <= |p.items| && |dropped| == p.values
      invariant LiveCounts(p.items, dropped, counts) && DeadFrom(p.items, dropped, counts, i)
      invariant NoneDeadFrom(p.items, dropped, counts, i)
    {
      i := i - 1;
      var item := p.items[i];
      if item.Def? && !item.kind.CallRet? && !item.kind.RngVal? && counts[item.id] == 0 {
        ghost var before := dropped;
        NotYetDropped(p.items, dropped, counts, i);
        forall v: nat | v < p.values ensures counts[v] >= Occ(item.expr, v) {
          LiveZero(p.items, dropped, |p.items|, v, i);
          DefOcc(item, v);
        }
        forall v: nat | Occ(item.expr, v) > 0 ensures v < p.values {
          DefOcc(item, v);
        }
        forall j: nat | i < j < |p.items| && p.items[j].Def? ensures Occ(item.expr, p.items[j].id) == 0 {
          NotYetNamed(p.items, i, j);
        }
        counts := Subtract(item.expr, counts);
        dropped := dropped[item.id := true];
        forall v: nat | v < p.values ensures counts[v] == Live(p.items, dropped, |p.items|, v) {
          LiveDrop(p.items, before, |p.items|, i, v);
          DefOcc(item, v);
        }
        assert IsDef(p.items[i], item.id);
      }
    }
  }

  lemma NotYetDropped(items: seq<Item>, dropped: seq<bool>, counts: seq<nat>, i: nat)
    requires i < |items| && items[i].Def? && items[i].id < |dropped| && DeadFrom(items, dropped, counts, i + 1)
    ensures !dropped[items[i].id]
  {
    assert IsDef(items[i], items[i].id);
  }

  /** A definition does not name what is defined after it. */
  lemma NotYetNamed(items: seq<Item>, i: nat, j: nat)
    requires i < j < |items| && items[i].Def? && items[j].Def? && DefinedFirst(items)
    ensures Occ(items[i].expr, items[j].id) == 0
  {
    hide OccItem, Occ;
    DefOcc(items[i], items[j].id);
    assert IsDef(items[j], items[j].id);
  }

  lemma {:induction false} LivePositive(items: seq<Item>, dropped: seq<bool>, n: nat, v: nat) returns (i: nat)
    requires n <= |items| && Live(items, dropped, n, v) > 0
    ensures i < n && !DroppedDef(items, dropped, i) && OccItem(items[i], v) > 0
    decreases n
  {
    hide OccItem;
    i := n - 1;
    if DroppedDef(items, dropped, i) || OccItem(items[i], v) == 0 {
      i := LivePositive(items, dropped, n - 1, v);
    }
  }

  lemma DefOcc(item: Item, v: nat)
    requires item.Def?
    ensures OccItem(item, v) == Occ(item.expr, v)
  {
    var es := Parts(item);
    assert es == [item.expr] && es[1..] == [];
    assert OccAll(es, v) == Occ(es[0], v) + OccAll(es[1..], v);
  }

  // ---------------------------------------------------------------- pass 3: folding

  method IsPureWindow(items: seq<Item>, d: nat, u: nat) returns (r: bool)
    requires d < u <= |items|
    ensures r <==> PureWindow(items, d, u)
  {
    for i := d + 1 to u
      invariant forall j | d < j < i :: PureDef(items[j])
    {
      if !PureDef(items[i]) {
        return false;
      }
    }
    r := true;
  }

  /** The folding decisions of a recorded function. */
  method Compute(p: Prog) returns (plan: Plan)
    requires WfProg(p)
    ensures PlanOk(p, plan) && Maximal(p, plan)
  {
    hide Occ, OccAll, OccItem, Live, Uses, WfItem, WfProg, FirstUse, UniqueDefs, DefinedFirst, NamesIn;
    WfFacts(p);
    var uses, firstUse, multiUse, defItem := CountUses(p);
    var dropped, counts := DropDead(p, uses);
    var inlined, effectInlined := seq(p.values, i requires 0 <= i => false), seq(p.values, i requires 0 <= i => false);
    for i := 0 to |p.items|
      invariant |inlined| == |effectInlined| == p.values
      invariant forall v: nat | v < p.values :: FoldDecided(p, dropped, firstUse, defItem, i, v, inlined[v], effectInlined[v])
    {
      var item := p.items[i];
      ghost var inlined0, effect0 := inlined, effectInlined;
      if item.Def? && !dropped[item.id] && counts[item.id] == 1 && !multiUse[item.id] && firstUse[item.id].Some?
         && firstUse[item.id].value > i && !item.kind.RngVal? {
        var pure := IsPureWindow(p.items, i, firstUse[item.id].value);
        if pure {
          OnlyUse(p, dropped, i, item.id, firstUse[item.id].value);
          assert IsDef(p.items[i], item.id);
          inlined := inlined[item.id := true];
          effectInlined := effectInlined[item.id := item.kind.CallRet?];
        } else {
          NotFolded(p, dropped, i, firstUse, multiUse, counts, uses);
        }
      } else if item.Def? && !dropped[item.id] {
        NotFolded(p, dropped, i, firstUse, multiUse, counts, uses);
      }
      forall v: nat | v < p.values ensures FoldDecided(p, dropped, firstUse, defItem, i + 1, v, inlined[v], effectInlined[v]) {
        assert FoldDecided(p, dropped, firstUse, defItem, i, v, inlined0[v], effect0[v]);
        if IsDef(p.items[i], v) && !dropped[v] {
          OnlyDef(p.items, i, v);
        }
      }
    }
    plan := Plan(dropped, inlined, effectInlined, defItem);
    PlanDone(p, plan, firstUse, counts);
  }

  lemma OnlyDef(items: seq<Item>, i: nat, v: nat)
    requires UniqueDefs(items) && i < |items| && IsDef(items[i], v)
    ensures forall d: nat | d < |items| && IsDef(items[d], v) :: d == i
  {
  }

  /** A definition that fails a test cannot be folded. */
  lemma NotFolded(p: Prog, dropped: seq<bool>, i: nat, firstUse: seq<Option<nat>>, multiUse: seq<bool>, counts: seq<nat>, uses: seq<nat>)
    requires i < |p.items| && p.items[i].Def? && p.items[i].id < p.values && |dropped| == |counts| == p.values
    requires Counted(p.items, |p.items|, p.values, uses, firstUse, multiUse) && LiveCounts(p.items, dropped, counts)
    requires var v := p.items[i].id;
      (counts[v] == 1 && !multiUse[v] && firstUse[v].Some? && firstUse[v].value > i && !p.items[i].kind.RngVal?) ==>
        !PureWindow(p.items, i, firstUse[v].value)
    ensures !Foldable(p, Plan(dropped, [], [], []), p.items[i].id, i)
  {
    hide OccItem, Live, Uses, FirstUse;
    var v, plan := p.items[i].id, Plan(dropped, [], [], []);
    forall u: nat ensures !FoldsInto(p, plan, v, i, u) {
      if FoldsInto(p, plan, v, i, u) {
        FoldableCounts(p, plan, v, i, u, |p.items|);
      }
    }
  }

  lemma {:induction false} FoldableCounts(p: Prog, plan: Plan, v: nat, d: nat, u: nat, n: nat)
    requires FoldsInto(p, plan, v, d, u) && n <= |p.items|
    ensures Live(p.items, plan.dropped, n, v) == (if u < n then 1 else 0) == Uses(p.items, n, v)
    ensures FirstUse(p.items, n, v) == if u < n then Some(u) else None
    decreases n
  {
    hide OccItem;
    if n > 0 {
      FoldableCounts(p, plan, v, d, u, n - 1);
    }
  }

  lemma PlanDone(p: Prog, plan: Plan, firstUse: seq<Option<nat>>, counts: seq<nat>)
    requires |plan.dropped| == |plan.inlined| == |plan.effectInlined| == |plan.defItem| == |firstUse| == p.values && UniqueDefs(p.items)
    requires LiveCounts(p.items, plan.dropped, counts) && DeadFrom(p.items, plan.dropped, counts, 0) && NoneDeadFrom(p.items, plan.dropped, counts, 0)
    requires forall v: nat, i: nat | v < p.values && i < |p.items| && IsDef(p.items[i], v) :: plan.defItem[v].Some? && plan.defItem[v].value >= i
    requires forall v: nat | v < p.values && plan.defItem[v].Some? :: plan.defItem[v].value < |p.items| && IsDef(p.items[plan.defItem[v].value], v)
    requires forall v: nat | v < p.values ::
      FoldDecided(p, plan.dropped, firstUse, plan.defItem, |p.items|, v, plan.inlined[v], plan.effectInlined[v])
    ensures PlanOk(p, plan) && Maximal(p, plan)
  {
    hide OccItem, Live;
    forall v: nat | v < p.values ensures DropOk(p, plan, v) && InlineOk(p, plan, v) {
      if plan.dropped[v] {
        forall i | 0 <= i < |p.items| && !DroppedDef(p.items, plan.dropped, i) ensures OccItem(p.items[i], v) == 0 {
          LiveZero(p.items, plan.dropped, |p.items|, v, i);
        }
      }
      assert FoldDecided(p, plan.dropped, firstUse, plan.defItem, |p.items|, v, plan.inlined[v], plan.effectInlined[v]);
      if plan.inlined[v] {
        assert FoldsInto(p, plan, v, plan.defItem[v].value, firstUse[v].value);
      }
    }
    forall v: nat, d: nat | v < p.values && d < |p.items| && IsDef(p.items[d], v) && !plan.dropped[v]
      ensures KeptForReason(p, plan, v, d) && (!plan.inlined[v] ==> !Foldable(p, plan, v, d))
    {
      Kept(p, plan, counts, v, d);
      assert FoldDecided(p, plan.dropped, firstUse, plan.defItem, |p.items|, v, plan.inlined[v], plan.effectInlined[v]);
      if !plan.inlined[v] {
        SameDrops(p, Plan(plan.dropped, [], [], []), plan, v, d);
      }
    }
  }

  lemma Kept(p: Prog, plan: Plan, counts: seq<nat>, v: nat, d: nat)
    requires v < |plan.dropped| && d < |p.items| && IsDef(p.items[d], v) && !plan.dropped[v]
    requires LiveCounts(p.items, plan.dropped, counts) && NoneDeadFrom(p.items, plan.dropped, counts, 0)
    ensures KeptForReason(p, plan, v, d)
  {
    hide OccItem, Live;
    if p.items[d].kind.Pure? || p.items[d].kind.MemRead? {
      var i := LivePositive(p.items, plan.dropped, |p.items|, v);
    }
  }

  lemma SameDrops(p: Prog, a: Plan, b: Plan, v: nat, d: nat)
    requires a.dropped == b.dropped
    ensures Foldable(p, a, v, d) == Foldable(p, b, v, d)
  {
    hide OccItem;
    forall u: nat ensures FoldsInto(p, a, v, d, u) == FoldsInto(p, b, v, d, u) {
    }
  }

  /** What is known of a folding decision once the first `i` items were looked at. */
  ghost predicate FoldDecided(p: Prog, dropped: seq<bool>, firstUse: seq<Option<nat>>, defItem: seq<Option<nat>>, i: nat, v: nat,
                              inlined: bool, effectInlined: bool)
    requires v < |dropped| == |firstUse| == |defItem| && i <= |p.items|
  {
    var plan := Plan(dropped, [], [], []);
    && (inlined ==>
          && !dropped[v] && firstUse[v].Some? && defItem[v].Some? && defItem[v].value < i
          && FoldsInto(p, plan, v, defItem[v].value, firstUse[v].value)
          && (effectInlined <==> p.items[defItem[v].value].kind.CallRet?))
    && (!inlined ==> !effectInlined)
    && (!inlined && !dropped[v] ==> forall d: nat | d < i && IsDef(p.items[d], v) :: !Foldable(p, plan, v, d))
  }

  lemma WfFacts(p: Prog)
    requires WfProg(p)
    ensures NamesIn(p) && UniqueDefs(p.items) && DefinedFirst(p.items) && forall i | 0 <= i < |p.items| && p.items[i].Def? :: p.items[i].id < p.values
  {
    hide OccItem;
    forall i: nat | i < |p.items| ensures forall v: nat | OccItem(p.items[i], v) > 0 :: v < p.values {
      assert WfItem(p, i);
    }
    forall i: nat, d: nat, v: nat | i < |p.items| && d < |p.items| && OccItem(p.items[i], v) > 0 && IsDef(p.items[d], v) ensures d < i {
      assert WfItem(p, i);
    }
    forall i | 0 <= i < |p.items| && p.items[i].Def? ensures p.items[i].id < p.values {
      assert WfItem(p, i);
    }
  }

  /** A single live use and no other use at all: the first use is the only one. */
  lemma OnlyUse(p: Prog, dropped: seq<bool>, d: nat, v: nat, u: nat)
    requires v < |dropped| && d < u < |p.items| && Live(p.items, dropped, |p.items|, v) == 1 && Uses(p.items, |p.items|, v) < 2
    requires OccItem(p.items[u], v) > 0
    ensures OccItem(p.items[u], v) == 1 && !DroppedDef(p.items, dropped, u)
    ensures forall i | 0 <= i < |p.items| && i != u :: OccItem(p.items[i], v) == 0
  {
    hide OccItem, Uses;
    UsesPositive(p.items, |p.items|, v, u);
    forall i: nat | i < |p.items| && i != u ensures OccItem(p.items[i], v) == 0 {
      if i < u {
        UsesTwo(p.items, |p.items|, v, i, u);
      } else {
        UsesTwo(p.items, |p.items|, v, u, i);
      }
    }
    if DroppedDef(p.items, dropped, u) {
      NothingLive(p.items, dropped, |p.items|, v, u);
    }
  }

  lemma {:induction false} NothingLive(items: seq<Item>, dropped: seq<bool>, n: nat, v: nat, u: nat)
    requires n <= |items| && u < |items| && DroppedDef(items, dropped, u)
    requires forall i | 0 <= i < |items| && i != u :: OccItem(items[i], v) == 0
    ensures Live(items, dropped, n, v) == 0
    decreases n
  {
    hide OccItem;
    if n > 0 {
      NothingLive(items, dropped, n - 1, v, u);
    }
  }
}
