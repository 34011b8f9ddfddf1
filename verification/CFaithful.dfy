/**
 Whole runs: from every item on, the rendered body and the recorded items finish the same way.
 */
module CFaithful {
  import opened Common
  import opened CProgram
  import opened CFolding
  import opened CRender
  import opened CPreserve

  // ---------------------------------------------------------------- one item of the recorded program

  function EdgeStep(ctx: Ctx, p: Prog, edge: Edge, vars: Vars, s: St): Step
    requires EdgeFits(p, edge)
  {
    var r := EvalAll(ctx, edge.args, vars, s);
    GoTo(edge.target, AssignParams(vars, p.params[edge.target], r.0, |edge.args|), r.1)
  }

  /** What one recorded item does. */
  function ItemStep(ctx: Ctx, p: Prog, item: Item, vars: Vars, s: St): Step
    requires EdgesFit(p, item)
  {
    match item
    case Def(id, expr, kind) =>
      if kind.RngVal? then
        var log := s.log + [Drew];
        Next(vars[Val(id) := ctx.rng(log)], s.(log := log))
      else
        var r := Eval(ctx, expr, vars, s);
        Next(vars[Val(id) := r.0], r.1)
    case Effect(expr) => Next(vars, Eval(ctx, expr, vars, s).1)
    case Store(place, val) =>
      var a := Eval(ctx, place, vars, s);
      var r := Eval(ctx, val, vars, a.1);
      Next(vars, r.1.(mem := r.1.mem[a.0 := r.0]))
    case Label(_) => Next(vars, s)
    case Jump(edge) => EdgeStep(ctx, p, edge, vars, s)
    case Branch(cond, yes, no) =>
      var r := Eval(ctx, cond, vars, s);
      EdgeStep(ctx, p, if r.0 != 0 then yes else no, vars, r.1)
    case Switch(index, cases, fallback) =>
      var r := Eval(ctx, index, vars, s);
      ChosenFits(p, r.0, cases, fallback);
      EdgeStep(ctx, p, ChooseEdge(r.0, cases, fallback), vars, r.1)
    case Ret(result) =>
      if result.None? then Leave(None, s)
      else
        var r := Eval(ctx, result.value, vars, s);
        Leave(Some(r.0), r.1)
  }

  lemma {:induction false} ChosenFits(p: Prog, index: int, cases: seq<Case>, fallback: Edge)
    requires EdgeFits(p, fallback) && forall k | 0 <= k < |cases| :: EdgeFits(p, cases[k].edge)
    ensures EdgeFits(p, ChooseEdge(index, cases, fallback))
    decreases |cases|
  {
    if cases != [] && cases[0].key != index {
      ChosenFits(p, index, cases[1..], fallback);
    }
  }

  function Continue(ctx: Ctx, fuel: nat, p: Prog, pc: nat, step: Step): Finish {
    match step
    case Next(vars, s) => RunItems(ctx, fuel, p, pc + 1, vars, s)
    case Leave(value, s) => Returned(value, s)
    case GoTo(block, vars, s) =>
      var at := FindLabel(p.items, block, 0);
      if at.None? then NoLabel
      else if fuel == 0 then OutOfFuel
      else RunItems(ctx, fuel - 1, p, at.value, vars, s)
  }

  lemma RunItemsStep(ctx: Ctx, fuel: nat, p: Prog, pc: nat, vars: Vars, s: St)
    requires pc < |p.items| && EdgesFit(p, p.items[pc])
    ensures RunItems(ctx, fuel, p, pc, vars, s) == Continue(ctx, fuel, p, pc, ItemStep(ctx, p, p.items[pc], vars, s))
  {
    hide Eval, EvalAll, FindLabel, AssignParams, ChooseEdge;
    match p.items[pc]
    case Switch(index, cases, fallback) => ChosenFits(p, Eval(ctx, index, vars, s).0, cases, fallback);
    case _ =>
  }

  // ---------------------------------------------------------------- chunks and labels

  lemma {:induction false} ChunkAt(p: Prog, plan: Plan, n: nat, i: nat) returns (tmp: nat)
    requires i < n <= |p.items| && forall j | 0 <= j < |p.items| :: EdgesFit(p, p.items[j])
    ensures Chunks(p, plan, n).0[i] == ItemStmts(p, plan, i, tmp).0
    decreases n
  {
    hide ItemStmts;
    if i == n - 1 {
      tmp := Chunks(p, plan, n - 1).1;
    } else {
      tmp := ChunkAt(p, plan, n - 1, i);
    }
  }

  lemma LabelChunk(p: Prog, plan: Plan, i: nat, tmp: nat, block: nat)
    requires i < |p.items| && EdgesFit(p, p.items[i])
    ensures ItemStmts(p, plan, i, tmp).0 == [CLabel(block)] <==> p.items[i] == Label(block)
  {
    hide Render, CaseStmts, TmpAfterEdge, Hazard, EdgeFits;
    if p.items[i].Jump? {
      var stmts := EdgeStmts(p, plan, i, p.items[i].edge, tmp);
      assert stmts[|stmts| - 1] == CGoto(p.items[i].edge.target);
    }
  }

  lemma {:induction false} SameLabels(p: Prog, plan: Plan, block: nat, from: nat)
    requires from <= |p.items| && forall j | 0 <= j < |p.items| :: EdgesFit(p, p.items[j])
    ensures FindChunk(Chunks(p, plan, |p.items|).0, block, from) == FindLabel(p.items, block, from)
    decreases |p.items| - from
  {
    hide ItemStmts, Chunks;
    if from < |p.items| {
      var tmp := ChunkAt(p, plan, |p.items|, from);
      LabelChunk(p, plan, from, tmp, block);
      SameLabels(p, plan, block, from + 1);
    }
  }

  lemma {:induction false} LabelThere(items: seq<Item>, block: nat, from: nat)
    requires from <= |items| && FindLabel(items, block, from).Some?
    ensures FindLabel(items, block, from).value < |items| && items[FindLabel(items, block, from).value] == Label(block)
    decreases |items| - from
  {
    if items[from] != Label(block) {
      LabelThere(items, block, from + 1);
    }
  }

  /** At a label nothing is pending: its window would contain the label. */
  lemma LabelRelated(ctx: Ctx, p: Prog, plan: Plan, i: nat, written: Vars, exact: Vars, s: St)
    requires PlanOk(p, plan) && i < |p.items| && p.items[i].Label? && Agree(p, plan, written, exact)
    ensures Related(ctx, p, plan, i, written, exact, s, s, None)
  {
    hide TreeOf, PlanOk, OccItem, Render;
    forall v: nat ensures !Pending(p, plan, i, v) {
      if Pending(p, plan, i, v) {
        UsedOnce(p, plan, i, v);
        NoNames(p.items[i], v);
        assert false;
      }
    }
  }

  lemma NoNames(item: Item, v: nat)
    requires item.Label? || (item.Ret? && item.result.None?)
    ensures OccItem(item, v) == 0
  {
  }

  // ---------------------------------------------------------------- matching steps

  /** The rendered statements of item `i` and the item itself end alike. */
  ghost predicate Matches(ctx: Ctx, p: Prog, plan: Plan, i: nat, written: Step, exact: Step, carrier: Option<nat>) {
    match written
    case Next(w, t) => exact.Next? && Related(ctx, p, plan, i + 1, w, exact.vars, t, exact.s, carrier)
    case GoTo(block, w, t) => exact.GoTo? && exact.block == block && t == exact.s && Agree(p, plan, w, exact.vars)
    case Leave(value, t) => exact.Leave? && exact.value == value && exact.s == t
  }

  lemma AgreeSet(p: Prog, plan: Plan, written: Vars, exact: Vars, id: nat, x: int)
    requires Agree(p, plan, written, exact)
    ensures Agree(p, plan, written[Val(id) := x], exact[Val(id) := x])
  {
  }

  lemma {:induction false} AgreeParams(p: Prog, plan: Plan, written: Vars, exact: Vars, params: seq<nat>, vals: seq<int>, n: nat)
    requires Agree(p, plan, written, exact) && n <= |params| == |vals|
    ensures Agree(p, plan, AssignParams(written, params, vals, n), AssignParams(exact, params, vals, n))
    decreases n
  {
    hide Agree;
    if n > 0 {
      AgreeParams(p, plan, written, exact, params, vals, n - 1);
      AgreeSet(p, plan, AssignParams(written, params, vals, n - 1), AssignParams(exact, params, vals, n - 1), params[n - 1], vals[n - 1]);
    }
  }

  lemma AgreeSame(p: Prog, plan: Plan, done: Vars, written: Vars, exact: Vars)
    requires SameVals(done, written) && Agree(p, plan, written, exact)
    ensures Agree(p, plan, done, exact)
  {
  }

  /** Arguments that evaluate alike make edges that match. */
  lemma EdgeMatches(ctx: Ctx, p: Prog, plan: Plan, i: nat, edge: Edge, tmp: nat, written: Vars, exact: Vars, at: St, s: St)
    requires EdgeFits(p, edge) && Agree(p, plan, written, exact)
    requires EvalAll(ctx, RenderAll(p, plan, i, edge.args), written, at) == EvalAll(ctx, edge.args, exact, s)
    ensures Matches(ctx, p, plan, i, ExecStmts(ctx, EdgeStmts(p, plan, i, edge, tmp), written, at), EdgeStep(ctx, p, edge, exact, s), None)
  {
    hide EvalAll, RenderAll, Related, Agree, SameVals;
    var r := EvalAll(ctx, edge.args, exact, s);
    var done := EdgeRuns(ctx, p, plan, i, edge, tmp, written, at);
    AgreeParams(p, plan, written, exact, p.params[edge.target], r.0, |edge.args|);
    AgreeSame(p, plan, done, AssignParams(written, p.params[edge.target], r.0, |edge.args|),
      AssignParams(exact, p.params[edge.target], r.0, |edge.args|));
  }

  /** Parts of an item that is written out name only what is usable there. */
  lemma PartUsable(p: Prog, plan: Plan, i: nat, parts: seq<Expr>)
    requires PlanOk(p, plan) && WfProg(p) && i < |p.items| && !DroppedDef(p.items, plan.dropped, i) && PartOf(p, i, parts)
    ensures UsableAll(p, plan, i, parts)
  {
    hide OccAll, PlanOk, WfProg, Pending, OccItem, Parts;
    ItemUsable(p, plan, i);
    OccItemIs(p.items[i]);
    forall v: nat | OccAll(parts, v) > 0 ensures OccAll(Parts(p.items[i]), v) > 0 {
      assert OccAll(parts, v) <= OccItem(p.items[i], v);
    }
  }

  lemma PartOnce(p: Prog, i: nat, parts: seq<Expr>, carrier: Option<nat>)
    requires PartOf(p, i, parts) && (carrier.Some? ==> OccItem(p.items[i], carrier.value) == 1)
    ensures OccAllOf(parts, carrier) <= 1
  {
    hide OccAll, OccItem;
    if carrier.Some? {
      assert OccAll(parts, carrier.value) <= OccItem(p.items[i], carrier.value);
    }
  }

  // ---------------------------------------------------------------- items that go on to the next

  /** Running the item evaluates the place of `c`. */
  predicate Evaluates(ctx: Ctx, item: Item, c: nat, vars: Vars) {
    match item
    case Def(_, expr, _) => Reached(ctx, expr, c, vars)
    case Effect(expr) => Reached(ctx, expr, c, vars)
    case Store(place, val) => AnyReached(ctx, [place, val], c, vars)
    case Label(_) => false
    case Jump(edge) => AnyReached(ctx, edge.args, c, vars)
    case Branch(cond, yes, no) =>
      Reached(ctx, cond, c, vars) || AnyReached(ctx, (if Eval(ctx, cond, vars, NOWHERE).0 != 0 then yes else no).args, c, vars)
    case Switch(index, cases, fallback) =>
      Reached(ctx, index, c, vars) || AnyReached(ctx, ChooseEdge(Eval(ctx, index, vars, NOWHERE).0, cases, fallback).args, c, vars)
    case Ret(result) => result.Some? && Reached(ctx, result.value, c, vars)
  }

  /** The recorded state if the item evaluates the carrier's place; otherwise that before the carrier's calls. */
  function Base(ctx: Ctx, item: Item, carrier: Option<nat>, vars: Vars, t: St, s: St): St {
    if carrier.Some? && Evaluates(ctx, item, carrier.value, vars) then s else t
  }

  /** All expressions of a statement, evaluated in order, give the recorded values and make the carrier's calls if they reach it. */
  lemma WholeItem(ctx: Ctx, p: Prog, plan: Plan, i: nat, written: Vars, exact: Vars, t: St, s: St, carrier: Option<nat>)
    requires PlanOk(p, plan) && WfProg(p) && i < |p.items| && !p.items[i].Def? && AllPure(Parts(p.items[i]))
    requires Related(ctx, p, plan, i, written, exact, t, s, carrier)
    ensures var parts := Parts(p.items[i]);
      var base := Released(ctx, parts, carrier, exact, t, s);
      EvalAll(ctx, RenderAll(p, plan, i, parts), written, t) == EvalAll(ctx, parts, exact, base) && EvalAll(ctx, parts, exact, base).1 == base
  {
    hide OccAll, PlanOk, WfProg, Pending, OccItem, Parts, Related, RenderAll, EvalAll, AllPure, AnyReached;
    var parts := Parts(p.items[i]);
    var base := Released(ctx, parts, carrier, exact, t, s);
    ItemUsable(p, plan, i);
    CarrierUsed(ctx, p, plan, i, written, exact, t, s, carrier);
    OccItemIs(p.items[i]);
    PlaceRenderAll(ctx, p, plan, i, parts, written, exact, t, s, carrier, base);
    PureEvalAll(ctx, parts, exact, base, base);
  }

  lemma Pair(ctx: Ctx, p: Prog, plan: Plan, i: nat, a: Expr, b: Expr, vars: Vars, s: St)
    ensures RenderAll(p, plan, i, [a, b]) == [Render(p, plan, i, a), Render(p, plan, i, b)]
    ensures var x := Eval(ctx, a, vars, s);
      var y := Eval(ctx, b, vars, x.1);
      EvalAll(ctx, [a, b], vars, s) == ([x.0, y.0], y.1)
    ensures AllPure([a, b]) == (PureExpr(a) && PureExpr(b))
  {
    hide Eval, Render, PureExpr;
    var es := [a, b];
    assert es[0] == a && es[1..] == [b];
    var x := Eval(ctx, a, vars, s);
    Single(ctx, p, plan, i, b, vars, x.1);
    var y := Eval(ctx, b, vars, x.1);
    assert EvalAll(ctx, es, vars, s) == ([x.0] + [y.0], y.1) && [x.0] + [y.0] == [x.0, y.0];
  }

  lemma StoreMatches(ctx: Ctx, p: Prog, plan: Plan, i: nat, tmp: nat, written: Vars, exact: Vars, t: St, s: St, carrier: Option<nat>)
    requires PlanOk(p, plan) && WfProg(p) && i < |p.items| && p.items[i].Store?
    requires Related(ctx, p, plan, i, written, exact, t, s, carrier)
    ensures var base := Base(ctx, p.items[i], carrier, exact, t, s);
      Matches(ctx, p, plan, i, ExecStmts(ctx, ItemStmts(p, plan, i, tmp).0, written, t), ItemStep(ctx, p, p.items[i], exact, base), None)
  {
    hide PlanOk, Render, Eval, EvalAll, RenderAll, Related, OccItem, WfProg, AnyReached;
    var place, val := p.items[i].place, p.items[i].val;
    var base := Base(ctx, p.items[i], carrier, exact, t, s);
    ItemShape(p, i);
    Pair(ctx, p, plan, i, place, val, exact, base);
    Pair(ctx, p, plan, i, Render(p, plan, i, place), Render(p, plan, i, val), written, t);
    Pair(ctx, p, plan, i, place, val, written, t);
    WholeItem(ctx, p, plan, i, written, exact, t, s, carrier);
    ExecOne(ctx, CStore(Render(p, plan, i, place), Render(p, plan, i, val)), written, t);
    RelatedAgree(ctx, p, plan, i, written, exact, t, s, carrier);
    var a := Eval(ctx, place, exact, base);
    var r := Eval(ctx, val, exact, a.1);
    assert [a.0, r.0][0] == a.0 && [a.0, r.0][1] == r.0;
    var x := Eval(ctx, Render(p, plan, i, place), written, t);
    var y := Eval(ctx, Render(p, plan, i, val), written, x.1);
    assert [x.0, y.0][0] == x.0 && [x.0, y.0][1] == y.0;
    ClearedRelated(ctx, p, plan, i, written, exact, r.1.(mem := r.1.mem[a.0 := r.0]));
  }

  lemma ItemShape(p: Prog, i: nat)
    requires WfProg(p) && i < |p.items|
    ensures EdgesFit(p, p.items[i])
    ensures p.items[i].Store? ==> PureExpr(p.items[i].place) && PureExpr(p.items[i].val)
    ensures p.items[i].Effect? ==> Simple(p.items[i].expr)
    ensures p.items[i].Branch? ==> PureExpr(p.items[i].cond)
    ensures p.items[i].Switch? ==> PureExpr(p.items[i].index)
    ensures p.items[i].Ret? && p.items[i].result.Some? ==> PureExpr(p.items[i].result.value)
    ensures p.items[i].Def? ==> p.items[i].id < p.values && (p.items[i].kind.RngVal? ==> p.items[i].expr.Lit?)
  {
    hide OccItem;
    assert WfItem(p, i);
  }

  lemma EffectMatches(ctx: Ctx, p: Prog, plan: Plan, i: nat, tmp: nat, written: Vars, exact: Vars, t: St, s: St, carrier: Option<nat>)
    requires PlanOk(p, plan) && WfProg(p) && i < |p.items| && p.items[i].Effect?
    requires Related(ctx, p, plan, i, written, exact, t, s, carrier)
    ensures var base := Base(ctx, p.items[i], carrier, exact, t, s);
      Matches(ctx, p, plan, i, ExecStmts(ctx, ItemStmts(p, plan, i, tmp).0, written, t), ItemStep(ctx, p, p.items[i], exact, base), None)
  {
    hide PlanOk, Render, RenderAll, Eval, Related, WfProg, Pending, Occ, Reached;
    var e := p.items[i].expr;
    var base := Base(ctx, p.items[i], carrier, exact, t, s);
    ItemShape(p, i);
    ItemUsable(p, plan, i);
    CarrierUsed(ctx, p, plan, i, written, exact, t, s, carrier);
    Single(ctx, p, plan, i, e, exact, s);
    assert Parts(p.items[i]) == [e];
    assert forall v: nat :: OccItem(p.items[i], v) == OccAll([e], v);
    PlaceSimple(ctx, p, plan, i, e, written, exact, t, s, carrier);
    ExecOne(ctx, CExpr(Render(p, plan, i, e)), written, t);
    RelatedAgree(ctx, p, plan, i, written, exact, t, s, carrier);
    ClearedRelated(ctx, p, plan, i, written, exact, Eval(ctx, e, exact, base).1);
  }

  lemma LabelMatches(ctx: Ctx, p: Prog, plan: Plan, i: nat, tmp: nat, written: Vars, exact: Vars, t: St, s: St, carrier: Option<nat>)
    requires PlanOk(p, plan) && i < |p.items| && p.items[i].Label?
    requires Related(ctx, p, plan, i, written, exact, t, s, carrier)
    ensures t == s
    ensures Matches(ctx, p, plan, i, ExecStmts(ctx, ItemStmts(p, plan, i, tmp).0, written, t), ItemStep(ctx, p, p.items[i], exact, s), None)
  {
    hide PlanOk, Related, OccItem;
    CarrierUsed(ctx, p, plan, i, written, exact, t, s, carrier);
    if carrier.Some? {
      NoNames(p.items[i], carrier.value);
      assert false;
    }
    ExecOne(ctx, CLabel(p.items[i].block), written, t);
    RelatedAgree(ctx, p, plan, i, written, exact, t, s, carrier);
    ClearedRelated(ctx, p, plan, i, written, exact, s);
  }

  lemma DrawMatches(ctx: Ctx, p: Prog, plan: Plan, i: nat, tmp: nat, written: Vars, exact: Vars, t: St, s: St, carrier: Option<nat>)
    requires PlanOk(p, plan) && WfProg(p) && i < |p.items| && p.items[i].Def? && p.items[i].kind.RngVal?
    requires Related(ctx, p, plan, i, written, exact, t, s, carrier)
    ensures Matches(ctx, p, plan, i, ExecStmts(ctx, ItemStmts(p, plan, i, tmp).0, written, t), ItemStep(ctx, p, p.items[i], exact, s), None)
  {
    hide PlanOk, Related, OccItem, WfProg;
    var id := p.items[i].id;
    ItemShape(p, i);
    DrawKept(p, plan, i);
    CarrierUsed(ctx, p, plan, i, written, exact, t, s, carrier);
    if carrier.Some? {
      DefOcc(p.items[i], carrier.value);
      assert false;
    }
    ExecOne(ctx, CDraw(id), written, t);
    RelatedAgree(ctx, p, plan, i, written, exact, t, s, carrier);
    var log := s.log + [Drew];
    AgreeSet(p, plan, written, exact, id, ctx.rng(log));
    ClearedRelated(ctx, p, plan, i, written[Val(id) := ctx.rng(log)], exact[Val(id) := ctx.rng(log)], s.(log := log));
  }

  /** Random draws are neither dropped nor folded. */
  lemma DrawKept(p: Prog, plan: Plan, i: nat)
    requires PlanOk(p, plan) && WfProg(p) && i < |p.items| && p.items[i].Def? && p.items[i].kind.RngVal?
    ensures p.items[i].id < p.values && |plan.inlined| == |plan.dropped| == p.values
    ensures !plan.dropped[p.items[i].id] && !plan.inlined[p.items[i].id]
  {
    hide OccItem;
    var id := p.items[i].id;
    assert WfItem(p, i);
    assert DropOk(p, plan, id) && InlineOk(p, plan, id);
    assert IsDef(p.items[i], id);
    if plan.inlined[id] {
      DefinedThere(p, plan, id);
    }
  }

  lemma DefMatches(ctx: Ctx, p: Prog, plan: Plan, i: nat, tmp: nat, written: Vars, exact: Vars, t: St, s: St, carrier: Option<nat>)
      returns (next: Option<nat>)
    requires PlanOk(p, plan) && WfProg(p) && i < |p.items| && p.items[i].Def? && !p.items[i].kind.RngVal?
    requires CallsAlwaysRun(p, plan, i) && Related(ctx, p, plan, i, written, exact, t, s, carrier)
    ensures Matches(ctx, p, plan, i, ExecStmts(ctx, ItemStmts(p, plan, i, tmp).0, written, t), ItemStep(ctx, p, p.items[i], exact, s), next)
  {
    hide PlanOk, Related, OccItem, WfProg, CallsAlwaysRun, Render, Eval;
    var id := p.items[i].id;
    ItemShape(p, i);
    PlanWidth(p, plan);
    if plan.dropped[id] {
      StepDropped(ctx, p, plan, i, written, exact, t, s, carrier);
      next := carrier;
    } else if plan.inlined[id] {
      StepFolded(ctx, p, plan, i, written, exact, t, s, carrier);
      next := NextCarrier(p.items[i], carrier);
    } else {
      StepWritten(ctx, p, plan, i, written, exact, t, s, carrier);
      ExecOne(ctx, CSet(id, Render(p, plan, i, p.items[i].expr)), written, t);
      next := RestCarrier(p.items[i], carrier);
    }
  }

  // ---------------------------------------------------------------- items that leave

  lemma RetMatches(ctx: Ctx, p: Prog, plan: Plan, i: nat, tmp: nat, written: Vars, exact: Vars, t: St, s: St, carrier: Option<nat>)
    requires PlanOk(p, plan) && WfProg(p) && i < |p.items| && p.items[i].Ret?
    requires Related(ctx, p, plan, i, written, exact, t, s, carrier)
    ensures var base := Base(ctx, p.items[i], carrier, exact, t, s);
      Matches(ctx, p, plan, i, ExecStmts(ctx, ItemStmts(p, plan, i, tmp).0, written, t), ItemStep(ctx, p, p.items[i], exact, base), None)
  {
    hide PlanOk, Related, OccItem, WfProg, Render, Eval, EvalAll, RenderAll, AnyReached, Reached;
    var result := p.items[i].result;
    var base := Base(ctx, p.items[i], carrier, exact, t, s);
    ItemShape(p, i);
    if result.None? {
      ExecOne(ctx, CReturn(None), written, t);
    } else {
      var e := result.value;
      assert Parts(p.items[i]) == [e];
      if carrier.Some? {
        OneReached(ctx, e, carrier.value, exact);
      }
      Single(ctx, p, plan, i, e, exact, base);
      Single(ctx, p, plan, i, Render(p, plan, i, e), written, t);
      WholeItem(ctx, p, plan, i, written, exact, t, s, carrier);
      var x, y := Eval(ctx, e, exact, base), Eval(ctx, Render(p, plan, i, e), written, t);
      assert [x.0][0] == x.0 && [y.0][0] == y.0;
      ExecOne(ctx, CReturn(Some(Render(p, plan, i, e))), written, t);
    }
  }

  lemma JumpMatches(ctx: Ctx, p: Prog, plan: Plan, i: nat, tmp: nat, written: Vars, exact: Vars, t: St, s: St, carrier: Option<nat>)
    requires PlanOk(p, plan) && WfProg(p) && i < |p.items| && p.items[i].Jump?
    requires Related(ctx, p, plan, i, written, exact, t, s, carrier)
    requires EdgesFit(p, p.items[i])
    ensures var base := Base(ctx, p.items[i], carrier, exact, t, s);
      Matches(ctx, p, plan, i, ExecStmts(ctx, ItemStmts(p, plan, i, tmp).0, written, t), ItemStep(ctx, p, p.items[i], exact, base), None)
  {
    hide PlanOk, Related, OccItem, WfProg, EvalAll, RenderAll, Matches, EdgeStep, EdgeStmts, AnyReached;
    WholeItem(ctx, p, plan, i, written, exact, t, s, carrier);
    RelatedAgree(ctx, p, plan, i, written, exact, t, s, carrier);
    EdgeMatches(ctx, p, plan, i, p.items[i].edge, tmp, written, exact, t, Base(ctx, p.items[i], carrier, exact, t, s));
  }

  /** The first expression of an item. */
  function Deciding(item: Item): Expr
    requires item.Branch? || item.Switch?
  {
    if item.Branch? then item.cond else item.index
  }

  /** An edge a branch or switch may take. */
  predicate EdgeIn(item: Item, edge: Edge) {
    match item
    case Branch(_, yes, no) => edge == yes || edge == no
    case Switch(_, cases, fallback) => edge == fallback || exists k :: 0 <= k < |cases| && cases[k].edge == edge
    case _ => false
  }

  /** No call was folded into an edge, so a carrier there holds none back. */
  lemma EdgeSettled(ctx: Ctx, p: Prog, plan: Plan, i: nat, edge: Edge, written: Vars, exact: Vars, t: St, s: St, carrier: Option<nat>)
    requires i < |p.items| && EdgeIn(p.items[i], edge) && CallsAlwaysRun(p, plan, i)
    requires Related(ctx, p, plan, i, written, exact, t, s, carrier) && OccAllOf(edge.args, carrier) > 0
    ensures t == s
  {
    hide OccItem, Render, RenderAll, HasCall, TreeOf, OccAll, AnyCall, AnyArmCalls;
    assert !AnyCall(RenderAll(p, plan, i, edge.args));
    if HasCall(TreeOf(p, plan, carrier.value)) {
      CarriedCallAll(p, plan, i, edge.args, carrier.value);
    }
  }

  /** Where a value named by a branch or switch can stand. */
  lemma Somewhere(item: Item, c: nat) returns (edge: Edge)
    requires (item.Branch? || item.Switch?) && OccItem(item, c) > 0 && Occ(Deciding(item), c) == 0
    ensures EdgeIn(item, edge) && OccAll(edge.args, c) > 0
  {
    hide Occ, OccAll;
    match item
    case Branch(cond, yes, no) =>
      OccAllConcat([cond], yes.args, c);
      OccAllConcat([cond] + yes.args, no.args, c);
      OccOne(cond, c);
      edge := if OccAll(yes.args, c) > 0 then yes else no;
    case Switch(index, cases, fallback) =>
      OccAllConcat([index], CaseArgs(cases), c);
      OccAllConcat([index] + CaseArgs(cases), fallback.args, c);
      OccOne(index, c);
      if OccAll(fallback.args, c) > 0 {
        edge := fallback;
      } else {
        var k := CaseNamed(cases, c);
        edge := cases[k].edge;
      }
  }

  lemma OccOne(e: Expr, c: nat)
    ensures OccAll([e], c) == Occ(e, c)
  {
    hide Occ;
    assert [e][1..] == [];
  }

  lemma {:induction false} CaseNamed(cases: seq<Case>, c: nat) returns (k: nat)
    requires OccAll(CaseArgs(cases), c) > 0
    ensures k < |cases| && OccAll(cases[k].edge.args, c) > 0
    decreases |cases|
  {
    hide Occ;
    OccAllConcat(cases[0].edge.args, CaseArgs(cases[1..]), c);
    k := 0;
    if OccAll(cases[0].edge.args, c) == 0 {
      var rest := CaseNamed(cases[1..], c);
      k := rest + 1;
    }
  }

  /** The deciding expression has its recorded value, and makes the carrier's calls if it reaches it. */
  lemma Decided(ctx: Ctx, p: Prog, plan: Plan, i: nat, written: Vars, exact: Vars, t: St, s: St, carrier: Option<nat>)
    requires PlanOk(p, plan) && WfProg(p) && i < |p.items| && (p.items[i].Branch? || p.items[i].Switch?)
    requires Related(ctx, p, plan, i, written, exact, t, s, carrier)
    ensures var e := Deciding(p.items[i]);
      && Eval(ctx, Render(p, plan, i, e), written, t) == (Eval(ctx, e, exact, NOWHERE).0, ReleasedBy(ctx, e, carrier, exact, t, s))
      && forall any :: Eval(ctx, e, exact, any) == (Eval(ctx, e, exact, NOWHERE).0, any)
  {
    hide PlanOk, Related, OccItem, WfProg, Render, Eval, Occ, OccAll, Pending, Reached;
    var e := Deciding(p.items[i]);
    ItemShape(p, i);
    CarrierUsed(ctx, p, plan, i, written, exact, t, s, carrier);
    PartsOfItem(p, i);
    PartUsable(p, plan, i, [e]);
    PartOnce(p, i, [e], carrier);
    Single(ctx, p, plan, i, e, exact, s);
    PlaceRender(ctx, p, plan, i, e, written, exact, t, s, carrier, NOWHERE);
    forall any ensures Eval(ctx, e, exact, any) == (Eval(ctx, e, exact, NOWHERE).0, any) {
      PureEval(ctx, e, exact, any, NOWHERE);
    }
  }

  lemma DecidingArms(p: Prog, plan: Plan, i: nat)
    requires i < |p.items| && (p.items[i].Branch? || p.items[i].Switch?) && CallsAlwaysRun(p, plan, i)
    ensures !ArmCalls(Render(p, plan, i, Deciding(p.items[i])))
  {
    hide Render, ArmCalls, AnyCall;
    var parts := Parts(p.items[i]);
    assert parts[0] == Deciding(p.items[i]);
    assert RenderAll(p, plan, i, parts)[0] == Render(p, plan, i, parts[0]);
  }

  /** The arguments of the edge taken, once the deciding expression was evaluated. */
  lemma TakenEdge(ctx: Ctx, p: Prog, plan: Plan, i: nat, edge: Edge, tmp: nat, written: Vars, exact: Vars, t: St, s: St, carrier: Option<nat>)
    requires PlanOk(p, plan) && WfProg(p) && i < |p.items| && (p.items[i].Branch? || p.items[i].Switch?)
    requires EdgeIn(p.items[i], edge) && EdgeFits(p, edge) && PartOf(p, i, edge.args)
    requires Related(ctx, p, plan, i, written, exact, t, s, carrier)
    requires OccAllOf(edge.args, carrier) > 0 ==> OccOf(Deciding(p.items[i]), carrier) == 0
    ensures var at := ReleasedBy(ctx, Deciding(p.items[i]), carrier, exact, t, s);
      Matches(ctx, p, plan, i, ExecStmts(ctx, EdgeStmts(p, plan, i, edge, tmp), written, at),
        EdgeStep(ctx, p, edge, exact, Released(ctx, edge.args, carrier, exact, at, s)), None)
  {
    hide PlanOk, Related, OccItem, WfProg, Render, RenderAll, EvalAll, Eval, Occ, OccAll, Pending, PartOf, AllPure, EdgeStmts, EdgeStep, Matches, Reached, AnyReached;
    var at := ReleasedBy(ctx, Deciding(p.items[i]), carrier, exact, t, s);
    var base := Released(ctx, edge.args, carrier, exact, at, s);
    CarrierUsed(ctx, p, plan, i, written, exact, t, s, carrier);
    PartUsable(p, plan, i, edge.args);
    PartOnce(p, i, edge.args, carrier);
    PureEvalAll(ctx, edge.args, exact, base, base);
    if OccAllOf(edge.args, carrier) > 0 {
      ReachedNamed(ctx, Deciding(p.items[i]), carrier.value, exact);
      PlaceRenderAll(ctx, p, plan, i, edge.args, written, exact, t, s, carrier, base);
    } else {
      if carrier.Some? {
        AnyReachedNamed(ctx, edge.args, carrier.value, exact);
      }
      SteadyRenderAll(ctx, p, plan, i, edge.args, written, exact, t, s, carrier, at, base);
    }
    RelatedAgree(ctx, p, plan, i, written, exact, t, s, carrier);
    EdgeMatches(ctx, p, plan, i, edge, tmp, written, exact, at, base);
  }

  /** A carrier the deciding expression names is not in an edge. */
  lemma NotTwice(p: Prog, i: nat, edge: Edge, carrier: Option<nat>)
    requires i < |p.items| && (p.items[i].Branch? || p.items[i].Switch?) && EdgeIn(p.items[i], edge)
    requires carrier.Some? ==> OccItem(p.items[i], carrier.value) == 1
    ensures OccAllOf(edge.args, carrier) > 0 ==> OccOf(Deciding(p.items[i]), carrier) == 0
  {
    hide Occ, OccAll;
    if carrier.Some? {
      var c := carrier.value;
      match p.items[i]
      case Branch(cond, yes, no) =>
        OccAllConcat([cond], yes.args, c);
        OccAllConcat([cond] + yes.args, no.args, c);
        OccOne(cond, c);
      case Switch(index, cases, fallback) =>
        OccAllConcat([index], CaseArgs(cases), c);
        OccAllConcat([index] + CaseArgs(cases), fallback.args, c);
        OccOne(index, c);
        if edge != fallback {
          var k :| 0 <= k < |cases| && cases[k].edge == edge;
          CaseOcc(cases, k, c);
        }
    }
  }

  lemma BranchMatches(ctx: Ctx, p: Prog, plan: Plan, i: nat, tmp: nat, written: Vars, exact: Vars, t: St, s: St, carrier: Option<nat>)
    requires PlanOk(p, plan) && WfProg(p) && i < |p.items| && p.items[i].Branch? && EdgesFit(p, p.items[i])
    requires Related(ctx, p, plan, i, written, exact, t, s, carrier)
    ensures var base := Base(ctx, p.items[i], carrier, exact, t, s);
      Matches(ctx, p, plan, i, ExecStmts(ctx, ItemStmts(p, plan, i, tmp).0, written, t), ItemStep(ctx, p, p.items[i], exact, base), None)
  {
    hide PlanOk, Related, OccItem, WfProg, Render, Eval, EdgeStmts, EdgeStep, Matches, PartOf, TmpAfterEdge, Reached, AnyReached;
    var cond, yes, no := p.items[i].cond, p.items[i].yes, p.items[i].no;
    Decided(ctx, p, plan, i, written, exact, t, s, carrier);
    CarrierUsed(ctx, p, plan, i, written, exact, t, s, carrier);
    PartsOfItem(p, i);
    var middle := TmpAfterEdge(p, plan, i, yes, tmp);
    var x := Eval(ctx, cond, exact, NOWHERE).0;
    var taken, from := if x != 0 then yes else no, if x != 0 then tmp else middle;
    NotTwice(p, i, taken, carrier);
    TakenEdge(ctx, p, plan, i, taken, from, written, exact, t, s, carrier);
    ExecOne(ctx, CIf(Render(p, plan, i, cond), EdgeStmts(p, plan, i, yes, tmp), EdgeStmts(p, plan, i, no, middle)), written, t);
  }

  // ---------------------------------------------------------------- switches

  lemma {:induction false} ArmOf(p: Prog, plan: Plan, i: nat, cases: seq<Case>, n: nat, tmp: nat, k: nat) returns (base: nat)
    requires k < n <= |cases| && forall j | 0 <= j < |cases| :: EdgeFits(p, cases[j].edge)
    ensures |CaseStmts(p, plan, i, cases, n, tmp).0| == n
    ensures CaseStmts(p, plan, i, cases, n, tmp).0[k] == CCase(cases[k].key, EdgeStmts(p, plan, i, cases[k].edge, base))
    decreases n
  {
    hide EdgeStmts, TmpAfterEdge, EdgeFits;
    ArmCount(p, plan, i, cases, n - 1, tmp);
    if k == n - 1 {
      base := CaseStmts(p, plan, i, cases, n - 1, tmp).1;
    } else {
      base := ArmOf(p, plan, i, cases, n - 1, tmp, k);
    }
  }

  lemma {:induction false} ArmCount(p: Prog, plan: Plan, i: nat, cases: seq<Case>, n: nat, tmp: nat)
    requires n <= |cases| && forall j | 0 <= j < |cases| :: EdgeFits(p, cases[j].edge)
    ensures |CaseStmts(p, plan, i, cases, n, tmp).0| == n
    decreases n
  {
    hide EdgeStmts, TmpAfterEdge, EdgeFits;
    if n > 0 {
      ArmCount(p, plan, i, cases, n - 1, tmp);
    }
  }

  /** Both look for the first case with the key. */
  lemma {:induction false} SameCase(index: int, arms: seq<CCase>, cases: seq<Case>, fallback: Edge)
    requires |arms| == |cases| && forall k | 0 <= k < |arms| :: arms[k].key == cases[k].key
    ensures ChooseEdge(index, cases, fallback)
      == var at := FindCase(index, arms); if at.Some? then cases[at.value].edge else fallback
    decreases |arms|
  {
    if arms != [] {
      SameCase(index, arms[1..], cases[1..], fallback);
    }
  }

  lemma SwitchMatches(ctx: Ctx, p: Prog, plan: Plan, i: nat, tmp: nat, written: Vars, exact: Vars, t: St, s: St, carrier: Option<nat>)
    requires PlanOk(p, plan) && WfProg(p) && i < |p.items| && p.items[i].Switch? && EdgesFit(p, p.items[i])
    requires Related(ctx, p, plan, i, written, exact, t, s, carrier)
    ensures var base := Base(ctx, p.items[i], carrier, exact, t, s);
      Matches(ctx, p, plan, i, ExecStmts(ctx, ItemStmts(p, plan, i, tmp).0, written, t), ItemStep(ctx, p, p.items[i], exact, base), None)
  {
    hide PlanOk, Related, OccItem, WfProg, Render, Eval, Reached, AnyReached, EdgeStmts, EdgeStep, Matches, PartOf, TmpAfterEdge, CaseStmts, ChooseEdge, FindCase;
    var index, cases, fallback := p.items[i].index, p.items[i].cases, p.items[i].fallback;
    Decided(ctx, p, plan, i, written, exact, t, s, carrier);
    CarrierUsed(ctx, p, plan, i, written, exact, t, s, carrier);
    PartsOfItem(p, i);
    var arms := CaseStmts(p, plan, i, cases, |cases|, tmp);
    ArmCount(p, plan, i, cases, |cases|, tmp);
    forall k | 0 <= k < |cases| ensures arms.0[k].key == cases[k].key {
      var base := ArmOf(p, plan, i, cases, |cases|, tmp, k);
    }
    var key := Eval(ctx, index, exact, NOWHERE).0;
    SameCase(key, arms.0, cases, fallback);
    var at := FindCase(key, arms.0);
    ExecOne(ctx, CSwitch(Render(p, plan, i, index), arms.0, EdgeStmts(p, plan, i, fallback, arms.1)), written, t);
    if at.Some? {
      var base := ArmOf(p, plan, i, cases, |cases|, tmp, at.value);
      CasePart(p, i, cases, at.value);
      NotTwice(p, i, cases[at.value].edge, carrier);
      TakenEdge(ctx, p, plan, i, cases[at.value].edge, base, written, exact, t, s, carrier);
    } else {
      NotTwice(p, i, fallback, carrier);
      TakenEdge(ctx, p, plan, i, fallback, arms.1, written, exact, t, s, carrier);
    }
  }

  // ---------------------------------------------------------------- one statement exactly

  /** Any item but a definition: it does what the recorded item does from the state its operands leave. */
  lemma StepMatches(ctx: Ctx, p: Prog, plan: Plan, i: nat, tmp: nat, written: Vars, exact: Vars, t: St, s: St, carrier: Option<nat>)
    requires PlanOk(p, plan) && WfProg(p) && i < |p.items| && !p.items[i].Def? && EdgesFit(p, p.items[i])
    requires Related(ctx, p, plan, i, written, exact, t, s, carrier)
    ensures var base := Base(ctx, p.items[i], carrier, exact, t, s);
      Matches(ctx, p, plan, i, ExecStmts(ctx, ItemStmts(p, plan, i, tmp).0, written, t), ItemStep(ctx, p, p.items[i], exact, base), None)
  {
    hide *;
    match p.items[i]
    case Effect(_) => EffectMatches(ctx, p, plan, i, tmp, written, exact, t, s, carrier);
    case Store(_, _) => StoreMatches(ctx, p, plan, i, tmp, written, exact, t, s, carrier);
    case Label(_) =>
      LabelMatches(ctx, p, plan, i, tmp, written, exact, t, s, carrier);
      BaseIs(ctx, p.items[i], carrier, exact, t, s);
    case Jump(_) => JumpMatches(ctx, p, plan, i, tmp, written, exact, t, s, carrier);
    case Branch(_, _, _) => BranchMatches(ctx, p, plan, i, tmp, written, exact, t, s, carrier);
    case Switch(_, _, _) => SwitchMatches(ctx, p, plan, i, tmp, written, exact, t, s, carrier);
    case Ret(_) => RetMatches(ctx, p, plan, i, tmp, written, exact, t, s, carrier);
  }

  lemma BaseIs(ctx: Ctx, item: Item, carrier: Option<nat>, vars: Vars, t: St, s: St)
    ensures Base(ctx, item, carrier, vars, t, s) == if carrier.Some? && Evaluates(ctx, item, carrier.value, vars) then s else t
  {
  }

  /** Where calls are always made, the operands leave the recorded state. */
  lemma BaseSettled(ctx: Ctx, p: Prog, plan: Plan, i: nat, written: Vars, exact: Vars, t: St, s: St, carrier: Option<nat>)
    requires PlanOk(p, plan) && WfProg(p) && i < |p.items| && !p.items[i].Def?
    requires CallsAlwaysRun(p, plan, i) && Related(ctx, p, plan, i, written, exact, t, s, carrier)
    ensures Base(ctx, p.items[i], carrier, exact, t, s) == s
  {
    hide PlanOk, Related, OccItem, WfProg, Occ, OccAll, AnyReached, Reached, RenderAll, Render, AnyCall, AnyArmCalls, Eval;
    CarrierUsed(ctx, p, plan, i, written, exact, t, s, carrier);
    if carrier.Some? {
      var c, item := carrier.value, p.items[i];
      OccItemIs(item);
      if item.Branch? || item.Switch? {
        if Occ(Deciding(item), c) > 0 {
          DecidingArms(p, plan, i);
          Settled(ctx, p, plan, i, Deciding(item), written, exact, t, s, carrier);
        } else {
          var edge := Somewhere(item, c);
          EdgeSettled(ctx, p, plan, i, edge, written, exact, t, s, carrier);
        }
      } else {
        SettledAll(ctx, p, plan, i, Parts(item), written, exact, t, s, carrier);
        if item.Label? || (item.Ret? && item.result.None?) {
          NoNames(item, c);
        } else if item.Effect? || item.Ret? {
          OneReached(ctx, if item.Effect? then item.expr else item.result.value, c, exact);
        }
      }
    }
  }

  // ---------------------------------------------------------------- whole runs

  lemma ItemMatches(ctx: Ctx, p: Prog, plan: Plan, i: nat, tmp: nat, written: Vars, exact: Vars, t: St, s: St, carrier: Option<nat>)
      returns (next: Option<nat>)
    requires PlanOk(p, plan) && WfProg(p) && i < |p.items| && EdgesFit(p, p.items[i])
    requires CallsAlwaysRun(p, plan, i) && Related(ctx, p, plan, i, written, exact, t, s, carrier)
    ensures Matches(ctx, p, plan, i, ExecStmts(ctx, ItemStmts(p, plan, i, tmp).0, written, t), ItemStep(ctx, p, p.items[i], exact, s), next)
  {
    hide *;
    next := None;
    match p.items[i]
    case Def(_, _, kind) =>
      if kind.RngVal? {
        DrawMatches(ctx, p, plan, i, tmp, written, exact, t, s, carrier);
      } else {
        next := DefMatches(ctx, p, plan, i, tmp, written, exact, t, s, carrier);
      }
    case _ =>
      StepMatches(ctx, p, plan, i, tmp, written, exact, t, s, carrier);
      BaseSettled(ctx, p, plan, i, written, exact, t, s, carrier);
  }

  /** Past the last item nothing is left to release. */
  lemma AtEnd(ctx: Ctx, p: Prog, plan: Plan, written: Vars, exact: Vars, t: St, s: St, carrier: Option<nat>)
    requires PlanOk(p, plan) && Related(ctx, p, plan, |p.items|, written, exact, t, s, carrier)
    ensures t == s
  {
    hide PlanOk, OccItem, TreeOf;
    if carrier.Some? {
      var u := PendingUse(p, plan, |p.items|, carrier.value);
    }
  }

  lemma {:induction false} RunsAlike(ctx: Ctx, fuel: nat, p: Prog, plan: Plan, pc: nat, written: Vars, exact: Vars, t: St, s: St, carrier: Option<nat>)
    requires PlanOk(p, plan) && WfProg(p) && pc <= |p.items| && (forall i | 0 <= i < |p.items| :: EdgesFit(p, p.items[i]))
    requires (forall i | 0 <= i < |p.items| :: CallsAlwaysRun(p, plan, i)) && Related(ctx, p, plan, pc, written, exact, t, s, carrier)
    ensures RunC(ctx, fuel, Chunks(p, plan, |p.items|).0, pc, written, t) == RunItems(ctx, fuel, p, pc, exact, s)
    decreases fuel, |p.items| - pc
  {
    hide PlanOk, WfProg, Related, CallsAlwaysRun, EdgesFit, Chunks, ItemStmts, ExecStmts, ItemStep, FindLabel, FindChunk, Agree;
    var chunks := Chunks(p, plan, |p.items|).0;
    if pc == |p.items| {
      AtEnd(ctx, p, plan, written, exact, t, s, carrier);
    } else {
      var tmp := ChunkAt(p, plan, |p.items|, pc);
      var next := ItemMatches(ctx, p, plan, pc, tmp, written, exact, t, s, carrier);
      RunItemsStep(ctx, fuel, p, pc, exact, s);
      var a, b := ExecStmts(ctx, chunks[pc], written, t), ItemStep(ctx, p, p.items[pc], exact, s);
      match a
      case Next(w, t') => RunsAlike(ctx, fuel, p, plan, pc + 1, w, b.vars, t', b.s, next);
      case Leave(_, _) =>
      case GoTo(block, w, t') =>
        SameLabels(p, plan, block, 0);
        var at := FindLabel(p.items, block, 0);
        if at.Some? && fuel > 0 {
          LabelThere(p.items, block, 0);
          LabelRelated(ctx, p, plan, at.value, w, b.vars, b.s);
          RunsAlike(ctx, fuel - 1, p, plan, at.value, w, b.vars, b.s, b.s, None);
        }
    }
  }

  /** Nothing is pending before the first item. */
  lemma StartRelated(ctx: Ctx, p: Prog, plan: Plan, vars: Vars, s: St)
    ensures Related(ctx, p, plan, 0, vars, vars, s, s, None)
  {
    hide OccItem, TreeOf;
  }

  /** Rendering the recorded function with the computed plan preserves its meaning. */
  method RenderFunction(p: Prog) returns (plan: Plan, chunks: seq<seq<CStmt>>)
    requires WfProg(p)
    ensures PlanOk(p, plan) && Maximal(p, plan)
    ensures (forall i | 0 <= i < |p.items| :: CallsAlwaysRun(p, plan, i)) ==>
      forall ctx, fuel, vars, s :: RunC(ctx, fuel, chunks, 0, vars, s) == RunItems(ctx, fuel, p, 0, vars, s)
  {
    hide WfProg, PlanOk, Maximal, CallsAlwaysRun, RunC, RunItems, Chunks;
    plan := Compute(p);
    var renderer := new FoldRenderer(p, plan);
    chunks := renderer.RenderBody();
    if forall i | 0 <= i < |p.items| :: CallsAlwaysRun(p, plan, i) {
      forall ctx, fuel: nat, vars, s ensures RunC(ctx, fuel, chunks, 0, vars, s) == RunItems(ctx, fuel, p, 0, vars, s) {
        StartRelated(ctx, p, plan, vars, s);
        RunsAlike(ctx, fuel, p, plan, 0, vars, vars, s, s, None);
      }
    }
  }

  // ---------------------------------------------------------------- the plan is determined

  /** Only one set of dropped values is both sound and maximal. */
  lemma {:induction false} DropsAgree(p: Prog, a: Plan, b: Plan, v: nat, d: nat)
    requires WfProg(p) && PlanOk(p, a) && PlanOk(p, b) && Maximal(p, a) && Maximal(p, b)
    requires v < p.values && d < |p.items| && IsDef(p.items[d], v)
    ensures a.dropped[v] == b.dropped[v]
    decreases |p.items| - d
  {
    hide OccItem, WfItem;
    if a.dropped[v] && !b.dropped[v] {
      KeptInBoth(p, a, b, v, d);
    } else if b.dropped[v] && !a.dropped[v] {
      KeptInBoth(p, b, a, v, d);
    }
  }

  /** A use that keeps a value in one plan keeps it in the other. */
  lemma {:induction false} KeptInBoth(p: Prog, a: Plan, b: Plan, v: nat, d: nat)
    requires WfProg(p) && PlanOk(p, a) && PlanOk(p, b) && Maximal(p, a) && Maximal(p, b)
    requires v < p.values && d < |p.items| && IsDef(p.items[d], v) && !b.dropped[v]
    ensures !a.dropped[v]
    decreases |p.items| - d, 0
  {
    hide OccItem, WfItem;
    assert DropOk(p, a, v) && KeptForReason(p, b, v, d);
    if a.dropped[v] {
      var i: nat :| i < |p.items| && !DroppedDef(p.items, b.dropped, i) && OccItem(p.items[i], v) > 0;
      WfFacts(p);
      assert d < i && DroppedDef(p.items, a.dropped, i);
      KeptInBoth(p, a, b, p.items[i].id, i);
    }
  }

  /** The decisions of `Compute` are the only sound and maximal ones. */
  lemma PlanUnique(p: Prog, a: Plan, b: Plan)
    requires WfProg(p) && PlanOk(p, a) && PlanOk(p, b) && Maximal(p, a) && Maximal(p, b)
    ensures a.dropped == b.dropped && a.inlined == b.inlined && a.effectInlined == b.effectInlined
  {
    hide OccItem, WfProg;
    forall v: nat | v < p.values ensures a.dropped[v] == b.dropped[v] {
      assert DropOk(p, a, v) && DropOk(p, b, v);
      if a.dropped[v] || b.dropped[v] {
        var d: nat :| d < |p.items| && IsDef(p.items[d], v);
        DropsAgree(p, a, b, v, d);
      }
    }
    forall v: nat | v < p.values ensures a.inlined[v] == b.inlined[v] && a.effectInlined[v] == b.effectInlined[v] {
      if a.inlined[v] {
        InlinedInBoth(p, a, b, v);
      }
      if b.inlined[v] {
        InlinedInBoth(p, b, a, v);
      }
      assert InlineOk(p, a, v) && InlineOk(p, b, v);
    }
  }

  lemma InlinedInBoth(p: Prog, a: Plan, b: Plan, v: nat)
    requires WfProg(p) && PlanOk(p, a) && PlanOk(p, b) && Maximal(p, b) && a.dropped == b.dropped && v < p.values && a.inlined[v]
    ensures b.inlined[v] && a.defItem[v] == b.defItem[v]
  {
    hide OccItem, WfItem;
    assert InlineOk(p, a, v) && InlineOk(p, b, v);
    var d := a.defItem[v].value;
    var u :| FoldsInto(p, a, v, d, u);
    assert FoldsInto(p, b, v, d, u) && Foldable(p, b, v, d);
    DefinedThere(p, b, v);
  }

  // ---------------------------------------------------------------- eager rendering

  lemma {:induction false} EagerRender(p: Prog, defs: seq<Option<nat>>, i: nat, e: Expr)
    requires |defs| == p.values
    ensures Render(p, Disabled(p, defs), i, e) == e
    decreases e, 0
  {
    match e
    case Name(v) =>
    case Lit(_) =>
    case Op(_, args) => EagerRenderAll(p, defs, i, args);
    case Select(x, y, z) =>
      EagerRender(p, defs, i, x);
      EagerRender(p, defs, i, y);
      EagerRender(p, defs, i, z);
    case Load(addr) => EagerRender(p, defs, i, addr);
    case Call(_, args) => EagerRenderAll(p, defs, i, args);
  }

  lemma {:induction false} EagerRenderAll(p: Prog, defs: seq<Option<nat>>, i: nat, es: seq<Expr>)
    requires |defs| == p.values
    ensures RenderAll(p, Disabled(p, defs), i, es) == es
    decreases es, 1
  {
    if es != [] {
      EagerRender(p, defs, i, es[0]);
      EagerRenderAll(p, defs, i, es[1..]);
      assert es == [es[0]] + es[1..];
    }
  }

  lemma {:induction false} PureNoCall(e: Expr)
    requires PureExpr(e)
    ensures !HasCall(e)
    decreases e, 0
  {
    match e
    case Name(_) =>
    case Lit(_) =>
    case Op(_, args) => AllPureNoCall(args);
    case Select(x, y, z) =>
      PureNoCall(x);
      PureNoCall(y);
      PureNoCall(z);
  }

  lemma {:induction false} AllPureNoCall(es: seq<Expr>)
    requires AllPure(es)
    ensures !AnyCall(es) && !AnyArmCalls(es)
    decreases es, 1
  {
    if es != [] {
      PureNoCall(es[0]);
      NoArmInside(es[0]);
      AllPureNoCall(es[1..]);
    }
  }

  lemma {:induction false} SimpleNoArms(e: Expr)
    requires Simple(e)
    ensures !ArmCalls(e)
    decreases e
  {
    if PureExpr(e) {
      PureNoCall(e);
      NoArmInside(e);
    } else if e.Load? {
      PureNoCall(e.addr);
      NoArmInside(e.addr);
    } else if e.Call? {
      AllPureNoCall(e.args);
    } else {
      SimpleNoArms(e.args[0]);
      assert e.args[1..] == [] && !AnyArmCalls(e.args[1..]);
    }
  }

  lemma {:induction false} NoArmsConcat(a: seq<Expr>, b: seq<Expr>)
    ensures AnyArmCalls(a + b) == (AnyArmCalls(a) || AnyArmCalls(b))
    decreases |a|
  {
    if a == [] {
      assert a + b == b;
    } else {
      assert (a + b)[1..] == a[1..] + b;
      NoArmsConcat(a[1..], b);
    }
  }

  lemma {:induction false} NoArmsInCases(p: Prog, cases: seq<Case>)
    requires forall k | 0 <= k < |cases| :: EdgeFits(p, cases[k].edge)
    ensures !AnyArmCalls(CaseArgs(cases))
    decreases |cases|
  {
    if cases != [] {
      AllPureNoCall(cases[0].edge.args);
      NoArmsInCases(p, cases[1..]);
      NoArmsConcat(cases[0].edge.args, CaseArgs(cases[1..]));
    }
  }

  lemma OneArm(e: Expr)
    requires Simple(e)
    ensures !AnyArmCalls([e])
  {
    SimpleNoArms(e);
    assert [e][1..] == [];
  }

  /** What was recorded has its calls in statements of their own. */
  lemma EagerCalls(p: Prog, defs: seq<Option<nat>>, i: nat)
    requires WfProg(p) && |defs| == p.values && i < |p.items|
    ensures CallsAlwaysRun(p, Disabled(p, defs), i)
  {
    hide OccItem, Render, RenderAll, Simple, AnyCall, AnyArmCalls, AllPure;
    assert WfItem(p, i);
    EagerRenderAll(p, defs, i, Parts(p.items[i]));
    match p.items[i]
    case Def(_, expr, _) => OneArm(expr);
    case Effect(expr) => OneArm(expr);
    case Store(place, val) =>
      OneArm(place);
      OneArm(val);
      NoArmsConcat([place], [val]);
      assert [place] + [val] == [place, val];
    case Label(_) => AllPureNoCall([]);
    case Jump(edge) => AllPureNoCall(edge.args);
    case Branch(cond, yes, no) =>
      OneArm(cond);
      EagerEdge(p, defs, i, yes);
      EagerEdge(p, defs, i, no);
      NoArmsConcat([cond], yes.args);
      NoArmsConcat([cond] + yes.args, no.args);
    case Switch(index, cases, fallback) =>
      OneArm(index);
      EagerEdge(p, defs, i, fallback);
      forall k | 0 <= k < |cases| ensures !AnyCall(RenderAll(p, Disabled(p, defs), i, cases[k].edge.args)) {
        EagerEdge(p, defs, i, cases[k].edge);
      }
      NoArmsInCases(p, cases);
      NoArmsConcat([index], CaseArgs(cases));
      NoArmsConcat([index] + CaseArgs(cases), fallback.args);
    case Ret(result) =>
      if result.Some? {
        OneArm(result.value);
      } else {
        AllPureNoCall([]);
      }
  }

  lemma EagerEdge(p: Prog, defs: seq<Option<nat>>, i: nat, edge: Edge)
    requires EdgeFits(p, edge) && |defs| == p.values
    ensures !AnyCall(RenderAll(p, Disabled(p, defs), i, edge.args)) && !AnyArmCalls(edge.args)
  {
    EagerRenderAll(p, defs, i, edge.args);
    AllPureNoCall(edge.args);
  }

  /** Without folding the C always means what was recorded. */
  lemma EagerFaithful(ctx: Ctx, fuel: nat, p: Prog, defs: seq<Option<nat>>, vars: Vars, s: St)
    requires WfProg(p) && |defs| == p.values && forall i | 0 <= i < |p.items| :: EdgesFit(p, p.items[i])
    ensures RunC(ctx, fuel, Chunks(p, Disabled(p, defs), |p.items|).0, 0, vars, s) == RunItems(ctx, fuel, p, 0, vars, s)
  {
    hide WfProg, CallsAlwaysRun, RunC, RunItems, Chunks, PlanOk, Disabled;
    var plan := Disabled(p, defs);
    DisabledOk(p, defs);
    forall i | 0 <= i < |p.items| ensures CallsAlwaysRun(p, plan, i) {
      EagerCalls(p, defs, i);
    }
    StartRelated(ctx, p, plan, vars, s);
    RunsAlike(ctx, fuel, p, plan, 0, vars, vars, s, s, None);
  }

  /** Folding does not change what the C does. */
  lemma FoldingIsInvisible(ctx: Ctx, fuel: nat, p: Prog, plan: Plan, defs: seq<Option<nat>>, vars: Vars, s: St)
    requires WfProg(p) && PlanOk(p, plan) && |defs| == p.values && forall i | 0 <= i < |p.items| :: EdgesFit(p, p.items[i])
    requires forall i | 0 <= i < |p.items| :: CallsAlwaysRun(p, plan, i)
    ensures RunC(ctx, fuel, Chunks(p, plan, |p.items|).0, 0, vars, s)
      == RunC(ctx, fuel, Chunks(p, Disabled(p, defs), |p.items|).0, 0, vars, s)
  {
    hide WfProg, CallsAlwaysRun, RunC, RunItems, Chunks, PlanOk, Disabled;
    EagerFaithful(ctx, fuel, p, defs, vars, s);
    StartRelated(ctx, p, plan, vars, s);
    RunsAlike(ctx, fuel, p, plan, 0, vars, vars, s, s, None);
  }

  // ---------------------------------------------------------------- where folding does change meaning

  /** `v0 = f7(); return 0 ? v0 : 5;` */
  function ArmProgram(): Prog {
    Prog([Def(0, Call(7, []), CallRet), Ret(Some(Select(Lit(0), Name(0), Lit(5))))], [], 1)
  }

  lemma ArmProgramNames(v: nat)
    ensures OccItem(ArmProgram().items[0], v) == 0
    ensures OccItem(ArmProgram().items[1], v) == if v == 0 then 1 else 0
  {
    var e := Select(Lit(0), Name(0), Lit(5));
    OccOne(Call(7, []), v);
    OccOne(e, v);
    assert Parts(ArmProgram().items[1]) == [e] && Parts(ArmProgram().items[0]) == [Call(7, [])];
  }

  lemma ArmProgramFine()
    ensures WfProg(ArmProgram())
  {
    hide OccItem;
    var p := ArmProgram();
    forall i: nat | i < 2 ensures WfItem(p, i) {
      forall v: nat ensures OccItem(p.items[i], v) > 0 ==> v == 0 && i == 1 {
        ArmProgramNames(v);
      }
    }
  }

  /** A call folded into an arm of a select is lost when the other arm is chosen. */
  lemma ArmLosesCall(ctx: Ctx, fuel: nat, plan: Plan, vars: Vars, s: St)
    requires PlanOk(ArmProgram(), plan) && Maximal(ArmProgram(), plan)
    ensures WfProg(ArmProgram()) && !CallsAlwaysRun(ArmProgram(), plan, 1)
    ensures RunC(ctx, fuel, Chunks(ArmProgram(), plan, 2).0, 0, vars, s) == Returned(Some(5), s)
    ensures RunItems(ctx, fuel, ArmProgram(), 0, vars, s).Returned?
    ensures RunItems(ctx, fuel, ArmProgram(), 0, vars, s).s.log == s.log + [Called(7, [])]
  {
    hide *;
    ArmProgramFine();
    ArmPlan(plan);
    ArmRendered(plan);
    ArmRun(ctx, fuel, plan, vars, s);
    ArmRecorded(ctx, fuel, vars, s);
  }

  function ArmValue(): Expr {
    Select(Lit(0), Call(7, []), Lit(5))
  }

  lemma ArmRendered(plan: Plan)
    requires |plan.dropped| == |plan.inlined| == |plan.defItem| == 1 && !plan.dropped[0] && plan.inlined[0] && plan.defItem[0] == Some(0)
    ensures !CallsAlwaysRun(ArmProgram(), plan, 1)
    ensures Chunks(ArmProgram(), plan, 2).0 == [[], [CReturn(Some(ArmValue()))]]
  {
    hide OccItem, Eval, EvalAll;
    var p, e := ArmProgram(), Select(Lit(0), Name(0), Lit(5));
    assert Folded(p, plan, 1, 0) && Render(p, plan, 1, e) == ArmValue();
    assert Parts(p.items[1]) == [e];
    assert RenderAll(p, plan, 1, [e])[0] == ArmValue();
    assert AnyArmCalls(RenderAll(p, plan, 1, Parts(p.items[1])));
    assert Chunks(p, plan, 0) == ([], 0) && ItemStmts(p, plan, 0, 0) == ([], 0);
    assert Chunks(p, plan, 1).0 == [[]];
  }

  lemma ArmRun(ctx: Ctx, fuel: nat, plan: Plan, vars: Vars, s: St)
    requires Chunks(ArmProgram(), plan, 2).0 == [[], [CReturn(Some(ArmValue()))]]
    ensures RunC(ctx, fuel, Chunks(ArmProgram(), plan, 2).0, 0, vars, s) == Returned(Some(5), s)
  {
    hide Chunks, ArmProgram;
    var chunks := [[], [CReturn(Some(ArmValue()))]];
    ExecOne(ctx, CReturn(Some(ArmValue())), vars, s);
    assert Eval(ctx, ArmValue(), vars, s) == (5, s);
    assert RunC(ctx, fuel, chunks, 1, vars, s) == Returned(Some(5), s);
    assert ExecStmts(ctx, chunks[0], vars, s) == Next(vars, s);
    assert RunC(ctx, fuel, chunks, 0, vars, s) == Returned(Some(5), s);
  }

  lemma ArmRecorded(ctx: Ctx, fuel: nat, vars: Vars, s: St)
    ensures RunItems(ctx, fuel, ArmProgram(), 0, vars, s).Returned?
    ensures RunItems(ctx, fuel, ArmProgram(), 0, vars, s).s.log == s.log + [Called(7, [])]
  {
    var p := ArmProgram();
    var none: seq<Expr> := [];
    assert EvalAll(ctx, none, vars, s) == ([], s);
    RunItemsStep(ctx, fuel, p, 0, vars, s);
  }

  lemma ArmPlan(plan: Plan)
    requires PlanOk(ArmProgram(), plan) && Maximal(ArmProgram(), plan)
    ensures |plan.dropped| == |plan.inlined| == |plan.defItem| == 1
    ensures !plan.dropped[0] && plan.inlined[0] && plan.defItem[0] == Some(0)
  {
    hide OccItem;
    var p := ArmProgram();
    assert IsDef(p.items[0], 0) && DropOk(p, plan, 0) && InlineOk(p, plan, 0);
    ArmProgramNames(0);
    assert FoldsInto(p, plan, 0, 0, 1);
    assert Foldable(p, plan, 0, 0);
  }

  /** `v0 = f7(); if (0) goto b0(v0) else goto b0(5); b0(v1): return v1;` */
  function EdgeProgram(): Prog {
    Prog([Def(0, Call(7, []), CallRet), Branch(Lit(0), Edge(0, [Name(0)]), Edge(0, [Lit(5)])), Label(0), Ret(Some(Name(1)))], [[1]], 2)
  }

  lemma EdgeProgramNames(v: nat)
    ensures OccItem(EdgeProgram().items[0], v) == 0 && OccItem(EdgeProgram().items[2], v) == 0
    ensures OccItem(EdgeProgram().items[1], v) == if v == 0 then 1 else 0
    ensures OccItem(EdgeProgram().items[3], v) == if v == 1 then 1 else 0
  {
    hide OccAll;
    var p := EdgeProgram();
    assert Parts(p.items[0]) == [Call(7, [])] && Parts(p.items[1]) == [Lit(0)] + [Name(0)] + [Lit(5)] && Parts(p.items[3]) == [Name(1)];
    OccOne(Call(7, []), v);
    OccOne(Lit(0), v);
    OccOne(Name(0), v);
    OccOne(Lit(5), v);
    OccOne(Name(1), v);
    OccAllConcat([Lit(0)], [Name(0)], v);
    OccAllConcat([Lit(0)] + [Name(0)], [Lit(5)], v);
    NoNames(p.items[2], v);
    NoneNamed(v);
  }

  lemma NoneNamed(v: nat)
    ensures Occ(Call(7, []), v) == 0 == Occ(Lit(5), v)
  {
    assert OccAll([], v) == 0;
  }

  lemma EdgeProgramFine()
    ensures WfProg(EdgeProgram())
  {
    hide OccItem;
    var p := EdgeProgram();
    forall i: nat | i < 4 ensures WfItem(p, i) {
      forall v: nat ensures OccItem(p.items[i], v) > 0 ==> (v == 0 && i == 1) || (v == 1 && i == 3) {
        EdgeProgramNames(v);
      }
      PureArgs(Name(0));
      PureArgs(Lit(5));
    }
  }

  lemma PureArgs(e: Expr)
    requires PureExpr(e)
    ensures AllPure([e])
  {
    assert [e][1..] == [];
  }

  lemma EdgePlan(plan: Plan)
    requires PlanOk(EdgeProgram(), plan) && Maximal(EdgeProgram(), plan)
    ensures !plan.dropped[0] && plan.inlined[0] && plan.defItem[0] == Some(0)
  {
    hide OccItem;
    var p := EdgeProgram();
    assert IsDef(p.items[0], 0) && DropOk(p, plan, 0) && InlineOk(p, plan, 0);
    EdgeProgramNames(0);
    assert FoldsInto(p, plan, 0, 0, 1);
    assert Foldable(p, plan, 0, 0);
  }

  /** What the branch of `EdgeProgram` writes once the call was folded into its first edge. */
  function EdgeBranch(): CStmt {
    CIf(Lit(0), [CSet(1, Call(7, [])), CGoto(0)], [CSet(1, Lit(5)), CGoto(0)])
  }

  /** A call folded into an edge that is not taken is lost: the branch itself never makes it. */
  lemma EdgeLosesCall(ctx: Ctx, tmp: nat, plan: Plan, vars: Vars, s: St)
    requires PlanOk(EdgeProgram(), plan) && Maximal(EdgeProgram(), plan)
    ensures WfProg(EdgeProgram()) && !CallsAlwaysRun(EdgeProgram(), plan, 1)
    ensures ItemStmts(EdgeProgram(), plan, 0, tmp).0 == [] && ItemStmts(EdgeProgram(), plan, 1, tmp).0 == [EdgeBranch()]
    ensures ExecStmts(ctx, [EdgeBranch()], vars, s) == GoTo(0, vars[Val(1) := 5], s)
    ensures ItemStep(ctx, EdgeProgram(), EdgeProgram().items[0], vars, s).s.log == s.log + [Called(7, [])]
  {
    EdgeProgramFine();
    EdgePlan(plan);
    EdgeRendered(tmp, plan);
    EdgeRun(ctx, vars, s);
    var none: seq<Expr> := [];
    assert EvalAll(ctx, none, vars, s) == ([], s);
  }

  lemma EdgeRun(ctx: Ctx, vars: Vars, s: St)
    ensures ExecStmts(ctx, [EdgeBranch()], vars, s) == GoTo(0, vars[Val(1) := 5], s)
  {
    var no := [CSet(1, Lit(5)), CGoto(0)];
    assert no[1..] == [CGoto(0)];
    ExecOne(ctx, CGoto(0), vars[Val(1) := 5], s);
    ExecOne(ctx, EdgeBranch(), vars, s);
    assert ExecStmts(ctx, no, vars, s) == GoTo(0, vars[Val(1) := 5], s);
  }

  lemma EdgeRendered(tmp: nat, plan: Plan)
    requires |plan.dropped| == |plan.inlined| == |plan.defItem| == 2 && !plan.dropped[0] && plan.inlined[0] && plan.defItem[0] == Some(0)
    ensures EdgesFit(EdgeProgram(), EdgeProgram().items[0]) && EdgesFit(EdgeProgram(), EdgeProgram().items[1])
    ensures !CallsAlwaysRun(EdgeProgram(), plan, 1)
    ensures ItemStmts(EdgeProgram(), plan, 0, tmp).0 == [] && ItemStmts(EdgeProgram(), plan, 1, tmp).0 == [EdgeBranch()]
  {
    hide OccItem, Eval, EvalAll;
    var p := EdgeProgram();
    PureArgs(Name(0));
    PureArgs(Lit(5));
    assert Folded(p, plan, 1, 0) && Render(p, plan, 1, Name(0)) == Call(7, []);
    EdgeArgument(plan, Name(0), Call(7, []), tmp);
    EdgeArgument(plan, Lit(5), Lit(5), tmp);
  }

  lemma EdgeArgument(plan: Plan, arg: Expr, shown: Expr, tmp: nat)
    requires EdgeFits(EdgeProgram(), Edge(0, [arg])) && Render(EdgeProgram(), plan, 1, arg) == shown && (shown == Lit(5) || shown == Call(7, []))
    ensures EdgeStmts(EdgeProgram(), plan, 1, Edge(0, [arg]), tmp) == [CSet(1, shown), CGoto(0)]
    ensures TmpAfterEdge(EdgeProgram(), plan, 1, Edge(0, [arg]), tmp) == tmp
    ensures AnyCall(RenderAll(EdgeProgram(), plan, 1, [arg])) == shown.Call?
  {
    hide OccItem, Render, RenderAll, EdgeFits, OccAll, Occ;
    var p := EdgeProgram();
    assert RenderAll(p, plan, 1, [arg]) == [shown] by {
      hide *;
      Single(Ctx((a, b) => 0, (a, b) => (0, a), a => 0), p, plan, 1, arg, map[], St(map[], []));
    }
    assert [shown][1..] == [];
    NoneNamed(1);
    assert Occ(shown, 1) == 0;
    OneSet(1, shown);
    assert p.params[0] == [1];
  }

  lemma OneSet(param: nat, shown: Expr)
    requires Occ(shown, param) == 0
    ensures !Hazard([param], [shown]) && DirectSets([param], [shown], 1) == [CSet(param, shown)]
  {
    hide OccAll, Occ;
    var params, rendered := [param], [shown];
    OccOne(shown, param);
    assert DirectSets(params, rendered, 0) == [];
    assert DirectSets(params, rendered, 1) == DirectSets(params, rendered, 0) + [CSet(params[0], rendered[0])];
  }
}
