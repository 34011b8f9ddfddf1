/**
 One rendered statement, exactly: it does what the recorded item does from the state its operands leave, and
 that is the recorded state if and only if the place of the pending call is evaluated.
 */
module CExact {
  import opened Common
  import opened CProgram
  import opened CFolding
  import opened CRender
  import opened CPreserve
  import opened CFaithful

  /** Item `i` has statements of its own. */
  predicate IsWritten(p: Prog, plan: Plan, i: nat)
    requires i < |p.items|
  {
    p.items[i].Def? ==> Kept(plan, p.items[i].id)
  }

  predicate Kept(plan: Plan, v: nat) {
    v < |plan.dropped| && v < |plan.inlined| && !plan.dropped[v] && !plan.inlined[v]
  }

  /** Both go the same way with the same state and the same materialized values. */
  ghost predicate SameEnd(p: Prog, plan: Plan, written: Step, exact: Step) {
    match written
    case Next(w, t) => exact.Next? && exact.s == t && Agree(p, plan, w, exact.vars)
    case GoTo(block, w, t) => exact.GoTo? && exact.block == block && exact.s == t && Agree(p, plan, w, exact.vars)
    case Leave(value, t) => exact.Leave? && exact.value == value && exact.s == t
  }

  // ---------------------------------------------------------------- what evaluation adds to the log

  lemma {:induction false} LogGrows(ctx: Ctx, e: Expr, vars: Vars, s: St)
    ensures |Eval(ctx, e, vars, s).1.log| >= |s.log|
    decreases e, 0
  {
    match e
    case Name(_) =>
    case Lit(_) =>
    case Op(_, args) => LogGrowsAll(ctx, args, vars, s);
    case Select(x, y, z) =>
      LogGrows(ctx, x, vars, s);
      var r := Eval(ctx, x, vars, s);
      LogGrows(ctx, y, vars, r.1);
      LogGrows(ctx, z, vars, r.1);
    case Load(addr) => LogGrows(ctx, addr, vars, s);
    case Call(_, args) => LogGrowsAll(ctx, args, vars, s);
  }

  lemma {:induction false} LogGrowsAll(ctx: Ctx, es: seq<Expr>, vars: Vars, s: St)
    ensures |EvalAll(ctx, es, vars, s).1.log| >= |s.log|
    decreases es, 1
  {
    if es != [] {
      LogGrows(ctx, es[0], vars, s);
      LogGrowsAll(ctx, es[1..], vars, Eval(ctx, es[0], vars, s).1);
    }
  }

  /** A definition that calls logs its call, however its operands were rendered. */
  lemma {:induction false} CallLogs(ctx: Ctx, p: Prog, plan: Plan, i: nat, e: Expr, vars: Vars, s: St)
    requires Simple(e) && HasCall(e)
    ensures |Eval(ctx, Render(p, plan, i, e), vars, s).1.log| > |s.log|
    decreases e
  {
    if e.Call? {
      LogGrowsAll(ctx, RenderAll(p, plan, i, e.args), vars, s);
    } else {
      PureEval(ctx, e, vars, s, s);
      if e.Load? {
        PureEval(ctx, e.addr, vars, s, s);
      } else {
        var x := e.args[0];
        assert e.args == [x];
        Single(ctx, p, plan, i, x, vars, s);
        OneEval(ctx, Render(p, plan, i, x), vars, s);
        CallLogs(ctx, p, plan, i, x, vars, s);
      }
    }
  }

  /** What an expression of a statement logs itself does not depend on the state. */
  lemma {:induction false} OwnLog(ctx: Ctx, e: Expr, vars: Vars, a: St, b: St)
    requires Simple(e)
    ensures |Eval(ctx, e, vars, a).1.log| - |a.log| == |Eval(ctx, e, vars, b).1.log| - |b.log|
    decreases e
  {
    if PureExpr(e) {
      PureEval(ctx, e, vars, a, b);
      PureEval(ctx, e, vars, b, a);
    } else if e.Load? {
      PureEval(ctx, e.addr, vars, a, b);
      PureEval(ctx, e.addr, vars, b, a);
    } else if e.Call? && AllPure(e.args) {
      PureEvalAll(ctx, e.args, vars, a, b);
      PureEvalAll(ctx, e.args, vars, b, a);
    } else {
      var x := e.args[0];
      assert e.args == [x];
      OneEval(ctx, x, vars, a);
      OneEval(ctx, x, vars, b);
      OwnLog(ctx, x, vars, a, b);
    }
  }

  lemma OneEval(ctx: Ctx, e: Expr, vars: Vars, s: St)
    ensures EvalAll(ctx, [e], vars, s).1 == Eval(ctx, e, vars, s).1
  {
    assert [e][1..] == [];
  }

  lemma StepLog(ctx: Ctx, p: Prog, i: nat, vars: Vars, a: St, b: St)
    requires WfProg(p) && i < |p.items| && EdgesFit(p, p.items[i])
    ensures |ItemStep(ctx, p, p.items[i], vars, a).s.log| - |a.log| == |ItemStep(ctx, p, p.items[i], vars, b).s.log| - |b.log|
  {
    hide WfProg, Eval, EvalAll, OccItem, AssignParams, PureExpr, AllPure, Simple;
    ItemShape(p, i);
    match p.items[i]
    case Def(_, expr, _) =>
      DefShape(p, i);
      OwnLog(ctx, expr, vars, a, b);
    case Effect(expr) => OwnLog(ctx, expr, vars, a, b);
    case Store(place, val) =>
      PureEval(ctx, place, vars, a, b);
      PureEval(ctx, place, vars, b, a);
      PureEval(ctx, val, vars, a, b);
      PureEval(ctx, val, vars, b, a);
    case Label(_) =>
    case Jump(edge) => EdgeLog(ctx, p, edge, vars, a, b);
    case Branch(cond, yes, no) =>
      PureEval(ctx, cond, vars, a, b);
      PureEval(ctx, cond, vars, b, a);
      EdgeLog(ctx, p, yes, vars, a, b);
      EdgeLog(ctx, p, no, vars, a, b);
    case Switch(index, cases, fallback) =>
      PureEval(ctx, index, vars, a, b);
      PureEval(ctx, index, vars, b, a);
      var x := Eval(ctx, index, vars, a).0;
      ChosenFits(p, x, cases, fallback);
      EdgeLog(ctx, p, ChooseEdge(x, cases, fallback), vars, a, b);
    case Ret(result) =>
      if result.Some? {
        PureEval(ctx, result.value, vars, a, b);
        PureEval(ctx, result.value, vars, b, a);
      }
  }

  lemma EdgeLog(ctx: Ctx, p: Prog, edge: Edge, vars: Vars, a: St, b: St)
    requires EdgeFits(p, edge)
    ensures EdgeStep(ctx, p, edge, vars, a).s.log == a.log && EdgeStep(ctx, p, edge, vars, b).s.log == b.log
  {
    PureEvalAll(ctx, edge.args, vars, a, b);
    PureEvalAll(ctx, edge.args, vars, b, a);
  }

  // ---------------------------------------------------------------- the statement

  lemma DefEnds(ctx: Ctx, p: Prog, plan: Plan, i: nat, tmp: nat, written: Vars, exact: Vars, t: St, s: St, carrier: Option<nat>)
    requires PlanOk(p, plan) && WfProg(p) && i < |p.items| && p.items[i].Def? && IsWritten(p, plan, i)
    requires Related(ctx, p, plan, i, written, exact, t, s, carrier)
    ensures SameEnd(p, plan, ExecStmts(ctx, ItemStmts(p, plan, i, tmp).0, written, t),
      ItemStep(ctx, p, p.items[i], exact, Base(ctx, p.items[i], carrier, exact, t, s)))
  {
    hide PlanOk, Related, OccItem, WfProg, Render, Eval, Simple, Pending;
    var id, expr := p.items[i].id, p.items[i].expr;
    var base := Base(ctx, p.items[i], carrier, exact, t, s);
    RelatedAgree(ctx, p, plan, i, written, exact, t, s, carrier);
    ItemShape(p, i);
    if p.items[i].kind.RngVal? {
      var log := t.log + [Drew];
      ExecOne(ctx, CDraw(id), written, t);
      AgreeSet(p, plan, written, exact, id, ctx.rng(log));
    } else {
      DefUsable(p, plan, i);
      DefShape(p, i);
      CarrierOnce(ctx, p, plan, i, written, exact, t, s, carrier);
      PlaceSimple(ctx, p, plan, i, expr, written, exact, t, s, carrier);
      ExecOne(ctx, CSet(id, Render(p, plan, i, expr)), written, t);
      AgreeSet(p, plan, written, exact, id, Eval(ctx, expr, exact, base).0);
    }
  }

  /**
   A statement does what the recorded item does from the state its operands leave. While a call is held back, it
   ends with the recorded log exactly when running it evaluates the place of the value that holds it.
   */
  lemma StatementExactly(ctx: Ctx, p: Prog, plan: Plan, i: nat, tmp: nat, written: Vars, exact: Vars, t: St, s: St, carrier: Option<nat>)
    requires PlanOk(p, plan) && WfProg(p) && i < |p.items| && EdgesFit(p, p.items[i]) && IsWritten(p, plan, i)
    requires Related(ctx, p, plan, i, written, exact, t, s, carrier)
    ensures SameEnd(p, plan, ExecStmts(ctx, ItemStmts(p, plan, i, tmp).0, written, t),
      ItemStep(ctx, p, p.items[i], exact, Base(ctx, p.items[i], carrier, exact, t, s)))
    ensures carrier.Some? && |t.log| < |s.log| ==>
      (SameLog(ExecStmts(ctx, ItemStmts(p, plan, i, tmp).0, written, t), ItemStep(ctx, p, p.items[i], exact, s)) <==>
       Evaluates(ctx, p.items[i], carrier.value, exact))
  {
    hide *;
    BaseIs(ctx, p.items[i], carrier, exact, t, s);
    if p.items[i].Def? {
      DefEnds(ctx, p, plan, i, tmp, written, exact, t, s, carrier);
    } else {
      StepMatches(ctx, p, plan, i, tmp, written, exact, t, s, carrier);
      MatchesEnd(ctx, p, plan, i, ExecStmts(ctx, ItemStmts(p, plan, i, tmp).0, written, t),
        ItemStep(ctx, p, p.items[i], exact, Base(ctx, p.items[i], carrier, exact, t, s)));
    }
    EndState(p, plan, ExecStmts(ctx, ItemStmts(p, plan, i, tmp).0, written, t),
      ItemStep(ctx, p, p.items[i], exact, Base(ctx, p.items[i], carrier, exact, t, s)));
    StepLog(ctx, p, i, exact, t, s);
    SameLogIs(ExecStmts(ctx, ItemStmts(p, plan, i, tmp).0, written, t), ItemStep(ctx, p, p.items[i], exact, s));
  }

  predicate SameLog(a: Step, b: Step) {
    a.s.log == b.s.log
  }

  lemma SameLogIs(a: Step, b: Step)
    ensures SameLog(a, b) <==> a.s.log == b.s.log
  {
  }

  lemma MatchesEnd(ctx: Ctx, p: Prog, plan: Plan, i: nat, written: Step, exact: Step)
    requires Matches(ctx, p, plan, i, written, exact, None)
    ensures SameEnd(p, plan, written, exact)
  {
    hide Agree, Related;
    if written.Next? {
      RelatedAgree(ctx, p, plan, i + 1, written.vars, exact.vars, written.s, exact.s, None);
      NoneHeld(ctx, p, plan, i + 1, written.vars, exact.vars, written.s, exact.s);
    }
  }

  lemma NoneHeld(ctx: Ctx, p: Prog, plan: Plan, i: nat, written: Vars, exact: Vars, t: St, s: St)
    requires Related(ctx, p, plan, i, written, exact, t, s, None)
    ensures t == s
  {
    hide Pending, TreeOf;
  }

  lemma EndState(p: Prog, plan: Plan, written: Step, exact: Step)
    requires SameEnd(p, plan, written, exact)
    ensures written.s == exact.s
  {
  }

  /** A folded call is held back: the recorded run has logged it, the rendered one has not yet. */
  lemma CallHeldBack(ctx: Ctx, p: Prog, plan: Plan, i: nat, written: Vars, exact: Vars, t: St, s: St, carrier: Option<nat>)
    requires WfProg(p) && Related(ctx, p, plan, i, written, exact, t, s, carrier)
    requires carrier.Some? && HasCall(p.items[plan.defItem[carrier.value].value].expr)
    ensures |s.log| > |t.log|
  {
    hide OccItem, WfProg, Render, Eval, Simple, HasCall;
    var d := plan.defItem[carrier.value].value;
    DefShape(p, d);
    CallLogs(ctx, p, plan, d, p.items[d].expr, written, t);
  }
}
