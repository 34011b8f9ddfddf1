/**
 Folding preserves meaning: the rendered C performs the same calls, random draws and stores in the
 same order with the same values and returns the same value, as long as no call was folded into an
 arm of a select or into an argument of one edge of a branch or switch.
 */
module CPreserve {
  import opened Common
  import opened CProgram
  import opened CFolding
  import opened CRender

  // ---------------------------------------------------------------- the hypothesis, on what was written

  /** Some arm of a select contains a call. */
  predicate ArmCalls(e: Expr)
    decreases e, 0
  {
    match e
    case Name(_) => false
    case Lit(_) => false
    case Op(_, args) => AnyArmCalls(args)
    case Select(c, t, f) => HasCall(t) || HasCall(f) || ArmCalls(c)
    case Load(addr) => ArmCalls(addr)
    case Call(_, args) => AnyArmCalls(args)
  }

  predicate AnyArmCalls(es: seq<Expr>)
    decreases es, 1
  {
    es != [] && (ArmCalls(es[0]) || AnyArmCalls(es[1..]))
  }

  /** The calls of item `i`, as rendered, are evaluated whenever the item is. */
  ghost predicate CallsAlwaysRun(p: Prog, plan: Plan, i: nat)
    requires i < |p.items|
  {
    && !AnyArmCalls(RenderAll(p, plan, i, Parts(p.items[i])))
    && match p.items[i]
       case Branch(_, yes, no) => !AnyCall(RenderAll(p, plan, i, yes.args)) && !AnyCall(RenderAll(p, plan, i, no.args))
       case Switch(_, cases, fallback) =>
         && !AnyCall(RenderAll(p, plan, i, fallback.args))
         && forall k | 0 <= k < |cases| :: !AnyCall(RenderAll(p, plan, i, cases[k].edge.args))
       case _ => true
  }

  // ---------------------------------------------------------------- evaluation and names

  /** Evaluation depends only on the variables an expression names. */
  lemma {:induction false} EvalFrame(ctx: Ctx, e: Expr, a: Vars, b: Vars, s: St)
    requires forall v: nat | Occ(e, v) > 0 :: Get(a, Val(v)) == Get(b, Val(v))
    ensures Eval(ctx, e, a, s) == Eval(ctx, e, b, s)
    decreases e, 0
  {
    match e
    case Name(id) => assert Occ(e, id) > 0;
    case Lit(_) =>
    case Op(_, args) =>
      assert forall v: nat :: Occ(e, v) == OccAll(args, v);
      EvalAllFrame(ctx, args, a, b, s);
    case Select(c, t, f) =>
      assert forall v: nat :: Occ(e, v) == Occ(c, v) + Occ(t, v) + Occ(f, v);
      EvalFrame(ctx, c, a, b, s);
      var r := Eval(ctx, c, a, s);
      EvalFrame(ctx, t, a, b, r.1);
      EvalFrame(ctx, f, a, b, r.1);
    case Load(addr) =>
      assert forall v: nat :: Occ(e, v) == Occ(addr, v);
      EvalFrame(ctx, addr, a, b, s);
    case Call(_, args) =>
      assert forall v: nat :: Occ(e, v) == OccAll(args, v);
      EvalAllFrame(ctx, args, a, b, s);
  }

  lemma {:induction false} EvalAllFrame(ctx: Ctx, es: seq<Expr>, a: Vars, b: Vars, s: St)
    requires forall v: nat | OccAll(es, v) > 0 :: Get(a, Val(v)) == Get(b, Val(v))
    ensures EvalAll(ctx, es, a, s) == EvalAll(ctx, es, b, s)
    decreases es, 1
  {
    if es != [] {
      assert forall v: nat :: OccAll(es, v) == Occ(es[0], v) + OccAll(es[1..], v);
      EvalFrame(ctx, es[0], a, b, s);
      EvalAllFrame(ctx, es[1..], a, b, Eval(ctx, es[0], a, s).1);
    }
  }

  /** Without calls the state stays; pure expressions do not even look at it. */
  lemma {:induction false} PureEval(ctx: Ctx, e: Expr, vars: Vars, s: St, t: St)
    ensures !HasCall(e) ==> Eval(ctx, e, vars, s).1 == s
    ensures PureExpr(e) ==> !HasCall(e) && Eval(ctx, e, vars, s) == (Eval(ctx, e, vars, t).0, s)
    decreases e, 0
  {
    match e
    case Name(_) =>
    case Lit(_) =>
    case Op(_, args) => PureEvalAll(ctx, args, vars, s, t);
    case Select(c, x, y) =>
      PureEval(ctx, c, vars, s, t);
      if !HasCall(e) {
        PureEval(ctx, x, vars, s, if PureExpr(e) then Eval(ctx, c, vars, t).1 else t);
        PureEval(ctx, y, vars, s, if PureExpr(e) then Eval(ctx, c, vars, t).1 else t);
      } else {
        PureEval(ctx, x, vars, s, t);
        PureEval(ctx, y, vars, s, t);
      }
    case Load(addr) => PureEval(ctx, addr, vars, s, t);
    case Call(_, _) =>
  }

  lemma {:induction false} PureEvalAll(ctx: Ctx, es: seq<Expr>, vars: Vars, s: St, t: St)
    ensures !AnyCall(es) ==> EvalAll(ctx, es, vars, s).1 == s
    ensures AllPure(es) ==> !AnyCall(es) && EvalAll(ctx, es, vars, s) == (EvalAll(ctx, es, vars, t).0, s)
    decreases es, 1
  {
    if es != [] {
      PureEval(ctx, es[0], vars, s, t);
      if AllPure(es) {
        PureEvalAll(ctx, es[1..], vars, s, Eval(ctx, es[0], vars, t).1);
      } else {
        PureEvalAll(ctx, es[1..], vars, s, t);
      }
    }
  }

  // ---------------------------------------------------------------- the relation between the two runs

  /** `v` was folded, its definition is behind, its use at item `i` or later. */
  ghost predicate Pending(p: Prog, plan: Plan, i: nat, v: nat) {
    && v < p.values && |plan.inlined| == p.values == |plan.defItem| && plan.inlined[v] && plan.defItem[v].Some?
    && plan.defItem[v].value < i && plan.defItem[v].value < |p.items| && p.items[plan.defItem[v].value].Def?
    && forall j | 0 <= j < i && j < |p.items| :: OccItem(p.items[j], v) == 0
  }

  /** Evaluates to `value` in any state, and changes none. */
  ghost predicate Steady(ctx: Ctx, e: Expr, vars: Vars, value: int) {
    forall s {:trigger Eval(ctx, e, vars, s)} :: Eval(ctx, e, vars, s) == (value, s)
  }

  /** The definition tree of a folded value. */
  function TreeOf(p: Prog, plan: Plan, v: nat): Expr
    requires v < |plan.defItem| && plan.defItem[v].Some? && plan.defItem[v].value < |p.items| && p.items[plan.defItem[v].value].Def?
  {
    Render(p, plan, plan.defItem[v].value, p.items[plan.defItem[v].value].expr)
  }

  /**
   Before item `i`: `written` are the C variables and `t` the state of the rendered program,
   `exact` and `s` those of the recorded one. At most one folded value, the carrier, still holds a
   read or a call back; evaluating it brings `t` to `s`.
   */
  ghost predicate Related(ctx: Ctx, p: Prog, plan: Plan, i: nat, written: Vars, exact: Vars, t: St, s: St, carrier: Option<nat>) {
    && (forall v: nat | v < p.values && v < |plan.inlined| && v < |plan.dropped| && !plan.inlined[v] && !plan.dropped[v] ::
          Get(written, Val(v)) == Get(exact, Val(v)))
    && (forall v: nat | Pending(p, plan, i, v) && Some(v) != carrier :: Steady(ctx, TreeOf(p, plan, v), written, Get(exact, Val(v))))
    && (carrier.Some? ==>
          && Pending(p, plan, i, carrier.value)
          && Eval(ctx, TreeOf(p, plan, carrier.value), written, t) == (Get(exact, Val(carrier.value)), s))
    && (carrier.None? || !HasCall(TreeOf(p, plan, carrier.value)) ==> t == s)
  }

  /** What an expression of item `i` may name: materialized values and pending ones. */
  ghost predicate Usable(p: Prog, plan: Plan, i: nat, e: Expr) {
    forall v: nat | Occ(e, v) > 0 ::
      v < p.values && v < |plan.inlined| && v < |plan.dropped| && !plan.dropped[v] && (plan.inlined[v] ==> Pending(p, plan, i, v))
  }

  ghost predicate UsableAll(p: Prog, plan: Plan, i: nat, es: seq<Expr>) {
    forall v: nat | OccAll(es, v) > 0 ::
      v < p.values && v < |plan.inlined| && v < |plan.dropped| && !plan.dropped[v] && (plan.inlined[v] ==> Pending(p, plan, i, v))
  }

  function OccOf(e: Expr, carrier: Option<nat>): nat {
    if carrier.Some? then Occ(e, carrier.value) else 0
  }

  function OccAllOf(es: seq<Expr>, carrier: Option<nat>): nat {
    if carrier.Some? then OccAll(es, carrier.value) else 0
  }

  lemma RenderName(p: Prog, plan: Plan, i: nat, v: nat)
    requires Pending(p, plan, i, v)
    ensures Render(p, plan, i, Name(v)) == TreeOf(p, plan, v)
  {
    hide OccItem;
    assert Folded(p, plan, i, v);
  }

  lemma RenderPlain(p: Prog, plan: Plan, i: nat, v: nat)
    requires v < |plan.inlined| && !plan.inlined[v]
    ensures Render(p, plan, i, Name(v)) == Name(v)
  {
  }

  /** A pure expression without the carrier renders to a steady tree with the same value. */
  lemma {:induction false} SteadyRender(ctx: Ctx, p: Prog, plan: Plan, i: nat, e: Expr, written: Vars, exact: Vars, t: St, s: St,
                                        carrier: Option<nat>, at: St, any: St)
    requires Related(ctx, p, plan, i, written, exact, t, s, carrier) && Usable(p, plan, i, e) && PureExpr(e) && OccOf(e, carrier) == 0
    ensures Eval(ctx, Render(p, plan, i, e), written, at) == (Eval(ctx, e, exact, any).0, at)
    decreases e, 0
  {
    hide Related, Pending, OccItem, TreeOf;
    match e
    case Name(v) =>
      assert Occ(e, v) > 0;
      LeafSteady(ctx, p, plan, i, v, written, exact, t, s, carrier, at);
    case Lit(_) =>
    case Op(_, args) =>
      assert forall v: nat :: Occ(e, v) == OccAll(args, v);
      SteadyRenderAll(ctx, p, plan, i, args, written, exact, t, s, carrier, at, any);
    case Select(c, x, y) =>
      assert forall v: nat :: Occ(e, v) == Occ(c, v) + Occ(x, v) + Occ(y, v);
      SteadyRender(ctx, p, plan, i, c, written, exact, t, s, carrier, at, any);
      PureEval(ctx, c, exact, any, any);
      SteadyRender(ctx, p, plan, i, x, written, exact, t, s, carrier, at, any);
      SteadyRender(ctx, p, plan, i, y, written, exact, t, s, carrier, at, any);
  }

  lemma LeafSteady(ctx: Ctx, p: Prog, plan: Plan, i: nat, v: nat, written: Vars, exact: Vars, t: St, s: St, carrier: Option<nat>, at: St)
    requires Related(ctx, p, plan, i, written, exact, t, s, carrier) && Usable(p, plan, i, Name(v)) && Some(v) != carrier
    ensures Eval(ctx, Render(p, plan, i, Name(v)), written, at) == (Get(exact, Val(v)), at)
  {
    hide OccItem, Render;
    assert Occ(Name(v), v) > 0;
    if plan.inlined[v] {
      RenderName(p, plan, i, v);
      assert Steady(ctx, TreeOf(p, plan, v), written, Get(exact, Val(v)));
    } else {
      RenderPlain(p, plan, i, v);
    }
  }

  lemma {:induction false} SteadyRenderAll(ctx: Ctx, p: Prog, plan: Plan, i: nat, es: seq<Expr>, written: Vars, exact: Vars, t: St, s: St,
                                           carrier: Option<nat>, at: St, any: St)
    requires Related(ctx, p, plan, i, written, exact, t, s, carrier) && UsableAll(p, plan, i, es) && AllPure(es) && OccAllOf(es, carrier) == 0
    ensures EvalAll(ctx, RenderAll(p, plan, i, es), written, at) == (EvalAll(ctx, es, exact, any).0, at)
    decreases es, 1
  {
    hide Related, Pending, OccItem, TreeOf;
    if es != [] {
      assert forall v: nat :: OccAll(es, v) == Occ(es[0], v) + OccAll(es[1..], v);
      SteadyRender(ctx, p, plan, i, es[0], written, exact, t, s, carrier, at, any);
      PureEval(ctx, es[0], exact, any, any);
      SteadyRenderAll(ctx, p, plan, i, es[1..], written, exact, t, s, carrier, at, any);
      assert RenderAll(p, plan, i, es)[1..] == RenderAll(p, plan, i, es[1..]);
    }
  }

  /** A use of the carrier brings its call into the rendered tree. */
  lemma {:induction false} CarriedCall(p: Prog, plan: Plan, i: nat, e: Expr, c: nat)
    requires Pending(p, plan, i, c) && Occ(e, c) > 0 && HasCall(TreeOf(p, plan, c))
    ensures HasCall(Render(p, plan, i, e))
    decreases e, 0
  {
    hide Pending, OccItem, TreeOf;
    match e
    case Name(v) => RenderName(p, plan, i, v);
    case Op(_, args) => CarriedCallAll(p, plan, i, args, c);
    case Select(x, y, z) =>
      if Occ(x, c) > 0 {
        CarriedCall(p, plan, i, x, c);
      } else if Occ(y, c) > 0 {
        CarriedCall(p, plan, i, y, c);
      } else {
        CarriedCall(p, plan, i, z, c);
      }
    case Load(addr) => CarriedCall(p, plan, i, addr, c);
    case Call(_, _) =>
  }

  lemma {:induction false} CarriedCallAll(p: Prog, plan: Plan, i: nat, es: seq<Expr>, c: nat)
    requires Pending(p, plan, i, c) && OccAll(es, c) > 0 && HasCall(TreeOf(p, plan, c))
    ensures AnyCall(RenderAll(p, plan, i, es))
    decreases es, 1
  {
    hide Pending, OccItem, TreeOf;
    assert RenderAll(p, plan, i, es)[1..] == RenderAll(p, plan, i, es[1..]);
    if Occ(es[0], c) > 0 {
      CarriedCall(p, plan, i, es[0], c);
    } else {
      CarriedCallAll(p, plan, i, es[1..], c);
    }
  }

  // ---------------------------------------------------------------- whether the carrier's place is evaluated

  const NOWHERE := St(map[], [])

  /** Evaluating the pure expression `e` evaluates the place of `c`. */
  predicate Reached(ctx: Ctx, e: Expr, c: nat, vars: Vars)
    decreases e, 0
  {
    match e
    case Name(v) => v == c
    case Lit(_) => false
    case Op(_, args) => AnyReached(ctx, args, c, vars)
    case Select(x, y, z) =>
      Reached(ctx, x, c, vars) || if Eval(ctx, x, vars, NOWHERE).0 != 0 then Reached(ctx, y, c, vars) else Reached(ctx, z, c, vars)
    case Load(addr) => Reached(ctx, addr, c, vars)
    case Call(_, args) => AnyReached(ctx, args, c, vars)
  }

  predicate AnyReached(ctx: Ctx, es: seq<Expr>, c: nat, vars: Vars)
    decreases es, 1
  {
    es != [] && (Reached(ctx, es[0], c, vars) || AnyReached(ctx, es[1..], c, vars))
  }

  lemma {:induction false} ReachedNamed(ctx: Ctx, e: Expr, c: nat, vars: Vars)
    requires Occ(e, c) == 0
    ensures !Reached(ctx, e, c, vars)
    decreases e, 0
  {
    match e
    case Name(_) =>
    case Lit(_) =>
    case Op(_, args) => AnyReachedNamed(ctx, args, c, vars);
    case Select(x, y, z) =>
      ReachedNamed(ctx, x, c, vars);
      ReachedNamed(ctx, y, c, vars);
      ReachedNamed(ctx, z, c, vars);
    case Load(addr) => ReachedNamed(ctx, addr, c, vars);
    case Call(_, args) => AnyReachedNamed(ctx, args, c, vars);
  }

  lemma {:induction false} AnyReachedNamed(ctx: Ctx, es: seq<Expr>, c: nat, vars: Vars)
    requires OccAll(es, c) == 0
    ensures !AnyReached(ctx, es, c, vars)
    decreases es, 1
  {
    if es != [] {
      ReachedNamed(ctx, es[0], c, vars);
      AnyReachedNamed(ctx, es[1..], c, vars);
    }
  }

  /** The state of the rendered program after the expressions: the recorded one if they reach the carrier. */
  function Released(ctx: Ctx, es: seq<Expr>, carrier: Option<nat>, vars: Vars, t: St, s: St): St {
    if carrier.Some? && AnyReached(ctx, es, carrier.value, vars) then s else t
  }

  function ReleasedBy(ctx: Ctx, e: Expr, carrier: Option<nat>, vars: Vars, t: St, s: St): St {
    if carrier.Some? && Reached(ctx, e, carrier.value, vars) then s else t
  }

  lemma LeafCarrier(ctx: Ctx, p: Prog, plan: Plan, i: nat, written: Vars, exact: Vars, t: St, s: St, carrier: Option<nat>)
    requires Related(ctx, p, plan, i, written, exact, t, s, carrier) && carrier.Some?
    ensures Eval(ctx, Render(p, plan, i, Name(carrier.value)), written, t) == (Get(exact, Val(carrier.value)), s)
  {
    hide OccItem, Pending;
    RenderName(p, plan, i, carrier.value);
  }

  /**
   A pure expression has its recorded value in any case; the carrier's calls are made exactly if its place is
   evaluated.
   */
  lemma {:induction false} PlaceRender(ctx: Ctx, p: Prog, plan: Plan, i: nat, e: Expr, written: Vars, exact: Vars, t: St, s: St,
                                       carrier: Option<nat>, any: St)
    requires Related(ctx, p, plan, i, written, exact, t, s, carrier) && Usable(p, plan, i, e) && PureExpr(e) && OccOf(e, carrier) <= 1
    ensures Eval(ctx, Render(p, plan, i, e), written, t) == (Eval(ctx, e, exact, any).0, ReleasedBy(ctx, e, carrier, exact, t, s))
    decreases e, 0
  {
    hide Related, Pending, OccItem, TreeOf;
    if OccOf(e, carrier) == 0 {
      SteadyRender(ctx, p, plan, i, e, written, exact, t, s, carrier, t, any);
      if carrier.Some? {
        ReachedNamed(ctx, e, carrier.value, exact);
      }
      return;
    }
    var c := carrier.value;
    match e
    case Name(v) =>
      LeafCarrier(ctx, p, plan, i, written, exact, t, s, carrier);
    case Op(_, args) =>
      assert forall v: nat :: Occ(e, v) == OccAll(args, v);
      PlaceRenderAll(ctx, p, plan, i, args, written, exact, t, s, carrier, any);
    case Select(x, y, z) =>
      assert forall v: nat :: Occ(e, v) == Occ(x, v) + Occ(y, v) + Occ(z, v);
      PureEval(ctx, x, exact, any, any);
      PureEval(ctx, x, exact, any, NOWHERE);
      PlaceRender(ctx, p, plan, i, x, written, exact, t, s, carrier, any);
      PlaceArm(ctx, p, plan, i, x, y, written, exact, t, s, carrier, any);
      PlaceArm(ctx, p, plan, i, x, z, written, exact, t, s, carrier, any);
  }

  /** An arm, evaluated after the condition. */
  lemma {:induction false} PlaceArm(ctx: Ctx, p: Prog, plan: Plan, i: nat, x: Expr, y: Expr, written: Vars, exact: Vars, t: St, s: St,
                                    carrier: Option<nat>, any: St)
    requires Related(ctx, p, plan, i, written, exact, t, s, carrier) && Usable(p, plan, i, y) && PureExpr(y)
    requires carrier.Some? && Occ(x, carrier.value) + Occ(y, carrier.value) <= 1
    ensures Eval(ctx, Render(p, plan, i, y), written, ReleasedBy(ctx, x, carrier, exact, t, s))
      == (Eval(ctx, y, exact, any).0, if Reached(ctx, x, carrier.value, exact) then s else ReleasedBy(ctx, y, carrier, exact, t, s))
    decreases y, 1
  {
    hide Related, Pending, OccItem, TreeOf, Render, Eval, Reached;
    if Occ(y, carrier.value) == 0 {
      ReachedNamed(ctx, y, carrier.value, exact);
      SteadyRender(ctx, p, plan, i, y, written, exact, t, s, carrier, ReleasedBy(ctx, x, carrier, exact, t, s), any);
    } else {
      ReachedNamed(ctx, x, carrier.value, exact);
      PlaceRender(ctx, p, plan, i, y, written, exact, t, s, carrier, any);
    }
  }

  lemma {:induction false} PlaceRenderAll(ctx: Ctx, p: Prog, plan: Plan, i: nat, es: seq<Expr>, written: Vars, exact: Vars, t: St, s: St,
                                          carrier: Option<nat>, any: St)
    requires Related(ctx, p, plan, i, written, exact, t, s, carrier) && UsableAll(p, plan, i, es) && AllPure(es) && OccAllOf(es, carrier) <= 1
    ensures EvalAll(ctx, RenderAll(p, plan, i, es), written, t) == (EvalAll(ctx, es, exact, any).0, Released(ctx, es, carrier, exact, t, s))
    decreases es, 1
  {
    hide Related, Pending, OccItem, TreeOf, Reached;
    if es != [] {
      assert forall v: nat :: OccAll(es, v) == Occ(es[0], v) + OccAll(es[1..], v);
      assert RenderAll(p, plan, i, es)[1..] == RenderAll(p, plan, i, es[1..]);
      PureEval(ctx, es[0], exact, any, any);
      PlaceRender(ctx, p, plan, i, es[0], written, exact, t, s, carrier, any);
      if OccAllOf(es[1..], carrier) == 0 {
        SteadyRenderAll(ctx, p, plan, i, es[1..], written, exact, t, s, carrier, ReleasedBy(ctx, es[0], carrier, exact, t, s), any);
        if carrier.Some? {
          AnyReachedNamed(ctx, es[1..], carrier.value, exact);
        }
      } else {
        ReachedNamed(ctx, es[0], carrier.value, exact);
        PlaceRenderAll(ctx, p, plan, i, es[1..], written, exact, t, s, carrier, any);
      }
    }
  }

  lemma Single(ctx: Ctx, p: Prog, plan: Plan, i: nat, e: Expr, vars: Vars, s: St)
    ensures RenderAll(p, plan, i, [e]) == [Render(p, plan, i, e)]
    ensures EvalAll(ctx, [e], vars, s) == ([Eval(ctx, e, vars, s).0], Eval(ctx, e, vars, s).1)
    ensures AllPure([e]) == PureExpr(e) && AnyArmCalls([e]) == ArmCalls(e) && AnyCall([e]) == HasCall(e)
    ensures forall v: nat :: OccAll([e], v) == Occ(e, v)
  {
    var es, rest := [e], [e][1..];
    assert rest == [] && es[0] == e;
    var r := Eval(ctx, e, vars, s);
    var none: seq<int> := [];
    assert [r.0] + none == [r.0] && EvalAll(ctx, rest, vars, r.1) == (none, r.1);
    assert RenderAll(p, plan, i, rest) == [] && AllPure(rest) && !AnyArmCalls(rest) && !AnyCall(rest);
    forall v: nat ensures OccAll(es, v) == Occ(e, v) {
      assert OccAll(rest, v) == 0;
    }
  }

  lemma OneReached(ctx: Ctx, e: Expr, c: nat, vars: Vars)
    ensures AnyReached(ctx, [e], c, vars) == Reached(ctx, e, c, vars)
  {
    assert [e][1..] == [];
  }

  /** One expression, pure or with a read or call of its own, goes on from where its operands leave the state. */
  lemma {:induction false} PlaceSimple(ctx: Ctx, p: Prog, plan: Plan, i: nat, e: Expr, written: Vars, exact: Vars, t: St, s: St, carrier: Option<nat>)
    requires Related(ctx, p, plan, i, written, exact, t, s, carrier) && Usable(p, plan, i, e) && Simple(e) && OccOf(e, carrier) <= 1
    ensures Eval(ctx, Render(p, plan, i, e), written, t) == Eval(ctx, e, exact, ReleasedBy(ctx, e, carrier, exact, t, s))
    decreases e
  {
    hide Related, OccItem, TreeOf, Pending;
    var base := ReleasedBy(ctx, e, carrier, exact, t, s);
    if PureExpr(e) {
      PlaceRender(ctx, p, plan, i, e, written, exact, t, s, carrier, base);
      PureEval(ctx, e, exact, base, base);
    } else if e.Load? {
      assert forall v: nat :: Occ(e, v) == Occ(e.addr, v);
      PlaceRender(ctx, p, plan, i, e.addr, written, exact, t, s, carrier, base);
      PureEval(ctx, e.addr, exact, base, base);
    } else if e.Call? && AllPure(e.args) {
      assert forall v: nat :: Occ(e, v) == OccAll(e.args, v);
      PlaceRenderAll(ctx, p, plan, i, e.args, written, exact, t, s, carrier, base);
      PureEvalAll(ctx, e.args, exact, base, base);
    } else {
      var x := e.args[0];
      assert e.args == [x];
      Single(ctx, p, plan, i, x, exact, base);
      Single(ctx, p, plan, i, Render(p, plan, i, x), written, t);
      assert forall v: nat :: Occ(e, v) == Occ(x, v);
      if carrier.Some? {
        OneReached(ctx, x, carrier.value, exact);
      }
      PlaceSimple(ctx, p, plan, i, x, written, exact, t, s, carrier);
    }
  }

  // ---------------------------------------------------------------- places that are always evaluated

  /** In an arm the carrier can hold no call back, so the states agree already. */
  lemma ArmCarrier(ctx: Ctx, p: Prog, plan: Plan, i: nat, y: Expr, z: Expr, written: Vars, exact: Vars, t: St, s: St, carrier: Option<nat>)
    requires Related(ctx, p, plan, i, written, exact, t, s, carrier) && carrier.Some?
    requires Occ(y, carrier.value) > 0 || Occ(z, carrier.value) > 0
    requires !HasCall(Render(p, plan, i, y)) && !HasCall(Render(p, plan, i, z))
    ensures t == s
  {
    hide OccItem, Render, HasCall;
    if HasCall(TreeOf(p, plan, carrier.value)) {
      if Occ(y, carrier.value) > 0 {
        CarriedCall(p, plan, i, y, carrier.value);
      } else {
        CarriedCall(p, plan, i, z, carrier.value);
      }
    }
  }

  /** Without calls there are none in arms. */
  lemma {:induction false} NoArmInside(e: Expr)
    requires !HasCall(e)
    ensures !ArmCalls(e)
    decreases e, 0
  {
    match e
    case Name(_) =>
    case Lit(_) =>
    case Op(_, args) => NoArmInsideAll(args);
    case Select(x, y, z) => NoArmInside(x);
    case Load(addr) => NoArmInside(addr);
  }

  lemma {:induction false} NoArmInsideAll(es: seq<Expr>)
    requires !AnyCall(es)
    ensures !AnyArmCalls(es)
    decreases es, 1
  {
    if es != [] {
      NoArmInside(es[0]);
      NoArmInsideAll(es[1..]);
    }
  }

  /** Outside of arms the carrier is reached; inside, it holds no call back. */
  lemma {:induction false} Settled(ctx: Ctx, p: Prog, plan: Plan, i: nat, e: Expr, written: Vars, exact: Vars, t: St, s: St, carrier: Option<nat>)
    requires Related(ctx, p, plan, i, written, exact, t, s, carrier) && OccOf(e, carrier) > 0 && !ArmCalls(Render(p, plan, i, e))
    ensures ReleasedBy(ctx, e, carrier, exact, t, s) == s
    decreases e, 0
  {
    hide Related, Pending, OccItem, TreeOf;
    var c := carrier.value;
    match e
    case Name(_) =>
    case Op(_, args) => SettledAll(ctx, p, plan, i, args, written, exact, t, s, carrier);
    case Select(x, y, z) =>
      if Occ(x, c) > 0 {
        Settled(ctx, p, plan, i, x, written, exact, t, s, carrier);
      } else {
        ArmCarrier(ctx, p, plan, i, y, z, written, exact, t, s, carrier);
      }
    case Load(addr) => Settled(ctx, p, plan, i, addr, written, exact, t, s, carrier);
    case Call(_, args) => SettledAll(ctx, p, plan, i, args, written, exact, t, s, carrier);
  }

  lemma {:induction false} SettledAll(ctx: Ctx, p: Prog, plan: Plan, i: nat, es: seq<Expr>, written: Vars, exact: Vars, t: St, s: St, carrier: Option<nat>)
    requires Related(ctx, p, plan, i, written, exact, t, s, carrier) && OccAllOf(es, carrier) > 0 && !AnyArmCalls(RenderAll(p, plan, i, es))
    ensures Released(ctx, es, carrier, exact, t, s) == s
    decreases es, 1
  {
    hide Related, Pending, OccItem, TreeOf;
    assert RenderAll(p, plan, i, es)[1..] == RenderAll(p, plan, i, es[1..]);
    if Occ(es[0], carrier.value) > 0 {
      Settled(ctx, p, plan, i, es[0], written, exact, t, s, carrier);
    } else {
      SettledAll(ctx, p, plan, i, es[1..], written, exact, t, s, carrier);
    }
  }

  /** One expression whose calls are always made, when no carrier is left over. */
  lemma SimpleRender(ctx: Ctx, p: Prog, plan: Plan, i: nat, e: Expr, written: Vars, exact: Vars, t: St, s: St, carrier: Option<nat>)
    requires Related(ctx, p, plan, i, written, exact, t, s, carrier) && Usable(p, plan, i, e) && Simple(e)
    requires !ArmCalls(Render(p, plan, i, e)) && (carrier.Some? ==> Occ(e, carrier.value) == 1) && (carrier.None? ==> t == s)
    ensures Eval(ctx, Render(p, plan, i, e), written, t) == Eval(ctx, e, exact, s)
  {
    hide Related, OccItem, TreeOf, Pending, Render, ArmCalls, Eval, Simple, Reached, Occ;
    PlaceSimple(ctx, p, plan, i, e, written, exact, t, s, carrier);
    if carrier.Some? {
      Settled(ctx, p, plan, i, e, written, exact, t, s, carrier);
    }
  }

  // ---------------------------------------------------------------- what the plan promises at an item

  /** The single use of a pending value is still ahead or here. */
  lemma PendingUse(p: Prog, plan: Plan, i: nat, v: nat) returns (u: nat)
    requires PlanOk(p, plan) && Pending(p, plan, i, v)
    ensures i <= u < |p.items| && FoldsInto(p, plan, v, plan.defItem[v].value, u)
  {
    hide OccItem;
    assert InlineOk(p, plan, v);
    u :| FoldsInto(p, plan, v, plan.defItem[v].value, u);
  }

  lemma UsedOnce(p: Prog, plan: Plan, i: nat, v: nat)
    requires PlanOk(p, plan) && Pending(p, plan, i, v) && i < |p.items|
    ensures OccItem(p.items[i], v) <= 1
    ensures !PureDef(p.items[i]) ==> OccItem(p.items[i], v) == 1
    ensures DroppedDef(p.items, plan.dropped, i) ==> OccItem(p.items[i], v) == 0
  {
    hide OccItem;
    var u := PendingUse(p, plan, i, v);
    assert u > i ==> PureDef(p.items[i]);
  }

  /** Everything an item names is materialized or pending. */
  lemma ItemUsable(p: Prog, plan: Plan, i: nat)
    requires PlanOk(p, plan) && WfProg(p) && i < |p.items| && !DroppedDef(p.items, plan.dropped, i)
    ensures UsableAll(p, plan, i, Parts(p.items[i]))
  {
    hide OccItem, OccAll, Parts;
    assert WfItem(p, i);
    forall v: nat | OccItem(p.items[i], v) > 0
      ensures v < p.values && !plan.dropped[v] && (plan.inlined[v] ==> Pending(p, plan, i, v))
    {
      assert DropOk(p, plan, v) && InlineOk(p, plan, v);
    }
    OccItemIs(p.items[i]);
  }

  lemma PendingNext(p: Prog, plan: Plan, i: nat, v: nat)
    requires Pending(p, plan, i + 1, v) && i < |p.items|
    ensures OccItem(p.items[i], v) == 0 && (plan.defItem[v].value == i || Pending(p, plan, i, v))
  {
    hide OccItem;
  }

  lemma PendingLater(p: Prog, plan: Plan, i: nat, v: nat)
    requires Pending(p, plan, i, v) && i < |p.items| && OccItem(p.items[i], v) == 0
    ensures Pending(p, plan, i + 1, v)
  {
    hide OccItem;
  }

  /** After an item that is no pure definition, only what it defines itself can be pending. */
  lemma ClearedPending(p: Prog, plan: Plan, i: nat, v: nat)
    requires PlanOk(p, plan) && Pending(p, plan, i + 1, v) && i < |p.items| && !PureDef(p.items[i])
    ensures plan.defItem[v].value == i
  {
    hide OccItem;
    PendingNext(p, plan, i, v);
    if plan.defItem[v].value != i {
      UsedOnce(p, plan, i, v);
    }
  }

  /** Both runs agree on the materialized values. */
  ghost predicate Agree(p: Prog, plan: Plan, written: Vars, exact: Vars) {
    forall v: nat | v < p.values && v < |plan.inlined| && v < |plan.dropped| && !plan.inlined[v] && !plan.dropped[v] ::
      Get(written, Val(v)) == Get(exact, Val(v))
  }

  lemma RelatedAgree(ctx: Ctx, p: Prog, plan: Plan, i: nat, written: Vars, exact: Vars, t: St, s: St, carrier: Option<nat>)
    requires Related(ctx, p, plan, i, written, exact, t, s, carrier)
    ensures Agree(p, plan, written, exact)
  {
    hide OccItem, Pending, TreeOf;
  }

  /** After an item that is neither a pure nor a folded definition nothing is pending. */
  lemma ClearedRelated(ctx: Ctx, p: Prog, plan: Plan, i: nat, written: Vars, exact: Vars, s: St)
    requires PlanOk(p, plan) && i < |p.items| && !PureDef(p.items[i]) && Agree(p, plan, written, exact)
    requires p.items[i].Def? ==> p.items[i].id < p.values && !plan.inlined[p.items[i].id]
    ensures Related(ctx, p, plan, i + 1, written, exact, s, s, None)
  {
    hide OccItem, TreeOf, PlanOk;
    var n := i + 1;
    forall v: nat | Pending(p, plan, n, v) ensures v < p.values && plan.inlined[v] && IsDef(p.items[i], v) {
      ClearedPending(p, plan, i, v);
      DefinedThere(p, plan, v);
    }
  }

  lemma DefinedThere(p: Prog, plan: Plan, v: nat)
    requires PlanOk(p, plan) && v < p.values && plan.inlined[v]
    ensures plan.defItem[v].Some? && plan.defItem[v].value < |p.items| && IsDef(p.items[plan.defItem[v].value], v)
    ensures !p.items[plan.defItem[v].value].kind.RngVal?
  {
    hide OccItem;
    assert InlineOk(p, plan, v);
  }

  /** At an item that is no pure definition the carrier is used, so nothing is left to release. */
  lemma CarrierUsed(ctx: Ctx, p: Prog, plan: Plan, i: nat, written: Vars, exact: Vars, t: St, s: St, carrier: Option<nat>)
    requires PlanOk(p, plan) && i < |p.items| && !PureDef(p.items[i]) && Related(ctx, p, plan, i, written, exact, t, s, carrier)
    ensures carrier.Some? ==> OccItem(p.items[i], carrier.value) == 1
    ensures carrier.None? ==> t == s
  {
    hide OccItem, TreeOf, PlanOk;
    if carrier.Some? {
      UsedOnce(p, plan, i, carrier.value);
    }
  }

  // ---------------------------------------------------------------- names in trees

  /** `v` is defined, if at all, before item `i`. */
  ghost predicate DefinedBefore(p: Prog, v: nat, i: nat) {
    forall d: nat | d < |p.items| && IsDef(p.items[d], v) :: d < i
  }

  lemma {:induction false} RenderNames(p: Prog, plan: Plan, i: nat, e: Expr, w: nat)
    requires WfProg(p) && (forall v: nat | Occ(e, v) > 0 :: DefinedBefore(p, v, i)) && Occ(Render(p, plan, i, e), w) > 0
    ensures DefinedBefore(p, w, i)
    decreases i, e, 0
  {
    hide OccItem, WfProg, DefinedBefore;
    match e
    case Name(v) =>
      assert Occ(e, v) > 0;
      if Folded(p, plan, i, v) {
        var d := plan.defItem[v].value;
        DefNames(p, d);
        RenderNames(p, plan, d, p.items[d].expr, w);
        DefinedEarlier(p, w, d, i);
      }
    case Op(_, args) =>
      assert forall v: nat :: Occ(e, v) == OccAll(args, v);
      RenderAllNames(p, plan, i, args, w);
    case Select(x, y, z) =>
      assert forall v: nat :: Occ(e, v) == Occ(x, v) + Occ(y, v) + Occ(z, v);
      if Occ(Render(p, plan, i, x), w) > 0 {
        RenderNames(p, plan, i, x, w);
      } else if Occ(Render(p, plan, i, y), w) > 0 {
        RenderNames(p, plan, i, y, w);
      } else {
        RenderNames(p, plan, i, z, w);
      }
    case Load(addr) =>
      assert forall v: nat :: Occ(e, v) == Occ(addr, v);
      RenderNames(p, plan, i, addr, w);
    case Call(_, args) =>
      assert forall v: nat :: Occ(e, v) == OccAll(args, v);
      RenderAllNames(p, plan, i, args, w);
  }

  lemma {:induction false} RenderAllNames(p: Prog, plan: Plan, i: nat, es: seq<Expr>, w: nat)
    requires WfProg(p) && (forall v: nat | OccAll(es, v) > 0 :: DefinedBefore(p, v, i)) && OccAll(RenderAll(p, plan, i, es), w) > 0
    ensures DefinedBefore(p, w, i)
    decreases i, es, 1
  {
    hide OccItem, WfProg, DefinedBefore;
    assert forall v: nat :: OccAll(es, v) == Occ(es[0], v) + OccAll(es[1..], v);
    assert RenderAll(p, plan, i, es)[1..] == RenderAll(p, plan, i, es[1..]);
    if Occ(Render(p, plan, i, es[0]), w) > 0 {
      RenderNames(p, plan, i, es[0], w);
    } else {
      RenderAllNames(p, plan, i, es[1..], w);
    }
  }

  lemma DefNames(p: Prog, d: nat)
    requires WfProg(p) && d < |p.items| && p.items[d].Def?
    ensures forall v: nat | Occ(p.items[d].expr, v) > 0 :: DefinedBefore(p, v, d)
  {
    hide OccItem;
    assert WfItem(p, d);
    forall v: nat | Occ(p.items[d].expr, v) > 0 ensures DefinedBefore(p, v, d) {
      DefOcc(p.items[d], v);
    }
  }

  lemma DefinedEarlier(p: Prog, v: nat, d: nat, i: nat)
    requires DefinedBefore(p, v, d) && d <= i
    ensures DefinedBefore(p, v, i)
  {
  }

  /** A tree does not read what is written at or after its definition. */
  lemma TreeFrame(ctx: Ctx, p: Prog, plan: Plan, i: nat, v: nat, written: Vars, id: nat, x: int, at: St)
    requires WfProg(p) && Pending(p, plan, i, v) && i < |p.items| && IsDef(p.items[i], id)
    ensures Eval(ctx, TreeOf(p, plan, v), written[Val(id) := x], at) == Eval(ctx, TreeOf(p, plan, v), written, at)
  {
    hide OccItem, WfProg, Render;
    var d := plan.defItem[v].value;
    DefNames(p, d);
    if Occ(TreeOf(p, plan, v), id) > 0 {
      RenderNames(p, plan, d, p.items[d].expr, id);
    }
    EvalFrame(ctx, TreeOf(p, plan, v), written[Val(id) := x], written, at);
  }

  // ---------------------------------------------------------------- one definition

  lemma PartsDef(item: Item)
    requires item.Def?
    ensures Parts(item) == [item.expr]
  {
  }

  lemma DefUsable(p: Prog, plan: Plan, i: nat)
    requires PlanOk(p, plan) && WfProg(p) && i < |p.items| && p.items[i].Def? && !DroppedDef(p.items, plan.dropped, i)
    ensures Usable(p, plan, i, p.items[i].expr)
  {
    hide OccItem, PlanOk, WfProg, Pending;
    ItemUsable(p, plan, i);
    forall v: nat | Occ(p.items[i].expr, v) > 0 ensures OccAll(Parts(p.items[i]), v) > 0 {
      DefOcc(p.items[i], v);
      OccItemIs(p.items[i]);
    }
  }

  /** A value with an earlier definition is not the one defined here. */
  lemma OtherValue(p: Prog, plan: Plan, i: nat, v: nat)
    requires PlanOk(p, plan) && WfProg(p) && Pending(p, plan, i, v) && i < |p.items| && p.items[i].Def?
    ensures v != p.items[i].id
  {
    hide OccItem;
    DefinedThere(p, plan, v);
  }

  /** A dropped definition only changes a variable nobody reads. */
  lemma StepDropped(ctx: Ctx, p: Prog, plan: Plan, i: nat, written: Vars, exact: Vars, t: St, s: St, carrier: Option<nat>)
    requires PlanOk(p, plan) && WfProg(p) && i < |p.items| && DroppedDef(p.items, plan.dropped, i)
    requires Related(ctx, p, plan, i, written, exact, t, s, carrier)
    ensures !p.items[i].kind.RngVal?
    ensures var r := Eval(ctx, p.items[i].expr, exact, s);
      r.1 == s && Related(ctx, p, plan, i + 1, written, exact[Val(p.items[i].id) := r.0], t, s, carrier)
  {
    hide OccItem, PlanOk, WfProg;
    var id := p.items[i].id;
    DroppedFacts(p, plan, i);
    PureEval(ctx, p.items[i].expr, exact, s, s);
    var n := i + 1;
    forall v: nat | Pending(p, plan, n, v)
      ensures Pending(p, plan, i, v) && v != id
    {
      PendingNext(p, plan, i, v);
      DefinedThere(p, plan, v);
      if plan.defItem[v].value != i {
        OtherValue(p, plan, i, v);
      }
    }
    if carrier.Some? {
      UsedOnce(p, plan, i, carrier.value);
      PendingLater(p, plan, i, carrier.value);
    }
  }

  lemma DroppedFacts(p: Prog, plan: Plan, i: nat)
    requires PlanOk(p, plan) && WfProg(p) && i < |p.items| && DroppedDef(p.items, plan.dropped, i)
    ensures p.items[i].id < p.values && plan.dropped[p.items[i].id] && !plan.inlined[p.items[i].id]
    ensures !HasCall(p.items[i].expr) && !p.items[i].kind.RngVal?
  {
    hide OccItem;
    var id := p.items[i].id;
    assert WfItem(p, i);
    assert DropOk(p, plan, id) && InlineOk(p, plan, id);
    assert IsDef(p.items[i], id);
    if p.items[i].kind.Pure? {
      PureEval(Ctx((a, b) => 0, (a, b) => (0, a), a => 0), p.items[i].expr, map[], St(map[], []), St(map[], []));
    }
  }

  /** What a folded definition at `i` looks like afterwards. */
  lemma FoldedHere(p: Prog, plan: Plan, i: nat)
    requires PlanOk(p, plan) && WfProg(p) && i < |p.items| && p.items[i].Def? && p.items[i].id < p.values && plan.inlined[p.items[i].id]
    ensures Pending(p, plan, i + 1, p.items[i].id) && plan.defItem[p.items[i].id] == Some(i)
    ensures TreeOf(p, plan, p.items[i].id) == Render(p, plan, i, p.items[i].expr)
    ensures !DroppedDef(p.items, plan.dropped, i) && !p.items[i].kind.RngVal?
  {
    hide OccItem, Render;
    var id := p.items[i].id;
    assert InlineOk(p, plan, id);
    DefinedThere(p, plan, id);
    var u :| FoldsInto(p, plan, id, plan.defItem[id].value, u);
    assert WfItem(p, u);
  }

  /** The carrier after a folded definition. */
  function NextCarrier(item: Item, carrier: Option<nat>): Option<nat>
    requires item.Def?
  {
    if item.kind.Pure? && OccOf(item.expr, carrier) == 0 then carrier else Some(item.id)
  }

  lemma CarrierOnce(ctx: Ctx, p: Prog, plan: Plan, i: nat, written: Vars, exact: Vars, t: St, s: St, carrier: Option<nat>)
    requires PlanOk(p, plan) && i < |p.items| && p.items[i].Def? && Related(ctx, p, plan, i, written, exact, t, s, carrier)
    ensures OccOf(p.items[i].expr, carrier) <= 1
    ensures !p.items[i].kind.Pure? && carrier.Some? ==> OccOf(p.items[i].expr, carrier) == 1
    ensures !p.items[i].kind.Pure? && carrier.None? ==> t == s
  {
    hide OccItem, TreeOf, PlanOk;
    if carrier.Some? {
      UsedOnce(p, plan, i, carrier.value);
      DefOcc(p.items[i], carrier.value);
    }
  }

  lemma NoArms(p: Prog, plan: Plan, i: nat)
    requires i < |p.items| && p.items[i].Def? && CallsAlwaysRun(p, plan, i)
    ensures !ArmCalls(Render(p, plan, i, p.items[i].expr))
  {
    hide OccItem, Render;
    PartsDef(p.items[i]);
    Single(Ctx((a, b) => 0, (a, b) => (0, a), a => 0), p, plan, i, Render(p, plan, i, p.items[i].expr), map[], St(map[], []));
    Single(Ctx((a, b) => 0, (a, b) => (0, a), a => 0), p, plan, i, p.items[i].expr, map[], St(map[], []));
  }

  /** The rendered expression of a definition evaluates to the recorded value. */
  lemma DefValue(ctx: Ctx, p: Prog, plan: Plan, i: nat, written: Vars, exact: Vars, t: St, s: St, carrier: Option<nat>)
    requires PlanOk(p, plan) && WfProg(p) && i < |p.items| && p.items[i].Def? && !p.items[i].kind.RngVal?
    requires !DroppedDef(p.items, plan.dropped, i) && CallsAlwaysRun(p, plan, i)
    requires Related(ctx, p, plan, i, written, exact, t, s, carrier)
    ensures var r := Eval(ctx, p.items[i].expr, exact, s);
      var next := NextCarrier(p.items[i], carrier);
      if next == Some(p.items[i].id) && next != carrier then Eval(ctx, Render(p, plan, i, p.items[i].expr), written, t) == r
      else r.1 == s && forall at :: Eval(ctx, Render(p, plan, i, p.items[i].expr), written, at) == (r.0, at)
  {
    hide OccItem, TreeOf, PlanOk, WfProg, Related, Render, Pending;
    var e := p.items[i].expr;
    DefUsable(p, plan, i);
    DefShape(p, i);
    CarrierOnce(ctx, p, plan, i, written, exact, t, s, carrier);
    NoArms(p, plan, i);
    CarrierElsewhere(ctx, p, plan, i, written, exact, t, s, carrier);
    if p.items[i].kind.Pure? {
      PureEval(ctx, e, exact, s, s);
      if OccOf(e, carrier) == 1 {
        SimpleRender(ctx, p, plan, i, e, written, exact, t, s, carrier);
      } else {
        forall at ensures Eval(ctx, Render(p, plan, i, e), written, at) == (Eval(ctx, e, exact, s).0, at) {
          SteadyRender(ctx, p, plan, i, e, written, exact, t, s, carrier, at, s);
        }
      }
    } else {
      SimpleRender(ctx, p, plan, i, e, written, exact, t, s, carrier);
    }
  }

  lemma CarrierElsewhere(ctx: Ctx, p: Prog, plan: Plan, i: nat, written: Vars, exact: Vars, t: St, s: St, carrier: Option<nat>)
    requires PlanOk(p, plan) && WfProg(p) && i < |p.items| && p.items[i].Def? && Related(ctx, p, plan, i, written, exact, t, s, carrier)
    ensures carrier != Some(p.items[i].id)
  {
    hide OccItem, TreeOf, PlanOk, WfProg;
    if carrier.Some? {
      OtherValue(p, plan, i, carrier.value);
    }
  }

  lemma DefShape(p: Prog, i: nat)
    requires WfProg(p) && i < |p.items| && p.items[i].Def?
    ensures p.items[i].id < p.values && Simple(p.items[i].expr)
    ensures p.items[i].kind.Pure? ==> PureExpr(p.items[i].expr)
    ensures p.items[i].kind.MemRead? ==> !HasCall(p.items[i].expr)
  {
    hide OccItem;
    assert WfItem(p, i);
  }

  /** A folded definition moves into its tree. */
  lemma StepFolded(ctx: Ctx, p: Prog, plan: Plan, i: nat, written: Vars, exact: Vars, t: St, s: St, carrier: Option<nat>)
    requires PlanOk(p, plan) && WfProg(p) && i < |p.items| && p.items[i].Def? && p.items[i].id < p.values && plan.inlined[p.items[i].id]
    requires CallsAlwaysRun(p, plan, i) && Related(ctx, p, plan, i, written, exact, t, s, carrier)
    ensures !p.items[i].kind.RngVal?
    ensures var r := Eval(ctx, p.items[i].expr, exact, s);
      Related(ctx, p, plan, i + 1, written, exact[Val(p.items[i].id) := r.0], t, r.1, NextCarrier(p.items[i], carrier))
  {
    hide OccItem, PlanOk, WfProg, CallsAlwaysRun, Render, HasCall;
    var id, n := p.items[i].id, i + 1;
    var next := NextCarrier(p.items[i], carrier);
    FoldedHere(p, plan, i);
    DefValue(ctx, p, plan, i, written, exact, t, s, carrier);
    CarrierElsewhere(ctx, p, plan, i, written, exact, t, s, carrier);
    var r := Eval(ctx, p.items[i].expr, exact, s);
    var exact' := exact[Val(id) := r.0];
    forall v: nat | Pending(p, plan, n, v) && Some(v) != next ensures Steady(ctx, TreeOf(p, plan, v), written, Get(exact', Val(v))) {
      PendingNext(p, plan, i, v);
      DefinedThere(p, plan, v);
      if plan.defItem[v].value != i {
        OtherValue(p, plan, i, v);
        PendingCarrier(ctx, p, plan, i, v, written, exact, t, s, carrier);
      }
    }
    if next == Some(id) && !HasCall(Render(p, plan, i, p.items[i].expr)) {
      NextHoldsCall(ctx, p, plan, i, written, exact, t, s, carrier);
    }
    if next == carrier && carrier.Some? {
      CarrierUnused(p, plan, i, carrier.value);
      OtherValue(p, plan, i, carrier.value);
    }
  }

  lemma CarrierUnused(p: Prog, plan: Plan, i: nat, c: nat)
    requires i < |p.items| && p.items[i].Def? && Occ(p.items[i].expr, c) == 0 && Pending(p, plan, i, c)
    ensures Pending(p, plan, i + 1, c)
  {
    hide OccItem;
    DefOcc(p.items[i], c);
    PendingLater(p, plan, i, c);
  }

  /** A value still pending after the item is not a carrier the item released. */
  lemma PendingCarrier(ctx: Ctx, p: Prog, plan: Plan, i: nat, v: nat, written: Vars, exact: Vars, t: St, s: St, carrier: Option<nat>)
    requires PlanOk(p, plan) && i < |p.items| && p.items[i].Def? && Related(ctx, p, plan, i, written, exact, t, s, carrier)
    requires Pending(p, plan, i, v) && OccItem(p.items[i], v) == 0 && Some(v) != NextCarrier(p.items[i], carrier)
    ensures Some(v) != carrier
  {
    hide OccItem, PlanOk, TreeOf;
    DefOcc(p.items[i], v);
    if !p.items[i].kind.Pure? {
      UsedOnce(p, plan, i, v);
    }
  }

  /** If the new carrier's tree holds no call, the states agree. */
  lemma NextHoldsCall(ctx: Ctx, p: Prog, plan: Plan, i: nat, written: Vars, exact: Vars, t: St, s: St, carrier: Option<nat>)
    requires PlanOk(p, plan) && WfProg(p) && i < |p.items| && p.items[i].Def? && p.items[i].id < p.values && plan.inlined[p.items[i].id]
    requires Related(ctx, p, plan, i, written, exact, t, s, carrier)
    requires NextCarrier(p.items[i], carrier) == Some(p.items[i].id) && !HasCall(Render(p, plan, i, p.items[i].expr))
    ensures Eval(ctx, p.items[i].expr, exact, s).1 == t
  {
    hide OccItem, PlanOk, WfProg;
    var e := p.items[i].expr;
    CarrierElsewhere(ctx, p, plan, i, written, exact, t, s, carrier);
    CarrierOnce(ctx, p, plan, i, written, exact, t, s, carrier);
    CallFreeSource(p, plan, i, e);
    PureEval(ctx, e, exact, s, s);
    if carrier.Some? && HasCall(TreeOf(p, plan, carrier.value)) {
      CarriedCall(p, plan, i, e, carrier.value);
    }
  }

  /** Rendering keeps the calls an expression has itself. */
  lemma {:induction false} CallFreeSource(p: Prog, plan: Plan, i: nat, e: Expr)
    ensures HasCall(e) ==> HasCall(Render(p, plan, i, e))
    decreases e, 0
  {
    match e
    case Name(_) =>
    case Lit(_) =>
    case Op(_, args) => CallFreeSourceAll(p, plan, i, args);
    case Select(x, y, z) =>
      CallFreeSource(p, plan, i, x);
      CallFreeSource(p, plan, i, y);
      CallFreeSource(p, plan, i, z);
    case Load(addr) => CallFreeSource(p, plan, i, addr);
    case Call(_, _) =>
  }

  lemma {:induction false} CallFreeSourceAll(p: Prog, plan: Plan, i: nat, es: seq<Expr>)
    ensures AnyCall(es) ==> AnyCall(RenderAll(p, plan, i, es))
    decreases es, 1
  {
    if es != [] {
      assert RenderAll(p, plan, i, es)[1..] == RenderAll(p, plan, i, es[1..]);
      CallFreeSource(p, plan, i, es[0]);
      CallFreeSourceAll(p, plan, i, es[1..]);
    }
  }

  /** The carrier after a materialized definition: used up, or still waiting. */
  function RestCarrier(item: Item, carrier: Option<nat>): Option<nat>
    requires item.Def?
  {
    if item.kind.Pure? && OccOf(item.expr, carrier) == 0 then carrier else None
  }

  /** A materialized definition assigns the same value in both runs. */
  lemma StepWritten(ctx: Ctx, p: Prog, plan: Plan, i: nat, written: Vars, exact: Vars, t: St, s: St, carrier: Option<nat>)
    requires PlanOk(p, plan) && WfProg(p) && i < |p.items| && p.items[i].Def? && !p.items[i].kind.RngVal? && p.items[i].id < p.values
    requires !plan.inlined[p.items[i].id] && !plan.dropped[p.items[i].id]
    requires CallsAlwaysRun(p, plan, i) && Related(ctx, p, plan, i, written, exact, t, s, carrier)
    ensures var r := Eval(ctx, p.items[i].expr, exact, s);
      var q := Eval(ctx, Render(p, plan, i, p.items[i].expr), written, t);
      q.0 == r.0
      && Related(ctx, p, plan, i + 1, written[Val(p.items[i].id) := q.0], exact[Val(p.items[i].id) := r.0], q.1, r.1,
           RestCarrier(p.items[i], carrier))
  {
    hide OccItem, PlanOk, WfProg, CallsAlwaysRun, Render;
    var id, n := p.items[i].id, i + 1;
    DefValue(ctx, p, plan, i, written, exact, t, s, carrier);
    CarrierElsewhere(ctx, p, plan, i, written, exact, t, s, carrier);
    var r := Eval(ctx, p.items[i].expr, exact, s);
    var q := Eval(ctx, Render(p, plan, i, p.items[i].expr), written, t);
    var rest := RestCarrier(p.items[i], carrier);
    var written', exact' := written[Val(id) := q.0], exact[Val(id) := r.0];
    forall v: nat | Pending(p, plan, n, v) && Some(v) != rest ensures Steady(ctx, TreeOf(p, plan, v), written', Get(exact', Val(v))) {
      StillSteady(ctx, p, plan, i, v, written, exact, t, s, carrier, q.0, r.0);
    }
    if rest.Some? {
      CarrierUnused(p, plan, i, rest.value);
      OtherValue(p, plan, i, rest.value);
      TreeFrame(ctx, p, plan, i, rest.value, written, id, q.0, t);
    }
  }

  lemma StillSteady(ctx: Ctx, p: Prog, plan: Plan, i: nat, v: nat, written: Vars, exact: Vars, t: St, s: St, carrier: Option<nat>, x: int, y: int)
    requires PlanOk(p, plan) && WfProg(p) && i < |p.items| && p.items[i].Def? && p.items[i].id < p.values
    requires !plan.inlined[p.items[i].id] && Related(ctx, p, plan, i, written, exact, t, s, carrier)
    requires Pending(p, plan, i + 1, v) && Some(v) != RestCarrier(p.items[i], carrier)
    ensures Steady(ctx, TreeOf(p, plan, v), written[Val(p.items[i].id) := x], Get(exact[Val(p.items[i].id) := y], Val(v)))
  {
    hide OccItem, PlanOk, WfProg, TreeOf;
    var id := p.items[i].id;
    PendingNext(p, plan, i, v);
    DefinedThere(p, plan, v);
    OtherValue(p, plan, i, v);
    StillCarrier(ctx, p, plan, i, v, written, exact, t, s, carrier);
    assert Steady(ctx, TreeOf(p, plan, v), written, Get(exact, Val(v)));
    forall at ensures Eval(ctx, TreeOf(p, plan, v), written[Val(id) := x], at) == (Get(exact, Val(v)), at) {
      TreeFrame(ctx, p, plan, i, v, written, id, x, at);
      assert Eval(ctx, TreeOf(p, plan, v), written, at) == (Get(exact, Val(v)), at);
    }
  }

  lemma StillCarrier(ctx: Ctx, p: Prog, plan: Plan, i: nat, v: nat, written: Vars, exact: Vars, t: St, s: St, carrier: Option<nat>)
    requires PlanOk(p, plan) && i < |p.items| && p.items[i].Def? && Related(ctx, p, plan, i, written, exact, t, s, carrier)
    requires Pending(p, plan, i, v) && OccItem(p.items[i], v) == 0 && Some(v) != RestCarrier(p.items[i], carrier)
    ensures Some(v) != carrier
  {
    hide OccItem, PlanOk, TreeOf;
    DefOcc(p.items[i], v);
    if !p.items[i].kind.Pure? {
      UsedOnce(p, plan, i, v);
    }
  }

  // ---------------------------------------------------------------- edges

  /** Variables that agree on all values agree for every expression. */
  ghost predicate SameVals(a: Vars, b: Vars) {
    forall v: nat {:trigger Get(a, Val(v))} {:trigger Get(b, Val(v))} :: Get(a, Val(v)) == Get(b, Val(v))
  }

  lemma {:induction false} ExecConcat(ctx: Ctx, a: seq<CStmt>, b: seq<CStmt>, vars: Vars, s: St)
    ensures ExecStmts(ctx, a + b, vars, s)
      == var first := ExecStmts(ctx, a, vars, s); if first.Next? then ExecStmts(ctx, b, first.vars, first.s) else first
    decreases |a|
  {
    if a == [] {
      assert a + b == b;
    } else {
      assert (a + b)[1..] == a[1..] + b;
      var first := ExecStmt(ctx, a[0], vars, s);
      if first.Next? {
        ExecConcat(ctx, a[1..], b, first.vars, first.s);
      }
    }
  }

  lemma ExecOne(ctx: Ctx, stmt: CStmt, vars: Vars, s: St)
    ensures ExecStmts(ctx, [stmt], vars, s) == ExecStmt(ctx, stmt, vars, s)
  {
    assert [stmt][1..] == [];
  }

  lemma {:induction false} EvalAllSnoc(ctx: Ctx, es: seq<Expr>, n: nat, vars: Vars, s: St)
    requires n < |es|
    ensures var before := EvalAll(ctx, es[..n], vars, s);
      var last := Eval(ctx, es[n], vars, before.1);
      EvalAll(ctx, es[..n + 1], vars, s) == (before.0 + [last.0], last.1)
    decreases n
  {
    var first := Eval(ctx, es[0], vars, s);
    if n == 0 {
      assert es[..1] == [es[0]] && es[..1][1..] == [] && es[..0] == [];
      var none: seq<int> := [];
      assert none + [first.0] == [first.0] + none;
    } else {
      assert es[..n + 1][1..] == es[1..][..n] && es[..n][1..] == es[1..][..n - 1] && es[1..][n - 1] == es[n];
      EvalAllSnoc(ctx, es[1..], n - 1, vars, first.1);
      var rest := EvalAll(ctx, es[1..][..n - 1], vars, first.1);
      var last := Eval(ctx, es[n], vars, rest.1);
      assert [first.0] + (rest.0 + [last.0]) == ([first.0] + rest.0) + [last.0];
    }
  }

  /** The parameters of the target not mentioned, they can be set one by one. */
  lemma {:induction false} DirectRuns(ctx: Ctx, params: seq<nat>, rendered: seq<Expr>, n: nat, vars: Vars, s: St)
    requires n <= |params| == |rendered| && forall k | 0 <= k < |params| :: OccAll(rendered, params[k]) == 0
    ensures var r := EvalAll(ctx, rendered[..n], vars, s);
      ExecStmts(ctx, DirectSets(params, rendered, n), vars, s) == Next(AssignParams(vars, params[..n], r.0, n), r.1)
    decreases n
  {
    if n > 0 {
      DirectRuns(ctx, params, rendered, n - 1, vars, s);
      EvalAllSnoc(ctx, rendered, n - 1, vars, s);
      var before := EvalAll(ctx, rendered[..n - 1], vars, s);
      var now := AssignParams(vars, params[..n - 1], before.0, n - 1);
      ExecConcat(ctx, DirectSets(params, rendered, n - 1), [CSet(params[n - 1], rendered[n - 1])], vars, s);
      ExecOne(ctx, CSet(params[n - 1], rendered[n - 1]), now, before.1);
      forall v: nat | Occ(rendered[n - 1], v) > 0 ensures Get(now, Val(v)) == Get(vars, Val(v)) {
        OccMember(rendered, n - 1, v);
        OtherParams(vars, params[..n - 1], before.0, n - 1, v);
      }
      EvalFrame(ctx, rendered[n - 1], now, vars, before.1);
      var last := Eval(ctx, rendered[n - 1], vars, before.1);
      AssignPrefix(vars, params[..n], before.0 + [last.0], n - 1);
      assert params[..n][..n - 1] == params[..n - 1] && (before.0 + [last.0])[..n - 1] == before.0;
    }
  }

  lemma {:induction false} OccMember(es: seq<Expr>, k: nat, v: nat)
    requires k < |es|
    ensures OccAll(es, v) >= Occ(es[k], v)
    decreases |es|
  {
    if k > 0 {
      OccMember(es[1..], k - 1, v);
    }
  }

  lemma {:induction false} OtherParams(vars: Vars, params: seq<nat>, vals: seq<int>, n: nat, v: nat)
    requires n <= |params| == |vals| && forall k | 0 <= k < n :: params[k] != v
    ensures Get(AssignParams(vars, params, vals, n), Val(v)) == Get(vars, Val(v))
    decreases n
  {
    if n > 0 {
      OtherParams(vars, params, vals, n - 1, v);
    }
  }

  lemma {:induction false} AssignPrefix(vars: Vars, params: seq<nat>, vals: seq<int>, n: nat)
    requires n <= |params| == |vals|
    ensures AssignParams(vars, params, vals, n) == AssignParams(vars, params[..n], vals[..n], n)
    decreases n
  {
    if n > 0 {
      AssignPrefix(vars, params, vals, n - 1);
      AssignPrefix(vars, params[..n], vals[..n], n - 1);
      assert params[..n][..n - 1] == params[..n - 1] && vals[..n][..n - 1] == vals[..n - 1];
    }
  }

  /** First everything into temporaries ... */
  lemma {:induction false} TmpSetsRun(ctx: Ctx, rendered: seq<Expr>, base: nat, n: nat, vars: Vars, s: St) returns (held: Vars)
    requires n <= |rendered|
    ensures var r := EvalAll(ctx, rendered[..n], vars, s);
      ExecStmts(ctx, TmpSets(rendered, base, n), vars, s) == Next(held, r.1)
      && SameVals(held, vars) && forall k | 0 <= k < n :: Get(held, Tmp(base + k)) == r.0[k]
    decreases n
  {
    hide Eval, Occ, DirectSets, TmpCopies;
    if n == 0 {
      held := vars;
    } else {
      var before := TmpSetsRun(ctx, rendered, base, n - 1, vars, s);
      EvalAllSnoc(ctx, rendered, n - 1, vars, s);
      var r := EvalAll(ctx, rendered[..n - 1], vars, s);
      EvalFrame(ctx, rendered[n - 1], before, vars, r.1);
      var last := Eval(ctx, rendered[n - 1], vars, r.1);
      held := before[Tmp(base + n - 1) := last.0];
      ExecConcat(ctx, TmpSets(rendered, base, n - 1), [CSetTmp(base + n - 1, rendered[n - 1])], vars, s);
      ExecOne(ctx, CSetTmp(base + n - 1, rendered[n - 1]), before, r.1);
    }
  }

  /** ... then the parameters from them. */
  lemma {:induction false} TmpCopiesRun(ctx: Ctx, params: seq<nat>, base: nat, vals: seq<int>, n: nat, held: Vars, s: St) returns (done: Vars)
    requires n <= |params| == |vals| && forall k | 0 <= k < |vals| :: Get(held, Tmp(base + k)) == vals[k]
    ensures ExecStmts(ctx, TmpCopies(params, base, n), held, s) == Next(done, s)
    ensures done == AssignParams(held, params, vals, n)
    ensures forall k | 0 <= k < |vals| :: Get(done, Tmp(base + k)) == vals[k]
    decreases n
  {
    if n == 0 {
      done := held;
    } else {
      var before := TmpCopiesRun(ctx, params, base, vals, n - 1, held, s);
      done := before[Val(params[n - 1]) := Get(before, Tmp(base + n - 1))];
      ExecConcat(ctx, TmpCopies(params, base, n - 1), [CFromTmp(params[n - 1], base + n - 1)], held, s);
      ExecOne(ctx, CFromTmp(params[n - 1], base + n - 1), before, s);
    }
  }

  lemma {:induction false} AssignSame(a: Vars, b: Vars, params: seq<nat>, vals: seq<int>, n: nat)
    requires n <= |params| == |vals| && SameVals(a, b)
    ensures SameVals(AssignParams(a, params, vals, n), AssignParams(b, params, vals, n))
    decreases n
  {
    if n > 0 {
      AssignSame(a, b, params, vals, n - 1);
      var x, y := AssignParams(a, params, vals, n - 1), AssignParams(b, params, vals, n - 1);
      forall v: nat ensures Get(AssignParams(a, params, vals, n), Val(v)) == Get(AssignParams(b, params, vals, n), Val(v)) {
        assert Get(x, Val(v)) == Get(y, Val(v));
      }
    }
  }

  /** However it is written, an edge assigns the parameters all at once and jumps. */
  lemma EdgeRuns(ctx: Ctx, p: Prog, plan: Plan, i: nat, edge: Edge, tmp: nat, vars: Vars, s: St) returns (done: Vars)
    requires EdgeFits(p, edge)
    ensures var r := EvalAll(ctx, RenderAll(p, plan, i, edge.args), vars, s);
      ExecStmts(ctx, EdgeStmts(p, plan, i, edge, tmp), vars, s) == GoTo(edge.target, done, r.1)
      && SameVals(done, AssignParams(vars, p.params[edge.target], r.0, |edge.args|))
  {
    hide Eval, Render, Occ;
    var params, rendered := p.params[edge.target], RenderAll(p, plan, i, edge.args);
    var n := |params|;
    assert rendered[..n] == rendered && params[..n] == params;
    var r := EvalAll(ctx, rendered, vars, s);
    if Hazard(params, rendered) {
      var held := TmpSetsRun(ctx, rendered, tmp, n, vars, s);
      done := TmpCopiesRun(ctx, params, tmp, r.0, n, held, r.1);
      AssignSame(held, vars, params, r.0, n);
      ExecConcat(ctx, TmpSets(rendered, tmp, n), TmpCopies(params, tmp, n), vars, s);
      ExecConcat(ctx, TmpSets(rendered, tmp, n) + TmpCopies(params, tmp, n), [CGoto(edge.target)], vars, s);
    } else {
      DirectRuns(ctx, params, rendered, n, vars, s);
      done := AssignParams(vars, params, r.0, n);
      ExecConcat(ctx, DirectSets(params, rendered, n), [CGoto(edge.target)], vars, s);
    }
    ExecOne(ctx, CGoto(edge.target), done, r.1);
  }
}
