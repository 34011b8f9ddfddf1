/**
 Writing a recorded function as C: folded definitions go into the expression that uses them,
 dropped ones vanish, and an edge assigns its target's parameters one by one unless that would
 overwrite a parameter still to be read. Statements are kept as syntax; `RunC` executes them.
 */
module CRender {
  import opened Common
  import opened CProgram
  import opened CFolding

  // ---------------------------------------------------------------- expressions

  predicate Folded(p: Prog, plan: Plan, i: nat, v: nat) {
    && v < |plan.inlined| && v < |plan.defItem| && plan.inlined[v] && plan.defItem[v].Some?
    && plan.defItem[v].value < i && plan.defItem[v].value < |p.items| && p.items[plan.defItem[v].value].Def?
  }

  /** An expression of item `i`, with folded definitions in place of their names. */
  function Render(p: Prog, plan: Plan, i: nat, e: Expr): Expr
    decreases i, e, 0
  {
    match e
    case Name(v) => if Folded(p, plan, i, v) then Tree(p, plan, i, v) else e
    case Lit(_) => e
    case Op(op, args) => Op(op, RenderAll(p, plan, i, args))
    case Select(c, t, f) => Select(Render(p, plan, i, c), Render(p, plan, i, t), Render(p, plan, i, f))
    case Load(addr) => Load(Render(p, plan, i, addr))
    case Call(func, args) => Call(func, RenderAll(p, plan, i, args))
  }

  function RenderAll(p: Prog, plan: Plan, i: nat, es: seq<Expr>): (r: seq<Expr>)
    ensures |r| == |es|
    decreases i, es, 1
  {
    if es == [] then [] else [Render(p, plan, i, es[0])] + RenderAll(p, plan, i, es[1..])
  }

  /** The whole tree a folded name stands for. */
  function Tree(p: Prog, plan: Plan, i: nat, v: nat): Expr
    requires Folded(p, plan, i, v)
    decreases i, Name(v), 0, 0
  {
    Render(p, plan, plan.defItem[v].value, p.items[plan.defItem[v].value].expr)
  }

  // ---------------------------------------------------------------- statements

  datatype CCase = CCase(key: int, body: seq<CStmt>)

  datatype CStmt =
    | CSet(id: nat, e: Expr)
    | CSetTmp(n: nat, e: Expr)
    | CFromTmp(id: nat, n: nat)
    | CDraw(id: nat)
    | CExpr(e: Expr)
    | CStore(place: Expr, val: Expr)
    | CLabel(block: nat)
    | CGoto(block: nat)
    | CIf(cond: Expr, yes: seq<CStmt>, no: seq<CStmt>)
    | CSwitch(index: Expr, cases: seq<CCase>, fallback: seq<CStmt>)
    | CReturn(result: Option<Expr>)

  /** Some rendered argument mentions a parameter of the target. */
  predicate Hazard(params: seq<nat>, rendered: seq<Expr>) {
    exists k :: 0 <= k < |params| && OccAll(rendered, params[k]) > 0
  }

  /** Parameters set one by one. */
  function DirectSets(params: seq<nat>, rendered: seq<Expr>, n: nat): seq<CStmt>
    requires n <= |params| == |rendered|
  {
    if n == 0 then [] else DirectSets(params, rendered, n - 1) + [CSet(params[n - 1], rendered[n - 1])]
  }

  function TmpSets(rendered: seq<Expr>, base: nat, n: nat): seq<CStmt>
    requires n <= |rendered|
  {
    if n == 0 then [] else TmpSets(rendered, base, n - 1) + [CSetTmp(base + n - 1, rendered[n - 1])]
  }

  function TmpCopies(params: seq<nat>, base: nat, n: nat): seq<CStmt>
    requires n <= |params|
  {
    if n == 0 then [] else TmpCopies(params, base, n - 1) + [CFromTmp(params[n - 1], base + n - 1)]
  }

  function EdgeStmts(p: Prog, plan: Plan, i: nat, edge: Edge, tmp: nat): seq<CStmt>
    requires EdgeFits(p, edge)
  {
    var params, rendered := p.params[edge.target], RenderAll(p, plan, i, edge.args);
    if Hazard(params, rendered) then
      TmpSets(rendered, tmp, |rendered|) + TmpCopies(params, tmp, |params|) + [CGoto(edge.target)]
    else DirectSets(params, rendered, |params|) + [CGoto(edge.target)]
  }

  function TmpAfterEdge(p: Prog, plan: Plan, i: nat, edge: Edge, tmp: nat): nat
    requires EdgeFits(p, edge)
  {
    if Hazard(p.params[edge.target], RenderAll(p, plan, i, edge.args)) then tmp + |edge.args| else tmp
  }

  predicate EdgesFit(p: Prog, item: Item) {
    match item
    case Jump(edge) => EdgeFits(p, edge)
    case Branch(_, yes, no) => EdgeFits(p, yes) && EdgeFits(p, no)
    case Switch(_, cases, fallback) => EdgeFits(p, fallback) && forall k | 0 <= k < |cases| :: EdgeFits(p, cases[k].edge)
    case _ => true
  }

  function CaseStmts(p: Prog, plan: Plan, i: nat, cases: seq<Case>, n: nat, tmp: nat): (seq<CCase>, nat)
    requires n <= |cases| && forall k | 0 <= k < |cases| :: EdgeFits(p, cases[k].edge)
  {
    if n == 0 then ([], tmp)
    else
      var before := CaseStmts(p, plan, i, cases, n - 1, tmp);
      (before.0 + [CCase(cases[n - 1].key, EdgeStmts(p, plan, i, cases[n - 1].edge, before.1))],
       TmpAfterEdge(p, plan, i, cases[n - 1].edge, before.1))
  }

  /** The statements of item `i`, and the next free temporary. */
  function ItemStmts(p: Prog, plan: Plan, i: nat, tmp: nat): (seq<CStmt>, nat)
    requires i < |p.items| && EdgesFit(p, p.items[i])
  {
    match p.items[i]
    case Def(id, expr, kind) =>
      if id < |plan.dropped| && id < |plan.inlined| && (plan.dropped[id] || plan.inlined[id]) then ([], tmp)
      else if kind.RngVal? then ([CDraw(id)], tmp)
      else ([CSet(id, Render(p, plan, i, expr))], tmp)
    case Effect(expr) => ([CExpr(Render(p, plan, i, expr))], tmp)
    case Store(place, val) => ([CStore(Render(p, plan, i, place), Render(p, plan, i, val))], tmp)
    case Label(block) => ([CLabel(block)], tmp)
    case Jump(edge) => (EdgeStmts(p, plan, i, edge, tmp), TmpAfterEdge(p, plan, i, edge, tmp))
    case Branch(cond, yes, no) =>
      var middle := TmpAfterEdge(p, plan, i, yes, tmp);
      ([CIf(Render(p, plan, i, cond), EdgeStmts(p, plan, i, yes, tmp), EdgeStmts(p, plan, i, no, middle))],
       TmpAfterEdge(p, plan, i, no, middle))
    case Switch(index, cases, fallback) =>
      var arms := CaseStmts(p, plan, i, cases, |cases|, tmp);
      ([CSwitch(Render(p, plan, i, index), arms.0, EdgeStmts(p, plan, i, fallback, arms.1))],
       TmpAfterEdge(p, plan, i, fallback, arms.1))
    case Ret(result) =>
      ([CReturn(if result.Some? then Some(Render(p, plan, i, result.value)) else None)], tmp)
  }

  /** The first `n` items: one chunk of statements each, and the next free temporary. */
  function Chunks(p: Prog, plan: Plan, n: nat): (r: (seq<seq<CStmt>>, nat))
    requires n <= |p.items| && forall i | 0 <= i < |p.items| :: EdgesFit(p, p.items[i])
    ensures |r.0| == n
  {
    if n == 0 then ([], 0)
    else
      var before := Chunks(p, plan, n - 1);
      var chunk := ItemStmts(p, plan, n - 1, before.1);
      (before.0 + [chunk.0], chunk.1)
  }

  // ---------------------------------------------------------------- the renderer

  /** The folded calls named in a statement. */
  function CollectEffecting(plan: Plan, e: Expr): seq<nat>
    decreases e, 0
  {
    match e
    case Name(v) => if v < |plan.effectInlined| && plan.effectInlined[v] then [v] else []
    case Lit(_) => []
    case Op(_, args) => CollectAll(plan, args)
    case Select(c, t, f) => CollectEffecting(plan, c) + CollectEffecting(plan, t) + CollectEffecting(plan, f)
    case Load(addr) => CollectEffecting(plan, addr)
    case Call(_, args) => CollectAll(plan, args)
  }

  function CollectAll(plan: Plan, es: seq<Expr>): seq<nat>
    decreases es, 1
  {
    if es == [] then [] else CollectEffecting(plan, es[0]) + CollectAll(plan, es[1..])
  }

  lemma {:induction false} CollectCounts(plan: Plan, e: Expr, v: nat)
    ensures multiset(CollectEffecting(plan, e))[v] == if v < |plan.effectInlined| && plan.effectInlined[v] then Occ(e, v) else 0
    decreases e, 0
  {
    match e
    case Name(_) =>
    case Lit(_) =>
    case Op(_, args) => CollectAllCounts(plan, args, v);
    case Select(c, t, f) =>
      CollectCounts(plan, c, v);
      CollectCounts(plan, t, v);
      CollectCounts(plan, f, v);
    case Load(addr) => CollectCounts(plan, addr, v);
    case Call(_, args) => CollectAllCounts(plan, args, v);
  }

  lemma {:induction false} CollectAllCounts(plan: Plan, es: seq<Expr>, v: nat)
    ensures multiset(CollectAll(plan, es))[v] == if v < |plan.effectInlined| && plan.effectInlined[v] then OccAll(es, v) else 0
    decreases es, 1
  {
    if es != [] {
      CollectCounts(plan, es[0], v);
      CollectAllCounts(plan, es[1..], v);
    }
  }

  /** Parts of one item that are rendered as one statement. */
  ghost predicate PartOf(p: Prog, i: nat, parts: seq<Expr>) {
    i < |p.items| && forall v: nat :: OccAll(parts, v) <= OccItem(p.items[i], v)
  }

  /** Two calls folded into one item are the same call: a later one would stand in the window of an earlier. */
  lemma SameCall(p: Prog, plan: Plan, i: nat, v: nat, w: nat)
    requires PlanOk(p, plan) && i < |p.items| && v < p.values && w < p.values && plan.effectInlined[v] && plan.effectInlined[w]
    requires OccItem(p.items[i], v) > 0 && OccItem(p.items[i], w) > 0
    ensures v == w && OccItem(p.items[i], v) == 1
  {
    hide OccItem;
    assert InlineOk(p, plan, v) && InlineOk(p, plan, w);
    var d, e := plan.defItem[v].value, plan.defItem[w].value;
    var u :| FoldsInto(p, plan, v, d, u);
    var t :| FoldsInto(p, plan, w, e, t);
    assert u == i && t == i;
    assert !PureDef(p.items[d]) && !PureDef(p.items[e]);
  }

  lemma {:induction false} AllSame(ids: seq<nat>, v: nat)
    requires forall w | w in ids :: w == v
    ensures multiset(ids)[v] == |ids|
  {
    if ids != [] {
      var rest := ids[1..];
      assert ids == [ids[0]] + rest;
      assert ids[0] in ids && forall w | w in rest :: w in ids;
      AllSame(rest, v);
    }
  }

  lemma AtMostOnce(ids: seq<nat>)
    requires forall v | v in ids :: multiset(ids)[v] <= 1
    requires forall v, w | v in ids && w in ids :: v == w
    ensures |ids| < 2
  {
    if ids != [] {
      assert ids[0] in ids;
      AllSame(ids, ids[0]);
    }
  }

  /**
   No statement ever names two folded calls, so the sequencing of calls through comma temporaries
   is never needed.
   */
  lemma AtMostOneEffect(p: Prog, plan: Plan, i: nat, parts: seq<Expr>)
    requires PlanOk(p, plan) && PartOf(p, i, parts)
    ensures |CollectAll(plan, parts)| < 2
  {
    hide OccItem, OccAll, PlanOk;
    var ids := CollectAll(plan, parts);
    forall v, w | v in ids && w in ids ensures v == w && multiset(ids)[v] <= 1 {
      CollectAllCounts(plan, parts, v);
      CollectAllCounts(plan, parts, w);
      assert v in multiset(ids) && w in multiset(ids);
      PlanWidth(p, plan);
      SameCall(p, plan, i, v, w);
    }
    AtMostOnce(ids);
  }

  lemma PlanWidth(p: Prog, plan: Plan)
    requires PlanOk(p, plan)
    ensures |plan.dropped| == |plan.inlined| == |plan.effectInlined| == |plan.defItem| == p.values
  {
  }

  class FoldRenderer {
    const p: Prog
    const plan: Plan
    var nextTmp: nat

    constructor (p: Prog, plan: Plan)
      ensures this.p == p && this.plan == plan && nextTmp == 0
    {
      this.p, this.plan, nextTmp := p, plan, 0;
    }

    /** The expressions of one statement; with fewer than two folded calls they render directly. */
    method StmtExprs(i: nat, parts: seq<Expr>) returns (rendered: seq<Expr>)
      requires PlanOk(p, plan) && PartOf(p, i, parts)
      ensures rendered == RenderAll(p, plan, i, parts)
    {
      var ids := CollectAll(plan, parts);
      AtMostOneEffect(p, plan, i, parts);
      if |ids| >= 2 {
        assert false;
      }
      rendered := RenderAll(p, plan, i, parts);
    }

    method RenderEdge(i: nat, edge: Edge) returns (stmts: seq<CStmt>)
      requires PlanOk(p, plan) && EdgeFits(p, edge) && PartOf(p, i, edge.args)
      modifies this`nextTmp
      ensures stmts == EdgeStmts(p, plan, i, edge, old(nextTmp)) && nextTmp == TmpAfterEdge(p, plan, i, edge, old(nextTmp))
    {
      var params := p.params[edge.target];
      var rendered := StmtExprs(i, edge.args);
      stmts := [];
      if !Hazard(params, rendered) {
        for k := 0 to |params|
          invariant stmts == DirectSets(params, rendered, k)
        {
          stmts := stmts + [CSet(params[k], rendered[k])];
        }
      } else {
        var base := nextTmp;
        nextTmp := nextTmp + |rendered|;
        for k := 0 to |rendered|
          invariant stmts == TmpSets(rendered, base, k)
        {
          stmts := stmts + [CSetTmp(base + k, rendered[k])];
        }
        for k := 0 to |params|
          invariant stmts == TmpSets(rendered, base, |rendered|) + TmpCopies(params, base, k)
        {
          stmts := stmts + [CFromTmp(params[k], base + k)];
        }
      }
      stmts := stmts + [CGoto(edge.target)];
    }

    /** One item's statements; a dropped or folded definition has none. */
    method RenderItem(i: nat) returns (stmts: seq<CStmt>)
      requires PlanOk(p, plan) && WfProg(p) && i < |p.items| && EdgesFit(p, p.items[i])
      modifies this`nextTmp
      ensures (stmts, nextTmp) == ItemStmts(p, plan, i, old(nextTmp))
    {
      hide WfProg, PlanOk, OccItem, Occ, OccAll, Hazard;
      var item := p.items[i];
      PartsOfItem(p, i);
      match item
      case Def(id, expr, kind) =>
        if id < |plan.dropped| && id < |plan.inlined| && (plan.dropped[id] || plan.inlined[id]) {
          return [];
        }
        if kind.RngVal? {
          return [CDraw(id)];
        }
        var rendered := StmtExprs(i, [expr]);
        stmts := [CSet(id, rendered[0])];
      case Effect(expr) =>
        var rendered := StmtExprs(i, [expr]);
        stmts := [CExpr(rendered[0])];
      case Store(place, val) =>
        var rendered := StmtExprs(i, [place, val]);
        assert [place, val][1..] == [val];
        stmts := [CStore(rendered[0], rendered[1])];
      case Label(block) =>
        stmts := [CLabel(block)];
      case Jump(edge) =>
        stmts := RenderEdge(i, edge);
      case Branch(cond, yes, no) =>
        var rendered := StmtExprs(i, [cond]);
        var yesStmts := RenderEdge(i, yes);
        var noStmts := RenderEdge(i, no);
        stmts := [CIf(rendered[0], yesStmts, noStmts)];
      case Switch(index, cases, fallback) =>
        var rendered := StmtExprs(i, [index]);
        var arms: seq<CCase> := [];
        for k := 0 to |cases|
          invariant (arms, nextTmp) == CaseStmts(p, plan, i, cases, k, old(nextTmp))
        {
          CasePart(p, i, cases, k);
          var body := RenderEdge(i, cases[k].edge);
          arms := arms + [CCase(cases[k].key, body)];
        }
        var fallbackStmts := RenderEdge(i, fallback);
        stmts := [CSwitch(rendered[0], arms, fallbackStmts)];
      case Ret(result) =>
        if result.None? {
          return [CReturn(None)];
        }
        var rendered := StmtExprs(i, [result.value]);
        stmts := [CReturn(Some(rendered[0]))];
    }

    method RenderBody() returns (chunks: seq<seq<CStmt>>)
      requires PlanOk(p, plan) && WfProg(p) && nextTmp == 0
      modifies this`nextTmp
      ensures forall i | 0 <= i < |p.items| :: EdgesFit(p, p.items[i])
      ensures chunks == Chunks(p, plan, |p.items|).0
    {
      hide WfItem, PlanOk, ItemStmts;
      AllEdgesFit(p);
      chunks := [];
      for i := 0 to |p.items|
        invariant (chunks, nextTmp) == Chunks(p, plan, i)
      {
        var stmts := RenderItem(i);
        chunks := chunks + [stmts];
      }
    }
  }

  lemma AllEdgesFit(p: Prog)
    requires WfProg(p)
    ensures forall i | 0 <= i < |p.items| :: EdgesFit(p, p.items[i])
  {
    hide OccItem;
    forall i | 0 <= i < |p.items| ensures EdgesFit(p, p.items[i]) {
      assert WfItem(p, i);
    }
  }

  lemma {:induction false} OccAllConcat(a: seq<Expr>, b: seq<Expr>, v: nat)
    ensures OccAll(a + b, v) == OccAll(a, v) + OccAll(b, v)
    decreases |a|
  {
    if a == [] {
      assert a + b == b;
    } else {
      assert (a + b)[1..] == a[1..] + b;
      OccAllConcat(a[1..], b, v);
    }
  }

  /** Each statement of an item renders some of its expressions. */
  lemma PartsOfItem(p: Prog, i: nat)
    requires i < |p.items|
    ensures PartOf(p, i, Parts(p.items[i]))
    ensures p.items[i].Jump? ==> PartOf(p, i, p.items[i].edge.args)
    ensures p.items[i].Branch? ==>
      PartOf(p, i, [p.items[i].cond]) && PartOf(p, i, p.items[i].yes.args) && PartOf(p, i, p.items[i].no.args)
    ensures p.items[i].Switch? ==> PartOf(p, i, [p.items[i].index]) && PartOf(p, i, p.items[i].fallback.args)
  {
    hide Occ, OccAll;
    forall v: nat ensures OccItem(p.items[i], v) == OccAll(Parts(p.items[i]), v) {
    }
    match p.items[i]
    case Branch(cond, yes, no) =>
      forall v: nat ensures OccItem(p.items[i], v) == OccAll([cond], v) + OccAll(yes.args, v) + OccAll(no.args, v) {
        OccAllConcat([cond], yes.args, v);
        OccAllConcat([cond] + yes.args, no.args, v);
      }
    case Switch(index, cases, fallback) =>
      forall v: nat ensures OccItem(p.items[i], v) == OccAll([index], v) + OccAll(CaseArgs(cases), v) + OccAll(fallback.args, v) {
        OccAllConcat([index], CaseArgs(cases), v);
        OccAllConcat([index] + CaseArgs(cases), fallback.args, v);
      }
    case _ =>
  }

  lemma CasePart(p: Prog, i: nat, cases: seq<Case>, k: nat)
    requires i < |p.items| && p.items[i].Switch? && p.items[i].cases == cases && k < |cases|
    ensures PartOf(p, i, cases[k].edge.args)
  {
    hide Occ, OccAll;
    forall v: nat ensures OccAll(cases[k].edge.args, v) <= OccItem(p.items[i], v) {
      OccAllConcat([p.items[i].index], CaseArgs(cases), v);
      OccAllConcat([p.items[i].index] + CaseArgs(cases), p.items[i].fallback.args, v);
      CaseOcc(cases, k, v);
    }
  }

  lemma {:induction false} CaseOcc(cases: seq<Case>, k: nat, v: nat)
    requires k < |cases|
    ensures OccAll(cases[k].edge.args, v) <= OccAll(CaseArgs(cases), v)
    decreases |cases|
  {
    hide Occ, OccAll;
    OccAllConcat(cases[0].edge.args, CaseArgs(cases[1..]), v);
    if k > 0 {
      CaseOcc(cases[1..], k - 1, v);
    }
  }

  // ---------------------------------------------------------------- executing the C statements

  datatype Step = Next(vars: Vars, s: St) | GoTo(block: nat, vars: Vars, s: St) | Leave(value: Option<int>, s: St)

  function ExecStmt(ctx: Ctx, stmt: CStmt, vars: Vars, s: St): Step
    decreases stmt, 0
  {
    match stmt
    case CSet(id, e) =>
      var r := Eval(ctx, e, vars, s);
      Next(vars[Val(id) := r.0], r.1)
    case CSetTmp(n, e) =>
      var r := Eval(ctx, e, vars, s);
      Next(vars[Tmp(n) := r.0], r.1)
    case CFromTmp(id, n) => Next(vars[Val(id) := Get(vars, Tmp(n))], s)
    case CDraw(id) =>
      var log := s.log + [Drew];
      Next(vars[Val(id) := ctx.rng(log)], s.(log := log))
    case CExpr(e) => Next(vars, Eval(ctx, e, vars, s).1)
    case CStore(place, val) =>
      var a := Eval(ctx, place, vars, s);
      var r := Eval(ctx, val, vars, a.1);
      Next(vars, r.1.(mem := r.1.mem[a.0 := r.0]))
    case CLabel(_) => Next(vars, s)
    case CGoto(block) => GoTo(block, vars, s)
    case CIf(cond, yes, no) =>
      var r := Eval(ctx, cond, vars, s);
      ExecStmts(ctx, if r.0 != 0 then yes else no, vars, r.1)
    case CSwitch(index, cases, fallback) =>
      var r := Eval(ctx, index, vars, s);
      var at := FindCase(r.0, cases);
      ExecStmts(ctx, if at.Some? then cases[at.value].body else fallback, vars, r.1)
    case CReturn(result) =>
      if result.None? then Leave(None, s)
      else
        var r := Eval(ctx, result.value, vars, s);
        Leave(Some(r.0), r.1)
  }

  function FindCase(key: int, cases: seq<CCase>): (at: Option<nat>)
    ensures at.Some? ==> at.value < |cases| && cases[at.value].key == key
  {
    if cases == [] then None
    else if cases[0].key == key then Some(0)
    else
      var rest := FindCase(key, cases[1..]);
      if rest.Some? then Some(rest.value + 1) else None
  }

  function ExecStmts(ctx: Ctx, stmts: seq<CStmt>, vars: Vars, s: St): Step
    decreases stmts, 1
  {
    if stmts == [] then Next(vars, s)
    else
      var first := ExecStmt(ctx, stmts[0], vars, s);
      if first.Next? then ExecStmts(ctx, stmts[1..], first.vars, first.s) else first
  }

  function FindChunk(chunks: seq<seq<CStmt>>, block: nat, from: nat): Option<nat>
    requires from <= |chunks|
    decreases |chunks| - from
  {
    if from == |chunks| then None
    else if chunks[from] == [CLabel(block)] then Some(from)
    else FindChunk(chunks, block, from + 1)
  }

  /** Run the body from chunk `pc` on, with at most `fuel` jumps. */
  function RunC(ctx: Ctx, fuel: nat, chunks: seq<seq<CStmt>>, pc: nat, vars: Vars, s: St): Finish
    decreases fuel, |chunks| - pc
  {
    if pc >= |chunks| then FellOff(s)
    else
      match ExecStmts(ctx, chunks[pc], vars, s)
      case Next(vars', s') => RunC(ctx, fuel, chunks, pc + 1, vars', s')
      case Leave(value, s') => Returned(value, s')
      case GoTo(block, vars', s') =>
        var at := FindChunk(chunks, block, 0);
        if at.None? then NoLabel
        else if fuel == 0 then OutOfFuel
        else RunC(ctx, fuel - 1, chunks, at.value, vars', s')
  }
}
