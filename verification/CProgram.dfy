/**
 The instruction stream the C backend records for one function, and its meaning: every definition
 is evaluated where it stands, and an edge assigns all parameters of its target at once.
 */
module CProgram {
  import opened Common

  datatype Expr =
    | Name(id: nat)
    | Lit(value: int)
      // operators, casts, fields, compound literals and pure helper calls
    | Op(op: nat, args: seq<Expr>)
    | Select(cond: Expr, yes: Expr, no: Expr)
      // a read through a pointer
    | Load(addr: Expr)
    | Call(func: nat, args: seq<Expr>)

  datatype Kind = Pure | MemRead | CallRet | RngVal

  datatype Edge = Edge(target: nat, args: seq<Expr>)

  datatype Case = Case(key: int, edge: Edge)

  datatype Item =
    | Def(id: nat, expr: Expr, kind: Kind)
    | Effect(expr: Expr)
    | Store(place: Expr, val: Expr)
    | Label(block: nat)
    | Jump(edge: Edge)
    | Branch(cond: Expr, yes: Edge, no: Edge)
    | Switch(index: Expr, cases: seq<Case>, fallback: Edge)
    | Ret(result: Option<Expr>)

  /** `params[b]` are the values block `b` takes; there are `values` values in all. */
  datatype Prog = Prog(items: seq<Item>, params: seq<seq<nat>>, values: nat)

  // ---------------------------------------------------------------- evaluation

  datatype Var = Val(id: nat) | Tmp(n: nat)

  type Vars = map<Var, int>

  function Get(vars: Vars, v: Var): int {
    if v in vars then vars[v] else 0
  }

  /** What a host observed: calls and random draws, in order. */
  datatype Event = Called(func: nat, args: seq<int>) | Drew

  type Mem = map<int, int>

  datatype St = St(mem: Mem, log: seq<Event>)

  /** Uninterpreted operators, and a host that may answer and write memory at every call. */
  datatype Ctx = Ctx(op: (nat, seq<int>) -> int, call: (Mem, seq<Event>) -> (int, Mem), rng: seq<Event> -> int)

  function Peek(mem: Mem, addr: int): int {
    if addr in mem then mem[addr] else 0
  }

  /** Evaluate left to right; only the chosen arm of a select is evaluated. */
  function Eval(ctx: Ctx, e: Expr, vars: Vars, s: St): (int, St)
    decreases e, 0
  {
    match e
    case Name(id) => (Get(vars, Val(id)), s)
    case Lit(value) => (value, s)
    case Op(op, args) =>
      var r := EvalAll(ctx, args, vars, s);
      (ctx.op(op, r.0), r.1)
    case Select(c, t, f) =>
      var r := Eval(ctx, c, vars, s);
      Eval(ctx, if r.0 != 0 then t else f, vars, r.1)
    case Load(addr) =>
      var r := Eval(ctx, addr, vars, s);
      (Peek(r.1.mem, r.0), r.1)
    case Call(func, args) =>
      var r := EvalAll(ctx, args, vars, s);
      var log := r.1.log + [Called(func, r.0)];
      var answer := ctx.call(r.1.mem, log);
      (answer.0, St(answer.1, log))
  }

  function EvalAll(ctx: Ctx, es: seq<Expr>, vars: Vars, s: St): (r: (seq<int>, St))
    ensures |r.0| == |es|
    decreases es, 1
  {
    if es == [] then ([], s)
    else
      var first := Eval(ctx, es[0], vars, s);
      var rest := EvalAll(ctx, es[1..], vars, first.1);
      ([first.0] + rest.0, rest.1)
  }

  // ---------------------------------------------------------------- shapes

  predicate PureExpr(e: Expr)
    decreases e, 0
  {
    match e
    case Name(_) => true
    case Lit(_) => true
    case Op(_, args) => AllPure(args)
    case Select(c, t, f) => PureExpr(c) && PureExpr(t) && PureExpr(f)
    case Load(_) => false
    case Call(_, _) => false
  }

  predicate AllPure(es: seq<Expr>)
    decreases es, 1
  {
    es == [] || (PureExpr(es[0]) && AllPure(es[1..]))
  }

  predicate HasCall(e: Expr)
    decreases e, 0
  {
    match e
    case Name(_) => false
    case Lit(_) => false
    case Op(_, args) => AnyCall(args)
    case Select(c, t, f) => HasCall(c) || HasCall(t) || HasCall(f)
    case Load(addr) => HasCall(addr)
    case Call(_, _) => true
  }

  predicate AnyCall(es: seq<Expr>)
    decreases es, 1
  {
    es != [] && (HasCall(es[0]) || AnyCall(es[1..]))
  }

  /** At most one read or call, with pure operands, under unary operators only. */
  predicate Simple(e: Expr) {
    || PureExpr(e)
    || (e.Load? && PureExpr(e.addr))
    || (e.Call? && AllPure(e.args))
    || (e.Op? && |e.args| == 1 && Simple(e.args[0]))
  }

  /** How often a value is named. */
  function Occ(e: Expr, v: nat): nat
    decreases e, 0
  {
    match e
    case Name(id) => if id == v then 1 else 0
    case Lit(_) => 0
    case Op(_, args) => OccAll(args, v)
    case Select(c, t, f) => Occ(c, v) + Occ(t, v) + Occ(f, v)
    case Load(addr) => Occ(addr, v)
    case Call(_, args) => OccAll(args, v)
  }

  function OccAll(es: seq<Expr>, v: nat): nat
    decreases es, 1
  {
    if es == [] then 0 else Occ(es[0], v) + OccAll(es[1..], v)
  }

  /** The expressions of an item, in the order they are evaluated. */
  function Parts(item: Item): seq<Expr> {
    match item
    case Def(_, expr, _) => [expr]
    case Effect(expr) => [expr]
    case Store(place, val) => [place, val]
    case Label(_) => []
    case Jump(edge) => edge.args
    case Branch(cond, yes, no) => [cond] + yes.args + no.args
    case Switch(index, cases, fallback) => [index] + CaseArgs(cases) + fallback.args
    case Ret(result) => if result.Some? then [result.value] else []
  }

  function CaseArgs(cases: seq<Case>): seq<Expr> {
    if cases == [] then [] else cases[0].edge.args + CaseArgs(cases[1..])
  }

  function OccItem(item: Item, v: nat): nat {
    OccAll(Parts(item), v)
  }

  predicate IsDef(item: Item, v: nat) {
    item.Def? && item.id == v
  }

  /** Values are defined once, before they are used; parameters are no definitions. */
  ghost predicate WfProg(p: Prog) {
    && (forall i | 0 <= i < |p.items| :: WfItem(p, i))
    && (forall i, j | 0 <= i < j < |p.items| && p.items[i].Def? && p.items[j].Def? :: p.items[i].id != p.items[j].id)
    && (forall b | 0 <= b < |p.params| :: WfParams(p, b))
  }

  ghost predicate WfParams(p: Prog, b: nat)
    requires b < |p.params|
  {
    && (forall k | 0 <= k < |p.params[b]| :: p.params[b][k] < p.values)
    && (forall j, k | 0 <= j < k < |p.params[b]| :: p.params[b][j] != p.params[b][k])
    && (forall i, k | 0 <= i < |p.items| && 0 <= k < |p.params[b]| :: !IsDef(p.items[i], p.params[b][k]))
  }

  predicate EdgeFits(p: Prog, edge: Edge) {
    edge.target < |p.params| && |edge.args| == |p.params[edge.target]| && AllPure(edge.args)
  }

  ghost predicate WfItem(p: Prog, i: nat)
    requires i < |p.items|
  {
    && (forall v: nat | OccItem(p.items[i], v) > 0 :: v < p.values)
    && (forall v: nat, d: nat | OccItem(p.items[i], v) > 0 && d < |p.items| && IsDef(p.items[d], v) :: d < i)
    && match p.items[i]
       case Def(id, expr, kind) =>
         && id < p.values && Simple(expr)
         && (kind.Pure? ==> PureExpr(expr)) && (kind.MemRead? ==> !HasCall(expr)) && (kind.RngVal? ==> expr.Lit?)
       case Effect(expr) => Simple(expr)
       case Store(place, val) => PureExpr(place) && PureExpr(val)
       case Label(_) => true
       case Jump(edge) => EdgeFits(p, edge)
       case Branch(cond, yes, no) => PureExpr(cond) && EdgeFits(p, yes) && EdgeFits(p, no)
       case Switch(index, cases, fallback) =>
         PureExpr(index) && EdgeFits(p, fallback) && forall k | 0 <= k < |cases| :: EdgeFits(p, cases[k].edge)
       case Ret(result) => result.Some? ==> PureExpr(result.value)
  }

  // ---------------------------------------------------------------- runs

  datatype Finish = Returned(value: Option<int>, s: St) | FellOff(s: St) | NoLabel | OutOfFuel

  function FindLabel(items: seq<Item>, block: nat, from: nat): Option<nat>
    requires from <= |items|
    decreases |items| - from
  {
    if from == |items| then None
    else if items[from] == Label(block) then Some(from)
    else FindLabel(items, block, from + 1)
  }

  /** All parameters at once, from values read before. */
  function AssignParams(vars: Vars, params: seq<nat>, vals: seq<int>, n: nat): Vars
    requires n <= |params| == |vals|
  {
    if n == 0 then vars else AssignParams(vars, params, vals, n - 1)[Val(params[n - 1]) := vals[n - 1]]
  }

  function ChooseEdge(index: int, cases: seq<Case>, fallback: Edge): Edge {
    if cases == [] then fallback
    else if cases[0].key == index then cases[0].edge
    else ChooseEdge(index, cases[1..], fallback)
  }

  /** Run from item `pc` on, with at most `fuel` jumps. */
  function RunItems(ctx: Ctx, fuel: nat, p: Prog, pc: nat, vars: Vars, s: St): Finish
    decreases fuel, 1, |p.items| - pc
  {
    if pc >= |p.items| then FellOff(s)
    else
      match p.items[pc]
      case Def(id, expr, kind) =>
        if kind.RngVal? then
          var log := s.log + [Drew];
          RunItems(ctx, fuel, p, pc + 1, vars[Val(id) := ctx.rng(log)], s.(log := log))
        else
          var r := Eval(ctx, expr, vars, s);
          RunItems(ctx, fuel, p, pc + 1, vars[Val(id) := r.0], r.1)
      case Effect(expr) => RunItems(ctx, fuel, p, pc + 1, vars, Eval(ctx, expr, vars, s).1)
      case Store(place, val) =>
        var a := Eval(ctx, place, vars, s);
        var r := Eval(ctx, val, vars, a.1);
        RunItems(ctx, fuel, p, pc + 1, vars, r.1.(mem := r.1.mem[a.0 := r.0]))
      case Label(_) => RunItems(ctx, fuel, p, pc + 1, vars, s)
      case Jump(edge) => RunEdge(ctx, fuel, p, edge, vars, s)
      case Branch(cond, yes, no) =>
        var r := Eval(ctx, cond, vars, s);
        RunEdge(ctx, fuel, p, if r.0 != 0 then yes else no, vars, r.1)
      case Switch(index, cases, fallback) =>
        var r := Eval(ctx, index, vars, s);
        RunEdge(ctx, fuel, p, ChooseEdge(r.0, cases, fallback), vars, r.1)
      case Ret(result) =>
        if result.None? then Returned(None, s)
        else
          var r := Eval(ctx, result.value, vars, s);
          Returned(Some(r.0), r.1)
  }

  function RunEdge(ctx: Ctx, fuel: nat, p: Prog, edge: Edge, vars: Vars, s: St): Finish
    decreases fuel, 0, 0
  {
    var at := FindLabel(p.items, edge.target, 0);
    if at.None? || edge.target >= |p.params| || |p.params[edge.target]| != |edge.args| then NoLabel
    else if fuel == 0 then OutOfFuel
    else
      var r := EvalAll(ctx, edge.args, vars, s);
      RunItems(ctx, fuel - 1, p, at.value, AssignParams(vars, p.params[edge.target], r.0, |edge.args|), r.1)
  }
}
