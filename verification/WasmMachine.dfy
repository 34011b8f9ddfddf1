/**
 A WebAssembly core machine: typed values, locals, an operand stack, structured control with
 labels (sections 4.4.5 and 4.4.6 of the WebAssembly Core Specification 1.0), and the flat
 instruction stream structured code is written as. `fuel` bounds the back edges of loops.
 */
module WasmMachine {
  import opened Common
  import opened Numbers

  const WORD32: nat := 0x1_0000_0000

  type U32 = x: nat | x < WORD32

  datatype Val = V32(n: U32) | V64(w: U64)

  function Size(is64: bool): (s: nat)
    ensures s > 0
  {
    if is64 then WORD else WORD32
  }

  function Bits64(is64: bool): nat {
    if is64 then 64 else 32
  }

  predicate Typed(v: Val, is64: bool) {
    v.V64? == is64
  }

  function Raw(v: Val): nat {
    if v.V64? then v.w else v.n
  }

  /** A number as a value of the given type; numbers wrap. */
  function Wrapped(n: int, is64: bool): (v: Val)
    ensures Typed(v, is64) && Raw(v) == n % Size(is64)
  {
    if is64 then V64(n % WORD) else V32(n % WORD32)
  }

  // ---------------------------------------------------------------- arithmetic

  datatype BinKind = AddK | SubK | MulK | UdivK | SdivK | AndK | OrK | XorK | ShlK | LshrK | AshrK

  function AsInt(x: nat, is64: bool): int {
    if 2 * x >= Size(is64) then x - Size(is64) else x
  }

  /** Division truncating toward zero. */
  function Truncated(a: int, b: int): int
    requires b != 0
  {
    var q := (if a < 0 then -a else a) / (if b < 0 then -b else b);
    if (a < 0) == (b < 0) then q else -q
  }

  /** The result of a binary instruction before wrapping; none where the instruction traps. */
  function Arith(kind: BinKind, is64: bool, x: nat, y: nat): Option<int> {
    var bits := Bits64(is64);
    match kind
    case AddK => Some(x + y)
    case SubK => Some(x - y)
    case MulK => Some(x * y)
    case UdivK => if y == 0 then None else Some(x / y)
    case SdivK =>
      var a, b := AsInt(x, is64), AsInt(y, is64);
      if b == 0 || (b == -1 && 2 * x == Size(is64)) then None else Some(Truncated(a, b))
    case AndK => Some(Num(Bitwise(GateAnd, Digits(x, bits), Digits(y, bits), bits)))
    case OrK => Some(Num(Bitwise(GateOr, Digits(x, bits), Digits(y, bits), bits)))
    case XorK => Some(Num(Bitwise(GateXor, Digits(x, bits), Digits(y, bits), bits)))
    case ShlK => Some(x * Pow2(y % bits))
    case LshrK => Some(x / Pow2(y % bits))
    case AshrK => Some(AsInt(x, is64) / Pow2(y % bits))
  }

  function Compared(pred: Pred, is64: bool, x: nat, y: nat): bool {
    match pred
    case Eq => x == y
    case Ne => x != y
    case Ult => x < y
    case Ule => x <= y
    case Ugt => x > y
    case Uge => x >= y
    case Slt => AsInt(x, is64) < AsInt(y, is64)
    case Sle => AsInt(x, is64) <= AsInt(y, is64)
    case Sgt => AsInt(x, is64) > AsInt(y, is64)
    case Sge => AsInt(x, is64) >= AsInt(y, is64)
  }

  function Flag(b: bool): Val {
    V32(if b then 1 else 0)
  }

  // ---------------------------------------------------------------- instructions

  datatype Prim =
    | LocalGet(local: nat)
    | LocalSet(local: nat)
    | ConstI(is64: bool, value: int)
    | BinI(kind: BinKind, is64: bool)
    | CmpI(pred: Pred, is64: bool)
    | ExtendU
    | ExtendS
    | WrapI
    | SelectI
      // a host function takes `arity` values and may answer with any number of results
    | CallI(func: nat, arity: nat)

  datatype Instr =
    | Plain(prim: Prim)
    | Block(body: seq<Instr>)
    | Loop(body: seq<Instr>)
    | If(thenCode: seq<Instr>, elseCode: seq<Instr>)
    | Br(depth: nat)
    | BrTable(targets: seq<nat>, fallback: nat)
    | Return
    | Unreachable

  /** Everything called so far, in order; the host's answers depend on nothing else. */
  datatype Invocation = Invocation(func: nat, args: seq<Val>)

  type Log = seq<Invocation>

  /** The answer of the host to the last call of the log; none where the host traps. */
  type Host = Log -> Option<seq<Val>>

  datatype Context = Context(host: Host, results: nat)

  datatype Mach = Mach(locals: seq<Val>, log: Log, stack: seq<Val>)

  datatype Outcome =
    | Normal(m: Mach)
    | Branch(depth: nat, m: Mach)
    | Returned(values: seq<Val>, log: Log)
    | Trapped(log: Log)
    | OutOfFuel
      // code that validation refuses
    | Stuck

  function Pop(stack: seq<Val>, n: nat): seq<Val>
    requires n <= |stack|
  {
    stack[..|stack| - n]
  }

  function Top(stack: seq<Val>, n: nat): (r: seq<Val>)
    requires n <= |stack|
    ensures |r| == n
  {
    stack[|stack| - n..]
  }

  function StepPrim(ctx: Context, p: Prim, m: Mach): Outcome {
    var depth := |m.stack|;
    match p
    case LocalGet(i) => if i < |m.locals| then Normal(m.(stack := m.stack + [m.locals[i]])) else Stuck
    case LocalSet(i) =>
      if i < |m.locals| && depth >= 1 then
        Normal(m.(locals := m.locals[i := m.stack[depth - 1]], stack := Pop(m.stack, 1)))
      else Stuck
    case ConstI(is64, value) => Normal(m.(stack := m.stack + [Wrapped(value, is64)]))
    case BinI(kind, is64) =>
      if depth < 2 || !Typed(m.stack[depth - 2], is64) || !Typed(m.stack[depth - 1], is64) then Stuck
      else
        var r := Arith(kind, is64, Raw(m.stack[depth - 2]), Raw(m.stack[depth - 1]));
        if r.None? then Trapped(m.log) else Normal(m.(stack := Pop(m.stack, 2) + [Wrapped(r.value, is64)]))
    case CmpI(pred, is64) =>
      if depth < 2 || !Typed(m.stack[depth - 2], is64) || !Typed(m.stack[depth - 1], is64) then Stuck
      else
        Normal(m.(stack := Pop(m.stack, 2) + [Flag(Compared(pred, is64, Raw(m.stack[depth - 2]), Raw(m.stack[depth - 1])))]))
    case ExtendU =>
      if depth < 1 || !m.stack[depth - 1].V32? then Stuck
      else Normal(m.(stack := Pop(m.stack, 1) + [V64(m.stack[depth - 1].n)]))
    case ExtendS =>
      if depth < 1 || !m.stack[depth - 1].V32? then Stuck
      else Normal(m.(stack := Pop(m.stack, 1) + [Wrapped(AsInt(m.stack[depth - 1].n, false), true)]))
    case WrapI =>
      if depth < 1 || !m.stack[depth - 1].V64? then Stuck
      else Normal(m.(stack := Pop(m.stack, 1) + [Wrapped(m.stack[depth - 1].w, false)]))
    case SelectI =>
      if depth < 3 || !m.stack[depth - 1].V32? then Stuck
      else Normal(m.(stack := Pop(m.stack, 3) + [if m.stack[depth - 1].n != 0 then m.stack[depth - 3] else m.stack[depth - 2]]))
    case CallI(func, arity) =>
      if depth < arity then Stuck
      else
        var log := m.log + [Invocation(func, Top(m.stack, arity))];
        var answer := ctx.host(log);
        if answer.None? then Trapped(log) else Normal(Mach(m.locals, log, Pop(m.stack, arity) + answer.value))
  }

  /** Run code in order; anything but normal completion ends it. */
  function Exec(ctx: Context, fuel: nat, code: seq<Instr>, m: Mach): Outcome
    decreases fuel, code, 0
  {
    if code == [] then Normal(m)
    else
      var first := ExecOne(ctx, fuel, code[0], m);
      if first.Normal? then Exec(ctx, fuel, code[1..], first.m) else first
  }

  function ExecOne(ctx: Context, fuel: nat, i: Instr, m: Mach): Outcome
    decreases fuel, i, 1
  {
    match i
    case Plain(p) => StepPrim(ctx, p, m)
    case Block(body) =>
      var r := Exec(ctx, fuel, body, m.(stack := []));
      Leave(r, m.stack)
    case Loop(body) =>
      var r := Exec(ctx, fuel, body, m.(stack := []));
      if r.Branch? && r.depth == 0 then
        if fuel == 0 then OutOfFuel else ExecOne(ctx, fuel - 1, i, r.m.(stack := m.stack))
      else Leave(r, m.stack)
    case If(thenCode, elseCode) =>
      if |m.stack| < 1 || !m.stack[|m.stack| - 1].V32? then Stuck
      else
        var below := Pop(m.stack, 1);
        var r := Exec(ctx, fuel, if m.stack[|m.stack| - 1].n != 0 then thenCode else elseCode, m.(stack := []));
        Leave(r, below)
    case Br(depth) => Branch(depth, m)
    case BrTable(targets, fallback) =>
      if |m.stack| < 1 || !m.stack[|m.stack| - 1].V32? then Stuck
      else
        var k := m.stack[|m.stack| - 1].n;
        Branch(if k < |targets| then targets[k] else fallback, m.(stack := Pop(m.stack, 1)))
    case Return => if |m.stack| < ctx.results then Stuck else Returned(Top(m.stack, ctx.results), m.log)
    case Unreachable => Trapped(m.log)
  }

  /** Leaving a labelled construct: branches to it end it, branches further out go on. */
  function Leave(r: Outcome, outer: seq<Val>): Outcome {
    match r
    case Normal(m) => if m.stack == [] then Normal(m.(stack := outer)) else Stuck
    case Branch(d, m) => if d == 0 then Normal(m.(stack := outer)) else Branch(d - 1, m)
    case _ => r
  }

  /** What a call of a function with this body comes to: the end of the body and its outermost label return. */
  function Conclude(r: Outcome, results: nat): Outcome {
    match r
    case Normal(m) => if |m.stack| == results then Returned(m.stack, m.log) else Stuck
    case Branch(d, m) => if d == 0 && |m.stack| >= results then Returned(Top(m.stack, results), m.log) else Stuck
    case _ => r
  }

  lemma {:induction false} ExecConcat(ctx: Context, fuel: nat, a: seq<Instr>, b: seq<Instr>, m: Mach)
    ensures Exec(ctx, fuel, a + b, m)
      == var first := Exec(ctx, fuel, a, m); if first.Normal? then Exec(ctx, fuel, b, first.m) else first
    decreases |a|
  {
    if a == [] {
      assert a + b == b;
    } else {
      assert (a + b)[1..] == a[1..] + b;
      var first := ExecOne(ctx, fuel, a[0], m);
      if first.Normal? {
        ExecConcat(ctx, fuel, a[1..], b, first.m);
      }
    }
  }

  // ---------------------------------------------------------------- the flat form

  datatype Token =
    | PlainT(prim: Prim)
    | BlockT
    | LoopT
    | IfT
    | ElseT
    | EndT
    | BrT(depth: nat)
    | BrTableT(targets: seq<nat>, fallback: nat)
    | ReturnT
    | UnreachableT

  function Flat(code: seq<Instr>): seq<Token>
    decreases code, 0
  {
    if code == [] then [] else FlatOne(code[0]) + Flat(code[1..])
  }

  function FlatOne(i: Instr): seq<Token>
    decreases i, 1
  {
    match i
    case Plain(p) => [PlainT(p)]
    case Block(body) => [BlockT] + Flat(body) + [EndT]
    case Loop(body) => [LoopT] + Flat(body) + [EndT]
    case If(a, b) => [IfT] + Flat(a) + (if b == [] then [] else [ElseT] + Flat(b)) + [EndT]
    case Br(depth) => [BrT(depth)]
    case BrTable(targets, fallback) => [BrTableT(targets, fallback)]
    case Return => [ReturnT]
    case Unreachable => [UnreachableT]
  }

  lemma {:induction false} FlatConcat(a: seq<Instr>, b: seq<Instr>)
    ensures Flat(a + b) == Flat(a) + Flat(b)
    decreases |a|
  {
    if a == [] {
      assert a + b == b;
    } else {
      assert (a + b)[1..] == a[1..] + b;
      FlatConcat(a[1..], b);
    }
  }

  lemma FlatSingle(i: Instr)
    ensures Flat([i]) == FlatOne(i)
  {
    assert [i][1..] == [];
  }

  /** What may follow structured code: nothing, or the end of the construct around it. */
  predicate Closes(rest: seq<Token>) {
    rest == [] || rest[0] == EndT || rest[0] == ElseT
  }

  /** The token a construct opens with. */
  function Head(i: Instr): (t: Token)
    ensures t != EndT && t != ElseT
  {
    match i
    case Plain(p) => PlainT(p)
    case Block(body) => BlockT
    case Loop(body) => LoopT
    case If(p, q) => IfT
    case Br(depth) => BrT(depth)
    case BrTable(targets, fallback) => BrTableT(targets, fallback)
    case Return => ReturnT
    case Unreachable => UnreachableT
  }

  lemma OpensWith(i: Instr, rest: seq<Token>)
    ensures FlatOne(i) + rest != [] && (FlatOne(i) + rest)[0] == Head(i)
  {
  }

  /** A flat stream is the flat form of at most one piece of structured code. */
  lemma {:induction false} FlatInjective(a: seq<Instr>, x: seq<Token>, b: seq<Instr>, y: seq<Token>)
    requires Flat(a) + x == Flat(b) + y && Closes(x) && Closes(y)
    ensures a == b && x == y
    decreases a, 0
  {
    hide Flat, FlatOne, Head;
    FlatUnrolled(a);
    FlatUnrolled(b);
    if a == [] && b == [] {
      assert Flat(a) + x == x && Flat(b) + y == y;
    } else if a == [] {
      assert Flat(a) + x == x && Flat(b) + y == FlatOne(b[0]) + (Flat(b[1..]) + y);
      OpensWith(b[0], Flat(b[1..]) + y);
      assert false;
    } else if b == [] {
      assert Flat(b) + y == y && Flat(a) + x == FlatOne(a[0]) + (Flat(a[1..]) + x);
      OpensWith(a[0], Flat(a[1..]) + x);
      assert false;
    } else {
      assert Flat(a) + x == FlatOne(a[0]) + (Flat(a[1..]) + x);
      assert Flat(b) + y == FlatOne(b[0]) + (Flat(b[1..]) + y);
      FlatOneInjective(a[0], Flat(a[1..]) + x, b[0], Flat(b[1..]) + y);
      FlatInjective(a[1..], x, b[1..], y);
      assert a == [a[0]] + a[1..] && b == [b[0]] + b[1..];
    }
  }

  lemma FlatUnrolled(a: seq<Instr>)
    ensures Flat(a) == if a == [] then [] else FlatOne(a[0]) + Flat(a[1..])
  {
  }

  lemma FlatOneInjective(i: Instr, x: seq<Token>, j: Instr, y: seq<Token>)
    requires FlatOne(i) + x == FlatOne(j) + y
    ensures i == j && x == y
    decreases i, 2
  {
    hide Flat;
    OpensWith(i, x);
    OpensWith(j, y);
    match i
    case Block(body) => SameBody(body, x, j.body, y, [BlockT]);
    case Loop(body) => SameBody(body, x, j.body, y, [LoopT]);
    case If(p, q) => SameArms(i, p, q, x, j.thenCode, j.elseCode, y);
    case _ =>
      assert (FlatOne(i) + x)[1..] == x && (FlatOne(j) + y)[1..] == y;
  }

  /** An empty else arm is not written. */
  function ElsePart(code: seq<Instr>): seq<Token> {
    if code == [] then [] else [ElseT] + Flat(code)
  }

  lemma SameArms(i: Instr, p: seq<Instr>, q: seq<Instr>, x: seq<Token>, p': seq<Instr>, q': seq<Instr>, y: seq<Token>)
    requires i == If(p, q)
    requires [IfT] + Flat(p) + ElsePart(q) + [EndT] + x == [IfT] + Flat(p') + ElsePart(q') + [EndT] + y
    ensures p == p' && q == q' && x == y
    decreases i, 1
  {
    hide Flat, ElsePart;
    var restX, restY := ElsePart(q) + ([EndT] + x), ElsePart(q') + ([EndT] + y);
    var s, t := [IfT] + (Flat(p) + restX), [IfT] + (Flat(p') + restY);
    assert s == [IfT] + Flat(p) + ElsePart(q) + [EndT] + x;
    assert t == [IfT] + Flat(p') + ElsePart(q') + [EndT] + y;
    assert s[1..] == Flat(p) + restX && t[1..] == Flat(p') + restY;
    ArmCloses(q, x);
    ArmCloses(q', y);
    FlatInjective(p, restX, p', restY);
    SameElse(i, q, x, q', y);
  }

  lemma ArmCloses(q: seq<Instr>, x: seq<Token>)
    ensures Closes(ElsePart(q) + ([EndT] + x)) && ElsePart(q) + ([EndT] + x) != []
    ensures (ElsePart(q) + ([EndT] + x))[0] == if q == [] then EndT else ElseT
  {
  }

  lemma SameElse(i: Instr, q: seq<Instr>, x: seq<Token>, q': seq<Instr>, y: seq<Token>)
    requires i.If? && i.elseCode == q && ElsePart(q) + ([EndT] + x) == ElsePart(q') + ([EndT] + y)
    ensures q == q' && x == y
    decreases i, 0
  {
    hide Flat;
    ArmCloses(q, x);
    ArmCloses(q', y);
    var restX, restY := ElsePart(q) + ([EndT] + x), ElsePart(q') + ([EndT] + y);
    if q == [] {
      assert restX[1..] == x && restY[1..] == y;
    } else {
      assert restX[1..] == Flat(q) + ([EndT] + x) && restY[1..] == Flat(q') + ([EndT] + y);
      FlatInjective(q, [EndT] + x, q', [EndT] + y);
      assert x == ([EndT] + x)[1..] && y == ([EndT] + y)[1..];
    }
  }

  lemma SameBody(a: seq<Instr>, x: seq<Token>, b: seq<Instr>, y: seq<Token>, open: seq<Token>)
    requires |open| == 1 && open + Flat(a) + [EndT] + x == open + Flat(b) + [EndT] + y
    ensures a == b && x == y
    decreases a, 2
  {
    hide Flat;
    var s, t := open + (Flat(a) + ([EndT] + x)), open + (Flat(b) + ([EndT] + y));
    assert s == open + Flat(a) + [EndT] + x && t == open + Flat(b) + [EndT] + y;
    assert s[1..] == Flat(a) + ([EndT] + x) && t[1..] == Flat(b) + ([EndT] + y);
    FlatInjective(a, [EndT] + x, b, [EndT] + y);
    assert x == ([EndT] + x)[1..] && y == ([EndT] + y)[1..];
  }
}
