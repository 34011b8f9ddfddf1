/**
 Bristol Fashion circuits: reading the text, what a register file running the gates computes, and the
 import into a block in static single assignment form that computes the same.
 */
module Bristol {
  import opened Common
  import opened Numerals
  import opened BristolText

  const USIZE: nat := 0x1_0000_0000_0000_0000
  const U32: nat := 0x1_0000_0000

  // ---------------------------------------------------------------- circuits

  datatype AndOf = AndOf(a: nat, b: nat, out: nat)

  datatype Gate =
    | GAnd(a: nat, b: nat, out: nat)
    | GBatch(batch: seq<AndOf>)
    | GXor(a: nat, b: nat, out: nat)
    | GNot(input: nat, out: nat)
    | GConst(value: bool, out: nat)
    | GCopy(input: nat, out: nat)

  datatype Circuit = Circuit(wireCount: nat, inputGroups: seq<nat>, outputGroups: seq<nat>, gates: seq<Gate>)

  datatype Limits = Limits(maxGates: nat, maxWires: nat, maxIoWires: nat)

  datatype Error = Malformed | UnsupportedGate(op: string) | VarSpaceOverflow | LayoutMismatch | BadBlock | CountOverflow

  datatype Result<T> = Ok(value: T) | Err(error: Error)

  function Total(groups: seq<nat>): nat {
    if groups == [] then 0 else Total(groups[..|groups| - 1]) + groups[|groups| - 1]
  }

  /** The wires a gate reads, and those it assigns. */
  function GateInputs(g: Gate): seq<nat> {
    match g
    case GAnd(a, b, _) => [a, b]
    case GXor(a, b, _) => [a, b]
    case GBatch(batch) => BatchInputs(batch)
    case GNot(input, _) => [input]
    case GCopy(input, _) => [input]
    case GConst(_, _) => []
  }

  function BatchInputs(batch: seq<AndOf>): seq<nat> {
    if batch == [] then [] else BatchInputs(batch[..|batch| - 1]) + [batch[|batch| - 1].a, batch[|batch| - 1].b]
  }

  function GateOutputs(g: Gate): seq<nat> {
    match g
    case GBatch(batch) => seq(|batch|, i requires 0 <= i < |batch| => batch[i].out)
    case GAnd(_, _, out) => [out]
    case GXor(_, _, out) => [out]
    case GNot(_, out) => [out]
    case GCopy(_, out) => [out]
    case GConst(_, out) => [out]
  }

  function AsSet(wires: seq<nat>): set<nat> {
    set w | w in wires
  }

  /** Wires assigned by the first `n` gates. */
  function Produced(gates: seq<Gate>, n: nat): set<nat>
    requires n <= |gates|
  {
    if n == 0 then {} else Produced(gates, n - 1) + AsSet(GateOutputs(gates[n - 1]))
  }

  predicate NoRepeat(xs: seq<nat>) {
    forall i, j | 0 <= i < j < |xs| :: xs[i] != xs[j]
  }

  predicate GateFits(g: Gate, wireCount: nat) {
    && (forall w | w in GateInputs(g) :: w < wireCount)
    && (forall w | w in GateOutputs(g) :: w < wireCount)
    && NoRepeat(GateOutputs(g))
    && (g.GBatch? ==> g.batch != [])
  }

  /** Everything a gate reads, and every output, is an input or was assigned before. */
  ghost predicate WfCircuit(c: Circuit) {
    && c.wireCount < USIZE && Total(c.inputGroups) <= c.wireCount && Total(c.outputGroups) <= c.wireCount
    && (forall k | 0 <= k < |c.gates| :: GateFits(c.gates[k], c.wireCount) && ReadsDefined(c, k))
    && (forall w: nat | c.wireCount - Total(c.outputGroups) <= w < c.wireCount ::
          w < Total(c.inputGroups) || w in Produced(c.gates, |c.gates|))
  }

  ghost predicate ReadsDefined(c: Circuit, k: nat)
    requires k < |c.gates|
  {
    forall w | w in GateInputs(c.gates[k]) :: w < Total(c.inputGroups) || w in Produced(c.gates, k)
  }

  // ---------------------------------------------------------------- reading

  function ParseUsize(token: string): Option<nat> {
    ParseUnsigned(token, USIZE)
  }

  function ParseAll(tokens: seq<string>): (r: Option<seq<nat>>)
    ensures r.Some? ==> |r.value| == |tokens|
  {
    if tokens == [] then Some([])
    else
      var before := ParseAll(tokens[..|tokens| - 1]);
      var last := ParseUsize(tokens[|tokens| - 1]);
      if before.None? || last.None? then None else Some(before.value + [last.value])
  }

  /** A group line: how many groups, then their widths. */
  function ParseGroups(parts: seq<string>): (r: Result<seq<nat>>) {
    if parts == [] then Err(Malformed)
    else
      var count := ParseUsize(parts[0]);
      var widths := ParseAll(parts[1..]);
      if count.None? || count.value + 1 >= USIZE || |parts| != count.value + 1 || widths.None? || Total(widths.value) >= USIZE then Err(Malformed)
      else Ok(widths.value)
  }

  function PairUp(inputs: seq<nat>, outputs: seq<nat>, n: nat): (r: seq<AndOf>)
    requires |inputs| == 2 * |outputs| && n <= |outputs|
    ensures |r| == n && forall i | 0 <= i < n :: r[i] == AndOf(inputs[2 * i], inputs[2 * i + 1], outputs[i])
  {
    seq(n, i requires 0 <= i < n => AndOf(inputs[2 * i], inputs[2 * i + 1], outputs[i]))
  }

  function ParseGate(parts: seq<string>, wireCount: nat): Result<Gate> {
    if |parts| < 3 then Err(Malformed)
    else
      var ins := ParseUsize(parts[0]);
      var outs := ParseUsize(parts[1]);
      if ins.None? || outs.None? || ins.value + outs.value + 3 >= USIZE || |parts| != ins.value + outs.value + 3 then Err(Malformed)
      else
        var inputs := ParseAll(parts[2..2 + ins.value]);
        var outputs := ParseAll(parts[2 + ins.value..2 + ins.value + outs.value]);
        if inputs.None? || outputs.None? then Err(Malformed)
        else MakeGate(parts[2 + ins.value + outs.value], inputs.value, outputs.value, wireCount)
  }

  function MakeGate(op: string, inputs: seq<nat>, outputs: seq<nat>, wireCount: nat): Result<Gate> {
    if exists w :: w in outputs && w >= wireCount then Err(Malformed)
    else if op != "EQ" && exists w :: w in inputs && w >= wireCount then Err(Malformed)
    else if !NoRepeat(outputs) then Err(Malformed)
    else if op == "AND" && |inputs| == 2 && |outputs| == 1 then Ok(GAnd(inputs[0], inputs[1], outputs[0]))
    else if op == "XOR" && |inputs| == 2 && |outputs| == 1 then Ok(GXor(inputs[0], inputs[1], outputs[0]))
    else if (op == "INV" || op == "NOT") && |inputs| == 1 && |outputs| == 1 then Ok(GNot(inputs[0], outputs[0]))
    else if op == "EQ" && |inputs| == 1 && |outputs| == 1 then
      if inputs[0] > 1 then Err(Malformed) else Ok(GConst(inputs[0] == 1, outputs[0]))
    else if op == "EQW" && |inputs| == 1 && |outputs| == 1 then Ok(GCopy(inputs[0], outputs[0]))
    else if op == "MAND" && |outputs| > 0 && |inputs| == 2 * |outputs| then Ok(GBatch(PairUp(inputs, outputs, |outputs|)))
    else if op in {"AND", "XOR", "INV", "NOT", "EQ", "EQW", "MAND"} then Err(Malformed)
    else Err(UnsupportedGate(op))
  }

  /** The header: gate count, wire count, and the two groupings. */
  function ParseHeader(records: seq<seq<string>>, limits: Limits): Result<Circuit> {
    if |records| < 3 || |records[0]| != 2 then Err(Malformed)
    else
      var gateCount := ParseUsize(records[0][0]);
      var wireCount := ParseUsize(records[0][1]);
      if gateCount.None? || wireCount.None? || gateCount.value > limits.maxGates || wireCount.value > limits.maxWires then Err(Malformed)
      else
        var inputs := ParseGroups(records[1]);
        if inputs.Err? then Err(inputs.error)
        else
          var outputs := ParseGroups(records[2]);
          if outputs.Err? then Err(outputs.error)
          else if Total(inputs.value) > limits.maxIoWires || Total(outputs.value) > limits.maxIoWires then Err(Malformed)
          else if Total(inputs.value) > wireCount.value || Total(outputs.value) > wireCount.value then Err(Malformed)
          else if |records| != 3 + gateCount.value then Err(Malformed)
          else Ok(Circuit(wireCount.value, inputs.value, outputs.value, []))
  }

  predicate Undefined(wires: seq<nat>, inputCount: nat, produced: set<nat>) {
    exists w :: w in wires && w >= inputCount && w !in produced
  }

  predicate AllDefined(from: int, to: nat, inputCount: nat, produced: set<nat>) {
    forall w: int | from <= w < to && w >= inputCount :: w in produced
  }

  /** The first `n` gate lines, each reading only what is defined by then. */
  function ParseGates(lines: seq<seq<string>>, n: nat, wireCount: nat, inputCount: nat): Result<seq<Gate>>
    requires n <= |lines|
  {
    if n == 0 then Ok([])
    else
      var before := ParseGates(lines, n - 1, wireCount, inputCount);
      if before.Err? then before
      else
        var gate := ParseGate(lines[n - 1], wireCount);
        if gate.Err? then Err(gate.error)
        else if Undefined(GateInputs(gate.value), inputCount, Produced(before.value, |before.value|)) then Err(Malformed)
        else Ok(before.value + [gate.value])
  }

  /** A whole file. */
  function Parse(text: string, limits: Limits): Result<Circuit> {
    var records := Records(text);
    var header := ParseHeader(records, limits);
    if header.Err? then header
    else
      var c := header.value;
      var gates := ParseGates(records[3..], |records| - 3, c.wireCount, Total(c.inputGroups));
      if gates.Err? then Err(gates.error)
      else if !AllDefined(c.wireCount - Total(c.outputGroups), c.wireCount, Total(c.inputGroups), Produced(gates.value, |gates.value|)) then
        Err(Malformed)
      else Ok(c.(gates := gates.value))
  }

  /** Read a file line by line, keeping the set of wires assigned so far. */
  method ParseBristol(text: string, limits: Limits) returns (r: Result<Circuit>)
    ensures r == Parse(text, limits)
    ensures r.Ok? ==> WfCircuit(r.value) && |r.value.gates| <= limits.maxGates && r.value.wireCount <= limits.maxWires
  {
    hide ParseGate, Total, ParseHeader, WfCircuit, Produced, GateInputs, GateOutputs, Undefined, AsSet, Records;
    var records := Records(text);
    HeaderShape(records, limits);
    var header := ParseHeader(records, limits);
    if header.Err? {
      return header;
    }
    var c := header.value;
    var lines, inputCount := records[3..], Total(c.inputGroups);
    var gates: seq<Gate>, produced: set<nat> := [], {};
    ProducedNone(gates);
    for i := 0 to |lines|
      invariant ParseGates(lines, i, c.wireCount, inputCount) == Ok(gates) && produced == Produced(gates, |gates|) && |gates| == i
    {
      var parsed := ParseGate(lines[i], c.wireCount);
      if parsed.Err? {
        StuckGates(lines, i + 1, |lines|, c.wireCount, inputCount);
        return Err(parsed.error);
      }
      if Undefined(GateInputs(parsed.value), inputCount, produced) {
        StuckGates(lines, i + 1, |lines|, c.wireCount, inputCount);
        return Err(Malformed);
      }
      ProducedSnoc(gates, parsed.value);
      produced := produced + AsSet(GateOutputs(parsed.value));
      gates := gates + [parsed.value];
    }
    var firstOutput := c.wireCount - Total(c.outputGroups);
    for w := firstOutput to c.wireCount
      invariant forall v: nat | firstOutput <= v < w :: v < inputCount || v in produced
    {
      if w >= inputCount && w !in produced {
        return Err(Malformed);
      }
    }
    r := Ok(c.(gates := gates));
    ParsedWf(text, limits);
  }

  lemma HeaderShape(records: seq<seq<string>>, limits: Limits)
    ensures ParseHeader(records, limits).Ok? ==>
      |records| >= 3 && |records| - 3 <= limits.maxGates && ParseHeader(records, limits).value.wireCount <= limits.maxWires
    ensures ParseHeader(records, limits).Ok? ==>
      var c := ParseHeader(records, limits).value;
      c.gates == [] && c.wireCount < USIZE && Total(c.inputGroups) <= c.wireCount && Total(c.outputGroups) <= c.wireCount
  {
    hide Total, ParseGroups;
  }

  lemma ProducedNone(gates: seq<Gate>)
    ensures Produced(gates, 0) == {}
  {
  }

  lemma {:induction false} ProducedPrefix(gates: seq<Gate>, g: Gate, n: nat)
    requires n <= |gates|
    ensures Produced(gates + [g], n) == Produced(gates, n)
    decreases n
  {
    hide GateOutputs;
    if n > 0 {
      ProducedPrefix(gates, g, n - 1);
    }
  }

  lemma ProducedSnoc(gates: seq<Gate>, g: Gate)
    ensures Produced(gates + [g], |gates| + 1) == Produced(gates, |gates|) + AsSet(GateOutputs(g))
  {
    hide GateOutputs, AsSet;
    ProducedPrefix(gates, g, |gates|);
  }

  /** A failure is final. */
  lemma {:induction false} StuckGates(lines: seq<seq<string>>, i: nat, n: nat, wireCount: nat, inputCount: nat)
    requires i <= n <= |lines| && ParseGates(lines, i, wireCount, inputCount).Err?
    ensures ParseGates(lines, n, wireCount, inputCount) == ParseGates(lines, i, wireCount, inputCount)
    decreases n
  {
    hide ParseGate, Undefined, Produced;
    if i < n {
      StuckGates(lines, i, n - 1, wireCount, inputCount);
    }
  }

  lemma {:induction false} GatesWf(lines: seq<seq<string>>, n: nat, wireCount: nat, inputCount: nat)
    requires n <= |lines| && ParseGates(lines, n, wireCount, inputCount).Ok?
    ensures var gates := ParseGates(lines, n, wireCount, inputCount).value;
      |gates| == n && forall k | 0 <= k < n :: GateFits(gates[k], wireCount) && !Undefined(GateInputs(gates[k]), inputCount, Produced(gates, k))
    decreases n
  {
    hide ParseGate, Produced, GateFits, GateInputs;
    if n > 0 {
      GatesWf(lines, n - 1, wireCount, inputCount);
      var before := ParseGates(lines, n - 1, wireCount, inputCount).value;
      var gate := ParseGate(lines[n - 1], wireCount).value;
      GateParsed(lines[n - 1], wireCount);
      forall k: nat | k < n ensures Produced(before + [gate], k) == Produced(before, k) {
        ProducedPrefix(before, gate, k);
      }
    }
  }

  lemma GateParsed(parts: seq<string>, wireCount: nat)
    requires ParseGate(parts, wireCount).Ok?
    ensures GateFits(ParseGate(parts, wireCount).value, wireCount)
  {
    hide ParseAll, ParseUsize, GateFits, MakeGate;
    var ins, outs := ParseUsize(parts[0]).value, ParseUsize(parts[1]).value;
    GateMade(parts[2 + ins + outs], ParseAll(parts[2..2 + ins]).value, ParseAll(parts[2 + ins..2 + ins + outs]).value, wireCount);
  }

  lemma GateMade(op: string, inputs: seq<nat>, outputs: seq<nat>, wireCount: nat)
    requires MakeGate(op, inputs, outputs, wireCount).Ok?
    ensures GateFits(MakeGate(op, inputs, outputs, wireCount).value, wireCount)
  {
    var g := MakeGate(op, inputs, outputs, wireCount).value;
    if g.GBatch? {
      var batch := g.batch;
      assert GateOutputs(g) == outputs;
      forall w | w in BatchInputs(batch) ensures w in inputs {
        var i := BatchInputOf(batch, w);
      }
    } else {
      assert GateOutputs(g) == outputs;
      assert |"EQ"| == 2 && |"AND"| == 3 && |"XOR"| == 3 && |"INV"| == 3 && |"NOT"| == 3 && |"EQW"| == 3;
      if !g.GConst? {
        assert op != "EQ" && GateInputs(g) == inputs;
      }
    }
  }

  lemma {:induction false} BatchInputOf(batch: seq<AndOf>, w: nat) returns (i: nat)
    requires w in BatchInputs(batch)
    ensures i < |batch| && (w == batch[i].a || w == batch[i].b)
    decreases |batch|
  {
    var n := |batch| - 1;
    if w == batch[n].a || w == batch[n].b {
      i := n;
    } else {
      i := BatchInputOf(batch[..n], w);
    }
  }

  /** What was read is well formed. */
  lemma ParsedWf(text: string, limits: Limits)
    requires Parse(text, limits).Ok?
    ensures WfCircuit(Parse(text, limits).value)
  {
    hide ParseHeader, ParseGates, Total, GateFits, GateInputs, Produced;
    var records := Records(text);
    HeaderShape(records, limits);
    var c := ParseHeader(records, limits).value;
    GatesWf(records[3..], |records| - 3, c.wireCount, Total(c.inputGroups));
    var done := Parse(text, limits).value;
    forall k | 0 <= k < |done.gates| ensures ReadsDefined(done, k) {
    }
  }

  // ---------------------------------------------------------------- what a circuit computes

  type Registers = map<nat, bool>

  function Reg(regs: Registers, w: nat): bool {
    w in regs && regs[w]
  }

  /** A batch reads every operand before it assigns any output. */
  function WriteBatch(before: Registers, regs: Registers, batch: seq<AndOf>, n: nat): Registers
    requires n <= |batch|
  {
    if n == 0 then regs
    else WriteBatch(before, regs, batch, n - 1)[batch[n - 1].out := Reg(before, batch[n - 1].a) && Reg(before, batch[n - 1].b)]
  }

  function StepGate(regs: Registers, g: Gate): Registers {
    match g
    case GAnd(a, b, out) => regs[out := Reg(regs, a) && Reg(regs, b)]
    case GXor(a, b, out) => regs[out := Reg(regs, a) != Reg(regs, b)]
    case GBatch(batch) => WriteBatch(regs, regs, batch, |batch|)
    case GNot(input, out) => regs[out := !Reg(regs, input)]
    case GConst(value, out) => regs[out := value]
    case GCopy(input, out) => regs[out := Reg(regs, input)]
  }

  /** The register file after the first `n` gates; inputs start in the lowest wires. */
  function RunGates(gates: seq<Gate>, n: nat, inputs: seq<bool>): Registers
    requires n <= |gates|
  {
    if n == 0 then map i: nat | 0 <= i < |inputs| :: inputs[i]
    else StepGate(RunGates(gates, n - 1, inputs), gates[n - 1])
  }

  /** The outputs are the highest wires. */
  function RunCircuit(c: Circuit, inputs: seq<bool>): seq<bool>
    requires Total(c.outputGroups) <= c.wireCount
  {
    var regs := RunGates(c.gates, |c.gates|, inputs);
    seq(Total(c.outputGroups), j requires 0 <= j < Total(c.outputGroups) => Reg(regs, c.wireCount - Total(c.outputGroups) + j))
  }

  // ---------------------------------------------------------------- blocks

  datatype Stmt = Zero | One | And(a: nat, b: nat) | Or(a: nat, b: nat) | Xor(a: nat, b: nat) | Not(v: nat) | Storage

  /** Statement `i` defines value `params + i`. */
  datatype Block = Block(params: nat, stmts: seq<Stmt>, outputs: seq<nat>)

  function ValueOf(env: seq<bool>, v: nat): bool {
    v < |env| && env[v]
  }

  function EvalStmt(s: Stmt, env: seq<bool>): bool {
    match s
    case Zero => false
    case One => true
    case And(a, b) => ValueOf(env, a) && ValueOf(env, b)
    case Or(a, b) => ValueOf(env, a) || ValueOf(env, b)
    case Xor(a, b) => ValueOf(env, a) != ValueOf(env, b)
    case Not(v) => !ValueOf(env, v)
    case Storage => false
  }

  function EvalStmts(stmts: seq<Stmt>, n: nat, inputs: seq<bool>): (env: seq<bool>)
    requires n <= |stmts|
    ensures |env| == |inputs| + n
  {
    if n == 0 then inputs
    else
      var env := EvalStmts(stmts, n - 1, inputs);
      env + [EvalStmt(stmts[n - 1], env)]
  }

  function EvalBlock(b: Block, inputs: seq<bool>): seq<bool> {
    var env := EvalStmts(b.stmts, |b.stmts|, inputs);
    seq(|b.outputs|, j requires 0 <= j < |b.outputs| => ValueOf(env, b.outputs[j]))
  }

  lemma {:induction false} EvalPrefix(stmts: seq<Stmt>, s: Stmt, n: nat, inputs: seq<bool>)
    requires n <= |stmts|
    ensures EvalStmts(stmts + [s], n, inputs) == EvalStmts(stmts, n, inputs)
    decreases n
  {
    hide EvalStmt;
    if n > 0 {
      EvalPrefix(stmts, s, n - 1, inputs);
    }
  }

  // ---------------------------------------------------------------- import

  /** Where the importer stands: the statements so far, and the value each reassigned wire holds. */
  datatype Import = Import(stmts: seq<Stmt>, current: map<nat, nat>)

  /** The value a wire holds; inputs hold their own parameter until they are reassigned. */
  function Current(current: map<nat, nat>, inputCount: nat, w: nat): Option<nat> {
    if w in current then Some(current[w]) else if w < inputCount then Some(w) else None
  }

  function Cur(current: map<nat, nat>, w: nat): nat {
    if w in current then current[w] else w
  }

  /** Push a statement and let `out` hold its value. */
  function Bind(imp: Import, params: nat, s: Stmt, out: nat): Import {
    Import(imp.stmts + [s], imp.current[out := params + |imp.stmts|])
  }

  function ImportBatch(before: map<nat, nat>, imp: Import, params: nat, batch: seq<AndOf>, n: nat): Import
    requires n <= |batch|
  {
    if n == 0 then imp
    else Bind(ImportBatch(before, imp, params, batch, n - 1), params, And(Cur(before, batch[n - 1].a), Cur(before, batch[n - 1].b)), batch[n - 1].out)
  }

  function ImportGate(imp: Import, params: nat, g: Gate): Import {
    match g
    case GAnd(a, b, out) => Bind(imp, params, And(Cur(imp.current, a), Cur(imp.current, b)), out)
    case GXor(a, b, out) => Bind(imp, params, Xor(Cur(imp.current, a), Cur(imp.current, b)), out)
    case GBatch(batch) => ImportBatch(imp.current, imp, params, batch, |batch|)
    case GNot(input, out) => Bind(imp, params, Not(Cur(imp.current, input)), out)
    case GConst(value, out) => Bind(imp, params, if value then One else Zero, out)
    case GCopy(input, out) => Import(imp.stmts, imp.current[out := Cur(imp.current, input)])
  }

  function ImportGates(gates: seq<Gate>, params: nat, n: nat): Import
    requires n <= |gates|
  {
    if n == 0 then Import([], map[]) else ImportGate(ImportGates(gates, params, n - 1), params, gates[n - 1])
  }

  function ImportBlock(c: Circuit): Block
    requires Total(c.outputGroups) <= c.wireCount
  {
    var params := Total(c.inputGroups);
    var imp := ImportGates(c.gates, params, |c.gates|);
    var outputs := Total(c.outputGroups);
    Block(params, imp.stmts, seq<nat>(outputs, j requires 0 <= j < outputs => Cur(imp.current, c.wireCount - outputs + j)))
  }

  /** Wires that hold something hold, in the block, what the register file holds. */
  ghost predicate Mirrors(imp: Import, params: nat, inputs: seq<bool>, regs: Registers, defined: set<nat>) {
    |inputs| == params && forall w: nat {:trigger WireOk(imp, params, inputs, regs, w)} | w < params || w in defined :: WireOk(imp, params, inputs, regs, w)
  }

  ghost predicate WireOk(imp: Import, params: nat, inputs: seq<bool>, regs: Registers, w: nat) {
    && (w in imp.current || w < params)
    && Cur(imp.current, w) < params + |imp.stmts|
    && ValueOf(EvalStmts(imp.stmts, |imp.stmts|, inputs), Cur(imp.current, w)) == Reg(regs, w)
  }

  /** Pushing a statement keeps what wires hold, except for the wire it is bound to. */
  lemma BindMirrors(imp: Import, params: nat, inputs: seq<bool>, regs: Registers, defined: set<nat>, s: Stmt, out: nat, x: bool)
    requires Mirrors(imp, params, inputs, regs, defined) && x == EvalStmt(s, EvalStmts(imp.stmts, |imp.stmts|, inputs))
    ensures Mirrors(Bind(imp, params, s, out), params, inputs, regs[out := x], defined + {out})
  {
    hide EvalStmt;
    var next := Bind(imp, params, s, out);
    EvalPrefix(imp.stmts, s, |imp.stmts|, inputs);
    var env := EvalStmts(imp.stmts, |imp.stmts|, inputs);
    assert EvalStmts(next.stmts, |next.stmts|, inputs) == env + [x];
    var after, now := regs[out := x], defined + {out};
    forall w: nat {:trigger WireOk(next, params, inputs, after, w)} | w < params || w in now ensures WireOk(next, params, inputs, after, w) {
      if w != out {
        assert WireOk(imp, params, inputs, regs, w);
      }
    }
  }

  /** Earlier values stay as statements are added. */
  lemma BindKeeps(imp: Import, params: nat, inputs: seq<bool>, s: Stmt, out: nat, v: nat)
    requires v < params + |imp.stmts| && |inputs| == params
    ensures ValueOf(EvalStmts(Bind(imp, params, s, out).stmts, |imp.stmts| + 1, inputs), v) == ValueOf(EvalStmts(imp.stmts, |imp.stmts|, inputs), v)
  {
    hide EvalStmt;
    EvalPrefix(imp.stmts, s, |imp.stmts|, inputs);
  }

  lemma {:induction false} BatchKeeps(before: map<nat, nat>, imp: Import, params: nat, inputs: seq<bool>, batch: seq<AndOf>, n: nat, v: nat)
    requires n <= |batch| && v < params + |imp.stmts| && |inputs| == params
    ensures var next := ImportBatch(before, imp, params, batch, n);
      |next.stmts| == |imp.stmts| + n
      && ValueOf(EvalStmts(next.stmts, |next.stmts|, inputs), v) == ValueOf(EvalStmts(imp.stmts, |imp.stmts|, inputs), v)
    decreases n
  {
    hide EvalStmts, ValueOf;
    if n > 0 {
      BatchKeeps(before, imp, params, inputs, batch, n - 1, v);
      BindKeeps(ImportBatch(before, imp, params, batch, n - 1), params, inputs,
        And(Cur(before, batch[n - 1].a), Cur(before, batch[n - 1].b)), batch[n - 1].out, v);
    }
  }

  function OutsUpTo(batch: seq<AndOf>, n: nat): set<nat>
    requires n <= |batch|
  {
    if n == 0 then {} else OutsUpTo(batch, n - 1) + {batch[n - 1].out}
  }

  lemma MirrorsWidth(imp: Import, params: nat, inputs: seq<bool>, regs: Registers, defined: set<nat>)
    requires Mirrors(imp, params, inputs, regs, defined)
    ensures |inputs| == params
  {
  }

  /** A batch resolves every operand against the wires as they were before it. */
  lemma {:induction false} BatchMirrors(imp: Import, params: nat, inputs: seq<bool>, regs: Registers, defined: set<nat>, batch: seq<AndOf>, n: nat)
    requires n <= |batch| && Mirrors(imp, params, inputs, regs, defined)
    requires forall i | 0 <= i < |batch| :: (batch[i].a < params || batch[i].a in defined) && (batch[i].b < params || batch[i].b in defined)
    ensures Mirrors(ImportBatch(imp.current, imp, params, batch, n), params, inputs, WriteBatch(regs, regs, batch, n), defined + OutsUpTo(batch, n))
    decreases n
  {
    hide EvalStmts, ValueOf, Mirrors, WireOk;
    if n == 0 {
      assert defined + OutsUpTo(batch, 0) == defined;
    } else {
      var g := batch[n - 1];
      BatchMirrors(imp, params, inputs, regs, defined, batch, n - 1);
      var mid := ImportBatch(imp.current, imp, params, batch, n - 1);
      MirrorsWidth(imp, params, inputs, regs, defined);
      Operand(imp, params, inputs, regs, defined, g.a);
      Operand(imp, params, inputs, regs, defined, g.b);
      BatchKeeps(imp.current, imp, params, inputs, batch, n - 1, Cur(imp.current, g.a));
      BatchKeeps(imp.current, imp, params, inputs, batch, n - 1, Cur(imp.current, g.b));
      BindMirrors(mid, params, inputs, WriteBatch(regs, regs, batch, n - 1), defined + OutsUpTo(batch, n - 1),
        And(Cur(imp.current, g.a), Cur(imp.current, g.b)), g.out, Reg(regs, g.a) && Reg(regs, g.b));
      assert defined + OutsUpTo(batch, n) == defined + OutsUpTo(batch, n - 1) + {g.out};
    }
  }

  lemma Operand(imp: Import, params: nat, inputs: seq<bool>, regs: Registers, defined: set<nat>, w: nat)
    requires Mirrors(imp, params, inputs, regs, defined) && (w < params || w in defined)
    ensures Current(imp.current, params, w) == Some(Cur(imp.current, w)) && Cur(imp.current, w) < params + |imp.stmts|
    ensures ValueOf(EvalStmts(imp.stmts, |imp.stmts|, inputs), Cur(imp.current, w)) == Reg(regs, w)
  {
    hide EvalStmts, ValueOf;
    assert WireOk(imp, params, inputs, regs, w);
  }

  lemma {:induction false} OutsAreOutputs(batch: seq<AndOf>, n: nat)
    requires n <= |batch|
    ensures forall w :: w in OutsUpTo(batch, n) <==> exists i :: 0 <= i < n && batch[i].out == w
    decreases n
  {
    if n > 0 {
      OutsAreOutputs(batch, n - 1);
      forall w ensures w in OutsUpTo(batch, n) <==> exists i :: 0 <= i < n && batch[i].out == w {
        if w in OutsUpTo(batch, n - 1) {
          var i :| 0 <= i < n - 1 && batch[i].out == w;
        } else if w == batch[n - 1].out {
          assert batch[n - 1].out == w;
        }
      }
    }
  }

  lemma GateMirrors(imp: Import, params: nat, inputs: seq<bool>, regs: Registers, defined: set<nat>, g: Gate)
    requires Mirrors(imp, params, inputs, regs, defined) && forall w | w in GateInputs(g) :: w < params || w in defined
    ensures Mirrors(ImportGate(imp, params, g), params, inputs, StepGate(regs, g), defined + AsSet(GateOutputs(g)))
  {
    hide EvalStmts, ValueOf, Mirrors, WireOk;
    match g
    case GAnd(a, b, out) =>
      assert a in GateInputs(g) && b in GateInputs(g);
      Operand(imp, params, inputs, regs, defined, a);
      Operand(imp, params, inputs, regs, defined, b);
      BindMirrors(imp, params, inputs, regs, defined, And(Cur(imp.current, a), Cur(imp.current, b)), out, Reg(regs, a) && Reg(regs, b));
      assert AsSet(GateOutputs(g)) == {out};
    case GXor(a, b, out) =>
      assert a in GateInputs(g) && b in GateInputs(g);
      Operand(imp, params, inputs, regs, defined, a);
      Operand(imp, params, inputs, regs, defined, b);
      BindMirrors(imp, params, inputs, regs, defined, Xor(Cur(imp.current, a), Cur(imp.current, b)), out, Reg(regs, a) != Reg(regs, b));
      assert AsSet(GateOutputs(g)) == {out};
    case GNot(input, out) =>
      assert input in GateInputs(g);
      Operand(imp, params, inputs, regs, defined, input);
      BindMirrors(imp, params, inputs, regs, defined, Not(Cur(imp.current, input)), out, !Reg(regs, input));
      assert AsSet(GateOutputs(g)) == {out};
    case GConst(value, out) =>
      BindMirrors(imp, params, inputs, regs, defined, if value then One else Zero, out, value);
      assert AsSet(GateOutputs(g)) == {out};
    case GCopy(input, out) =>
      assert input in GateInputs(g);
      CopyMirrors(imp, params, inputs, regs, defined, input, out);
      assert AsSet(GateOutputs(g)) == {out};
    case GBatch(batch) =>
      forall i | 0 <= i < |batch| ensures batch[i].a in GateInputs(g) && batch[i].b in GateInputs(g) {
        BatchReads(batch, i);
      }
      BatchMirrors(imp, params, inputs, regs, defined, batch, |batch|);
      OutsAreOutputs(batch, |batch|);
      BatchOuts(batch);
  }

  lemma {:induction false} BatchReads(batch: seq<AndOf>, i: nat)
    requires i < |batch|
    ensures batch[i].a in BatchInputs(batch) && batch[i].b in BatchInputs(batch)
    decreases |batch|
  {
    if i < |batch| - 1 {
      BatchReads(batch[..|batch| - 1], i);
    }
  }

  lemma BatchOuts(batch: seq<AndOf>)
    ensures AsSet(GateOutputs(GBatch(batch))) == OutsUpTo(batch, |batch|)
  {
    OutsAreOutputs(batch, |batch|);
    var outs := GateOutputs(GBatch(batch));
    forall w ensures w in AsSet(outs) <==> w in OutsUpTo(batch, |batch|) {
      if w in outs {
        var i :| 0 <= i < |outs| && outs[i] == w;
        assert batch[i].out == w;
      }
      if w in OutsUpTo(batch, |batch|) {
        var i :| 0 <= i < |batch| && batch[i].out == w;
        assert outs[i] == w;
      }
    }
  }

  lemma CopyMirrors(imp: Import, params: nat, inputs: seq<bool>, regs: Registers, defined: set<nat>, input: nat, out: nat)
    requires Mirrors(imp, params, inputs, regs, defined) && (input < params || input in defined)
    ensures Mirrors(Import(imp.stmts, imp.current[out := Cur(imp.current, input)]), params, inputs, regs[out := Reg(regs, input)], defined + {out})
  {
    hide EvalStmts, ValueOf;
    var next := Import(imp.stmts, imp.current[out := Cur(imp.current, input)]);
    assert WireOk(imp, params, inputs, regs, input);
    var after, now := regs[out := Reg(regs, input)], defined + {out};
    forall w: nat {:trigger WireOk(next, params, inputs, after, w)} | w < params || w in now ensures WireOk(next, params, inputs, after, w) {
      if w != out {
        assert WireOk(imp, params, inputs, regs, w);
      }
    }
  }

  lemma {:induction false} GatesMirror(c: Circuit, inputs: seq<bool>, n: nat)
    requires WfCircuit(c) && n <= |c.gates| && |inputs| == Total(c.inputGroups)
    ensures Mirrors(ImportGates(c.gates, Total(c.inputGroups), n), Total(c.inputGroups), inputs, RunGates(c.gates, n, inputs), Produced(c.gates, n))
    decreases n
  {
    hide Total, ImportGate, StepGate, GateInputs, GateOutputs, AsSet, GateFits;
    if n > 0 {
      GatesMirror(c, inputs, n - 1);
      assert ReadsDefined(c, n - 1);
      GateMirrors(ImportGates(c.gates, Total(c.inputGroups), n - 1), Total(c.inputGroups), inputs, RunGates(c.gates, n - 1, inputs),
        Produced(c.gates, n - 1), c.gates[n - 1]);
    }
  }

  /** The imported block returns what the register file running the gates returns. */
  lemma ImportMeans(c: Circuit, inputs: seq<bool>)
    requires WfCircuit(c) && |inputs| == Total(c.inputGroups)
    ensures EvalBlock(ImportBlock(c), inputs) == RunCircuit(c, inputs)
  {
    hide Total, ImportGates, RunGates, Produced, EvalStmts, ValueOf, GateFits, ReadsDefined;
    var params, n, outputs := Total(c.inputGroups), |c.gates|, Total(c.outputGroups);
    GatesMirror(c, inputs, n);
    forall j | 0 <= j < outputs ensures EvalBlock(ImportBlock(c), inputs)[j] == RunCircuit(c, inputs)[j] {
      Operand(ImportGates(c.gates, params, n), params, inputs, RunGates(c.gates, n, inputs), Produced(c.gates, n), c.wireCount - outputs + j);
    }
  }

  /** All value identifiers fit 32 bits. */
  predicate FitsIds(params: nat, statements: nat) {
    params < U32 && (statements > 0 ==> params + statements - 1 < U32)
  }

  lemma {:induction false} StatementsGrow(gates: seq<Gate>, params: nat, k: nat, n: nat)
    requires k <= n <= |gates|
    ensures |ImportGates(gates, params, k).stmts| <= |ImportGates(gates, params, n).stmts|
    decreases n
  {
    hide ImportGate;
    if k < n {
      StatementsGrow(gates, params, k, n - 1);
      GateGrows(ImportGates(gates, params, n - 1), params, gates[n - 1]);
    }
  }

  lemma GateGrows(imp: Import, params: nat, g: Gate)
    ensures |imp.stmts| <= |ImportGate(imp, params, g).stmts|
  {
    if g.GBatch? {
      BatchSize(imp.current, imp, params, g.batch, |g.batch|);
    }
  }

  lemma {:induction false} BatchSize(before: map<nat, nat>, imp: Import, params: nat, batch: seq<AndOf>, n: nat)
    requires n <= |batch|
    ensures |ImportBatch(before, imp, params, batch, n).stmts| == |imp.stmts| + n
    decreases n
  {
    if n > 0 {
      BatchSize(before, imp, params, batch, n - 1);
    }
  }

  /** The parser's promise: whatever gate `k` reads, or the outputs name, has a value. */
  lemma HasValue(c: Circuit, k: nat, w: nat)
    requires WfCircuit(c) && k <= |c.gates| && (w < Total(c.inputGroups) || w in Produced(c.gates, k))
    ensures Current(ImportGates(c.gates, Total(c.inputGroups), k).current, Total(c.inputGroups), w)
      == Some(Cur(ImportGates(c.gates, Total(c.inputGroups), k).current, w))
  {
    hide Total, ImportGates, RunGates, Produced, EvalStmts, ValueOf, WfCircuit;
    var inputs := seq(Total(c.inputGroups), i requires 0 <= i < Total(c.inputGroups) => false);
    GatesMirror(c, inputs, k);
    Operand(ImportGates(c.gates, Total(c.inputGroups), k), Total(c.inputGroups), inputs, RunGates(c.gates, k, inputs), Produced(c.gates, k), w);
  }

  lemma GateHasValues(c: Circuit, k: nat)
    requires WfCircuit(c) && k < |c.gates|
    ensures forall w | w in GateInputs(c.gates[k]) ::
      Current(ImportGates(c.gates, Total(c.inputGroups), k).current, Total(c.inputGroups), w)
        == Some(Cur(ImportGates(c.gates, Total(c.inputGroups), k).current, w))
  {
    hide Total, ImportGates, Produced, Current, Cur, GateInputs, GateFits;
    assert ReadsDefined(c, k);
    forall w | w in GateInputs(c.gates[k])
      ensures Current(ImportGates(c.gates, Total(c.inputGroups), k).current, Total(c.inputGroups), w)
        == Some(Cur(ImportGates(c.gates, Total(c.inputGroups), k).current, w))
    {
      HasValue(c, k, w);
    }
  }

  /** Import one gate: resolve its operands, push its statements, bind its outputs. */
  method ImportOne(imp: Import, params: nat, g: Gate) returns (ok: bool, next: Import)
    requires forall w | w in GateInputs(g) :: Current(imp.current, params, w) == Some(Cur(imp.current, w))
    requires FitsIds(params, |imp.stmts|)
    ensures ok <==> FitsIds(params, |ImportGate(imp, params, g).stmts|)
    ensures ok ==> next == ImportGate(imp, params, g)
  {
    hide Current, Cur;
    match g
    case GAnd(a, b, out) =>
      assert a in GateInputs(g) && b in GateInputs(g);
      var lhs := Current(imp.current, params, a).value;
      var rhs := Current(imp.current, params, b).value;
      ok, next := Push(imp, params, And(lhs, rhs), out);
    case GXor(a, b, out) =>
      assert a in GateInputs(g) && b in GateInputs(g);
      var lhs := Current(imp.current, params, a).value;
      var rhs := Current(imp.current, params, b).value;
      ok, next := Push(imp, params, Xor(lhs, rhs), out);
    case GNot(input, out) =>
      assert input in GateInputs(g);
      var value := Current(imp.current, params, input).value;
      ok, next := Push(imp, params, Not(value), out);
    case GConst(value, out) =>
      ok, next := Push(imp, params, if value then One else Zero, out);
    case GCopy(input, out) =>
      assert input in GateInputs(g);
      var value := Current(imp.current, params, input).value;
      ok, next := true, Import(imp.stmts, imp.current[out := value]);
    case GBatch(batch) =>
      ok, next := ImportMany(imp, params, batch);
  }

  method Push(imp: Import, params: nat, s: Stmt, out: nat) returns (ok: bool, next: Import)
    ensures ok <==> params + |imp.stmts| < U32
    ensures ok ==> next == Bind(imp, params, s, out)
  {
    var id := params + |imp.stmts|;
    ok, next := id < U32, imp;
    if ok {
      next := Import(imp.stmts + [s], imp.current[out := id]);
    }
  }

  /** The operands of all members first, then the outputs. */
  method ImportMany(imp: Import, params: nat, batch: seq<AndOf>) returns (ok: bool, next: Import)
    requires forall w | w in BatchInputs(batch) :: Current(imp.current, params, w) == Some(Cur(imp.current, w))
    requires FitsIds(params, |imp.stmts|)
    ensures ok <==> FitsIds(params, |ImportBatch(imp.current, imp, params, batch, |batch|).stmts|)
    ensures ok ==> next == ImportBatch(imp.current, imp, params, batch, |batch|)
  {
    hide Current, Cur;
    var resolved: seq<AndOf> := [];
    for i := 0 to |batch|
      invariant |resolved| == i && forall k | 0 <= k < i :: resolved[k] == AndOf(Cur(imp.current, batch[k].a), Cur(imp.current, batch[k].b), batch[k].out)
    {
      BatchReads(batch, i);
      var a := Current(imp.current, params, batch[i].a).value;
      var b := Current(imp.current, params, batch[i].b).value;
      resolved := resolved + [AndOf(a, b, batch[i].out)];
    }
    ok, next := true, imp;
    BatchSize(imp.current, imp, params, batch, |batch|);
    for i := 0 to |resolved|
      invariant next == ImportBatch(imp.current, imp, params, batch, i) && |next.stmts| == |imp.stmts| + i && FitsIds(params, |next.stmts|) && ok
    {
      ok, next := Push(next, params, And(resolved[i].a, resolved[i].b), resolved[i].out);
      if !ok {
        return;
      }
    }
  }

  /** The whole import: it fails only when the identifiers run out of 32 bits. */
  method ImportCircuit(c: Circuit) returns (r: Result<Block>)
    requires WfCircuit(c)
    ensures r == if FitsIds(Total(c.inputGroups), |ImportBlock(c).stmts|) then Ok(ImportBlock(c)) else Err(VarSpaceOverflow)
    ensures r.Ok? ==> forall inputs | |inputs| == r.value.params :: EvalBlock(r.value, inputs) == RunCircuit(c, inputs)
  {
    hide Total, ImportGate, Current, Cur, FitsIds, GateInputs, EvalBlock, RunCircuit, Produced, WfCircuit;
    WfBounds(c);
    var params, outputCount := Total(c.inputGroups), Total(c.outputGroups);
    if params >= U32 {
      TooMany(params, |ImportBlock(c).stmts|);
      return Err(VarSpaceOverflow);
    }
    var imp := Import([], map[]);
    FitsNone(params);
    for k := 0 to |c.gates|
      invariant imp == ImportGates(c.gates, params, k) && FitsIds(params, |imp.stmts|)
    {
      GateHasValues(c, k);
      var ok, next := ImportOne(imp, params, c.gates[k]);
      if !ok {
        StatementsGrow(c.gates, params, k + 1, |c.gates|);
        FitsLess(params, |ImportGates(c.gates, params, k + 1).stmts|, |ImportBlock(c).stmts|);
        return Err(VarSpaceOverflow);
      }
      imp := next;
    }
    var outputs: seq<nat> := [];
    for j := 0 to outputCount
      invariant |outputs| == j && forall i | 0 <= i < j :: outputs[i] == Cur(imp.current, c.wireCount - outputCount + i)
    {
      OutputHasValue(c, j);
      outputs := outputs + [Current(imp.current, params, c.wireCount - outputCount + j).value];
    }
    r := Ok(Block(params, imp.stmts, outputs));
    assert r.value.outputs == ImportBlock(c).outputs;
    forall inputs | |inputs| == params ensures EvalBlock(r.value, inputs) == RunCircuit(c, inputs) {
      ImportMeans(c, inputs);
    }
  }

  lemma WfBounds(c: Circuit)
    requires WfCircuit(c)
    ensures Total(c.inputGroups) <= c.wireCount && Total(c.outputGroups) <= c.wireCount < USIZE
  {
  }

  lemma TooMany(params: nat, statements: nat)
    requires params >= U32
    ensures !FitsIds(params, statements)
  {
  }

  lemma FitsNone(params: nat)
    requires params < U32
    ensures FitsIds(params, 0)
  {
  }

  lemma FitsLess(params: nat, fewer: nat, more: nat)
    requires !FitsIds(params, fewer) && fewer <= more
    ensures !FitsIds(params, more)
  {
  }

  lemma OutputHasValue(c: Circuit, j: nat)
    requires WfCircuit(c) && j < Total(c.outputGroups)
    ensures var imp := ImportGates(c.gates, Total(c.inputGroups), |c.gates|);
      var w := c.wireCount - Total(c.outputGroups) + j;
      Current(imp.current, Total(c.inputGroups), w) == Some(Cur(imp.current, w))
  {
    hide Total, ImportGates, Produced, Current, Cur, GateFits, ReadsDefined;
    HasValue(c, |c.gates|, c.wireCount - Total(c.outputGroups) + j);
  }
}
