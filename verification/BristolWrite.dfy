/**
 The text of a circuit, and the round trip: reading what was written gives the circuit back, so a block
 without disjunctions comes back statement by statement, and any block comes back with its function.
 */
module BristolWrite {
  import opened Common
  import opened Numerals
  import opened BristolText
  import opened Bristol
  import opened BristolExport

  // ---------------------------------------------------------------- the text

  function ShowAll(ns: seq<nat>): (r: seq<string>)
    ensures |r| == |ns| && forall i | 0 <= i < |ns| :: r[i] == Show(ns[i])
  {
    seq(|ns|, i requires 0 <= i < |ns| => Show(ns[i]))
  }

  /** A gate line; batches are read but never written. */
  function GateWords(g: Gate): seq<string> {
    match g
    case GConst(value, out) => ["1", "1", if value then "1" else "0", Show(out), "EQ"]
    case GAnd(a, b, out) => ["2", "1", Show(a), Show(b), Show(out), "AND"]
    case GXor(a, b, out) => ["2", "1", Show(a), Show(b), Show(out), "XOR"]
    case GNot(input, out) => ["1", "1", Show(input), Show(out), "INV"]
    case GCopy(input, out) => ["1", "1", Show(input), Show(out), "EQW"]
    case GBatch(_) => []
  }

  function GroupWords(groups: seq<nat>): seq<string> {
    [Show(|groups|)] + ShowAll(groups)
  }

  function GateText(gates: seq<Gate>): string {
    if gates == [] then "" else Line(GateWords(gates[0])) + GateText(gates[1..])
  }

  /** Header, groupings, an empty line, the gates. */
  function Render(c: Circuit): string {
    Line([Show(|c.gates|), Show(c.wireCount)]) + Line(GroupWords(c.inputGroups)) + Line(GroupWords(c.outputGroups)) + "\n" + GateText(c.gates)
  }

  lemma {:induction false} GateTextSnoc(gates: seq<Gate>, g: Gate)
    ensures GateText(gates + [g]) == GateText(gates) + Line(GateWords(g))
    decreases |gates|
  {
    hide Line, GateWords;
    if gates == [] {
      assert [g][1..] == [];
    } else {
      assert (gates + [g])[1..] == gates[1..] + [g];
      GateTextSnoc(gates[1..], g);
    }
  }

  // ---------------------------------------------------------------- reading a written gate

  lemma ShowSmall()
    ensures Show(0) == "0" && Show(1) == "1" && Show(2) == "2"
  {
  }

  lemma ShowClean(n: nat)
    ensures Clean(Show(n))
  {
    forall i | 0 <= i < |Show(n)| ensures !IsSpace(Show(n)[i]) {
      assert IsDecimal(Show(n)[i]);
    }
  }

  lemma {:induction false} ParseShown(ns: seq<nat>)
    requires forall i | 0 <= i < |ns| :: ns[i] < USIZE
    ensures ParseAll(ShowAll(ns)) == Some(ns)
    decreases |ns|
  {
    hide Show, ParseUnsigned;
    if ns != [] {
      var n := |ns| - 1;
      ParseShown(ns[..n]);
      assert ShowAll(ns)[..n] == ShowAll(ns[..n]);
      ShowParse(ns[n], USIZE);
      assert ns == ns[..n] + [ns[n]];
    }
  }

  lemma Sliced<T>(x: T, y: T, ins: seq<T>, outs: seq<T>, op: T)
    ensures var parts := [x, y] + ins + outs + [op];
      && |parts| == |ins| + |outs| + 3 && parts[0] == x && parts[1] == y && parts[2..2 + |ins|] == ins
      && parts[2 + |ins|..2 + |ins| + |outs|] == outs && parts[2 + |ins| + |outs|] == op
  {
  }

  /** A line of counts, wires and an operation, taken apart again. */
  lemma ParseRecord(inputs: seq<nat>, out: nat, op: string, wireCount: nat)
    requires |inputs| <= 2 && (forall i | 0 <= i < |inputs| :: inputs[i] < USIZE) && out < USIZE
    ensures ParseGate([Show(|inputs|), Show(1)] + ShowAll(inputs) + [Show(out)] + [op], wireCount) == MakeGate(op, inputs, [out], wireCount)
  {
    hide Show, ParseUnsigned, MakeGate, ParseAll;
    ShowParse(|inputs|, USIZE);
    ShowParse(1, USIZE);
    ParseShown(inputs);
    ParseShown([out]);
    assert ShowAll([out]) == [Show(out)];
    Sliced(Show(|inputs|), Show(1), ShowAll(inputs), [Show(out)], op);
  }

  lemma BinaryRead(a: nat, b: nat, out: nat, op: string, wireCount: nat)
    requires a < USIZE && b < USIZE && out < USIZE
    ensures ParseGate(["2", "1", Show(a), Show(b), Show(out), op], wireCount) == MakeGate(op, [a, b], [out], wireCount)
  {
    hide Show, ParseGate, MakeGate;
    ShowSmall();
    ParseRecord([a, b], out, op, wireCount);
    assert [Show(2), Show(1)] + ShowAll([a, b]) + [Show(out)] + [op] == ["2", "1", Show(a), Show(b), Show(out), op];
  }

  lemma UnaryRead(a: nat, out: nat, op: string, wireCount: nat)
    requires a < USIZE && out < USIZE
    ensures ParseGate(["1", "1", Show(a), Show(out), op], wireCount) == MakeGate(op, [a], [out], wireCount)
  {
    hide Show, ParseGate, MakeGate;
    ShowSmall();
    ParseRecord([a], out, op, wireCount);
    assert [Show(1), Show(1)] + ShowAll([a]) + [Show(out)] + [op] == ["1", "1", Show(a), Show(out), op];
  }

  /** The operations the writer uses are told apart. */
  lemma MadeBinary(a: nat, b: nat, out: nat, wireCount: nat)
    requires a < wireCount && b < wireCount && out < wireCount
    ensures MakeGate("AND", [a, b], [out], wireCount) == Ok(GAnd(a, b, out)) && MakeGate("XOR", [a, b], [out], wireCount) == Ok(GXor(a, b, out))
  {
    assert "XOR"[0] != "AND"[0];
  }

  lemma MadeUnary(a: nat, out: nat, wireCount: nat)
    requires out < wireCount
    ensures a < wireCount ==> MakeGate("INV", [a], [out], wireCount) == Ok(GNot(a, out))
    ensures a < wireCount ==> MakeGate("EQW", [a], [out], wireCount) == Ok(GCopy(a, out))
    ensures a <= 1 ==> MakeGate("EQ", [a], [out], wireCount) == Ok(GConst(a == 1, out))
  {
    assert "EQW"[0] != "INV"[0] && "EQW"[0] != "NOT"[0] && |"EQW"| != |"EQ"|;
  }

  lemma GateRead(g: Gate, wireCount: nat)
    requires GateFits(g, wireCount) && wireCount < USIZE && !g.GBatch?
    ensures ParseGate(GateWords(g), wireCount) == Ok(g)
  {
    hide Show, ParseGate, MakeGate;
    match g
    case GConst(value, out) =>
      assert out in GateOutputs(g);
      ShowSmall();
      UnaryRead(if value then 1 else 0, out, "EQ", wireCount);
      MadeUnary(if value then 1 else 0, out, wireCount);
    case GAnd(a, b, out) =>
      assert a in GateInputs(g) && b in GateInputs(g) && out in GateOutputs(g);
      BinaryRead(a, b, out, "AND", wireCount);
      MadeBinary(a, b, out, wireCount);
    case GXor(a, b, out) =>
      assert a in GateInputs(g) && b in GateInputs(g) && out in GateOutputs(g);
      BinaryRead(a, b, out, "XOR", wireCount);
      MadeBinary(a, b, out, wireCount);
    case GNot(input, out) =>
      assert input in GateInputs(g) && out in GateOutputs(g);
      UnaryRead(input, out, "INV", wireCount);
      MadeUnary(input, out, wireCount);
    case GCopy(input, out) =>
      assert input in GateInputs(g) && out in GateOutputs(g);
      UnaryRead(input, out, "EQW", wireCount);
      MadeUnary(input, out, wireCount);
  }

  // ---------------------------------------------------------------- reading the whole text

  lemma GateClean(g: Gate)
    requires !g.GBatch?
    ensures GateWords(g) != [] && forall i | 0 <= i < |GateWords(g)| :: Clean(GateWords(g)[i])
  {
    hide Show, IsSpace;
    FixedClean();
    match g
    case GConst(_, out) => ShowClean(out);
    case GAnd(a, b, out) =>
      ShowClean(a);
      ShowClean(b);
      ShowClean(out);
    case GXor(a, b, out) =>
      ShowClean(a);
      ShowClean(b);
      ShowClean(out);
    case GNot(input, out) =>
      ShowClean(input);
      ShowClean(out);
    case GCopy(input, out) =>
      ShowClean(input);
      ShowClean(out);
  }

  lemma FixedClean()
    ensures Clean("0") && Clean("1") && Clean("2") && Clean("EQ") && Clean("AND") && Clean("XOR") && Clean("INV") && Clean("EQW")
  {
  }

  function AllWords(gates: seq<Gate>): (r: seq<seq<string>>)
    ensures |r| == |gates| && forall i | 0 <= i < |gates| :: r[i] == GateWords(gates[i])
  {
    seq(|gates|, i requires 0 <= i < |gates| => GateWords(gates[i]))
  }

  lemma {:induction false} GateRecords(gates: seq<Gate>)
    requires forall i | 0 <= i < |gates| :: !gates[i].GBatch?
    ensures Records(GateText(gates)) == AllWords(gates)
    decreases |gates|
  {
    hide GateWords, Line, Records, Clean;
    if gates == [] {
      NoRecords();
    } else {
      GateRecords(gates[1..]);
      GateClean(gates[0]);
      RecordsLine(GateWords(gates[0]), GateText(gates[1..]));
      assert AllWords(gates) == [GateWords(gates[0])] + AllWords(gates[1..]);
    }
  }

  lemma NoRecords()
    ensures Records("") == []
  {
  }

  lemma GroupClean(groups: seq<nat>)
    ensures forall i | 0 <= i < |GroupWords(groups)| :: Clean(GroupWords(groups)[i])
  {
    hide Show, Clean;
    ShowClean(|groups|);
    forall i | 0 <= i < |groups| ensures Clean(Show(groups[i])) {
      ShowClean(groups[i]);
    }
  }

  /** Three lines of words, an empty line and more text, line by line. */
  lemma HeaderRecords(head: seq<string>, input: seq<string>, output: seq<string>, rest: string)
    requires head != [] && input != [] && output != []
    requires forall i | 0 <= i < |head| :: Clean(head[i])
    requires forall i | 0 <= i < |input| :: Clean(input[i])
    requires forall i | 0 <= i < |output| :: Clean(output[i])
    ensures Records(Line(head) + (Line(input) + (Line(output) + ("\n" + rest)))) == [head] + ([input] + ([output] + Records(rest)))
  {
    hide Records, Clean, Line;
    var none: seq<string> := [];
    EmptyLine();
    RecordsLine(none, rest);
    RecordsLine(output, "\n" + rest);
    RecordsLine(input, Line(output) + ("\n" + rest));
    RecordsLine(head, Line(input) + (Line(output) + ("\n" + rest)));
  }

  lemma Reassociate<T>(a: seq<T>, b: seq<T>, c: seq<T>, d: seq<T>, e: seq<T>)
    ensures a + b + c + d + e == a + (b + (c + (d + e)))
  {
  }

  /** The written text has exactly the written records. */
  lemma RenderRecords(c: Circuit)
    requires forall i | 0 <= i < |c.gates| :: !c.gates[i].GBatch?
    ensures Records(Render(c))
      == [[Show(|c.gates|), Show(c.wireCount)], GroupWords(c.inputGroups), GroupWords(c.outputGroups)] + AllWords(c.gates)
  {
    hide Show, Records, GroupWords, GateText, Clean, Line, AllWords;
    var head, input, output, text := [Show(|c.gates|), Show(c.wireCount)], GroupWords(c.inputGroups), GroupWords(c.outputGroups), GateText(c.gates);
    ShowClean(|c.gates|);
    ShowClean(c.wireCount);
    GroupClean(c.inputGroups);
    GroupClean(c.outputGroups);
    GroupsThere(c.inputGroups);
    GroupsThere(c.outputGroups);
    HeaderRecords(head, input, output, text);
    GateRecords(c.gates);
    Reassociate(Line(head), Line(input), Line(output), "\n", text);
    Prepend3(head, input, output, AllWords(c.gates));
  }

  lemma Prepend3<T>(x: T, y: T, z: T, rest: seq<T>)
    ensures [x] + ([y] + ([z] + rest)) == [x, y, z] + rest
  {
  }

  lemma EmptyLine()
    ensures Line([]) == "\n"
  {
  }

  lemma GroupsThere(groups: seq<nat>)
    ensures GroupWords(groups) != []
  {
  }

  lemma GroupsRead(groups: seq<nat>)
    requires Total(groups) < USIZE && |groups| + 1 < USIZE
    ensures ParseGroups(GroupWords(groups)) == Ok(groups)
  {
    hide Show, ParseUnsigned, ParseAll;
    ShowParse(|groups|, USIZE);
    forall i | 0 <= i < |groups| ensures groups[i] < USIZE {
      TotalMember(groups, i);
    }
    ParseShown(groups);
    assert GroupWords(groups)[1..] == ShowAll(groups);
  }

  lemma {:induction false} TotalMember(groups: seq<nat>, i: nat)
    requires i < |groups|
    ensures groups[i] <= Total(groups)
    decreases |groups|
  {
    if i < |groups| - 1 {
      TotalMember(groups[..|groups| - 1], i);
    }
  }

  lemma {:induction false} GatesRead(c: Circuit, n: nat)
    requires WfCircuit(c) && n <= |c.gates| && forall i | 0 <= i < |c.gates| :: !c.gates[i].GBatch?
    ensures ParseGates(AllWords(c.gates), n, c.wireCount, Total(c.inputGroups)) == Ok(c.gates[..n])
    decreases n
  {
    hide ParseGate, GateWords, Total, Produced, GateInputs, GateFits;
    if n > 0 {
      GatesRead(c, n - 1);
      GateRead(c.gates[n - 1], c.wireCount);
      assert ReadsDefined(c, n - 1);
      ProducedCut(c.gates, n - 1, n - 1);
      assert c.gates[..n] == c.gates[..n - 1] + [c.gates[n - 1]];
    }
  }

  lemma {:induction false} ProducedCut(gates: seq<Gate>, n: nat, k: nat)
    requires k <= n <= |gates|
    ensures Produced(gates[..n], k) == Produced(gates, k)
    decreases k
  {
    hide GateOutputs, AsSet;
    if k > 0 {
      ProducedCut(gates, n, k - 1);
    }
  }

  predicate Within(c: Circuit, limits: Limits) {
    && |c.gates| <= limits.maxGates && c.wireCount <= limits.maxWires
    && Total(c.inputGroups) <= limits.maxIoWires && Total(c.outputGroups) <= limits.maxIoWires
  }

  /** Reading a written circuit gives it back, under limits that admit it. */
  lemma RenderParse(c: Circuit, limits: Limits)
    requires WfCircuit(c) && Within(c, limits) && |c.gates| < USIZE && |c.inputGroups| + 1 < USIZE && |c.outputGroups| + 1 < USIZE
    requires forall i | 0 <= i < |c.gates| :: !c.gates[i].GBatch?
    ensures Parse(Render(c), limits) == Ok(c)
  {
    hide Show, Records, GroupWords, Total, ParseGates, ParseUnsigned, ParseGroups, Render, GateFits, ReadsDefined, Produced;
    RenderRecords(c);
    var records := Records(Render(c));
    assert records[0] == [Show(|c.gates|), Show(c.wireCount)] && records[1] == GroupWords(c.inputGroups) && records[2] == GroupWords(c.outputGroups);
    assert records[3..] == AllWords(c.gates);
    ShowParse(|c.gates|, USIZE);
    ShowParse(c.wireCount, USIZE);
    GroupsRead(c.inputGroups);
    GroupsRead(c.outputGroups);
    GatesRead(c, |c.gates|);
    assert c.gates[..|c.gates|] == c.gates;
  }

  // ---------------------------------------------------------------- export

  predicate Exportable(p: Program, io: Layout) {
    && |p.blocks| == 1 && !p.preInit && p.isReturn && ValidBlock(p.blocks[0]) && LayoutFits(p.blocks[0], io)
    && EmitCircuit(p.blocks[0], io).wireCount < USIZE
  }

  /** Write the gate lines one by one, then the header. */
  method Export(p: Program, io: Layout) returns (r: Result<string>)
    ensures r.Ok? <==> Exportable(p, io)
    ensures r.Ok? ==> r.value == Render(EmitCircuit(p.blocks[0], io))
  {
    hide Total, ValidBlock, EmitStmt, GateText, WireFor;
    var valid := Validate(p);
    if valid.Err? {
      return Err(valid.error);
    }
    var b := valid.value;
    if Total(io.inputGroups) != b.params || Total(io.outputGroups) != |b.outputs| {
      return Err(LayoutMismatch);
    }
    var e := Emission([], [], b.params);
    var gateLines := "";
    NoText();
    for index := 0 to |b.stmts|
      invariant e == EmitStmts(b, index) && gateLines == GateText(e.gates)
    {
      ghost var before := e.gates;
      e, gateLines := WriteStmt(b.params, e, b.stmts[index], gateLines);
    }
    for j := 0 to |b.outputs|
      invariant e == EmitOutputs(b, j) && gateLines == GateText(e.gates)
    {
      var g := GCopy(WireFor(b.params, e.wires, b.outputs[j]), e.next);
      GateTextSnoc(e.gates, g);
      gateLines := gateLines + Line(GateWords(g));
      e := Emission(e.gates + [g], e.wires, e.next + 1);
    }
    if e.next >= USIZE {
      return Err(CountOverflow);
    }
    r := Ok(Line([Show(|e.gates|), Show(e.next)]) + Line(GroupWords(io.inputGroups)) + Line(GroupWords(io.outputGroups)) + "\n" + gateLines);
  }

  lemma NoText()
    ensures GateText([]) == ""
  {
  }

  /** One statement: a gate on the next wire, or three for a disjunction. */
  method WriteStmt(params: nat, e: Emission, s: Stmt, text: string) returns (next: Emission, out: string)
    requires text == GateText(e.gates)
    ensures next == EmitStmt(params, e, s) && out == GateText(next.gates)
  {
    hide GateText, WireFor, Line, GateWords;
    if s.Storage? {
      return e, text;
    }
    if s.Or? {
      var x, y := WireFor(params, e.wires, s.a), WireFor(params, e.wires, s.b);
      var g, h, j := GAnd(x, y, e.next), GXor(x, y, e.next + 1), GXor(e.next, e.next + 1, e.next + 2);
      GateTextSnoc(e.gates, g);
      GateTextSnoc(e.gates + [g], h);
      GateTextSnoc(e.gates + [g] + [h], j);
      next := Emission(e.gates + [g, h, j], e.wires + [e.next + 2], e.next + 3);
      assert next.gates == e.gates + [g] + [h] + [j];
      out := text + Line(GateWords(g)) + Line(GateWords(h)) + Line(GateWords(j));
    } else {
      PlainEmit(params, e, s);
      var g := PlainGate(params, e, s);
      GateTextSnoc(e.gates, g);
      next := Out(e, g);
      out := text + Line(GateWords(g));
    }
  }

  lemma FreshPlain(gates: seq<Gate>, params: nat)
    requires Fresh(gates, params)
    ensures forall i | 0 <= i < |gates| :: !gates[i].GBatch?
  {
    forall i | 0 <= i < |gates| ensures !gates[i].GBatch? {
      assert FreshGate(gates[i], params + i);
    }
  }

  /** Export, then import: the same statements, identifiers, outputs and groups. */
  lemma RoundTrip(b: Block, io: Layout, limits: Limits)
    requires ValidBlock(b) && NoOr(b) && LayoutFits(b, io) && EmitCircuit(b, io).wireCount < USIZE && Within(EmitCircuit(b, io), limits)
    requires |io.inputGroups| + 1 < USIZE && |io.outputGroups| + 1 < USIZE
    ensures var parsed := Parse(Render(EmitCircuit(b, io)), limits);
      && parsed.Ok? && Total(parsed.value.outputGroups) <= parsed.value.wireCount && ImportBlock(parsed.value) == b
      && parsed.value.inputGroups == io.inputGroups && parsed.value.outputGroups == io.outputGroups
  {
    hide ValidBlock, NoOr, LayoutFits, EmitCircuit, WfCircuit, Within, Total, ImportBlock, Parse, Render, Fresh;
    EmittedWf(b, io);
    FreshPlain(EmitCircuit(b, io).gates, b.params);
    ImportUndoesEmit(b, io);
    RenderParse(EmitCircuit(b, io), limits);
  }

  /** Export, then import: the same Boolean function, disjunctions included. */
  lemma RoundTripMeaning(b: Block, io: Layout, limits: Limits, inputs: seq<bool>)
    requires ValidBlock(b) && LayoutFits(b, io) && EmitCircuit(b, io).wireCount < USIZE && Within(EmitCircuit(b, io), limits)
    requires |io.inputGroups| + 1 < USIZE && |io.outputGroups| + 1 < USIZE && |inputs| == b.params
    ensures var parsed := Parse(Render(EmitCircuit(b, io)), limits);
      parsed.Ok? && Total(parsed.value.outputGroups) <= parsed.value.wireCount && EvalBlock(ImportBlock(parsed.value), inputs) == EvalBlock(b, inputs)
  {
    hide ValidBlock, WfCircuit, Within, Total, ImportBlock, Parse, Render, Fresh, EvalBlock, RunCircuit, EmitOutputs;
    EmittedWf(b, io);
    FreshPlain(EmitCircuit(b, io).gates, b.params);
    EmitMeans(b, io, inputs);
    ImportMeans(EmitCircuit(b, io), inputs);
    RenderParse(EmitCircuit(b, io), limits);
  }

  /** Read a text and import it. */
  method ImportText(text: string, limits: Limits) returns (r: Result<(Block, Layout)>)
    ensures r.Ok? ==> Parse(text, limits).Ok? && WfCircuit(Parse(text, limits).value) && r.value.0 == ImportBlock(Parse(text, limits).value)
    ensures r.Ok? ==> r.value.1 == Layout(Parse(text, limits).value.inputGroups, Parse(text, limits).value.outputGroups)
    ensures r.Ok? ==> forall inputs | |inputs| == r.value.0.params :: EvalBlock(r.value.0, inputs) == RunCircuit(Parse(text, limits).value, inputs)
    ensures Parse(text, limits).Err? ==> r == Err(Parse(text, limits).error)
    ensures Parse(text, limits).Ok? && r.Err? ==> r.error == VarSpaceOverflow
  {
    hide Parse, WfCircuit, ImportBlock, EvalBlock, RunCircuit, FitsIds, Total;
    var parsed := ParseBristol(text, limits);
    if parsed.Err? {
      return Err(parsed.error);
    }
    WfBounds(parsed.value);
    var block := ImportCircuit(parsed.value);
    if block.Err? {
      return Err(block.error);
    }
    r := Ok((block.value, Layout(parsed.value.inputGroups, parsed.value.outputGroups)));
  }
}
