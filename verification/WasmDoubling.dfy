/**
 A module that adds its parameter to itself: the gates for that one instruction ask for the double, and what is
 stored of them is the double of the number 0 and of no other.
 */
module WasmDoubling {
  import opened Common
  import opened Numbers
  import opened VCircuit
  import opened Karatsuba
  import opened BitCircuits
  import opened PolyCoeffs
  import opened WasmProgram
  import opened WasmValues
  import opened WasmSteps
  import opened WasmImport

  const PARAMS: seq<Param> := [Param(I32, 0)]
  const DOUBLE: Body := Body(0, [BlockDef(PARAMS, [1], Return([1]))], [NoDef, OpValue(BinaryOp(Add), [0, 0], [I32])], [I32])
  const DOUBLING: Module := Module([Defined(DOUBLE)], [], 32)

  /** The parameter's value. */
  function Parameter(env: Env): (r: Bits)
    ensures |r| == 32
  {
    EntryArgs(env.inputs, PARAMS, 1)[0]
  }

  function Doubled(x: Bits): Bits {
    BinaryWord(Add, x, x)
  }

  /** What is bound is its own operand. */
  lemma Direct(values: map<ValueId, Bits>, v: ValueId)
    requires v in values
    ensures Operand(DOUBLE, values, v) == Some(values[v])
  {
    assert v in values.Keys;
    assert Resolve(DOUBLE, values.Keys, v, ALIAS_LIMIT) == Some(v);
  }

  lemma OneOperand(values: map<ValueId, Bits>, v: ValueId)
    requires v in values
    ensures Operands(DOUBLE, values, [v], 1) == Some([values[v]])
  {
    Direct(values, v);
    var none: seq<Bits> := [];
    assert Operands(DOUBLE, values, [v], 0) == Some(none) && none + [values[v]] == [values[v]];
  }

  lemma TwoOperands(values: map<ValueId, Bits>, v: ValueId)
    requires v in values
    ensures Operands(DOUBLE, values, [v, v], 2) == Some([values[v], values[v]])
  {
    Direct(values, v);
    var none: seq<Bits> := [];
    assert Operands(DOUBLE, values, [v, v], 0) == Some(none) && none + [values[v]] == [values[v]];
    assert Operands(DOUBLE, values, [v, v], 1) == Some([values[v]]);
    assert [values[v]] + [values[v]] == [values[v], values[v]];
  }

  /** Running the module gives the double and leaves memory alone. */
  lemma DoublingRuns(fuel: nat, env: Env)
    requires fuel >= 1
    ensures RunFunction(fuel, DOUBLING, 0, EntryArgs(env.inputs, PARAMS, 1), [], env.mem) == Some(Done([Doubled(Parameter(env))], [], env.mem))
  {
    hide BinaryWord;
    var x := Parameter(env);
    var args := EntryArgs(env.inputs, PARAMS, 1);
    assert args == [x];
    var values := map[0 := x];
    assert Bound(map[], PARAMS, args, 0) == map[];
    assert Bound(map[], PARAMS, args, 1) == values;
    var frame := Frame(values, [], env.mem);
    Direct(values, 0);
    TwoOperands(values, 0);
    var after := frame.(values := values[1 := Doubled(x)]);
    assert RunInst(fuel, DOUBLING, DOUBLE, 1, frame) == Some(after);
    assert RunInsts(fuel, DOUBLING, DOUBLE, [1], 0, frame) == Some(frame);
    assert RunInsts(fuel, DOUBLING, DOUBLE, [1], 1, frame) == Some(after);
    Direct(after.values, 1);
    OneOperand(after.values, 1);
    assert RunTerminator(fuel, DOUBLING, DOUBLE, Return([1]), after) == Some(Done([Doubled(x)], [], env.mem));
    assert RunBlock(fuel, DOUBLING, DOUBLE, 0, frame) == Some(Done([Doubled(x)], [], env.mem));
    assert DOUBLING.BodyOf(0) == Some(DOUBLE);
  }

  /** A word that clashes nowhere with itself is zero. */
  lemma NoBitSet(env: Env, c: Circuit, bits: seq<Var>)
    ensures NoClash(env, c, bits, bits, |bits|) <==> Num(Word(env, c, bits)) == 0
  {
    hide Run;
    var w := Word(env, c, bits);
    forall i: nat | i < |bits| ensures XorSafe(env, c, bits[i], bits[i]) <==> !w[i] {
    }
    AllClear(w);
  }

  lemma AllClear(w: Bits)
    ensures Num(w) == 0 <==> forall i | 0 <= i < |w| :: !w[i]
  {
    LowClear(w, |w|);
  }

  lemma {:induction false} LowClear(w: Bits, k: nat)
    requires k <= |w|
    ensures Low(w, k) == 0 <==> forall i | 0 <= i < k :: !w[i]
    decreases k
  {
    if k > 0 {
      LowClear(w, k - 1);
    }
  }

  /** What an artifact has to do to be faithful to the module. */
  lemma FaithfulIs(env: Env, a: Artifact)
    ensures FaithfulAt(env, DOUBLING, 0, 1, a) <==> Word(env, a.circuit, a.outputs) == Doubled(Parameter(env)) && M(env, a.circuit) == env.mem
  {
    hide RunFunction, Run, Word, Doubled, Parameter;
    var args := EntryArgs(env.inputs, PARAMS, 1);
    forall fuel: nat | fuel >= 1
      ensures RunFunction(fuel, DOUBLING, 0, args, [], env.mem) == Some(Done([Doubled(Parameter(env))], [], env.mem))
    {
      DoublingRuns(fuel, env);
    }
    OneOutput(Doubled(Parameter(env)));
    assert InitialGlobals(DOUBLING.globals, 0) == [];
    var run := RunFunction(1, DOUBLING, 0, args, [], env.mem);
    assert run.Some?;
  }

  lemma OneOutput(w: Bits)
    ensures ConcatAll([w]) == w
  {
    var none: seq<Bits> := [];
    assert [w][..0] == none && ConcatAll(none) == [];
  }

  /** Nothing has been stored wrongly when there are only inputs. */
  lemma InputsOnly(env: Env, c: Circuit)
    requires c.stmts == []
    ensures Harmless(env, c) && M(env, c) == env.mem
  {
  }

  lemma ParameterIs(env: Env)
    ensures EntryArgs(env.inputs, PARAMS, 1) == [Parameter(env)]
  {
    assert |EntryArgs(env.inputs, PARAMS, 1)| == 1;
  }

  /**
   The steps of the importer for this module: its parameter, the path condition, the one instruction, the outputs.
   The circuit asked for is faithful; the one stored is so exactly on the input 0.
   */
  method ImportDoubling() returns (c: Circuit, outputs: seq<Var>)
    ensures Faithful(DOUBLING, 0, 1, Artifact(c, outputs))
    ensures forall env :: FaithfulAt(env, DOUBLING, 0, 1, Artifact(Stored(c), outputs)) <==> Num(Parameter(env)) == 0
  {
    hide Run, Word, Stored, Harmless, NoClash, BinaryWord, RunFunction, Good, Num, Parameter, FaithfulAt;
    var compiler := new Compiler(DOUBLING);
    var args := EntryValues(compiler.emitter, PARAMS);
    var param := args.value[0];
    ghost var c0 := compiler.emitter.circuit;
    var active := compiler.emitter.BcConst(true);
    ghost var c1 := compiler.emitter.circuit;
    PureKeeps(c0, c1);
    AllKept(c0, c1, args.value);
    var sum := compiler.Binary(Add, param, param);
    c, outputs := compiler.emitter.circuit, sum.value.bits;
    forall env ensures FaithfulAt(env, DOUBLING, 0, 1, Artifact(c, outputs))
      && (FaithfulAt(env, DOUBLING, 0, 1, Artifact(Stored(c), outputs)) <==> Num(Parameter(env)) == 0)
    {
      ParameterIs(env);
      InputsOnly(env, c0);
      assert Words(env, c1, args.value) == Words(env, c0, args.value);
      assert Words(env, c1, args.value)[0] == Word(env, c1, param.bits);
      assert M(env, c) == M(env, c1) == M(env, c0);
      assert Harmless(env, c1) && Word(env, c, outputs) == Doubled(Parameter(env));
      NoBitSet(env, c1, param.bits);
      FaithfulIs(env, Artifact(c, outputs));
      FaithfulIs(env, Artifact(Stored(c), outputs));
      assert (Word(env, Stored(c), outputs) == Doubled(Parameter(env))) == NoClash(env, c1, param.bits, param.bits, 32);
      if Num(Parameter(env)) == 0 {
        assert Harmless(env, c);
        HarmlessRuns(env, c);
        SameMemory(env, c, Stored(c));
      }
    }
  }

  lemma SameMemory(env: Env, c: Circuit, d: Circuit)
    requires Run(env, d) == Run(env, c)
    ensures M(env, d) == M(env, c)
  {
    hide Run;
  }
}
