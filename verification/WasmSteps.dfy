/**
 Symbolic states and the simulation argument, step by step: when a piece of circuit computes
 what an instruction, a terminator, a block or a call does, and how the pieces compose. The two
 arms of an unknown branch meet in `ArmsMerge`.
 */
module WasmSteps {
  import opened Common
  import opened Numbers
  import opened VCircuit
  import opened Karatsuba
  import opened BitCircuits
  import opened WasmProgram
  import opened WasmValues

  // ---------------------------------------------------------------- state, plan, correctness of a step

  datatype State = State(values: map<ValueId, Value>, globals: seq<Value>, active: Var, frame: nat)

  datatype ResultState = ResultState(outputs: seq<Value>, globals: seq<Value>)

  ghost predicate StateGood(c: Circuit, s: State) {
    MapGood(c, s.values) && AllGood(c, s.globals) && s.active < c.Size()
  }

  ghost predicate ResultGood(c: Circuit, r: ResultState) {
    AllGood(c, r.outputs) && AllGood(c, r.globals)
  }

  /** The concrete frame a symbolic state stands for in one run of the circuit so far. */
  ghost function FrameOf(env: Env, c: Circuit, s: State): Frame {
    Frame(MapWords(env, c, s.values), Words(env, c, s.globals), M(env, c))
  }

  ghost function DoneOf(env: Env, c: Circuit, r: ResultState): Done {
    Done(Words(env, c, r.outputs), Words(env, c, r.globals), M(env, c))
  }

  /** A block entered in one call frame with these parameters known. */
  datatype Key = Key(frame: nat, func: FuncId, block: BlockId, known: seq<Option<nat>>)

  /** Static control expansion: no state twice, no more than `limit` states or `depthLimit` open calls. */
  datatype Plan = Plan(entered: set<Key>, limit: nat, depth: nat, depthLimit: nat) {
    function Left(): int {
      limit - |entered|
    }

    function Enter(key: Key): (r: Result<Plan>)
      ensures r.Ok? ==> r.value.Left() == Left() - 1 >= 0 && key !in entered
    {
      if key in entered then Err(NonFiniteControl)
      else if |entered| >= limit then Err(ResourceLimit)
      else Ok(this.(entered := entered + {key}))
    }

    function EnterCall(): (r: Result<Plan>)
      ensures r.Ok? ==> r.value.Left() == Left()
    {
      if depth >= depthLimit then Err(ResourceLimit) else Ok(this.(depth := depth + 1))
    }

    function LeaveCall(): (r: Plan)
      ensures r.Left() == Left()
    {
      this.(depth := if depth > 0 then depth - 1 else 0)
    }
  }

  /** Where the path is not taken, memory stays as it was. */
  ghost predicate Quiet(c0: Circuit, c: Circuit, active: Var) {
    forall env {:trigger M(env, c)} :: !B(env, c0, active) ==> M(env, c) == M(env, c0)
  }

  /** On the taken path, with fuel for the `left` blocks still allowed, the function's run is what `c` computes. */
  ghost predicate FunctionRuns(m: Module, f: FuncId, args: seq<Value>, globals: seq<Value>, active: Var, left: int,
                               c0: Circuit, c: Circuit, r: ResultState)
  {
    forall env: Env, fuel: nat {:trigger RunFunction(fuel, m, f, Words(env, c0, args), Words(env, c0, globals), M(env, c0))}
      | fuel >= left && B(env, c0, active) ::
      RunFunction(fuel, m, f, Words(env, c0, args), Words(env, c0, globals), M(env, c0)) == Some(DoneOf(env, c, r))
  }

  ghost predicate BlockRuns(m: Module, body: Body, block: BlockId, s: State, left: int, c0: Circuit, c: Circuit, r: ResultState) {
    forall env: Env, fuel: nat {:trigger RunBlock(fuel, m, body, block, FrameOf(env, c0, s))}
      | fuel >= left && B(env, c0, s.active) ::
      RunBlock(fuel, m, body, block, FrameOf(env, c0, s)) == Some(DoneOf(env, c, r))
  }

  ghost predicate TargetRuns(m: Module, body: Body, target: Target, s: State, left: int, c0: Circuit, c: Circuit, r: ResultState) {
    forall env: Env, fuel: nat {:trigger RunTarget(fuel, m, body, target, FrameOf(env, c0, s))}
      | fuel > left && fuel > 0 && B(env, c0, s.active) ::
      RunTarget(fuel, m, body, target, FrameOf(env, c0, s)) == Some(DoneOf(env, c, r))
  }

  ghost predicate EndRuns(m: Module, body: Body, end: Terminator, s: State, left: int, c0: Circuit, c: Circuit, r: ResultState) {
    forall env: Env, fuel: nat {:trigger RunTerminator(fuel, m, body, end, FrameOf(env, c0, s))}
      | fuel > left && fuel > 0 && B(env, c0, s.active) ::
      RunTerminator(fuel, m, body, end, FrameOf(env, c0, s)) == Some(DoneOf(env, c, r))
  }

  ghost predicate InstRuns(m: Module, body: Body, v: ValueId, s: State, left: int, c0: Circuit, c: Circuit, after: State) {
    forall env: Env, fuel: nat {:trigger RunInst(fuel, m, body, v, FrameOf(env, c0, s))}
      | fuel > left && fuel > 0 && B(env, c0, s.active) ::
      RunInst(fuel, m, body, v, FrameOf(env, c0, s)) == Some(FrameOf(env, c, after))
  }

  ghost predicate InstsRun(m: Module, body: Body, insts: seq<ValueId>, n: nat, s: State, left: int,
                           c0: Circuit, c: Circuit, after: State)
    requires n <= |insts|
  {
    forall env: Env, fuel: nat {:trigger RunInsts(fuel, m, body, insts, n, FrameOf(env, c0, s))}
      | fuel > left && fuel > 0 && B(env, c0, s.active) ::
      RunInsts(fuel, m, body, insts, n, FrameOf(env, c0, s)) == Some(FrameOf(env, c, after))
  }

  lemma StateKept(c: Circuit, d: Circuit, s: State)
    requires Keeps(c, d) && StateGood(c, s)
    ensures StateGood(d, s)
    ensures forall env {:trigger FrameOf(env, d, s)} ::
      FrameOf(env, d, s) == FrameOf(env, c, s).(mem := M(env, d)) && B(env, d, s.active) == B(env, c, s.active)
  {
    hide Run, Good, MapGood, AllGood, MapWords, Words;
    MapKept(c, d, s.values);
    AllKept(c, d, s.globals);
    forall env
      ensures FrameOf(env, d, s) == FrameOf(env, c, s).(mem := M(env, d)) && B(env, d, s.active) == B(env, c, s.active)
    {
      assert MapWords(env, d, s.values) == MapWords(env, c, s.values);
      assert Words(env, d, s.globals) == Words(env, c, s.globals);
      BitKept(env, c, d, s.active);
    }
  }

  lemma ResultKept(c: Circuit, d: Circuit, r: ResultState)
    requires Keeps(c, d) && ResultGood(c, r)
    ensures ResultGood(d, r)
    ensures forall env {:trigger DoneOf(env, d, r)} :: DoneOf(env, d, r) == DoneOf(env, c, r).(mem := M(env, d))
  {
    hide Run, Good, AllGood, Words;
    AllKept(c, d, r.outputs);
    AllKept(c, d, r.globals);
    forall env ensures DoneOf(env, d, r) == DoneOf(env, c, r).(mem := M(env, d)) {
      assert Words(env, d, r.outputs) == Words(env, c, r.outputs);
      assert Words(env, d, r.globals) == Words(env, c, r.globals);
    }
  }

  // ---------------------------------------------------------------- resolving values

  lemma OperandWord(env: Env, c: Circuit, body: Body, values: map<ValueId, Value>, v: ValueId)
    requires MapGood(c, values)
    ensures var value := Operand(body, values, v);
      value.Some? ==> Good(c, value.value) && Operand(body, MapWords(env, c, values), v) == Some(Word(env, c, value.value.bits))
  {
    hide Run, Good, Word, Resolve;
  }

  lemma {:induction false} OperandsWords(env: Env, c: Circuit, body: Body, values: map<ValueId, Value>, args: seq<ValueId>, n: nat)
    requires MapGood(c, values) && n <= |args|
    ensures var found := Operands(body, values, args, n);
      found.Some? ==>
        AllGood(c, found.value) && Operands(body, MapWords(env, c, values), args, n) == Some(Words(env, c, found.value))
    decreases n
  {
    hide Run, Good, Word, Operand, MapWords, MapGood;
    if n > 0 {
      OperandsWords(env, c, body, values, args, n - 1);
      OperandWord(env, c, body, values, args[n - 1]);
      var before, last := Operands(body, values, args, n - 1), Operand(body, values, args[n - 1]);
      if before.Some? && last.Some? {
        WordsSnoc(env, c, before.value, last.value);
      }
    }
  }

  lemma {:induction false} BoundWords(env: Env, c: Circuit, values: map<ValueId, Value>, params: seq<Param>, args: seq<Value>, n: nat)
    requires MapGood(c, values) && AllGood(c, args) && n <= |params| == |args|
    ensures MapGood(c, Bound(values, params, args, n))
    ensures MapWords(env, c, Bound(values, params, args, n)) == Bound(MapWords(env, c, values), params, Words(env, c, args), n)
    decreases n
  {
    hide Run, Good, Word;
    if n > 0 {
      BoundWords(env, c, values, params, args, n - 1);
    }
  }

  lemma UpdateWords(env: Env, c: Circuit, values: map<ValueId, Value>, v: ValueId, value: Value)
    requires MapGood(c, values) && Good(c, value)
    ensures MapGood(c, values[v := value])
    ensures MapWords(env, c, values[v := value]) == MapWords(env, c, values)[v := Word(env, c, value.bits)]
  {
    hide Run, Good, Word;
  }

  /** The state at the entry of a branch target. */
  function BranchState(body: Body, state: State, target: Target): Option<State> {
    if target.block >= |body.blocks| || |body.blocks[target.block].params| != |target.args| then None
    else
      var values := Operands(body, state.values, target.args, |target.args|);
      if values.None? then None
      else Some(state.(values := Bound(state.values, body.blocks[target.block].params, values.value, |target.args|)))
  }

  /** Jumping concretely is entering the target block in the branch state. */
  lemma BranchRuns(env: Env, fuel: nat, m: Module, c: Circuit, body: Body, state: State, target: Target)
    requires StateGood(c, state) && BranchState(body, state, target).Some? && fuel > 0
    ensures StateGood(c, BranchState(body, state, target).value)
    ensures RunTarget(fuel, m, body, target, FrameOf(env, c, state))
      == RunBlock(fuel - 1, m, body, target.block, FrameOf(env, c, BranchState(body, state, target).value))
  {
    hide Run, Good, AllGood, MapGood, Word, Words, MapWords, RunBlock, Operands, Bound;
    OperandsWords(env, c, body, state.values, target.args, |target.args|);
    var args := Operands(body, state.values, target.args, |target.args|).value;
    BoundWords(env, c, state.values, body.blocks[target.block].params, args, |target.args|);
  }

  // ---------------------------------------------------------------- one step after another

  lemma KeepsReflexive(c: Circuit)
    ensures Keeps(c, c)
    ensures forall active: Var {:trigger Quiet(c, c, active)} :: Quiet(c, c, active)
  {
    hide Run;
  }

  lemma PureKeeps(c: Circuit, d: Circuit)
    requires Pure(c, d)
    ensures Keeps(c, d)
    ensures forall active: Var {:trigger Quiet(c, d, active)} :: Quiet(c, d, active)
  {
    hide Run;
  }

  lemma BitVarBound(c: Circuit, v: Var)
    requires BitVar(c, v)
    ensures v < c.Size()
  {
  }

  lemma SizeGrows(c: Circuit, d: Circuit, v: Var)
    requires Keeps(c, d) && v < c.Size()
    ensures v < d.Size()
  {
  }

  lemma QuietTransitive(c: Circuit, d: Circuit, e: Circuit, active: Var)
    requires Keeps(c, d) && active < c.Size() && Quiet(c, d, active) && Quiet(d, e, active)
    ensures Quiet(c, e, active)
  {
    hide Run;
    forall env ensures !B(env, c, active) ==> M(env, e) == M(env, c) {
      BitKept(env, c, d, active);
      assert !B(env, c, active) ==> M(env, d) == M(env, c);
    }
  }

  /** After a pure step `c -> d`. */
  lemma QuietTransitiveAfter(c: Circuit, d: Circuit, e: Circuit, active: Var)
    requires Pure(c, d) && active < c.Size() && Quiet(d, e, active)
    ensures Quiet(c, e, active)
  {
    PureKeeps(c, d);
    QuietTransitive(c, d, e, active);
  }

  lemma StateParts(c: Circuit, s: State)
    requires StateGood(c, s)
    ensures MapGood(c, s.values) && AllGood(c, s.globals) && s.active < c.Size()
  {
  }

  lemma PairGood(c: Circuit, values: seq<Value>)
    requires AllGood(c, values) && |values| >= 2
    ensures Good(c, values[0]) && Good(c, values[1])
  {
  }

  lemma FirstGood(c: Circuit, values: seq<Value>)
    requires AllGood(c, values) && |values| >= 1
    ensures Good(c, values[0])
  {
  }

  lemma GuardedGood(c: Circuit, s: State, guard: Var)
    requires StateGood(c, s) && guard < c.Size()
    ensures StateGood(c, s.(active := guard))
  {
  }

  lemma ResolvedGood(c: Circuit, body: Body, s: State, args: seq<ValueId>)
    requires StateGood(c, s) && Operands(body, s.values, args, |args|).Some?
    ensures AllGood(c, Operands(body, s.values, args, |args|).value)
  {
    hide Run, AllGood, MapGood, Operands;
    OperandsWords(Env([], map[]), c, body, s.values, args, |args|);
  }

  lemma ConditionGood(c: Circuit, body: Body, s: State, v: ValueId)
    requires StateGood(c, s) && Operand(body, s.values, v).Some?
    ensures Good(c, Operand(body, s.values, v).value)
  {
    hide Run, Good, AllGood, Operand, MapGood;
    OperandWord(Env([], map[]), c, body, s.values, v);
  }

  /** The known numbers of a block's parameters. */
  function KnownOf(body: Body, values: map<ValueId, Value>, params: seq<Param>): Option<seq<Option<nat>>> {
    if params == [] then Some([])
    else
      var before, last := KnownOf(body, values, params[..|params| - 1]), Operand(body, values, params[|params| - 1].value);
      if before.Some? && last.Some? then Some(before.value + [last.value.known]) else None
  }

  // ---------------------------------------------------------------- instructions

  lemma NoInsts(m: Module, body: Body, insts: seq<ValueId>, s: State, left: int, c: Circuit)
    ensures InstsRun(m, body, insts, 0, s, left, c, c, s)
  {
    hide Run, FrameOf;
  }

  lemma OneMoreInst(m: Module, body: Body, insts: seq<ValueId>, i: nat, s: State, left0: int, left: int,
                    c0: Circuit, c1: Circuit, before: State, c: Circuit, after: State)
    requires i < |insts| && left <= left0 && Keeps(c0, c1) && s.active == before.active && s.active < c0.Size()
    requires InstsRun(m, body, insts, i, s, left0, c0, c1, before)
    requires InstRuns(m, body, insts[i], before, left, c1, c, after)
    ensures InstsRun(m, body, insts, i + 1, s, left0, c0, c, after)
  {
    hide Run, FrameOf, RunInst, B;
    var n := i + 1;
    forall env: Env, fuel: nat | fuel > left0 && fuel > 0 && B(env, c0, s.active)
      ensures RunInsts(fuel, m, body, insts, n, FrameOf(env, c0, s)) == Some(FrameOf(env, c, after))
    {
      BitKept(env, c0, c1, s.active);
      assert RunInsts(fuel, m, body, insts, i, FrameOf(env, c0, s)) == Some(FrameOf(env, c1, before));
      assert RunInst(fuel, m, body, insts[i], FrameOf(env, c1, before)) == Some(FrameOf(env, c, after));
    }
  }

  lemma AliasRuns(m: Module, body: Body, v: ValueId, s: State, left: int, c: Circuit)
    requires StateGood(c, s) && body.Def(v).Alias? && Operand(body, s.values, body.Def(v).to).Some?
    ensures StateGood(c, s.(values := s.values[v := Operand(body, s.values, body.Def(v).to).value]))
    ensures InstRuns(m, body, v, s, left, c, c, s.(values := s.values[v := Operand(body, s.values, body.Def(v).to).value]))
  {
    hide Run, Good, AllGood, MapGood, MapWords, Words, Word, Operand;
    var value := Operand(body, s.values, body.Def(v).to).value;
    ConditionGood(c, body, s, body.Def(v).to);
    forall env ensures MapGood(c, s.values[v := value])
      ensures MapWords(env, c, s.values[v := value]) == MapWords(env, c, s.values)[v := Word(env, c, value.bits)]
      ensures Operand(body, MapWords(env, c, s.values), body.Def(v).to) == Some(Word(env, c, value.bits))
    {
      OperandWord(env, c, body, s.values, body.Def(v).to);
      UpdateWords(env, c, s.values, v, value);
    }
    UpdateWords(Env([], map[]), c, s.values, v, value);
  }

  lemma NoDefRuns(m: Module, body: Body, v: ValueId, s: State, left: int, c: Circuit)
    requires body.Def(v).NoDef?
    ensures InstRuns(m, body, v, s, left, c, c, s)
  {
    hide Run, FrameOf;
  }

  /** The operands of an operator instruction, as its run reads them. */
  lemma OperatorRuns(env: Env, fuel: nat, m: Module, body: Body, v: ValueId, operator: Operator, args: seq<ValueId>, results: seq<Ty>,
                     values: seq<Value>, s: State, c: Circuit)
    requires StateGood(c, s) && fuel > 0
    requires body.Def(v) == OpValue(operator, args, results) && Operands(body, s.values, args, |args|) == Some(values)
    ensures RunInst(fuel, m, body, v, FrameOf(env, c, s))
      == RunOperator(fuel, m, v, operator, Words(env, c, values), results, FrameOf(env, c, s))
  {
    hide Run, AllGood, MapGood, MapWords, Words, Operands, RunOperator;
    OperandsWords(env, c, body, s.values, args, |args|);
  }

  /** An operator that defines `v` and touches nothing else. */
  lemma DefineRuns(m: Module, body: Body, v: ValueId, s: State, left: int, c0: Circuit, c: Circuit, value: Value)
    requires Pure(c0, c) && StateGood(c0, s) && Good(c, value)
    requires forall env: Env, fuel: nat {:trigger RunInst(fuel, m, body, v, FrameOf(env, c0, s))} | fuel > 0 ::
      RunInst(fuel, m, body, v, FrameOf(env, c0, s))
        == Some(FrameOf(env, c0, s).(values := MapWords(env, c0, s.values)[v := Word(env, c, value.bits)]))
    ensures StateGood(c, s.(values := s.values[v := value]))
    ensures InstRuns(m, body, v, s, left, c0, c, s.(values := s.values[v := value]))
  {
    hide Run, Good, AllGood, MapGood, MapWords, Words, Word, RunInst, B;
    var after := s.(values := s.values[v := value]);
    MapKept(c0, c, s.values);
    AllKept(c0, c, s.globals);
    UpdateWords(Env([], map[]), c, s.values, v, value);
    forall env: Env, fuel: nat | fuel > left && fuel > 0 && B(env, c0, s.active)
      ensures RunInst(fuel, m, body, v, FrameOf(env, c0, s)) == Some(FrameOf(env, c, after))
    {
      UpdateWords(env, c, s.values, v, value);
      assert MapWords(env, c, s.values) == MapWords(env, c0, s.values);
      assert Words(env, c, s.globals) == Words(env, c0, s.globals);
      assert M(env, c) == M(env, c0);
    }
  }

  lemma LoadRuns(m: Module, body: Body, v: ValueId, operator: Operator, args: seq<ValueId>, results: seq<Ty>, values: seq<Value>,
                 s: State, left: int, c0: Circuit, c: Circuit, value: Value)
    requires Pure(c0, c) && StateGood(c0, s) && Good(c, value) && |values| >= 1 && operator.LoadOp?
    requires body.Def(v) == OpValue(operator, args, results) && Operands(body, s.values, args, |args|) == Some(values)
    requires forall env {:trigger Word(env, c, value.bits)} ::
      LoadResult(m, M(env, c0), operator, [Word(env, c0, values[0].bits)]) == Some(Word(env, c, value.bits))
    ensures StateGood(c, s.(values := s.values[v := value]))
    ensures InstRuns(m, body, v, s, left, c0, c, s.(values := s.values[v := value]))
  {
    hide Run, Good, StateGood, MapWords, Word, RunInst, B, Operands, Pure, LoadBytes, EffectiveAddress;
    forall env: Env, fuel: nat | fuel > 0
      ensures RunInst(fuel, m, body, v, FrameOf(env, c0, s))
        == Some(FrameOf(env, c0, s).(values := MapWords(env, c0, s.values)[v := Word(env, c, value.bits)]))
    {
      OperatorRuns(env, fuel, m, body, v, operator, args, results, values, s, c0);
      assert LoadResult(m, M(env, c0), operator, [Word(env, c0, values[0].bits)]) == Some(Word(env, c, value.bits));
    }
    DefineRuns(m, body, v, s, left, c0, c, value);
  }

  lemma PureRuns(m: Module, body: Body, v: ValueId, operator: Operator, args: seq<ValueId>, results: seq<Ty>, values: seq<Value>,
                 s: State, left: int, c0: Circuit, c: Circuit, value: Value)
    requires Pure(c0, c) && StateGood(c0, s) && Good(c, value)
    requires !operator.LoadOp? && !operator.StoreOp? && !operator.CallOp? && !operator.GlobalSetOp? && !operator.NopOp?
    requires body.Def(v) == OpValue(operator, args, results) && Operands(body, s.values, args, |args|) == Some(values)
    requires forall env {:trigger Word(env, c, value.bits)} ::
      PureResult(m, operator, Words(env, c0, values), results, Words(env, c0, s.globals)) == Some(Word(env, c, value.bits))
    ensures StateGood(c, s.(values := s.values[v := value]))
    ensures InstRuns(m, body, v, s, left, c0, c, s.(values := s.values[v := value]))
  {
    hide Run, Good, StateGood, MapWords, Word, RunInst, B, Operands, Pure, PureResult, Words;
    forall env: Env, fuel: nat | fuel > 0
      ensures RunInst(fuel, m, body, v, FrameOf(env, c0, s))
        == Some(FrameOf(env, c0, s).(values := MapWords(env, c0, s.values)[v := Word(env, c, value.bits)]))
    {
      OperatorRuns(env, fuel, m, body, v, operator, args, results, values, s, c0);
      assert PureResult(m, operator, Words(env, c0, values), results, Words(env, c0, s.globals)) == Some(Word(env, c, value.bits));
    }
    DefineRuns(m, body, v, s, left, c0, c, value);
  }

  lemma NopRuns(m: Module, body: Body, v: ValueId, args: seq<ValueId>, results: seq<Ty>, values: seq<Value>, s: State, left: int, c: Circuit)
    requires StateGood(c, s) && body.Def(v) == OpValue(NopOp, args, results)
    requires Operands(body, s.values, args, |args|) == Some(values)
    ensures InstRuns(m, body, v, s, left, c, c, s)
  {
    hide Run, StateGood, FrameOf, Operands, RunInst, Words;
    forall env: Env, fuel: nat | fuel > 0 ensures RunInst(fuel, m, body, v, FrameOf(env, c, s)) == Some(FrameOf(env, c, s)) {
      OperatorRuns(env, fuel, m, body, v, NopOp, args, results, values, s, c);
    }
  }

  /** The mutable globals after a write; a write to an immutable global is ignored. */
  function NewGlobals(m: Module, g: nat, values: seq<Value>, globals: seq<Value>): Option<seq<Value>> {
    if g >= |m.globals| then None
    else if !m.globals[g].mutable then Some(globals)
    else
      var index := MutableIndex(m.globals, g);
      if index < |globals| && |values| >= 1 then Some(globals[index := values[0]]) else None
  }

  lemma GlobalSetRuns(m: Module, body: Body, v: ValueId, g: nat, args: seq<ValueId>, results: seq<Ty>, values: seq<Value>,
                      s: State, left: int, c: Circuit)
    requires StateGood(c, s) && AllGood(c, values) && body.Def(v) == OpValue(GlobalSetOp(g), args, results)
    requires Operands(body, s.values, args, |args|) == Some(values) && NewGlobals(m, g, values, s.globals).Some?
    ensures StateGood(c, s.(globals := NewGlobals(m, g, values, s.globals).value))
    ensures InstRuns(m, body, v, s, left, c, c, s.(globals := NewGlobals(m, g, values, s.globals).value))
  {
    hide Run, Good, MapGood, MapWords, Word, RunInst, B, Operands;
    var globals := NewGlobals(m, g, values, s.globals).value;
    forall env: Env, fuel: nat | fuel > 0
      ensures RunInst(fuel, m, body, v, FrameOf(env, c, s)) == Some(FrameOf(env, c, s.(globals := globals)))
    {
      OperatorRuns(env, fuel, m, body, v, GlobalSetOp(g), args, results, values, s, c);
      if m.globals[g].mutable {
        var index := MutableIndex(m.globals, g);
        assert Words(env, c, globals) == Words(env, c, s.globals)[index := Words(env, c, values)[0]];
      }
      assert SetGlobal(m, g, Words(env, c, values), Words(env, c, s.globals)) == Some(Words(env, c, globals));
    }
  }

  lemma StoreRuns(m: Module, body: Body, v: ValueId, operator: Operator, args: seq<ValueId>, results: seq<Ty>, values: seq<Value>,
                  s: State, left: int, c0: Circuit, c: Circuit)
    requires Keeps(c0, c) && StateGood(c0, s) && |values| >= 2 && operator.StoreOp?
    requires body.Def(v) == OpValue(operator, args, results) && Operands(body, s.values, args, |args|) == Some(values)
    requires forall env {:trigger M(env, c)} ::
      if B(env, c0, s.active) then
        StoreResult(m, M(env, c0), StoreOp(operator.storage, operator.offset, operator.bytes),
          [Word(env, c0, values[0].bits), Word(env, c0, values[1].bits)]) == Some(M(env, c))
      else M(env, c) == M(env, c0)
    ensures StateGood(c, s) && Quiet(c0, c, s.active) && InstRuns(m, body, v, s, left, c0, c, s)
  {
    hide Run, Good, MapGood, AllGood, MapWords, Word, RunInst, B, Operands, Keeps, StoreBytes, EffectiveAddress;
    StateKept(c0, c, s);
    forall env: Env, fuel: nat | fuel > 0 && B(env, c0, s.active)
      ensures RunInst(fuel, m, body, v, FrameOf(env, c0, s)) == Some(FrameOf(env, c, s))
    {
      OperatorRuns(env, fuel, m, body, v, operator, args, results, values, s, c0);
      assert FrameOf(env, c, s) == FrameOf(env, c0, s).(mem := M(env, c));
      var words := Words(env, c0, values);
      assert words[0] == Word(env, c0, values[0].bits) && words[1] == Word(env, c0, values[1].bits);
    }
  }

  // ---------------------------------------------------------------- calls and picks

  function ConcatBits(outputs: seq<Value>): seq<Var> {
    if outputs == [] then [] else ConcatBits(outputs[..|outputs| - 1]) + outputs[|outputs| - 1].bits
  }

  /** All outputs of a call as one value; a number is known only for a single output. */
  function CallValue(outputs: seq<Value>): Value
    requires outputs != []
  {
    WithBits(ConcatBits(outputs), if |outputs| == 1 then outputs[0].known else None)
  }

  lemma {:induction false} ConcatBitsWord(env: Env, c: Circuit, outputs: seq<Value>)
    requires AllGood(c, outputs)
    ensures BitVars(c, ConcatBits(outputs))
    ensures Word(env, c, ConcatBits(outputs)) == ConcatAll(Words(env, c, outputs))
  {
    hide Run;
    if outputs != [] {
      var init, last := outputs[..|outputs| - 1], outputs[|outputs| - 1];
      ConcatBitsWord(env, c, init);
      WordConcat(env, c, ConcatBits(init), last.bits);
      var words := Words(env, c, outputs);
      assert words[..|words| - 1] == Words(env, c, init);
    }
  }

  lemma CallValueWord(c: Circuit, outputs: seq<Value>)
    requires AllGood(c, outputs) && outputs != []
    ensures Good(c, CallValue(outputs))
    ensures forall env {:trigger Word(env, c, CallValue(outputs).bits)} ::
      Word(env, c, CallValue(outputs).bits) == ConcatAll(Words(env, c, outputs))
  {
    hide Run, Num, Pow2, Mask, Word, BitVar;
    ConcatBitsWord(Env([], map[]), c, outputs);
    if |outputs| == 1 {
      assert ConcatBits(outputs) == ConcatBits(outputs[..0]) + outputs[0].bits == outputs[0].bits;
    }
    forall env
      ensures Word(env, c, CallValue(outputs).bits) == ConcatAll(Words(env, c, outputs))
      ensures CallValue(outputs).known.Some? ==> Num(Word(env, c, CallValue(outputs).bits)) == CallValue(outputs).known.value
    {
      ConcatBitsWord(env, c, outputs);
      if |outputs| == 1 && outputs[0].known.Some? {
        assert Num(Word(env, c, outputs[0].bits)) == outputs[0].known.value;
        MaskOfNumber(Word(env, c, outputs[0].bits));
      }
    }
  }

  lemma CallRuns(m: Module, body: Body, v: ValueId, f: FuncId, args: seq<ValueId>, results: seq<Ty>, values: seq<Value>,
                 s: State, left: int, c0: Circuit, c: Circuit, done: ResultState)
    requires Keeps(c0, c) && StateGood(c0, s) && ResultGood(c, done)
    requires body.Def(v) == OpValue(CallOp(f), args, results) && Operands(body, s.values, args, |args|) == Some(values)
    requires FunctionRuns(m, f, values, s.globals, s.active, left, c0, c, done)
    ensures
      var after := s.(values := if done.outputs == [] then s.values else s.values[v := CallValue(done.outputs)], globals := done.globals);
      StateGood(c, after) && InstRuns(m, body, v, s, left, c0, c, after)
  {
    hide Run, Good, MapGood, AllGood, MapWords, Words, Word, RunInst, RunFunction, B, Operands, CallValue, ConcatAll;
    var after := s.(values := if done.outputs == [] then s.values else s.values[v := CallValue(done.outputs)], globals := done.globals);
    MapKept(c0, c, s.values);
    if done.outputs != [] {
      CallValueWord(c, done.outputs);
      UpdateWords(Env([], map[]), c, s.values, v, CallValue(done.outputs));
    }
    forall env: Env, fuel: nat | fuel > left && fuel > 0 && B(env, c0, s.active)
      ensures RunInst(fuel, m, body, v, FrameOf(env, c0, s)) == Some(FrameOf(env, c, after))
    {
      OperatorRuns(env, fuel, m, body, v, CallOp(f), args, results, values, s, c0);
      assert RunFunction(fuel - 1, m, f, Words(env, c0, values), Words(env, c0, s.globals), M(env, c0)) == Some(DoneOf(env, c, done));
      assert MapWords(env, c, s.values) == MapWords(env, c0, s.values);
      assert |Words(env, c, done.outputs)| == |done.outputs|;
      if done.outputs != [] {
        UpdateWords(env, c, s.values, v, CallValue(done.outputs));
        assert Word(env, c, CallValue(done.outputs).bits) == ConcatAll(Words(env, c, done.outputs));
      }
    }
  }

  lemma SliceNumber(w: Bits, start: nat, width: nat)
    requires start + width <= |w|
    ensures Num(w[start..start + width]) == Num(w) / Pow2(start) % Pow2(width)
  {
    hide Num, Pow2;
    NumSplit(w, start);
    NumSplit(w[start..], width);
    assert w[start..][..width] == w[start..start + width];
  }

  /** `width` bits of a call's outputs; a known number is shifted down. */
  function Picked(source: Value, start: nat, width: nat): Value
    requires start + width <= |source.bits|
  {
    WithBits(source.bits[start..start + width], if source.known.Some? then Some(ShiftedDown(source.known.value, start)) else None)
  }

  function ShiftedDown(n: nat, places: nat): nat {
    Quotient(n, Pow2(places))
  }

  function Quotient(n: nat, d: nat): nat
    requires d > 0
  {
    n / d
  }

  lemma PickRuns(m: Module, body: Body, v: ValueId, s: State, left: int, c: Circuit, source: Value, start: nat, width: nat)
    requires StateGood(c, s) && body.Def(v).PickOutput? && Operand(body, s.values, body.Def(v).from) == Some(source)
    requires Width(body.Def(v).ty) == Some(width) && start + width <= |source.bits|
    requires body.Def(body.Def(v).from).OpValue? && OutputOffset(body.Def(body.Def(v).from).results, body.Def(v).index) == Some(start)
    ensures StateGood(c, s.(values := s.values[v := Picked(source, start, width)]))
    ensures InstRuns(m, body, v, s, left, c, c, s.(values := s.values[v := Picked(source, start, width)]))
  {
    hide Run, MapGood, AllGood, MapWords, Words, Word, B, Operand, Mask, Num, Pow2, OutputOffset, BitVar;
    var known := if source.known.Some? then Some(ShiftedDown(source.known.value, start)) else None;
    var value := Picked(source, start, width);
    ConditionGood(c, body, s, body.Def(v).from);
    SliceBits(c, source.bits, start, start + width);
    forall env
      ensures Word(env, c, value.bits) == Word(env, c, source.bits)[start..start + width]
      ensures value.known.Some? ==> Num(Word(env, c, value.bits)) == value.known.value
    {
      SliceWord(env, c, source.bits, start, start + width);
      if known.Some? {
        var w := Word(env, c, source.bits);
        assert Num(w) == source.known.value;
        SliceNumber(w, start, width);
        NumBound(w);
        Pow2Monotone(|w|, 64);
        SmallerQuotient(Num(w), Pow2(start), Pow2(64));
        MaskIsRemainder(known.value, width);
      }
    }
    assert Good(c, value);
    hide Good;
    PureReflexive(c);
    forall env: Env, fuel: nat | fuel > 0
      ensures RunInst(fuel, m, body, v, FrameOf(env, c, s))
        == Some(FrameOf(env, c, s).(values := MapWords(env, c, s.values)[v := Word(env, c, value.bits)]))
    {
      OperandWord(env, c, body, s.values, body.Def(v).from);
    }
    DefineRuns(m, body, v, s, left, c, c, value);
  }

  lemma SmallerQuotient(n: nat, d: nat, bound: nat)
    requires d > 0 && n < bound
    ensures n / d < bound
  {
    MulMonotone(1, d, n / d);
    assert n == n / d * d + n % d;
  }

  // ---------------------------------------------------------------- blocks and functions

  lemma EntryGood(c: Circuit, params: seq<Param>, args: seq<Value>, globals: seq<Value>, active: Var, frame: nat)
    requires |params| == |args| && AllGood(c, args) && AllGood(c, globals) && active < c.Size()
    ensures StateGood(c, State(Bound(map[], params, args, |args|), globals, active, frame))
  {
    hide Run, AllGood, Bound;
    BoundWords(Env([], map[]), c, map[], params, args, |args|);
  }

  lemma EntryRuns(m: Module, f: FuncId, args: seq<Value>, globals: seq<Value>, active: Var, frame: nat, left: int,
                  c0: Circuit, c: Circuit, r: ResultState)
    requires m.BodyOf(f).Some? && AllGood(c0, args)
    requires var body := m.BodyOf(f).value;
      body.entry < |body.blocks| && |body.blocks[body.entry].params| == |args|
      && BlockRuns(m, body, body.entry, State(Bound(map[], body.blocks[body.entry].params, args, |args|), globals, active, frame),
           left, c0, c, r)
    ensures FunctionRuns(m, f, args, globals, active, left, c0, c, r)
  {
    hide Run, AllGood, Bound, Words, MapWords, RunBlock, B;
    var body := m.BodyOf(f).value;
    var params := body.blocks[body.entry].params;
    var state := State(Bound(map[], params, args, |args|), globals, active, frame);
    forall env: Env, fuel: nat | fuel >= left && B(env, c0, active)
      ensures RunFunction(fuel, m, f, Words(env, c0, args), Words(env, c0, globals), M(env, c0)) == Some(DoneOf(env, c, r))
    {
      BoundWords(env, c0, map[], params, args, |args|);
      EmptyWords(env, c0);
      assert RunBlock(fuel, m, body, body.entry, FrameOf(env, c0, state)) == Some(DoneOf(env, c, r));
    }
  }

  lemma EmptyWords(env: Env, c: Circuit)
    ensures MapWords(env, c, map[]) == map[]
  {
  }

  lemma BlockFromParts(m: Module, body: Body, block: BlockId, s: State, after: State, left0: int, left: int,
                       c0: Circuit, c1: Circuit, c: Circuit, r: ResultState)
    requires block < |body.blocks| && left <= left0 - 1 && left0 >= 1 && s.active == after.active && s.active < c0.Size() && Keeps(c0, c1)
    requires InstsRun(m, body, body.blocks[block].insts, |body.blocks[block].insts|, s, left0 - 1, c0, c1, after)
    requires EndRuns(m, body, body.blocks[block].terminator, after, left, c1, c, r)
    ensures BlockRuns(m, body, block, s, left0, c0, c, r)
  {
    hide Run, FrameOf, DoneOf, RunInsts, RunTerminator, B;
    forall env: Env, fuel: nat | fuel >= left0 && B(env, c0, s.active)
      ensures RunBlock(fuel, m, body, block, FrameOf(env, c0, s)) == Some(DoneOf(env, c, r))
    {
      BitKept(env, c0, c1, s.active);
      var insts := body.blocks[block].insts;
      assert RunInsts(fuel, m, body, insts, |insts|, FrameOf(env, c0, s)) == Some(FrameOf(env, c1, after));
      assert RunTerminator(fuel, m, body, body.blocks[block].terminator, FrameOf(env, c1, after)) == Some(DoneOf(env, c, r));
    }
  }

  lemma EntryStateGood(c: Circuit, m: Module, body: Body, s: State, target: Target)
    requires StateGood(c, s) && BranchState(body, s, target).Some?
    ensures StateGood(c, BranchState(body, s, target).value) && BranchState(body, s, target).value.active == s.active
  {
    hide Run, StateGood;
    BranchRuns(Env([], map[]), 1, m, c, body, s, target);
  }

  lemma TargetFromBlock(m: Module, body: Body, target: Target, s: State, left: int, c0: Circuit, c: Circuit, r: ResultState)
    requires StateGood(c0, s) && BranchState(body, s, target).Some?
    requires BlockRuns(m, body, target.block, BranchState(body, s, target).value, left, c0, c, r)
    ensures TargetRuns(m, body, target, s, left, c0, c, r)
  {
    hide Run, FrameOf, StateGood, DoneOf, RunTarget, RunBlock, B;
    var entry := BranchState(body, s, target).value;
    forall env: Env, fuel: nat | fuel > left && fuel > 0 && B(env, c0, s.active)
      ensures RunTarget(fuel, m, body, target, FrameOf(env, c0, s)) == Some(DoneOf(env, c, r))
    {
      BranchRuns(env, fuel, m, c0, body, s, target);
      assert RunBlock(fuel - 1, m, body, target.block, FrameOf(env, c0, entry)) == Some(DoneOf(env, c, r));
    }
  }

  // ---------------------------------------------------------------- terminators

  lemma BrRuns(m: Module, body: Body, end: Terminator, s: State, left: int, c0: Circuit, c: Circuit, r: ResultState)
    requires end.Br? && TargetRuns(m, body, end.target, s, left, c0, c, r)
    ensures EndRuns(m, body, end, s, left, c0, c, r)
  {
    hide Run, FrameOf, DoneOf, RunTarget, B;
    forall env: Env, fuel: nat | fuel > left && fuel > 0 && B(env, c0, s.active)
      ensures RunTerminator(fuel, m, body, end, FrameOf(env, c0, s)) == Some(DoneOf(env, c, r))
    {
      assert RunTarget(fuel, m, body, end.target, FrameOf(env, c0, s)) == Some(DoneOf(env, c, r));
    }
  }

  /** A branch on `condition`, run concretely. */
  lemma CondBrRuns(env: Env, fuel: nat, m: Module, body: Body, end: Terminator, s: State, condition: Value, c: Circuit)
    requires StateGood(c, s) && end.CondBr? && Operand(body, s.values, end.cond) == Some(condition) && fuel > 0
    ensures RunTerminator(fuel, m, body, end, FrameOf(env, c, s))
      == RunTarget(fuel, m, body, if Num(Word(env, c, condition.bits)) != 0 then end.ifTrue else end.ifFalse, FrameOf(env, c, s))
  {
    hide Run, AllGood, MapGood, MapWords, Words, Word, Operand, RunTarget, Num;
    OperandWord(env, c, body, s.values, end.cond);
  }

  lemma KnownBranchRuns(m: Module, body: Body, end: Terminator, s: State, condition: Value, left: int,
                        c0: Circuit, c1: Circuit, c: Circuit, r: ResultState)
    requires Pure(c0, c1) && StateGood(c0, s) && end.CondBr? && Operand(body, s.values, end.cond) == Some(condition)
    requires Good(c0, condition) && condition.known.Some?
    requires TargetRuns(m, body, if condition.known.value == 0 then end.ifFalse else end.ifTrue, s, left, c1, c, r)
    ensures EndRuns(m, body, end, s, left, c0, c, r)
  {
    hide Run, FrameOf, DoneOf, RunTerminator, RunTarget, B, StateGood, Word, Num, Operand;
    StateKept(c0, c1, s);
    var target := if condition.known.value == 0 then end.ifFalse else end.ifTrue;
    forall env: Env, fuel: nat | fuel > left && fuel > 0 && B(env, c0, s.active)
      ensures RunTerminator(fuel, m, body, end, FrameOf(env, c0, s)) == Some(DoneOf(env, c, r))
    {
      CondBrRuns(env, fuel, m, body, end, s, condition, c0);
      assert Num(Word(env, c0, condition.bits)) == condition.known.value;
      SameFrame(env, c0, c1, s);
      assert RunTarget(fuel, m, body, target, FrameOf(env, c1, s)) == Some(DoneOf(env, c, r));
    }
  }

  lemma SameFrame(env: Env, c0: Circuit, c1: Circuit, s: State)
    requires Pure(c0, c1) && StateGood(c0, s)
    ensures FrameOf(env, c1, s) == FrameOf(env, c0, s) && B(env, c1, s.active) == B(env, c0, s.active)
  {
    hide Run, StateGood, MapWords, Words, B;
    StateKept(c0, c1, s);
    assert FrameOf(env, c1, s) == FrameOf(env, c0, s).(mem := M(env, c1));
    assert M(env, c1) == M(env, c0);
  }

  ghost function Chosen(env: Env, c: Circuit, bit: Var, ifTrue: Target, ifFalse: Target): Target {
    if B(env, c, bit) then ifTrue else ifFalse
  }

  /** Whichever way `bit` goes, the run of that arm is what `c` computes. */
  ghost predicate EitherRuns(m: Module, body: Body, bit: Var, ifTrue: Target, ifFalse: Target, s: State, left: int,
                             c0: Circuit, c: Circuit, r: ResultState)
  {
    forall env: Env, fuel: nat {:trigger RunTarget(fuel, m, body, Chosen(env, c0, bit, ifTrue, ifFalse), FrameOf(env, c0, s))}
      | fuel > left && fuel > 0 && B(env, c0, s.active) ::
      RunTarget(fuel, m, body, Chosen(env, c0, bit, ifTrue, ifFalse), FrameOf(env, c0, s)) == Some(DoneOf(env, c, r))
  }

  lemma ArmsRun(m: Module, body: Body, end: Terminator, s: State, condition: Value, bit: Var, left: int,
                c0: Circuit, c1: Circuit, c: Circuit, r: ResultState)
    requires Pure(c0, c1) && StateGood(c0, s) && end.CondBr? && Operand(body, s.values, end.cond) == Some(condition)
    requires forall env {:trigger B(env, c1, bit)} :: B(env, c1, bit) <==> Num(Word(env, c0, condition.bits)) != 0
    requires EitherRuns(m, body, bit, end.ifTrue, end.ifFalse, s, left, c1, c, r)
    ensures EndRuns(m, body, end, s, left, c0, c, r)
  {
    hide Run, FrameOf, DoneOf, RunTerminator, RunTarget, B, StateGood, Word, Num, Operand;
    forall env: Env, fuel: nat | fuel > left && fuel > 0 && B(env, c0, s.active)
      ensures RunTerminator(fuel, m, body, end, FrameOf(env, c0, s)) == Some(DoneOf(env, c, r))
    {
      CondBrRuns(env, fuel, m, body, end, s, condition, c0);
      SameFrame(env, c0, c1, s);
      assert RunTarget(fuel, m, body, Chosen(env, c1, bit, end.ifTrue, end.ifFalse), FrameOf(env, c1, s)) == Some(DoneOf(env, c, r));
    }
  }

  /** The heart of predicated execution: one arm runs, the other leaves memory alone, the merge picks. */
  lemma ArmsMerge(m: Module, body: Body, bit: Var, ifTrue: Target, ifFalse: Target, s: State, thenGuard: Var, elseGuard: Var, left: int,
                  c0: Circuit, c1: Circuit, c2: Circuit, c3: Circuit, c: Circuit, a: ResultState, b: ResultState, r: ResultState)
    requires Pure(c0, c1) && Keeps(c1, c2) && Keeps(c2, c3) && Pure(c3, c) && StateGood(c0, s) && bit < c0.Size()
    requires thenGuard < c1.Size() && elseGuard < c1.Size() && ResultGood(c2, a)
    requires forall env {:trigger B(env, c1, thenGuard)} :: B(env, c1, thenGuard) <==> B(env, c0, s.active) && B(env, c0, bit)
    requires forall env {:trigger B(env, c1, elseGuard)} :: B(env, c1, elseGuard) <==> B(env, c0, s.active) && !B(env, c0, bit)
    requires Quiet(c1, c2, thenGuard) && Quiet(c2, c3, elseGuard)
    requires TargetRuns(m, body, ifTrue, s.(active := thenGuard), left, c1, c2, a)
    requires TargetRuns(m, body, ifFalse, s.(active := elseGuard), left, c2, c3, b)
    requires forall env {:trigger DoneOf(env, c, r)} :: DoneOf(env, c, r) == DoneOf(env, c3, if B(env, c3, bit) then a else b)
    ensures Quiet(c0, c, s.active)
    ensures EitherRuns(m, body, bit, ifTrue, ifFalse, s, left, c0, c, r)
  {
    hide Run, FrameOf, DoneOf, RunTarget, B, StateGood, ResultGood, Keeps;
    forall env ensures !B(env, c0, s.active) ==> M(env, c) == M(env, c0) {
      BitKept(env, c1, c2, elseGuard);
      assert B(env, c1, thenGuard) <==> B(env, c0, s.active) && B(env, c0, bit);
      assert !B(env, c0, s.active) ==> M(env, c2) == M(env, c1) && M(env, c3) == M(env, c2);
      assert M(env, c1) == M(env, c0) && M(env, c) == M(env, c3);
    }
    forall env: Env, fuel: nat | fuel > left && fuel > 0 && B(env, c0, s.active)
      ensures RunTarget(fuel, m, body, Chosen(env, c0, bit, ifTrue, ifFalse), FrameOf(env, c0, s)) == Some(DoneOf(env, c, r))
    {
      ArmRuns(env, fuel, m, body, bit, ifTrue, ifFalse, s, thenGuard, elseGuard, left, c0, c1, c2, c3, c, a, b, r);
    }
  }

  lemma ArmRuns(env: Env, fuel: nat, m: Module, body: Body, bit: Var, ifTrue: Target, ifFalse: Target, s: State,
                thenGuard: Var, elseGuard: Var, left: int,
                c0: Circuit, c1: Circuit, c2: Circuit, c3: Circuit, c: Circuit, a: ResultState, b: ResultState, r: ResultState)
    requires Pure(c0, c1) && Keeps(c1, c2) && Keeps(c2, c3) && StateGood(c0, s) && bit < c0.Size()
    requires thenGuard < c1.Size() && elseGuard < c1.Size() && ResultGood(c2, a) && fuel > 0 && fuel > left
    requires B(env, c0, s.active)
    requires B(env, c1, thenGuard) <==> B(env, c0, bit)
    requires B(env, c1, elseGuard) <==> !B(env, c0, bit)
    requires Quiet(c1, c2, thenGuard) && Quiet(c2, c3, elseGuard)
    requires TargetRuns(m, body, ifTrue, s.(active := thenGuard), left, c1, c2, a)
    requires TargetRuns(m, body, ifFalse, s.(active := elseGuard), left, c2, c3, b)
    requires DoneOf(env, c, r) == DoneOf(env, c3, if B(env, c3, bit) then a else b)
    ensures RunTarget(fuel, m, body, Chosen(env, c0, bit, ifTrue, ifFalse), FrameOf(env, c0, s)) == Some(DoneOf(env, c, r))
  {
    hide Run, RunTarget, B, StateGood, ResultGood, Keeps, MapWords, Words;
    SameFrame(env, c0, c1, s);
    PureKeeps(c0, c1);
    BitKept(env, c0, c1, bit);
    SizeGrows(c0, c1, bit);
    BitKept(env, c1, c2, bit);
    SizeGrows(c1, c2, bit);
    BitKept(env, c2, c3, bit);
    BitKept(env, c1, c2, elseGuard);
    if B(env, c0, bit) {
      assert RunTarget(fuel, m, body, ifTrue, FrameOf(env, c1, s.(active := thenGuard))) == Some(DoneOf(env, c2, a));
      ResultKept(c2, c3, a);
      assert DoneOf(env, c3, a) == DoneOf(env, c2, a).(mem := M(env, c3));
      assert M(env, c3) == M(env, c2);
    } else {
      assert M(env, c2) == M(env, c1);
      StateKept(c0, c1, s);
      StateKept(c1, c2, s);
      assert FrameOf(env, c2, s) == FrameOf(env, c1, s).(mem := M(env, c2));
      assert RunTarget(fuel, m, body, ifFalse, FrameOf(env, c2, s.(active := elseGuard))) == Some(DoneOf(env, c3, b));
    }
  }

  lemma ReturnRuns(m: Module, body: Body, end: Terminator, s: State, outputs: seq<Value>, left: int, c: Circuit)
    requires StateGood(c, s) && end.Return? && Operands(body, s.values, end.values, |end.values|) == Some(outputs)
    ensures ResultGood(c, ResultState(outputs, s.globals))
    ensures EndRuns(m, body, end, s, left, c, c, ResultState(outputs, s.globals))
  {
    hide Run, AllGood, MapGood, MapWords, Words, Operands, B;
    OperandsWords(Env([], map[]), c, body, s.values, end.values, |end.values|);
    forall env: Env, fuel: nat | fuel > left && fuel > 0 && B(env, c, s.active)
      ensures RunTerminator(fuel, m, body, end, FrameOf(env, c, s)) == Some(DoneOf(env, c, ResultState(outputs, s.globals)))
    {
      OperandsWords(env, c, body, s.values, end.values, |end.values|);
    }
  }

  lemma ReturnCallRuns(m: Module, body: Body, end: Terminator, s: State, values: seq<Value>, left: int,
                       c0: Circuit, c: Circuit, r: ResultState)
    requires StateGood(c0, s) && end.ReturnCall? && Operands(body, s.values, end.args, |end.args|) == Some(values)
    requires FunctionRuns(m, end.func, values, s.globals, s.active, left, c0, c, r)
    ensures EndRuns(m, body, end, s, left, c0, c, r)
  {
    hide Run, AllGood, MapGood, MapWords, Words, Operands, B, RunFunction, DoneOf;
    forall env: Env, fuel: nat | fuel > left && fuel > 0 && B(env, c0, s.active)
      ensures RunTerminator(fuel, m, body, end, FrameOf(env, c0, s)) == Some(DoneOf(env, c, r))
    {
      OperandsWords(env, c0, body, s.values, end.args, |end.args|);
      assert RunFunction(fuel - 1, m, end.func, Words(env, c0, values), Words(env, c0, s.globals), M(env, c0)) == Some(DoneOf(env, c, r));
    }
  }

  lemma UnreachableRuns(m: Module, body: Body, end: Terminator, s: State, zeros: seq<Value>, left: int, c0: Circuit, c: Circuit)
    requires Pure(c0, c) && StateGood(c0, s) && end.Unreachable? && AllGood(c, zeros)
    requires forall env {:trigger Words(env, c, zeros)} :: Zeros(body.rets, |body.rets|) == Some(Words(env, c, zeros))
    ensures ResultGood(c, ResultState(zeros, s.globals))
    ensures EndRuns(m, body, end, s, left, c0, c, ResultState(zeros, s.globals))
  {
    hide Run, AllGood, MapGood, MapWords, Words, Zeros, B;
    AllKept(c0, c, s.globals);
    forall env: Env, fuel: nat | fuel > left && fuel > 0 && B(env, c0, s.active)
      ensures RunTerminator(fuel, m, body, end, FrameOf(env, c0, s)) == Some(DoneOf(env, c, ResultState(zeros, s.globals)))
    {
      assert Zeros(body.rets, |body.rets|) == Some(Words(env, c, zeros));
      assert Words(env, c, s.globals) == Words(env, c0, s.globals) && M(env, c) == M(env, c0);
    }
  }
}
