/**
 The control-free circuit IR the WASM importer emits: a list of statements over earlier
 results, with byte storage. `Run` is its evaluator.
 */
module VCircuit {
  import opened Numbers

  type Bits = seq<bool>

  type Var = nat

  /** A storage cell: which storage, and the address bits presented to it. */
  datatype Cell = Cell(storage: nat, address: Bits)

  type Memory = map<Cell, Bits>

  function Look(mem: Memory, cell: Cell): Bits {
    if cell in mem then mem[cell] else seq(8, i => false)
  }

  /** Writing the value a cell already holds leaves the memory as it is. */
  function Put(mem: Memory, cell: Cell, value: Bits): (r: Memory)
    ensures Look(r, cell) == value
    ensures forall other | other != cell :: Look(r, other) == Look(mem, other)
    ensures Look(mem, cell) == value ==> r == mem
  {
    if Look(mem, cell) == value then mem else mem[cell := value]
  }

  datatype Stmt =
    | Const(value: bool)
      // exclusive or of products of bits, plus a constant
    | Poly(terms: seq<seq<Var>>, constant: bool)
    | Mux(cond: Var, thenVar: Var, elseVar: Var)
    | Merge(parts: seq<Var>)
    | Extract(src: Var, index: nat)
    | StorageRead(storage: nat, address: Var)
    | StorageWrite(storage: nat, src: Var, address: Var)

  /** Variables number the parameters first, then the statements. */
  datatype Circuit = Circuit(params: nat, stmts: seq<Stmt>) {
    function Size(): nat {
      params + |stmts|
    }
  }

  datatype Env = Env(inputs: Bits, mem: Memory)

  datatype Machine = Machine(vals: seq<Bits>, mem: Memory)

  ghost function Lookup(vals: seq<Bits>, v: Var): Bits {
    if v < |vals| then vals[v] else []
  }

  ghost function Product(vals: seq<Bits>, vars: seq<Var>): bool {
    vars == [] || (BitAt(Lookup(vals, vars[0]), 0) && Product(vals, vars[1..]))
  }

  ghost function PolyBit(vals: seq<Bits>, terms: seq<seq<Var>>, constant: bool): bool {
    if terms == [] then constant else Product(vals, terms[0]) != PolyBit(vals, terms[1..], constant)
  }

  ghost function Concat(vals: seq<Bits>, parts: seq<Var>): Bits {
    if parts == [] then [] else Concat(vals, parts[..|parts| - 1]) + Lookup(vals, parts[|parts| - 1])
  }

  ghost function Step(m: Machine, s: Stmt): (r: Machine)
    ensures |r.vals| == |m.vals| + 1 && m.vals <= r.vals
  {
    match s
    case Const(value) => Machine(m.vals + [[value]], m.mem)
    case Poly(terms, constant) => Machine(m.vals + [[PolyBit(m.vals, terms, constant)]], m.mem)
    case Mux(cond, t, e) => Machine(m.vals + [Lookup(m.vals, if BitAt(Lookup(m.vals, cond), 0) then t else e)], m.mem)
    case Merge(parts) => Machine(m.vals + [Concat(m.vals, parts)], m.mem)
    case Extract(src, index) => Machine(m.vals + [[BitAt(Lookup(m.vals, src), index)]], m.mem)
    case StorageRead(storage, address) =>
      Machine(m.vals + [Look(m.mem, Cell(storage, Lookup(m.vals, address)))], m.mem)
    case StorageWrite(storage, src, address) =>
      Machine(m.vals + [[]], Put(m.mem, Cell(storage, Lookup(m.vals, address)), Lookup(m.vals, src)))
  }

  ghost function Run(env: Env, c: Circuit): (m: Machine)
    ensures |m.vals| == c.Size()
    decreases |c.stmts|
  {
    if c.stmts == [] then
      Machine(seq(c.params, i requires 0 <= i => [BitAt(env.inputs, i)]), env.mem)
    else
      Step(Run(env, c.(stmts := c.stmts[..|c.stmts| - 1])), c.stmts[|c.stmts| - 1])
  }

  /** The value of variable `v` in circuit `c`. */
  ghost function Val(env: Env, c: Circuit, v: Var): Bits {
    Lookup(Run(env, c).vals, v)
  }

  ghost function B(env: Env, c: Circuit, v: Var): bool {
    BitAt(Val(env, c, v), 0)
  }

  ghost function M(env: Env, c: Circuit): Memory {
    Run(env, c).mem
  }

  /** The bits a vector of variables carries. */
  ghost function Word(env: Env, c: Circuit, vars: seq<Var>): (w: Bits)
    ensures |w| == |vars|
  {
    seq(|vars|, i requires 0 <= i < |vars| => B(env, c, vars[i]))
  }

  /** The variable always holds exactly one bit. */
  predicate BitVar(c: Circuit, v: Var) {
    v < c.params || (v < c.Size() && (var s := c.stmts[v - c.params]; s.Const? || s.Poly? || s.Extract?))
  }

  predicate BitVars(c: Circuit, vars: seq<Var>) {
    forall i | 0 <= i < |vars| :: BitVar(c, vars[i])
  }

  ghost predicate Extends(c: Circuit, d: Circuit) {
    c.params == d.params && c.stmts <= d.stmts
  }

  /** `d` extends `c` and no variable of `c` changed its value. */
  ghost predicate Keeps(c: Circuit, d: Circuit) {
    && Extends(c, d)
    && forall env, v: Var {:trigger Val(env, d, v)} | v < c.Size() :: Val(env, d, v) == Val(env, c, v)
  }

  /** `d` extends `c` without touching storage. */
  ghost predicate Pure(c: Circuit, d: Circuit) {
    Keeps(c, d) && forall env {:trigger M(env, d)} :: M(env, d) == M(env, c)
  }

  lemma {:induction false} RunExtends(env: Env, c: Circuit, d: Circuit)
    requires Extends(c, d)
    ensures Run(env, c).vals <= Run(env, d).vals
    decreases |d.stmts|
  {
    if |c.stmts| < |d.stmts| {
      var shorter := d.(stmts := d.stmts[..|d.stmts| - 1]);
      RunExtends(env, c, shorter);
    } else {
      assert c == d;
    }
  }

  lemma ExtendsKeeps(c: Circuit, d: Circuit)
    requires Extends(c, d)
    ensures Keeps(c, d)
  {
    forall env, v: Var | v < c.Size() ensures Val(env, d, v) == Val(env, c, v) {
      RunExtends(env, c, d);
    }
  }

  /** One more statement: its effect is one evaluator step. */
  lemma Appended(c: Circuit, s: Stmt, d: Circuit)
    requires d == c.(stmts := c.stmts + [s])
    ensures Keeps(c, d) && d.Size() == c.Size() + 1
    ensures forall env {:trigger Run(env, d)} :: Run(env, d) == Step(Run(env, c), s)
    ensures !s.StorageWrite? ==> Pure(c, d)
  {
    ExtendsKeeps(c, d);
    assert d.(stmts := d.stmts[..|d.stmts| - 1]) == c;
  }

  lemma {:induction false} BitVarWidth(env: Env, c: Circuit, v: Var)
    requires BitVar(c, v)
    ensures Val(env, c, v) == [B(env, c, v)]
    decreases |c.stmts|
  {
    if c.stmts != [] {
      var shorter := c.(stmts := c.stmts[..|c.stmts| - 1]);
      if v < shorter.Size() {
        BitVarWidth(env, shorter, v);
      }
    }
  }

  lemma WordKept(c: Circuit, d: Circuit, vars: seq<Var>)
    requires Keeps(c, d) && BitVars(c, vars)
    ensures BitVars(d, vars)
    ensures forall env {:trigger Word(env, d, vars)} :: Word(env, d, vars) == Word(env, c, vars)
  {
    forall env ensures Word(env, d, vars) == Word(env, c, vars) {
      forall i | 0 <= i < |vars| ensures B(env, d, vars[i]) == B(env, c, vars[i]) {
        assert BitVar(c, vars[i]);
      }
    }
    forall i | 0 <= i < |vars| ensures BitVar(d, vars[i]) {
      assert BitVar(c, vars[i]);
    }
  }

  lemma WordConcat(env: Env, c: Circuit, a: seq<Var>, b: seq<Var>)
    ensures Word(env, c, a + b) == Word(env, c, a) + Word(env, c, b)
  {
  }

  /** Merging single bits packs exactly their word. */
  lemma {:induction false} ConcatIsWord(env: Env, c: Circuit, parts: seq<Var>)
    requires BitVars(c, parts)
    ensures Concat(Run(env, c).vals, parts) == Word(env, c, parts)
  {
    if parts != [] {
      var init, last := parts[..|parts| - 1], parts[|parts| - 1];
      assert parts == init + [last];
      ConcatIsWord(env, c, init);
      assert BitVar(c, parts[|parts| - 1]);
      BitVarWidth(env, c, last);
      assert Word(env, c, parts) == Word(env, c, init) + [B(env, c, last)];
    }
  }
}
