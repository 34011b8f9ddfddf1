/**
 Operations on whole values, component by component: one instruction for a scalar, a carry chain or
 a shift over the limbs of a packed integer, and the same again for every lane of a vector. What is
 recorded is well typed and computes the operation lane by lane.
 */
module WasmComponents {
  import opened Common
  import opened Numbers
  import opened WasmMachine
  import opened BlockProgram
  import opened WasmTyping
  import opened LirTypes

  // ---------------------------------------------------------------- what is recorded

  /** Packed integers are not multiplied, divided or shifted arithmetically. */
  predicate Supported(kind: BinKind, ty: LirTy) {
    match ty
    case Packed(_) => !kind.MulK? && !kind.UdivK? && !kind.SdivK? && !kind.AshrK?
    case Lanes(elem, n) => n == 0 || Supported(kind, elem)
    case _ => true
  }

  /** Scratch locals an operation takes. */
  function Temps(kind: BinKind, ty: LirTy): nat {
    match ty
    case Packed(_) => if kind.AddK? || kind.SubK? then 2 else 0
    case Lanes(elem, n) => n * Temps(kind, elem)
    case _ => 0
  }

  lemma LaneBounds(n: nat, w: nat)
    ensures (n + 1) * w == n * w + w
  {
  }

  function Offset(base: nat, k: nat, t: nat): nat {
    LaneBounds(k, t);
    base + k * t
  }

  /** The components of lane `k`. */
  function Lane<T>(xs: seq<T>, w: nat, k: nat): (r: seq<T>)
    requires (k + 1) * w <= |xs|
    ensures |r| == w
  {
    LaneBounds(k, w);
    xs[k * w..k * w + w]
  }

  function LimbOps(kind: BinKind, dests: seq<nat>, left: seq<nat>, right: seq<nat>, n: nat): seq<Op>
    requires n <= |dests| == |left| == |right|
  {
    if n == 0 then [] else LimbOps(kind, dests, left, right, n - 1) + [Binop(dests[n - 1], kind, left[n - 1], right[n - 1], true)]
  }

  /** The operations of one binary operation; its scratch locals start at `scratch`. */
  function ComponentOps(kind: BinKind, ty: LirTy, dests: seq<nat>, left: seq<nat>, right: seq<nat>, scratch: nat): seq<Op>
    requires |dests| == |left| == |right| == Locals(ty) && Supported(kind, ty)
    decreases ty, 0
  {
    match ty
    case Packed(_) =>
      if kind.AddK? || kind.SubK? then [WideAddSub(dests, left, right, kind.SubK?, scratch, scratch + 1)]
      else if kind.ShlK? || kind.LshrK? then [WideShift(dests, left, right, kind.ShlK?)]
      else LimbOps(kind, dests, left, right, |dests|)
    case Lanes(elem, n) => LaneOps(kind, elem, n, dests, left, right, scratch)
    case _ => [Binop(dests[0], kind, left[0], right[0], ty.Long?)]
  }

  /** The first `n` lanes. */
  function LaneOps(kind: BinKind, elem: LirTy, n: nat, dests: seq<nat>, left: seq<nat>, right: seq<nat>, scratch: nat): seq<Op>
    requires |dests| == |left| == |right| && n * Locals(elem) <= |dests| && (n == 0 || Supported(kind, elem))
    decreases elem, n + 1
  {
    if n == 0 then []
    else
      var w, k := Locals(elem), n - 1;
      LaneBounds(k, w);
      LaneOps(kind, elem, k, dests, left, right, scratch)
        + ComponentOps(kind, elem, Lane(dests, w, k), Lane(left, w, k), Lane(right, w, k), Offset(scratch, k, Temps(kind, elem)))
  }

  /** The complement, lane by lane and limb by limb. */
  function NotOps(ty: LirTy, dests: seq<nat>, vals: seq<nat>): seq<Op>
    requires |dests| == |vals| == Locals(ty)
    decreases ty, 0
  {
    match ty
    case Packed(_) => seq(|dests|, i requires 0 <= i < |dests| => Convert(dests[i], vals[i], Flip(true)))
    case Lanes(elem, n) => LaneNots(elem, n, dests, vals)
    case _ => [Convert(dests[0], vals[0], NotConv(ty))]
  }

  function LaneNots(elem: LirTy, n: nat, dests: seq<nat>, vals: seq<nat>): seq<Op>
    requires |dests| == |vals| && n * Locals(elem) <= |dests|
    decreases elem, n + 1
  {
    if n == 0 then []
    else
      var w, k := Locals(elem), n - 1;
      LaneBounds(k, w);
      LaneNots(elem, k, dests, vals) + NotOps(elem, Lane(dests, w, k), Lane(vals, w, k))
  }

  /** Limbs copied into the low places, zero above. */
  function PackOps(dests: seq<nat>, sources: seq<nat>): seq<Op>
    requires |sources| <= |dests|
  {
    CopyOps(dests[..|sources|], sources) + if |sources| < |dests| then [Zero(dests[|sources|..], true)] else []
  }

  function CopyOps(dests: seq<nat>, sources: seq<nat>): (r: seq<Op>)
    requires |dests| == |sources|
    ensures |r| == |dests|
  {
    seq(|dests|, i requires 0 <= i < |dests| => Copy(dests[i], sources[i]))
  }

  // ---------------------------------------------------------------- operands

  /** Destinations apart from the operands and from scratch, all in range. */
  ghost predicate Ready(dests: seq<nat>, sources: seq<nat>, n: nat, scratch: set<nat>) {
    && InRange(dests, n) && InRange(sources, n) && Unique(dests) && Apart(dests, sources)
    && Avoids(dests, scratch) && Avoids(sources, scratch)
  }

  lemma ReadyLane(dests: seq<nat>, sources: seq<nat>, n: nat, scratch: set<nat>, w: nat, k: nat)
    requires Ready(dests, sources, n, scratch) && (k + 1) * w <= |dests| == |sources|
    ensures Ready(Lane(dests, w, k), Lane(sources, w, k), n, scratch)
  {
    LaneBounds(k, w);
    var d, s := Lane(dests, w, k), Lane(sources, w, k);
    assert forall i | 0 <= i < w :: d[i] == dests[k * w + i] && s[i] == sources[k * w + i];
    forall i | 0 <= i < w ensures d[i] !in s {
      assert dests[k * w + i] !in sources;
    }
  }

  // ---------------------------------------------------------------- typing

  lemma {:induction false} CopiesAt(ws: seq<bool>, n: nat, k: nat)
    requires k < n
    ensures (k + 1) * |ws| <= n * |ws| && Lane(Copies(ws, n), |ws|, k) == ws
    decreases n
  {
    var w := |ws|;
    LaneBounds(k, w);
    LaneBounds(n - 1, w);
    var rest := Copies(ws, n - 1);
    if k == n - 1 {
      assert Copies(ws, n)[k * w..k * w + w] == ws;
    } else {
      CopiesAt(ws, n - 1, k);
      assert Copies(ws, n)[k * w..k * w + w] == rest[k * w..k * w + w];
    }
  }

  lemma LaneTypes(types: seq<bool>, xs: seq<nat>, ws: seq<bool>, n: nat, k: nat)
    requires AllHave(types, xs, Copies(ws, n)) && k < n
    ensures (k + 1) * |ws| <= |xs| && AllHave(types, Lane(xs, |ws|, k), ws)
  {
    var w := |ws|;
    CopiesAt(ws, n, k);
    LaneBounds(k, w);
    forall i | 0 <= i < w ensures Has(types, Lane(xs, w, k)[i], ws[i]) {
      assert Lane(Copies(ws, n), w, k)[i] == Copies(ws, n)[k * w + i];
      assert Has(types, xs[k * w + i], Copies(ws, n)[k * w + i]);
    }
  }

  lemma LocalsAreWords(ty: LirTy)
    ensures Locals(ty) == |Words(ty)|
  {
  }

  lemma HaveCount(types: seq<bool>, xs: seq<nat>, words: seq<bool>)
    requires AllHave(types, xs, words)
    ensures |xs| == |words|
  {
  }

  // ---------------------------------------------------------------- meaning

  function LimbWord(kind: BinKind, x: nat, y: nat): int {
    var r := Arith(kind, true, x, y);
    if r.Some? then r.value else 0
  }

  /** One integer in limbs: sums modulo its width, shifts as coded, bitwise operations limb by limb. */
  function PackedValue(kind: BinKind, xs: seq<Val>, ys: seq<Val>, was: seq<Val>): (r: seq<Val>)
    requires |xs| == |ys| == |was|
    ensures |r| == |xs|
  {
    if kind.AddK? then ToLimbs((WideNumber(xs) + WideNumber(ys)) % Pow2(64 * |xs|), |xs|)
    else if kind.SubK? then ToLimbs((WideNumber(xs) - WideNumber(ys)) % Pow2(64 * |xs|), |xs|)
    else if kind.ShlK? || kind.LshrK? then (if CountInRange(ys, |xs|) then ShiftedLimbs(xs, Raw(ys[0]), kind.ShlK?) else was)
    else LimbValues(kind, xs, ys)
  }

  function LimbValues(kind: BinKind, xs: seq<Val>, ys: seq<Val>): (r: seq<Val>)
    requires |xs| == |ys|
    ensures |r| == |xs|
  {
    seq(|xs|, i requires 0 <= i < |xs| => Wrapped(LimbWord(kind, Raw(xs[i]), Raw(ys[i])), true))
  }

  /** The components of the result; none where the operation traps. `was` is what the destinations held. */
  function BinaryValue(kind: BinKind, ty: LirTy, xs: seq<Val>, ys: seq<Val>, was: seq<Val>): (r: Option<seq<Val>>)
    requires |xs| == |ys| == |was| == Locals(ty)
    ensures r.Some? ==> |r.value| == |xs|
    decreases ty, 0
  {
    match ty
    case Packed(_) => Some(PackedValue(kind, xs, ys, was))
    case Lanes(elem, n) => LaneValues(kind, elem, n, xs, ys, was)
    case _ =>
      var r := Arith(kind, ty.Long?, Raw(xs[0]), Raw(ys[0]));
      if r.None? then None else Some([Wrapped(r.value, ty.Long?)])
  }

  /** The first `n` lanes, each on its own. */
  function LaneValues(kind: BinKind, elem: LirTy, n: nat, xs: seq<Val>, ys: seq<Val>, was: seq<Val>): (r: Option<seq<Val>>)
    requires |xs| == |ys| == |was| && n * Locals(elem) <= |xs|
    ensures r.Some? ==> |r.value| == n * Locals(elem)
    decreases elem, n + 1
  {
    if n == 0 then Some([])
    else
      var w, k := Locals(elem), n - 1;
      LaneBounds(k, w);
      var before := LaneValues(kind, elem, k, xs, ys, was);
      if before.None? then None
      else
        var lane := BinaryValue(kind, elem, Lane(xs, w, k), Lane(ys, w, k), Lane(was, w, k));
        if lane.None? then None else Some(before.value + lane.value)
  }

  /** Values stored in some locals, then values in others. */
  lemma AssignBoth(locals: seq<Val>, a: seq<nat>, u: seq<Val>, b: seq<nat>, v: seq<Val>)
    requires |a| == |u| && |b| == |v| && InRange(a + b, |locals|) && Unique(a + b)
    ensures InRange(a, |locals|) && InRange(b, |locals|)
    ensures Assign(Assign(locals, a, u), b, v) == Assign(locals, a + b, u + v)
  {
    hide Assign;
    var all := a + b;
    assert forall i | 0 <= i < |a| :: a[i] == all[i];
    assert forall i | 0 <= i < |b| :: b[i] == all[|a| + i];
    AssignSimultaneous(locals, a, u);
    AssignSimultaneous(Assign(locals, a, u), b, v);
    AssignSimultaneous(locals, all, u + v);
    var left, right := Assign(Assign(locals, a, u), b, v), Assign(locals, all, u + v);
    forall x: nat | x < |locals| ensures left[x] == right[x] {
      if x in b {
        var i :| 0 <= i < |b| && b[i] == x;
        assert all[|a| + i] == x && (u + v)[|a| + i] == v[i];
      } else if x in a {
        var i :| 0 <= i < |a| && a[i] == x;
        assert all[i] == x && (u + v)[i] == u[i];
      }
    }
  }

  lemma {:induction false} RunOpsPrefix(host: Host, a: seq<Op>, b: seq<Op>, n: nat, locals: seq<Val>, log: Log)
    requires n <= |a|
    ensures RunOps(host, a + b, n, locals, log) == RunOps(host, a, n, locals, log)
    decreases n
  {
    hide RunOp;
    if n > 0 {
      RunOpsPrefix(host, a, b, n - 1, locals, log);
      assert (a + b)[n - 1] == a[n - 1];
    }
  }

  lemma {:induction false} RunOpsConcat(host: Host, a: seq<Op>, b: seq<Op>, n: nat, locals: seq<Val>, log: Log)
    requires n <= |b|
    ensures RunOps(host, a + b, |a| + n, locals, log)
      == var first := RunOps(host, a, |a|, locals, log); if first.Ran? then RunOps(host, b, n, first.locals, first.log) else first
    decreases n
  {
    hide RunOp;
    if n == 0 {
      RunOpsPrefix(host, a, b, |a|, locals, log);
    } else {
      RunOpsConcat(host, a, b, n - 1, locals, log);
      assert (a + b)[|a| + n - 1] == b[n - 1];
    }
  }

  /** Operands and destinations of one value operation, with the values of its operands. */
  ghost predicate Operands(dests: seq<nat>, left: seq<nat>, right: seq<nat>, words: seq<bool>, locals: seq<Val>) {
    && |dests| == |left| == |right| == |words|
    && InRange(dests, |locals|) && InRange(left, |locals|) && InRange(right, |locals|)
    && Unique(dests) && Apart(dests, left) && Apart(dests, right)
    && ValsTyped(Reads(locals, left), words) && ValsTyped(Reads(locals, right), words)
  }

  ghost function AfterValue(v: Option<seq<Val>>, dests: seq<nat>, locals: seq<Val>, log: Log): Ran
    requires InRange(dests, |locals|) && (v.Some? ==> |v.value| == |dests|)
  {
    if v.None? then RanTrap(log) else Ran(Assign(locals, dests, v.value), log)
  }

  lemma RunSingleOp(host: Host, op: Op, locals: seq<Val>, log: Log)
    ensures RunOps(host, [op], 1, locals, log) == RunOp(host, op, locals, log)
  {
    hide RunOp;
    assert RunOps(host, [op], 0, locals, log) == Ran(locals, log);
  }

  lemma ScalarMeans(host: Host, kind: BinKind, ty: LirTy, dests: seq<nat>, left: seq<nat>, right: seq<nat>, locals: seq<Val>, log: Log)
    requires Scalar(ty) && Operands(dests, left, right, Words(ty), locals)
    ensures RunOps(host, [Binop(dests[0], kind, left[0], right[0], ty.Long?)], 1, locals, log)
      == AfterValue(BinaryValue(kind, ty, Reads(locals, left), Reads(locals, right), Reads(locals, dests)), dests, locals, log)
  {
    hide Arith, Wrapped, Assign;
    var op := Binop(dests[0], kind, left[0], right[0], ty.Long?);
    RunSingleOp(host, op, locals, log);
    var xs, ys := Reads(locals, left), Reads(locals, right);
    assert Typed(xs[0], ty.Long?) && Typed(ys[0], ty.Long?) && Dests(op) == dests;
    assert xs[0] == locals[left[0]] && ys[0] == locals[right[0]];
  }

  lemma PackedMeans(host: Host, kind: BinKind, dests: seq<nat>, left: seq<nat>, right: seq<nat>, scratch: nat, locals: seq<Val>, log: Log)
    requires dests != [] && Operands(dests, left, right, Repeat(true, |dests|), locals)
    requires kind.AddK? || kind.SubK? || kind.ShlK? || kind.LshrK?
    ensures
      var op := if kind.AddK? || kind.SubK? then WideAddSub(dests, left, right, kind.SubK?, scratch, scratch + 1)
                else WideShift(dests, left, right, kind.ShlK?);
      RunOps(host, [op], 1, locals, log)
        == AfterValue(Some(PackedValue(kind, Reads(locals, left), Reads(locals, right), Reads(locals, dests))), dests, locals, log)
  {
    hide WideNumber, ToLimbs, Pow2, ShiftedLimbs, CountInRange, Assign;
    var op := if kind.AddK? || kind.SubK? then WideAddSub(dests, left, right, kind.SubK?, scratch, scratch + 1)
    else WideShift(dests, left, right, kind.ShlK?);
    RunSingleOp(host, op, locals, log);
    assert Dests(op) == dests && Sources(op) == left + right;
    var xs, ys := Reads(locals, left), Reads(locals, right);
    assert forall i | 0 <= i < |xs| :: Typed(xs[i], Repeat(true, |dests|)[i]);
    assert forall i | 0 <= i < |ys| :: Typed(ys[i], Repeat(true, |dests|)[i]);
    assert AllTyped(xs, true) && AllTyped(ys, true);
  }

  lemma {:induction false} LimbsMean(host: Host, kind: BinKind, dests: seq<nat>, left: seq<nat>, right: seq<nat>, n: nat, locals: seq<Val>, log: Log)
    requires n <= |dests| && Operands(dests, left, right, Repeat(true, |dests|), locals) && (kind.AndK? || kind.OrK? || kind.XorK?)
    ensures InRange(dests[..n], |locals|)
    ensures RunOps(host, LimbOps(kind, dests, left, right, n), |LimbOps(kind, dests, left, right, n)|, locals, log)
      == Ran(Assign(locals, dests[..n], LimbValues(kind, Reads(locals, left), Reads(locals, right))[..n]), log)
    decreases n
  {
    hide RunOps, RunOp, LimbValues, Operands, Assign;
    OperandsCount(dests, left, right, Repeat(true, |dests|), locals);
    var xs, ys := Reads(locals, left), Reads(locals, right);
    var vals := LimbValues(kind, xs, ys);
    if n == 0 {
      NoneAssigned(locals);
      NoOps(host, locals, log);
    } else {
      var k := n - 1;
      LimbsMean(host, kind, dests, left, right, k, locals, log);
      var before := Assign(locals, dests[..k], vals[..k]);
      var op := Binop(dests[k], kind, left[k], right[k], true);
      RunOpsConcat(host, LimbOps(kind, dests, left, right, k), [op], 1, locals, log);
      RunSingleOp(host, op, before, log);
      LimbStep(host, kind, dests, left, right, k, locals, log);
    }
  }

  lemma LimbStep(host: Host, kind: BinKind, dests: seq<nat>, left: seq<nat>, right: seq<nat>, k: nat, locals: seq<Val>, log: Log)
    requires k < |dests| && Operands(dests, left, right, Repeat(true, |dests|), locals) && (kind.AndK? || kind.OrK? || kind.XorK?)
    ensures InRange(dests[..k], |locals|) && InRange(dests[..k + 1], |locals|)
    ensures var vals := LimbValues(kind, Reads(locals, left), Reads(locals, right));
      RunOp(host, Binop(dests[k], kind, left[k], right[k], true), Assign(locals, dests[..k], vals[..k]), log)
        == Ran(Assign(locals, dests[..k + 1], vals[..k + 1]), log)
  {
    hide *;
    OperandsCount(dests, left, right, Repeat(true, |dests|), locals);
    UniqueOperands(dests, left, right, Repeat(true, |dests|), locals);
    var xs, ys := Reads(locals, left), Reads(locals, right);
    var vals := LimbValues(kind, xs, ys);
    PrefixUnique(dests, k + 1);
    OperandsKept(locals, dests, left, right, vals, k);
    OperandsKept(locals, dests, left, right, vals, k + 1);
    LimbIndices(dests, left, right, locals, k);
    var before := Assign(locals, dests[..k], vals[..k]);
    LimbReads(locals, before, left, right, k);
    LimbRun(host, kind, dests[k], left[k], right[k], before, log);
    LimbValueAt(kind, xs, ys, k);
    assert dests[..k + 1] == dests[..k] + [dests[k]] && vals[..k + 1] == vals[..k] + [vals[k]];
    AssignBoth(locals, dests[..k], vals[..k], [dests[k]], [vals[k]]);
  }

  lemma LimbIndices(dests: seq<nat>, left: seq<nat>, right: seq<nat>, locals: seq<Val>, k: nat)
    requires k < |dests| && Operands(dests, left, right, Repeat(true, |dests|), locals)
    ensures dests[k] < |locals| && left[k] < |locals| && right[k] < |locals|
    ensures Typed(Reads(locals, left)[k], true) && Typed(Reads(locals, right)[k], true)
  {
    assert Typed(Reads(locals, left)[k], Repeat(true, |dests|)[k]) && Typed(Reads(locals, right)[k], Repeat(true, |dests|)[k]);
  }

  lemma LimbValueAt(kind: BinKind, xs: seq<Val>, ys: seq<Val>, k: nat)
    requires k < |xs| == |ys|
    ensures LimbValues(kind, xs, ys)[k] == Wrapped(LimbWord(kind, Raw(xs[k]), Raw(ys[k])), true)
  {
  }

  lemma LimbRun(host: Host, kind: BinKind, dest: nat, lhs: nat, rhs: nat, locals: seq<Val>, log: Log)
    requires (kind.AndK? || kind.OrK? || kind.XorK?) && dest < |locals| && lhs < |locals| && rhs < |locals|
    requires Typed(locals[lhs], true) && Typed(locals[rhs], true)
    ensures RunOp(host, Binop(dest, kind, lhs, rhs, true), locals, log)
      == Ran(Assign(locals, [dest], [Wrapped(LimbWord(kind, Raw(locals[lhs]), Raw(locals[rhs])), true)]), log)
  {
    hide Arith, Wrapped, Assign;
    BitwiseNeverTraps(kind, Raw(locals[lhs]), Raw(locals[rhs]));
  }

  lemma NoneAssigned(locals: seq<Val>)
    ensures Assign(locals, [], []) == locals
  {
  }

  lemma BitwiseNeverTraps(kind: BinKind, x: nat, y: nat)
    requires kind.AndK? || kind.OrK? || kind.XorK?
    ensures Arith(kind, true, x, y) == Some(LimbWord(kind, x, y))
  {
  }

  lemma LimbReads(locals: seq<Val>, after: seq<Val>, left: seq<nat>, right: seq<nat>, k: nat)
    requires |after| == |locals| && InRange(left, |locals|) && InRange(right, |locals|) && k < |left| == |right|
    requires Reads(after, left) == Reads(locals, left) && Reads(after, right) == Reads(locals, right)
    ensures after[left[k]] == Reads(locals, left)[k] && after[right[k]] == Reads(locals, right)[k]
  {
    assert Reads(after, left)[k] == after[left[k]] && Reads(after, right)[k] == after[right[k]];
  }

  lemma PrefixUnique(dests: seq<nat>, k: nat)
    requires Unique(dests) && k <= |dests|
    ensures Unique(dests[..k])
  {
  }

  /** Stores to destinations leave the operands alone. */
  lemma OperandsKept(locals: seq<Val>, dests: seq<nat>, left: seq<nat>, right: seq<nat>, vals: seq<Val>, k: nat)
    requires k <= |dests| == |vals| && InRange(dests, |locals|) && InRange(left, |locals|) && InRange(right, |locals|)
    requires Unique(dests) && Apart(dests, left) && Apart(dests, right)
    ensures InRange(dests[..k], |locals|)
    ensures Reads(Assign(locals, dests[..k], vals[..k]), left) == Reads(locals, left)
    ensures Reads(Assign(locals, dests[..k], vals[..k]), right) == Reads(locals, right)
  {
    hide Assign;
    PrefixUnique(dests, k);
    assert InRange(dests[..k], |locals|);
    AssignSimultaneous(locals, dests[..k], vals[..k]);
    assert forall i | 0 <= i < |left| :: left[i] !in dests[..k];
    assert forall i | 0 <= i < |right| :: right[i] !in dests[..k];
  }

  // ---------------------------------------------------------------- lane by lane

  lemma ReadsLane(locals: seq<Val>, xs: seq<nat>, w: nat, k: nat)
    requires InRange(xs, |locals|) && (k + 1) * w <= |xs|
    ensures InRange(Lane(xs, w, k), |locals|) && Reads(locals, Lane(xs, w, k)) == Lane(Reads(locals, xs), w, k)
  {
    LaneBounds(k, w);
    assert forall i | 0 <= i < w :: Lane(xs, w, k)[i] == xs[k * w + i];
  }

  lemma TypedLane(vals: seq<Val>, ws: seq<bool>, n: nat, k: nat)
    requires ValsTyped(vals, Copies(ws, n)) && k < n
    ensures (k + 1) * |ws| <= |vals| && ValsTyped(Lane(vals, |ws|, k), ws)
  {
    var w := |ws|;
    CopiesAt(ws, n, k);
    LaneBounds(k, w);
    forall i | 0 <= i < w ensures Typed(Lane(vals, w, k)[i], ws[i]) {
      assert Lane(Copies(ws, n), w, k)[i] == Copies(ws, n)[k * w + i];
      assert Typed(vals[k * w + i], Copies(ws, n)[k * w + i]);
    }
  }

  lemma OperandsLane(dests: seq<nat>, left: seq<nat>, right: seq<nat>, ws: seq<bool>, n: nat, k: nat, locals: seq<Val>)
    requires Operands(dests, left, right, Copies(ws, n), locals) && k < n
    ensures (k + 1) * |ws| <= |dests| == |left| == |right|
    ensures Operands(Lane(dests, |ws|, k), Lane(left, |ws|, k), Lane(right, |ws|, k), ws, locals)
  {
    hide ValsTyped;
    var w := |ws|;
    TypedCount(Reads(locals, left), Copies(ws, n));
    TypedLane(Reads(locals, left), ws, n, k);
    TypedLane(Reads(locals, right), ws, n, k);
    ReadsLane(locals, dests, w, k);
    ReadsLane(locals, left, w, k);
    ReadsLane(locals, right, w, k);
    LaneApart(dests, left, w, k);
    LaneApart(dests, right, w, k);
  }

  lemma TypedCount(vals: seq<Val>, words: seq<bool>)
    requires ValsTyped(vals, words)
    ensures |vals| == |words|
  {
  }

  lemma LaneApart(dests: seq<nat>, xs: seq<nat>, w: nat, k: nat)
    requires (k + 1) * w <= |dests| == |xs| && Unique(dests) && Apart(dests, xs)
    ensures Unique(Lane(dests, w, k)) && Apart(Lane(dests, w, k), Lane(xs, w, k))
  {
    LaneBounds(k, w);
    var d, s := Lane(dests, w, k), Lane(xs, w, k);
    assert forall i | 0 <= i < w :: d[i] == dests[k * w + i] && s[i] == xs[k * w + i];
    forall i | 0 <= i < w ensures d[i] !in s {
      assert dests[k * w + i] !in xs;
    }
  }

  /** The operations recorded for a value compute it, component by component, or trap where it does. */
  lemma {:induction false} ComponentsMean(host: Host, kind: BinKind, ty: LirTy, dests: seq<nat>, left: seq<nat>, right: seq<nat>, scratch: nat,
                                          locals: seq<Val>, log: Log)
    requires Supported(kind, ty) && Operands(dests, left, right, Words(ty), locals)
    ensures
      var ops := ComponentOps(kind, ty, dests, left, right, scratch);
      RunOps(host, ops, |ops|, locals, log)
        == AfterValue(BinaryValue(kind, ty, Reads(locals, left), Reads(locals, right), Reads(locals, dests)), dests, locals, log)
    decreases ty, 0
  {
    hide RunOps, Assign, PackedValue, Operands;
    OperandsCount(dests, left, right, Words(ty), locals);
    var xs, ys, was := Reads(locals, left), Reads(locals, right), Reads(locals, dests);
    match ty
    case Packed(_) =>
      if kind.AddK? || kind.SubK? || kind.ShlK? || kind.LshrK? {
        PackedMeans(host, kind, dests, left, right, scratch, locals, log);
      } else {
        LimbsMean(host, kind, dests, left, right, |dests|, locals, log);
        assert dests[..|dests|] == dests && LimbValues(kind, xs, ys)[..|dests|] == LimbValues(kind, xs, ys);
        PackedBitwise(kind, xs, ys, was);
      }
    case Lanes(elem, n) =>
      LanesMean(host, kind, elem, n, n, dests, left, right, scratch, locals, log);
      CopiesCount(Words(elem), n);
      assert dests[..n * Locals(elem)] == dests;
    case _ => ScalarMeans(host, kind, ty, dests, left, right, locals, log);
  }

  lemma PackedBitwise(kind: BinKind, xs: seq<Val>, ys: seq<Val>, was: seq<Val>)
    requires |xs| == |ys| == |was| && (kind.AndK? || kind.OrK? || kind.XorK?)
    ensures PackedValue(kind, xs, ys, was) == LimbValues(kind, xs, ys)
  {
  }

  lemma CopiesCount(ws: seq<bool>, n: nat)
    ensures |Copies(ws, n)| == n * |ws|
  {
  }

  lemma OperandsCount(dests: seq<nat>, left: seq<nat>, right: seq<nat>, words: seq<bool>, locals: seq<Val>)
    requires Operands(dests, left, right, words, locals)
    ensures |dests| == |left| == |right| == |words|
    ensures InRange(dests, |locals|) && InRange(left, |locals|) && InRange(right, |locals|)
  {
  }

  lemma {:induction false} LanesMean(host: Host, kind: BinKind, elem: LirTy, n: nat, k: nat, dests: seq<nat>, left: seq<nat>, right: seq<nat>,
                                     scratch: nat, locals: seq<Val>, log: Log)
    requires k <= n && (n == 0 || Supported(kind, elem)) && Operands(dests, left, right, Copies(Words(elem), n), locals)
    ensures |dests| == |left| == |right| == n * Locals(elem) && k * Locals(elem) <= |dests|
    ensures InRange(dests, |locals|) && InRange(left, |locals|) && InRange(right, |locals|) && InRange(dests[..k * Locals(elem)], |locals|)
    ensures
      var ops := LaneOps(kind, elem, k, dests, left, right, scratch);
      RunOps(host, ops, |ops|, locals, log)
        == AfterValue(LaneValues(kind, elem, k, Reads(locals, left), Reads(locals, right), Reads(locals, dests)), dests[..k * Locals(elem)], locals, log)
    decreases elem, k + 1
  {
    hide RunOps, Assign, Operands, Words, BinaryValue;
    OperandsCount(dests, left, right, Copies(Words(elem), n), locals);
    CopiesCount(Words(elem), n);
    LocalsAreWords(elem);
    MulMonotone(k, n, Locals(elem));
    if k == 0 {
      NoneAssigned(locals);
      NoOps(host, locals, log);
      assert dests[..0] == [];
    } else {
      LaneBounds(k - 1, Locals(elem));
      LanesMean(host, kind, elem, n, k - 1, dests, left, right, scratch, locals, log);
      LaneMeans(host, kind, elem, n, k - 1, dests, left, right, scratch, locals, log);
    }
  }

  lemma NoOps(host: Host, locals: seq<Val>, log: Log)
    ensures RunOps(host, [], 0, locals, log) == Ran(locals, log)
  {
  }

  /** One more lane. */
  lemma LaneMeans(host: Host, kind: BinKind, elem: LirTy, n: nat, k: nat, dests: seq<nat>, left: seq<nat>, right: seq<nat>,
                  scratch: nat, locals: seq<Val>, log: Log)
    requires k < n && Supported(kind, elem) && Operands(dests, left, right, Copies(Words(elem), n), locals)
    requires |dests| == |left| == |right| == n * Locals(elem) && (k + 1) * Locals(elem) <= |dests| && k * Locals(elem) <= |dests|
    requires InRange(dests, |locals|) && InRange(left, |locals|) && InRange(right, |locals|) && InRange(dests[..k * Locals(elem)], |locals|)
    requires
      var ops := LaneOps(kind, elem, k, dests, left, right, scratch);
      RunOps(host, ops, |ops|, locals, log)
        == AfterValue(LaneValues(kind, elem, k, Reads(locals, left), Reads(locals, right), Reads(locals, dests)), dests[..k * Locals(elem)], locals, log)
    ensures InRange(dests[..(k + 1) * Locals(elem)], |locals|)
    ensures
      var ops := LaneOps(kind, elem, k + 1, dests, left, right, scratch);
      RunOps(host, ops, |ops|, locals, log)
        == AfterValue(LaneValues(kind, elem, k + 1, Reads(locals, left), Reads(locals, right), Reads(locals, dests)),
          dests[..(k + 1) * Locals(elem)], locals, log)
    decreases elem, 1
  {
    hide *;
    var w := Locals(elem);
    LaneBounds(k, w);
    LocalsAreWords(elem);
    var xs, ys, was := Reads(locals, left), Reads(locals, right), Reads(locals, dests);
    var d, l, r := Lane(dests, w, k), Lane(left, w, k), Lane(right, w, k);
    var first, second := LaneOps(kind, elem, k, dests, left, right, scratch), ComponentOps(kind, elem, d, l, r, Offset(scratch, k, Temps(kind, elem)));
    RunOpsConcat(host, first, second, |second|, locals, log);
    UniqueOperands(dests, left, right, Copies(Words(elem), n), locals);
    PrefixUnique(dests, (k + 1) * w);
    PrefixInRange(dests, (k + 1) * w, |locals|);
    LanePrefix(dests, w, k);
    LaneOpsStep(kind, elem, k, dests, left, right, scratch);
    LaneValuesStep(kind, elem, k, xs, ys, was);
    var before := LaneValues(kind, elem, k, xs, ys, was);
    AfterValueIs(before, dests[..k * w], locals, log);
    AfterValueIs(LaneValues(kind, elem, k + 1, xs, ys, was), dests[..(k + 1) * w], locals, log);
    if before.Some? {
      var now := Assign(locals, dests[..k * w], before.value);
      StillOperands(dests, left, right, Words(elem), n, k, locals, before.value);
      ComponentsMean(host, kind, elem, d, l, r, Offset(scratch, k, Temps(kind, elem)), now, log);
      var lane := BinaryValue(kind, elem, Lane(xs, w, k), Lane(ys, w, k), Lane(was, w, k));
      ReadsLane(locals, dests, w, k);
      AfterValueIs(lane, d, now, log);
      if lane.Some? {
        AssignBoth(locals, dests[..k * w], before.value, d, lane.value);
      }
    }
  }

  lemma AfterValueIs(v: Option<seq<Val>>, dests: seq<nat>, locals: seq<Val>, log: Log)
    requires InRange(dests, |locals|) && (v.Some? ==> |v.value| == |dests|)
    ensures AfterValue(v, dests, locals, log) == if v.None? then RanTrap(log) else Ran(Assign(locals, dests, v.value), log)
  {
  }

  lemma PrefixInRange(xs: seq<nat>, k: nat, n: nat)
    requires InRange(xs, n) && k <= |xs|
    ensures InRange(xs[..k], n)
  {
  }

  lemma LanePrefix(xs: seq<nat>, w: nat, k: nat)
    requires (k + 1) * w <= |xs|
    ensures k * w <= (k + 1) * w && xs[..(k + 1) * w] == xs[..k * w] + Lane(xs, w, k)
  {
    LaneBounds(k, w);
  }

  lemma LaneOpsStep(kind: BinKind, elem: LirTy, k: nat, dests: seq<nat>, left: seq<nat>, right: seq<nat>, scratch: nat)
    requires |dests| == |left| == |right| && (k + 1) * Locals(elem) <= |dests| && k * Locals(elem) <= |dests| && Supported(kind, elem)
    ensures
      var w := Locals(elem);
      LaneOps(kind, elem, k + 1, dests, left, right, scratch) == LaneOps(kind, elem, k, dests, left, right, scratch)
        + ComponentOps(kind, elem, Lane(dests, w, k), Lane(left, w, k), Lane(right, w, k), Offset(scratch, k, Temps(kind, elem)))
  {
    hide ComponentOps, Locals, Temps, Lane;
  }

  lemma LaneValuesStep(kind: BinKind, elem: LirTy, k: nat, xs: seq<Val>, ys: seq<Val>, was: seq<Val>)
    requires |xs| == |ys| == |was| && (k + 1) * Locals(elem) <= |xs| && k * Locals(elem) <= |xs|
    ensures
      var w := Locals(elem);
      var before := LaneValues(kind, elem, k, xs, ys, was);
      LaneValues(kind, elem, k + 1, xs, ys, was)
        == if before.None? then None
           else
             var lane := BinaryValue(kind, elem, Lane(xs, w, k), Lane(ys, w, k), Lane(was, w, k));
             if lane.None? then None else Some(before.value + lane.value)
  {
    hide BinaryValue, Locals, Lane;
  }

  lemma UniqueOperands(dests: seq<nat>, left: seq<nat>, right: seq<nat>, words: seq<bool>, locals: seq<Val>)
    requires Operands(dests, left, right, words, locals)
    ensures Unique(dests) && Apart(dests, left) && Apart(dests, right)
  {
  }

  /** After the lanes before it, a lane's operands and destinations are as they were. */
  lemma StillOperands(dests: seq<nat>, left: seq<nat>, right: seq<nat>, ws: seq<bool>, n: nat, k: nat, locals: seq<Val>, vals: seq<Val>)
    requires k < n && Operands(dests, left, right, Copies(ws, n), locals) && |vals| == k * |ws| && k * |ws| <= |dests|
    requires (k + 1) * |ws| <= |dests| == |left| == |right| && InRange(dests[..k * |ws|], |locals|)
    ensures
      var now := Assign(locals, dests[..k * |ws|], vals);
      Operands(Lane(dests, |ws|, k), Lane(left, |ws|, k), Lane(right, |ws|, k), ws, now)
      && Reads(now, Lane(dests, |ws|, k)) == Lane(Reads(locals, dests), |ws|, k)
      && Reads(now, Lane(left, |ws|, k)) == Lane(Reads(locals, left), |ws|, k)
      && Reads(now, Lane(right, |ws|, k)) == Lane(Reads(locals, right), |ws|, k)
  {
    hide Assign, ValsTyped, Operands;
    var w := |ws|;
    var now := Assign(locals, dests[..k * w], vals);
    LaneBounds(k, w);
    OperandsCount(dests, left, right, Copies(ws, n), locals);
    UniqueOperands(dests, left, right, Copies(ws, n), locals);
    OperandsLane(dests, left, right, ws, n, k, locals);
    PrefixUnique(dests, k * w);
    AssignSimultaneous(locals, dests[..k * w], vals);
    ReadsLane(locals, dests, w, k);
    ReadsLane(locals, left, w, k);
    ReadsLane(locals, right, w, k);
    Elsewhere(locals, now, dests, left, w, k);
    Elsewhere(locals, now, dests, right, w, k);
    OwnLane(locals, now, dests, w, k);
    MovedOperands(Lane(dests, w, k), Lane(left, w, k), Lane(right, w, k), ws, locals, now);
  }

  lemma Elsewhere(locals: seq<Val>, now: seq<Val>, dests: seq<nat>, xs: seq<nat>, w: nat, k: nat)
    requires |now| == |locals| && (k + 1) * w <= |dests| == |xs| && InRange(xs, |locals|) && Apart(dests, xs) && k * w <= |dests|
    requires forall x | 0 <= x < |locals| && x !in dests[..k * w] :: now[x] == locals[x]
    ensures InRange(Lane(xs, w, k), |locals|) && Reads(now, Lane(xs, w, k)) == Reads(locals, Lane(xs, w, k))
  {
    LaneBounds(k, w);
    var l := Lane(xs, w, k);
    assert forall i | 0 <= i < w :: l[i] == xs[k * w + i];
    assert forall i | 0 <= i < w :: l[i] !in dests[..k * w];
  }

  lemma OwnLane(locals: seq<Val>, now: seq<Val>, dests: seq<nat>, w: nat, k: nat)
    requires |now| == |locals| && (k + 1) * w <= |dests| && InRange(dests, |locals|) && Unique(dests) && k * w <= |dests|
    requires forall x | 0 <= x < |locals| && x !in dests[..k * w] :: now[x] == locals[x]
    ensures InRange(Lane(dests, w, k), |locals|) && Reads(now, Lane(dests, w, k)) == Reads(locals, Lane(dests, w, k))
  {
    LaneBounds(k, w);
    var d := Lane(dests, w, k);
    assert forall i | 0 <= i < w :: d[i] == dests[k * w + i];
    assert forall i | 0 <= i < w :: d[i] !in dests[..k * w];
  }

  lemma MovedOperands(dests: seq<nat>, left: seq<nat>, right: seq<nat>, words: seq<bool>, locals: seq<Val>, now: seq<Val>)
    requires Operands(dests, left, right, words, locals) && |now| == |locals|
    requires Reads(now, left) == Reads(locals, left) && Reads(now, right) == Reads(locals, right)
    ensures Operands(dests, left, right, words, now)
  {
  }

  // ---------------------------------------------------------------- packed integers as numbers

  /** The limbs of a number stand for it. */
  lemma {:induction false} WideOfLimbs(v: nat, n: nat)
    ensures WideNumber(ToLimbs(v, n)) == v % Pow2(64 * n)
    decreases n
  {
    hide Pow2;
    if n == 0 {
      SmallPowers();
    } else {
      WideOfLimbs(v / WORD, n - 1);
      WordIsPow2();
      Pow2Add(64, 64 * (n - 1));
      LimbPeeled(v, Pow2(64 * (n - 1)));
      assert ToLimbs(v, n)[1..] == ToLimbs(v / WORD, n - 1);
    }
  }

  lemma LimbPeeled(v: nat, p: nat)
    requires p > 0
    ensures v % (WORD * p) == v % WORD + WORD * (v / WORD % p)
  {
    var q := v / WORD;
    assert v == q / p * (WORD * p) + (v % WORD + WORD * (q % p)) by {
      assert v == q * WORD + v % WORD && q == q / p * p + q % p;
      assert q * WORD == q / p * p * WORD + q % p * WORD;
      assert q / p * p * WORD == q / p * (WORD * p);
    }
    MulMonotone(q % p + 1, p, WORD);
    DivModUnique(v, WORD * p, q / p, v % WORD + WORD * (q % p));
  }

  /** Sums and differences of packed integers are those of the numbers, modulo their width. */
  lemma PackedIsArithmetic(kind: BinKind, xs: seq<Val>, ys: seq<Val>, was: seq<Val>)
    requires |xs| == |ys| == |was| && (kind.AddK? || kind.SubK?)
    ensures WideNumber(PackedValue(kind, xs, ys, was))
      == (if kind.AddK? then WideNumber(xs) + WideNumber(ys) else WideNumber(xs) - WideNumber(ys)) % Pow2(64 * |xs|)
  {
    hide Pow2, WideNumber, ToLimbs;
    var t := if kind.AddK? then WideNumber(xs) + WideNumber(ys) else WideNumber(xs) - WideNumber(ys);
    WideOfLimbs(t % Pow2(64 * |xs|), |xs|);
    ModTwice(t, Pow2(64 * |xs|));
  }

  lemma ModTwice(t: int, p: nat)
    requires p > 0
    ensures t % p % p == t % p
  {
    SmallMod(t % p, p);
  }
}
