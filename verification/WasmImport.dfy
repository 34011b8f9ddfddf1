/**
 The direct WASM-to-circuit importer: symbolic execution of a block graph over words of circuit
 variables. Calls are inlined, a branch on an unknown condition emits both arms, stores are
 guarded by the path condition and results are merged by selects.
 */
module WasmImport {
  import opened Common
  import opened Numbers
  import opened VCircuit
  import opened Karatsuba
  import opened BitCircuits
  import opened PolyCoeffs
  import opened WasmProgram
  import opened WasmValues
  import opened WasmSteps

  // ---------------------------------------------------------------- the compiler

  /** What is held of a sum is the sum, and nothing is lost, exactly where no set variable meets itself. */
  ghost predicate AddHeld(c: Circuit, d: Circuit, left: seq<Var>, right: seq<Var>, sum: seq<Var>) {
    && |left| == |right|
    && (forall env {:trigger Harmless(env, d)} :: Harmless(env, d) <==> Harmless(env, c) && NoClash(env, c, left, right, |left|))
    && forall env {:trigger Word(env, Stored(d), sum)} | Harmless(env, c) ::
         (Word(env, Stored(d), sum) == BinaryWord(Add, Word(env, c, left), Word(env, c, right))) == NoClash(env, c, left, right, |left|)
  }

  class Compiler {
    const m: Module
    const emitter: Emitter
    var nextFrame: nat

    constructor (m: Module)
      ensures this.m == m && nextFrame == 0 && fresh(emitter) && emitter.circuit == Circuit(0, [])
    {
      this.m := m;
      emitter := new Emitter();
      nextFrame := 0;
    }

    method Constant(ty: Ty, value: U64) returns (r: Result<Value>)
      modifies emitter
      ensures Pure(old(emitter.circuit), emitter.circuit)
      ensures r.Ok? <==> Width(ty).Some?
      ensures r.Ok? ==> Good(emitter.circuit, r.value) && |r.value.bits| == Width(ty).value
      ensures r.Ok? ==> forall env {:trigger Word(env, emitter.circuit, r.value.bits)} ::
        Word(env, emitter.circuit, r.value.bits) == Digits(value, Width(ty).value)
    {
      hide Run, Step, Word, Digits, Num, Pow2;
      if Width(ty).None? {
        return Err(Unsupported);
      }
      var bits := emitter.BcConstWord(value, Width(ty).value);
      r := Ok(WithBits(bits, Some(value)));
      WordIsPow2();
      MaskIsRemainder(value, Width(ty).value);
      NumOfDigits(value, Width(ty).value);
    }

    method Binary(op: BinOp, left: Value, right: Value) returns (r: Result<Value>)
      requires Good(emitter.circuit, left) && Good(emitter.circuit, right)
      modifies emitter
      ensures Pure(old(emitter.circuit), emitter.circuit)
      ensures r.Ok? <==> |left.bits| == |right.bits|
      ensures r.Ok? ==> Good(emitter.circuit, r.value) && |r.value.bits| == |left.bits|
      ensures r.Ok? ==> forall env {:trigger Word(env, emitter.circuit, r.value.bits)} ::
        Word(env, emitter.circuit, r.value.bits)
          == BinaryWord(op, Word(env, old(emitter.circuit), left.bits), Word(env, old(emitter.circuit), right.bits))
      ensures r.Ok? && op == Add ==> AddHeld(old(emitter.circuit), emitter.circuit, left.bits, right.bits, r.value.bits)
    {
      hide Run, Step, Word, Digits, Num, Pow2, BinaryWord, KnownBinary, Mask, BitVars, Keeps, AddHeld;
      if |left.bits| != |right.bits| {
        PureReflexive(emitter.circuit);
        return Err(Unsupported);
      }
      ghost var c0 := emitter.circuit;
      var bits := BinaryBits(op, left.bits, right.bits);
      var known := if left.known.Some? && right.known.Some? then Some(KnownBinary(op, left.known.value, right.known.value))
                   else None;
      r := Ok(WithBits(bits, known));
      if known.Some? {
        forall env ensures Num(Word(env, emitter.circuit, bits)) == r.value.known.value {
          assert Num(Word(env, c0, left.bits)) == left.known.value && Num(Word(env, c0, right.bits)) == right.known.value;
          KnownBinaryRight(op, Word(env, c0, left.bits), Word(env, c0, right.bits));
        }
      }
    }

    method BinaryBits(op: BinOp, left: seq<Var>, right: seq<Var>) returns (bits: seq<Var>)
      requires |left| == |right| && BitVars(emitter.circuit, left) && BitVars(emitter.circuit, right)
      modifies emitter
      ensures Pure(old(emitter.circuit), emitter.circuit) && |bits| == |left| && BitVars(emitter.circuit, bits)
      ensures forall env {:trigger Word(env, emitter.circuit, bits)} ::
        Word(env, emitter.circuit, bits)
          == BinaryWord(op, Word(env, old(emitter.circuit), left), Word(env, old(emitter.circuit), right))
      ensures op == Add ==> AddHeld(old(emitter.circuit), emitter.circuit, left, right, bits)
    {
      hide Run, Step, Word, Digits, Num, Pow2, BitVars, Keeps, Sum, Bitwise, NoClash, Harmless, Stored;
      ghost var c0 := emitter.circuit;
      match op
      case Add =>
        bits := emitter.BcAdd(left, right, false);
        forall env
          ensures Word(env, emitter.circuit, bits) == BinaryWord(op, Word(env, c0, left), Word(env, c0, right))
        {
          var a, x := Word(env, c0, left), Word(env, c0, right);
          SumNumber(a, x, false, |a|);
          IsDigits(Word(env, emitter.circuit, bits), Num(a) + Num(x));
        }
      case Sub =>
        bits := emitter.BcSub(left, right);
        forall env
          ensures Word(env, emitter.circuit, bits) == BinaryWord(op, Word(env, c0, left), Word(env, c0, right))
        {
          var a, x := Word(env, c0, left), Word(env, c0, right);
          IsDigits(Word(env, emitter.circuit, bits), Num(a) - Num(x));
        }
      case Mul =>
        bits := emitter.BcMulLow(left, right, |left|);
        forall env
          ensures Word(env, emitter.circuit, bits) == BinaryWord(op, Word(env, c0, left), Word(env, c0, right))
        {
          var a, x := Word(env, c0, left), Word(env, c0, right);
          assert IsProduct(Word(env, emitter.circuit, bits), a, x);
          IsDigits(Word(env, emitter.circuit, bits), Num(a) * Num(x));
        }
      case BitOp(gate) =>
        bits := emitter.BcVec(gate, left, right);
    }

    method Compare(pred: Pred, left: Value, right: Value, width: nat) returns (r: Value)
      requires Good(emitter.circuit, left) && Good(emitter.circuit, right) && |left.bits| == |right.bits| > 0
      requires 0 < width <= 64
      modifies emitter
      ensures Pure(old(emitter.circuit), emitter.circuit)
      ensures Good(emitter.circuit, r) && |r.bits| == width
      ensures forall env {:trigger Word(env, emitter.circuit, r.bits)} ::
        Word(env, emitter.circuit, r.bits)
          == BoolWord(Holds(pred, Word(env, old(emitter.circuit), left.bits), Word(env, old(emitter.circuit), right.bits)), width)
    {
      hide Run, Step, Word, Num, Pow2, Holds, KnownHolds, Mask, BitVars, BoolWord;
      ghost var c0 := emitter.circuit;
      var bit := CompareBit(pred, left.bits, right.bits);
      ghost var c1 := emitter.circuit;
      var bits := PadBit(bit, width);
      var known := if left.known.Some? && right.known.Some? then
                     Some(if KnownHolds(pred, left.known.value, right.known.value, |left.bits|) then 1 else 0)
                   else None;
      r := WithBits(bits, known);
      forall env
        ensures Word(env, emitter.circuit, bits) == BoolWord(Holds(pred, Word(env, c0, left.bits), Word(env, c0, right.bits)), width)
        ensures known.Some? ==> Num(Word(env, emitter.circuit, bits)) == r.known.value
      {
        assert Word(env, emitter.circuit, bits) == BoolWord(B(env, c1, bit), width);
        BoolWordNumber(B(env, c1, bit), width);
        if known.Some? {
          assert Num(Word(env, c0, left.bits)) == left.known.value && Num(Word(env, c0, right.bits)) == right.known.value;
          KnownHoldsRight(pred, Word(env, c0, left.bits), Word(env, c0, right.bits));
        }
      }
    }

    method CompareBit(pred: Pred, left: seq<Var>, right: seq<Var>) returns (bit: Var)
      requires |left| == |right| > 0 && BitVars(emitter.circuit, left) && BitVars(emitter.circuit, right)
      modifies emitter
      ensures Pure(old(emitter.circuit), emitter.circuit) && BitVar(emitter.circuit, bit)
      ensures forall env {:trigger B(env, emitter.circuit, bit)} ::
        B(env, emitter.circuit, bit) <==>
          Holds(pred, Word(env, old(emitter.circuit), left), Word(env, old(emitter.circuit), right))
    {
      hide Run, Step, Word, Num, Signed, BitVars, BitVar, Keeps, B;
      match pred
      case Eq => bit := emitter.BcEq(left, right);
      case Ne => bit := emitter.BcNe(left, right);
      case Ult => bit := emitter.BcUlt(left, right);
      case Ule => bit := emitter.BcUle(left, right);
      case Ugt => bit := emitter.BcUlt(right, left);
      case Uge => bit := emitter.BcUle(right, left);
      case Slt => bit := emitter.BcSlt(left, right);
      case Sle => bit := emitter.BcSle(left, right);
      case Sgt => bit := emitter.BcSlt(right, left);
      case Sge => bit := emitter.BcSle(right, left);
    }

    /** One bit, zero-padded to a word. */
    method PadBit(bit: Var, width: nat) returns (bits: seq<Var>)
      requires BitVar(emitter.circuit, bit) && width > 0
      modifies emitter
      ensures Pure(old(emitter.circuit), emitter.circuit) && |bits| == width && BitVars(emitter.circuit, bits)
      ensures forall env {:trigger Word(env, emitter.circuit, bits)} ::
        Word(env, emitter.circuit, bits) == BoolWord(B(env, old(emitter.circuit), bit), width)
    {
      hide Run, Step;
      ghost var c0 := emitter.circuit;
      bits := [bit];
      forall env ensures Word(env, emitter.circuit, bits) == BoolWord(B(env, c0, bit), 1) {
        OneBitWord(B(env, c0, bit));
      }
      while |bits| < width
        invariant 0 < |bits| <= width && Pure(c0, emitter.circuit) && BitVars(emitter.circuit, bits)
        invariant forall env {:trigger Word(env, emitter.circuit, bits)} ::
          Word(env, emitter.circuit, bits) == BoolWord(B(env, c0, bit), |bits|)
      {
        ghost var c1 := emitter.circuit;
        var zero := emitter.BcConst(false);
        WordKept(c1, emitter.circuit, bits);
        forall env ensures Word(env, emitter.circuit, bits + [zero]) == BoolWord(B(env, c0, bit), |bits| + 1) {
          WordConcat(env, emitter.circuit, bits, [zero]);
          BoolWordSnoc(B(env, c0, bit), |bits|);
        }
        bits := bits + [zero];
      }
    }

    method Select(condition: Var, a: Value, b: Value) returns (r: Value)
      requires Good(emitter.circuit, a) && Good(emitter.circuit, b) && |a.bits| == |b.bits|
      requires condition < emitter.circuit.Size()
      modifies emitter
      ensures Pure(old(emitter.circuit), emitter.circuit)
      ensures Good(emitter.circuit, r) && |r.bits| == |a.bits|
      ensures forall env {:trigger Word(env, emitter.circuit, r.bits)} ::
        Word(env, emitter.circuit, r.bits)
          == Word(env, old(emitter.circuit), if B(env, old(emitter.circuit), condition) then a.bits else b.bits)
    {
      hide Run, Step, Word, Num, BitVars, B, Keeps, Mask;
      ghost var c0 := emitter.circuit;
      var known := if a.known.Some? && a.known == b.known then a.known else None;
      var bits := emitter.BcSelectVec(condition, a.bits, b.bits);
      r := WithBits(bits, known);
      if known.Some? {
        forall env ensures Num(Word(env, emitter.circuit, bits)) == r.known.value {
          assert Num(Word(env, c0, a.bits)) == a.known.value && Num(Word(env, c0, b.bits)) == b.known.value;
          MaskOfNumber(Word(env, c0, a.bits));
        }
      }
    }

    /** Whether the word is non-zero. */
    method TruthBit(v: Value) returns (bit: Var)
      requires Good(emitter.circuit, v)
      modifies emitter
      ensures Pure(old(emitter.circuit), emitter.circuit) && BitVar(emitter.circuit, bit)
      ensures forall env {:trigger B(env, emitter.circuit, bit)} ::
        B(env, emitter.circuit, bit) <==> Num(Word(env, old(emitter.circuit), v.bits)) != 0
    {
      hide Run, Step, Num;
      ghost var c0 := emitter.circuit;
      if |v.bits| == 0 {
        bit := emitter.BcConst(false);
        forall env ensures Num(Word(env, c0, v.bits)) == 0 {
          NonZero(Word(env, c0, v.bits));
        }
        return;
      }
      bit := v.bits[0];
      assert BitVar(c0, bit);
      forall env ensures B(env, c0, bit) <==> AnySet(Word(env, c0, v.bits), 1) {
        assert B(env, c0, bit) == Word(env, c0, v.bits)[0];
      }
      for i := 1 to |v.bits|
        invariant Pure(c0, emitter.circuit) && BitVar(emitter.circuit, bit)
        invariant forall env {:trigger B(env, emitter.circuit, bit)} ::
          B(env, emitter.circuit, bit) <==> AnySet(Word(env, c0, v.bits), i)
      {
        ghost var c1, before := emitter.circuit, bit;
        assert BitVar(c0, v.bits[i]);
        bit := emitter.BcOr(bit, v.bits[i]);
        forall env ensures B(env, emitter.circuit, bit) <==> AnySet(Word(env, c0, v.bits), i + 1) {
          assert Val(env, c1, v.bits[i]) == Val(env, c0, v.bits[i]);
          assert B(env, c1, before) <==> AnySet(Word(env, c0, v.bits), i);
          assert B(env, c0, v.bits[i]) == Word(env, c0, v.bits)[i];
        }
      }
      forall env ensures B(env, emitter.circuit, bit) <==> Num(Word(env, c0, v.bits)) != 0 {
        NonZero(Word(env, c0, v.bits));
      }
    }

    /** Cut or extend; a known number is kept, so this is right for zero extension only. */
    method ExtendZero(v: Value, width: nat) returns (r: Value)
      requires Good(emitter.circuit, v) && width <= 64
      modifies emitter
      ensures Pure(old(emitter.circuit), emitter.circuit)
      ensures Good(emitter.circuit, r) && |r.bits| == width
      ensures forall env {:trigger Word(env, emitter.circuit, r.bits)} ::
        Word(env, emitter.circuit, r.bits) == Extended(Word(env, old(emitter.circuit), v.bits), width, false)
    {
      hide Run, Step, Word, Num, BitVars, B, Keeps, Mask, Pow2, Resized, Extended;
      ghost var c0 := emitter.circuit;
      var bits := emitter.ExtBits(v.bits, width);
      r := WithBits(bits, v.known);
      forall env
        ensures Word(env, emitter.circuit, bits) == Extended(Word(env, c0, v.bits), width, false)
        ensures v.known.Some? ==> Num(Word(env, emitter.circuit, bits)) == r.known.value
      {
        var w := Word(env, c0, v.bits);
        assert Word(env, emitter.circuit, bits) == Resized(w, width);
        ZeroExtension(w, width);
        if v.known.Some? {
          assert Num(w) == v.known.value;
          ResizedNumber(w, width);
          NumBound(w);
          Pow2Monotone(|w|, 64);
          MaskIsRemainder(Num(w), width);
        }
      }
    }

    // -------------------------------------------------------------- memory

    method EffectiveAddressOf(base: Value, offset: U64) returns (r: Result<Value>)
      requires Good(emitter.circuit, base)
      modifies emitter
      ensures Pure(old(emitter.circuit), emitter.circuit)
      ensures r.Ok? <==> offset == 0 || |base.bits| == 32
      ensures r.Ok? ==> Good(emitter.circuit, r.value) && |r.value.bits| == |base.bits|
      ensures r.Ok? ==> forall env {:trigger Word(env, emitter.circuit, r.value.bits)} ::
        EffectiveAddress(Word(env, old(emitter.circuit), base.bits), offset)
          == Some(Word(env, emitter.circuit, r.value.bits))
    {
      hide Run, Step, Word, Num, BitVars, BinaryWord, Digits;
      ghost var c0 := emitter.circuit;
      if offset == 0 {
        PureReflexive(c0);
        return Ok(base);
      }
      var added := Constant(I32, offset);
      ghost var c1 := emitter.circuit;
      GoodKept(c0, c1, base);
      r := Binary(Add, base, added.value);
      if r.Ok? {
        forall env
          ensures EffectiveAddress(Word(env, c0, base.bits), offset) == Some(Word(env, emitter.circuit, r.value.bits))
        {
          assert Word(env, c1, base.bits) == Word(env, c0, base.bits);
          assert Word(env, c1, added.value.bits) == Digits(offset, 32);
          assert |Word(env, c0, base.bits)| == |base.bits| == |added.value.bits| == 32;
        }
      }
    }

    /** The low address bits of `address + k`, packed into one variable. */
    method ByteAddress(storage: nat, address: Value, k: U64) returns (r: Result<Var>)
      requires Good(emitter.circuit, address)
      modifies emitter
      ensures Pure(old(emitter.circuit), emitter.circuit)
      ensures r.Ok? <==> (k == 0 || |address.bits| == 32) && m.addressBits <= |address.bits|
      ensures r.Ok? ==> r.value < emitter.circuit.Size()
      ensures r.Ok? ==> forall env {:trigger Val(env, emitter.circuit, r.value)} ::
        ByteCell(m, storage, Word(env, old(emitter.circuit), address.bits), k)
          == Some(Cell(storage, Val(env, emitter.circuit, r.value)))
    {
      hide Run, Step, Word, Num, BitVars, EffectiveAddress;
      ghost var c0 := emitter.circuit;
      var at := EffectiveAddressOf(address, k);
      if at.Err? {
        return Err(at.error);
      }
      if m.addressBits > |at.value.bits| {
        return Err(Unsupported);
      }
      ghost var c1 := emitter.circuit;
      var v := Pack(at.value.bits[..m.addressBits]) by { PrefixBits(c1, at.value.bits, m.addressBits); }
      r := Ok(v);
      forall env
        ensures ByteCell(m, storage, Word(env, c0, address.bits), k) == Some(Cell(storage, Val(env, emitter.circuit, v)))
      {
        assert EffectiveAddress(Word(env, c0, address.bits), k) == Some(Word(env, c1, at.value.bits));
        PrefixWord(env, c1, at.value.bits, m.addressBits);
      }
    }

    /** Merge bits into one variable; a single bit is its own merge. */
    method Pack(parts: seq<Var>) returns (v: Var)
      requires BitVars(emitter.circuit, parts)
      modifies emitter
      ensures Pure(old(emitter.circuit), emitter.circuit) && v < emitter.circuit.Size()
      ensures forall env {:trigger Val(env, emitter.circuit, v)} ::
        Val(env, emitter.circuit, v) == Word(env, old(emitter.circuit), parts)
    {
      hide Run;
      ghost var c0 := emitter.circuit;
      if |parts| == 1 {
        assert BitVar(c0, parts[0]);
        v := parts[0];
        forall env ensures Val(env, c0, v) == Word(env, c0, parts) {
          BitVarWidth(env, c0, v);
        }
        return;
      }
      v := emitter.Emit(Merge(parts));
      forall env ensures Val(env, emitter.circuit, v) == Word(env, c0, parts) {
        assert Run(env, emitter.circuit) == Step(Run(env, c0), Merge(parts));
        ConcatIsWord(env, c0, parts);
      }
    }

    /** Read one byte and take it apart. */
    method ReadByte(storage: nat, address: Var) returns (bits: seq<Var>)
      requires address < emitter.circuit.Size()
      modifies emitter
      ensures Pure(old(emitter.circuit), emitter.circuit) && |bits| == 8 && BitVars(emitter.circuit, bits)
      ensures forall env {:trigger Word(env, emitter.circuit, bits)} ::
        Word(env, emitter.circuit, bits)
          == Byte(M(env, old(emitter.circuit)), Cell(storage, Val(env, old(emitter.circuit), address)))
    {
      hide Run;
      ghost var c0 := emitter.circuit;
      var read := emitter.Emit(StorageRead(storage, address));
      ghost var c1 := emitter.circuit;
      forall env ensures Val(env, c1, read) == Look(M(env, c0), Cell(storage, Val(env, c0, address))) {
        assert Run(env, c1) == Step(Run(env, c0), StorageRead(storage, address));
      }
      bits := [];
      for i := 0 to 8
        invariant Pure(c1, emitter.circuit) && |bits| == i && BitVars(emitter.circuit, bits)
        invariant forall env {:trigger Word(env, emitter.circuit, bits)} ::
          Word(env, emitter.circuit, bits) == Byte(M(env, c0), Cell(storage, Val(env, c0, address)))[..i]
      {
        ghost var c2 := emitter.circuit;
        var bit := emitter.Emit(Extract(read, i));
        WordKept(c2, emitter.circuit, bits);
        forall env
          ensures Word(env, emitter.circuit, bits + [bit]) == Byte(M(env, c0), Cell(storage, Val(env, c0, address)))[..i + 1]
        {
          assert Run(env, emitter.circuit) == Step(Run(env, c2), Extract(read, i));
          assert Val(env, c2, read) == Val(env, c1, read);
          assert B(env, emitter.circuit, bit) == BitAt(Val(env, c2, read), i);
          WordConcat(env, emitter.circuit, bits, [bit]);
        }
        bits := bits + [bit];
      }
    }

    method Load(storage: nat, base: Value, offset: U64, bytes: U64, ty: Ty, signed: bool) returns (r: Result<Value>)
      requires Good(emitter.circuit, base)
      modifies emitter
      ensures Pure(old(emitter.circuit), emitter.circuit)
      ensures r.Ok? ==> Good(emitter.circuit, r.value)
      ensures r.Ok? ==> forall env {:trigger Word(env, emitter.circuit, r.value.bits)} ::
        LoadResult(m, M(env, old(emitter.circuit)), LoadOp(storage, offset, bytes, ty, signed),
          [Word(env, old(emitter.circuit), base.bits)])
          == Some(Word(env, emitter.circuit, r.value.bits))
      ensures r.Err? ==> forall env {:trigger M(env, old(emitter.circuit))} ::
        LoadResult(m, M(env, old(emitter.circuit)), LoadOp(storage, offset, bytes, ty, signed),
          [Word(env, old(emitter.circuit), base.bits)]) == None
    {
      hide Run, Step, Word, Num, BitVars, EffectiveAddress, ByteCell, Byte, LoadBytes, Extended;
      ghost var c0 := emitter.circuit;
      if Width(ty).None? || bytes == 0 {
        PureReflexive(c0);
        return Err(Malformed);
      }
      var address := EffectiveAddressOf(base, offset);
      if address.Err? {
        forall env ensures EffectiveAddress(Word(env, c0, base.bits), offset) == None {
          NoAddress(Word(env, c0, base.bits), offset);
        }
        return Err(address.error);
      }
      ghost var c1 := emitter.circuit;
      var loaded := LoadAll(storage, address.value, bytes);
      if loaded.Err? {
        forall env ensures LoadResult(m, M(env, c0), LoadOp(storage, offset, bytes, ty, signed), [Word(env, c0, base.bits)]) == None {
          assert EffectiveAddress(Word(env, c0, base.bits), offset) == Some(Word(env, c1, address.value.bits));
          assert LoadBytes(m, M(env, c1), storage, Word(env, c1, address.value.bits), bytes) == None;
          assert M(env, c1) == M(env, c0);
        }
        return Err(loaded.error);
      }
      ghost var c2 := emitter.circuit;
      var bits := ExtendTo(loaded.value, Width(ty).value, signed);
      r := Ok(Value(bits, None));
      forall env
        ensures LoadResult(m, M(env, c0), LoadOp(storage, offset, bytes, ty, signed), [Word(env, c0, base.bits)])
          == Some(Word(env, emitter.circuit, bits))
      {
        assert EffectiveAddress(Word(env, c0, base.bits), offset) == Some(Word(env, c1, address.value.bits));
        assert LoadBytes(m, M(env, c1), storage, Word(env, c1, address.value.bits), bytes) == Some(Word(env, c2, loaded.value));
        assert M(env, c1) == M(env, c0);
        assert Word(env, emitter.circuit, bits) == Extended(Word(env, c2, loaded.value), Width(ty).value, signed);
      }
    }

    method LoadAll(storage: nat, address: Value, bytes: U64) returns (r: Result<seq<Var>>)
      requires Good(emitter.circuit, address)
      modifies emitter
      ensures Pure(old(emitter.circuit), emitter.circuit)
      ensures r.Ok? ==> |r.value| == 8 * bytes && BitVars(emitter.circuit, r.value)
      ensures r.Ok? ==> forall env {:trigger Word(env, emitter.circuit, r.value)} ::
        LoadBytes(m, M(env, old(emitter.circuit)), storage, Word(env, old(emitter.circuit), address.bits), bytes)
          == Some(Word(env, emitter.circuit, r.value))
      ensures r.Err? ==> forall env {:trigger M(env, old(emitter.circuit))} ::
        LoadBytes(m, M(env, old(emitter.circuit)), storage, Word(env, old(emitter.circuit), address.bits), bytes) == None
    {
      hide Run, Step, Num, EffectiveAddress, ByteCell, Byte;
      ghost var c0 := emitter.circuit;
      var bits := [];
      var k: U64 := 0;
      while k < bytes
        invariant k <= bytes && Pure(c0, emitter.circuit) && |bits| == 8 * k && BitVars(emitter.circuit, bits)
        invariant forall env {:trigger Word(env, emitter.circuit, bits)} ::
          LoadBytes(m, M(env, c0), storage, Word(env, c0, address.bits), k) == Some(Word(env, emitter.circuit, bits))
      {
        ghost var c1, before := emitter.circuit, bits;
        GoodKept(c0, c1, address);
        var at := ByteAddress(storage, address, k);
        if at.Err? {
          forall env ensures LoadBytes(m, M(env, c0), storage, Word(env, c0, address.bits), bytes) == None {
            NoCell(m, storage, Word(env, c0, address.bits), k);
            NoBytesWithout(m, M(env, c0), storage, Word(env, c0, address.bits), k, bytes);
          }
          return Err(at.error);
        }
        ghost var c2 := emitter.circuit;
        var byte := ReadByte(storage, at.value);
        WordKept(c1, emitter.circuit, bits);
        forall env
          ensures LoadBytes(m, M(env, c0), storage, Word(env, c0, address.bits), k + 1)
            == Some(Word(env, emitter.circuit, bits + byte))
        {
          assert ByteCell(m, storage, Word(env, c1, address.bits), k) == Some(Cell(storage, Val(env, c2, at.value)));
          assert Word(env, c1, address.bits) == Word(env, c0, address.bits) && M(env, c2) == M(env, c0);
          assert Word(env, emitter.circuit, bits) == Word(env, c1, before);
          assert Word(env, emitter.circuit, byte) == Byte(M(env, c2), Cell(storage, Val(env, c2, at.value)));
          WordConcat(env, emitter.circuit, bits, byte);
        }
        bits := bits + byte;
        k := k + 1;
      }
      r := Ok(bits);
    }

    /** Resize a loaded word; the sign is the top wire itself. */
    method ExtendTo(bits: seq<Var>, width: nat, signed: bool) returns (out: seq<Var>)
      requires BitVars(emitter.circuit, bits) && bits != []
      modifies emitter
      ensures Pure(old(emitter.circuit), emitter.circuit) && |out| == width && BitVars(emitter.circuit, out)
      ensures forall env {:trigger Word(env, emitter.circuit, out)} ::
        Word(env, emitter.circuit, out) == Extended(Word(env, old(emitter.circuit), bits), width, signed)
    {
      hide Run, Step;
      ghost var c0 := emitter.circuit;
      if |bits| == width {
        PureReflexive(c0);
        return bits;
      }
      if !signed {
        out := emitter.ExtBits(bits, width);
        forall env ensures Word(env, emitter.circuit, out) == Extended(Word(env, c0, bits), width, signed) {
          assert Word(env, emitter.circuit, out) == Resized(Word(env, c0, bits), width);
          ZeroExtension(Word(env, c0, bits), width);
        }
        return;
      }
      var sign := bits[|bits| - 1];
      assert BitVar(c0, sign);
      out := seq(width, i requires 0 <= i => if i < |bits| then bits[i] else sign);
      forall i | 0 <= i < width ensures BitVar(c0, out[i]) {
        if i < |bits| {
          assert BitVar(c0, bits[i]);
        }
      }
      forall env ensures Word(env, c0, out) == Extended(Word(env, c0, bits), width, signed) {
        forall i | 0 <= i < width ensures Word(env, c0, out)[i] == Extended(Word(env, c0, bits), width, signed)[i] {
          if i < |bits| {
            assert Word(env, c0, bits)[i] == B(env, c0, bits[i]);
          } else {
            assert Word(env, c0, bits)[|bits| - 1] == B(env, c0, sign);
          }
        }
      }
    }

    /** Write one byte where the path is active; elsewhere write back what was there. */
    method StoreByte(storage: nat, address: Var, byte: seq<Var>, active: Var)
      requires |byte| == 8 && BitVars(emitter.circuit, byte)
      requires address < emitter.circuit.Size() && active < emitter.circuit.Size()
      modifies emitter
      ensures Keeps(old(emitter.circuit), emitter.circuit)
      ensures forall env {:trigger M(env, emitter.circuit)} ::
        M(env, emitter.circuit)
          == if B(env, old(emitter.circuit), active) then
               Put(M(env, old(emitter.circuit)), Cell(storage, Val(env, old(emitter.circuit), address)),
                 Word(env, old(emitter.circuit), byte))
             else M(env, old(emitter.circuit))
    {
      hide Run, Put;
      ghost var c0 := emitter.circuit;
      var source := Pack(byte);
      ghost var c1 := emitter.circuit;
      var previous := emitter.Emit(StorageRead(storage, address));
      ghost var c2 := emitter.circuit;
      var selected := emitter.Emit(Mux(active, source, previous));
      ghost var c3 := emitter.circuit;
      var unused := emitter.Emit(StorageWrite(storage, selected, address));
      forall env
        ensures M(env, emitter.circuit)
          == if B(env, c0, active) then Put(M(env, c0), Cell(storage, Val(env, c0, address)), Word(env, c0, byte)) else M(env, c0)
      {
        assert Run(env, c2) == Step(Run(env, c1), StorageRead(storage, address));
        assert Run(env, c3) == Step(Run(env, c2), Mux(active, source, previous));
        assert Run(env, emitter.circuit) == Step(Run(env, c3), StorageWrite(storage, selected, address));
        assert Val(env, c1, source) == Word(env, c0, byte) && Val(env, c2, source) == Val(env, c1, source);
        assert Val(env, c2, active) == Val(env, c0, active);
        assert Val(env, c1, address) == Val(env, c0, address) && Val(env, c3, address) == Val(env, c0, address);
        assert M(env, c3) == M(env, c2) == M(env, c1) == M(env, c0);
        WriteBack(M(env, c0), Cell(storage, Val(env, c0, address)));
      }
    }

    method Store(storage: nat, base: Value, value: Value, offset: U64, bytes: U64, active: Var) returns (r: Result<()>)
      requires Good(emitter.circuit, base) && Good(emitter.circuit, value) && active < emitter.circuit.Size()
      modifies emitter
      ensures Keeps(old(emitter.circuit), emitter.circuit)
      ensures r.Ok? ==> forall env {:trigger M(env, emitter.circuit)} ::
        if B(env, old(emitter.circuit), active) then
          StoreResult(m, M(env, old(emitter.circuit)), StoreOp(storage, offset, bytes),
            [Word(env, old(emitter.circuit), base.bits), Word(env, old(emitter.circuit), value.bits)])
            == Some(M(env, emitter.circuit))
        else M(env, emitter.circuit) == M(env, old(emitter.circuit))
    {
      hide Run, Step, Word, Num, BitVars, EffectiveAddress, ByteCell, StoreBytes;
      ghost var c0 := emitter.circuit;
      var address := EffectiveAddressOf(base, offset);
      if address.Err? {
        return Err(address.error);
      }
      ghost var c1 := emitter.circuit;
      GoodKept(c0, c1, value);
      r := StoreAll(storage, address.value, value, bytes, active);
      if r.Ok? {
        forall env
          ensures if B(env, c0, active) then
              StoreResult(m, M(env, c0), StoreOp(storage, offset, bytes), [Word(env, c0, base.bits), Word(env, c0, value.bits)])
                == Some(M(env, emitter.circuit))
            else M(env, emitter.circuit) == M(env, c0)
        {
          assert EffectiveAddress(Word(env, c0, base.bits), offset) == Some(Word(env, c1, address.value.bits));
          assert Word(env, c1, value.bits) == Word(env, c0, value.bits) && M(env, c1) == M(env, c0);
          assert Val(env, c1, active) == Val(env, c0, active);
        }
      }
    }

    method StoreAll(storage: nat, address: Value, value: Value, bytes: U64, active: Var) returns (r: Result<()>)
      requires Good(emitter.circuit, address) && Good(emitter.circuit, value) && active < emitter.circuit.Size()
      modifies emitter
      ensures Keeps(old(emitter.circuit), emitter.circuit)
      ensures r.Ok? ==> forall env {:trigger M(env, emitter.circuit)} ::
        if B(env, old(emitter.circuit), active) then
          StoreBytes(m, M(env, old(emitter.circuit)), storage, Word(env, old(emitter.circuit), address.bits),
            Word(env, old(emitter.circuit), value.bits), bytes)
            == Some(M(env, emitter.circuit))
        else M(env, emitter.circuit) == M(env, old(emitter.circuit))
    {
      hide Run, Step, Num, EffectiveAddress, ByteCell, Put, Word, BitVars, StoreBytes, B;
      NoBytes(m, storage);
      ghost var c0 := emitter.circuit;
      var k: U64 := 0;
      while k < bytes
        invariant k <= bytes && Keeps(c0, emitter.circuit)
        invariant forall env {:trigger M(env, emitter.circuit)} ::
          if B(env, c0, active) then
            StoreBytes(m, M(env, c0), storage, Word(env, c0, address.bits), Word(env, c0, value.bits), k)
              == Some(M(env, emitter.circuit))
          else M(env, emitter.circuit) == M(env, c0)
      {
        ghost var c1 := emitter.circuit;
        GoodKept(c0, c1, address);
        var at := ByteAddress(storage, address, k);
        if at.Err? {
          return Err(at.error);
        }
        ghost var c2 := emitter.circuit;
        if 8 * (k + 1) > |value.bits| {
          return Err(Malformed);
        }
        var byte := value.bits[8 * k..8 * (k + 1)];
        GoodKept(c0, c2, value);
        SliceBits(c2, value.bits, 8 * k, 8 * (k + 1));
        StoreByte(storage, at.value, byte, active);
        forall env
          ensures if B(env, c0, active) then
              StoreBytes(m, M(env, c0), storage, Word(env, c0, address.bits), Word(env, c0, value.bits), k + 1)
                == Some(M(env, emitter.circuit))
            else M(env, emitter.circuit) == M(env, c0)
        {
          assert ByteCell(m, storage, Word(env, c1, address.bits), k) == Some(Cell(storage, Val(env, c2, at.value)));
          assert Word(env, c1, address.bits) == Word(env, c0, address.bits) && M(env, c2) == M(env, c1);
          assert Word(env, c2, value.bits) == Word(env, c0, value.bits);
          SliceWord(env, c2, value.bits, 8 * k, 8 * (k + 1));
          BitKept(env, c0, c2, active);
          if B(env, c0, active) {
            OneMoreByte(m, M(env, c0), storage, Word(env, c0, address.bits), Word(env, c0, value.bits), k,
              M(env, c1), Cell(storage, Val(env, c2, at.value)));
          }
        }
        k := k + 1;
      }
      r := Ok(());
    }

    // -------------------------------------------------------------- operators without effect

    method EqualZero(v: Value) returns (r: Value)
      requires Good(emitter.circuit, v) && |v.bits| == 32
      modifies emitter
      ensures Pure(old(emitter.circuit), emitter.circuit)
      ensures Good(emitter.circuit, r)
      ensures forall env {:trigger Word(env, emitter.circuit, r.bits)} ::
        Word(env, emitter.circuit, r.bits) == BoolWord(Num(Word(env, old(emitter.circuit), v.bits)) == 0, 32)
    {
      hide Run, Step, Word, Num, BitVars, Digits, BoolWord;
      ghost var c0 := emitter.circuit;
      var zero := Constant(I32, 0);
      ghost var c1 := emitter.circuit;
      GoodKept(c0, c1, v);
      r := Compare(Eq, v, zero.value, 32);
      forall env ensures Word(env, emitter.circuit, r.bits) == BoolWord(Num(Word(env, c0, v.bits)) == 0, 32) {
        assert Word(env, c1, v.bits) == Word(env, c0, v.bits) && Word(env, c1, zero.value.bits) == Digits(0, 32);
        IsZeroWord(Word(env, c0, v.bits));
      }
    }

    /** Keep the low 32 bits. */
    method Wrap(v: Value) returns (r: Value)
      requires Good(emitter.circuit, v) && |v.bits| >= 32
      ensures Good(emitter.circuit, r)
      ensures forall env {:trigger Word(env, emitter.circuit, r.bits)} ::
        Word(env, emitter.circuit, r.bits) == Word(env, emitter.circuit, v.bits)[..32]
    {
      hide Run, Step, Word, Num, BitVars, Mask, Pow2;
      r := WithBits(v.bits[..32], v.known);
      PrefixBits(emitter.circuit, v.bits, 32);
      forall env
        ensures Word(env, emitter.circuit, r.bits) == Word(env, emitter.circuit, v.bits)[..32]
        ensures v.known.Some? ==> Num(Word(env, emitter.circuit, r.bits)) == r.known.value
      {
        var w := Word(env, emitter.circuit, v.bits);
        PrefixWord(env, emitter.circuit, v.bits, 32);
        if v.known.Some? {
          assert Num(w) == v.known.value;
          NumSplit(w, 32);
          NumBound(w);
          Pow2Monotone(|w|, 64);
          MaskIsRemainder(Num(w), 32);
        }
      }
    }

    method LowerPure(operator: Operator, args: seq<Value>, results: seq<Ty>, globals: seq<Value>) returns (r: Result<Value>)
      requires AllGood(emitter.circuit, args) && AllGood(emitter.circuit, globals)
      modifies emitter
      ensures Pure(old(emitter.circuit), emitter.circuit)
      ensures r.Ok? ==> Good(emitter.circuit, r.value)
      ensures r.Ok? ==> forall env {:trigger Word(env, emitter.circuit, r.value.bits)} ::
        PureResult(m, operator, Words(env, old(emitter.circuit), args), results, Words(env, old(emitter.circuit), globals))
          == Some(Word(env, emitter.circuit, r.value.bits))
      ensures r.Err? ==> forall env {:trigger Words(env, old(emitter.circuit), args)} ::
        PureResult(m, operator, Words(env, old(emitter.circuit), args), results, Words(env, old(emitter.circuit), globals)) == None
    {
      hide Run, Step, Word, Num, BitVars, BinaryWord, Holds, Digits, Extended, BoolWord;
      PureReflexive(emitter.circuit);
      ghost var c0 := emitter.circuit;
      match operator
      case ConstOp(ty, value) =>
        r := Constant(ty, value);
      case BinaryOp(op) =>
        if |args| < 2 {
          return Err(Unsupported);
        }
        r := Binary(op, args[0], args[1]);
      case EqzOp =>
        if |args| < 1 || |args[0].bits| != 32 {
          return Err(Malformed);
        }
        var value := EqualZero(args[0]);
        r := Ok(value);
      case CompareOp(pred) =>
        if |args| < 2 || |args[0].bits| != |args[1].bits| || |args[0].bits| == 0 || |results| == 0 || Width(results[0]).None? {
          return Err(Malformed);
        }
        var value := Compare(pred, args[0], args[1], Width(results[0]).value);
        r := Ok(value);
      case WrapOp =>
        if |args| < 1 || |args[0].bits| < 32 {
          return Err(Malformed);
        }
        var value := Wrap(args[0]);
        r := Ok(value);
      case ExtendUOp =>
        if |args| < 1 {
          return Err(Unsupported);
        }
        var value := ExtendZero(args[0], 64);
        r := Ok(value);
      case SelectOp =>
        if |args| < 3 || |args[0].bits| != |args[1].bits| {
          return Err(Malformed);
        }
        var condition := TruthBit(args[2]);
        ghost var c1 := emitter.circuit;
        GoodKept(c0, c1, args[0]);
        GoodKept(c0, c1, args[1]);
        var value := Select(condition, args[0], args[1]);
        r := Ok(value);
        forall env
          ensures PureResult(m, operator, Words(env, c0, args), results, Words(env, c0, globals))
            == Some(Word(env, emitter.circuit, value.bits))
        {
          assert B(env, c1, condition) <==> Num(Word(env, c0, args[2].bits)) != 0;
          assert Word(env, c1, args[0].bits) == Word(env, c0, args[0].bits);
          assert Word(env, c1, args[1].bits) == Word(env, c0, args[1].bits);
        }
      case GlobalGetOp(g) =>
        if g >= |m.globals| {
          return Err(Malformed);
        }
        if m.globals[g].mutable {
          if MutableIndex(m.globals, g) >= |globals| {
            return Err(Malformed);
          }
          return Ok(globals[MutableIndex(m.globals, g)]);
        }
        r := Constant(m.globals[g].ty, m.globals[g].init);
      case _ =>
        r := Err(Unsupported);
    }

    // -------------------------------------------------------------- control

    method CompileFunction(f: FuncId, args: seq<Value>, globals: seq<Value>, active: Var, plan: Plan, stack: seq<FuncId>)
      returns (r: Result<ResultState>, next: Plan)
      requires AllGood(emitter.circuit, args) && AllGood(emitter.circuit, globals) && active < emitter.circuit.Size()
      requires plan.Left() >= 0
      modifies this, emitter
      ensures Keeps(old(emitter.circuit), emitter.circuit)
      ensures r.Ok? ==> 0 <= next.Left() <= plan.Left() && ResultGood(emitter.circuit, r.value)
      ensures r.Ok? ==> Quiet(old(emitter.circuit), emitter.circuit, active)
      ensures r.Ok? ==> FunctionRuns(m, f, args, globals, active, plan.Left(), old(emitter.circuit), emitter.circuit, r.value)
      decreases plan.Left(), 2
    {
      hide *;
      next := plan;
      KeepsReflexive(emitter.circuit);
      if f in stack {
        return Err(RecursiveCall), plan;
      }
      var entered := plan.EnterCall();
      if entered.Err? {
        return Err(entered.error), plan;
      }
      var found := m.BodyOf(f);
      if found.None? {
        return Err(ImportedFunction), plan;
      }
      var body := found.value;
      if body.entry >= |body.blocks| {
        return Err(Malformed), plan;
      }
      var params := body.blocks[body.entry].params;
      if |params| != |args| || nextFrame + 1 >= WORD {
        return Err(if |params| != |args| then Unsupported else ResourceLimit), plan;
      }
      var frame := nextFrame;
      nextFrame := nextFrame + 1;
      ghost var c0 := emitter.circuit;
      var state := State(Bound(map[], params, args, |args|), globals, active, frame);
      EntryGood(c0, params, args, globals, active, frame);
      r, next := CompileBlock(f, body, body.entry, state, entered.value, stack + [f]);
      next := next.LeaveCall();
      if r.Ok? {
        EntryRuns(m, f, args, globals, active, frame, plan.Left(), c0, emitter.circuit, r.value);
      }
    }

    method CompileBlock(f: FuncId, body: Body, block: BlockId, state: State, plan: Plan, stack: seq<FuncId>)
      returns (r: Result<ResultState>, next: Plan)
      requires StateGood(emitter.circuit, state) && plan.Left() >= 0
      modifies this, emitter
      ensures Keeps(old(emitter.circuit), emitter.circuit)
      ensures r.Ok? ==> 0 <= next.Left() <= plan.Left() && ResultGood(emitter.circuit, r.value)
      ensures r.Ok? ==> Quiet(old(emitter.circuit), emitter.circuit, state.active)
      ensures r.Ok? ==> BlockRuns(m, body, block, state, plan.Left(), old(emitter.circuit), emitter.circuit, r.value)
      decreases plan.Left(), 1
    {
      hide *;
      ghost var c0 := emitter.circuit;
      KeepsReflexive(c0);
      if block >= |body.blocks| {
        return Err(Malformed), plan;
      }
      var def := body.blocks[block];
      var known := KnownOf(body, state.values, def.params);
      if known.None? {
        return Err(Unsupported), plan;
      }
      var entered := plan.Enter(Key(state.frame, f, block, known.value));
      if entered.Err? {
        return Err(entered.error), plan;
      }
      var after, left := CompileInsts(f, body, def.insts, state, entered.value, stack);
      if after.Err? {
        return Err(after.error), left;
      }
      ghost var c1 := emitter.circuit;
      r, next := CompileTerminator(f, body, def.terminator, after.value, left, stack);
      KeepsTransitive(c0, c1, emitter.circuit);
      if r.Ok? {
        StateParts(c0, state);
        BlockFromParts(m, body, block, state, after.value, plan.Left(), left.Left(), c0, c1, emitter.circuit, r.value);
        QuietTransitive(c0, c1, emitter.circuit, state.active);
      }
    }

    method CompileInsts(f: FuncId, body: Body, insts: seq<ValueId>, state: State, plan: Plan, stack: seq<FuncId>)
      returns (r: Result<State>, next: Plan)
      requires StateGood(emitter.circuit, state) && plan.Left() >= 0
      modifies this, emitter
      ensures Keeps(old(emitter.circuit), emitter.circuit)
      ensures r.Ok? ==> 0 <= next.Left() <= plan.Left() && StateGood(emitter.circuit, r.value) && r.value.active == state.active
      ensures r.Ok? ==> Quiet(old(emitter.circuit), emitter.circuit, state.active)
      ensures r.Ok? ==> InstsRun(m, body, insts, |insts|, state, plan.Left(), old(emitter.circuit), emitter.circuit, r.value)
      decreases plan.Left(), 5
    {
      hide *;
      ghost var c0 := emitter.circuit;
      KeepsReflexive(c0);
      var now := state;
      next := plan;
      NoInsts(m, body, insts, state, plan.Left(), c0);
      StateParts(c0, state);
      for i := 0 to |insts|
        invariant 0 <= next.Left() <= plan.Left() && Keeps(c0, emitter.circuit)
        invariant StateGood(emitter.circuit, now) && now.active == state.active
        invariant Quiet(c0, emitter.circuit, state.active)
        invariant InstsRun(m, body, insts, i, state, plan.Left(), c0, emitter.circuit, now)
      {
        ghost var c1, before, left := emitter.circuit, now, next.Left();
        var stepped;
        stepped, next := CompileInst(body, insts[i], now, next, stack);
        KeepsTransitive(c0, c1, emitter.circuit);
        if stepped.Err? {
          return Err(stepped.error), next;
        }
        now := stepped.value;
        QuietTransitive(c0, c1, emitter.circuit, state.active);
        OneMoreInst(m, body, insts, i, state, plan.Left(), left, c0, c1, before, emitter.circuit, now);
      }
      r := Ok(now);
    }

    method CompileInst(body: Body, v: ValueId, state: State, plan: Plan, stack: seq<FuncId>)
      returns (r: Result<State>, next: Plan)
      requires StateGood(emitter.circuit, state) && plan.Left() >= 0
      modifies this, emitter
      ensures Keeps(old(emitter.circuit), emitter.circuit)
      ensures r.Ok? ==> 0 <= next.Left() <= plan.Left() && StateGood(emitter.circuit, r.value) && r.value.active == state.active
      ensures r.Ok? ==> Quiet(old(emitter.circuit), emitter.circuit, state.active)
      ensures r.Ok? ==> InstRuns(m, body, v, state, plan.Left(), old(emitter.circuit), emitter.circuit, r.value)
      decreases plan.Left(), 4
    {
      hide *;
      ghost var c0 := emitter.circuit;
      KeepsReflexive(c0);
      next := plan;
      match body.Def(v)
      case OpValue(operator, args, results) =>
        var values := Operands(body, state.values, args, |args|);
        if values.None? {
          return Err(Unsupported), plan;
        }
        ResolvedGood(c0, body, state, args);
        if operator.CallOp? {
          r, next := CompileCall(body, v, operator.func, args, results, values.value, state, plan, stack);
        } else if operator.StoreOp? {
          r := CompileStore(body, v, operator, args, results, values.value, state, plan.Left());
        } else {
          r := CompileValue(body, v, operator, args, results, values.value, state, plan.Left());
        }
      case PickOutput(from, index, ty) =>
        r := CompilePick(body, v, state, plan.Left());
      case Alias(to) =>
        var value := Operand(body, state.values, to);
        if value.None? {
          return Err(Unsupported), plan;
        }
        r := Ok(state.(values := state.values[v := value.value]));
        AliasRuns(m, body, v, state, plan.Left(), c0);
      case NoDef =>
        r := Ok(state);
        NoDefRuns(m, body, v, state, plan.Left(), c0);
    }

    /** A direct call is inlined: the callee is compiled on the caller's path. */
    method CompileCall(body: Body, v: ValueId, f: FuncId, ghost args: seq<ValueId>, ghost results: seq<Ty>, values: seq<Value>,
                       state: State, plan: Plan, stack: seq<FuncId>)
      returns (r: Result<State>, next: Plan)
      requires StateGood(emitter.circuit, state) && plan.Left() >= 0 && AllGood(emitter.circuit, values)
      requires body.Def(v) == OpValue(CallOp(f), args, results) && Operands(body, state.values, args, |args|) == Some(values)
      modifies this, emitter
      ensures Keeps(old(emitter.circuit), emitter.circuit)
      ensures r.Ok? ==> 0 <= next.Left() <= plan.Left() && StateGood(emitter.circuit, r.value) && r.value.active == state.active
      ensures r.Ok? ==> Quiet(old(emitter.circuit), emitter.circuit, state.active)
      ensures r.Ok? ==> InstRuns(m, body, v, state, plan.Left(), old(emitter.circuit), emitter.circuit, r.value)
      decreases plan.Left(), 3
    {
      hide *;
      ghost var c0 := emitter.circuit;
      StateParts(c0, state);
      var result;
      result, next := CompileFunction(f, values, state.globals, state.active, plan, stack);
      if result.Err? {
        return Err(result.error), next;
      }
      var done := result.value;
      var defined := if done.outputs == [] then state.values else state.values[v := CallValue(done.outputs)];
      r := Ok(state.(values := defined, globals := done.globals));
      CallRuns(m, body, v, f, args, results, values, state, plan.Left(), c0, emitter.circuit, done);
    }

    method CompileStore(body: Body, v: ValueId, operator: Operator, ghost args: seq<ValueId>, ghost results: seq<Ty>,
                        values: seq<Value>, state: State, ghost left: int)
      returns (r: Result<State>)
      requires StateGood(emitter.circuit, state) && AllGood(emitter.circuit, values) && operator.StoreOp?
      requires body.Def(v) == OpValue(operator, args, results) && Operands(body, state.values, args, |args|) == Some(values)
      modifies emitter
      ensures Keeps(old(emitter.circuit), emitter.circuit)
      ensures r.Ok? ==> r.value == state && StateGood(emitter.circuit, state)
      ensures r.Ok? ==> Quiet(old(emitter.circuit), emitter.circuit, state.active)
      ensures r.Ok? ==> InstRuns(m, body, v, state, left, old(emitter.circuit), emitter.circuit, state)
    {
      hide *;
      ghost var c0 := emitter.circuit;
      KeepsReflexive(c0);
      StateParts(c0, state);
      if |values| < 2 {
        return Err(Unsupported);
      }
      PairGood(c0, values);
      var stored := Store(operator.storage, values[0], values[1], operator.offset, operator.bytes, state.active);
      if stored.Err? {
        return Err(stored.error);
      }
      r := Ok(state);
      StoreRuns(m, body, v, operator, args, results, values, state, left, c0, emitter.circuit);
    }

    /** Every other operator: its value, or a global, changes; memory does not. */
    method CompileValue(body: Body, v: ValueId, operator: Operator, ghost args: seq<ValueId>, results: seq<Ty>,
                        values: seq<Value>, state: State, ghost left: int)
      returns (r: Result<State>)
      requires StateGood(emitter.circuit, state) && AllGood(emitter.circuit, values) && !operator.CallOp? && !operator.StoreOp?
      requires body.Def(v) == OpValue(operator, args, results) && Operands(body, state.values, args, |args|) == Some(values)
      modifies emitter
      ensures Keeps(old(emitter.circuit), emitter.circuit)
      ensures r.Ok? ==> StateGood(emitter.circuit, r.value) && r.value.active == state.active
      ensures r.Ok? ==> Quiet(old(emitter.circuit), emitter.circuit, state.active)
      ensures r.Ok? ==> InstRuns(m, body, v, state, left, old(emitter.circuit), emitter.circuit, r.value)
    {
      hide *;
      ghost var c0 := emitter.circuit;
      KeepsReflexive(c0);
      StateParts(c0, state);
      if operator.NopOp? {
        r := Ok(state);
        NopRuns(m, body, v, args, results, values, state, left, c0);
      } else if operator.GlobalSetOp? {
        var globals := NewGlobals(m, operator.global, values, state.globals);
        if globals.None? {
          return Err(Malformed);
        }
        r := Ok(state.(globals := globals.value));
        GlobalSetRuns(m, body, v, operator.global, args, results, values, state, left, c0);
      } else if operator.LoadOp? {
        if |values| < 1 {
          return Err(Unsupported);
        }
        FirstGood(c0, values);
        var value := Load(operator.storage, values[0], operator.offset, operator.bytes, operator.ty, operator.signed);
        PureKeeps(c0, emitter.circuit);
        if value.Err? {
          return Err(value.error);
        }
        r := Ok(state.(values := state.values[v := value.value]));
        LoadRuns(m, body, v, operator, args, results, values, state, left, c0, emitter.circuit, value.value);
      } else {
        var value := LowerPure(operator, values, results, state.globals);
        PureKeeps(c0, emitter.circuit);
        if value.Err? {
          return Err(value.error);
        }
        r := Ok(state.(values := state.values[v := value.value]));
        PureRuns(m, body, v, operator, args, results, values, state, left, c0, emitter.circuit, value.value);
      }
    }

    /** Output `index` of a call, cut out of the word of all outputs. */
    method CompilePick(body: Body, v: ValueId, state: State, ghost left: int) returns (r: Result<State>)
      requires StateGood(emitter.circuit, state) && body.Def(v).PickOutput?
      ensures r.Ok? ==> StateGood(emitter.circuit, r.value) && r.value.active == state.active
      ensures r.Ok? ==> InstRuns(m, body, v, state, left, emitter.circuit, emitter.circuit, r.value)
      ensures Quiet(emitter.circuit, emitter.circuit, state.active)
    {
      hide *;
      KeepsReflexive(emitter.circuit);
      var def := body.Def(v);
      var source, width := Operand(body, state.values, def.from), Width(def.ty);
      var start := if body.Def(def.from).OpValue? then OutputOffset(body.Def(def.from).results, def.index) else None;
      if source.None? || width.None? || start.None? || start.value + width.value > |source.value.bits| {
        return Err(Malformed);
      }
      r := Ok(state.(values := state.values[v := Picked(source.value, start.value, width.value)]));
      PickRuns(m, body, v, state, left, emitter.circuit, source.value, start.value, width.value);
    }

    method CompileTerminator(f: FuncId, body: Body, end: Terminator, state: State, plan: Plan, stack: seq<FuncId>)
      returns (r: Result<ResultState>, next: Plan)
      requires StateGood(emitter.circuit, state) && plan.Left() >= 0
      modifies this, emitter
      ensures Keeps(old(emitter.circuit), emitter.circuit)
      ensures r.Ok? ==> 0 <= next.Left() <= plan.Left() && ResultGood(emitter.circuit, r.value)
      ensures r.Ok? ==> Quiet(old(emitter.circuit), emitter.circuit, state.active)
      ensures r.Ok? ==> EndRuns(m, body, end, state, plan.Left(), old(emitter.circuit), emitter.circuit, r.value)
      decreases plan.Left(), 4
    {
      hide *;
      ghost var c0 := emitter.circuit;
      KeepsReflexive(c0);
      StateParts(c0, state);
      next := plan;
      match end
      case Br(target) =>
        r, next := CompileTarget(f, body, target, state, plan, stack);
        if r.Ok? {
          BrRuns(m, body, end, state, plan.Left(), c0, emitter.circuit, r.value);
        }
      case CondBr(cond, ifTrue, ifFalse) =>
        var condition := Operand(body, state.values, cond);
        if condition.None? {
          return Err(Unsupported), plan;
        }
        ConditionGood(c0, body, state, cond);
        var bit := TruthBit(condition.value);
        ghost var c1 := emitter.circuit;
        PureKeeps(c0, c1);
        StateKept(c0, c1, state);
        BitVarBound(c1, bit);
        if condition.value.known.Some? {
          var target := if condition.value.known.value == 0 then ifFalse else ifTrue;
          r, next := CompileTarget(f, body, target, state, plan, stack);
          KeepsTransitive(c0, c1, emitter.circuit);
          if r.Ok? {
            QuietTransitiveAfter(c0, c1, emitter.circuit, state.active);
            KnownBranchRuns(m, body, end, state, condition.value, plan.Left(), c0, c1, emitter.circuit, r.value);
          }
        } else {
          r := CompileArms(f, body, bit, ifTrue, ifFalse, state, plan, stack);
          KeepsTransitive(c0, c1, emitter.circuit);
          if r.Ok? {
            QuietTransitiveAfter(c0, c1, emitter.circuit, state.active);
            ArmsRun(m, body, end, state, condition.value, bit, plan.Left(), c0, c1, emitter.circuit, r.value);
          }
        }
      case Return(values) =>
        var outputs := Operands(body, state.values, values, |values|);
        if outputs.None? {
          return Err(Unsupported), plan;
        }
        r := Ok(ResultState(outputs.value, state.globals));
        ReturnRuns(m, body, end, state, outputs.value, plan.Left(), c0);
      case ReturnCall(g, args) =>
        var values := Operands(body, state.values, args, |args|);
        if values.None? {
          return Err(Unsupported), plan;
        }
        ResolvedGood(c0, body, state, args);
        r, next := CompileFunction(g, values.value, state.globals, state.active, plan, stack);
        if r.Ok? {
          ReturnCallRuns(m, body, end, state, values.value, plan.Left(), c0, emitter.circuit, r.value);
        }
      case Unreachable =>
        var zeros := ConstantZeros(body.rets);
        PureKeeps(c0, emitter.circuit);
        if zeros.Err? {
          return Err(zeros.error), plan;
        }
        r := Ok(ResultState(zeros.value, state.globals));
        UnreachableRuns(m, body, end, state, zeros.value, plan.Left(), c0, emitter.circuit);
      case UnsupportedTerminator =>
        r := Err(Unsupported);
    }

    method CompileTarget(f: FuncId, body: Body, target: Target, state: State, plan: Plan, stack: seq<FuncId>)
      returns (r: Result<ResultState>, next: Plan)
      requires StateGood(emitter.circuit, state) && plan.Left() >= 0
      modifies this, emitter
      ensures Keeps(old(emitter.circuit), emitter.circuit)
      ensures r.Ok? ==> 0 <= next.Left() <= plan.Left() && ResultGood(emitter.circuit, r.value)
      ensures r.Ok? ==> Quiet(old(emitter.circuit), emitter.circuit, state.active)
      ensures r.Ok? ==> TargetRuns(m, body, target, state, plan.Left(), old(emitter.circuit), emitter.circuit, r.value)
      decreases plan.Left(), 2
    {
      hide *;
      ghost var c0 := emitter.circuit;
      KeepsReflexive(c0);
      var entry := BranchState(body, state, target);
      if entry.None? {
        return Err(Unsupported), plan;
      }
      EntryStateGood(c0, m, body, state, target);
      r, next := CompileBlock(f, body, target.block, entry.value, plan, stack);
      if r.Ok? {
        TargetFromBlock(m, body, target, state, plan.Left(), c0, emitter.circuit, r.value);
      }
    }

    /**
     An unknown condition: both arms are compiled one after the other, each under its own guard
     and from its own copy of the plan, and their results are merged.
     */
    method CompileArms(f: FuncId, body: Body, bit: Var, ifTrue: Target, ifFalse: Target, state: State, plan: Plan, stack: seq<FuncId>)
      returns (r: Result<ResultState>)
      requires StateGood(emitter.circuit, state) && plan.Left() >= 0 && bit < emitter.circuit.Size()
      modifies this, emitter
      ensures Keeps(old(emitter.circuit), emitter.circuit)
      ensures r.Ok? ==> ResultGood(emitter.circuit, r.value)
      ensures r.Ok? ==> Quiet(old(emitter.circuit), emitter.circuit, state.active)
      ensures r.Ok? ==> EitherRuns(m, body, bit, ifTrue, ifFalse, state, plan.Left(), old(emitter.circuit), emitter.circuit, r.value)
      decreases plan.Left(), 3
    {
      hide *;
      ghost var c0 := emitter.circuit;
      StateParts(c0, state);
      var thenGuard, elseGuard := BranchGuards(state.active, bit);
      ghost var c1 := emitter.circuit;
      PureKeeps(c0, c1);
      StateKept(c0, c1, state);
      var thenState, elseState := state.(active := thenGuard), state.(active := elseGuard);
      GuardedGood(c1, state, thenGuard);
      GuardedGood(c1, state, elseGuard);
      var thenResult, thenPlan := CompileTarget(f, body, ifTrue, thenState, plan, stack);
      ghost var c2 := emitter.circuit;
      KeepsTransitive(c0, c1, c2);
      if thenResult.Err? {
        return Err(thenResult.error);
      }
      StateKept(c1, c2, elseState);
      var elseResult, elsePlan := CompileTarget(f, body, ifFalse, elseState, plan, stack);
      ghost var c3 := emitter.circuit;
      KeepsTransitive(c0, c2, c3);
      if elseResult.Err? {
        return Err(elseResult.error);
      }
      KeepsTransitive(c1, c2, c3);
      ResultKept(c2, c3, thenResult.value);
      SizeGrows(c0, c3, bit);
      r := MergeResult(bit, thenResult.value, elseResult.value);
      PureKeeps(c3, emitter.circuit);
      KeepsTransitive(c0, c3, emitter.circuit);
      if r.Ok? {
        ArmsMerge(m, body, bit, ifTrue, ifFalse, state, thenGuard, elseGuard, plan.Left(), c0, c1, c2, c3, emitter.circuit,
          thenResult.value, elseResult.value, r.value);
      }
    }

    /** The path conditions of the two arms. */
    method BranchGuards(active: Var, bit: Var) returns (thenGuard: Var, elseGuard: Var)
      requires active < emitter.circuit.Size() && bit < emitter.circuit.Size()
      modifies emitter
      ensures Pure(old(emitter.circuit), emitter.circuit)
      ensures thenGuard < emitter.circuit.Size() && elseGuard < emitter.circuit.Size()
      ensures forall env {:trigger B(env, emitter.circuit, thenGuard)} ::
        B(env, emitter.circuit, thenGuard) <==> B(env, old(emitter.circuit), active) && B(env, old(emitter.circuit), bit)
      ensures forall env {:trigger B(env, emitter.circuit, elseGuard)} ::
        B(env, emitter.circuit, elseGuard) <==> B(env, old(emitter.circuit), active) && !B(env, old(emitter.circuit), bit)
    {
      hide Run, Step;
      ghost var c0 := emitter.circuit;
      thenGuard := emitter.BcAnd(active, bit);
      ghost var c1 := emitter.circuit;
      var notBit := emitter.BcNot(bit);
      ghost var c2 := emitter.circuit;
      elseGuard := emitter.BcAnd(active, notBit);
      forall env
        ensures B(env, emitter.circuit, thenGuard) <==> B(env, c0, active) && B(env, c0, bit)
        ensures B(env, emitter.circuit, elseGuard) <==> B(env, c0, active) && !B(env, c0, bit)
      {
        assert Val(env, emitter.circuit, thenGuard) == Val(env, c1, thenGuard);
        assert B(env, c1, thenGuard) == (B(env, c0, active) && B(env, c0, bit));
        assert B(env, c2, notBit) == !B(env, c1, bit) && Val(env, c1, bit) == Val(env, c0, bit);
        assert Val(env, c2, active) == Val(env, c0, active);
      }
    }

    method MergeResult(bit: Var, a: ResultState, b: ResultState) returns (r: Result<ResultState>)
      requires ResultGood(emitter.circuit, a) && ResultGood(emitter.circuit, b) && bit < emitter.circuit.Size()
      modifies emitter
      ensures Pure(old(emitter.circuit), emitter.circuit)
      ensures r.Ok? ==> ResultGood(emitter.circuit, r.value)
      ensures r.Ok? ==> forall env {:trigger DoneOf(env, emitter.circuit, r.value)} ::
        DoneOf(env, emitter.circuit, r.value)
          == DoneOf(env, old(emitter.circuit), if B(env, old(emitter.circuit), bit) then a else b)
    {
      hide Run, Step, AllGood, Words, B;
      ghost var c0 := emitter.circuit;
      PureReflexive(c0);
      if |a.outputs| != |b.outputs| || |a.globals| != |b.globals| {
        return Err(Unsupported);
      }
      var outputs := SelectAll(bit, a.outputs, b.outputs);
      if outputs.Err? {
        return Err(outputs.error);
      }
      ghost var c1 := emitter.circuit;
      AllKept(c0, c1, a.globals);
      AllKept(c0, c1, b.globals);
      var globals := SelectAll(bit, a.globals, b.globals);
      if globals.Err? {
        return Err(globals.error);
      }
      AllKept(c1, emitter.circuit, outputs.value);
      r := Ok(ResultState(outputs.value, globals.value));
      forall env
        ensures DoneOf(env, emitter.circuit, r.value) == DoneOf(env, c0, if B(env, c0, bit) then a else b)
      {
        BitKept(env, c0, c1, bit);
        assert Words(env, emitter.circuit, outputs.value) == Words(env, c1, outputs.value);
        assert Words(env, c1, a.globals) == Words(env, c0, a.globals) && Words(env, c1, b.globals) == Words(env, c0, b.globals);
        assert M(env, emitter.circuit) == M(env, c1) == M(env, c0);
      }
    }

    method SelectAll(bit: Var, a: seq<Value>, b: seq<Value>) returns (r: Result<seq<Value>>)
      requires AllGood(emitter.circuit, a) && AllGood(emitter.circuit, b) && |a| == |b| && bit < emitter.circuit.Size()
      modifies emitter
      ensures Pure(old(emitter.circuit), emitter.circuit)
      ensures r.Ok? ==> AllGood(emitter.circuit, r.value) && |r.value| == |a|
      ensures r.Ok? ==> forall env {:trigger Words(env, emitter.circuit, r.value)} ::
        Words(env, emitter.circuit, r.value)
          == Words(env, old(emitter.circuit), if B(env, old(emitter.circuit), bit) then a else b)
    {
      hide Run, Step, Word, Good, B;
      ghost var c0 := emitter.circuit;
      var out: seq<Value> := [];
      for i := 0 to |a|
        invariant Pure(c0, emitter.circuit) && |out| == i && AllGood(emitter.circuit, out)
        invariant forall env {:trigger Words(env, emitter.circuit, out)} ::
          Words(env, emitter.circuit, out) == Words(env, c0, if B(env, c0, bit) then a else b)[..i]
      {
        ghost var c1 := emitter.circuit;
        if |a[i].bits| != |b[i].bits| {
          return Err(Malformed);
        }
        GoodKept(c0, c1, a[i]);
        GoodKept(c0, c1, b[i]);
        var value := Select(bit, a[i], b[i]);
        AllKept(c1, emitter.circuit, out);
        forall env
          ensures Words(env, emitter.circuit, out + [value]) == Words(env, c0, if B(env, c0, bit) then a else b)[..i + 1]
        {
          WordsSnoc(env, emitter.circuit, out, value);
          assert Words(env, emitter.circuit, out) == Words(env, c1, out);
          BitKept(env, c0, c1, bit);
          assert Word(env, c1, a[i].bits) == Word(env, c0, a[i].bits) && Word(env, c1, b[i].bits) == Word(env, c0, b[i].bits);
        }
        out := out + [value];
      }
      r := Ok(out);
    }

    method ConstantZeros(rets: seq<Ty>) returns (r: Result<seq<Value>>)
      modifies emitter
      ensures Pure(old(emitter.circuit), emitter.circuit)
      ensures r.Ok? ==> AllGood(emitter.circuit, r.value)
      ensures r.Ok? ==> forall env {:trigger Words(env, emitter.circuit, r.value)} ::
        Zeros(rets, |rets|) == Some(Words(env, emitter.circuit, r.value))
    {
      hide Run, Step, Word, Good, Digits;
      ghost var c0 := emitter.circuit;
      var out: seq<Value> := [];
      for i := 0 to |rets|
        invariant Pure(c0, emitter.circuit) && |out| == i && AllGood(emitter.circuit, out)
        invariant forall env {:trigger Words(env, emitter.circuit, out)} ::
          Zeros(rets, i) == Some(Words(env, emitter.circuit, out))
      {
        ghost var c1 := emitter.circuit;
        var value := Constant(rets[i], 0);
        if value.Err? {
          return Err(value.error);
        }
        AllKept(c1, emitter.circuit, out);
        forall env ensures Zeros(rets, i + 1) == Some(Words(env, emitter.circuit, out + [value.value])) {
          WordsSnoc(env, emitter.circuit, out, value.value);
          assert Words(env, emitter.circuit, out) == Words(env, c1, out);
        }
        out := out + [value.value];
      }
      r := Ok(out);
    }
  }

  // ---------------------------------------------------------------- the whole import

  /** The imported circuit and the variables of its outputs. */
  datatype Artifact = Artifact(circuit: Circuit, outputs: seq<Var>)

  /** Total width of the first `n` parameters. */
  function InputWidth(params: seq<Param>, n: nat): nat
    requires n <= |params|
  {
    if n == 0 then 0
    else InputWidth(params, n - 1) + (if Width(params[n - 1].ty).Some? then Width(params[n - 1].ty).value else 0)
  }

  /** The arguments the free input bits stand for, in order. */
  function EntryArgs(inputs: Bits, params: seq<Param>, n: nat): (r: seq<Bits>)
    requires n <= |params|
    ensures |r| == n
  {
    if n == 0 then []
    else
      var start, width := InputWidth(params, n - 1), Width(params[n - 1].ty);
      EntryArgs(inputs, params, n - 1)
        + [seq(if width.Some? then width.value else 0, i requires 0 <= i => BitAt(inputs, start + i))]
  }

  /** The initial values of the mutable globals among the first `n`. */
  function InitialGlobals(globals: seq<GlobalDecl>, n: nat): seq<Bits>
    requires n <= |globals|
  {
    if n == 0 then []
    else
      var before, last := InitialGlobals(globals, n - 1), globals[n - 1];
      if last.mutable && Width(last.ty).Some? then before + [Digits(last.init, Width(last.ty).value)] else before
  }

  /**
   On the inputs and the initial memory of `env`, running the circuit gives the outputs and the final
   memory of running the program, which ends within `limit` nested or successive blocks.
   */
  ghost predicate FaithfulAt(env: Env, m: Module, entry: FuncId, limit: nat, a: Artifact)
    requires m.BodyOf(entry).Some? && m.BodyOf(entry).value.entry < |m.BodyOf(entry).value.blocks|
  {
    var params := m.BodyOf(entry).value.blocks[m.BodyOf(entry).value.entry].params;
    var args, globals := EntryArgs(env.inputs, params, |params|), InitialGlobals(m.globals, |m.globals|);
    forall fuel: nat {:trigger RunFunction(fuel, m, entry, args, globals, env.mem)} | fuel >= limit ::
      var run := RunFunction(fuel, m, entry, args, globals, env.mem);
      run.Some? && Word(env, a.circuit, a.outputs) == ConcatAll(run.value.outputs) && M(env, a.circuit) == run.value.mem
  }

  ghost predicate Faithful(m: Module, entry: FuncId, limit: nat, a: Artifact)
    requires m.BodyOf(entry).Some? && m.BodyOf(entry).value.entry < |m.BodyOf(entry).value.blocks|
  {
    forall env: Env :: FaithfulAt(env, m, entry, limit, a)
  }

  /** Wherever no gate loses a monomial it needed, what is held is as faithful as what was asked for. */
  lemma HeldFaithful(env: Env, m: Module, entry: FuncId, limit: nat, c: Circuit, outputs: seq<Var>)
    requires m.BodyOf(entry).Some? && m.BodyOf(entry).value.entry < |m.BodyOf(entry).value.blocks|
    requires Harmless(env, c) && FaithfulAt(env, m, entry, limit, Artifact(c, outputs))
    ensures FaithfulAt(env, m, entry, limit, Artifact(Stored(c), outputs))
  {
    hide *;
    HarmlessRuns(env, c);
    SameRun(env, m, entry, limit, c, Stored(c), outputs);
  }

  lemma SameRun(env: Env, m: Module, entry: FuncId, limit: nat, c: Circuit, d: Circuit, outputs: seq<Var>)
    requires m.BodyOf(entry).Some? && m.BodyOf(entry).value.entry < |m.BodyOf(entry).value.blocks|
    requires Run(env, d) == Run(env, c) && FaithfulAt(env, m, entry, limit, Artifact(c, outputs))
    ensures FaithfulAt(env, m, entry, limit, Artifact(d, outputs))
  {
    hide Run, RunFunction, EntryArgs, InitialGlobals, ConcatAll;
    assert Word(env, d, outputs) == Word(env, c, outputs) && M(env, d) == M(env, c);
  }

  /** The free bits of one parameter. */
  function InputBits(start: nat, width: nat): (bits: seq<Var>)
    ensures |bits| == width
  {
    seq(width, i requires 0 <= i => start + i)
  }

  /** Argument `j` consists of the free bits of parameter `j`. */
  predicate IsInput(params: seq<Param>, args: seq<Value>, j: nat)
    requires j < |params| && j < |args|
  {
    Width(params[j].ty).Some? && args[j] == Value(InputBits(InputWidth(params, j), Width(params[j].ty).value), None)
  }

  predicate AreInputs(params: seq<Param>, args: seq<Value>) {
    |args| <= |params| && forall j | 0 <= j < |args| :: IsInput(params, args, j)
  }

  method EntryValues(emitter: Emitter, params: seq<Param>) returns (r: Result<seq<Value>>)
    requires emitter.circuit == Circuit(0, [])
    modifies emitter
    ensures (forall n: nat | n < |params| :: Width(params[n].ty).Some?) ==> r.Ok?
    ensures r.Ok? ==> emitter.circuit == Circuit(InputWidth(params, |params|), [])
    ensures r.Ok? ==> AllGood(emitter.circuit, r.value) && |r.value| == |params|
    ensures r.Ok? ==> forall env {:trigger Words(env, emitter.circuit, r.value)} ::
      Words(env, emitter.circuit, r.value) == EntryArgs(env.inputs, params, |params|)
  {
    var args: seq<Value> := [];
    for n := 0 to |params|
      invariant emitter.circuit == Circuit(InputWidth(params, n), []) && |args| == n
      invariant AreInputs(params, args)
    {
      var width := Width(params[n].ty);
      if width.None? {
        return Err(Unsupported);
      }
      var bits: seq<Var> := [];
      for i := 0 to width.value
        invariant emitter.circuit == Circuit(InputWidth(params, n) + i, [])
        invariant bits == InputBits(InputWidth(params, n), i)
      {
        var id := emitter.Param();
        bits := bits + [id];
      }
      ghost var before := args;
      args := args + [WithBits(bits, None)];
      forall j | 0 <= j < n + 1 ensures IsInput(params, args, j) {
        if j < n {
          assert IsInput(params, before, j);
        }
      }
    }
    r := Ok(args);
    EntryValuesGood(params, args);
    forall env ensures Words(env, emitter.circuit, args) == EntryArgs(env.inputs, params, |params|) {
      EntryWords(env, params, args, |params|);
      assert args[..|params|] == args;
    }
  }

  lemma {:induction false} WidthsGrow(params: seq<Param>, j: nat, n: nat)
    requires j <= n <= |params|
    ensures InputWidth(params, j) <= InputWidth(params, n)
    decreases n
  {
    if j < n {
      WidthsGrow(params, j, n - 1);
    }
  }

  lemma EntryValuesGood(params: seq<Param>, args: seq<Value>)
    requires AreInputs(params, args) && |args| == |params|
    ensures AllGood(Circuit(InputWidth(params, |params|), []), args)
  {
    hide Run;
    forall j | 0 <= j < |params| ensures Good(Circuit(InputWidth(params, |params|), []), args[j]) {
      assert IsInput(params, args, j);
      WidthsGrow(params, j + 1, |params|);
    }
  }

  lemma {:induction false} EntryWords(env: Env, params: seq<Param>, args: seq<Value>, n: nat)
    requires n <= |params| == |args| && AreInputs(params, args)
    ensures Words(env, Circuit(InputWidth(params, |params|), []), args[..n]) == EntryArgs(env.inputs, params, n)
  {
    hide Run;
    if n > 0 {
      var c := Circuit(InputWidth(params, |params|), []);
      EntryWords(env, params, args, n - 1);
      assert IsInput(params, args, n - 1);
      assert args[..n] == args[..n - 1] + [args[n - 1]];
      WordsSnoc(env, c, args[..n - 1], args[n - 1]);
      WidthsGrow(params, n, |params|);
      InputWord(env, c.params, InputWidth(params, n - 1), Width(params[n - 1].ty).value);
    }
  }

  lemma InputWord(env: Env, params: nat, start: nat, width: nat)
    requires start + width <= params
    ensures Word(env, Circuit(params, []), InputBits(start, width))
      == seq(width, i requires 0 <= i => BitAt(env.inputs, start + i))
  {
  }

  method GlobalValues(compiler: Compiler) returns (r: Result<seq<Value>>)
    modifies compiler.emitter
    ensures Pure(old(compiler.emitter.circuit), compiler.emitter.circuit)
    ensures r.Ok? ==> AllGood(compiler.emitter.circuit, r.value)
    ensures r.Ok? ==> forall env {:trigger Words(env, compiler.emitter.circuit, r.value)} ::
      Words(env, compiler.emitter.circuit, r.value) == InitialGlobals(compiler.m.globals, |compiler.m.globals|)
  {
    hide Run, Step, Word, Good, Digits;
    var emitter, decls := compiler.emitter, compiler.m.globals;
    ghost var c0 := emitter.circuit;
    var out: seq<Value> := [];
    for i := 0 to |decls|
      invariant Pure(c0, emitter.circuit) && AllGood(emitter.circuit, out)
      invariant forall env {:trigger Words(env, emitter.circuit, out)} ::
        Words(env, emitter.circuit, out) == InitialGlobals(decls, i)
    {
      if decls[i].mutable {
        ghost var c1 := emitter.circuit;
        var value := compiler.Constant(decls[i].ty, decls[i].init);
        if value.Err? {
          return Err(value.error);
        }
        AllKept(c1, emitter.circuit, out);
        forall env ensures Words(env, emitter.circuit, out + [value.value]) == InitialGlobals(decls, i + 1) {
          WordsSnoc(env, emitter.circuit, out, value.value);
          assert Words(env, emitter.circuit, out) == Words(env, c1, out);
        }
        out := out + [value.value];
      }
    }
    r := Ok(out);
  }

  lemma NoAddress(base: Bits, offset: nat)
    requires offset != 0 && |base| != 32
    ensures EffectiveAddress(base, offset) == None
  {
  }

  lemma NoCell(m: Module, storage: nat, address: Bits, k: nat)
    requires !((k == 0 || |address| == 32) && m.addressBits <= |address|)
    ensures ByteCell(m, storage, address, k) == None
  {
  }

  /** Without the cell of one byte nothing is loaded. */
  lemma {:induction false} NoBytesWithout(m: Module, mem: Memory, storage: nat, address: Bits, k: nat, n: nat)
    requires k < n && ByteCell(m, storage, address, k) == None
    ensures LoadBytes(m, mem, storage, address, n) == None
    decreases n
  {
    hide ByteCell;
    if k < n - 1 {
      NoBytesWithout(m, mem, storage, address, k, n - 1);
    }
  }

  /**
   Import one function of a module. `requested` is the circuit as the gates asked for it; the
   artifact holds it as it is stored, and is faithful when no gate combined a monomial with itself.
   */
  method Import(m: Module, entry: FuncId, limit: nat, depthLimit: nat) returns (r: Result<Artifact>, ghost requested: Circuit)
    ensures r.Ok? ==> m.BodyOf(entry).Some? && m.BodyOf(entry).value.entry < |m.BodyOf(entry).value.blocks|
    ensures r.Ok? ==> r.value.circuit == Stored(requested)
    ensures r.Ok? ==> Faithful(m, entry, limit, Artifact(requested, r.value.outputs))
    ensures r.Ok? ==> forall env | Harmless(env, requested) :: FaithfulAt(env, m, entry, limit, r.value)
    ensures r.Ok? && NoRepeats(requested) ==> Faithful(m, entry, limit, r.value)
  {
    hide *;
    requested := Circuit(0, []);
    var found := m.BodyOf(entry);
    if found.None? {
      return Err(ImportedFunction), requested;
    }
    var body := found.value;
    if body.entry >= |body.blocks| {
      return Err(Malformed), requested;
    }
    var compiler := new Compiler(m);
    var args := EntryValues(compiler.emitter, body.blocks[body.entry].params);
    if args.Err? {
      return Err(args.error), requested;
    }
    ghost var c0 := compiler.emitter.circuit;
    var globals := GlobalValues(compiler);
    if globals.Err? {
      return Err(globals.error), requested;
    }
    ghost var c1 := compiler.emitter.circuit;
    PureKeeps(c0, c1);
    AllKept(c0, c1, args.value);
    var active := compiler.emitter.BcConst(true);
    ghost var c2 := compiler.emitter.circuit;
    PureKeeps(c1, c2);
    AllKept(c1, c2, args.value);
    AllKept(c1, c2, globals.value);
    BitVarBound(c2, active);
    var plan := Plan({}, limit, 0, depthLimit);
    StartLeft(plan);
    var result, rest := compiler.CompileFunction(entry, args.value, globals.value, active, plan, []);
    requested := compiler.emitter.circuit;
    if result.Err? {
      return Err(result.error), requested;
    }
    var outputs := ConcatBits(result.value.outputs);
    r := Ok(Artifact(Stored(compiler.emitter.circuit), outputs));
    WholeRun(m, entry, limit, args.value, globals.value, active, c0, c1, c2, requested, result.value);
    ImportedHolds(m, entry, limit, requested, outputs);
  }

  lemma ImportedHolds(m: Module, entry: FuncId, limit: nat, requested: Circuit, outputs: seq<Var>)
    requires m.BodyOf(entry).Some? && m.BodyOf(entry).value.entry < |m.BodyOf(entry).value.blocks|
    requires Faithful(m, entry, limit, Artifact(requested, outputs))
    ensures forall env | Harmless(env, requested) :: FaithfulAt(env, m, entry, limit, Artifact(Stored(requested), outputs))
    ensures NoRepeats(requested) ==> Faithful(m, entry, limit, Artifact(Stored(requested), outputs))
  {
    hide Stored, Harmless, NoRepeats, FaithfulAt;
    forall env | Harmless(env, requested) ensures FaithfulAt(env, m, entry, limit, Artifact(Stored(requested), outputs)) {
      assert FaithfulAt(env, m, entry, limit, Artifact(requested, outputs));
      HeldFaithful(env, m, entry, limit, requested, outputs);
    }
    if NoRepeats(requested) {
      forall env: Env ensures FaithfulAt(env, m, entry, limit, Artifact(Stored(requested), outputs)) {
        NoRepeatsHarmless(env, requested);
      }
    }
  }

  lemma StartLeft(plan: Plan)
    requires plan.entered == {}
    ensures plan.Left() == plan.limit
  {
  }

  lemma WholeRun(m: Module, entry: FuncId, limit: nat, args: seq<Value>, globals: seq<Value>, active: Var,
                 c0: Circuit, c1: Circuit, c2: Circuit, c: Circuit, result: ResultState)
    requires m.BodyOf(entry).Some? && m.BodyOf(entry).value.entry < |m.BodyOf(entry).value.blocks|
    requires c0.stmts == [] && AllGood(c0, args) && Pure(c0, c1) && AllGood(c1, globals) && Pure(c1, c2)
    requires var params := m.BodyOf(entry).value.blocks[m.BodyOf(entry).value.entry].params;
      forall env {:trigger Words(env, c0, args)} :: Words(env, c0, args) == EntryArgs(env.inputs, params, |params|)
    requires forall env {:trigger Words(env, c1, globals)} :: Words(env, c1, globals) == InitialGlobals(m.globals, |m.globals|)
    requires forall env {:trigger B(env, c2, active)} :: B(env, c2, active) == true
    requires ResultGood(c, result) && FunctionRuns(m, entry, args, globals, active, limit, c2, c, result)
    ensures Faithful(m, entry, limit, Artifact(c, ConcatBits(result.outputs)))
  {
    hide AllGood, Words, RunFunction, B, EntryArgs, InitialGlobals, ConcatBits, ConcatAll, Word;
    var params := m.BodyOf(entry).value.blocks[m.BodyOf(entry).value.entry].params;
    AllKept(c0, c1, args);
    AllKept(c1, c2, args);
    AllKept(c1, c2, globals);
    forall env: Env, fuel: nat | fuel >= limit
      ensures
        var run := RunFunction(fuel, m, entry, EntryArgs(env.inputs, params, |params|), InitialGlobals(m.globals, |m.globals|), env.mem);
        run.Some? && Word(env, c, ConcatBits(result.outputs)) == ConcatAll(run.value.outputs) && M(env, c) == run.value.mem
    {
      assert Words(env, c2, args) == Words(env, c1, args) == Words(env, c0, args);
      assert Words(env, c2, globals) == Words(env, c1, globals);
      assert M(env, c2) == M(env, c1) == M(env, c0) == env.mem;
      assert B(env, c2, active);
      assert RunFunction(fuel, m, entry, Words(env, c2, args), Words(env, c2, globals), M(env, c2)) == Some(DoneOf(env, c, result));
      ConcatBitsWord(env, c, result.outputs);
    }
  }
}
