# Verified models of the Volar IR compiler

Volar compiles programs through circuit-shaped intermediate representations: it imports WebAssembly into
straight-line circuits, lowers block graphs back to WebAssembly, C, LLVM and EVM bytecode, computes in prime and
extension fields, exchanges circuits as Bristol Fashion text, and brings its own allocator. These modules model
eight of those components and prove what each is for. Code that changes state in place is a class or a method with
loops, proved against a specification function or an outright property; code made of expressions is functions
and lemmas.

- **WebAssembly to circuits** (`WasmProgram`, `WasmValues`, `WasmSteps`, `WasmImport`, `WasmDoubling`, over the gates of
  `VCircuit`, `BitCircuits`, `BitDivision`, `Karatsuba`, `PolyCoeffs`). Symbolic execution of a block graph: both arms
  of an unknown branch are emitted, stores are guarded by the path condition, results are merged, calls are inlined.
  `WasmImport.Import` is the compiler-correctness theorem. The gates are those the importer calls, down to the
  recursive Karatsuba multiplier, and the divider beside them. Every gate is stated twice: what it asks for, and
  exactly when that is also what the polynomial store holds.
- **Block graphs to WebAssembly** (`WasmMachine`, `BlockProgram`, `WasmTyping`, `WasmStraight`, `WasmLimbs`,
  `WasmConvert`, `WasmShift`, `WasmShiftExact`, `WasmOps`, `WasmLowering`, `WasmEmission`, `LirTypes`,
  `WasmComponents`, `BuilderDiscipline`, `FunctionBuilder`). A loop around nested blocks and a branch table on a
  program counter simulates the block program under the label semantics of sections 4.4.5 and 4.4.6 of the WebAssembly
  Core Specification 1.0. `FunctionBuilder.FunctionState.Runs` goes from the calls that build a function to what a
  call of its code does; `WasmLowering.FunctionSimulates` is the simulation, and `WasmTyping.NeverRefused` the type
  soundness it rests on. Packed integers are added, subtracted and shifted limb by limb, vectors lane by lane.
- **C expression folding** (`CProgram`, `CFolding`, `CRender`, `CPreserve`, `CFaithful`, `CExact`). Use counting,
  dropping of dead definitions, folding of single uses, edge assignment with hazard checks: `CFaithful.RenderFunction`
  for whole runs under a condition, `CExact.StatementExactly` for each statement exactly.
- **Prime fields** (`Numbers`, `Solinas`, `PrimePoly`, `NumberTheory`, `Primality`, `Pseudoprime`, `PrimeWords`). Digit
  circuits modulo 2^k - n over any native field, lane-wise polynomials, 256-bit modular arithmetic and Miller-Rabin,
  with the number theory it rests on proved from the definition of a prime, and the limb arithmetic the C and LLVM
  backends emit instead.
- **Extension fields** (`FieldTower`, `FieldPolynomials`, `FieldArithmetic`, `FieldInverse`, `FieldBackends`,
  `FieldSymbol`). Towers of binary fields are rings; the shift-and-add product, schoolbook product with long
  division, the emitted C loop and the emitted LLVM sequence all compute the same product; import names of field
  operations round-trip.
- **Pool allocator** (`PoolSlots`, `PoolLists`, `PoolChunk`, `PoolAllocator`, `PoolSafety`, `PoolRuns`). One invariant
  kept by every call: slots disjoint and inside their chunk, chunks apart and on one list only, counters exact, headers
  that are left right, and nothing but waiting slots on the free lists. What it does not say, because sweeping breaks it,
  is that every slot still has its header and every waiting slot its list: the contracts say exactly when they do.
- **Bristol Fashion** (`Numerals`, `BristolText`, `Bristol`, `BristolExport`, `BristolWrite`). Parsing, import into
  static single assignment form, validation, export, and the round trips through the text.
- **EVM bytecode** (`EvmMachine`, `EvmEmission`, `LanePlanner`). From a circuit to bytes: running them evaluates
  the circuit in 256 lanes at once.

How to read the statements. A circuit claim speaks of every environment: all input bits and all initial memories.
A claim about runs that may not end carries `fuel`, the number of loop back edges or block entries allowed; it is
universally quantified and both sides get the same, so it speaks of every finite part of a run and of runs that do
not end. Rust panics become error results or preconditions. Of a circuit, *asked for* is the polynomials the gates
request, *stored* what the coefficient map keeps of them.

## Findings

Where the code falls short of what it is for, the code is modelled as it is and the exact condition under which it is
right is proved, with a failing input where one is not plain from the condition:

- **Repeated monomials** (`volar-ir-common/src/lib.rs:575-593`). `PolyCoeffs::from_iter` keeps the last entry of a
  repeated monomial, so an exclusive or of a variable with itself is stored as the variable. `BitCircuits.OnItself`
  builds the failing sum, equality and select, `BitCircuits.SharedSign` the failing comparison. In any environment,
  the stored circuit has the values asked for if and only if no gate loses a monomial that mattered there
  (`PolyCoeffs.HeldExactly`); each gate's contract says when that is: `BcXor` and `BcAdd` unless a set variable meets
  itself, `BcSelect` and `BcSelectVec` unless the condition is set too, `BcEq` unless a set variable is compared with
  itself, `BcSlt` unless two negative words share their sign variable, `BcMulLow` unless a half sum of the recursion
  adds a set variable to itself, `BcUdivrem` unless a set bit of the dividend is the divisor's lowest variable.
  Subtraction, the unsigned comparisons and the schoolbook product lose nothing. The importer passes such operands: it
  adds and compares a value with itself, sign extension repeats a variable, and unchanged globals are merged with
  themselves. For a module that doubles its parameter the stored circuit is right on the input 0 only
  (`WasmDoubling.ImportDoubling`). The importer's theorem holds for the circuit asked for, and for the stored one in
  every environment that loses nothing.
- **Wide shifts** (`volar-wasm-backend/src/lib.rs:1057-1163`). A count of one or more whole limbs joins a limb that it
  should not: with four limbs 1 shifted up by 64 becomes 2^64 + 2^128 (`WasmShiftExact.FourLimbsJoined`). A count out
  of range leaves the destinations alone, which is zero only the first time the operation runs.
  `WasmShiftExact.WideShiftExactly` has the condition for every count; two limbs are always right in range.
- **Narrow integers** (`volar-wasm-backend/src/lib.rs:1199-1266`). Truncation of 64 bits does not mask to the narrow
  type and extension to 64 bits does not mask either, so a 64-bit number cut to a bit or a byte and extended again keeps
  32 bits (`LirTypes.NinthBitSurvives`; `LirTypes.TruncZextExactly`, `LirTypes.ZextExactly`, `LirTypes.SextExactly`).
- **Folded numbers** (`volar-wasm-circuit-import/src/lib.rs:689-697, 1113-1122, 1316-1321`). The known number kept by a
  signed extension is right exactly when the sign bit is clear (`WasmValues.SignedExtensionKnown`); 32-bit shifts fold
  with counts modulo 64, and arithmetic shifts with counts cut to the width less one, where the operators take them
  modulo the width (`WasmValues.FoldedToZero`; `WasmValues.KnownShiftExactly`, `WasmValues.KnownArithmeticExactly`).
  These operators are left out of the importer model.
- **Folded calls** (`volar-c-backend/src/lib.rs:1170-1229, 1474`). A call folded into an arm of a select, or into an
  argument of one edge, is lost when that arm or edge is not taken (`CFaithful.ArmLosesCall`, `CFaithful.EdgeLosesCall`).
  A statement makes the pending call exactly when it evaluates its place (`CExact.StatementExactly`).
- **Primality** (`volar-ir-common/src/prime.rs:285-293`). The bases taken for numbers below 2^64 do not decide them all:
  3825123056546413051 = 149491 * 747451 * 34233211 passes, so k = 62 with n = 786562961880974853 is admitted as a field
  (`Pseudoprime.AdmitComposite`). Primes always pass (`Primality.PrimesAreAccepted`).
- **Inverses** (`volar-ir-common/src/field.rs:782`). The power 2^w - 2 is an inverse exactly in the absence of zero
  divisors (`FieldInverse.InverseExactly`).
- **Dead pages** (`pool-alloc/src/lib.rs:331-439, 1056-1083`). A page marked dead stays marked when a later bump reaches
  it (`PoolRuns.BumpOntoDeadPage`), and requests below 16 bytes, of any size, are accounted in full when freed but short
  when served (`PoolRuns.SmallRequestsKillPage`). A sweep zeroes what it releases, and the allocator keeps its headers
  and list links there: a live slot loses its header, so that giving it back follows a null chunk pointer
  (`PoolRuns.SweepLosesHeader`), or a waiting slot is cut off its list while its page still counts it
  (`PoolRuns.SweepCutsList`). With requests of at least 16 bytes a sweep releases no byte of any slot if and only if every
  dead page has as many bytes freed as allocated (`PoolSafety.SweepHarmlessExactly`). Freeing keeps that so, and a bump
  does exactly if it lands on no page marked dead (`PoolChunk.Chunk.FreeSlot`, `PoolChunk.Chunk.TryBump`). Whatever the
  requests, every slot keeps its header and its list exactly if no such byte is on a dead page
  (`PoolChunk.Chunk.SweepDeadPages`), and a pointer is taken back exactly if its header is left
  (`PoolAllocator.Pool.Dealloc`).
- **Blocks without header** (`pool-alloc/src/lib.rs:1105-1109`). Below 1 MiB, with an alignment of 64 MiB or more, the pool
  may hand out a block of the system allocator as it is; deallocation looks for a header before it all the same. The
  result `Untagged` of `PoolAllocator.Pool.Alloc` stands for such a block.
- **Duplicate names** (`volar-wasm-backend/src/lib.rs:429-434`). Of two functions with one name a call by name reaches
  the later (`BuilderDiscipline.SiblingsReached`).

## Model

| member | source | states |
|---|---|---|
| WasmImport.Import | crates/frontends/volar-wasm-circuit-import/src/lib.rs:136-186 | For every module, entry function and control limit: if the import succeeds, then for all inputs and initial memories the circuit asked for yields the outputs and final memory of running the block graph, although both arms of every unknown branch are emitted; the stored circuit does too in every environment in which no gate loses a monomial that matters, so in all of them if none repeats one |
| WasmImport.HeldFaithful | crates/frontends/volar-wasm-circuit-import/src/lib.rs:136-186 | Where no gate of the circuit asked for loses a monomial that matters, the stored circuit is as faithful |
| WasmDoubling.ImportDoubling | crates/frontends/volar-wasm-circuit-import/src/lib.rs:136-186 | The steps of the importer for a module that adds its i32 parameter to itself: the circuit asked for is faithful, the one stored if and only if the parameter is 0 |
| WasmDoubling.DoublingRuns | crates/frontends/volar-wasm-circuit-import/src/lib.rs:136-186 | That module returns the double of its parameter and leaves memory alone |
| WasmImport.Compiler.CompileFunction | crates/frontends/volar-wasm-circuit-import/src/lib.rs:388-436 | Whatever the path condition, the emitted piece leaves memory alone when the path is inactive, and when it is active yields exactly the outputs, globals and memory of running the function; the run needs no more block entries than the plan had left |
| WasmImport.Compiler.CompileBlock | crates/frontends/volar-wasm-circuit-import/src/lib.rs:475-593 | The same for one block and everything that follows it |
| WasmImport.Compiler.CompileInst | crates/frontends/volar-wasm-circuit-import/src/lib.rs:493-519 | The same for one instruction: operators, aliases, picked results, loads, stores, globals and inlined calls |
| WasmImport.Compiler.CompileTerminator | crates/frontends/volar-wasm-circuit-import/src/lib.rs:521-592 | The same for every terminator: the known arm of a decided branch, both arms of an undecided one |
| WasmImport.Compiler.CompileArms | crates/frontends/volar-wasm-circuit-import/src/lib.rs:539-566 | Emitting both arms one after the other under complementary guards computes the arm the condition bit chooses |
| WasmImport.Compiler.CompileCall | crates/frontends/volar-wasm-circuit-import/src/lib.rs:1003-1048 | An inlined call yields what running the callee yields, and its stores stay under the caller's path condition |
| WasmImport.Compiler.MergeResult | crates/frontends/volar-wasm-circuit-import/src/lib.rs:618-644 | The merged outputs and globals are those of the arm the bit selects |
| WasmImport.Compiler.BranchGuards | crates/frontends/volar-wasm-circuit-import/src/lib.rs:539-540 | The guards are the path condition with the bit and with its negation |
| WasmImport.Compiler.Binary | crates/frontends/volar-wasm-circuit-import/src/lib.rs:674-707 | Add, subtract, multiply and the bitwise operators give the word arithmetic result, and a folded constant is the number of that word |
| WasmImport.Compiler.BinaryBits | crates/frontends/volar-wasm-circuit-import/src/lib.rs:709-741 | The gates for one binary operator compute the word operator on every run |
| WasmImport.Compiler.Compare | crates/frontends/volar-wasm-circuit-import/src/lib.rs:743-791 | Every signed and unsigned comparison gives the zero-or-one word of the comparison on numbers, folded or not |
| WasmImport.Compiler.Select | crates/frontends/volar-wasm-circuit-import/src/lib.rs:793-805 | The selected word is that of the chosen value, and a number known for both arms stays known |
| WasmImport.Compiler.TruthBit | crates/frontends/volar-wasm-circuit-import/src/lib.rs:807-814 | The bit is set exactly when the word is not zero |
| WasmImport.Compiler.ExtendZero | crates/frontends/volar-wasm-circuit-import/src/lib.rs:1113-1123 | Zero extension keeps the number and the known value |
| WasmImport.Compiler.EffectiveAddressOf | crates/frontends/volar-wasm-circuit-import/src/lib.rs:1213-1219 | The address word is base plus offset modulo its own width; a nonzero offset is refused exactly for an address that is not 32 bits wide |
| WasmImport.Compiler.Load | crates/frontends/volar-wasm-circuit-import/src/lib.rs:1125-1161 | Succeeds exactly when the load is defined for these widths, whatever the input, and yields the little-endian bytes of memory, extended as asked |
| WasmImport.Compiler.Store | crates/frontends/volar-wasm-circuit-import/src/lib.rs:1175-1211 | Memory becomes the source store's memory when the path is active and stays as it was when it is not |
| WasmImport.Compiler.LowerPure | crates/frontends/volar-wasm-circuit-import/src/lib.rs:817-1103 | A pure operator covered is accepted exactly when it has a meaning on these operands, and yields the word it means |
| WasmImport.GlobalValues | crates/frontends/volar-wasm-circuit-import/src/lib.rs:379-386 | The initial globals are their declared initial words |
| WasmSteps.ArmsMerge | crates/frontends/volar-wasm-circuit-import/src/lib.rs:539-566 | Two arms run one after the other, quiet outside their guards, merged by the bit, are one run of the chosen arm |
| WasmSteps.KnownBranchRuns | crates/frontends/volar-wasm-circuit-import/src/lib.rs:526-537 | Taking only the arm a known condition decides is right, because known numbers are the numbers of their bits |
| WasmSteps.CallRuns | crates/frontends/volar-wasm-circuit-import/src/lib.rs:1003-1048 | A call's outputs, bound as one concatenated word, agree with the call instruction's meaning |
| WasmSteps.PickRuns | crates/frontends/volar-wasm-circuit-import/src/lib.rs:503-512 | Picking result `index` by offset and width out of a call's word gives that result and its known number |
| WasmSteps.BranchRuns | crates/frontends/volar-wasm-circuit-import/src/lib.rs:595-616 | Binding block parameters is one simultaneous assignment |
| WasmValues.KnownBinaryRight | crates/frontends/volar-wasm-circuit-import/src/lib.rs:674-707 | Folding in 64-bit wrapping registers and masking agrees with word arithmetic at every width up to 64 |
| WasmValues.KnownHoldsRight | crates/frontends/volar-wasm-circuit-import/src/lib.rs:743-791 | Comparing masked 64-bit registers, signed through shift up and back, agrees with comparing words |
| WasmValues.SignedExtensionKnown | crates/frontends/volar-wasm-circuit-import/src/lib.rs:1113-1123 | The known number kept by a signed extension is the extended word's number if and only if the sign bit is clear |
| WasmValues.KnownShiftRight | crates/frontends/volar-wasm-circuit-import/src/lib.rs:689-697 | Counts below the width, and logical shifts of 64 bits, fold to the shifted number |
| WasmValues.KnownShiftExactly | crates/frontends/volar-wasm-circuit-import/src/lib.rs:689-694 | A logical shift of 32 bits, folded with a count modulo 64, is right if and only if the count so reduced is below 32 or nothing is left at the wrapped count either |
| WasmValues.FoldedToZero | crates/frontends/volar-wasm-circuit-import/src/lib.rs:689-691 | A 32-bit one shifted up by 32 folds to zero and is one |
| WasmValues.KnownArithmeticExactly | crates/frontends/volar-wasm-circuit-import/src/lib.rs:695-697 | A folded arithmetic shift by the width or more, which fills with the sign, is right if and only if the wrapped count leaves only the sign too |
| PolyCoeffs.StoredIsRequested | crates/ir/volar-ir-common/src/lib.rs:575-593 | The stored circuit is the requested one if and only if no gate repeats a monomial |
| PolyCoeffs.XorGateExact | crates/ir/volar-lir/src/circuits.rs:60-62 | The two-monomial exclusive or computes exclusive or on every run if and only if its operands differ as variables |
| PolyCoeffs.CarryGateExact | crates/ir/volar-lir/src/circuits.rs:96-110 | The three-monomial carry computes the majority on every run if and only if its operands are pairwise different or all the same variable |
| PolyCoeffs.RepeatIsLost | crates/ir/volar-ir-common/src/lib.rs:575-593 | A repeated monomial always makes the stored list shorter |
| PolyCoeffs.HeldExactly | crates/ir/volar-ir-common/src/lib.rs:575-593 | In any environment the circuit as stored has the value asked for at every variable if and only if no gate loses a monomial that changes it there |
| PolyCoeffs.HeldIsHarmless | crates/ir/volar-ir-common/src/lib.rs:575-593 | Storing a stored circuit again loses nothing |
| PolyCoeffs.NoRepeatsHarmless | crates/ir/volar-ir-common/src/lib.rs:575-593 | Without a repeated monomial nothing is lost in any environment |
| BitCircuits.OnItself | crates/ir/volar-lir/src/circuits.rs:58-94 | The failing inputs: of a set bit added to itself, compared with itself and selected against itself, what is stored is a set sum, inequality, and a choice that depends on the condition, against what was asked for |
| BitCircuits.SharedSign | crates/ir/volar-lir/src/circuits.rs:599-610 | Two words of two bits that share their sign variable: asked for is the order of their low bits, stored is that unless both are negative |
| BitCircuits.Emitter.BcXor | crates/ir/volar-lir/src/circuits.rs:60-62 | Asked for is the exclusive or; what is stored is that if and only if the operands are two variables or clear |
| BitCircuits.Emitter.BcSelect | crates/ir/volar-lir/src/circuits.rs:85-89 | Asked for is the choice; what is stored is that if and only if the arms are two variables, or the condition or the arm is clear |
| BitCircuits.Emitter.BcCarry3 | crates/ir/volar-lir/src/circuits.rs:96-104 | Asked for is the majority; what is stored is that if and only if no two operands share a monomial or not all three are set |
| BitCircuits.Emitter.BcAdd | crates/ir/volar-lir/src/circuits.rs:112-132 | The ripple adder asks for the low bits of the sum with carry in, and stores them if and only if no position adds a set variable to itself |
| BitCircuits.SumNumber | crates/ir/volar-lir/src/circuits.rs:112-132 | Those bits are the sum modulo two to the width, and with the carry that leaves the top they are the whole sum |
| BitCircuits.Emitter.BcSub | crates/ir/volar-lir/src/circuits.rs:257-260 | Adding the complement with carry in subtracts modulo two to the width, for every pair of words, and loses nothing when stored |
| BitCircuits.Emitter.BcMulLow | crates/ir/volar-lir/src/circuits.rs:292-375 | At any width and any number of wanted columns the recursive Karatsuba multiplier asks for the product modulo two to the columns; it loses nothing if and only if, all through the recursion, no half sum adds a set variable to itself, and then the product is what is stored |
| BitCircuits.Emitter.Schoolbook | crates/ir/volar-lir/src/circuits.rs:300-322 | The base case adds shifted rows and gives the product cut to the wanted columns, and loses nothing when stored |
| BitCircuits.Emitter.SumHalves | crates/ir/volar-lir/src/circuits.rs:331-351 | The half sum is exact, one bit wider than the halves; what is stored is that sum if and only if the halves share no set variable at one position |
| BitCircuits.Emitter.Middle | crates/ir/volar-lir/src/circuits.rs:331-351 | The middle term is the product of the half sums less the two outer products |
| BitCircuits.Emitter.BcSelectVec | crates/ir/volar-lir/src/circuits.rs:652-662 | Asked for is the chosen word; stored is that if and only if at no position the condition and one variable on both arms are set |
| BitCircuits.Emitter.BcEq | crates/ir/volar-lir/src/circuits.rs:556-573 | Asked for is equality; stored is equality without a set variable compared with itself |
| BitCircuits.Emitter.BcUlt | crates/ir/volar-lir/src/circuits.rs:582-590 | Set exactly when the first number is smaller: the borrow that leaves the top; nothing is lost when stored |
| BitCircuits.Emitter.BcSlt | crates/ir/volar-lir/src/circuits.rs:599-610 | Asked for is the order of the two's-complement readings; stored is that order, except between two negative words with one sign variable, where it is never less |
| BitCircuits.Emitter.BcSle | crates/ir/volar-lir/src/circuits.rs:613-616 | Asked for is the order of the two's-complement readings; the shared sign variable fails as in the strict order |
| BitDivision.BcUdivrem | crates/ir/volar-lir/src/circuits.rs:392-434 | For every width: quotient and remainder with a = q * x + r and r < x, and all ones with the dividend for x = 0; nothing is lost if and only if no dividend bit is the divisor's lowest variable and set, and then that is what is stored |
| BitDivision.DividedStep | crates/ir/volar-lir/src/circuits.rs:403-431 | One restoring step keeps: the bits so far are quotient and remainder of the dividend's upper bits |
| BitDivision.Subtract | crates/ir/volar-lir/src/circuits.rs:410-422 | The subtractor chain gives the difference and the final borrow |
| FunctionBuilder.FunctionState.Runs | crates/backends/volar-wasm-backend/src/lib.rs:1407-1498 | A function built on operands of the right types, its exits typed, is never stuck when called: on every argument, with every host that keeps to the signatures and for every number of transitions, any structured reading of the emitted stream returns, traps, calls the host and goes on exactly as the blocks mean |
| BuilderDiscipline.BuiltRuns | crates/backends/volar-wasm-backend/src/lib.rs:1407-1498 | The same for any typed locals: of one block through the straight path, of several through the dispatch loop |
| WasmLowering.FunctionSimulates | crates/backends/volar-wasm-backend/src/lib.rs:1437-1497 | For every number of back edges: in a well-typed function the loop, nested blocks and branch table run from the start exactly as the block program does, same return values of the result types, same host calls, same trap, still running exactly when it is, and never refused or stuck; the default target is never reached |
| WasmLowering.StreamSimulates | crates/backends/volar-wasm-backend/src/lib.rs:1437-1497 | The same for every structured code whose flat form is the emitted stream |
| WasmLowering.SingleSimulates | crates/backends/volar-wasm-backend/src/lib.rs:1413-1435 | A function of one block and no program counter runs its operations and returns, or falls off its end with no results |
| WasmTyping.NeverRefused | crates/backends/volar-wasm-backend/src/lib.rs:1407-1498 | From typed locals and a host that answers with declared types, a well-typed block program is never refused and returns values of its result types |
| WasmTyping.OpIsSound | crates/backends/volar-wasm-backend/src/lib.rs:930-1314 | A well-typed operation on typed locals yields values of its destinations' types, or traps |
| WasmLowering.DispatchReaches | crates/backends/volar-wasm-backend/src/lib.rs:1449-1470 | With the program counter at `k`, the table enters exactly block `k`, and everything that leaves that block passes through the enclosing labels at the right depth |
| WasmLowering.GotoRuns | crates/backends/volar-wasm-backend/src/lib.rs:1316-1329 | Reading all arguments before writing parameters in reverse assigns all parameters at once and sets the program counter |
| WasmLowering.ExitRuns | crates/backends/volar-wasm-backend/src/lib.rs:1339-1402 | Jumps, branches and nested key tests enter the target the value selects and branch out by the dispatch depth |
| WasmLowering.RetRuns | crates/backends/volar-wasm-backend/src/lib.rs:1333-1338 | A return returns exactly the values of its locals, in order |
| WasmLowering.TableRuns | crates/backends/volar-wasm-backend/src/lib.rs:1366-1402 | The nested tests pick the first case with the key, otherwise the default |
| WasmOps.OpMatches | crates/backends/volar-wasm-backend/src/lib.rs:930-1314 | The code of every operation, its callee known, computes the operation's meaning on locals, traps when it traps, and touches only its destinations and scratch |
| WasmLimbs.LimbsRun | crates/backends/volar-wasm-backend/src/lib.rs:972-1056 | The emitted limb loop leaves the destination limbs and the carry local at the limb-wise result |
| WasmLimbs.WideOutIsArithmetic | crates/backends/volar-wasm-backend/src/lib.rs:972-1056 | For any number of limbs that result is the sum or difference modulo 2^(64 * limbs), and the carry is set exactly on carry out or borrow |
| WasmOps.SelectRuns | crates/backends/volar-wasm-backend/src/lib.rs:1267-1280 | A select of several components reads its condition and both arms as they were before |
| WasmShift.ShiftRuns | crates/backends/volar-wasm-backend/src/lib.rs:1057-1163 | The guarded windows of a wide shift leave the limbs joined from their own and the next limb, or leave the destinations alone where the count is out of range |
| WasmShiftExact.ShiftExactly | crates/backends/volar-wasm-backend/src/lib.rs:1057-1163 | For every number of limbs and every count in range that is the shifted number if and only if the count is not a positive multiple of 64, or every limb kept has all the bits of the limb the code joins to it |
| WasmShiftExact.TwoLimbsExact | crates/backends/volar-wasm-backend/src/lib.rs:1057-1163 | With two limbs every count in range shifts the number |
| WasmShiftExact.FourLimbsJoined | crates/backends/volar-wasm-backend/src/lib.rs:1129-1162 | With four limbs 1 shifted up by 64 comes out as 2^64 + 2^128 |
| WasmShiftExact.WideShiftExactly | crates/backends/volar-wasm-backend/src/lib.rs:1057-1163 | For any count, itself an integer in limbs: out of range the destinations are left alone, which is right if and only if they hold zero already; in range as above |
| WasmConvert.ConvRuns | crates/backends/volar-wasm-backend/src/lib.rs:1167-1266 | The instructions of every conversion compute it: masks are remainders, a pair of shifts extends the sign, exclusive or with ones is the complement |
| LirTypes.ZextExactly | crates/backends/volar-wasm-backend/src/lib.rs:1199-1221 | Zero extension keeps the number if and only if, into 64 bits, a narrow local has no bits above its width, and a Boolean local is zero or one |
| LirTypes.SextExactly | crates/backends/volar-wasm-backend/src/lib.rs:1222-1244 | Sign extension keeps the signed number, into 64 bits if and only if the narrow local is sign extended already |
| LirTypes.TruncKeepsLow | crates/backends/volar-wasm-backend/src/lib.rs:1245-1266 | Truncation keeps the low bits of the number |
| LirTypes.TruncZextExactly | crates/backends/volar-wasm-backend/src/lib.rs:1199-1266 | A 64-bit number cut to a narrow type and extended again is its low bits if and only if its low 32 bits fit the type |
| LirTypes.NinthBitSurvives | crates/backends/volar-wasm-backend/src/lib.rs:1199-1266 | 256 cut to eight bits and extended again is 256 |
| LirTypes.NotComplements | crates/backends/volar-wasm-backend/src/lib.rs:1167-1185 | The complement is taken within the bits of the type |
| BlockProgram.AssignSimultaneous | crates/backends/volar-wasm-backend/src/lib.rs:1316-1329 | Assigning distinct locals from values read first is simultaneous, whatever the overlap of sources and destinations |
| WasmMachine.FlatInjective | crates/backends/volar-wasm-backend/src/lib.rs:1407-1498 | Two structured bodies with the same flat instruction stream are the same body, so emitting the stream loses nothing |
| WasmEmission.Function.LowerFunction | crates/backends/volar-wasm-backend/src/lib.rs:1437-1497 | The instruction stream written is that of the structured function |
| WasmEmission.Function.LowerSingle | crates/backends/volar-wasm-backend/src/lib.rs:1413-1435 | The stream of a single block is that of its operations and its return |
| WasmEmission.Function.EmitTerminator | crates/backends/volar-wasm-backend/src/lib.rs:1331-1405 | The stream written for a block's exit is that of its structured code |
| WasmEmission.Function.EmitOp | crates/backends/volar-wasm-backend/src/lib.rs:930-1314 | The stream written for an operation whose callee is known is that of its structured code |
| WasmEmission.Function.EmitLimbs | crates/backends/volar-wasm-backend/src/lib.rs:992-1055 | The stream written limb by limb is that of the wide operation |
| WasmEmission.Function.EmitShift | crates/backends/volar-wasm-backend/src/lib.rs:1057-1163 | The stream written window by window is that of the wide shift |
| WasmComponents.ComponentsMean | crates/backends/volar-wasm-backend/src/lib.rs:648-726 | What is recorded for a binary operation computes it component by component: scalars by one instruction, packed integers over their limbs, vectors lane by lane at any nesting, and it traps where a component does |
| WasmComponents.PackedIsArithmetic | crates/backends/volar-wasm-backend/src/lib.rs:679-694 | Sums and differences of packed integers are those of the numbers modulo their width |
| FunctionBuilder.FunctionState.constructor | crates/backends/volar-wasm-backend/src/lib.rs:1527-1581 | Parameters are the first values, in the first locals, with the declared types |
| FunctionBuilder.FunctionState.AllocValue | crates/backends/volar-wasm-backend/src/lib.rs:227-239 | Hands out locals nobody else has, one for every word of the type; every discipline so far is kept |
| FunctionBuilder.FunctionState.AddBlockParam | crates/backends/volar-wasm-backend/src/lib.rs:1622-1629 | A parameter gets locals of its own, so parameters of a block never meet |
| FunctionBuilder.FunctionState.CreateBlock | crates/backends/volar-wasm-backend/src/lib.rs:1607-1620 | The new block is empty, and the program counter local exists from the second block on |
| FunctionBuilder.FunctionState.Binary | crates/backends/volar-wasm-backend/src/lib.rs:626-634 | Records exactly the operations of the components on fresh destinations, for any operands of equally many components and any kind the code supports; typed if the components' types agree |
| FunctionBuilder.FunctionState.Not | crates/backends/volar-wasm-backend/src/lib.rs:1667-1674 | Records one complement per component, lane by lane and limb by limb |
| FunctionBuilder.FunctionState.Iconst | crates/backends/volar-wasm-backend/src/lib.rs:1635-1640 | Records the constant: the number in the first word, zero in the others |
| FunctionBuilder.FunctionState.Icmp | crates/backends/volar-wasm-backend/src/lib.rs:1685-1697 | Records a comparison of two scalars at the width of the left one |
| FunctionBuilder.FunctionState.Zext | crates/backends/volar-wasm-backend/src/lib.rs:1699-1742 | Into a packed integer the limbs are copied and the rest zero, a narrow scalar through an extension of its own; otherwise one conversion |
| FunctionBuilder.FunctionState.Sext | crates/backends/volar-wasm-backend/src/lib.rs:1743-1753 | Records the sign extension |
| FunctionBuilder.FunctionState.Trunc | crates/backends/volar-wasm-backend/src/lib.rs:1754-1788 | Out of a packed integer the low limbs are copied, or the low limb wrapped; otherwise one conversion |
| FunctionBuilder.FunctionState.Select | crates/backends/volar-wasm-backend/src/lib.rs:1790-1809 | Records one select over all components |
| FunctionBuilder.FunctionState.ArrNew | crates/backends/volar-wasm-backend/src/lib.rs:449-464 | Records one copy per element, into locals of its own |
| FunctionBuilder.FunctionState.CallExtern | crates/backends/volar-wasm-backend/src/lib.rs:764-809 | Records the call with flattened arguments and fresh results of any list of types; typed if the callee's signature is that |
| FunctionBuilder.FunctionState.CallByName | crates/backends/volar-wasm-backend/src/lib.rs:1839-1875 | The same for a function of the module, by name |
| FunctionBuilder.FunctionState.JumpTo | crates/backends/volar-wasm-backend/src/lib.rs:1877-1883 | Records the jump with its arguments flattened; nothing more can be recorded in the block |
| FunctionBuilder.FunctionState.BranchOn | crates/backends/volar-wasm-backend/src/lib.rs:1885-1903 | Records the branch on the condition's only local, with both lists of arguments flattened |
| FunctionBuilder.FunctionState.ReturnValues | crates/backends/volar-wasm-backend/src/lib.rs:1905-1908 | Records the return of the locals of all values, in order |
| FunctionBuilder.FunctionState.SwitchTo | crates/backends/volar-wasm-backend/src/lib.rs:1631-1633 | Operations go to that block from here on |
| FunctionBuilder.FunctionState.SwitchOn | crates/backends/volar-wasm-backend/src/lib.rs:1916-1938 | Records the table with every case's arguments flattened |
| FunctionBuilder.FunctionState.LocalDecls | crates/backends/volar-wasm-backend/src/lib.rs:818-848 | Declares every local after the parameters exactly once, in order, with the type of its owner |
| FunctionBuilder.FunctionState.Lower | crates/backends/volar-wasm-backend/src/lib.rs:1407-1498 | Lowers exactly when every name is known, a single block does not jump, and every transition passes as many values as its target takes; the stream is then that of the body, and the discipline is what the simulation needs |
| BuilderDiscipline.SiblingsReached | crates/backends/volar-wasm-backend/src/lib.rs:429-434 | Function indices follow the imports, and every function is reached by its name if and only if no two share one |
| CFolding.Compute | crates/backends/volar-c-backend/src/lib.rs:912-1135 | The plan drops only pure unused definitions and folds only single uses across pure windows, and it drops and folds all it may |
| CFaithful.PlanUnique | crates/backends/volar-c-backend/src/lib.rs:912-1135 | These conditions determine the plan: there is only one |
| CFolding.CountUses | crates/backends/volar-c-backend/src/lib.rs:913-1026 | Forward counting finds each value's uses, its first use and whether two items use it |
| CFolding.DropDead | crates/backends/volar-c-backend/src/lib.rs:1028-1086 | The backward pass drops exactly the pure definitions no kept item uses, and the counts it leaves are those of the kept items |
| CFolding.IsPureWindow | crates/backends/volar-c-backend/src/lib.rs:1110-1121 | Accepts exactly the windows without effects |
| CFaithful.RenderFunction | crates/backends/volar-c-backend/src/lib.rs:863-893 | The plan is the maximal one, and for every context, start and length of run the rendered body does exactly the calls, random draws and stores of the recorded items, in order, with the same values, and returns the same value, if every folded call sits where it is always evaluated |
| CFaithful.RunsAlike | crates/backends/volar-c-backend/src/lib.rs:1387-1512 | From any item on, whatever is still pending to be folded, both run alike |
| CFaithful.FoldingIsInvisible | crates/backends/volar-c-backend/src/lib.rs:863-893 | Under the same condition the folded body runs like the one with every definition written out |
| CFaithful.EagerFaithful | crates/backends/volar-c-backend/src/lib.rs:1137-1148 | With folding disabled the rendered body always runs like the recorded items, without any condition |
| CFaithful.ItemMatches | crates/backends/volar-c-backend/src/lib.rs:1387-1468 | One rendered item does what the recorded item does, with at most one pending call moving into it |
| CFaithful.StepMatches | crates/backends/volar-c-backend/src/lib.rs:1387-1468 | Without any condition: a rendered item does what the recorded item does from the recorded state if it evaluates the place of the pending call, and from the state before that call if not |
| CExact.StatementExactly | crates/backends/volar-c-backend/src/lib.rs:1387-1468 | A written statement ends in the recorded way from that state; while a call is held back it leaves the recorded log if and only if running it evaluates the place of the value that holds the call |
| CExact.CallHeldBack | crates/backends/volar-c-backend/src/lib.rs:1170-1229 | While a folded call is pending the recorded run has logged it and the rendered one has not |
| CFaithful.ArmLosesCall | crates/backends/volar-c-backend/src/lib.rs:1170-1229 | A call folded into an arm of a select that is not taken is not made, under the plan computed for that program |
| CFaithful.EdgeLosesCall | crates/backends/volar-c-backend/src/lib.rs:1474-1511 | A call folded into an argument of an untaken branch edge is not made, under the plan computed for that program |
| CRender.AtMostOneEffect | crates/backends/volar-c-backend/src/lib.rs:1335-1372 | No statement ever has two folded effects, so the comma sequence for two or more is never written |
| CRender.CollectCounts | crates/backends/volar-c-backend/src/lib.rs:1281-1327 | The effects collected in an expression are the folded calls it names, each as often as it is named |
| CRender.FoldRenderer.RenderItem | crates/backends/volar-c-backend/src/lib.rs:1387-1468 | The statements written are those of the item under the plan |
| CRender.FoldRenderer.RenderEdge | crates/backends/volar-c-backend/src/lib.rs:1474-1511 | An edge is written directly without a hazard, and through temporaries of its own with one |
| CPreserve.EdgeRuns | crates/backends/volar-c-backend/src/lib.rs:1474-1511 | Either way the edge assigns all parameters at once |
| CPreserve.SteadyRender | crates/backends/volar-c-backend/src/lib.rs:1170-2382 | A rendered expression without a pending call has the value of the recorded one in any later state |
| CPreserve.PlaceRender | crates/backends/volar-c-backend/src/lib.rs:1170-2382 | A rendered pure expression has the value of the recorded one in any case, and makes the pending call it names if and only if its place is evaluated |
| Solinas.SolinasMul | crates/ir/volar-ir-common/src/prime.rs:493-506 | For every k >= 2, 0 < n < 2^(k-1), and residues a, b of p = 2^k - n: exactly k digits with value a * b mod p, over any native field |
| Solinas.SolinasAdd | crates/ir/volar-ir-common/src/prime.rs:482-490 | Exactly k digits with value a + b mod p |
| Solinas.SolinasRepeat | crates/ir/volar-ir-common/src/prime.rs:509-521 | Exactly k digits with value acc + times * elem mod p |
| Solinas.RepetitionResidue | crates/ir/volar-ir-common/src/prime.rs:671-678 | The number of repetitions is the coefficient modulo p |
| Solinas.ReduceProduct | crates/ir/volar-ir-common/src/prime.rs:463-479 | k folds and one conditional subtraction leave the product modulo p |
| Solinas.FoldsSuffice | crates/ir/volar-ir-common/src/prime.rs:463-480 | After k folds of any product of residues the high half is clear and the value is below 2p |
| Solinas.ResiduesNeeded | crates/ir/volar-ir-common/src/prime.rs:463-480 | That operands are residues cannot be dropped: with k = 5 and n = 15 the five-digit operands 21 and 30 leave 35 after the folds, more than one subtraction of 17 repairs |
| Solinas.FoldTimesCongruent | crates/ir/volar-ir-common/src/prime.rs:463-480 | Every fold keeps the residue modulo p |
| Solinas.ExcessHalves | crates/ir/volar-ir-common/src/prime.rs:463-480 | What exceeds 2^k - 1 shrinks by at least n / 2^k with every fold |
| Solinas.ReduceSum | crates/ir/volar-ir-common/src/prime.rs:450-461 | A sum of two residues is reduced by one conditional subtraction |
| Solinas.SubPIfGe | crates/ir/volar-ir-common/src/prime.rs:408-436 | Below 2p the result is the value modulo p, in k digits |
| Solinas.SchoolbookMul | crates/ir/volar-ir-common/src/prime.rs:395-406 | The full product: no digit of it is cut off |
| Solinas.AddDigits | crates/ir/volar-ir-common/src/prime.rs:378-393 | The sum, one digit longer than the longer operand |
| Solinas.ModulusDigits | crates/ir/volar-ir-common/src/prime.rs:438-448 | The digits of 2^k - n |
| Solinas.EmbedXor | crates/ir/volar-ir-common/src/prime.rs:54-63 | Zero and one stay zero and one, and combine as exclusive or, in characteristic two and in any other |
| Solinas.Mux | crates/ir/volar-ir-common/src/prime.rs:370-375 | Stays zero or one and decodes to the choice |
| Solinas.SinkIndependence | crates/ir/volar-ir-common/src/prime.rs:37-68 | Digit strings of one length and one value are the same digits, whatever native field carries them |
| Solinas.BoolRingIsLawful | crates/ir/volar-ir-common/src/prime.rs:680-706 | The Boolean sink meets the laws all circuits rely on |
| Solinas.ResidueRingIsLawful | crates/ir/volar-ir-common/src/prime.rs:37-68 | So does every ring of residues |
| PrimePoly.EvalPrimePoly | crates/ir/volar-ir-common/src/prime.rs:529-632 | Over any sink, scalars, vectors and tuples: fails exactly when the polynomial has no meaning, otherwise decodes lane by lane to constant + sum of coefficient * product modulo p |
| PrimePoly.EvalPrimeLane | crates/ir/volar-ir-common/src/prime.rs:600-629 | One lane of the same |
| PrimePoly.TermProduct | crates/ir/volar-ir-common/src/prime.rs:612-625 | The factors' product modulo p, single bits counting as zero or one |
| NumberTheory.FermatLittle | crates/ir/volar-ir-common/src/prime.rs:269-320 | Fermat's little theorem |
| NumberTheory.SquareRootsOfOne | crates/ir/volar-ir-common/src/prime.rs:269-320 | Modulo a prime only 1 and -1 square to 1 |
| NumberTheory.EuclidsLemma | crates/ir/volar-ir-common/src/prime.rs:269-320 | A prime that divides a product divides a factor |
| Primality.PrimesAreAccepted | crates/ir/volar-ir-common/src/prime.rs:269-320 | Every prime is accepted by the test with the base list used |
| Primality.IsPrimeTest | crates/ir/volar-ir-common/src/prime.rs:269-320 | The 256-bit routine decides exactly the Miller-Rabin criterion for those bases |
| Primality.PrimesPass | crates/ir/volar-ir-common/src/prime.rs:298-318 | A prime is a strong probable prime to every base |
| Primality.PrimeField | crates/ir/volar-ir-common/src/prime.rs:72-80 | Refuses a bit length outside 2..256 and a non-canonical n exactly, calls composite only what is composite, admits exactly what the test accepts, and keeps n up to zero limbs |
| Pseudoprime.CompositeAccepted | crates/ir/volar-ir-common/src/prime.rs:285-318 | 149491 * 747451 * 34233211 is accepted: it passes all seven bases used below 2^64 |
| Pseudoprime.AdmitComposite | crates/ir/volar-ir-common/src/prime.rs:72-80 | So k = 62 with n = 786562961880974853 is admitted as a prime field, although 2^k - n is composite |
| Primality.Modulus | crates/ir/volar-ir-common/src/prime.rs:243-267 | The four limbs of 2^k - n, at k = 256 too |
| Primality.LessThanPow2IsRight | crates/ir/volar-ir-common/src/prime.rs:131-142 | The limb comparison decides n < 2^exp |
| Primality.MulMod | crates/ir/volar-ir-common/src/prime.rs:210-224 | The double-and-add product equals the integer product modulo m |
| Primality.PowMod | crates/ir/volar-ir-common/src/prime.rs:226-240 | Square-and-multiply equals the integer power modulo m |
| Primality.AddMod | crates/ir/volar-ir-common/src/prime.rs:202-208 | Equals the integer sum modulo m even when the 256-bit sum overflows |
| Primality.Add | crates/ir/volar-ir-common/src/prime.rs:175-184 | Carry chain: sum and carry out |
| Primality.Sub | crates/ir/volar-ir-common/src/prime.rs:186-200 | Borrow chain: wrapping difference |
| Primality.Cmp | crates/ir/volar-ir-common/src/prime.rs:171-173 | Orders by value, most significant limb first |
| Primality.ShiftRight | crates/ir/volar-ir-common/src/prime.rs:322-331 | Halves the value, carrying bits across limbs |
| Primality.SplitOdd | crates/ir/volar-ir-common/src/prime.rs:279-284 | Writes p - 1 as an odd number times a power of two |
| PrimeWords.ModulusWords | crates/backends/volar-llvm-backend/src/lib.rs:1558-1584 | Exactly for 2 <= k <= 256 and 0 < n <= 2^k: the limbs of 2^k - n, one borrow chain across k / 64 + 1 words |
| PrimeWords.ConstantWords | crates/backends/volar-llvm-backend/src/lib.rs:1586-1606 | For every 64-bit signed constant: the limbs of its residue modulo the prime, negative ones included, and the final borrow never remains |
| PrimeWords.LlvmPrimeExact | crates/backends/volar-llvm-backend/src/lib.rs:629-698 | For any operands, not only residues: the widened, reduced, wrapped and truncated sequence is addition, subtraction or multiplication modulo the prime |
| PrimeWords.CPrimeExact | crates/backends/volar-c-backend/src/lib.rs:630-667 | The 128-bit C helpers compute the same field operation as the LLVM sequence |
| PrimeWords.NothingWraps | crates/backends/volar-llvm-backend/src/lib.rs:645-697 | Integers that hold twice the modulus, or its square for products, never wrap |
| FieldTower.TowerRing | crates/ir/volar-ir-common/src/field.rs:490-574 | At every height of tower and for every monic modulus: addition and multiplication commute, associate and distribute, and one is neutral |
| FieldArithmetic.FieldMulDesc | crates/ir/volar-ir-common/src/field.rs:490-509 | The shift-and-add loop over split coefficients computes the tower product of its operands, padded or cut to the field's width |
| FieldArithmetic.XTimeDesc | crates/ir/volar-ir-common/src/field.rs:560-574 | One step multiplies by X and reduces by the modulus |
| FieldArithmetic.CoeffMul | crates/ir/volar-ir-common/src/field.rs:535-549 | The recursion through the tower computes the coefficient field's product |
| FieldArithmetic.CoeffAdd | crates/ir/volar-ir-common/src/field.rs:524-533 | Bitwise addition, the shorter operand padded |
| FieldPolynomials.PolyMulMod | crates/ir/volar-ir-common/src/field.rs:659-680 | Schoolbook product and long division give the same element as the shift-and-add product |
| FieldPolynomials.PolyMul | crates/ir/volar-ir-common/src/field.rs:659-680 | The schoolbook product has the value of the product |
| FieldPolynomials.PolyMod | crates/ir/volar-ir-common/src/field.rs:682-707 | Long division by the monic modulus leaves the element the polynomial stands for |
| FieldArithmetic.FieldInv | crates/ir/volar-ir-common/src/field.rs:782-794 | The squaring loop computes the power 2^w - 2 |
| FieldArithmetic.SquareOfSum | crates/ir/volar-ir-common/src/field.rs:782-794 | Squaring distributes over sums in characteristic two |
| FieldInverse.FermatInField | crates/ir/volar-ir-common/src/field.rs:782-794 | Without zero divisors every nonzero element has power 2^w - 1 equal to one |
| FieldInverse.InverseExactly | crates/ir/volar-ir-common/src/field.rs:782-794 | The power 2^w - 2 inverts every nonzero element if and only if no two nonzero elements multiply to zero |
| FieldBackends.CMultiply | crates/backends/volar-c-backend/src/lib.rs:585-626 | For every degree, monic binary modulus and operands, whatever lies above the degree, the emitted limb loop, with shift carry across limbs and a masked top limb, computes the tower product; the result is clear above the degree if and only if the left operand is or the right one has no lowest bit |
| FieldBackends.LlvmMultiply | crates/backends/volar-llvm-backend/src/lib.rs:486-571 | The emitted select, shift and xor sequence computes the tower product |
| FieldBackends.PartialIsProduct | crates/ir/volar-ir-common/src/field.rs:490-509 | Accumulating shifted multiples bit by bit is the tower product, the fact both backends share |
| FieldSymbol.RoundTrip | crates/ir/volar-ir-common/src/field.rs:861-1025 | Reading the name of an operation on a nested field gives back exactly the operation and the field |
| FieldSymbol.ReadableExactly | crates/ir/volar-ir-common/src/field.rs:861-969 | A field description is the result of reading some name if and only if it is well formed with coefficients of at most 64 bits |
| FieldSymbol.ModulusBack | crates/ir/volar-ir-common/src/field.rs:933-969 | The trimmed hexadecimal modulus reads back as the coefficients |
| FieldSymbol.BodyRead | crates/ir/volar-ir-common/src/field.rs:880-915 | The body of a name is read off whatever follows it, through every nesting |
| FieldSymbol.WriteModulus | crates/ir/volar-ir-common/src/field.rs:985-1025 | The loop writes the bits of all coefficients as hexadecimal without leading zeros |
| FieldSymbol.ModulusFromHex | crates/ir/volar-ir-common/src/field.rs:940-968 | The loop cuts the digits' bits into one coefficient after the other, or refuses |
| PoolAllocator.Pool.Alloc | crates/alloc/pool-alloc/src/lib.rs:930-1121 | Keeps the invariant; what it serves is new, aligned, as big as asked and has its header, no header in use is touched, counters move by exactly that size, memory runs out only when the system grants none, and a block without header is handed out only for an alignment of a whole chunk or more |
| PoolAllocator.Pool.Dealloc | crates/alloc/pool-alloc/src/lib.rs:1123-1369 | Keeps the invariant. A live pointer is taken back if and only if its header was not swept away; then exactly its slot goes, onto a free list exactly under the mode's conditions, and the chunk is recycled exactly when nothing in it is live. Of the live headers exactly those on the pages swept are lost, and none if all requests had at least 16 bytes and every page dead before had all its bytes freed |
| PoolAllocator.Pool.SweepChunk | crates/alloc/pool-alloc/src/lib.rs:894-915 | A sweep takes exactly the live headers on the dead pages, from 64 of them on, and none from clean ones |
| PoolAllocator.Pool.Realloc | crates/alloc/pool-alloc/src/lib.rs:1371-1389 | A fresh slot replaces the old one; without memory nothing changes; it crashes exactly if the old slot has lost its header |
| PoolAllocator.Pool.NewChunk | crates/alloc/pool-alloc/src/lib.rs:696-850 | Takes the top recycled chunk if there is one, otherwise a fresh one if granted; it arrives empty, on one list only, apart from every other chunk |
| PoolAllocator.Pool.DropChunk | crates/alloc/pool-alloc/src/lib.rs:852-890 | Moves an unused chunk from one list to the other; no live pointer led into it |
| PoolAllocator.Pool.SetFreeMode | crates/alloc/pool-alloc/src/lib.rs:518-520 | The invariant does not depend on the free mode |
| PoolAllocator.Pool.SetPooling | crates/alloc/pool-alloc/src/lib.rs:497-499 | The invariant does not depend on whether pooling is on |
| PoolChunk.Chunk.TryReuse | crates/alloc/pool-alloc/src/lib.rs:975-1046 | Serves the first of 32 waiting slots whose capacity word, zero once its page was released, suffices; or changes nothing |
| PoolChunk.Chunk.TryBump | crates/alloc/pool-alloc/src/lib.rs:1047-1096 | Bumps exactly when header and payload fit, to the aligned place after `fill`; dead pages keep all their bytes freed exactly if the slot lands on none of them |
| PoolChunk.Chunk.FreeSlot | crates/alloc/pool-alloc/src/lib.rs:1199-1361 | The slot waits or is forgotten; a page it kills holds no waiting slot, and if every request was at least 16 bytes no byte of any slot; dead pages that had all bytes freed still do |
| PoolChunk.Chunk.OnAllocPages | crates/alloc/pool-alloc/src/lib.rs:331-354 | Adds to each page the part of the span on it |
| PoolChunk.Chunk.OnFreePages | crates/alloc/pool-alloc/src/lib.rs:356-402 | Adds to each page the part freed, never above what was allocated, and marks dead exactly the pages with all freed and no waiting slot |
| PoolChunk.Chunk.SweepDeadPages | crates/alloc/pool-alloc/src/lib.rs:406-439 | Releases exactly the dead pages, in runs, and leaves none dead: the headers on them are gone and a list ends at the first node whose link was on one. Every slot keeps its header and its place on a list if and only if none of those bytes was on a dead page |
| PoolChunk.Chunk.MaybeSweep | crates/alloc/pool-alloc/src/lib.rs:894-915 | The same from 64 dead pages on, below that nothing; with requests of at least 16 bytes nothing is lost if every dead page has all its bytes freed |
| PoolLists.WholeExactly | crates/alloc/pool-alloc/src/lib.rs:406-439 | Zeroing any pages leaves every slot its header and every waiting slot its list if and only if all had them and no header and no link that leads on was on such a page |
| PoolChunk.Chunk.Recycle | crates/alloc/pool-alloc/src/lib.rs:722-737 | A recycled chunk is as good as a new one |
| PoolSafety.HeldInside | crates/alloc/pool-alloc/src/lib.rs:930-1121 | Every live pointer lies in a chunk in use, below its fill, with capacity for its request |
| PoolSafety.HeldDisjoint | crates/alloc/pool-alloc/src/lib.rs:930-1121 | Two live slots, headers included, share no address, be they in one chunk or in two |
| PoolSafety.WaitingDisjoint | crates/alloc/pool-alloc/src/lib.rs:930-1369 | A live slot never overlaps a slot on a free list |
| PoolSafety.OutstandingCounts | crates/alloc/pool-alloc/src/lib.rs:930-1369 | `outstanding` is the number of live pointers into the chunk |
| PoolSafety.RecycledUnused | crates/alloc/pool-alloc/src/lib.rs:852-890 | A chunk awaiting reuse has no live pointer and is not in use |
| PoolSafety.PageConservation | crates/alloc/pool-alloc/src/lib.rs:331-402 | With requests of at least 16 bytes: allocated less freed is the number of bytes slots cover on the page, so they are equal exactly when no slot touches it |
| PoolSafety.SweepHarmlessExactly | crates/alloc/pool-alloc/src/lib.rs:406-439 | With requests of at least 16 bytes: a sweep releases no byte of any slot if and only if every dead page has as many bytes freed as allocated |
| PoolSafety.HeaderOnOnePage | crates/alloc/pool-alloc/src/lib.rs:1047-1056 | A header, and a link, lies on one page, so a page takes all of it or nothing |
| PoolSafety.NodesCounted | crates/alloc/pool-alloc/src/lib.rs:984-1046 | The page's node counter is the number of waiting slots that start there, those a sweep cut off their list included, at most 512 |
| PoolSlots.NodesBound | crates/alloc/pool-alloc/src/lib.rs:1208-1343 | Disjoint slots of at least 32 bytes bound the waiting slots on a stretch |
| PoolRuns.BumpOntoDeadPage | crates/alloc/pool-alloc/src/lib.rs:331-402 | In either mode, with requests of at least 16 bytes: a run in which a dead page holds a live slot, since a later bump onto the page does not clear the mark |
| PoolRuns.SweepLosesHeader | crates/alloc/pool-alloc/src/lib.rs:406-439 | In either mode, with requests of at least 16 bytes: a run whose sweep takes the header of a live slot, which can then never be given back |
| PoolRuns.SweepCutsList | crates/alloc/pool-alloc/src/lib.rs:406-439 | A run whose sweep releases a page with two waiting slots and cuts one off its list, while the page counts both |
| PoolRuns.SmallRequestsKillPage | crates/alloc/pool-alloc/src/lib.rs:1056-1083 | For every size below 16, a run with requests of that size in which a page is marked dead while a live slot is on it; from 16 on there is none (`PoolChunk.Chunk.FreeSlot`) |
| Bristol.ParseBristol | crates/backends/volar-circuit-interop/src/bristol.rs:78-194 | The line-by-line parser returns what the grammar says; what it accepts is within the limits and well formed |
| Bristol.ParsedWf | crates/backends/volar-circuit-interop/src/bristol.rs:78-186 | Every accepted circuit reads only wires defined before, and defines no wire twice in one gate |
| Bristol.ImportMeans | crates/backends/volar-circuit-interop/src/bristol.rs:206-296 | For every well-formed circuit and input the imported block returns what a register file running the gates returns, recycled wires and simultaneous MAND included |
| Bristol.ImportCircuit | crates/backends/volar-circuit-interop/src/bristol.rs:206-296 | A well-formed circuit imports unless its identifiers do not fit; it never meets an undefined wire |
| Bristol.BatchMirrors | crates/backends/volar-circuit-interop/src/bristol.rs:235-252 | A MAND reads every operand as it was before any of its outputs is written |
| BristolExport.Validate | crates/backends/volar-circuit-interop/src/lib.rs:130-196 | Accepts exactly single-block, storage-free circuits whose operands and outputs are defined |
| BristolExport.EmitMeans | crates/backends/volar-circuit-interop/src/emit.rs:30-158 | Running the exported gates returns what the block returns, disjunctions included |
| BristolExport.EmittedWf | crates/backends/volar-circuit-interop/src/emit.rs:30-158 | The exported circuit is well formed and numbers its wires without gaps |
| BristolExport.ImportUndoesEmit | crates/backends/volar-circuit-interop/src/emit.rs:30-158 | Without disjunctions the import of the export is the same block, statement by statement, with the same groups |
| BristolWrite.Export | crates/backends/volar-circuit-interop/src/emit.rs:30-158 | Writes the text of the exported circuit, exactly for the blocks and layouts that can be exported |
| BristolWrite.RenderParse | crates/backends/volar-circuit-interop/src/bristol.rs:78-194 | Reading the written text gives the circuit back, within the limits |
| BristolWrite.RoundTrip | crates/backends/volar-circuit-interop/src/emit.rs:30-158 | Export, write, read, import: the same statements, identifiers, outputs and groups for every valid block without disjunction |
| BristolWrite.RoundTripMeaning | crates/backends/volar-circuit-interop/src/emit.rs:30-158 | Export, write, read, import: the same Boolean function for every valid block |
| BristolWrite.ImportText | crates/backends/volar-circuit-interop/src/bristol.rs:78-296 | From text to block: the block computes what the parsed gates compute, and past the parser only identifier overflow fails |
| LanePlanner.PlanLanes | crates/ir/volar-ir-simd/src/lib.rs:106-189 | The schedule of a valid circuit reads only slots written before and computes the circuit's outputs on every input |
| LanePlanner.LastUses | crates/ir/volar-ir-simd/src/lib.rs:124-146 | A statement keeps its own index exactly when no statement and no output uses it |
| LanePlanner.EmitCircuitCode | crates/backends/volar-evm-backend/src/emit.rs:90-96 | From circuit to bytecode: for every call data, bit `i` of the `j`-th returned word is output `j` of the circuit on bit `i` of the input words, in all 256 lanes |
| EvmEmission.EmitPlan | crates/backends/volar-evm-backend/src/emit.rs:69-87 | The sink driven in schedule order writes the plan's bytecode |
| EvmEmission.CodeComputesPlan | crates/backends/volar-evm-backend/src/raw.rs:75-182 | Executing that bytecode returns the plan's outputs in every lane: the stack is balanced, and slot and output memory never overlap |
| EvmEmission.PlanRuns | crates/backends/volar-evm-backend/src/raw.rs:75-182 | The code runs to its return from an empty stack, with memory updated store by store |
| EvmEmission.ExecPushCode | crates/backends/volar-evm-backend/src/raw.rs:84-94 | The shortest push, zero included, pushes the number |
| EvmEmission.RawEvm.PushUint | crates/backends/volar-evm-backend/src/raw.rs:84-94 | Leading zero bytes are left out; zero takes the push of nothing |
| EvmEmission.RawEvm.Statement | crates/backends/volar-evm-backend/src/raw.rs:118-152 | Each gate appends loads, one word instruction and a store |
| EvmEmission.RawEvm.Finish | crates/backends/volar-evm-backend/src/raw.rs:158-170 | Buffered outputs are copied behind the last slot and returned in order |
| EvmMachine.LoadStored | crates/backends/volar-evm-backend/src/raw.rs:102-113 | A word stored at an address loads back |

## Left out

- WasmImport.Import: `guarded_value`, `branch_guards`, `StaticControlPlan` and the interpreter of circuits come from a crate that is not part of this model; they are taken as a multiplexer on whole wires, the path condition with either value of the bit, a bound on entered blocks that refuses a repeated key, and evaluation statement by statement.
- WasmImport.Import: shifts, rotations, division, remainder, counting of bits, signed extension operators with a known operand, and `i64.eqz` are refused by the model; the first five are further gate families of the same kind, of which only the unsigned divider is modelled (`BitDivision`), the last two track a known value that disagrees with the bits.
- WasmImport.Import: finding the entry by name, data segments, memory layouts and `validate_control` only refuse or annotate programs and are not modelled; a mismatch of widths, arities or indices on which the code panics is an error result here.
- WasmImport.Import: as in the code, a path that ends in `unreachable` returns zeros, and an address out of bounds wraps at the width of addresses: the meaning of a block graph is taken with both, so no access and no path traps.
- WasmImport.Import: says nothing about which modules are accepted; that is stated for single operators and loads (`WasmImport.Compiler.LowerPure`, `WasmImport.Compiler.Load`).
- WasmImport.Import: for the stored circuit the condition is stated on the polynomials asked for, environment by environment; whether a program's operands meet that way is not traced back to its source.
- WasmImport.Compiler.ExtendZero: covers the unsigned half of `extend`; a signed load extends through `extend_to`, which keeps no known value, and is covered.
- FunctionBuilder.FunctionState.Runs: the validation algorithm of the specification is not modelled; that a well-typed function is never stuck is. Memories, tables and SIMD are not used by the backend. That the exits are typed is a condition checked at the end, since parameters may be added to a block after it is jumped to.
- WasmOps.OpMatches: a call by name has no code until its index is known, and is resolved before lowering (`BuilderDiscipline.Resolve`); the three operations that only wrap, extend or copy share one constructor with the conversions. Wide addition is modelled on 64-bit limbs, the only ones the builder produces.
- WasmEmission.Function.EmitOp: as for WasmOps.OpMatches.
- FunctionBuilder.FunctionState.constructor: arrays and structures are flattened to lists of scalar types before they reach it; type sections, imports by name, exports and the byte encoding of the module are left out.
- FunctionBuilder.FunctionState.CallExtern: `oracle`, `action` and the random sources, which are calls and selects, are left out, and so is `ensure_import`, which gives a name the signature of its first use: with another one the call is not typed.
- FunctionBuilder.FunctionState.ArrNew: reading and replacing elements of arrays are copies of the same kind and are left out.
- CFaithful.RenderFunction: its condition on whole runs is sufficient, not necessary: a call in an arm that every run takes is not lost, and which runs happen is not decidable from the text. Statement by statement the condition is exact (`CExact.StatementExactly`), and the two lemmas on lost calls show that neither half of it can be dropped.
- CFaithful.RenderFunction: statements are kept as syntax with an evaluation; spelling, parentheses, C types and the order in which C evaluates the operands of one expression are left out, the last being harmless because no statement holds two effects (`CRender.AtMostOneEffect`).
- Primality.PrimeField: that composites are rejected is not claimed, and is false (`Pseudoprime.CompositeAccepted`); which composites pass is not characterised beyond the test itself.
- PrimePoly.EvalPrimePoly: requires prime-field factors to be residues, which the code takes for granted; without that its products are wrong (`Solinas.ResiduesNeeded`).
- FieldTower.TowerRing: bits are Booleans; the code is generic in the type of a bit.
- FieldInverse.InverseExactly: that the irreducibility test guarantees the absence of zero divisors is not proved.
- PoolAllocator.Pool.Alloc: requests the pool hands to the system allocator end in a result that says so, `Untagged` for a block without the header that deallocation will look for; what deallocating one does, blocks tagged by a sentinel, pass-through mode, tracing, the shadow detector and the spin lock are left out.
- PoolAllocator.Pool.Dealloc: requires a live pointer with the size it was asked for, as the allocator's contract does; the magic numbers that detect clients breaking it are left out, and so is what clients write into slots. A pointer without header gives `NullChunk`, where the code dereferences a null pointer, or panics in a debug build.
- PoolSafety.PageConservation: holds for chunks whose requests were all at least 16 bytes; `PoolRuns.SmallRequestsKillPage` shows why, for every smaller size.
- PoolChunk.Chunk.MadvisePages: takes released pages to read as zeros at once, as on Linux. Of what lies on them the model keeps headers and links; that the clients' bytes there are lost as well follows from which pages are released (`PoolSafety.SweepHarmlessExactly`).
- PoolSafety.NodesCounted: for pages of 4, 8 and 16 KiB.
- Bristol.ParseBristol: errors keep their kind but not their message or line number.
- BristolWrite.RenderParse: batched conjunctions are read but never written, by the code as well.
- LanePlanner.EmitCircuitCode: gas and the size limit on code are not modelled, and fewer than 2^32 outputs are assumed, as the sink's index type does.
- The Noir, Podlang, Solidity and Summon renderers, name handling, archives, foreign calls and build steps are left out: they format text or move files.
- BitDivision.BcUdivrem: signed division, remainders, shifts, rotations and bit counts of `circuits.rs` are left out, and so are `poly_gcd`, `poly_rem` and `coeff_div` over towers; the importer and the theorems here do not use them.
