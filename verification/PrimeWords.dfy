/**
 Prime fields as the LLVM and C backends emit them: the modulus and constants as limbs, and arithmetic
 in integers just wide enough that nothing wraps before the remainder is taken.
 */
module PrimeWords {
  import opened Common
  import opened Numbers
  import opened Primality

  /** `n` and then zeros, up to `words` limbs. */
  function Padded(n: seq<nat>, words: nat): (r: seq<nat>)
    requires |n| <= words
    ensures |r| == words
  {
    n + Zeros(words - |n|)
  }

  lemma PaddedLimbs(n: seq<nat>, words: nat)
    requires |n| <= words && AreWords(n)
    ensures AreWords(Padded(n, words)) && Limbs(Padded(n, words)) == Limbs(n)
  {
    PadValue(n, words - |n|);
  }

  /** Limb `index` was subtracted with its borrow: the limbs below it say the rest. */
  ghost predicate Subtracted(start: seq<nat>, take: seq<nat>, now: seq<nat>, index: nat, borrow: nat)
    requires index <= |start| == |take|
  {
    && |now| == |start| && AreWords(now) && borrow <= 1 && now[index..] == start[index..]
    && Prefix(now, index) == Prefix(start, index) - Prefix(take, index) + Pow2(64 * index) * borrow
  }

  lemma SubtractLimb(start: seq<nat>, take: seq<nat>, now: seq<nat>, index: nat, borrow: nat, limb: nat, next: nat)
    requires index < |start| == |take| && AreWords(start) && AreWords(take) && Subtracted(start, take, now, index, borrow)
    requires next == (if start[index] < take[index] + borrow then 1 else 0)
    requires limb == start[index] - take[index] - borrow + WORD * next
    ensures limb < WORD && Subtracted(start, take, now[index := limb], index + 1, next)
  {
    hide Limbs, Pow2, Prefix;
    var after := now[index := limb];
    assert now[index..][0] == start[index..][0];
    PrefixStep(start, index);
    PrefixStep(take, index);
    PrefixStep(after, index);
    SamePrefix(now, after, index);
    PlaceStep(index);
    BorrowLimb(Pow2(64 * index), borrow, start[index], take[index]);
    assert after[index + 1..] == now[index..][1..];
    assert start[index + 1..] == start[index..][1..];
  }

  lemma SamePrefix(a: seq<nat>, b: seq<nat>, n: nat)
    requires n <= |a| == |b| && a[..n] == b[..n]
    ensures Prefix(a, n) == Prefix(b, n)
  {
  }

  lemma StartSubtracting(start: seq<nat>, take: seq<nat>)
    requires |start| == |take| && AreWords(start)
    ensures Subtracted(start, take, start, 0, 0)
  {
    assert start[..0] == [] && take[..0] == [];
  }

  /** The whole vector: the borrow that is left says whether too much was taken. */
  lemma DoneSubtracting(start: seq<nat>, take: seq<nat>, now: seq<nat>, borrow: nat)
    requires |start| == |take| && AreWords(take) && AreWords(start) && Subtracted(start, take, now, |start|, borrow)
    ensures borrow == 0 <==> Limbs(take) <= Limbs(start)
    ensures borrow == 0 ==> Limbs(now) == Limbs(start) - Limbs(take)
  {
    hide Limbs, Pow2;
    assert start[..|start|] == start && take[..|start|] == take && now[..|start|] == now;
    LimbsBound(now);
    LimbsBound(start);
    LimbsBound(take);
  }

  /** The limbs of `2^k`. */
  function PowerWords(k: nat): (r: seq<nat>)
    ensures |r| == k / 64 + 1 && AreWords(r) && Limbs(r) == Pow2(k)
  {
    PowerLimbs(k);
    Zeros(k / 64 + 1)[k / 64 := Pow2(k % 64)]
  }

  lemma PowerLimbs(k: nat)
    ensures AreWords(Zeros(k / 64 + 1)[k / 64 := Pow2(k % 64)]) && Limbs(Zeros(k / 64 + 1)[k / 64 := Pow2(k % 64)]) == Pow2(k)
  {
    hide Limbs, Pow2;
    WordIsPow2();
    Pow2Monotone(k % 64, 63);
    Pow2Double(63);
    ZeroLimbs(Zeros(k / 64 + 1));
    LimbUpdate(Zeros(k / 64 + 1), k / 64, Pow2(k % 64));
    Pow2Add(64 * (k / 64), k % 64);
    assert 64 * (k / 64) + k % 64 == k;
  }

  lemma Pow2Double(n: nat)
    ensures Pow2(n + 1) == 2 * Pow2(n)
  {
  }

  /** The limbs of `2^k - n`, or nothing where the code refuses the field. */
  method ModulusWords(k: nat, n: seq<nat>) returns (r: Option<seq<nat>>)
    requires AreWords(n) && |n| <= k / 64 + 1
    ensures r.Some? <==> 2 <= k <= 256 && 0 < Limbs(n) <= Pow2(k)
    ensures r.Some? ==> |r.value| == k / 64 + 1 && AreWords(r.value) && Limbs(r.value) == Pow2(k) - Limbs(n)
  {
    hide Limbs, Pow2, Prefix, Subtracted, PowerWords, Padded;
    ZeroLimbs(n);
    if !(2 <= k <= 256) || forall i | 0 <= i < |n| :: n[i] == 0 {
      return None;
    }
    var modulus: seq<nat> := PowerWords(k);
    ghost var start, take := modulus, Padded(n, |modulus|);
    PaddedLimbs(n, |modulus|);
    StartSubtracting(start, take);
    var borrow: nat := 0;
    for index := 0 to |modulus|
      invariant |modulus| == |start| && borrow <= 1 && Subtracted(start, take, modulus, index, borrow)
    {
      var subtrahend := (if index < |n| then n[index] else 0) + borrow;
      LimbThere(start, take, modulus, index, borrow, n);
      var next := if modulus[index] >= subtrahend then 0 else 1;
      var limb: nat := modulus[index] - subtrahend + WORD * next;
      SubtractLimb(start, take, modulus, index, borrow, limb, next);
      modulus, borrow := modulus[index := limb], next;
    }
    DoneSubtracting(start, take, modulus, borrow);
    WordsOf(start, take, modulus, borrow);
    r := if borrow == 0 then Some(modulus) else None;
  }

  lemma LimbThere(start: seq<nat>, take: seq<nat>, now: seq<nat>, index: nat, borrow: nat, n: seq<nat>)
    requires index < |start| == |take| && |n| <= |take| && take == Padded(n, |take|) && Subtracted(start, take, now, index, borrow)
    ensures |now| == |start| && now[index] == start[index] && take[index] == if index < |n| then n[index] else 0
  {
    hide Limbs, Pow2, Prefix;
    assert now[index..][0] == start[index..][0];
  }

  lemma WordsOf(start: seq<nat>, take: seq<nat>, now: seq<nat>, borrow: nat)
    requires |start| == |take| && Subtracted(start, take, now, |start|, borrow)
    ensures AreWords(now)
  {
  }

  // ---------------------------------------------------------------- constants

  /** What a field type promises: a canonical offset without zero limbs on top. */
  ghost predicate FieldType(k: nat, n: seq<nat>) {
    2 <= k <= 256 && AreWords(n) && Trimmed(n) && 0 < Limbs(n) < Pow2(k - 1)
  }

  ghost function Prime(k: nat, n: seq<nat>): (p: nat)
    requires FieldType(k, n)
    ensures Pow2(k - 1) < p < Pow2(k)
  {
    Pow2Double(k - 1);
    Pow2(k) - Limbs(n)
  }

  lemma OffsetFits(k: nat, n: seq<nat>)
    requires FieldType(k, n)
    ensures |n| <= k / 64 + 1 && Limbs(n) <= Pow2(k)
  {
    hide Pow2;
    Pow2Double(k - 1);
    assert n != [];
    LessThanPow2IsRight(n, k - 1);
  }

  /** The limbs of a constant, reduced modulo the prime; negative ones count from the prime down. */
  method ConstantWords(k: nat, n: seq<nat>, value: int) returns (words: seq<nat>)
    requires FieldType(k, n) && -0x8000_0000_0000_0000 <= value < 0x8000_0000_0000_0000
    ensures |words| == (k + 63) / 64 && AreWords(words) && Limbs(words) == value % Prime(k, n)
  {
    hide Limbs, Pow2, Prefix, Subtracted, Prime;
    OffsetFits(k, n);
    var made := ModulusWords(k, n);
    PrimeIs(k, n, made.value);
    if k <= 64 {
      words := NarrowConstant(made.value, value, k);
    } else {
      WidePrime(k, n, value);
      words := WideConstant(made.value, value, k);
    }
  }

  /** One limb: the remainder itself. */
  method NarrowConstant(modulus: seq<nat>, value: int, k: nat) returns (words: seq<nat>)
    requires 0 < k <= 64 && |modulus| == k / 64 + 1 && 0 < Limbs(modulus) < Pow2(k)
    ensures |words| == (k + 63) / 64 && AreWords(words) && Limbs(words) == value % Limbs(modulus)
  {
    hide Limbs, Pow2;
    var p := modulus[0] + (if |modulus| > 1 then WORD * modulus[1] else 0);
    TwoLimbs(modulus);
    Pow2Monotone(k, 64);
    WordIsPow2();
    words := [value % p];
    OneLimb(value % p);
  }

  /** More limbs than a constant fills: the constant, or the prime less its magnitude. */
  method WideConstant(modulus: seq<nat>, value: int, k: nat) returns (words: seq<nat>)
    requires k > 64 && |modulus| == k / 64 + 1 && AreWords(modulus) && WORD < Limbs(modulus) < Pow2(k) && -(WORD as int) < value < WORD
    ensures |words| == (k + 63) / 64 && AreWords(words) && Limbs(words) == (if value >= 0 then 0 else Limbs(modulus)) + value
  {
    hide Limbs, Pow2;
    var length := (k + 63) / 64;
    if value >= 0 {
      ZeroLimbs(Zeros(length));
      LimbUpdate(Zeros(length), 0, value);
      FirstPlace();
      words := Zeros(length)[0 := value];
    } else {
      TopIsZero(modulus, length, k);
      words := TakeDown(modulus[..length], -value);
    }
  }

  lemma FirstPlace()
    ensures Pow2(64 * 0) == 1
  {
  }

  lemma PrimeIs(k: nat, n: seq<nat>, modulus: seq<nat>)
    requires FieldType(k, n) && Limbs(modulus) == Pow2(k) - Limbs(n)
    ensures Limbs(modulus) == Prime(k, n) && 0 < Pow2(k - 1) < Prime(k, n) < Pow2(k)
  {
  }

  lemma TwoLimbs(modulus: seq<nat>)
    requires 1 <= |modulus| <= 2
    ensures Limbs(modulus) == modulus[0] + if |modulus| > 1 then WORD * modulus[1] else 0
  {
    assert modulus[1..] == [] || modulus[1..] == [modulus[1]];
  }

  lemma OneLimb(x: nat)
    ensures Limbs([x]) == x
  {
  }

  lemma WidePrime(k: nat, n: seq<nat>, value: int)
    requires FieldType(k, n) && k > 64 && -0x8000_0000_0000_0000 <= value < 0x8000_0000_0000_0000
    ensures Prime(k, n) > WORD && value % Prime(k, n) == if value >= 0 then value else value + Prime(k, n)
  {
    hide Pow2, Limbs;
    WordIsPow2();
    Pow2Monotone(64, k - 1);
    var p := Prime(k, n);
    if value >= 0 {
      SmallMod(value, p);
    } else {
      DivModUnique(value, p, -1, value + p);
    }
  }

  /** The limbs below `2^k` hold all of a number below `2^k`. */
  lemma TopIsZero(modulus: seq<nat>, length: nat, k: nat)
    requires |modulus| == k / 64 + 1 && length == (k + 63) / 64 && AreWords(modulus) && Limbs(modulus) < Pow2(k) && k > 0
    ensures length <= |modulus| && AreWords(modulus[..length]) && Limbs(modulus[..length]) == Limbs(modulus)
  {
    hide Limbs, Pow2;
    if length == |modulus| {
      assert modulus[..length] == modulus;
    } else {
      PrefixStep(modulus, length);
      assert modulus[..length + 1] == modulus;
      assert k == 64 * length;
      var top := modulus[length];
      if top > 0 {
        MulMonotone(1, top, Pow2(k));
      }
    }
  }

  /** Subtract a magnitude below the limbs' value, one limb after the other. */
  method TakeDown(modulus: seq<nat>, magnitude: nat) returns (words: seq<nat>)
    requires |modulus| > 0 && AreWords(modulus) && magnitude < WORD && magnitude <= Limbs(modulus)
    ensures |words| == |modulus| && AreWords(words) && Limbs(words) == Limbs(modulus) - magnitude
  {
    hide Limbs, Pow2, Prefix, Subtracted, Padded;
    ghost var take := Padded([magnitude], |modulus|);
    PaddedLimbs([magnitude], |modulus|);
    OneLimb(magnitude);
    StartSubtracting(modulus, take);
    words := modulus;
    var borrow: nat := 0;
    for index := 0 to |modulus|
      invariant |words| == |modulus| && borrow <= 1 && Subtracted(modulus, take, words, index, borrow)
    {
      LimbThere(modulus, take, words, index, borrow, [magnitude]);
      var subtrahend := (if index == 0 then magnitude else 0) + borrow;
      var next := if words[index] >= subtrahend then 0 else 1;
      var limb: nat := words[index] - subtrahend + WORD * next;
      SubtractLimb(modulus, take, words, index, borrow, limb, next);
      words, borrow := words[index := limb], next;
    }
    DoneSubtracting(modulus, take, words, borrow);
    WordsOf(modulus, take, words, borrow);
  }

  // ---------------------------------------------------------------- arithmetic

  datatype PrimeOp = PAdd | PSub | PMul

  /** The field operation on any representatives. */
  function Residue(op: PrimeOp, a: nat, b: nat, p: nat): int
    requires p > 0
  {
    match op
    case PAdd => (a + b) % p
    case PSub => (a - b) % p
    case PMul => a * b % p
  }

  /** The emitted operations on unsigned integers of `width` bits, each result wrapped. */
  function Wrapped(op: PrimeOp, a: nat, b: nat, p: nat, width: nat): int
    requires p > 0
  {
    var x, y, m := a % p, b % p, Pow2(width);
    match op
    case PAdd => (x + y) % m % p
    case PSub => ((x + p) % m - y) % m % p
    case PMul => x * y % m % p
  }

  /** Widths as the LLVM backend picks them, and the result cut to the field's width. */
  function LlvmPrime(op: PrimeOp, a: nat, b: nat, p: nat, k: nat): int
    requires p > 0
  {
    Wrapped(op, a, b, p, if op.PMul? then 2 * k else k + 1) % Pow2(k)
  }

  /** The C type a field of `k` bits lives in. */
  function CWidth(k: nat): nat {
    if k <= 8 then 8 else if k <= 16 then 16 else if k <= 32 then 32 else 64
  }

  /** The C helpers compute in 128 bits and return the field's type. */
  function CPrime(op: PrimeOp, a: nat, b: nat, p: nat, k: nat): int
    requires p > 0
  {
    Wrapped(op, a, b, p, 128) % Pow2(CWidth(k))
  }

  lemma ProductOfResidues(x: nat, y: nat, p: nat, m: nat)
    requires x < p && y < p && p * p <= m
    ensures x * y < m
  {
    MulMonotone(x, p, y);
    MulMonotone(y, p, p);
  }

  /** In integers that hold `2p`, or `p * p` for products, nothing wraps. */
  lemma NothingWraps(op: PrimeOp, a: nat, b: nat, p: nat, width: nat)
    requires p > 0 && 2 * p <= Pow2(width) && (op.PMul? ==> p * p <= Pow2(width))
    ensures Wrapped(op, a, b, p, width) == Residue(op, a, b, p) && 0 <= Residue(op, a, b, p) < p
  {
    hide Pow2;
    var x, y, m := a % p, b % p, Pow2(width);
    match op
    case PAdd =>
      SmallMod(x + y, m);
      AddModReduce(a, b, p);
      AddModReduce(x, b, p);
    case PSub =>
      SmallMod(x + p, m);
      SmallMod(x + p - y, m);
      ModOfMultiple(x - y, 1, p);
      SubModTwice(a, b, p);
    case PMul =>
      ProductOfResidues(x, y, p, m);
      SmallMod(x * y, m);
      MulModReduce(a, b, p);
      MulModReduce(x, b, p);
  }

  lemma SubModTwice(a: int, b: int, p: int)
    requires p > 0
    ensures (a % p - b % p) % p == (a - b) % p
  {
    assert a - b == (a % p - b % p) + (a / p - b / p) * p by {
      DivSplit(a, p);
      DivSplit(b, p);
      Spread(a / p, b / p, p);
    }
    ModOfMultiple(a % p - b % p, a / p - b / p, p);
  }

  lemma DivSplit(a: int, p: int)
    requires p > 0
    ensures a == a / p * p + a % p
  {
  }

  lemma Spread(u: int, v: int, p: int)
    ensures (u - v) * p == u * p - v * p
  {
  }

  lemma SquareBelow(p: nat, k: nat)
    requires p <= Pow2(k)
    ensures p * p <= Pow2(2 * k)
  {
    Pow2Add(k, k);
    MulMonotone(p, Pow2(k), p);
    MulMonotone(p, Pow2(k), Pow2(k));
  }

  /** The LLVM sequence is the field operation, whatever representatives it is given. */
  lemma LlvmPrimeExact(op: PrimeOp, a: nat, b: nat, k: nat, n: seq<nat>)
    requires FieldType(k, n)
    ensures LlvmPrime(op, a, b, Prime(k, n), k) == Residue(op, a, b, Prime(k, n)) < Prime(k, n)
  {
    hide Pow2, Limbs, Wrapped, Residue, FieldType;
    var p, width := Prime(k, n), if op.PMul? then 2 * k else k + 1;
    FieldWidth(k, n);
    Pow2Double(k);
    Pow2Monotone(k + 1, width);
    SquareBelow(p, k);
    NothingWraps(op, a, b, p, width);
    SmallMod(Residue(op, a, b, p), Pow2(k));
  }

  lemma FieldWidth(k: nat, n: seq<nat>)
    requires FieldType(k, n)
    ensures 2 <= k <= 256 && 0 < Prime(k, n) < Pow2(k)
  {
  }

  /** So is the C helper, for fields of up to 64 bits: the two backends agree. */
  lemma CPrimeExact(op: PrimeOp, a: nat, b: nat, k: nat, n: seq<nat>)
    requires FieldType(k, n) && k <= 64
    ensures CPrime(op, a, b, Prime(k, n), k) == Residue(op, a, b, Prime(k, n)) == LlvmPrime(op, a, b, Prime(k, n), k)
  {
    hide Pow2, Limbs, Wrapped, Residue, FieldType, LlvmPrime;
    var p, wide, narrow := Prime(k, n), 128, CWidth(k);
    FieldWidth(k, n);
    Pow2Double(k);
    Pow2Monotone(k + 1, wide);
    SquareBelow(p, k);
    Pow2Monotone(2 * k, wide);
    NothingWraps(op, a, b, p, wide);
    Pow2Monotone(k, narrow);
    SmallMod(Residue(op, a, b, p), Pow2(narrow));
    LlvmPrimeExact(op, a, b, k, n);
  }
}
