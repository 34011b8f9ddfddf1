/**
 The part of the Ethereum Virtual Machine that straight-line bytecode uses (Yellow Paper, appendix H):
 a stack of 256-bit words, byte-addressed memory, call data, and the bytes of the code still to run.
 Gas is not modelled.
 */
module EvmMachine {
  import opened Numbers

  const OP_AND: nat := 0x16
  const OP_OR: nat := 0x17
  const OP_XOR: nat := 0x18
  const OP_NOT: nat := 0x19
  const OP_CALLDATALOAD: nat := 0x35
  const OP_MLOAD: nat := 0x51
  const OP_MSTORE: nat := 0x52
  const OP_PUSH0: nat := 0x5f
  const OP_RETURN: nat := 0xf3
  const STACK_LIMIT: nat := 1024

  type Bits = seq<bool>

  /** A word is its 256 bits, a byte its 8, low bit first. */
  type Word = w: Bits | |w| == 256 witness seq(256, i requires 0 <= i < 256 => false)

  type Byte = b: Bits | |b| == 8 witness seq(8, i requires 0 <= i < 8 => false)

  type Memory = map<nat, Byte>

  const NO_BITS: Byte := [false, false, false, false, false, false, false, false]

  function ToWord(n: nat): Word {
    Digits(n, 256)
  }

  lemma WordBack(n: nat)
    requires n < Pow2(64)
    ensures Num(ToWord(n)) == n
  {
    NumOfDigits(n, 256);
    Pow2Monotone(64, 256);
    SmallMod(n, Pow2(256));
  }

  // ---------------------------------------------------------------- memory

  /** Byte `k` of a word in memory, the highest first. */
  function ByteOf(w: Word, k: nat): Byte
    requires k < 32
  {
    w[8 * (31 - k)..8 * (31 - k) + 8]
  }

  function LoadByte(mem: Memory, addr: nat): Byte {
    if addr in mem then mem[addr] else NO_BITS
  }

  /** The first `n` bytes of a word, written from `addr` on. */
  function StoreBytes(mem: Memory, addr: nat, w: Word, n: nat): Memory
    requires n <= 32
  {
    if n == 0 then mem else StoreBytes(mem, addr, w, n - 1)[addr + n - 1 := ByteOf(w, n - 1)]
  }

  function Store(mem: Memory, addr: nat, w: Word): Memory {
    StoreBytes(mem, addr, w, 32)
  }

  lemma {:induction false} StoredByte(mem: Memory, addr: nat, w: Word, n: nat, a: nat)
    requires n <= 32
    ensures LoadByte(StoreBytes(mem, addr, w, n), a) == if addr <= a < addr + n then ByteOf(w, a - addr) else LoadByte(mem, a)
    decreases n
  {
    hide ByteOf;
    if n > 0 {
      StoredByte(mem, addr, w, n - 1, a);
    }
  }

  function Load(mem: Memory, addr: nat): (w: Word)
    ensures forall i | 0 <= i < 256 :: w[i] == LoadByte(mem, addr + 31 - i / 8)[i % 8]
  {
    seq(256, i requires 0 <= i < 256 => LoadByte(mem, addr + 31 - i / 8)[i % 8])
  }

  lemma LoadStored(mem: Memory, addr: nat, w: Word)
    ensures Load(Store(mem, addr, w), addr) == w
  {
    hide LoadByte, StoreBytes;
    var r := Store(mem, addr, w);
    forall i | 0 <= i < 256 ensures Load(r, addr)[i] == w[i] {
      var k := 31 - i / 8;
      BitPlace(i);
      StoredByte(mem, addr, w, 32, addr + k);
      assert ByteOf(w, k)[i % 8] == w[8 * (31 - k) + i % 8];
    }
  }

  lemma BitPlace(i: nat)
    ensures 8 * (i / 8) + i % 8 == i && i % 8 < 8
    ensures i < 256 ==> i / 8 < 32
  {
  }

  lemma LoadElsewhere(mem: Memory, addr: nat, w: Word, other: nat)
    requires other + 32 <= addr || addr + 32 <= other
    ensures Load(Store(mem, addr, w), other) == Load(mem, other)
  {
    hide LoadByte, StoreBytes;
    var r := Store(mem, addr, w);
    forall i | 0 <= i < 256 ensures Load(r, other)[i] == Load(mem, other)[i] {
      BitPlace(i);
      StoredByte(mem, addr, w, 32, other + 31 - i / 8);
    }
  }

  /** The word at an offset of the call data, zeros past its end. */
  function CallDataWord(data: seq<Byte>, offset: nat): (w: Word)
    ensures forall i | 0 <= i < 256 :: w[i] == (offset + 31 - i / 8 < |data| && data[offset + 31 - i / 8][i % 8])
  {
    seq(256, i requires 0 <= i < 256 => offset + 31 - i / 8 < |data| && data[offset + 31 - i / 8][i % 8])
  }

  // ---------------------------------------------------------------- execution

  /** The stack grows at its end. */
  datatype Machine = Machine(stack: seq<Word>, mem: Memory)

  datatype Outcome = Returned(bytes: seq<Byte>) | Stopped | Failed

  function AndWord(a: Word, b: Word): (r: Word)
    ensures forall i | 0 <= i < 256 :: r[i] == (a[i] && b[i])
  {
    seq(256, i requires 0 <= i < 256 => a[i] && b[i])
  }

  function OrWord(a: Word, b: Word): (r: Word)
    ensures forall i | 0 <= i < 256 :: r[i] == (a[i] || b[i])
  {
    seq(256, i requires 0 <= i < 256 => a[i] || b[i])
  }

  function XorWord(a: Word, b: Word): (r: Word)
    ensures forall i | 0 <= i < 256 :: r[i] == (a[i] != b[i])
  {
    seq(256, i requires 0 <= i < 256 => a[i] != b[i])
  }

  function NotWord(a: Word): (r: Word)
    ensures forall i | 0 <= i < 256 :: r[i] == !a[i]
  {
    seq(256, i requires 0 <= i < 256 => !a[i])
  }

  /** The number big-endian bytes stand for. */
  function BigEndian(bytes: seq<nat>): nat {
    if bytes == [] then 0 else 256 * BigEndian(bytes[..|bytes| - 1]) + bytes[|bytes| - 1]
  }

  function MemBytes(mem: Memory, offset: nat, size: nat): (r: seq<Byte>)
    ensures |r| == size && forall k | 0 <= k < size :: r[k] == LoadByte(mem, offset + k)
  {
    seq<Byte>(size, k requires 0 <= k < size => LoadByte(mem, offset + k))
  }

  /** How many immediate bytes follow an opcode. */
  function Immediate(op: nat): nat {
    if 0x60 <= op <= 0x7f then op - 0x5f else 0
  }

  /** Code ends in zeros as far as a push may look. */
  function Operand(code: seq<nat>, n: nat): seq<nat> {
    seq(n, k requires 0 <= k < n => if 1 + k < |code| then code[1 + k] else 0)
  }

  /** Run the remaining code. */
  function Exec(code: seq<nat>, m: Machine, data: seq<Byte>): Outcome
    decreases |code|
  {
    if code == [] then Stopped
    else
      var op, s := code[0], m.stack;
      var n := |s|;
      var rest := if 1 + Immediate(op) <= |code| then code[1 + Immediate(op)..] else [];
      if op == OP_PUSH0 then
        if n >= STACK_LIMIT then Failed else Exec(rest, Machine(s + [ToWord(0)], m.mem), data)
      else if 0x60 <= op <= 0x7f then
        if n >= STACK_LIMIT then Failed else Exec(rest, Machine(s + [ToWord(BigEndian(Operand(code, Immediate(op))))], m.mem), data)
      else if op == OP_AND || op == OP_OR || op == OP_XOR then
        if n < 2 then Failed
        else
          var a, b := s[n - 1], s[n - 2];
          var r := if op == OP_AND then AndWord(a, b) else if op == OP_OR then OrWord(a, b) else XorWord(a, b);
          Exec(rest, Machine(s[..n - 2] + [r], m.mem), data)
      else if op == OP_NOT then
        if n < 1 then Failed else Exec(rest, Machine(s[..n - 1] + [NotWord(s[n - 1])], m.mem), data)
      else if op == OP_CALLDATALOAD then
        if n < 1 then Failed else Exec(rest, Machine(s[..n - 1] + [CallDataWord(data, Num(s[n - 1]))], m.mem), data)
      else if op == OP_MLOAD then
        if n < 1 then Failed else Exec(rest, Machine(s[..n - 1] + [Load(m.mem, Num(s[n - 1]))], m.mem), data)
      else if op == OP_MSTORE then
        if n < 2 then Failed else Exec(rest, Machine(s[..n - 2], Store(m.mem, Num(s[n - 1]), s[n - 2])), data)
      else if op == OP_RETURN then
        if n < 2 then Failed else Returned(MemBytes(m.mem, Num(s[n - 1]), Num(s[n - 2])))
      else Failed
  }

  // ---------------------------------------------------------------- single instructions in front of other code

  lemma ExecPush0(rest: seq<nat>, m: Machine, data: seq<Byte>)
    requires |m.stack| < STACK_LIMIT
    ensures Exec([OP_PUSH0] + rest, m, data) == Exec(rest, Machine(m.stack + [ToWord(0)], m.mem), data)
  {
    hide ToWord;
    assert ([OP_PUSH0] + rest)[1..] == rest;
  }

  lemma ExecPush(bytes: seq<nat>, rest: seq<nat>, m: Machine, data: seq<Byte>)
    requires |m.stack| < STACK_LIMIT && 1 <= |bytes| <= 32
    ensures Exec([0x5f + |bytes|] + bytes + rest, m, data) == Exec(rest, Machine(m.stack + [ToWord(BigEndian(bytes))], m.mem), data)
  {
    hide ToWord, BigEndian;
    var code := [0x5f + |bytes|] + bytes + rest;
    assert code[1 + |bytes|..] == rest;
    assert Operand(code, |bytes|) == bytes;
  }

  lemma ExecBinary(op: nat, rest: seq<nat>, m: Machine, data: seq<Byte>, below: seq<Word>, b: Word, a: Word)
    requires op == OP_AND || op == OP_OR || op == OP_XOR
    requires m.stack == below + [b, a]
    ensures Exec([op] + rest, m, data)
      == Exec(rest, Machine(below + [if op == OP_AND then AndWord(a, b) else if op == OP_OR then OrWord(a, b) else XorWord(a, b)], m.mem), data)
  {
    hide AndWord, OrWord, XorWord;
    assert ([op] + rest)[1..] == rest;
    assert m.stack[..|m.stack| - 2] == below;
  }

  lemma ExecNot(rest: seq<nat>, m: Machine, data: seq<Byte>, below: seq<Word>, a: Word)
    requires m.stack == below + [a]
    ensures Exec([OP_NOT] + rest, m, data) == Exec(rest, Machine(below + [NotWord(a)], m.mem), data)
  {
    hide NotWord;
    assert ([OP_NOT] + rest)[1..] == rest;
    assert m.stack[..|m.stack| - 1] == below;
  }

  lemma ExecCallDataLoad(rest: seq<nat>, m: Machine, data: seq<Byte>, below: seq<Word>, a: Word)
    requires m.stack == below + [a]
    ensures Exec([OP_CALLDATALOAD] + rest, m, data) == Exec(rest, Machine(below + [CallDataWord(data, Num(a))], m.mem), data)
  {
    hide CallDataWord, Num;
    assert ([OP_CALLDATALOAD] + rest)[1..] == rest;
    assert m.stack[..|m.stack| - 1] == below;
  }

  lemma ExecLoad(rest: seq<nat>, m: Machine, data: seq<Byte>, below: seq<Word>, a: Word)
    requires m.stack == below + [a]
    ensures Exec([OP_MLOAD] + rest, m, data) == Exec(rest, Machine(below + [Load(m.mem, Num(a))], m.mem), data)
  {
    hide Load, Num;
    assert ([OP_MLOAD] + rest)[1..] == rest;
    assert m.stack[..|m.stack| - 1] == below;
  }

  lemma ExecStore(rest: seq<nat>, m: Machine, data: seq<Byte>, below: seq<Word>, value: Word, a: Word)
    requires m.stack == below + [value, a]
    ensures Exec([OP_MSTORE] + rest, m, data) == Exec(rest, Machine(below, Store(m.mem, Num(a), value)), data)
  {
    hide Store, Num;
    assert ([OP_MSTORE] + rest)[1..] == rest;
    assert m.stack[..|m.stack| - 2] == below;
  }

  lemma ExecReturn(m: Machine, data: seq<Byte>, below: seq<Word>, size: Word, a: Word)
    requires m.stack == below + [size, a]
    ensures Exec([OP_RETURN], m, data) == Returned(MemBytes(m.mem, Num(a), Num(size)))
  {
    hide MemBytes, Num;
  }
}
