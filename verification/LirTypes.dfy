/**
 The types of the intermediate language as WebAssembly locals, the conversions between them, and
 when these keep the number a local stands for. Narrow integers live in 32-bit locals whose upper
 bits nobody clears.
 */
module LirTypes {
  import opened Common
  import opened Numbers
  import opened WasmMachine
  import opened BlockProgram
  import opened WasmConvert

  type NarrowBits = b: nat | b == 8 || b == 16 || b == 32 witness 8
  type LimbCount = n: nat | n == 2 || n == 4 witness 2

  /** `Packed` is one integer in little-endian 64-bit limbs, `Lanes` a vector. */
  datatype LirTy =
    | Boolean
    | NativeBit
    | Narrow(bits: NarrowBits)
    | Long
    | Packed(limbs: LimbCount)
    | Lanes(elem: LirTy, n: nat)

  /** The value types of the locals of a value, in order. */
  function Words(ty: LirTy): (r: seq<bool>) {
    match ty
    case Packed(limbs) => Repeat(true, limbs)
    case Lanes(elem, n) => Copies(Words(elem), n)
    case _ => [ty.Long?]
  }

  function Copies(ws: seq<bool>, n: nat): (r: seq<bool>)
    ensures |r| == n * |ws|
  {
    if n == 0 then [] else Copies(ws, n - 1) + ws
  }

  function Locals(ty: LirTy): nat {
    |Words(ty)|
  }

  predicate Scalar(ty: LirTy) {
    !ty.Packed? && !ty.Lanes?
  }

  function BitWidth(ty: LirTy): (r: nat)
    requires Scalar(ty)
    ensures 0 < r <= 64 && (r == 64 <==> ty.Long?) && (r <= 32 <==> !ty.Long?)
  {
    if ty.Narrow? then ty.bits else if ty.Long? then 64 else 1
  }

  // ---------------------------------------------------------------- the conversions chosen

  /** The code tells whole limbs apart from 32-bit locals, and masks narrow sources other than Booleans. */
  function ZextConv(src: LirTy, dst: LirTy): (r: Conv)
    requires Scalar(src) && Scalar(dst)
    ensures ConvFits(r)
  {
    if dst.Long? && !src.Long? then ZeroExtend
    else if !src.Long? && !dst.Long? && BitWidth(src) < 32 && !src.Boolean? then MaskTo(BitWidth(src))
    else Keep
  }

  function SextConv(src: LirTy, dst: LirTy): (r: Conv)
    requires Scalar(src) && Scalar(dst)
    ensures ConvFits(r)
  {
    if dst.Long? && !src.Long? then SignExtend
    else if BitWidth(src) < 32 then SignFrom(BitWidth(src))
    else Keep
  }

  function TruncConv(src: LirTy, dst: LirTy): (r: Conv)
    requires Scalar(src) && Scalar(dst)
    ensures ConvFits(r)
  {
    if src.Long? && !dst.Long? then Wrap
    else if !src.Long? && !dst.Long? && BitWidth(dst) < 32 then MaskTo(BitWidth(dst))
    else Keep
  }

  function NotConv(ty: LirTy): (r: Conv)
    requires Scalar(ty)
    ensures ConvFits(r)
  {
    if ty.Boolean? then FlipLowest else Flip(ty.Long?)
  }

  // ---------------------------------------------------------------- what they are for

  /** The number a local of the type stands for: its low bits. */
  function NumberOf(ty: LirTy, v: Val): nat
    requires Scalar(ty)
  {
    hide Pow2;
    var p: nat := Pow2(BitWidth(ty));
    Raw(v) % p
  }

  function SignedOf(ty: LirTy, v: Val): int
    requires Scalar(ty)
  {
    SignedLow(Raw(v), BitWidth(ty))
  }

  predicate Holds(ty: LirTy, v: Val)
    requires Scalar(ty)
  {
    Typed(v, ty.Long?)
  }

  lemma RawBound(ty: LirTy, v: Val)
    requires Scalar(ty) && Holds(ty, v)
    ensures Raw(v) < Pow2(if ty.Long? then 64 else 32)
  {
    PowersOfWords();
  }

  /**
   Zero extension keeps the number, except into 64 bits from a narrow local with bits above its
   width, and from a Boolean that is not zero or one.
   */
  lemma ZextExactly(src: LirTy, dst: LirTy, v: Val)
    requires Scalar(src) && Scalar(dst) && BitWidth(src) <= BitWidth(dst) && Holds(src, v)
    ensures Converted(ZextConv(src, dst), v).Some? && Holds(dst, Converted(ZextConv(src, dst), v).value)
    ensures NumberOf(dst, Converted(ZextConv(src, dst), v).value) == NumberOf(src, v)
      <==> (if dst.Long? && !src.Long? then Raw(v) < Pow2(BitWidth(src))
            else if src.Boolean? then NumberOf(dst, v) < 2
            else true)
  {
    hide Pow2;
    RawBound(src, v);
    PowersOfWords();
    SmallPowers();
    var w := BitWidth(src);
    if dst.Long? && !src.Long? {
      SmallMod(Raw(v), Pow2(64));
      ModIsItself(Raw(v), Pow2(w));
    } else if ZextConv(src, dst).MaskTo? {
      Pow2Monotone(w, 32);
      Pow2Monotone(w, BitWidth(dst));
      RemainderBound(Raw(v), Pow2(w));
      SmallMod(Raw(v) % Pow2(w), Pow2(32));
      SmallMod(Raw(v) % Pow2(w), Pow2(BitWidth(dst)));
    } else if src.Boolean? {
      Pow2Monotone(1, BitWidth(dst));
      ModOfPower(Raw(v), 1, BitWidth(dst));
      ModIsItself(NumberOf(dst, v), 2);
    }
  }

  lemma ModIsItself(x: nat, p: nat)
    requires p > 0
    ensures x == x % p <==> x < p
  {
    if x < p {
      SmallMod(x, p);
    }
  }

  lemma RemainderBound(x: nat, p: nat)
    requires p > 0
    ensures 0 <= x % p < p
  {
  }

  /** Sign extension keeps the signed number, except into 64 bits from a narrow local that is not sign extended already. */
  lemma SextExactly(src: LirTy, dst: LirTy, v: Val)
    requires Scalar(src) && Scalar(dst) && BitWidth(src) <= BitWidth(dst) && Holds(src, v)
    ensures Converted(SextConv(src, dst), v).Some? && Holds(dst, Converted(SextConv(src, dst), v).value)
    ensures SignedOf(dst, Converted(SextConv(src, dst), v).value) == SignedOf(src, v)
      <==> (dst.Long? && !src.Long? ==> AsInt(Raw(v), false) == SignedOf(src, v))
  {
    hide Pow2, SignedLow, AsInt;
    RawBound(src, v);
    PowersOfWords();
    var w := BitWidth(src);
    if dst.Long? && !src.Long? {
      AsIntIsSigned(Raw(v), false);
      SignedAgain(Raw(v), 32, 64);
    } else if SextConv(src, dst).SignFrom? {
      SignedWrapped(Raw(v), w);
      SignedAgain(Raw(v), w, BitWidth(dst));
    }
  }

  lemma AsIntIsSigned(x: nat, is64: bool)
    requires x < Size(is64)
    ensures AsInt(x, is64) == SignedLow(x, Bits64(is64))
  {
    hide Pow2;
    PowersOfWords();
    SmallMod(x, Size(is64));
  }

  /** A signed number is the same read in more bits. */
  lemma SignedAgain(x: nat, w: nat, n: nat)
    requires 0 < w <= n
    ensures SignedLow(SignedLow(x, w) % Pow2(n), n) == SignedLow(x, w)
  {
    hide Pow2;
    var s, p, q := SignedLow(x, w), Pow2(w), Pow2(n);
    HalfPower(w);
    Pow2Monotone(w, n);
    RemainderBound(x, p);
    if s < 0 {
      DivModUnique(s, q, -1, s + q);
      SmallMod(s + q, q);
    } else {
      SmallMod(s, q);
      SmallMod(s % q, q);
    }
  }

  lemma HalfPower(w: nat)
    requires w > 0
    ensures Pow2(w) == 2 * Pow2(w - 1)
  {
  }

  /** Written into 32 bits, and read in any number of bits up to 32. */
  lemma SignedWrapped(x: nat, w: nat)
    requires 0 < w <= 32
    ensures forall n: nat {:trigger SignedLow(SignedLow(x, w) % WORD32, n)} :: w <= n <= 32 ==>
      SignedLow(SignedLow(x, w) % WORD32, n) == SignedLow(SignedLow(x, w) % Pow2(n), n)
  {
    hide Pow2;
    var s := SignedLow(x, w);
    forall n: nat | w <= n <= 32 ensures SignedLow(s % WORD32, n) == SignedLow(s % Pow2(n), n) {
      PowersOfWords();
      ModOfPower(s, n, 32);
      RemainderBoundInt(s, Pow2(n));
      ModIsItself(s % Pow2(n), Pow2(n));
    }
  }

  lemma RemainderBoundInt(x: int, p: nat)
    requires p > 0
    ensures 0 <= x % p < p
  {
  }

  /** Truncation keeps the low bits of the number. */
  lemma TruncKeepsLow(src: LirTy, dst: LirTy, v: Val)
    requires Scalar(src) && Scalar(dst) && BitWidth(dst) <= BitWidth(src) && Holds(src, v)
    ensures Converted(TruncConv(src, dst), v).Some? && Holds(dst, Converted(TruncConv(src, dst), v).value)
    ensures NumberOf(dst, Converted(TruncConv(src, dst), v).value) == NumberOf(src, v) % Pow2(BitWidth(dst))
  {
    hide Pow2;
    RawBound(src, v);
    PowersOfWords();
    var x, w, n := Raw(v), BitWidth(dst), BitWidth(src);
    ModOfPower(x, w, n);
    if TruncConv(src, dst).Wrap? {
      ModOfPower(x, w, 32);
    } else if TruncConv(src, dst).MaskTo? {
      Pow2Monotone(w, 32);
      RemainderBound(x, Pow2(w));
      SmallMod(x % Pow2(w), Pow2(32));
      SmallMod(x % Pow2(w), Pow2(w));
    }
  }

  /** The complement of the number, within the bits of the type. */
  lemma NotComplements(ty: LirTy, v: Val)
    requires Scalar(ty) && Holds(ty, v)
    ensures Converted(NotConv(ty), v).Some? && Holds(ty, Converted(NotConv(ty), v).value)
    ensures NumberOf(ty, Converted(NotConv(ty), v).value) == Pow2(BitWidth(ty)) - 1 - NumberOf(ty, v)
  {
    hide Pow2;
    RawBound(ty, v);
    PowersOfWords();
    SmallPowers();
    var x, w, n := Raw(v), BitWidth(ty), if ty.Long? then 64 else 32;
    if ty.Boolean? {
      if x % 2 == 0 {
        Neighbours(x);
        SmallMod(x + 1, WORD32);
      } else {
        Neighbours(x);
        SmallMod(x - 1, WORD32);
      }
    } else {
      SmallMod(Pow2(n) - 1 - x, Pow2(n));
      Pow2Add(n - w, w);
      ComplementLowBits(x, Pow2(n - w), Pow2(w));
    }
  }

  lemma Neighbours(x: nat)
    requires x < WORD32
    ensures x % 2 == 0 ==> x + 1 < WORD32 && (x + 1) % 2 == 1
    ensures x % 2 == 1 ==> (x - 1) % 2 == 0
  {
  }

  lemma ComplementLowBits(x: nat, h: nat, p: nat)
    requires p > 0 && h > 0 && x < h * p
    ensures (h * p - 1 - x) % p == p - 1 - x % p
  {
    var q, r := x / p, x % p;
    assert h * p - 1 - x == (h - 1 - q) * p + (p - 1 - r) by {
      assert x == q * p + r;
      assert (h - 1 - q) * p == h * p - p - q * p;
    }
    DivModUnique(h * p - 1 - x, p, h - 1 - q, p - 1 - r);
  }

  /** Cut to a narrow type and extended again, a 64-bit number keeps 32 of its bits: right only if they fit. */
  lemma TruncZextExactly(dst: LirTy, v: Val)
    requires Scalar(dst) && !dst.Long? && v.V64?
    ensures
      var narrow := Converted(TruncConv(Long, dst), v);
      narrow.Some? && Holds(dst, narrow.value) && Converted(ZextConv(dst, Long), narrow.value).Some?
      && (NumberOf(Long, Converted(ZextConv(dst, Long), narrow.value).value) == Raw(v) % Pow2(BitWidth(dst))
          <==> Raw(v) % WORD32 < Pow2(BitWidth(dst)))
  {
    hide Pow2;
    PowersOfWords();
    var narrow := Wrapped(v.w, false);
    TruncKeepsLow(Long, dst, v);
    ZextExactly(dst, Long, narrow);
    SmallMod(v.w, Pow2(64));
  }

  /** The ninth bit survives a cut to eight. */
  lemma NinthBitSurvives()
    ensures
      var narrow := Converted(TruncConv(Long, Narrow(8)), V64(256));
      narrow.Some? && Converted(ZextConv(Narrow(8), Long), narrow.value) == Some(V64(256)) && 256 % Pow2(8) == 0
  {
    SmallMod(256, WORD32);
    assert Pow2(8) == 256;
  }
}
