/**
 The import name of a field operation: written from the field's description, nested fields included,
 and read back to exactly that description.
 */
module FieldSymbol {
  import opened Common
  import opened Numbers
  import opened Numerals
  import opened FieldTower
  import FieldArithmetic

  const U32: nat := 0x1_0000_0000

  datatype FieldOp = OpAdd | OpMul | OpPack | OpUnpack

  /** What the parser accepts: a monic modulus whose coefficients fit the wrapped field, of at most 64 bits. */
  predicate SpecOk(f: Field) {
    && 2 <= f.degree < U32 && |f.irreducible| == f.degree + 1 && f.irreducible[f.degree] == 1
    && 1 <= Width(f.wrapped) <= 64 && (forall i | 0 <= i < f.degree :: f.irreducible[i] < Pow2(Width(f.wrapped)))
    && (f.wrapped.Ext? ==> SpecOk(f.wrapped.field))
  }

  // ---------------------------------------------------------------- bits and hex digits

  /** Without the zeros at the top. */
  function Trim(bits: Bits): (r: Bits)
    ensures |r| <= |bits| && r == bits[..|r|] && (r != [] ==> r[|r| - 1])
    ensures forall i | |r| <= i < |bits| :: !bits[i]
  {
    if bits == [] || bits[|bits| - 1] then bits else Trim(bits[..|bits| - 1])
  }

  function PadTo4(bits: Bits): (r: Bits)
    ensures |r| % 4 == 0 && |bits| <= |r| < |bits| + 4 && r == bits + Zeros(|r| - |bits|)
  {
    bits + Zeros((4 - |bits| % 4) % 4)
  }

  /** Hex digits, the highest first, of bits, the lowest first. */
  function HexOf(bits: Bits): string
    requires |bits| % 4 == 0
  {
    if bits == [] then ""
    else
      NumBound(bits[..4]);
      HexOf(bits[4..]) + [DigitChar(Num(bits[..4]) % 16)]
  }

  predicate IsHex(c: char) {
    DigitOf(c).Some?
  }

  predicate AllHex(s: string) {
    forall i | 0 <= i < |s| :: IsHex(s[i])
  }

  function BitsOf(hex: string): Bits
    requires AllHex(hex)
  {
    if hex == "" then [] else Digits(DigitOf(hex[|hex| - 1]).value, 4) + BitsOf(hex[..|hex| - 1])
  }

  lemma {:induction false} HexBack(bits: Bits)
    requires |bits| % 4 == 0
    ensures |HexOf(bits)| == |bits| / 4 && AllHex(HexOf(bits)) && BitsOf(HexOf(bits)) == bits
    decreases |bits|
  {
    hide Num, Digits, DigitChar, DigitOf;
    if bits != [] {
      HexBack(bits[4..]);
      NibbleBack(bits[..4]);
      HexLast(bits);
      var hex := HexOf(bits);
      assert hex[..|hex| - 1] == HexOf(bits[4..]);
      HexSnoc(HexOf(bits[4..]), DigitChar(Num(bits[..4])));
      assert bits[..4] + bits[4..] == bits;
    }
  }

  lemma HexLast(bits: Bits)
    requires |bits| >= 4 && |bits| % 4 == 0
    ensures Num(bits[..4]) < 16 && HexOf(bits) == HexOf(bits[4..]) + [DigitChar(Num(bits[..4]))]
  {
    hide Num, DigitChar;
    NibbleBack(bits[..4]);
  }

  lemma HexSnoc(hex: string, c: char)
    requires AllHex(hex) && IsHex(c)
    ensures AllHex(hex + [c]) && BitsOf(hex + [c]) == Digits(DigitOf(c).value, 4) + BitsOf(hex)
  {
    hide Digits, DigitOf;
    assert (hex + [c])[..|hex|] == hex;
  }

  lemma NibbleBack(bits: Bits)
    requires |bits| == 4
    ensures Num(bits) < 16 && DigitOf(DigitChar(Num(bits))) == Some(Num(bits)) && Digits(Num(bits), 4) == bits
  {
    NumBound(bits);
    assert Pow2(4) == 16;
    DigitBack(Num(bits));
    DigitsOfNum(bits);
  }

  // ---------------------------------------------------------------- the modulus

  function CoeffRow(irreducible: seq<nat>, n: nat, w: nat): (r: Row)
    requires n <= |irreducible|
    ensures IsRow(r, n, w) && forall i | 0 <= i < n :: r[i] == Digits(irreducible[i], w)
  {
    seq(n, i requires 0 <= i < n => Digits(irreducible[i], w))
  }

  /** The modulus without its leading one, as hex digits. */
  function HexModulus(f: Field): string
    requires |f.irreducible| == f.degree + 1
  {
    var bits := Trim(Flat(CoeffRow(f.irreducible, f.degree, Width(f.wrapped))));
    if bits == [] then "0" else HexOf(PadTo4(bits))
  }

  function FillTo(bits: Bits, n: nat): (r: Bits)
    requires |bits| <= n
    ensures |r| == n
  {
    bits + Zeros(n - |bits|)
  }

  function NumRow(row: Row): (r: seq<nat>)
    ensures |r| == |row| && forall i | 0 <= i < |row| :: r[i] == Num(row[i])
  {
    seq(|row|, i requires 0 <= i < |row| => Num(row[i]))
  }

  function ReadModulus(hex: string, degree: nat, w: nat): Option<seq<nat>>
    requires AllHex(hex)
  {
    var bits := Trim(BitsOf(hex));
    if |bits| > degree * w then None
    else Some(NumRow(Split(FillTo(bits, degree * w), degree, w)) + [1])
  }

  lemma {:induction false} TrimZeros(bits: Bits, n: nat)
    ensures Trim(bits + Zeros(n)) == Trim(bits)
    decreases n
  {
    if n == 0 {
      assert bits + Zeros(0) == bits;
    } else {
      assert (bits + Zeros(n))[..|bits| + n - 1] == bits + Zeros(n - 1);
      TrimZeros(bits, n - 1);
    }
  }

  lemma TrimTrim(bits: Bits)
    ensures Trim(Trim(bits)) == Trim(bits)
  {
  }

  /** Filling up what was trimmed restores it. */
  lemma FillTrim(bits: Bits)
    ensures FillTo(Trim(bits), |bits|) == bits
  {
  }

  lemma ModulusBack(f: Field)
    requires SpecOk(f)
    ensures AllHex(HexModulus(f)) && HexModulus(f) != "" && ReadModulus(HexModulus(f), f.degree, Width(f.wrapped)) == Some(f.irreducible)
  {
    hide SpecOk, Width, Pow2, Split, Flat, Num, HexOf, Trim, BitsOf, FillTo, PadTo4, Digits, AllHex;
    var w := Width(f.wrapped);
    SpecFacts(f);
    var row := CoeffRow(f.irreducible, f.degree, w);
    var bits := Flat(row);
    FlatLength(row, f.degree, w);
    SplitFlat(row, f.degree, w);
    FillTrim(bits);
    var hex := HexModulus(f);
    HexTrim(bits, hex);
    forall i | 0 <= i < f.degree ensures Num(row[i]) == f.irreducible[i] {
      NumOfDigits(f.irreducible[i], w);
      SmallMod(f.irreducible[i], Pow2(w));
    }
    assert NumRow(row) + [1] == f.irreducible;
  }

  lemma SpecFacts(f: Field)
    requires SpecOk(f)
    ensures 2 <= f.degree < U32 && |f.irreducible| == f.degree + 1 && f.irreducible[f.degree] == 1 && 1 <= Width(f.wrapped) <= 64
    ensures forall i | 0 <= i < f.degree :: f.irreducible[i] < Pow2(Width(f.wrapped))
    ensures f.wrapped.Ext? ==> SpecOk(f.wrapped.field)
  {
    hide Width, Pow2;
  }

  lemma HexTrim(bits: Bits, hex: string)
    requires hex == if Trim(bits) == [] then "0" else HexOf(PadTo4(Trim(bits)))
    ensures AllHex(hex) && hex != "" && Trim(BitsOf(hex)) == Trim(bits)
  {
    hide Trim;
    var t := Trim(bits);
    if t == [] {
      ZeroDigit();
    } else {
      HexBack(PadTo4(t));
      TrimZeros(t, |PadTo4(t)| - |t|);
      TrimTrim(bits);
    }
  }

  lemma ZeroDigit()
    ensures AllHex("0") && Trim(BitsOf("0")) == []
  {
    assert DigitOf('0') == Some(0);
    var none: Bits := [];
    assert "0"[..0] == "" && BitsOf("0") == Digits(0, 4) + none;
    assert Digits(0, 4) == Zeros(4) && none + Zeros(4) == Zeros(4) == Digits(0, 4) + none by {
      forall i: nat | i < 4 ensures !Digits(0, 4)[i] {
        ZeroQuotient(Pow2(i));
      }
    }
    TrimZeros(none, 4);
  }

  lemma ZeroQuotient(p: nat)
    requires p > 0
    ensures 0 / p % 2 == 0
  {
  }

  // ---------------------------------------------------------------- the modulus, digit by digit

  lemma {:induction false} FlatSnoc(v: Row, x: Bits)
    ensures Flat(v + [x]) == Flat(v) + x
    decreases |v|
  {
    if v == [] {
      var none: Row := [];
      assert (v + [x])[1..] == none && Flat(none) == [];
    } else {
      assert (v + [x])[1..] == v[1..] + [x];
      FlatSnoc(v[1..], x);
    }
  }

  lemma DigitsSnoc(n: nat, k: nat)
    ensures Digits(n, k + 1) == Digits(n, k) + [n / Pow2(k) % 2 == 1]
  {
  }

  lemma TrimStep(bits: Bits)
    requires bits != [] && !bits[|bits| - 1]
    ensures Trim(bits) == Trim(bits[..|bits| - 1])
  {
  }

  lemma TrimDone(bits: Bits)
    requires bits == [] || bits[|bits| - 1]
    ensures Trim(bits) == bits
  {
  }

  /** Drop zeros from the top. */
  method PopZeros(bits0: Bits) returns (bits: Bits)
    ensures bits == Trim(bits0)
  {
    bits := bits0;
    while bits != [] && !bits[|bits| - 1]
      invariant Trim(bits) == Trim(bits0)
    {
      TrimStep(bits);
      bits := bits[..|bits| - 1];
    }
    TrimDone(bits);
  }

  /** The bits of the coefficients below the leading one, one after the other. */
  method CoefficientBits(f: Field) returns (bits: Bits)
    requires |f.irreducible| == f.degree + 1
    ensures bits == Flat(CoeffRow(f.irreducible, f.degree, Width(f.wrapped)))
  {
    hide Digits, Width;
    var w := Width(f.wrapped);
    bits := [];
    for i := 0 to f.degree
      invariant bits == Flat(CoeffRow(f.irreducible, i, w))
    {
      ghost var before := bits;
      var coeff := f.irreducible[i];
      assert Digits(coeff, 0) == [];
      for shift := 0 to w
        invariant bits == before + Digits(coeff, shift)
      {
        DigitsSnoc(coeff, shift);
        bits := bits + [coeff / Pow2(shift) % 2 == 1];
      }
      FlatSnoc(CoeffRow(f.irreducible, i, w), Digits(coeff, w));
      assert CoeffRow(f.irreducible, i + 1, w) == CoeffRow(f.irreducible, i, w) + [Digits(coeff, w)];
    }
  }

  method NibbleValue(bits: Bits) returns (value: nat)
    requires |bits| == 4
    ensures value == Num(bits) && value < 16
  {
    value := 0;
    for shift := 0 to 4
      invariant value == Low(bits, shift)
    {
      if bits[shift] {
        value := value + Pow2(shift);
      }
    }
    NibbleBack(bits);
  }

  /** Four bits at a time, the highest first. */
  method WriteHex(bits: Bits) returns (out: string)
    requires |bits| % 4 == 0
    ensures out == HexOf(bits)
  {
    hide Num;
    out := "";
    var n := |bits|;
    while n > 0
      invariant 0 <= n <= |bits| && n % 4 == 0 && (|bits| - n) % 4 == 0 && out == HexOf(bits[n..])
    {
      n := n - 4;
      var nibble := bits[n..n + 4];
      var value := NibbleValue(nibble);
      assert bits[n..][..4] == nibble && bits[n..][4..] == bits[n + 4..];
      HexLast(bits[n..]);
      out := out + [DigitChar(value)];
    }
    assert bits[0..] == bits;
  }

  /** The modulus as written into a name. */
  method WriteModulus(f: Field) returns (out: string)
    requires |f.irreducible| == f.degree + 1
    ensures out == HexModulus(f)
  {
    hide Flat, Trim, HexOf, Width;
    var bits := CoefficientBits(f);
    bits := PopZeros(bits);
    if bits == [] {
      return "0";
    }
    ghost var trimmed := bits;
    assert bits == trimmed + Zeros(0);
    while |bits| % 4 != 0
      invariant |trimmed| <= |bits| <= |PadTo4(trimmed)| && bits == trimmed + Zeros(|bits| - |trimmed|)
      decreases |PadTo4(trimmed)| - |bits|
    {
      bits := bits + [false];
    }
    out := WriteHex(bits);
  }

  /** The bits of the digits, from the last digit to the first. */
  method ReadBits(hex: string) returns (bits: Bits)
    requires AllHex(hex)
    ensures bits == BitsOf(hex)
  {
    hide Digits, DigitOf;
    bits := [];
    var k := |hex|;
    assert hex[..|hex|] == hex;
    while k > 0
      invariant 0 <= k <= |hex| && bits + BitsOf(hex[..k]) == BitsOf(hex)
    {
      assert IsHex(hex[k - 1]) && hex[..k][..k - 1] == hex[..k - 1];
      var nibble := Digits(DigitOf(hex[k - 1]).value, 4);
      assert bits + (nibble + BitsOf(hex[..k - 1])) == bits + nibble + BitsOf(hex[..k - 1]);
      bits := bits + nibble;
      k := k - 1;
    }
  }

  /** The modulus read from hex digits; too many bits are refused. */
  method ModulusFromHex(hex: string, degree: nat, w: nat) returns (r: Option<seq<nat>>)
    requires AllHex(hex)
    ensures r == ReadModulus(hex, degree, w)
  {
    hide Trim, BitsOf, Num, Low, Split;
    var bits := ReadBits(hex);
    bits := PopZeros(bits);
    if |bits| > degree * w {
      return None;
    }
    bits := FillTo(bits, degree * w);
    var coeffs: seq<nat> := [];
    ghost var rows := Split(bits, degree, w);
    for index := 0 to degree
      invariant |coeffs| == index && forall i | 0 <= i < index :: coeffs[i] == Num(rows[i])
    {
      FieldArithmetic.SplitAt(bits, degree, w, index);
      var coeff := ReadCoefficient(bits[index * w..index * w + w]);
      coeffs := coeffs + [coeff];
    }
    assert coeffs == NumRow(rows);
    r := Some(coeffs + [1]);
  }

  method ReadCoefficient(bits: Bits) returns (coeff: nat)
    ensures coeff == Num(bits)
  {
    coeff := 0;
    for bit := 0 to |bits|
      invariant coeff == Low(bits, bit)
    {
      if bits[bit] {
        coeff := coeff + Pow2(bit);
      }
    }
  }

  // ---------------------------------------------------------------- writing

  function FormatBody(f: Field): string
    requires SpecOk(f)
  {
    "d" + Show(f.degree) + "." + (match f.wrapped
      case Bit => "bit"
      case Ext(inner) => "e" + FormatBody(inner)) + ".p" + HexModulus(f)
  }

  function OpName(op: FieldOp): string {
    match op
    case OpAdd => "add"
    case OpMul => "mul"
    case OpPack => "pack"
    case OpUnpack => "unpack"
  }

  function Format(op: FieldOp, f: Field): string
    requires SpecOk(f)
  {
    "volar.field." + OpName(op) + "." + FormatBody(f)
  }

  // ---------------------------------------------------------------- reading

  function StripPrefix(s: string, prefix: string): (r: Option<string>)
    ensures r.Some? ==> s == prefix + r.value
  {
    if prefix <= s then Some(s[|prefix|..]) else None
  }

  function DotAt(s: string): (n: nat)
    ensures n <= |s| && (n < |s| ==> s[n] == '.') && forall i | 0 <= i < n :: s[i] != '.'
  {
    if s == [] || s[0] == '.' then 0 else 1 + DotAt(s[1..])
  }

  /** What is before and after the first dot; there must be something before. */
  function SplitDot(s: string): (r: Option<(string, string)>)
    ensures r.Some? ==> |r.value.1| < |s|
  {
    var n := DotAt(s);
    if n == |s| || n == 0 then None else Some((s[..n], s[n + 1..]))
  }

  function HexLength(s: string): (n: nat)
    ensures n <= |s| && AllHex(s[..n]) && (n < |s| ==> !IsHex(s[n]))
  {
    if s == [] || !IsHex(s[0]) then 0
    else
      assert s[..1 + HexLength(s[1..])] == [s[0]] + s[1..][..HexLength(s[1..])];
      1 + HexLength(s[1..])
  }

  /** A field body at the start of the input, and what follows it. */
  function ParseBody(input: string): (r: Option<(Field, string)>)
    ensures r.Some? ==> |r.value.1| < |input|
    decreases |input|
  {
    var afterD := StripPrefix(input, "d");
    if afterD.None? then None
    else
      var parts := SplitDot(afterD.value);
      if parts.None? then None
      else
        var degree := ParseUnsigned(parts.value.0, U32);
        if degree.None? || degree.value < 2 then None
        else
          var wrapped := ParseWrapped(parts.value.1);
          if wrapped.None? then None else ParseModulus(degree.value, wrapped.value.0, wrapped.value.1)
  }

  function ParseWrapped(input: string): (r: Option<(Coeff, string)>)
    ensures r.Some? ==> |r.value.1| < |input|
    decreases |input|
  {
    var bit := StripPrefix(input, "bit");
    if bit.Some? then Some((Bit, bit.value))
    else
      var nested := StripPrefix(input, "e");
      if nested.None? then None
      else
        var inner := ParseBody(nested.value);
        if inner.None? then None else Some((Ext(inner.value.0), inner.value.1))
  }

  function ParseModulus(degree: nat, wrapped: Coeff, input: string): (r: Option<(Field, string)>)
    ensures r.Some? ==> |r.value.1| < |input|
  {
    var afterP := StripPrefix(input, ".p");
    if afterP.None? then None
    else
      var n := HexLength(afterP.value);
      if n == 0 || Width(wrapped) == 0 || Width(wrapped) > 64 then None
      else
        var irreducible := ReadModulus(afterP.value[..n], degree, Width(wrapped));
        if irreducible.None? then None else Some((Field(wrapped, degree, irreducible.value), afterP.value[n..]))
  }

  function ParseOp(s: string): Option<(FieldOp, string)> {
    if StripPrefix(s, "add.").Some? then Some((OpAdd, StripPrefix(s, "add.").value))
    else if StripPrefix(s, "mul.").Some? then Some((OpMul, StripPrefix(s, "mul.").value))
    else if StripPrefix(s, "pack.").Some? then Some((OpPack, StripPrefix(s, "pack.").value))
    else if StripPrefix(s, "unpack.").Some? then Some((OpUnpack, StripPrefix(s, "unpack.").value))
    else None
  }

  function Parse(name: string): Option<(FieldOp, Field)> {
    var rest := StripPrefix(name, "volar.field.");
    if rest.None? then None
    else
      var op := ParseOp(rest.value);
      if op.None? then None
      else
        var body := ParseBody(op.value.1);
        if body.None? || body.value.1 != "" then None else Some((op.value.0, body.value.0))
  }

  // ---------------------------------------------------------------- the round trip

  lemma Stripped(prefix: string, rest: string)
    ensures StripPrefix(prefix + rest, prefix) == Some(rest)
  {
  }

  lemma {:induction false} DotAfter(head: string, rest: string)
    requires forall i | 0 <= i < |head| :: head[i] != '.'
    ensures DotAt(head + "." + rest) == |head|
    decreases |head|
  {
    if head != [] {
      assert (head + "." + rest)[1..] == head[1..] + "." + rest;
      DotAfter(head[1..], rest);
    } else {
      assert head + "." + rest == "." + rest;
    }
  }

  lemma {:induction false} HexThen(hex: string, rest: string)
    requires AllHex(hex) && (rest == "" || !IsHex(rest[0]))
    ensures HexLength(hex + rest) == |hex|
    decreases |hex|
  {
    if hex != [] {
      assert (hex + rest)[1..] == hex[1..] + rest;
      HexThen(hex[1..], rest);
    } else {
      assert hex + rest == rest;
    }
  }

  lemma ModulusRead(f: Field, rest: string)
    requires SpecOk(f) && (rest == "" || !IsHex(rest[0]))
    ensures ParseModulus(f.degree, f.wrapped, ".p" + HexModulus(f) + rest) == Some((f, rest))
  {
    hide SpecOk, HexModulus, ReadModulus, Width, HexLength;
    SpecFacts(f);
    var hex := HexModulus(f);
    ModulusBack(f);
    HexThen(hex, rest);
    assert ".p" + hex + rest == ".p" + (hex + rest);
    Stripped(".p", hex + rest);
    assert (hex + rest)[..|hex|] == hex && (hex + rest)[|hex|..] == rest;
  }

  lemma DegreeRead(n: nat, rest: string)
    requires n < U32
    ensures SplitDot(Show(n) + "." + rest) == Some((Show(n), rest)) && ParseUnsigned(Show(n), U32) == Some(n)
  {
    hide Show, ParseUnsigned;
    ShowParse(n, U32);
    forall i | 0 <= i < |Show(n)| ensures Show(n)[i] != '.' {
      assert IsDecimal(Show(n)[i]);
    }
    DotAfter(Show(n), rest);
    assert (Show(n) + "." + rest)[..|Show(n)|] == Show(n) && (Show(n) + "." + rest)[|Show(n)| + 1..] == rest;
  }

  /** A written body is read back, whatever follows it that is no hex digit. */
  lemma {:induction false} BodyRead(f: Field, rest: string)
    requires SpecOk(f) && (rest == "" || !IsHex(rest[0]))
    ensures ParseBody(FormatBody(f) + rest) == Some((f, rest))
    decreases f
  {
    hide SpecOk, HexModulus, Show, ParseUnsigned, SplitDot, ParseModulus, ParseWrapped, StripPrefix;
    SpecFacts(f);
    var tail := ".p" + HexModulus(f) + rest;
    var middle := WrappedText(f) + tail;
    WrappedRead(f, tail);
    FormatIs(f);
    assert FormatBody(f) + rest == "d" + (Show(f.degree) + "." + middle);
    Stripped("d", Show(f.degree) + "." + middle);
    DegreeRead(f.degree, middle);
    ModulusRead(f, rest);
  }

  function WrappedText(f: Field): string
    requires SpecOk(f)
  {
    match f.wrapped
    case Bit => "bit"
    case Ext(inner) => "e" + FormatBody(inner)
  }

  lemma FormatIs(f: Field)
    requires SpecOk(f)
    ensures FormatBody(f) == "d" + Show(f.degree) + "." + WrappedText(f) + ".p" + HexModulus(f)
  {
    hide HexModulus, Show;
  }

  lemma {:induction false} WrappedRead(f: Field, tail: string)
    requires SpecOk(f) && |tail| >= 1 && tail[0] == '.'
    ensures ParseWrapped(WrappedText(f) + tail) == Some((f.wrapped, tail))
    decreases f, 0
  {
    hide SpecOk, FormatBody, ParseBody;
    SpecFacts(f);
    match f.wrapped
    case Bit => Stripped("bit", tail);
    case Ext(inner) =>
      BodyRead(inner, tail);
      assert "e" + FormatBody(inner) + tail == "e" + (FormatBody(inner) + tail);
      Stripped("e", FormatBody(inner) + tail);
      assert (WrappedText(f) + tail)[0] == 'e' && "bit"[0] == 'b';
  }

  lemma OpRead(op: FieldOp, rest: string)
    ensures ParseOp(OpName(op) + "." + rest) == Some((op, rest))
  {
    var s := OpName(op) + "." + rest;
    match op
    case OpAdd =>
      assert s == "add." + rest;
    case OpMul =>
      assert s == "mul." + rest;
      assert s[0] == 'm' && "add."[0] == 'a';
    case OpPack =>
      assert s == "pack." + rest;
      assert s[0] == 'p' && "add."[0] == 'a' && "mul."[0] == 'm';
    case OpUnpack =>
      assert s == "unpack." + rest;
      assert s[0] == 'u' && "add."[0] == 'a' && "mul."[0] == 'm' && "pack."[0] == 'p';
  }

  /** Reading a written name gives back the operation and the field. */
  lemma RoundTrip(op: FieldOp, f: Field)
    requires SpecOk(f)
    ensures Parse(Format(op, f)) == Some((op, f))
  {
    hide SpecOk, FormatBody, ParseBody, ParseOp, StripPrefix;
    var body := FormatBody(f);
    assert Format(op, f) == "volar.field." + (OpName(op) + "." + body);
    Stripped("volar.field.", OpName(op) + "." + body);
    OpRead(op, body);
    BodyRead(f, "");
    assert body + "" == body;
  }

  // ---------------------------------------------------------------- only such fields are read

  lemma ModulusParsed(hex: string, degree: nat, w: nat)
    requires AllHex(hex) && ReadModulus(hex, degree, w).Some?
    ensures var irreducible := ReadModulus(hex, degree, w).value;
      |irreducible| == degree + 1 && irreducible[degree] == 1 && forall i | 0 <= i < degree :: irreducible[i] < Pow2(w)
  {
    hide Trim, BitsOf, Pow2;
    var row := Split(FillTo(Trim(BitsOf(hex)), degree * w), degree, w);
    forall i | 0 <= i < degree ensures Num(row[i]) < Pow2(w) {
      NumBound(row[i]);
    }
  }

  /** Whatever is read is a field that can be written. */
  lemma {:induction false} BodyParsed(input: string)
    requires ParseBody(input).Some?
    ensures SpecOk(ParseBody(input).value.0)
    decreases |input|
  {
    hide StripPrefix, SplitDot, ParseUnsigned, ReadModulus, Width, HexLength, Pow2;
    var parts := SplitDot(StripPrefix(input, "d").value).value;
    var degree := ParseUnsigned(parts.0, U32).value;
    DegreeBelow(parts.0);
    var wrapped := ParseWrapped(parts.1).value;
    WrappedParsed(parts.1);
    var afterP := StripPrefix(wrapped.1, ".p").value;
    ModulusParsed(afterP[..HexLength(afterP)], degree, Width(wrapped.0));
  }

  lemma DegreeBelow(s: string)
    requires ParseUnsigned(s, U32).Some?
    ensures ParseUnsigned(s, U32).value < U32
  {
    hide DecimalValue;
  }

  lemma {:induction false} WrappedParsed(input: string)
    requires ParseWrapped(input).Some?
    ensures ParseWrapped(input).value.0.Ext? ==> SpecOk(ParseWrapped(input).value.0.field)
    decreases |input|
  {
    hide StripPrefix, ParseBody, SpecOk;
    var bit, nested := StripPrefix(input, "bit"), StripPrefix(input, "e");
    if bit.None? {
      BodyParsed(nested.value);
    }
  }

  /** The names that can be read stand for exactly the well-formed fields. */
  lemma ReadableExactly(f: Field)
    ensures SpecOk(f) <==> exists name, op :: Parse(name) == Some((op, f))
  {
    hide SpecOk, Format, ParseBody, ParseOp, StripPrefix;
    if SpecOk(f) {
      RoundTrip(OpAdd, f);
    }
    forall name, op | Parse(name) == Some((op, f)) ensures SpecOk(f) {
      BodyParsed(ParseOp(StripPrefix(name, "volar.field.").value).value.1);
    }
  }
}
