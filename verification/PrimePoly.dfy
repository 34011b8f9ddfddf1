/**
 Prime-field polynomials evaluated lane by lane: `constant + sum of coeff * product`,
 over a prime field or a vector or tuple of them.
 */
module PrimePoly {
  import opened Common
  import opened Numbers
  import opened Solinas

  datatype Ty =
    | BitTy
    | PrimeTy(spec: PrimeSpec)
    | VecTy(count: nat, elem: Ty)
    | TupleTy(parts: seq<Ty>)
    | OtherTy

  datatype Factor<Wire> = Factor(ty: Ty, wires: seq<Wire>)

  datatype Term<Wire> = Term(factors: seq<Factor<Wire>>, coeff: nat)

  /** `value_bit_width`; `None` where the type has no width. */
  function BitWidth(ty: Ty): Option<nat> {
    match ty
    case BitTy => Some(1)
    case PrimeTy(spec) => Some(spec.k)
    case VecTy(count, elem) =>
      var w := BitWidth(elem);
      if w.Some? then Some(count * w.value) else None
    case TupleTy(parts) => PartsWidth(parts)
    case OtherTy => None
  }

  function PartsWidth(parts: seq<Ty>): Option<nat> {
    if parts == [] then Some(0) else
      var w, rest := BitWidth(parts[0]), PartsWidth(parts[1..]);
      if w.Some? && rest.Some? then Some(w.value + rest.value) else None
  }

  function LaneStart(lane: nat, width: nat): nat {
    lane * width
  }

  function Slice<Wire>(wires: seq<Wire>, start: nat, width: nat, zero: Wire): (r: seq<Wire>)
    ensures |r| == width
  {
    seq(width, i requires 0 <= i => if start + i < |wires| then wires[start + i] else zero)
  }

  /**
   A factor of the whole value is cut to the lane; a factor of the lane's own type, or a
   bit, is spread into every lane. Any other factor has no lane.
   */
  function LaneFactor<Wire>(f: Factor<Wire>, ty: Ty, lane: Ty, start: nat, width: nat, zero: Wire): Option<Factor<Wire>> {
    if f.ty == ty then Some(Factor(lane, Slice(f.wires, start, width, zero)))
    else if f.ty == lane || f.ty == BitTy then Some(f)
    else None
  }

  function LaneFactors<Wire>(fs: seq<Factor<Wire>>, ty: Ty, lane: Ty, start: nat, width: nat, zero: Wire)
    : Option<seq<Factor<Wire>>>
  {
    if fs == [] then Some([]) else
      var head, rest := LaneFactor(fs[0], ty, lane, start, width, zero), LaneFactors(fs[1..], ty, lane, start, width, zero);
      if head.Some? && rest.Some? then Some([head.value] + rest.value) else None
  }

  function LaneTerms<Wire>(terms: seq<Term<Wire>>, ty: Ty, lane: Ty, start: nat, width: nat, zero: Wire)
    : Option<seq<Term<Wire>>>
  {
    if terms == [] then Some([]) else
      var head := LaneFactors(terms[0].factors, ty, lane, start, width, zero);
      var rest := LaneTerms(terms[1..], ty, lane, start, width, zero);
      if head.Some? && rest.Some? then Some([Term(head.value, terms[0].coeff)] + rest.value) else None
  }

  // ---------------------------------------------------------------- reference: integers mod p

  /** The integer a factor stands for in the prime field `spec`. */
  function FactorNumber(f: Factor<bool>, spec: PrimeSpec): Option<nat> {
    if f.ty == BitTy then Some(Digit(f.wires, 0))
    else if f.ty == PrimeTy(spec) then Some(Low(f.wires, spec.k))
    else None
  }

  function ProductNumber(fs: seq<Factor<bool>>, spec: PrimeSpec): Option<nat> {
    if fs == [] then Some(1) else
      var rest, last := ProductNumber(fs[..|fs| - 1], spec), FactorNumber(fs[|fs| - 1], spec);
      if rest.Some? && last.Some? then Some(rest.value * last.value) else None
  }

  /** The plain integer sum; a term whose coefficient vanishes mod p is not looked at. */
  ghost function SumNumber(terms: seq<Term<bool>>, spec: PrimeSpec): Option<nat>
    requires spec.Canonical()
  {
    if terms == [] then Some(0) else
      var rest, last := SumNumber(terms[..|terms| - 1], spec), terms[|terms| - 1];
      if rest.None? || last.coeff % spec.P() == 0 then rest
      else
        var product := ProductNumber(last.factors, spec);
        if product.Some? then Some(rest.value + last.coeff * product.value) else None
  }

  /** What a polynomial means, with no circuit in sight. `None` is the source's panic. */
  ghost function PolyMeaning(ty: Ty, constant: seq<bool>, terms: seq<Term<bool>>): Option<seq<bool>>
    requires Canonical(ty)
    decreases ty, 1, 0
  {
    match ty
    case PrimeTy(spec) =>
      var sum := SumNumber(terms, spec);
      if sum.Some? then Some(Digits((Low(constant, spec.k) + sum.value) % spec.P(), spec.k)) else None
    case VecTy(count, elem) => VecMeaning(ty, constant, terms, count)
    case TupleTy(parts) => PartsMeaning(ty, constant, terms, |parts|)
    case _ => None
  }

  /** The first `n` lanes of a vector polynomial, in order. */
  ghost function VecMeaning(ty: Ty, constant: seq<bool>, terms: seq<Term<bool>>, n: nat): Option<seq<bool>>
    requires Canonical(ty) && ty.VecTy?
    decreases ty, 0, n
  {
    var w := BitWidth(ty.elem);
    if w.None? then None
    else if n == 0 then Some([])
    else
      var start := LaneStart(n - 1, w.value);
      var before := VecMeaning(ty, constant, terms, n - 1);
      var cut := LaneTerms(terms, ty, ty.elem, start, w.value, false);
      if before.None? || cut.None? then None
      else
        var lane := PolyMeaning(ty.elem, Slice(constant, start, w.value, false), cut.value);
        if lane.Some? then Some(before.value + lane.value) else None
  }

  /** The first `n` parts of a tuple polynomial, in order. */
  ghost function PartsMeaning(ty: Ty, constant: seq<bool>, terms: seq<Term<bool>>, n: nat): Option<seq<bool>>
    requires Canonical(ty) && ty.TupleTy? && n <= |ty.parts|
    decreases ty, 0, n
  {
    if n == 0 then Some([])
    else
      var before := PartsMeaning(ty, constant, terms, n - 1);
      var part := ty.parts[n - 1];
      var start, w := PartsWidth(ty.parts[..n - 1]), BitWidth(part);
      if before.None? || start.None? || w.None? then None
      else
        var cut := LaneTerms(terms, ty, part, start.value, w.value, false);
        if cut.None? then None
        else
          var lane := PolyMeaning(part, Slice(constant, start.value, w.value, false), cut.value);
          if lane.Some? then Some(before.value + lane.value) else None
  }

  /** Every prime field inside the type is canonical. */
  ghost predicate Canonical(ty: Ty) {
    match ty
    case PrimeTy(spec) => spec.Canonical()
    case VecTy(_, elem) => Canonical(elem)
    case TupleTy(parts) => forall i | 0 <= i < |parts| :: Canonical(parts[i])
    case _ => true
  }

  /** Coefficients are bytes, and every operand of a prime field is a residue. */
  ghost predicate Residues(ty: Ty, terms: seq<Term<bool>>)
    requires Canonical(ty)
  {
    && (forall i | 0 <= i < |terms| :: terms[i].coeff < 256)
    && match ty
       case PrimeTy(spec) =>
         forall i, j | 0 <= i < |terms| && 0 <= j < |terms[i].factors| && terms[i].factors[j].ty == ty ::
           Low(terms[i].factors[j].wires, spec.k) < spec.P()
       case VecTy(count, elem) =>
         var w := BitWidth(elem);
         w.Some? ==> forall lane: nat | lane < count ::
           var cut := LaneTerms(terms, ty, elem, LaneStart(lane, w.value), w.value, false);
           cut.Some? ==> Residues(elem, cut.value)
       case TupleTy(parts) =>
         forall i | 0 <= i < |parts| ::
           var start, w := PartsWidth(parts[..i]), BitWidth(parts[i]);
           start.Some? && w.Some? ==>
             var cut := LaneTerms(terms, ty, parts[i], start.value, w.value, false);
             cut.Some? ==> Residues(parts[i], cut.value)
       case _ => true
  }

  // ---------------------------------------------------------------- the circuit

  ghost function DecodeFactor<Wire(!new)>(sink: Sink<Wire>, f: Factor<Wire>): Factor<bool> {
    Factor(f.ty, Decode(sink, f.wires))
  }

  ghost function DecodeFactors<Wire(!new)>(sink: Sink<Wire>, fs: seq<Factor<Wire>>): (r: seq<Factor<bool>>)
    ensures |r| == |fs|
  {
    seq(|fs|, i requires 0 <= i < |fs| => DecodeFactor(sink, fs[i]))
  }

  ghost function DecodeTerms<Wire(!new)>(sink: Sink<Wire>, terms: seq<Term<Wire>>): (r: seq<Term<bool>>)
    ensures |r| == |terms|
  {
    seq(|terms|, i requires 0 <= i < |terms| => Term(DecodeFactors(sink, terms[i].factors), terms[i].coeff))
  }

  ghost predicate FactorsAreBits<Wire(!new)>(sink: Sink<Wire>, fs: seq<Factor<Wire>>) {
    forall i | 0 <= i < |fs| :: AreBits(sink, fs[i].wires)
  }

  ghost predicate TermsAreBits<Wire(!new)>(sink: Sink<Wire>, terms: seq<Term<Wire>>) {
    forall i | 0 <= i < |terms| :: FactorsAreBits(sink, terms[i].factors)
  }

  lemma SliceDecodes<Wire(!new)>(sink: Sink<Wire>, wires: seq<Wire>, start: nat, width: nat)
    requires Lawful(sink) && AreBits(sink, wires)
    ensures AreBits(sink, Slice(wires, start, width, sink.zero))
    ensures Decode(sink, Slice(wires, start, width, sink.zero)) == Slice(Decode(sink, wires), start, width, false)
  {
  }

  lemma {:induction false} LaneFactorsDecode<Wire(!new)>(sink: Sink<Wire>, fs: seq<Factor<Wire>>, ty: Ty, lane: Ty, start: nat, width: nat)
    requires Lawful(sink) && FactorsAreBits(sink, fs)
    ensures var cut := LaneFactors(fs, ty, lane, start, width, sink.zero);
            var decoded := LaneFactors(DecodeFactors(sink, fs), ty, lane, start, width, false);
            && cut.Some? == decoded.Some?
            && (cut.Some? ==> FactorsAreBits(sink, cut.value) && DecodeFactors(sink, cut.value) == decoded.value)
  {
    if fs != [] {
      LaneFactorsDecode(sink, fs[1..], ty, lane, start, width);
      SliceDecodes(sink, fs[0].wires, start, width);
      assert DecodeFactors(sink, fs)[1..] == DecodeFactors(sink, fs[1..]);
      var head := LaneFactor(fs[0], ty, lane, start, width, sink.zero);
      var rest := LaneFactors(fs[1..], ty, lane, start, width, sink.zero);
      if head.Some? && rest.Some? {
        assert DecodeFactors(sink, [head.value] + rest.value) == [DecodeFactor(sink, head.value)] + DecodeFactors(sink, rest.value);
      }
    }
  }

  lemma {:induction false} LaneTermsDecode<Wire(!new)>(sink: Sink<Wire>, terms: seq<Term<Wire>>, ty: Ty, lane: Ty, start: nat, width: nat)
    requires Lawful(sink) && TermsAreBits(sink, terms)
    ensures var cut := LaneTerms(terms, ty, lane, start, width, sink.zero);
            var decoded := LaneTerms(DecodeTerms(sink, terms), ty, lane, start, width, false);
            && cut.Some? == decoded.Some?
            && (cut.Some? ==> TermsAreBits(sink, cut.value) && DecodeTerms(sink, cut.value) == decoded.value)
  {
    if terms != [] {
      LaneTermsDecode(sink, terms[1..], ty, lane, start, width);
      LaneFactorsDecode(sink, terms[0].factors, ty, lane, start, width);
      assert DecodeTerms(sink, terms)[1..] == DecodeTerms(sink, terms[1..]);
      var head := LaneFactors(terms[0].factors, ty, lane, start, width, sink.zero);
      var rest := LaneTerms(terms[1..], ty, lane, start, width, sink.zero);
      if head.Some? && rest.Some? {
        var whole := [Term(head.value, terms[0].coeff)] + rest.value;
        assert DecodeTerms(sink, whole) == [Term(DecodeFactors(sink, head.value), terms[0].coeff)] + DecodeTerms(sink, rest.value);
      }
    }
  }

  lemma DecodeNothing<Wire(!new)>(sink: Sink<Wire>)
    ensures AreBits(sink, []) && Decode(sink, []) == []
  {
  }

  lemma DecodeConcat<Wire(!new)>(sink: Sink<Wire>, a: seq<Wire>, b: seq<Wire>)
    ensures Decode(sink, a + b) == Decode(sink, a) + Decode(sink, b)
    ensures AreBits(sink, a) && AreBits(sink, b) ==> AreBits(sink, a + b)
  {
  }

  /** One factor as residue digits: a bit widened, or the field element's own digits. */
  method FactorDigits<Wire(!new)>(f: Factor<Wire>, spec: PrimeSpec, sink: Sink<Wire>) returns (digits: Option<seq<Wire>>)
    requires Lawful(sink) && AreBits(sink, f.wires) && spec.Canonical()
    requires f.ty == PrimeTy(spec) ==> LowValue(sink, f.wires, spec.k) < spec.P()
    ensures digits.Some? <==> FactorNumber(DecodeFactor(sink, f), spec).Some?
    ensures digits.Some? ==>
      && |digits.value| == spec.k && AreBits(sink, digits.value)
      && Value(sink, digits.value) == FactorNumber(DecodeFactor(sink, f), spec).value < spec.P()
  {
    if f.ty == BitTy {
      var bit := DigitAt(sink, f.wires, 0);
      digits := Some(Resize(sink, [bit], spec.k));
      ResizeValue(sink, [bit], spec.k);
      LowBeyond(Decode(sink, [bit]), spec.k);
      assert Value(sink, [bit]) == Low(Decode(sink, [bit]), 0) + (if Set(sink, bit) then 1 else 0);
    } else if f.ty == PrimeTy(spec) {
      digits := Some(Slice(f.wires, 0, spec.k, sink.zero));
      SliceDecodes(sink, f.wires, 0, spec.k);
      LowAgree(Decode(sink, digits.value), Decode(sink, f.wires), spec.k);
    } else {
      digits := None;
    }
  }

  lemma OneDigits<Wire(!new)>(sink: Sink<Wire>, spec: PrimeSpec)
    requires Lawful(sink) && spec.Canonical()
    ensures var one := Resize(sink, [sink.one], spec.k);
      |one| == spec.k && AreBits(sink, one) && Value(sink, one) == 1 % spec.P()
  {
    ResizeValue(sink, [sink.one], spec.k);
    LowBeyond(Decode(sink, [sink.one]), spec.k);
    assert Value(sink, [sink.one]) == 1 by {
      assert Low(Decode(sink, [sink.one]), 1) == Low(Decode(sink, [sink.one]), 0) + 1;
    }
    SmallMod(1, spec.P());
  }

  /** The product of one term's factors, as a residue. */
  method TermProduct<Wire(!new)>(factors: seq<Factor<Wire>>, spec: PrimeSpec, sink: Sink<Wire>)
    returns (product: Option<seq<Wire>>)
    requires Lawful(sink) && FactorsAreBits(sink, factors) && spec.Canonical()
    requires forall j | 0 <= j < |factors| && factors[j].ty == PrimeTy(spec) ::
      LowValue(sink, factors[j].wires, spec.k) < spec.P()
    ensures product.Some? == ProductNumber(DecodeFactors(sink, factors), spec).Some?
    ensures product.Some? ==>
      && |product.value| == spec.k && AreBits(sink, product.value)
      && Value(sink, product.value) == ProductNumber(DecodeFactors(sink, factors), spec).value % spec.P()
  {
    hide Decode, FactorNumber, Value, Resize;
    ghost var decoded := DecodeFactors(sink, factors);
    ghost var p := spec.P();
    var acc := Resize(sink, [sink.one], spec.k);
    OneDigits(sink, spec);
    assert decoded[..0] == [];
    for j := 0 to |factors|
      invariant ProductNumber(decoded[..j], spec).Some?
      invariant |acc| == spec.k && AreBits(sink, acc)
      invariant Value(sink, acc) == ProductNumber(decoded[..j], spec).value % p
    {
      assert decoded[..j + 1][..j] == decoded[..j];
      assert decoded[..j + 1][j] == DecodeFactor(sink, factors[j]);
      var digits := FactorDigits(factors[j], spec, sink);
      if digits.None? {
        PrefixFails(decoded, spec, j + 1);
        return None;
      }
      MulModReduce(ProductNumber(decoded[..j], spec).value, Value(sink, digits.value), p);
      acc := SolinasMul(acc, digits.value, spec, sink);
    }
    assert decoded[..|factors|] == decoded;
    product := Some(acc);
  }

  lemma {:induction false} PrefixFails(fs: seq<Factor<bool>>, spec: PrimeSpec, j: nat)
    requires j <= |fs| && ProductNumber(fs[..j], spec).None?
    ensures ProductNumber(fs, spec).None?
    decreases |fs|
  {
    if j < |fs| {
      assert fs[..|fs| - 1][..j] == fs[..j];
      PrefixFails(fs[..|fs| - 1], spec, j);
    } else {
      assert fs[..j] == fs;
    }
  }

  lemma {:induction false} SumPrefixFails(terms: seq<Term<bool>>, spec: PrimeSpec, i: nat)
    requires spec.Canonical() && i <= |terms| && SumNumber(terms[..i], spec).None?
    ensures SumNumber(terms, spec).None?
    decreases |terms|
  {
    if i < |terms| {
      assert terms[..|terms| - 1][..i] == terms[..i];
      SumPrefixFails(terms[..|terms| - 1], spec, i);
    } else {
      assert terms[..i] == terms;
    }
  }

  method ConstantResidue<Wire(!new)>(constant: seq<Wire>, spec: PrimeSpec, sink: Sink<Wire>) returns (acc: seq<Wire>)
    requires Lawful(sink) && AreBits(sink, constant) && spec.Canonical()
    ensures |acc| == spec.k && AreBits(sink, acc) && Value(sink, acc) == LowValue(sink, constant, spec.k) % spec.P()
  {
    var first := Slice(constant, 0, spec.k, sink.zero);
    SliceDecodes(sink, constant, 0, spec.k);
    LowAgree(Decode(sink, first), Decode(sink, constant), spec.k);
    ValueBound(sink, first);
    var zeros := Resize(sink, [], spec.k);
    ResizeValue<Wire>(sink, [], spec.k);
    LowBeyond(Decode<Wire>(sink, []), spec.k);
    acc := SolinasAdd(first, zeros, spec, sink);
  }

  /** `value` is the residue of `constant` plus the sum of `terms`, all of which have a meaning. */
  ghost predicate Carries(spec: PrimeSpec, value: nat, constant: nat, terms: seq<Term<bool>>)
    requires spec.Canonical()
  {
    SumNumber(terms, spec).Some? && value == (constant + SumNumber(terms, spec).value) % spec.P()
  }

  /** One more term onto an accumulator that carries the terms before it. */
  method AddTerm<Wire(!new)>(acc: seq<Wire>, term: Term<Wire>, spec: PrimeSpec, sink: Sink<Wire>, ghost constant: nat,
                             ghost before: seq<Term<bool>>)
    returns (next: Option<seq<Wire>>)
    requires Lawful(sink) && AreBits(sink, acc) && FactorsAreBits(sink, term.factors) && spec.Canonical()
    requires term.coeff < 256 && |acc| == spec.k && Carries(spec, Value(sink, acc), constant, before)
    requires forall j | 0 <= j < |term.factors| && term.factors[j].ty == PrimeTy(spec) ::
      Low(DecodeFactors(sink, term.factors)[j].wires, spec.k) < spec.P()
    ensures var after := before + [Term(DecodeFactors(sink, term.factors), term.coeff)];
            && next.Some? == SumNumber(after, spec).Some?
            && (next.Some? ==>
                  |next.value| == spec.k && AreBits(sink, next.value) && Carries(spec, Value(sink, next.value), constant, after))
  {
    ghost var decoded := DecodeFactors(sink, term.factors);
    ghost var after := before + [Term(decoded, term.coeff)];
    assert after[..|after| - 1] == before;
    if RepetitionResidue(term.coeff, spec) == 0 {
      return Some(acc);
    }
    assert forall j | 0 <= j < |term.factors| :: decoded[j] == DecodeFactor(sink, term.factors[j]);
    var product := TermProduct(term.factors, spec, sink);
    if product.None? {
      return None;
    }
    AccumulateTerm(constant + SumNumber(before, spec).value, term.coeff, ProductNumber(decoded, spec).value, spec.P());
    var longer := SolinasRepeat(acc, product.value, term.coeff, spec, sink);
    next := Some(longer);
  }

  method EvalPrimeLane<Wire(!new)>(spec: PrimeSpec, constant: seq<Wire>, terms: seq<Term<Wire>>, sink: Sink<Wire>)
    returns (out: Option<seq<Wire>>)
    requires Lawful(sink) && AreBits(sink, constant) && TermsAreBits(sink, terms) && spec.Canonical()
    requires Residues(PrimeTy(spec), DecodeTerms(sink, terms))
    ensures var sum := SumNumber(DecodeTerms(sink, terms), spec);
            && out.Some? == sum.Some?
            && (out.Some? ==>
                  && AreBits(sink, out.value)
                  && Decode(sink, out.value) == Digits((LowValue(sink, constant, spec.k) + sum.value) % spec.P(), spec.k))
  {
    ghost var decoded := DecodeTerms(sink, terms);
    ghost var c := LowValue(sink, constant, spec.k);
    var acc := ConstantResidue(constant, spec, sink);
    assert decoded[..0] == [];
    for i := 0 to |terms|
      invariant |acc| == spec.k && AreBits(sink, acc) && Carries(spec, Value(sink, acc), c, decoded[..i])
    {
      assert decoded[..i + 1] == decoded[..i] + [decoded[i]];
      var next := AddTerm(acc, terms[i], spec, sink, c, decoded[..i]);
      if next.None? {
        SumPrefixFails(decoded, spec, i + 1);
        return None;
      }
      acc := next.value;
    }
    assert decoded[..|terms|] == decoded;
    DigitsOfNum(Decode(sink, acc));
    out := Some(acc);
  }

  lemma AccumulateTerm(a: nat, coeff: nat, number: nat, p: nat)
    requires p > 0
    ensures (a % p + coeff * (number % p)) % p == (a + coeff * number) % p
  {
    MulModReduce(coeff, number, p);
    AddModReduce(a, coeff * (number % p), p);
    AddModReduce(a, coeff * (number % p), p);
    AddModReduce(a, coeff * number, p);
  }

  /**
   In every lawful sink the circuit's digits decode to the polynomial's meaning, and it
   panics exactly where the meaning is undefined.
   */
  method EvalPrimePoly<Wire(!new)>(ty: Ty, constant: seq<Wire>, terms: seq<Term<Wire>>, sink: Sink<Wire>)
    returns (out: Option<seq<Wire>>)
    requires Lawful(sink) && AreBits(sink, constant) && TermsAreBits(sink, terms) && Canonical(ty)
    requires Residues(ty, DecodeTerms(sink, terms))
    ensures out.Some? == PolyMeaning(ty, Decode(sink, constant), DecodeTerms(sink, terms)).Some?
    ensures out.Some? ==>
      && AreBits(sink, out.value)
      && Decode(sink, out.value) == PolyMeaning(ty, Decode(sink, constant), DecodeTerms(sink, terms)).value
    decreases ty
  {
    hide Lawful, IsBit, AreBits, DecodeTerms, LaneTerms, TermsAreBits, BitWidth, Slice;
    DecodeNothing(sink);
    ghost var c, ts := Decode(sink, constant), DecodeTerms(sink, terms);
    match ty
    case PrimeTy(spec) =>
      out := EvalPrimeLane(spec, constant, terms, sink);
    case VecTy(count, elem) =>
      out := EvalVec(ty, constant, terms, sink);
    case TupleTy(parts) =>
      out := EvalParts(ty, constant, terms, sink);
    case _ =>
      out := None;
  }

  method EvalVec<Wire(!new)>(ty: Ty, constant: seq<Wire>, terms: seq<Term<Wire>>, sink: Sink<Wire>)
    returns (out: Option<seq<Wire>>)
    requires Lawful(sink) && AreBits(sink, constant) && TermsAreBits(sink, terms) && Canonical(ty) && ty.VecTy?
    requires Residues(ty, DecodeTerms(sink, terms))
    ensures out.Some? == PolyMeaning(ty, Decode(sink, constant), DecodeTerms(sink, terms)).Some?
    ensures out.Some? ==>
      && AreBits(sink, out.value)
      && Decode(sink, out.value) == PolyMeaning(ty, Decode(sink, constant), DecodeTerms(sink, terms)).value
    decreases ty, 0
  {
    hide Lawful, IsBit, AreBits, DecodeTerms, LaneTerms, TermsAreBits, BitWidth, Slice;
    DecodeNothing(sink);
    ghost var c, ts := Decode(sink, constant), DecodeTerms(sink, terms);
    var count, elem := ty.count, ty.elem;
    var w := BitWidth(elem);
    if w.None? {
      return None;
    }
    var acc: seq<Wire> := [];
    for lane := 0 to count
      invariant AreBits(sink, acc) && VecMeaning(ty, c, ts, lane) == Some(Decode(sink, acc))
    {
      var start := LaneStart(lane, w.value);
      LaneTermsDecode(sink, terms, ty, elem, start, w.value);
      SliceDecodes(sink, constant, start, w.value);
      var cut := LaneTerms(terms, ty, elem, start, w.value, sink.zero);
      if cut.None? {
        VecFails(ty, c, ts, lane + 1, count);
        return None;
      }
      var value := EvalPrimePoly(elem, Slice(constant, start, w.value, sink.zero), cut.value, sink);
      if value.None? {
        VecFails(ty, c, ts, lane + 1, count);
        return None;
      }
      DecodeConcat(sink, acc, value.value);
      acc := acc + value.value;
    }
    out := Some(acc);
  }

  method EvalParts<Wire(!new)>(ty: Ty, constant: seq<Wire>, terms: seq<Term<Wire>>, sink: Sink<Wire>)
    returns (out: Option<seq<Wire>>)
    requires Lawful(sink) && AreBits(sink, constant) && TermsAreBits(sink, terms) && Canonical(ty) && ty.TupleTy?
    requires Residues(ty, DecodeTerms(sink, terms))
    ensures out.Some? == PolyMeaning(ty, Decode(sink, constant), DecodeTerms(sink, terms)).Some?
    ensures out.Some? ==>
      && AreBits(sink, out.value)
      && Decode(sink, out.value) == PolyMeaning(ty, Decode(sink, constant), DecodeTerms(sink, terms)).value
    decreases ty, 0
  {
    hide Lawful, IsBit, AreBits, DecodeTerms, LaneTerms, TermsAreBits, BitWidth, Slice;
    DecodeNothing(sink);
    ghost var c, ts := Decode(sink, constant), DecodeTerms(sink, terms);
    var parts := ty.parts;
    var acc: seq<Wire> := [];
    var offset := 0;
    for i := 0 to |parts|
      invariant AreBits(sink, acc) && PartsMeaning(ty, c, ts, i) == Some(Decode(sink, acc))
      invariant PartsWidth(parts[..i]) == Some(offset)
    {
      var w := BitWidth(parts[i]);
      if w.None? {
        PartsFail(ty, c, ts, i + 1);
        return None;
      }
      LaneTermsDecode(sink, terms, ty, parts[i], offset, w.value);
      SliceDecodes(sink, constant, offset, w.value);
      var cut := LaneTerms(terms, ty, parts[i], offset, w.value, sink.zero);
      if cut.None? {
        PartsFail(ty, c, ts, i + 1);
        return None;
      }
      var value := EvalPrimePoly(parts[i], Slice(constant, offset, w.value, sink.zero), cut.value, sink);
      if value.None? {
        PartsFail(ty, c, ts, i + 1);
        return None;
      }
      DecodeConcat(sink, acc, value.value);
      acc := acc + value.value;
      WidthSnoc(parts[..i], parts[i]);
      assert parts[..i + 1] == parts[..i] + [parts[i]];
      offset := offset + w.value;
    }
    out := Some(acc);
  }

  lemma {:induction false} WidthSnoc(parts: seq<Ty>, part: Ty)
    requires PartsWidth(parts).Some? && BitWidth(part).Some?
    ensures PartsWidth(parts + [part]) == Some(PartsWidth(parts).value + BitWidth(part).value)
  {
    if parts != [] {
      WidthSnoc(parts[1..], part);
      assert (parts + [part])[1..] == parts[1..] + [part];
    }
  }

  lemma {:induction false} VecFails(ty: Ty, constant: seq<bool>, terms: seq<Term<bool>>, n: nat, m: nat)
    requires Canonical(ty) && ty.VecTy? && n <= m && VecMeaning(ty, constant, terms, n).None?
    ensures VecMeaning(ty, constant, terms, m).None?
    decreases m
  {
    if n < m {
      VecFails(ty, constant, terms, n, m - 1);
    }
  }

  lemma {:induction false} PartsFail(ty: Ty, constant: seq<bool>, terms: seq<Term<bool>>, n: nat)
    requires Canonical(ty) && ty.TupleTy? && n <= |ty.parts| && PartsMeaning(ty, constant, terms, n).None?
    ensures PartsMeaning(ty, constant, terms, |ty.parts|).None?
    decreases |ty.parts| - n
  {
    if n < |ty.parts| {
      PartsFail(ty, constant, terms, n + 1);
    }
  }
}
