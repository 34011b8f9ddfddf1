/**
 Polynomials over bits and how a circuit holds them. The coefficient list keeps one entry per
 monomial, a later entry replacing an earlier one, so a monomial handed over twice counts once
 instead of cancelling. The gates hand over `[a]` and `[b]` for an exclusive or and `[a,b]`,
 `[a,c]`, `[b,c]` for a majority; `Stored` is what the circuit then holds.
 */
module PolyCoeffs {
  import opened Numbers
  import opened VCircuit

  // ---------------------------------------------------------------- small polynomials

  predicate Majority(a: bool, b: bool, c: bool) {
    (a && b) || (a && c) || (b && c)
  }

  function SortedPair(a: Var, b: Var): seq<Var> {
    if a <= b then [a, b] else [b, a]
  }

  lemma OneTerm(vals: seq<Bits>, p: seq<Var>, constant: bool)
    ensures PolyBit(vals, [p], constant) == (Product(vals, p) != constant)
  {
    var terms: seq<seq<Var>> := [p];
    assert terms[1..] == [];
    assert PolyBit(vals, terms[1..], constant) == constant;
  }

  lemma TwoTerms(vals: seq<Bits>, p: seq<Var>, q: seq<Var>, constant: bool)
    ensures PolyBit(vals, [p, q], constant) == ((Product(vals, p) != Product(vals, q)) != constant)
  {
    var terms: seq<seq<Var>> := [p, q];
    assert terms[1..] == [q];
    OneTerm(vals, q, constant);
  }

  lemma ThreeTerms(vals: seq<Bits>, p: seq<Var>, q: seq<Var>, r: seq<Var>)
    ensures PolyBit(vals, [p, q, r], false) == ((Product(vals, p) != Product(vals, q)) != Product(vals, r))
  {
    var terms: seq<seq<Var>> := [p, q, r];
    assert terms[1..] == [q, r];
    TwoTerms(vals, q, r, false);
  }

  lemma OneFactor(vals: seq<Bits>, a: Var)
    ensures Product(vals, [a]) == BitAt(Lookup(vals, a), 0)
  {
    assert [a][1..] == [];
  }

  lemma TwoFactors(vals: seq<Bits>, a: Var, b: Var)
    ensures Product(vals, SortedPair(a, b)) == (BitAt(Lookup(vals, a), 0) && BitAt(Lookup(vals, b), 0))
  {
    OneFactor(vals, a);
    OneFactor(vals, b);
    assert [a, b][1..] == [b] && [b, a][1..] == [a];
  }

  /** One entry per monomial; all coefficients handed over by the gates are one. */
  function LastWins(terms: seq<seq<Var>>): seq<seq<Var>> {
    if terms == [] then []
    else if terms[0] in terms[1..] then LastWins(terms[1..])
    else [terms[0]] + LastWins(terms[1..])
  }

  function StoredStmt(s: Stmt): Stmt {
    if s.Poly? then Poly(LastWins(s.terms), s.constant) else s
  }

  /** The circuit as it is kept, for the circuit the gates asked for. */
  function Stored(requested: Circuit): (c: Circuit) {
    requested.(stmts := seq(|requested.stmts|, i requires 0 <= i < |requested.stmts| => StoredStmt(requested.stmts[i])))
  }

  predicate Distinct(terms: seq<seq<Var>>) {
    forall i, j | 0 <= i < j < |terms| :: terms[i] != terms[j]
  }

  /** No gate was asked to combine a monomial with itself. */
  predicate NoRepeats(requested: Circuit) {
    forall i | 0 <= i < |requested.stmts| && requested.stmts[i].Poly? :: Distinct(requested.stmts[i].terms)
  }

  lemma {:induction false} DistinctIsKept(terms: seq<seq<Var>>)
    requires Distinct(terms)
    ensures LastWins(terms) == terms
  {
    if terms != [] {
      DistinctIsKept(terms[1..]);
    }
  }

  /** Storing loses nothing exactly when no gate combined a monomial with itself. */
  lemma StoredIsRequested(c: Circuit)
    ensures Stored(c) == c <==> NoRepeats(c)
  {
    if NoRepeats(c) {
      forall i | 0 <= i < |c.stmts| ensures Stored(c).stmts[i] == c.stmts[i] {
        if c.stmts[i].Poly? {
          DistinctIsKept(c.stmts[i].terms);
        }
      }
      assert Stored(c).stmts == c.stmts;
    } else {
      var i :| 0 <= i < |c.stmts| && c.stmts[i].Poly? && !Distinct(c.stmts[i].terms);
      RepeatIsLost(c.stmts[i].terms);
      assert Stored(c).stmts[i] != c.stmts[i];
    }
  }

  lemma {:induction false} LastWinsLength(terms: seq<seq<Var>>)
    ensures |LastWins(terms)| <= |terms|
  {
    if terms != [] {
      LastWinsLength(terms[1..]);
    }
  }

  lemma {:induction false} RepeatIsLost(terms: seq<seq<Var>>)
    requires !Distinct(terms)
    ensures |LastWins(terms)| < |terms|
  {
    if terms[0] in terms[1..] {
      LastWinsLength(terms[1..]);
    } else {
      var i, j :| 0 <= i < j < |terms| && terms[i] == terms[j];
      assert terms[1..][j - 1] == terms[j];
      assert terms[1..][i - 1] == terms[1..][j - 1];
      RepeatIsLost(terms[1..]);
    }
  }

  // ---------------------------------------------------------------- when the difference shows

  function Init(c: Circuit): Circuit
    requires c.stmts != []
  {
    c.(stmts := c.stmts[..|c.stmts| - 1])
  }

  function Last(c: Circuit): Stmt
    requires c.stmts != []
  {
    c.stmts[|c.stmts| - 1]
  }

  /** On these values, keeping each monomial once makes no difference. */
  ghost predicate StmtHarmless(vals: seq<Bits>, s: Stmt) {
    s.Poly? ==> PolyBit(vals, LastWins(s.terms), s.constant) == PolyBit(vals, s.terms, s.constant)
  }

  /** In this environment no gate loses a monomial it needed. */
  ghost predicate Harmless(env: Env, c: Circuit)
    decreases |c.stmts|
  {
    c.stmts == [] || (Harmless(env, Init(c)) && StmtHarmless(Run(env, Init(c)).vals, Last(c)))
  }

  /** `d` loses nothing it needed beyond what `c` did. */
  ghost predicate SameHarm(c: Circuit, d: Circuit) {
    forall env {:trigger Harmless(env, d)} :: Harmless(env, d) <==> Harmless(env, c)
  }

  lemma StoredInit(c: Circuit)
    requires c.stmts != []
    ensures Stored(c).stmts != [] && Init(Stored(c)) == Stored(Init(c)) && Last(Stored(c)) == StoredStmt(Last(c))
  {
    assert Init(Stored(c)).stmts == Stored(Init(c)).stmts;
  }

  lemma StoredAppend(c: Circuit, s: Stmt)
    ensures Stored(c.(stmts := c.stmts + [s])) == Stored(c).(stmts := Stored(c).stmts + [StoredStmt(s)])
  {
    assert Stored(c.(stmts := c.stmts + [s])).stmts == Stored(c).stmts + [StoredStmt(s)];
  }

  lemma StoredExtends(c: Circuit, d: Circuit)
    requires Extends(c, d)
    ensures Extends(Stored(c), Stored(d)) && Stored(c).Size() == c.Size()
  {
  }

  lemma HeldKept(c: Circuit, d: Circuit)
    requires Extends(c, d)
    ensures Keeps(Stored(c), Stored(d)) && Stored(c).Size() == c.Size()
  {
    StoredExtends(c, d);
    ExtendsKeeps(Stored(c), Stored(d));
  }

  /** One more statement: what is held takes one step more. */
  lemma HeldAppended(c: Circuit, s: Stmt, d: Circuit)
    requires d == c.(stmts := c.stmts + [s])
    ensures forall env {:trigger Run(env, Stored(d))} :: Run(env, Stored(d)) == Step(Run(env, Stored(c)), StoredStmt(s))
    ensures forall env {:trigger Harmless(env, d)} :: Harmless(env, d) <==> Harmless(env, c) && StmtHarmless(Run(env, c).vals, s)
  {
    StoredAppend(c, s);
    Appended(Stored(c), StoredStmt(s), Stored(d));
    forall env ensures Harmless(env, d) <==> Harmless(env, c) && StmtHarmless(Run(env, c).vals, s) {
      HarmlessAppend(env, c, s);
    }
  }

  /** Wherever nothing needed is lost, what is held carries the same words. */
  lemma HeldWord(env: Env, c: Circuit, vars: seq<Var>)
    requires Harmless(env, c)
    ensures Word(env, Stored(c), vars) == Word(env, c, vars)
  {
    hide Run;
    HarmlessRuns(env, c);
  }

  lemma HarmlessAppend(env: Env, c: Circuit, s: Stmt)
    ensures var d := c.(stmts := c.stmts + [s]);
      Harmless(env, d) <==> Harmless(env, c) && StmtHarmless(Run(env, c).vals, s)
  {
    assert Init(c.(stmts := c.stmts + [s])) == c;
  }

  /** What the circuit holds computes what was handed over wherever nothing needed is lost. */
  lemma {:induction false} HarmlessRuns(env: Env, c: Circuit)
    requires Harmless(env, c)
    ensures Run(env, Stored(c)) == Run(env, c)
    decreases |c.stmts|
  {
    hide LastWins, PolyBit;
    if c.stmts != [] {
      HarmlessRuns(env, Init(c));
      StoredInit(c);
    } else {
      assert Stored(c).stmts == [];
    }
  }

  /** Every variable holds the value asked for if and only if no gate loses a monomial it needed. */
  lemma {:induction false} HeldExactly(env: Env, c: Circuit)
    ensures Run(env, Stored(c)).vals == Run(env, c).vals <==> Harmless(env, c)
    decreases |c.stmts|
  {
    hide LastWins, PolyBit;
    if Harmless(env, c) {
      HarmlessRuns(env, c);
    } else {
      assert c.stmts != [];
      var asked, held := Run(env, c).vals, Run(env, Stored(c)).vals;
      var askedInit, heldInit := Run(env, Init(c)).vals, Run(env, Stored(Init(c))).vals;
      HeldExactly(env, Init(c));
      StoredInit(c);
      if asked == held {
        assert askedInit == asked[..|askedInit|] && heldInit == held[..|heldInit|];
        HarmlessRuns(env, Init(c));
        assert false;
      }
    }
  }

  /** What is held already loses nothing more, so the hypothesis on what came before is no restriction. */
  lemma {:induction false} HeldIsHarmless(env: Env, c: Circuit)
    ensures Harmless(env, Stored(c))
    decreases |c.stmts|
  {
    if c.stmts != [] {
      HeldIsHarmless(env, Init(c));
      StoredInit(c);
      if Last(c).Poly? {
        LastWinsDistinct(Last(c).terms);
        DistinctIsKept(LastWins(Last(c).terms));
      }
    }
  }

  lemma {:induction false} LastWinsDistinct(terms: seq<seq<Var>>)
    ensures Distinct(LastWins(terms)) && forall t | t in LastWins(terms) :: t in terms
  {
    if terms != [] {
      LastWinsDistinct(terms[1..]);
    }
  }

  lemma {:induction false} NoRepeatsHarmless(env: Env, c: Circuit)
    requires NoRepeats(c)
    ensures Harmless(env, c)
    decreases |c.stmts|
  {
    if c.stmts != [] {
      assert NoRepeats(Init(c)) by {
        forall i | 0 <= i < |Init(c).stmts| && Init(c).stmts[i].Poly? ensures Distinct(Init(c).stmts[i].terms) {
          assert c.stmts[i] == Init(c).stmts[i];
        }
      }
      NoRepeatsHarmless(env, Init(c));
      if Last(c).Poly? {
        assert c.stmts[|c.stmts| - 1].Poly?;
        DistinctIsKept(Last(c).terms);
      }
    }
  }

  // ---------------------------------------------------------------- gate by gate

  ghost function BitOf(vals: seq<Bits>, v: Var): bool {
    BitAt(Lookup(vals, v), 0)
  }

  /** A valuation in which variable `v` holds `x` and every other variable the opposite. */
  function Only(v: Var, size: nat, x: bool): (vals: seq<Bits>)
    ensures |vals| == size
  {
    seq(size, i requires 0 <= i => [(i == v) == x])
  }

  ghost predicate XorGateRight(a: Var, b: Var) {
    forall vals {:trigger BitOf(vals, a)} :: PolyBit(vals, LastWins([[a], [b]]), false) == (BitOf(vals, a) != BitOf(vals, b))
  }

  /** The stored exclusive-or gate is right exactly when its operands are two variables. */
  lemma XorGateExact(a: Var, b: Var)
    ensures XorGateRight(a, b) <==> a != b
  {
    if a != b {
      forall vals ensures PolyBit(vals, LastWins([[a], [b]]), false) == (BitOf(vals, a) != BitOf(vals, b)) {
        assert Distinct([[a], [b]]);
        DistinctIsKept([[a], [b]]);
        TwoTerms(vals, [a], [b], false);
        OneFactor(vals, a);
        OneFactor(vals, b);
      }
    } else {
      var vals := Only(a, a + 1, true);
      TwiceIsOnce([a]);
      OneTerm(vals, [a], false);
      OneFactor(vals, a);
      assert BitOf(vals, a);
    }
  }

  lemma TwiceIsOnce(p: seq<Var>)
    ensures LastWins([p, p]) == [p]
  {
    var terms, rest := [p, p], [p];
    assert terms[1..] == rest && rest[1..] == [];
    assert LastWins(rest) == [rest[0]] + LastWins(rest[1..]) == [p];
    assert terms[0] in rest;
  }

  ghost predicate CarryGateRight(a: Var, b: Var, c: Var) {
    forall vals {:trigger BitOf(vals, a)} ::
      PolyBit(vals, LastWins([SortedPair(a, b), SortedPair(a, c), SortedPair(b, c)]), false)
        == Majority(BitOf(vals, a), BitOf(vals, b), BitOf(vals, c))
  }

  /** The stored majority gate is right exactly when its operands all differ or are all one variable. */
  lemma CarryGateExact(a: Var, b: Var, c: Var)
    ensures CarryGateRight(a, b, c) <==> CarrySafe(a, b, c)
  {
    var ab, ac, bc := SortedPair(a, b), SortedPair(a, c), SortedPair(b, c);
    if a == b == c {
      forall vals ensures PolyBit(vals, LastWins([ab, ac, bc]), false) == Majority(BitOf(vals, a), BitOf(vals, b), BitOf(vals, c)) {
        assert [ab, ac, bc][1..] == [ab, ab];
        TwiceIsOnce(ab);
        OneTerm(vals, ab, false);
        TwoFactors(vals, a, a);
      }
      assert CarryGateRight(a, b, c);
    } else if a == b {
      // ac repeats: aa + ac, wrong where both are set
      assert [ab, ac, bc][1..] == [ac, ac];
      TwiceIsOnce(ac);
      assert LastWins([ab, ac, bc]) == [ab, ac];
      var vals := WrongWhereBothSet(a, c, ab, ac);
      assert !PolyBit(vals, LastWins([ab, ac, bc]), false);
      assert Majority(BitOf(vals, a), BitOf(vals, b), BitOf(vals, c));
      assert !CarryGateRight(a, b, c);
    } else if a == c {
      FirstOfThreeRepeats(ab, ac, bc);
      var vals := WrongWhereBothSet(a, b, ac, bc);
      assert !PolyBit(vals, LastWins([ab, ac, bc]), false);
      assert Majority(BitOf(vals, a), BitOf(vals, b), BitOf(vals, c));
      assert !CarryGateRight(a, b, c);
    } else if b == c {
      FirstOfThreeRepeats(ab, ac, bc);
      var vals := WrongWhereBothSet(b, a, bc, ac);
      assert !PolyBit(vals, LastWins([ab, ac, bc]), false);
      assert Majority(BitOf(vals, a), BitOf(vals, b), BitOf(vals, c));
      assert !CarryGateRight(a, b, c);
    } else {
      forall vals ensures PolyBit(vals, LastWins([ab, ac, bc]), false) == Majority(BitOf(vals, a), BitOf(vals, b), BitOf(vals, c)) {
        assert Distinct([ab, ac, bc]);
        DistinctIsKept([ab, ac, bc]);
        ThreeTerms(vals, ab, ac, bc);
        TwoFactors(vals, a, b);
        TwoFactors(vals, a, c);
        TwoFactors(vals, b, c);
      }
      assert CarryGateRight(a, b, c);
    }
  }

  lemma FirstOfThreeRepeats(p: seq<Var>, q: seq<Var>, r: seq<Var>)
    requires (p == q || p == r) && q != r
    ensures LastWins([p, q, r]) == [q, r]
  {
    var terms := [p, q, r];
    assert terms[1..] == [q, r];
    assert Distinct([q, r]);
    DistinctIsKept([q, r]);
  }

  /** `v + v w` loses the majority of `v`, `v` and `w` where both are set. */
  lemma WrongWhereBothSet(v: Var, w: Var, vv: seq<Var>, vw: seq<Var>) returns (vals: seq<Bits>)
    requires vv == SortedPair(v, v) && vw == SortedPair(v, w) && v != w
    ensures !PolyBit(vals, [vv, vw], false) && !PolyBit(vals, [vw, vv], false)
    ensures BitOf(vals, v) && BitOf(vals, w)
  {
    vals := Only(v + w + 1, v + w + 1, false);
    TwoTerms(vals, vv, vw, false);
    TwoTerms(vals, vw, vv, false);
    TwoFactors(vals, v, v);
    TwoFactors(vals, v, w);
    assert BitOf(vals, v) && BitOf(vals, w);
  }

  lemma HeldAnd(vals: seq<Bits>, a: Var, b: Var)
    ensures PolyBit(vals, [SortedPair(a, b)], false) == (BitOf(vals, a) && BitOf(vals, b))
  {
    OneTerm(vals, SortedPair(a, b), false);
    TwoFactors(vals, a, b);
  }

  lemma HeldNot(vals: seq<Bits>, a: Var)
    ensures PolyBit(vals, [[a]], true) == !BitOf(vals, a)
  {
    OneTerm(vals, [a], true);
    OneFactor(vals, a);
  }

  /** The exclusive or of two variables, as it is held. */
  lemma HeldXor(vals: seq<Bits>, a: Var, b: Var)
    ensures PolyBit(vals, LastWins([[a], [b]]), false) == if a == b then BitOf(vals, a) else BitOf(vals, a) != BitOf(vals, b)
    ensures PolyBit(vals, [[a], [b]], false) == (BitOf(vals, a) != BitOf(vals, b))
  {
    TwoTerms(vals, [a], [b], false);
    OneFactor(vals, a);
    OneFactor(vals, b);
    if a == b {
      TwiceIsOnce([a]);
      OneTerm(vals, [a], false);
    } else {
      DistinctIsKept([[a], [b]]);
    }
  }

  /** The majority of three variables, as it is held: wrong where two are one variable and all are set. */
  lemma HeldCarry(vals: seq<Bits>, a: Var, b: Var, c: Var)
    ensures
      var terms, right := [SortedPair(a, b), SortedPair(a, c), SortedPair(b, c)], Majority(BitOf(vals, a), BitOf(vals, b), BitOf(vals, c));
      && PolyBit(vals, terms, false) == right
      && (PolyBit(vals, LastWins(terms), false) == right <==> CarrySafe(a, b, c) || !(BitOf(vals, a) && BitOf(vals, b) && BitOf(vals, c)))
  {
    var ab, ac, bc := SortedPair(a, b), SortedPair(a, c), SortedPair(b, c);
    ThreeTerms(vals, ab, ac, bc);
    TwoFactors(vals, a, b);
    TwoFactors(vals, a, c);
    TwoFactors(vals, b, c);
    if a == b == c {
      assert [ab, ac, bc][1..] == [ab, ab];
      TwiceIsOnce(ab);
      OneTerm(vals, ab, false);
    } else if a == b {
      assert [ab, ac, bc][1..] == [ac, ac];
      TwiceIsOnce(ac);
      assert LastWins([ab, ac, bc]) == [ab, ac];
      TwoTerms(vals, ab, ac, false);
    } else if a == c || b == c {
      FirstOfThreeRepeats(ab, ac, bc);
      TwoTerms(vals, ac, bc, false);
    } else {
      DistinctIsKept([ab, ac, bc]);
    }
  }

  /** The operands of a majority are three variables, or one. */
  predicate CarrySafe(a: Var, b: Var, c: Var) {
    (a != b && a != c && b != c) || a == b == c
  }
}
