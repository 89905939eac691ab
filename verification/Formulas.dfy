/** Lists of clauses, and solvers loaded with them. */
module Formulas {
  import opened Cnf
  import opened CdclSolver
  import opened Derivation
  import opened Trail

  type Theory = set<set<Lit>>

  ghost function TheoryOf(cs: seq<Clause>): Theory {
    set c | c in cs :: Lits(c)
  }

  predicate ClausesBelow(cs: seq<Clause>, n: nat) {
    forall c, l :: c in cs && l in c ==> l.v < n
  }

  lemma TheoryOfMore(cs: seq<Clause>, k: nat)
    requires k < |cs|
    ensures TheoryOf(cs[..k + 1]) == TheoryOf(cs[..k]) + {Lits(cs[k])} && TheoryOf(cs[..k + 1]) <= TheoryOf(cs)
  {
    assert cs[..k + 1] == cs[..k] + [cs[k]];
    forall x | x in TheoryOf(cs[..k]) ensures x in TheoryOf(cs[..k + 1]) {
      var c :| c in cs[..k] && Lits(c) == x;
      assert c in cs[..k + 1];
    }
    assert cs[k] in cs[..k + 1];
  }

  lemma TheoryOfNone(cs: seq<Clause>)
    ensures TheoryOf(cs[..0]) == {}
  {
  }

  lemma FewerClauses(big: Theory, small: Theory)
    requires small <= big && Satisfiable(big, [])
    ensures Satisfiable(small, [])
  {
    var m: Assignment :| IsModel(m, big, []);
    assert IsModel(m, small, []);
  }

  lemma TheoryHas(cs: seq<Clause>, c: Clause)
    requires c in cs
    ensures Lits(c) in TheoryOf(cs)
  {
  }

  /** A clause that refutes leaves no consistent closed set. */
  lemma AddedConflict(ca: map<CRef, Clause>, t: State, theory: Theory, c: set<Lit>, ok0: bool)
    requires Given(ca, t, theory) && if ok0 then c == {} || Clashes(ca, t, {c}) else UnitConflict(theory, [])
    ensures UnitConflict(theory + {c}, [])
  {
    hide Based, ClosedUnder, Inconsistent;
    if !ok0 {
      ConflictMore(theory, theory + {c}, []);
    } else if c != {} {
      forall ts: iset<Lit> | ClosedAll(ts, theory + {c}) ensures Inconsistent(ts) {
        assert ClosedAll(ts, theory) && ClosedAll(ts, {c});
      }
    }
  }

  /** A solver with `n` variables and the given clauses. */
  method BuildSolver(n: nat, cs: seq<Clause>) returns (slv: Solver)
    requires ClausesBelow(cs, n)
    ensures fresh(slv) && slv.Idle() && slv.DecisionLevel() == 0 && |slv.assigns| == n && slv.theory == TheoryOf(cs)
    ensures Given(slv.ca, slv.Snap(), TheoryOf(cs))
    ensures !slv.reallyUnsat && (!slv.ok ==> UnitConflict(TheoryOf(cs), []))
  {
    hide Solver.Idle, TheoryOf, Given, GrowsBy, UnitConflict, Clashes;
    slv := new Solver();
    for i := 0 to n
      invariant slv.Idle() && slv.DecisionLevel() == 0 && |slv.assigns| == i && slv.theory == {} && Given(slv.ca, slv.Snap(), {}) && slv.ok && !slv.reallyUnsat
    {
      ghost var ca0, t0 := slv.ca, slv.Snap();
      var v := slv.NewVar();
      GivenMore(ca0, t0, slv.ca, slv.Snap(), slv.theory, {});
      assert slv.theory + {} == slv.theory;
    }
    TheoryOfNone(cs);
    var k := 0;
    while k < |cs|
      invariant 0 <= k <= |cs| && slv.Idle() && slv.DecisionLevel() == 0 && |slv.assigns| == n
      invariant slv.theory == TheoryOf(cs[..k]) && Given(slv.ca, slv.Snap(), TheoryOf(cs[..k]))
      invariant !slv.reallyUnsat && (!slv.ok ==> UnitConflict(TheoryOf(cs[..k]), []))
    {
      assert cs[k] in cs;
      TheoryOfMore(cs, k);
      ghost var ca0, t0, ok0 := slv.ca, slv.Snap(), slv.ok;
      var added := slv.AddClause(cs[k]);
      GivenMore(ca0, t0, slv.ca, slv.Snap(), TheoryOf(cs[..k]), {Lits(cs[k])});
      if !slv.ok { AddedConflict(ca0, t0, TheoryOf(cs[..k]), Lits(cs[k]), ok0); }
      k := k + 1;
    }
    assert cs[..k] == cs;
  }
}
