/** The grounded extension, by unit propagation and by a worklist over the attacks. */
module GroundedSemantics {
  import opened Cnf
  import opened Argumentation
  import opened AttackStore
  import opened Encoding
  import opened EncodingModels
  import opened EncodingBuilder
  import opened Encoders
  import opened Formulas
  import opened CdclSolver

  // ----- unit propagation on the complete encoding -----

  predicate NoTautology(c: Clause) {
    forall q :: q in c ==> q.Not() !in c
  }

  /** A literal whose clause has all other literals false has been propagated. */
  lemma UnitStep(cs: seq<Clause>, t: set<Lit>, m: Assignment, c: Clause, l: Lit)
    requires UnitClosed(TheoryOf(cs), t) && (forall q :: q in t ==> True(m, q))
    requires c in cs && l in c && NoTautology(c) && forall q :: q in c && q != l ==> q.Not() in t
    ensures l in t
  {
    TheoryHas(cs, c);
    var s := Lits(c);
    forall q | q in c && q != l ensures q !in t { assert True(m, q.Not()); }
    forall a, b | a in s && b in s && a != b ensures a.Not() in t || b.Not() in t { }
    assert exists q :: q in s && (q in t || q.Not() in s);
    var q :| q in s && (q in t || q.Not() in s);
    assert q in c && (q.Not() in s ==> q.Not() in c);
  }

  /** Propagation has set every switch and is closed under the complete encoding. */
  ghost predicate PropagatedIn(e: Enc, owner: seq<Owner>, t: set<Lit>, m: Assignment, r: set<Attack>) {
    && AllOwned(e, owner, true) && Selects(e, r) && Declared(e)
    && UnitClosed(TheoryOf(CompleteEncoding(e)), t) && (forall q :: q in t ==> True(m, q))
    && (forall d :: d in e.dyn ==> SwitchLit(d, PairOf(d) in r) in t)
  }

  ghost function In(e: Enc, t: set<Lit>): set<Arg> {
    set a | a in e.names && Pos(e.X(a)) in t
  }

  lemma {:induction false} DynClausesIn(e: Enc, dyn: seq<DynVar>, d: DynVar, c: Clause)
    requires d in dyn && c in DynClauses(e, d, true)
    ensures c in AllDyn(e, dyn, true)
  {
    if d != dyn[|dyn| - 1] { DynClausesIn(e, dyn[..|dyn| - 1], d, c); }
  }

  /** Where the clauses of the encoding come from. */
  lemma ClauseIn(e: Enc, a: Arg, c: Clause)
    requires a in e.names && (c in DisjunctionClauses(e, a) || c in CompleteClauses(e, a))
    ensures c in CompleteEncoding(e)
  {
    AllHas(e.names, a => DisjunctionClauses(e, a), c);
    AllHas(e.names, a => CompleteClauses(e, a), c);
  }

  lemma DynClauseIn(e: Enc, d: DynVar, c: Clause)
    requires d in e.dyn && (c in ReplClauses(e, d) || c in NotAttackedClauses(e, d))
    ensures c in CompleteEncoding(e)
  {
    assert c in DynClauses(e, d, true);
    DynClausesIn(e, e.dyn, d, c);
  }

  /** The variables of an attack with a switch differ from the others. */
  lemma DynApart(e: Enc, owner: seq<Owner>, d: DynVar, a: Arg)
    requires AllOwned(e, owner, true) && Declared(e) && d in e.dyn && a in e.names
    ensures d.fromRepl != d.assump && d.notAttackedRepl != d.assump
    ensures e.X(a) != d.fromRepl && e.X(a) != d.assump && e.X(a) != d.notAttackedRepl
    ensures e.P(a) != d.fromRepl && e.P(a) != d.assump && e.P(a) != d.notAttackedRepl && e.P(a) != e.X(d.from)
  {
    var k :| 0 <= k < |e.dyn| && e.dyn[k] == d;
    assert owner[e.X(a)] == OfArg && owner[e.P(a)] == OfDisj(a) && owner[e.X(d.from)] == OfArg;
    assert owner[d.fromRepl] == OfRepl(k) && owner[d.assump] == OfSwitch(k) && owner[d.notAttackedRepl] == OfNotAttacked(k);
  }

  lemma XApartP(e: Enc, owner: seq<Owner>, a: Arg, b: Arg)
    requires AllOwned(e, owner, true) && a in e.names && b in e.names
    ensures e.X(a) != e.P(b)
  {
    assert owner[e.X(a)] == OfArg && owner[e.P(b)] == OfDisj(b);
  }

  /** An attacker that is in and whose attack is on is propagated. */
  lemma AttackerPropagated(e: Enc, owner: seq<Owner>, t: set<Lit>, m: Assignment, r: set<Attack>, c: Arg, b: Arg)
    requires PropagatedIn(e, owner, t, m, r) && c in In(e, t) && (c, b) in r
    ensures Pos(e.Attacker(c, b)) in t
  {
    hide UnitClosed, AllOwned, TheoryOf, CompleteEncoding;
    FindMeans(e.dyn, c, b);
    if Find(e.dyn, c, b).Some? {
      var d := Find(e.dyn, c, b).value;
      var cl := [Pos(d.fromRepl), Neg(e.X(d.from)), Neg(d.assump)];
      DynApart(e, owner, d, c);
      assert cl == ReplClauses(e, d)[2];
      DynClauseIn(e, d, cl);
      assert SwitchLit(d, true) in t;
      assert cl[0] in cl;
      UnitStep(CompleteEncoding(e), t, m, cl, Pos(d.fromRepl));
    }
  }

  /** An argument attacked by one that is in is known to be attacked. */
  lemma AttackedPropagated(e: Enc, owner: seq<Owner>, t: set<Lit>, m: Assignment, r: set<Attack>, b: Arg)
    requires PropagatedIn(e, owner, t, m, r) && b in e.names && Attacked(At(e, r), In(e, t), b)
    ensures Pos(e.P(b)) in t
  {
    hide UnitClosed, AllOwned, TheoryOf, CompleteEncoding;
    var c :| c in In(e, t) && (c, b) in r;
    AttackerPropagated(e, owner, t, m, r, c, b);
    PairsTo(e.attacks, c, b);
    var bs := To(e.attacks, b);
    var i :| 0 <= i < |bs| && bs[i] == c;
    var cl := [Pos(e.P(b)), Neg(e.Attacker(c, b))];
    assert cl == AttackerClauses(e, b, bs)[i];
    assert DisjunctionClauses(e, b)[1 + i] == cl;
    AttackerApart(e, owner, c, b);
    ClauseIn(e, b, cl);
    assert cl[0] in cl;
    UnitStep(CompleteEncoding(e), t, m, cl, Pos(e.P(b)));
  }

  lemma AttackerApart(e: Enc, owner: seq<Owner>, c: Arg, b: Arg)
    requires AllOwned(e, owner, true) && Declared(e) && c in e.names && b in e.names
    ensures e.P(b) != e.Attacker(c, b)
  {
    FindMeans(e.dyn, c, b);
    XApartP(e, owner, c, b);
    if Find(e.dyn, c, b).Some? { DynApart(e, owner, Find(e.dyn, c, b).value, b); }
  }

  /** Every attacker of a defended argument is answered. */
  lemma AnswerPropagated(e: Enc, owner: seq<Owner>, t: set<Lit>, m: Assignment, r: set<Attack>, b: Arg, a: Arg)
    requires PropagatedIn(e, owner, t, m, r) && (b, a) in Pairs(e.attacks) && Defends(At(e, r), In(e, t), a)
    ensures e.Answer(b, a) in t
  {
    hide UnitClosed, AllOwned, TheoryOf, CompleteEncoding, Attacked;
    FindMeans(e.dyn, b, a);
    if (b, a) in r { AttackedPropagated(e, owner, t, m, r, b); }
    if Find(e.dyn, b, a).Some? {
      var d := Find(e.dyn, b, a).value;
      DynApart(e, owner, d, b);
      var on := (b, a) in r;
      var cl := if on then [Neg(d.notAttackedRepl), Neg(e.P(d.from))] else [Neg(d.notAttackedRepl), Pos(d.assump)];
      assert cl == NotAttackedClauses(e, d)[if on then 0 else 1];
      DynClauseIn(e, d, cl);
      assert SwitchLit(d, on) in t;
      assert cl[0] in cl;
      UnitStep(CompleteEncoding(e), t, m, cl, Neg(d.notAttackedRepl));
    }
  }

  /** Propagation finds every argument that those found defend. */
  lemma DefendedPropagated(e: Enc, owner: seq<Owner>, t: set<Lit>, m: Assignment, r: set<Attack>, a: Arg)
    requires PropagatedIn(e, owner, t, m, r) && a in e.names && Defends(At(e, r), In(e, t), a)
    ensures a in In(e, t)
  {
    hide UnitClosed, AllOwned, TheoryOf, CompleteEncoding, Attacked, Defends;
    var bs := To(e.attacks, a);
    var nots := NotAnswers(e, a, bs);
    var cl := [Pos(e.X(a))] + nots;
    assert CompleteClauses(e, a)[|bs|] == cl;
    ClauseIn(e, a, cl);
    forall q | q in nots ensures q.Not() in t && !True(m, q) && q.v != e.X(a) {
      var i :| 0 <= i < |bs| && nots[i] == q;
      PairsTo(e.attacks, bs[i], a);
      AnswerPropagated(e, owner, t, m, r, bs[i], a);
      AnswerApart(e, owner, bs[i], a);
    }
    forall q | q in cl ensures q.Not() !in cl { assert q in nots ==> True(m, q.Not()); }
    assert cl[0] in cl;
    UnitStep(CompleteEncoding(e), t, m, cl, Pos(e.X(a)));
  }

  lemma AnswerApart(e: Enc, owner: seq<Owner>, b: Arg, a: Arg)
    requires AllOwned(e, owner, true) && Declared(e) && a in e.names && b in e.names
    ensures e.Answer(b, a).v != e.X(a)
  {
    FindMeans(e.dyn, b, a);
    XApartP(e, owner, a, b);
    if Find(e.dyn, b, a).Some? { DynApart(e, owner, Find(e.dyn, b, a).value, a); }
  }

  /** The arguments set by unit propagation are the least fixed point of the characteristic function. */
  lemma PropagationIsGrounded(e: Enc, owner: seq<Owner>, t: set<Lit>, assumps: seq<Lit>, r: set<Attack>)
    requires AllOwned(e, owner, true) && Selects(e, r) && Declared(e) && Uniform(e, Grounded(At(e, r)))
    requires UnitClosed(TheoryOf(CompleteEncoding(e)), t) && Forced(TheoryOf(CompleteEncoding(e)), assumps, t)
    requires forall l :: l in assumps ==> l in t
    requires forall m: Assignment :: TrueAll(m, assumps) <==> Switched(e, m, r)
    requires forall d :: d in e.dyn ==> SwitchLit(d, PairOf(d) in r) in assumps
    ensures In(e, t) == Grounded(At(e, r))
  {
    hide UnitClosed, AllOwned, TheoryOf, CompleteEncoding, Attacked, Defends, Uniform, Switched, Declared, Selects, Grounded;
    var f := At(e, r);
    var m := GroundedModel(e, owner, assumps, r);
    forall q | q in t ensures True(m, q) { }
    assert PropagatedIn(e, owner, t, m, r);
    forall a | a in Characteristic(f, In(e, t)) ensures a in In(e, t) {
      DefendedPropagated(e, owner, t, m, r, a);
    }
    GroundedLeast(f);
    forall a | a in In(e, t) ensures a in Grounded(f) { assert a in Ext(e, m); }
  }

  /** The grounded extension has a model, so propagation meets no conflict. */
  lemma GroundedModel(e: Enc, owner: seq<Owner>, assumps: seq<Lit>, r: set<Attack>) returns (m: Assignment)
    requires AllOwned(e, owner, true) && Selects(e, r) && Declared(e) && Uniform(e, Grounded(At(e, r)))
    requires forall m: Assignment :: TrueAll(m, assumps) <==> Switched(e, m, r)
    ensures IsModel(m, TheoryOf(CompleteEncoding(e)), assumps) && Ext(e, m) == Grounded(At(e, r))
  {
    hide AllOwned, TheoryOf, CompleteEncoding, Uniform, Switched, Declared, Selects, Grounded, Holds;
    GroundedLeast(At(e, r));
    CompleteModels(e, owner, Grounded(At(e, r)), r);
    m :| Holds(m, CompleteEncoding(e)) && Switched(e, m, r) && Ext(e, m) == Grounded(At(e, r));
    HoldsTheory(m, CompleteEncoding(e));
  }

  lemma HoldsTheory(m: Assignment, cs: seq<Clause>)
    ensures SatAll(m, TheoryOf(cs)) <==> Holds(m, cs)
  {
    if SatAll(m, TheoryOf(cs)) {
      forall c | c in cs ensures Sat(m, Lits(c)) { TheoryHas(cs, c); }
    }
  }

  /** Distinct arguments have distinct variables. */
  predicate Injective(names: seq<Arg>, varOf: map<Arg, nat>) {
    forall a, b :: a in names && b in names && a in varOf && b in varOf && varOf[a] == varOf[b] ==> a == b
  }

  /** The framework after change number `step`. */
  ghost function FrameworkAfter(names: seq<Arg>, attacks: Attacks, step: int): Framework
    requires -1 <= step < |attacks.dynAttacks|
    reads attacks
  {
    Framework((set a | a in names), Replay(attacks.initial, attacks.dynAttacks, step + 1))
  }

  /** The literals propagation derives from the encoded clauses under the switches of a step. */
  method PropagatedLits(h: SatEncodingHelper, ghost nVars: nat, step: int) returns (lits: seq<Lit>)
    requires Encoded(h, h.attacks, nVars) && h.clauses == CompleteEncoding(h.EncNow()) && -1 <= step < |h.attacks.dynAttacks|
    requires Uniform(h.EncNow(), Grounded(FrameworkAfter(h.names, h.attacks, step)))
    ensures In(h.EncNow(), Lits(lits)) == Grounded(FrameworkAfter(h.names, h.attacks, step))
  {
    hide AllOwned, Declared, Covers, TheoryOf, CompleteEncoding, Grounded, Solver.Idle, Uniform, UnitClosed, Forced, TrueAll, Switched, ClausesBelow;
    ghost var e := h.EncNow();
    ghost var r := Replay(h.attacks.initial, h.attacks.dynAttacks, step + 1);
    EncodingBelow(e, h.owner);
    OwnedDyn(e, h.owner);
    ReplaySelects(e, h.attacks.dynAttacks, h.attacks.initial, step + 1);
    var assumps := h.DynAssumps(step, true);
    var slv := BuildSolver(h.nbVars, h.clauses);
    IdleIsValid(slv);
    var confl;
    lits, confl := slv.PropagateUnder(assumps);
    ghost var m := GroundedModel(e, h.owner, assumps, r);
    assert !confl;
    PropagationIsGrounded(e, h.owner, Lits(lits), assumps, r);
  }

  lemma OwnedDyn(e: Enc, owner: seq<Owner>)
    requires AllOwned(e, owner, true)
    ensures DynOwned(e, owner, true)
  {
  }

  lemma IdleIsValid(slv: Solver)
    requires slv.Idle()
    ensures slv.Valid()
  {
  }

  /** The variables propagated positively. */
  method Positives(lits: seq<Lit>) returns (propagated: seq<nat>)
    ensures forall v :: v in propagated <==> Pos(v) in lits
  {
    propagated := [];
    var i := 0;
    while i < |lits|
      invariant 0 <= i <= |lits| && forall v :: v in propagated <==> Pos(v) in lits[..i]
    {
      assert lits[..i + 1] == lits[..i] + [lits[i]];
      if !lits[i].neg {
        assert lits[i] == Pos(lits[i].v);
        propagated := propagated + [lits[i].v];
      }
      i := i + 1;
    }
    assert lits[..i] == lits;
  }

  /** The grounded extension of every step of a changing framework, as the variables that unit
      propagation sets. */
  method GroundedByPropagation(names: seq<Arg>, varOf: map<Arg, nat>, nVars: nat, attacks: Attacks, step: int) returns (propagated: seq<nat>)
    requires InputOk(names, varOf, nVars, attacks) && Injective(names, varOf) && -1 <= step < |attacks.dynAttacks|
    ensures forall a :: a in names ==> (varOf[a] in propagated <==> a in Grounded(FrameworkAfter(names, attacks, step)))
  {
    hide AllOwned, Declared, Covers, CompleteEncoding, Grounded;
    var h := EncodeAttacked(names, varOf, nVars, attacks);
    h.CreateCompleteEncodingConstraints();
    CompleteIs(h.EncNow());
    var lits := PropagatedLits(h, nVars, step);
    propagated := Positives(lits);
    forall a | a in names ensures varOf[a] in propagated <==> a in Grounded(FrameworkAfter(names, attacks, step)) {
      assert a in In(h.EncNow(), Lits(lits)) <==> Pos(varOf[a]) in lits;
    }
  }

  lemma CompleteIs(e: Enc)
    ensures CompleteEncoding(e) == AttackedEncoding(e) + CompleteAll(e)
  {
  }
}
