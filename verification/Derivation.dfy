/** What unit propagation derives at most: the literals in every set that is closed under unit resolution. */
module Derivation {
  import opened Cnf
  import opened Trail
  import opened Watch

  /** A literal of the clause whose other literals are all negated in `ts` is in `ts`. */
  ghost predicate ClosedUnder(ts: iset<Lit>, c: set<Lit>) {
    forall l :: l in c && (forall q :: q in c && q != l ==> q.Not() in ts) ==> l in ts
  }

  ghost predicate ClosedAll(ts: iset<Lit>, theory: set<set<Lit>>) {
    forall c :: c in theory ==> ClosedUnder(ts, c)
  }

  /** The literals are in every closed set with the assumptions: unit resolution derives each of them. */
  ghost predicate Derived(theory: set<set<Lit>>, assumps: seq<Lit>, ls: set<Lit>) {
    forall ts: iset<Lit> :: ClosedAll(ts, theory) && (forall l :: l in assumps ==> l in ts) ==> forall l :: l in ls ==> l in ts
  }

  // ----- the clauses and the trail of the solver -----

  /** `ts` is closed under the stored clauses, and holds the literals of the trail without a reason. */
  ghost predicate Based(ca: map<CRef, Clause>, t: State, ts: iset<Lit>) {
    && (forall cr :: cr in ca ==> ClosedUnder(ts, Lits(ca[cr])))
    && forall i :: 0 <= i < |t.trail| && t.trail[i].v < |t.vardata| && t.vardata[t.trail[i].v].reason.None? ==> t.trail[i] in ts
  }

  /** Then it holds the whole trail. */
  lemma {:induction false} TrailBased(ca: map<CRef, Clause>, t: State, ts: iset<Lit>, i: nat)
    requires ReasonsOk(ca, t) && Based(ca, t, ts) && i < |t.trail|
    ensures t.trail[i] in ts
    decreases i
  {
    hide ClosedUnder;
    assert ReasonOk(ca, t, i) && IsTrue(t, t.trail[i]);
    var reason := t.vardata[t.trail[i].v].reason;
    if reason.Some? {
      var c := ca[reason.value];
      forall q | q in Lits(c) && q != t.trail[i] ensures q.Not() in ts {
        var k :| 0 <= k < |c| && c[k] == q;
        TrueFacts(t, q);
        TrailBased(ca, t, ts, t.pos[q.v]);
      }
      Closes(ts, Lits(c), t.trail[i]);
    }
  }

  lemma Closes(ts: iset<Lit>, c: set<Lit>, l: Lit)
    requires ClosedUnder(ts, c) && l in c && forall q :: q in c && q != l ==> q.Not() in ts
    ensures l in ts
  {
  }

  /** A closed set that contains what is false of a clause. */
  lemma FalseBased(ca: map<CRef, Clause>, t: State, ts: iset<Lit>, q: Lit)
    requires ReasonsOk(ca, t) && Based(ca, t, ts) && IsFalse(t, q)
    ensures q.Not() in ts
  {
    hide Based;
    TrueFacts(t, q);
    TrailBased(ca, t, ts, t.pos[q.v]);
  }

  /** Every set on which the first state is based and that is closed under the added clauses is one for the second. */
  ghost predicate GrowsBy(ca: map<CRef, Clause>, t: State, ca': map<CRef, Clause>, t': State, added: set<set<Lit>>) {
    forall ts: iset<Lit> :: Based(ca, t, ts) && ClosedAll(ts, added) ==> Based(ca', t', ts)
  }

  lemma GrowsRefl(ca: map<CRef, Clause>, t: State, added: set<set<Lit>>)
    ensures GrowsBy(ca, t, ca, t, added)
  {
  }

  lemma GrowsTrans(ca: map<CRef, Clause>, t: State, ca1: map<CRef, Clause>, t1: State, ca2: map<CRef, Clause>, t2: State, added: set<set<Lit>>, more: set<set<Lit>>)
    requires GrowsBy(ca, t, ca1, t1, added) && GrowsBy(ca1, t1, ca2, t2, more)
    ensures GrowsBy(ca, t, ca2, t2, added + more)
  {
    hide Based, ClosedUnder;
    forall ts: iset<Lit> | Based(ca, t, ts) && ClosedAll(ts, added + more) ensures Based(ca2, t2, ts) {
      assert ClosedAll(ts, added) && ClosedAll(ts, more);
    }
  }

  /** The only literal of an added clause that is not false is enqueued. */
  lemma EnqGrows(ca: map<CRef, Clause>, t: State, l: Lit, c: set<Lit>)
    requires ReasonsOk(ca, t) && l.v < |t.assigns| && t.assigns[l.v] == LUndef
    requires l in c && forall q :: q in c ==> q == l || IsFalse(t, q)
    ensures GrowsBy(ca, t, ca, Enq(t, l, None), {c})
  {
    forall ts: iset<Lit> | Based(ca, t, ts) && ClosedAll(ts, {c}) ensures Based(ca, Enq(t, l, None), ts) {
      forall q | q in c && q != l ensures q.Not() in ts { FalseBased(ca, t, ts, q); }
      assert c in {c};
      Closes(ts, c, l);
      NewBased(ca, t, l, ts);
    }
  }

  lemma NewBased(ca: map<CRef, Clause>, t: State, l: Lit, ts: iset<Lit>)
    requires Wf(t) && l.v < |t.assigns| && t.assigns[l.v] == LUndef && Based(ca, t, ts) && l in ts
    ensures Based(ca, Enq(t, l, None), ts)
  {
    hide ClosedUnder;
    var t' := Enq(t, l, None);
    forall i | 0 <= i < |t'.trail| && t'.trail[i].v < |t'.vardata| && t'.vardata[t'.trail[i].v].reason.None? ensures t'.trail[i] in ts {
      if i < |t.trail| { assert IsTrue(t, t.trail[i]); }
    }
  }

  /** Propagation only adds literals that have reasons. */
  lemma PropagationGrows(ca: map<CRef, Clause>, t: State, ca': map<CRef, Clause>, t': State)
    requires Wf(t) && SameClauses(ca, ca') && Extends(t, t')
    ensures GrowsBy(ca, t, ca', t', {})
  {
    hide ClosedUnder;
    forall ts: iset<Lit> | Based(ca, t, ts) ensures Based(ca', t', ts) {
      forall cr | cr in ca' ensures ClosedUnder(ts, Lits(ca'[cr])) { assert Reordered(ca[cr], ca'[cr]); }
      forall i | 0 <= i < |t'.trail| && t'.trail[i].v < |t'.vardata| && t'.vardata[t'.trail[i].v].reason.None? ensures t'.trail[i] in ts {
        if i < |t.trail| { assert IsTrue(t, t.trail[i]); }
      }
    }
  }

  /** Of an added clause, the literals that are not false are stored. */
  lemma StoreGrows(ca: map<CRef, Clause>, t: State, cr: CRef, out: Clause, c: set<Lit>)
    requires ReasonsOk(ca, t) && Lits(out) <= c && forall l :: l in c ==> l in out || IsFalse(t, l)
    ensures GrowsBy(ca, t, ca[cr := out], t, {c})
  {
    forall ts: iset<Lit> | Based(ca, t, ts) && ClosedAll(ts, {c}) ensures Based(ca[cr := out], t, ts) {
      assert c in {c};
      forall l | l in Lits(out) && (forall q :: q in Lits(out) && q != l ==> q.Not() in ts) ensures l in ts {
        forall q | q in c && q != l ensures q.Not() in ts { if q !in out { FalseBased(ca, t, ts, q); } }
        Closes(ts, c, l);
      }
    }
  }

  lemma VarGrows(ca: map<CRef, Clause>, t: State)
    requires Wf(t)
    ensures GrowsBy(ca, t, ca, State(t.assigns + [LUndef], t.vardata + [VarData(None, 0)], t.trail, t.lim, t.pos + [0], t.floor), {})
  {
    hide ClosedUnder;
    assert forall i :: 0 <= i < |t.trail| ==> IsTrue(t, t.trail[i]);
  }

  lemma LevelGrows(ca: map<CRef, Clause>, t: State)
    ensures GrowsBy(ca, t, ca, NewLevel(t), {})
  {
    hide ClosedUnder;
  }

  /** Assumptions as clauses. */
  ghost function UnitsOf(a: seq<Lit>): set<set<Lit>> {
    set l | l in a :: {l}
  }

  lemma UnitsClosed(ts: iset<Lit>, a: seq<Lit>)
    ensures ClosedAll(ts, UnitsOf(a)) <==> forall l :: l in a ==> l in ts
  {
    if ClosedAll(ts, UnitsOf(a)) {
      forall l | l in a ensures l in ts {
        assert {l} in UnitsOf(a);
        Closes(ts, {l}, l);
      }
    }
  }

  /** One more assumption. */
  lemma AssumeGrows(ca: map<CRef, Clause>, t0: State, t: State, a: seq<Lit>, l: Lit)
    requires GrowsBy(ca, t0, ca, t, UnitsOf(a)) && ReasonsOk(ca, t) && l in a && l.v < |t.assigns| && t.assigns[l.v] == LUndef
    ensures GrowsBy(ca, t0, ca, Enq(t, l, None), UnitsOf(a))
  {
    hide GrowsBy;
    EnqGrows(ca, t, l, {l});
    GrowsTrans(ca, t0, ca, t, ca, Enq(t, l, None), UnitsOf(a), {{l}});
    assert UnitsOf(a) + {{l}} == UnitsOf(a);
  }

  /** The literals are in every set with the assumptions on which the state is based. */
  ghost predicate DerivedFrom(ca: map<CRef, Clause>, t: State, a: seq<Lit>, ls: set<Lit>) {
    forall ts: iset<Lit> :: Based(ca, t, ts) && (forall l :: l in a ==> l in ts) ==> forall l :: l in ls ==> l in ts
  }

  lemma TrailDerived(ca0: map<CRef, Clause>, t0: State, ca: map<CRef, Clause>, t: State, a: seq<Lit>)
    requires GrowsBy(ca0, t0, ca, t, UnitsOf(a)) && ReasonsOk(ca, t)
    ensures DerivedFrom(ca0, t0, a, Lits(t.trail))
  {
    hide Based, ClosedAll;
    forall ts: iset<Lit> | Based(ca0, t0, ts) && forall l :: l in a ==> l in ts ensures forall l :: l in Lits(t.trail) ==> l in ts {
      UnitsClosed(ts, a);
      forall l | l in t.trail ensures l in ts {
        var i :| 0 <= i < |t.trail| && t.trail[i] == l;
        TrailBased(ca, t, ts, i);
      }
    }
  }

  /** Propagation after the assumptions have been enqueued. */
  lemma AboveDerived(ca0: map<CRef, Clause>, t0: State, t1: State, ca: map<CRef, Clause>, t: State, a: seq<Lit>)
    requires GrowsBy(ca0, t0, ca0, t1, UnitsOf(a)) && Wf(t1) && SameClauses(ca0, ca) && Extends(t1, t) && ReasonsOk(ca, t)
    ensures DerivedFrom(ca0, t0, a, Lits(t.trail))
  {
    hide GrowsBy, Wf, SameClauses, Extends, ReasonsOk, DerivedFrom;
    PropagationGrows(ca0, t1, ca, t);
    GrowsTrans(ca0, t0, ca0, t1, ca, t, UnitsOf(a), {});
    assert UnitsOf(a) + {} == UnitsOf(a);
    TrailDerived(ca0, t0, ca, t, a);
  }

  /** The same after propagation at level 0. */
  lemma DerivedBefore(ca0: map<CRef, Clause>, t0: State, ca: map<CRef, Clause>, t: State, a: seq<Lit>, ls: set<Lit>)
    requires Wf(t0) && SameClauses(ca0, ca) && Extends(t0, t) && DerivedFrom(ca, t, a, ls)
    ensures DerivedFrom(ca0, t0, a, ls)
  {
    hide Based, Wf, SameClauses, Extends;
    PropagationGrows(ca0, t0, ca, t);
  }

  /** A solver in this state has been given these clauses, and has not learnt any. */
  ghost predicate Given(ca: map<CRef, Clause>, t: State, theory: set<set<Lit>>) {
    forall ts: iset<Lit> :: ClosedAll(ts, theory) ==> Based(ca, t, ts)
  }

  lemma NothingGiven(t: State)
    requires t.trail == []
    ensures Given(map[], t, {})
  {
  }

  lemma GivenMore(ca: map<CRef, Clause>, t: State, ca': map<CRef, Clause>, t': State, theory: set<set<Lit>>, added: set<set<Lit>>)
    requires Given(ca, t, theory) && GrowsBy(ca, t, ca', t', added)
    ensures Given(ca', t', theory + added)
  {
    hide Based, ClosedUnder;
    forall ts: iset<Lit> | ClosedAll(ts, theory + added) ensures Based(ca', t', ts) {
      assert ClosedAll(ts, theory) && ClosedAll(ts, added);
    }
  }

  /** What such a solver derives, unit resolution derives from the clauses. */
  lemma GivenDerived(ca: map<CRef, Clause>, t: State, theory: set<set<Lit>>, a: seq<Lit>, ls: set<Lit>)
    requires Given(ca, t, theory) && DerivedFrom(ca, t, a, ls)
    ensures Derived(theory, a, ls)
  {
    hide Based, ClosedAll;
  }

  // ----- conflicts -----

  ghost predicate Inconsistent(ts: iset<Lit>) {
    exists l :: l in ts && l.Not() in ts
  }

  /** Unit resolution meets a conflict: there is an empty clause, or no closed set with the assumptions is consistent. */
  ghost predicate UnitConflict(theory: set<set<Lit>>, assumps: seq<Lit>) {
    {} in theory || forall ts: iset<Lit> :: ClosedAll(ts, theory) && (forall l :: l in assumps ==> l in ts) ==> Inconsistent(ts)
  }

  /** The sets on which the state is based and that are closed under the added clauses are inconsistent. */
  ghost predicate Clashes(ca: map<CRef, Clause>, t: State, added: set<set<Lit>>) {
    forall ts: iset<Lit> :: Based(ca, t, ts) && ClosedAll(ts, added) ==> Inconsistent(ts)
  }

  /** All literals of an added clause are false. */
  lemma FalseClash(ca: map<CRef, Clause>, t: State, c: set<Lit>)
    requires ReasonsOk(ca, t) && c != {} && forall l :: l in c ==> IsFalse(t, l)
    ensures Clashes(ca, t, {c})
  {
    var l :| l in c;
    forall ts: iset<Lit> | Based(ca, t, ts) && ClosedAll(ts, {c}) ensures Inconsistent(ts) {
      assert c in {c};
      AllFalseIn(ca, t, c, l, ts);
    }
  }

  lemma AllFalseIn(ca: map<CRef, Clause>, t: State, c: set<Lit>, l: Lit, ts: iset<Lit>)
    requires ReasonsOk(ca, t) && Based(ca, t, ts) && ClosedUnder(ts, c) && l in c && forall q :: q in c ==> IsFalse(t, q)
    ensures l in ts && l.Not() in ts
  {
    hide Based;
    forall q | q in c ensures q.Not() in ts { FalseBased(ca, t, ts, q); }
    Closes(ts, c, l);
  }

  /** A stored clause is false. */
  lemma ConflictClash(ca: map<CRef, Clause>, t: State, cr: CRef, added: set<set<Lit>>)
    requires ReasonsOk(ca, t) && cr in ca && |ca[cr]| > 0 && forall k :: 0 <= k < |ca[cr]| ==> IsFalse(t, ca[cr][k])
    ensures Clashes(ca, t, added)
  {
    forall ts: iset<Lit> | Based(ca, t, ts) ensures Inconsistent(ts) { AllFalseIn(ca, t, Lits(ca[cr]), ca[cr][0], ts); }
  }

  lemma ClashesBefore(ca: map<CRef, Clause>, t: State, ca': map<CRef, Clause>, t': State, added: set<set<Lit>>)
    requires GrowsBy(ca, t, ca', t', added) && Clashes(ca', t', {})
    ensures Clashes(ca, t, added)
  {
    hide Based, ClosedUnder, Inconsistent;
  }

  lemma ClashesGrown(ca: map<CRef, Clause>, t: State, ca': map<CRef, Clause>, t': State, added: set<set<Lit>>)
    requires GrowsBy(ca, t, ca', t', added) && Clashes(ca', t', added)
    ensures Clashes(ca, t, added)
  {
    hide Based, ClosedUnder, Inconsistent;
  }

  /** A conflict after propagation. */
  lemma ClashesAfter(ca: map<CRef, Clause>, t: State, ca': map<CRef, Clause>, t': State, added: set<set<Lit>>)
    requires Wf(t) && SameClauses(ca, ca') && Extends(t, t') && Clashes(ca', t', added)
    ensures Clashes(ca, t, added)
  {
    hide Based, ClosedUnder, Inconsistent, Wf, SameClauses, Extends;
    PropagationGrows(ca, t, ca', t');
    forall ts: iset<Lit> | Based(ca, t, ts) && ClosedAll(ts, added) ensures Inconsistent(ts) { assert ClosedAll(ts, {}); }
  }

  /** An assumption is false. */
  lemma AssumedClash(ca0: map<CRef, Clause>, t0: State, ca: map<CRef, Clause>, t: State, a: seq<Lit>, l: Lit)
    requires GrowsBy(ca0, t0, ca, t, UnitsOf(a)) && ReasonsOk(ca, t) && l in a && IsFalse(t, l)
    ensures Clashes(ca0, t0, UnitsOf(a))
  {
    hide ClosedAll;
    forall ts: iset<Lit> | Based(ca0, t0, ts) && ClosedAll(ts, UnitsOf(a)) ensures Inconsistent(ts) {
      FalseBased(ca, t, ts, l);
      UnitsClosed(ts, a);
    }
  }

  lemma GivenConflict(ca: map<CRef, Clause>, t: State, theory: set<set<Lit>>, a: seq<Lit>)
    requires Given(ca, t, theory) && Clashes(ca, t, UnitsOf(a))
    ensures UnitConflict(theory, a)
  {
    hide Based, ClosedAll, Inconsistent;
    forall ts: iset<Lit> | ClosedAll(ts, theory) && forall l :: l in a ==> l in ts ensures Inconsistent(ts) { UnitsClosed(ts, a); }
  }

  lemma ConflictMore(theory: set<set<Lit>>, more: set<set<Lit>>, a: seq<Lit>)
    requires UnitConflict(theory, []) && theory <= more
    ensures UnitConflict(more, a)
  {
    hide Inconsistent, ClosedUnder;
  }

  ghost function LitSet(lits: seq<Lit>): iset<Lit> {
    iset l | l in lits
  }

  /** Without a conflict the literals found are a closed set themselves. */
  lemma FoundClosed(theory: set<set<Lit>>, lits: seq<Lit>)
    requires UnitClosed(theory, Lits(lits)) && DistinctVars(lits)
    ensures ClosedAll(LitSet(lits), theory) && !Inconsistent(LitSet(lits)) && {} !in theory
  {
    var ts := LitSet(lits);
    OneSided(lits);
    forall c, l | c in theory && l in c && (forall q :: q in c && q != l ==> q.Not() in ts) ensures l in ts {
      forall a, b | a in c && b in c && a != b ensures a.Not() in lits || b.Not() in lits {
        assert a != l || b != l;
      }
      var q :| q in c && (q in lits || q.Not() in c);
      if q !in lits && q != l { assert q.Not() in ts; }
    }
  }

  lemma OneSided(lits: seq<Lit>)
    requires DistinctVars(lits)
    ensures forall l :: l in lits ==> l.Not() !in lits
  {
    forall l | l in lits ensures l.Not() !in lits {
      var i :| 0 <= i < |lits| && lits[i] == l;
      forall j | 0 <= j < |lits| ensures lits[j] != l.Not() { assert j != i ==> lits[j].v != lits[i].v; }
    }
  }

  /** So they are all that unit resolution derives, and it meets no conflict. */
  lemma FoundAll(theory: set<set<Lit>>, a: seq<Lit>, lits: seq<Lit>)
    requires UnitClosed(theory, Lits(lits)) && DistinctVars(lits) && forall l :: l in a ==> l in lits
    ensures !UnitConflict(theory, a)
    ensures forall l :: Derived(theory, a, {l}) ==> l in lits
  {
    hide ClosedAll, Inconsistent, UnitClosed;
    FoundClosed(theory, lits);
    assert forall l :: l in a ==> l in LitSet(lits);
    forall l | Derived(theory, a, {l}) ensures l in lits {
      assert l in {l};
      assert l in LitSet(lits);
    }
  }

  lemma EachDerived(theory: set<set<Lit>>, a: seq<Lit>, lits: seq<Lit>)
    requires Derived(theory, a, Lits(lits))
    ensures forall l :: l in lits ==> Derived(theory, a, {l})
  {
    hide ClosedAll;
    forall l | l in lits ensures Derived(theory, a, {l}) {
      assert l in Lits(lits);
    }
  }
}
