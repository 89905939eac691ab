/** How the stored clauses and the level-0 part of the trail represent the clauses added so far. */
module Database {
  import opened Cnf
  import opened Trail
  import opened Watch

  type Theory = set<set<Lit>>

  predicate TopTrue(t: State, l: Lit) {
    |t.assigns| == |t.vardata| && IsTrue(t, l) && t.vardata[l.v].level == 0
  }

  predicate TopFalse(t: State, l: Lit) {
    |t.assigns| == |t.vardata| && IsFalse(t, l) && t.vardata[l.v].level == 0
  }

  /** Stored clauses and level-0 literals are consequences of the theory. */
  ghost predicate Sound(theory: Theory, ca: map<CRef, Clause>, t: State) {
    && (forall cr :: cr in ca ==> Entails(theory, Lits(ca[cr])))
    && (forall l :: TopTrue(t, l) ==> Entails(theory, {l}))
  }

  /** `c` is satisfied at level 0, tautological, or stored without some literals false at level 0. */
  ghost predicate ClauseCovered(c: set<Lit>, ca: map<CRef, Clause>, clauses: seq<CRef>, t: State) {
    || (exists l :: l in c && TopTrue(t, l))
    || (exists l :: l in c && l.Not() in c)
    || (exists cr :: cr in clauses && cr in ca && Lits(ca[cr]) <= c
          && forall l :: l in c && l !in Lits(ca[cr]) ==> TopFalse(t, l))
  }

  ghost predicate Covered(theory: Theory, ca: map<CRef, Clause>, clauses: seq<CRef>, t: State) {
    forall c :: c in theory ==> ClauseCovered(c, ca, clauses, t)
  }

  lemma TopFalseEntailed(theory: Theory, ca: map<CRef, Clause>, t: State, l: Lit)
    requires Sound(theory, ca, t) && TopFalse(t, l)
    ensures Entails(theory, {l.Not()})
  {
    assert TopTrue(t, l.Not());
  }

  /** A clause of which all but `l` are false at level 0 makes `l` a consequence. */
  lemma UnitEntailed(theory: Theory, ca: map<CRef, Clause>, t: State, cr: CRef, l: Lit)
    requires Sound(theory, ca, t) && cr in ca
    requires forall k :: 0 <= k < |ca[cr]| ==> ca[cr][k] == l || TopFalse(t, ca[cr][k])
    ensures Entails(theory, {l})
  {
    forall q | q in Lits(ca[cr]) ensures q in {l} || Entails(theory, {q.Not()}) {
      if q != l { TopFalseEntailed(theory, ca, t, q); }
    }
    EntailsDrop(theory, Lits(ca[cr]), {l});
  }

  /** A clause all of whose literals are false at level 0 makes the theory unsatisfiable. */
  lemma EmptyEntailed(theory: Theory, ca: map<CRef, Clause>, t: State, cr: CRef)
    requires Sound(theory, ca, t) && cr in ca
    requires forall k :: 0 <= k < |ca[cr]| ==> TopFalse(t, ca[cr][k])
    ensures Entails(theory, {})
  {
    forall q | q in Lits(ca[cr]) ensures Entails(theory, {q.Not()}) {
      TopFalseEntailed(theory, ca, t, q);
    }
    EntailsDrop(theory, Lits(ca[cr]), {});
  }

  lemma EnqTop(t: State, l: Lit, from: Option<CRef>, q: Lit)
    requires Wf(t) && l.v < |t.assigns| && t.assigns[l.v] == LUndef
    ensures TopTrue(t, q) ==> TopTrue(Enq(t, l, from), q)
    ensures TopFalse(t, q) ==> TopFalse(Enq(t, l, from), q)
    ensures TopTrue(Enq(t, l, from), q) ==> TopTrue(t, q) || (q == l && |t.lim| == 0)
  {
  }

  lemma EnqTopAll(t: State, l: Lit, from: Option<CRef>)
    requires Wf(t) && l.v < |t.assigns| && t.assigns[l.v] == LUndef
    ensures forall q :: TopTrue(t, q) ==> TopTrue(Enq(t, l, from), q)
  {
  }

  lemma EnqSound(theory: Theory, ca: map<CRef, Clause>, t: State, l: Lit, from: Option<CRef>)
    requires Sound(theory, ca, t) && Wf(t) && l.v < |t.assigns| && t.assigns[l.v] == LUndef
    requires |t.lim| == 0 ==> Entails(theory, {l})
    ensures Sound(theory, ca, Enq(t, l, from))
  {
    forall q | TopTrue(Enq(t, l, from), q) ensures Entails(theory, {q}) {
      EnqTop(t, l, from, q);
    }
  }

  lemma EnqCovered(theory: Theory, ca: map<CRef, Clause>, clauses: seq<CRef>, t: State, l: Lit, from: Option<CRef>)
    requires Covered(theory, ca, clauses, t) && Wf(t) && l.v < |t.assigns| && t.assigns[l.v] == LUndef
    ensures Covered(theory, ca, clauses, Enq(t, l, from))
  {
    forall c | c in theory ensures ClauseCovered(c, ca, clauses, Enq(t, l, from)) {
      TopGrows(c, ca, ca, clauses, clauses, t, Enq(t, l, from));
    }
  }

  /** A clause stays covered when clauses are only reordered or added and level-0 facts persist. */
  lemma TopGrows(c: set<Lit>, ca: map<CRef, Clause>, ca': map<CRef, Clause>, clauses: seq<CRef>, clauses': seq<CRef>, t: State, t': State)
    requires ClauseCovered(c, ca, clauses, t)
    requires forall cr :: cr in clauses && cr in ca ==> cr in clauses' && cr in ca' && Lits(ca[cr]) == Lits(ca'[cr])
    requires forall l :: TopTrue(t, l) ==> TopTrue(t', l)
    ensures ClauseCovered(c, ca', clauses', t')
  {
    if l :| l in c && TopTrue(t, l) {
      assert TopTrue(t', l);
    } else if l :| l in c && l.Not() in c {
    } else {
      var cr :| cr in clauses && cr in ca && Lits(ca[cr]) <= c && forall l :: l in c && l !in Lits(ca[cr]) ==> TopFalse(t, l);
      forall l | l in c && l !in Lits(ca'[cr]) ensures TopFalse(t', l) {
        assert TopTrue(t, l.Not());
      }
    }
  }

  lemma CoveredGrows(theory: Theory, ca: map<CRef, Clause>, ca': map<CRef, Clause>, clauses: seq<CRef>, clauses': seq<CRef>, t: State, t': State)
    requires Covered(theory, ca, clauses, t)
    requires forall cr :: cr in clauses && cr in ca ==> cr in clauses' && cr in ca' && Lits(ca[cr]) == Lits(ca'[cr])
    requires forall l :: TopTrue(t, l) ==> TopTrue(t', l)
    ensures Covered(theory, ca', clauses', t')
  {
    forall c | c in theory ensures ClauseCovered(c, ca', clauses', t') {
      TopGrows(c, ca, ca', clauses, clauses', t, t');
    }
  }

  lemma SameClausesSound(theory: Theory, ca: map<CRef, Clause>, ca': map<CRef, Clause>, t: State)
    requires Sound(theory, ca, t) && SameClauses(ca, ca')
    ensures Sound(theory, ca', t)
  {
    forall cr | cr in ca' ensures Entails(theory, Lits(ca'[cr])) {
      assert Reordered(ca[cr], ca'[cr]);
    }
  }

  lemma CancelTop(t: State, level: nat, l: Lit)
    requires Wf(t) && level < |t.lim|
    ensures TopTrue(CancelTo(t, level), l) <==> TopTrue(t, l)
    ensures TopFalse(CancelTo(t, level), l) <==> TopFalse(t, l)
  {
    CancelKeeps(t, level, l);
  }

  lemma CancelSound(theory: Theory, ca: map<CRef, Clause>, clauses: seq<CRef>, t: State, level: nat)
    requires Wf(t) && level < |t.lim| && Sound(theory, ca, t)
    ensures Sound(theory, ca, CancelTo(t, level))
    ensures Covered(theory, ca, clauses, t) ==> Covered(theory, ca, clauses, CancelTo(t, level))
  {
    forall l ensures TopTrue(CancelTo(t, level), l) <==> TopTrue(t, l) { CancelTop(t, level, l); }
    if Covered(theory, ca, clauses, t) {
      CoveredGrows(theory, ca, ca, clauses, clauses, t, CancelTo(t, level));
    }
  }

  predicate AgreesWith(model: seq<bool>, t: State) {
    |model| == |t.assigns| && forall v :: 0 <= v < |model| && t.assigns[v] != LUndef ==> model[v] == (t.assigns[v] == LTrue)
  }

  /** Once every variable has a value and propagation is done, the values satisfy the theory. */
  lemma FullTrailIsModel(theory: Theory, ca: map<CRef, Clause>, clauses: seq<CRef>, t: State, model: seq<bool>)
    requires Wf(t) && ClausesOk(ca, |t.assigns|) && PropagatedTo(ca, t, |t.trail|) && t.floor == 0
    requires Covered(theory, ca, clauses, t) && AgreesWith(model, t)
    requires forall v :: 0 <= v < |t.assigns| ==> t.assigns[v] != LUndef
    ensures SatAll(AsAssignment(model), theory)
  {
    PropagatedIsQuiet(ca, t);
    var m := AsAssignment(model);
    forall l | IsTrue(t, l) ensures True(m, l) { assert t.assigns[l.v] != LUndef; }
    forall c | c in theory ensures Sat(m, c) {
      if l :| l in c && TopTrue(t, l) {
      } else if l :| l in c && l.Not() in c {
        assert True(m, l) || True(m, l.Not());
      } else {
        var cr :| cr in clauses && cr in ca && Lits(ca[cr]) <= c && forall l :: l in c && l !in Lits(ca[cr]) ==> TopFalse(t, l);
        var d := ca[cr];
        forall i, j | 0 <= i < j < |d| && !IsFalse(t, d[i]) && !IsFalse(t, d[j]) ensures IsTrue(t, d[i]) {
          assert t.assigns[d[i].v] != LUndef;
        }
        assert exists k :: 0 <= k < |d| && IsTrue(t, d[k]);
        var k :| 0 <= k < |d| && IsTrue(t, d[k]);
        assert d[k] in Lits(d);
      }
    }
  }

  /** Propagation keeps the theory covered. */
  lemma PropagationCovers(theory: Theory, ca: map<CRef, Clause>, ca': map<CRef, Clause>, clauses: seq<CRef>, t: State, t': State)
    requires Covered(theory, ca, clauses, t) && SameClauses(ca, ca') && Extends(t, t')
    ensures Covered(theory, ca', clauses, t')
  {
    forall l | TopTrue(t, l) ensures TopTrue(t', l) {
      assert IsTrue(t', l);
    }
    forall cr | cr in ca ensures Lits(ca[cr]) == Lits(ca'[cr]) { assert Reordered(ca[cr], ca'[cr]); }
    CoveredGrows(theory, ca, ca', clauses, clauses, t, t');
  }

  lemma CoveredOneMore(theory: Theory, ca: map<CRef, Clause>, clauses: seq<CRef>, t: State, c: set<Lit>)
    requires Covered(theory, ca, clauses, t) && ClauseCovered(c, ca, clauses, t)
    ensures Covered(theory + {c}, ca, clauses, t)
  {
  }
}
