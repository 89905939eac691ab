/** The stand-alone extraction: literals found along the way become units at level 0 instead of a retained prefix. */
module StandAloneExtraction {
  import opened Cnf
  import opened Trail
  import opened Selectors
  import opened CdclSolver
  import opened CoMssExtractor

  /** The unit clauses of the literals. */
  ghost function UnitClauses(ls: set<Lit>): Theory {
    set l | l in ls :: {l}
  }

  lemma UnitsTrue(m: Assignment, theory: Theory, units: set<Lit>)
    ensures SatAll(m, theory + UnitClauses(units)) <==> SatAll(m, theory) && AllTrue(m, units)
  {
    if SatAll(m, theory + UnitClauses(units)) {
      forall c | c in theory ensures Sat(m, c) { assert c in theory + UnitClauses(units); }
      forall l | l in units ensures True(m, l) {
        assert {l} in UnitClauses(units);
        assert Sat(m, {l});
      }
    }
    if SatAll(m, theory) && AllTrue(m, units) {
      forall c | c in theory + UnitClauses(units) ensures Sat(m, c) {
        if c !in theory {
          var l :| l in units && c == {l};
          assert True(m, l);
        }
      }
    }
  }

  /** The prefix of the search, as a set: what is assumed and what has become a unit. */
  ghost predicate Prefix(p: seq<Lit>, assums: seq<Lit>, units: set<Lit>) {
    forall l :: l in p <==> l in assums || l in units
  }

  /** Solving under the assumptions with the units stored is solving under the whole prefix. */
  lemma SameModels(m: Assignment, theory: Theory, units: set<Lit>, assums: seq<Lit>, p: seq<Lit>, more: seq<Lit>)
    requires Prefix(p, assums, units)
    ensures IsModel(m, theory + UnitClauses(units), assums + more) <==> IsModel(m, theory, p + ([] + more))
  {
    UnitsTrue(m, theory, units);
    assert [] + more == more;
    TrueAllSplit(m, p, more);
    TrueAllSplit(m, assums, more);
  }

  lemma SameSolve(theory: Theory, units: set<Lit>, assums: seq<Lit>, p: seq<Lit>, more: seq<Lit>)
    requires Prefix(p, assums, units)
    ensures Satisfiable(theory + UnitClauses(units), assums + more) <==> Satisfiable(theory, p + ([] + more))
  {
    forall m: Assignment ensures IsModel(m, theory + UnitClauses(units), assums + more) <==> IsModel(m, theory, p + ([] + more)) {
      SameModels(m, theory, units, assums, p, more);
    }
  }

  /** A literal of the prefix is not found contradictory. */
  lemma NotInPrefix(theory: Theory, p: seq<Lit>, ls: Lit)
    requires Satisfiable(theory, p + []) && !Satisfiable(theory, p + ([] + [ls]))
    ensures ls !in p
  {
    var m: Assignment :| IsModel(m, theory, p + []);
    TrueAllSplit(m, p, []);
    assert [] + [ls] == [ls];
    TrueAllSplit(m, p, [ls]);
    assert ls in p ==> IsModel(m, theory, p + ([] + [ls]));
  }

  lemma PrefixSatisfiable(theory: Theory, stored: map<nat, Clause>, p: seq<Lit>, mss: set<Lit>, coMss: set<Lit>, model: seq<bool>)
    requires Extracting(theory, stored, [], p, mss, coMss, model)
    ensures Satisfiable(theory, p + []) && Satisfiable(theory, p)
  {
    assert p + [] == p;
  }

  /** The state of the search: the solver holds the theory and the units, and the marks are those of the selectors given at the start and of the assumptions. */
  ghost predicate Alone(ex: Extractor, given: seq<Lit>, theory: Theory, assums: seq<Lit>, units: set<Lit>, p: seq<Lit>,
                        mss: seq<Lit>, coMss: seq<Lit>, unknown: seq<Lit>, model: seq<bool>)
    reads ex, ex.slv
  {
    && ex.slv.Idle() && ex.slv.DecisionLevel() == 0 && ex.slv.theory == theory + UnitClauses(units)
    && Ranges(ex.selectors, ex.stored, |ex.slv.assigns|) && FreshOk(theory, ex.stored, []) && Prefix(p, assums, units)
    && |ex.markedSelector| == |ex.slv.assigns| && MarksOk(ex.markedSelector, given + assums) && (forall l :: l in given ==> l in units)
    && multiset(mss) + multiset(coMss) + multiset(unknown) == multiset(ex.selectors)
    && Extracting(theory, ex.stored, [], p, Lits(mss), Lits(coMss), model)
  }

  /** Selectors are different literals of the `n` variables; stored ones select positively. */
  ghost predicate Ranges(selectors: seq<Lit>, stored: map<nat, Clause>, n: nat) {
    && (forall l :: l in selectors ==> l.v < n && (l.v in stored ==> !l.neg))
    && (forall i, j :: 0 <= i < j < |selectors| ==> selectors[i] != selectors[j])
    && (forall v :: v in stored ==> forall l :: l in stored[v] ==> l.v < n)
  }

  /** Makes a literal of the prefix a unit, unless it has a value already. */
  method EnqueueUnit(slv: Solver, l: Lit, ghost theory: Theory, ghost units: set<Lit>, ghost p: seq<Lit>) returns (ghost more: set<Lit>)
    requires slv.Idle() && slv.DecisionLevel() == 0 && slv.theory == theory + UnitClauses(units) && l.v < |slv.assigns|
    requires units <= Lits(p) && l in p && Satisfiable(theory, p)
    modifies slv
    ensures slv.Idle() && slv.DecisionLevel() == 0 && slv.theory == theory + UnitClauses(more) && |slv.assigns| == |old(slv.assigns)|
    ensures more == units || more == units + {l}
  {
    hide Solver.Idle, Satisfiable;
    more := units;
    if slv.Value(l) == LUndef {
      UnitsSatisfiable(theory, units, p);
      slv.NotRefuted([]);
      slv.EnqueueClause({l}, l);
      more := units + {l};
      assert UnitClauses(more) == UnitClauses(units) + {{l}};
    }
  }

  lemma UnitsSatisfiable(theory: Theory, units: set<Lit>, p: seq<Lit>)
    requires units <= Lits(p) && Satisfiable(theory, p)
    ensures Satisfiable(theory + UnitClauses(units), [])
  {
    var m: Assignment :| IsModel(m, theory, p);
    UnitsTrue(m, theory, units);
    assert IsModel(m, theory + UnitClauses(units), []);
  }

  method EnqueueAll(slv: Solver, ls: seq<Lit>, ghost theory: Theory, ghost units: set<Lit>, ghost p: seq<Lit>) returns (ghost more: set<Lit>)
    requires slv.Idle() && slv.DecisionLevel() == 0 && slv.theory == theory + UnitClauses(units)
    requires units <= Lits(p) && (forall l :: l in ls ==> l in p && l.v < |slv.assigns|) && Satisfiable(theory, p)
    modifies slv
    ensures slv.Idle() && slv.DecisionLevel() == 0 && slv.theory == theory + UnitClauses(more) && |slv.assigns| == |old(slv.assigns)|
    ensures units <= more <= units + Lits(ls)
  {
    hide Solver.Idle, Satisfiable;
    more := units;
    var i := 0;
    while i < |ls|
      invariant 0 <= i <= |ls| && slv.Idle() && slv.DecisionLevel() == 0 && slv.theory == theory + UnitClauses(more)
      invariant |slv.assigns| == |old(slv.assigns)| && units <= more <= units + Lits(ls) && units + Lits(ls) <= Lits(p)
    {
      assert ls[i] in ls;
      more := EnqueueUnit(slv, ls[i], theory, more, p);
      i := i + 1;
    }
  }

  /** The popped selector is one of the selectors. */
  lemma Popped(ex: Extractor, mss: seq<Lit>, coMss: seq<Lit>, unknown: seq<Lit>, l: Lit)
    requires Ranges(ex.selectors, ex.stored, |ex.slv.assigns|) && multiset(mss) + multiset(coMss) + multiset(unknown) == multiset(ex.selectors) && (l in unknown || l in mss || l in coMss)
    ensures l in ex.selectors && l.v < |ex.slv.assigns| && (l.v in ex.stored ==> !l.neg)
  {
    assert l in multiset(mss) + multiset(coMss) + multiset(unknown);
    assert l in multiset(ex.selectors);
  }

  /** The solver accepts `ls`: it and what the model satisfies besides are kept and become units. */
  method Accept(ex: Extractor, ls: Lit, ghost given: seq<Lit>, assums0: seq<Lit>, mss0: seq<Lit>, coMss0: seq<Lit>, unknown0: seq<Lit>,
                ghost theory: Theory, ghost units: set<Lit>, ghost p0: seq<Lit>, ghost model0: seq<bool>)
    returns (assums: seq<Lit>, mss: seq<Lit>, coMss: seq<Lit>, unknown: seq<Lit>, ghost more: set<Lit>, ghost p: seq<Lit>)
    requires Alone(ex, given, theory, assums0, units, p0, mss0, coMss0, unknown0 + [ls], model0)
    requires IsModel(AsAssignment(ex.model), theory, p0 + ([] + [ls]))
    requires ls.v < |ex.markedSelector| && (ex.markedSelector[ls.v] == 0 || Mark(ls, ex.markedSelector[ls.v]))
    modifies ex`markedSelector, ex.slv
    ensures Alone(ex, given, theory, assums, more, p, mss, coMss, unknown, ex.model) && |unknown| <= |unknown0| && mss0 <= mss && p0 + [ls] <= p
    ensures |ex.slv.assigns| == |old(ex.slv.assigns)|
  {
    hide MarksOk, Extracting, FreshOk, Solver.Idle, Satisfiable, IsModel, SelSat, Prefix, Ranges, UnitClauses;
    Popped(ex, mss0, coMss0, unknown0 + [ls], ls);
    ex.MarkKept(ls, given + assums0);
    forall l | l in unknown0 ensures l.v < |ex.markedSelector| && (l.v in ex.stored ==> !l.neg) {
      assert l in unknown0 + [ls];
      Popped(ex, mss0, coMss0, unknown0 + [ls], l);
    }
    GivenInPrefix(p0, given, assums0, units);
    var toMss, toCoMss;
    toMss, toCoMss, unknown := ex.ShrinkUnknown(unknown0, given + assums0 + [ls]);
    MovedOk(ex, unknown0, toMss, toCoMss, unknown, given + assums0, p0, ls);
    AcceptMoved(theory, ex.stored, [], p0, Lits(mss0), Lits(coMss0), model0, ls, ex.model, toMss);
    assums, mss, p := assums0 + [ls] + toMss, mss0 + [ls] + toMss, p0 + [ls] + toMss;
    assert Lits(mss0) + {ls} + Lits(toMss) == Lits(mss);
    assert given + assums == given + assums0 + [ls] + toMss;
    RejectedMarked(given + assums0, p0, p, ls, toMss, toCoMss);
    RejectAll(theory, ex.stored, [], p, Lits(mss), Lits(coMss0), ex.model, toCoMss);
    coMss := coMss0 + toCoMss;
    assert Lits(coMss0) + Lits(toCoMss) == Lits(coMss);
    Extractor.CountMoved(mss0, coMss0, unknown0, ls, toMss, toCoMss, unknown);
    PrefixSatisfiable(theory, ex.stored, p, Lits(mss), Lits(coMss), ex.model);
    PrefixUnits(p0, assums0, units, p);
    assert ls in p;
    more := EnqueueUnit(ex.slv, ls, theory, units, p);
    more := EnqueueAll(ex.slv, toMss, theory, more, p);
    PrefixGrown(p0, assums0, units, [ls] + toMss, more, p, assums);
  }

  lemma PrefixUnits(p0: seq<Lit>, assums: seq<Lit>, units: set<Lit>, p: seq<Lit>)
    requires Prefix(p0, assums, units) && p0 <= p
    ensures units <= Lits(p)
  {
    forall l | l in units ensures l in p { assert l in p0; }
  }

  lemma PrefixGrown(p0: seq<Lit>, assums0: seq<Lit>, units: set<Lit>, news: seq<Lit>, more: set<Lit>, p: seq<Lit>, assums: seq<Lit>)
    requires Prefix(p0, assums0, units) && units <= more <= units + Lits(news) && p == p0 + news && assums == assums0 + news
    ensures Prefix(p, assums, more)
  {
  }

  lemma MovedOk(ex: Extractor, unknown0: seq<Lit>, toMss: seq<Lit>, toCoMss: seq<Lit>, unknown: seq<Lit>, q0: seq<Lit>, p0: seq<Lit>, ls: Lit)
    requires multiset(toMss) + multiset(toCoMss) + multiset(unknown) == multiset(unknown0) && forall l :: l in q0 ==> l in p0
    requires forall l :: l in unknown0 ==> l.v < |ex.markedSelector| && (l.v in ex.stored ==> !l.neg)
    requires forall l :: l in toMss ==> l in q0 + [ls] || SelSat(ex.stored, l, AsAssignment(ex.model))
    ensures forall l :: l in toMss ==> l.v < |ex.markedSelector| && (l.v in ex.stored ==> !l.neg) && (l in p0 + [ls] || SelSat(ex.stored, l, AsAssignment(ex.model)))
  {
    forall l | l in toMss ensures l in unknown0 {
      assert l in multiset(toMss) + multiset(toCoMss) + multiset(unknown);
      assert l in multiset(unknown0);
    }
  }

  lemma RejectedMarked(q0: seq<Lit>, p0: seq<Lit>, p: seq<Lit>, ls: Lit, toMss: seq<Lit>, toCoMss: seq<Lit>)
    requires (forall l :: l in q0 ==> l in p0) && p == p0 + [ls] + toMss
    requires forall l :: l in toCoMss ==> l.Not() in q0 + [ls] + toMss
    ensures forall l :: l in toCoMss ==> l.Not() in p
  {
  }

  lemma GivenInPrefix(p: seq<Lit>, given: seq<Lit>, assums: seq<Lit>, units: set<Lit>)
    requires Prefix(p, assums, units) && forall l :: l in given ==> l in units
    ensures forall l :: l in given + assums ==> l in p
  {
  }

  /** Every literal of the stored clause of `sel`, but for the selector, has a value in all models. */
  ghost predicate LiteralsFixed(theory: Theory, stored: map<nat, Clause>, sel: Lit) {
    sel.v in stored ==> forall q :: q in stored[sel.v] && q.v != sel.v ==> Fixed(theory, q)
  }

  ghost predicate Fixed(theory: Theory, q: Lit) {
    Entails(theory, {q}) || Entails(theory, {q.Not()})
  }

  lemma FixedMore(theory: Theory, units: set<Lit>, more: set<Lit>, q: Lit)
    requires units <= more && (Fixed(theory + UnitClauses(units), q) || q.Not() in more)
    ensures Fixed(theory + UnitClauses(more), q)
  {
    var f, g := theory + UnitClauses(units), theory + UnitClauses(more);
    if q.Not() in more {
      assert {q.Not()} in g;
    } else {
      forall m: Assignment | SatAll(m, g) ensures SatAll(m, f) {
        forall c | c in f ensures Sat(m, c) { assert c in g; }
      }
    }
  }

  /** The literals of a rejected soft clause become false at level 0, unless they have values there. */
  method BackboneUnits(ex: Extractor, sel: Lit, ghost theory: Theory, assums: seq<Lit>, ghost units: set<Lit>, ghost p0: seq<Lit>,
                       ghost mss: set<Lit>, ghost coMss: set<Lit>, ghost model: seq<bool>)
    returns (ghost more: set<Lit>, ghost p: seq<Lit>)
    requires ex.slv.Idle() && ex.slv.DecisionLevel() == 0 && ex.slv.theory == theory + UnitClauses(units)
    requires Prefix(p0, assums, units) && Extracting(theory, ex.stored, [], p0, mss, coMss, model) && sel in coMss
    requires (sel.v in ex.stored ==> !sel.neg) && (sel.v in ex.stored ==> forall l :: l in ex.stored[sel.v] ==> l.v < |ex.slv.assigns|)
    modifies ex.slv
    ensures ex.slv.Idle() && ex.slv.DecisionLevel() == 0 && ex.slv.theory == theory + UnitClauses(more) && |ex.slv.assigns| == |old(ex.slv.assigns)|
    ensures units <= more && p0 <= p && Prefix(p, assums, more) && Extracting(theory, ex.stored, [], p, mss, coMss, model)
    ensures LiteralsFixed(ex.slv.theory, ex.stored, sel)
  {
    hide Extracting, FreshOk, Solver.Idle, Satisfiable, Prefix, UnitClauses, Fixed;
    more, p := units, p0;
    if sel.v !in ex.stored {
      return;
    }
    var c := ex.stored[sel.v];
    var i := 0;
    while i < |c|
      invariant 0 <= i <= |c| && ex.slv.Idle() && ex.slv.DecisionLevel() == 0 && ex.slv.theory == theory + UnitClauses(more)
      invariant |ex.slv.assigns| == |old(ex.slv.assigns)| && units <= more && p0 <= p && Prefix(p, assums, more) && Extracting(theory, ex.stored, [], p, mss, coMss, model)
      invariant forall k :: 0 <= k < i && c[k].v != sel.v ==> Fixed(theory + UnitClauses(more), c[k])
    {
      var q := c[i];
      assert q in c;
      if q.v != sel.v && ex.slv.Value(q) == LUndef {
        Backbone(theory, ex.stored, [], p, mss, coMss, model, sel, q);
        ghost var before := more;
        more, p := PushUnit(ex.slv, q.Not(), theory, ex.stored, assums, more, p, mss, coMss, model);
        forall k | 0 <= k < i + 1 && c[k].v != sel.v ensures Fixed(theory + UnitClauses(more), c[k]) { FixedMore(theory, before, more, c[k]); }
      } else if q.v != sel.v {
        ValueFixed(ex.slv, q);
      }
      i := i + 1;
    }
  }

  lemma ValueFixed(slv: Solver, q: Lit)
    requires slv.Idle() && slv.DecisionLevel() == 0 && q.v < |slv.assigns| && slv.Value(q) != LUndef
    ensures Fixed(slv.theory, q)
  {
    hide Solver.Idle, Entails;
    slv.TopValue(q);
  }

  /** One more literal of the prefix becomes a unit. */
  method PushUnit(slv: Solver, l: Lit, ghost theory: Theory, ghost stored: map<nat, Clause>, ghost assums: seq<Lit>, ghost units: set<Lit>,
                  ghost p0: seq<Lit>, ghost mss: set<Lit>, ghost coMss: set<Lit>, ghost model: seq<bool>)
    returns (ghost more: set<Lit>, ghost p: seq<Lit>)
    requires slv.Idle() && slv.DecisionLevel() == 0 && slv.theory == theory + UnitClauses(units) && l.v < |slv.assigns| && slv.Value(l) == LUndef
    requires Prefix(p0, assums, units) && Extracting(theory, stored, [], p0 + [l], mss, coMss, model)
    modifies slv
    ensures slv.Idle() && slv.DecisionLevel() == 0 && slv.theory == theory + UnitClauses(more) && |slv.assigns| == |old(slv.assigns)|
    ensures units <= more && l in more && p0 <= p && Prefix(p, assums, more) && Extracting(theory, stored, [], p, mss, coMss, model)
  {
    hide Extracting, Solver.Idle, Satisfiable;
    p := p0 + [l];
    PrefixSatisfiable(theory, stored, p, mss, coMss, model);
    UnitsSatisfiable(theory, units, p);
    slv.NotRefuted([]);
    slv.EnqueueClause({l}, l);
    more := units + {l};
    assert UnitClauses(more) == UnitClauses(units) + {{l}};
  }

  /** The solver rejects `ls`. */
  method RejectLit(ex: Extractor, ls: Lit, optBackbone: bool, ghost given: seq<Lit>, assums0: seq<Lit>, mss: seq<Lit>, coMss0: seq<Lit>, unknown: seq<Lit>,
                   ghost theory: Theory, ghost units: set<Lit>, ghost p0: seq<Lit>, ghost model: seq<bool>)
    returns (assums: seq<Lit>, coMss: seq<Lit>, ghost more: set<Lit>, ghost p: seq<Lit>)
    requires Alone(ex, given, theory, assums0, units, p0, mss, coMss0, unknown + [ls], model)
    requires !Satisfiable(theory, p0 + ([] + [ls]))
    requires ls.v < |ex.markedSelector| && (ex.markedSelector[ls.v] == 0 || Mark(ls, ex.markedSelector[ls.v]))
    modifies ex`markedSelector, ex.slv
    ensures Alone(ex, given, theory, assums, more, p, mss, coMss, unknown, model) && |ex.slv.assigns| == |old(ex.slv.assigns)|
    ensures p0 + [ls.Not()] <= p && (optBackbone ==> LiteralsFixed(ex.slv.theory, ex.stored, ls))
  {
    hide MarksOk, Extracting, FreshOk, Solver.Idle, Satisfiable, Prefix, Ranges, UnitClauses, LiteralsFixed;
    Popped(ex, mss, coMss0, unknown + [ls], ls);
    StoredInRange(ex.selectors, ex.stored, |ex.slv.assigns|, ls);
    GivenInPrefix(p0, given, assums0, units);
    NotMarked(theory, ex.stored, given + assums0, p0, Lits(mss), Lits(coMss0), model, ex.markedSelector, ls);
    Reject(theory, ex.stored, [], p0, Lits(mss), Lits(coMss0), model, ls);
    NewMark(ex.markedSelector, given + assums0, ls.Not());
    coMss, assums, p := coMss0 + [ls], assums0 + [ls.Not()], p0 + [ls.Not()];
    assert Lits(coMss0) + {ls} == Lits(coMss) && given + assums == given + assums0 + [ls.Not()];
    PrefixGrown(p0, assums0, units, [ls.Not()], units, p, assums);
    ex.markedSelector := ex.markedSelector[ls.v := if ls.neg then 1 else 2];
    more := units;
    if optBackbone {
      more, p := BackboneUnits(ex, ls, theory, assums, units, p, Lits(mss), Lits(coMss), model);
    }
    assert multiset(unknown + [ls]) == multiset(unknown) + multiset{ls};
  }

  lemma StoredInRange(selectors: seq<Lit>, stored: map<nat, Clause>, n: nat, ls: Lit)
    requires Ranges(selectors, stored, n) && ls in selectors
    ensures ls.v in stored ==> !ls.neg && forall l :: l in stored[ls.v] ==> l.v < n
  {
  }

  lemma NotMarked(theory: Theory, stored: map<nat, Clause>, q: seq<Lit>, p: seq<Lit>,
                  mss: set<Lit>, coMss: set<Lit>, model: seq<bool>, marked: seq<nat>, ls: Lit)
    requires Extracting(theory, stored, [], p, mss, coMss, model) && (forall l :: l in q ==> l in p) && MarksOk(marked, q) && ls.v < |marked|
    requires marked[ls.v] == 0 || Mark(ls, marked[ls.v])
    requires !Satisfiable(theory, p + ([] + [ls]))
    ensures marked[ls.v] == 0
  {
    hide Extracting, MarksOk, Satisfiable;
    PrefixSatisfiable(theory, stored, p, mss, coMss, model);
    NotInPrefix(theory, p, ls);
    if marked[ls.v] != 0 { MarkedMeans(marked, q, ls); }
  }

  /** One round: decides about `ls`. Unless a mark rejects it, it is assumed, or its negation is and, with the option, the
      literals of its clause are fixed. */
  method Round(ex: Extractor, ls: Lit, optBackbone: bool, ghost given: seq<Lit>, assums0: seq<Lit>, mss0: seq<Lit>, coMss0: seq<Lit>, unknown0: seq<Lit>,
               ghost theory: Theory, ghost units: set<Lit>, ghost p0: seq<Lit>, ghost model0: seq<bool>)
    returns (assums: seq<Lit>, mss: seq<Lit>, coMss: seq<Lit>, unknown: seq<Lit>, ghost more: set<Lit>, ghost p: seq<Lit>, ghost model: seq<bool>)
    requires Alone(ex, given, theory, assums0, units, p0, mss0, coMss0, unknown0 + [ls], model0)
    modifies ex`markedSelector, ex`model, ex.slv
    ensures Alone(ex, given, theory, assums, more, p, mss, coMss, unknown, model) && |unknown| <= |unknown0| && mss0 <= mss
    ensures |ex.slv.assigns| == |old(ex.slv.assigns)|
    ensures if old(ex.MarkedFalse(ls)) then p == p0
      else p0 + [ls] <= p || (p0 + [ls.Not()] <= p && (optBackbone ==> LiteralsFixed(ex.slv.theory, ex.stored, ls)))
  {
    hide MarksOk, Extracting, FreshOk, Solver.Idle, Satisfiable, Models, Prefix, Ranges, UnitClauses, LiteralsFixed;
    Popped(ex, mss0, coMss0, unknown0 + [ls], ls);
    assums, mss, coMss, unknown, more, p, model := assums0, mss0, coMss0, unknown0, units, p0, model0;
    if ex.markedSelector[ls.v] != 0 && ex.markedSelector[ls.v] != (if ls.neg then 2 else 1) {
      MarkedMeans(ex.markedSelector, given + assums, ls);
      GivenInPrefix(p, given, assums, units);
      RejectMarked(theory, ex.stored, [], p, Lits(mss), Lits(coMss), model, ls);
      coMss := coMss0 + [ls];
      assert Lits(coMss0) + {ls} == Lits(coMss);
      assert multiset(unknown0 + [ls]) == multiset(unknown0) + multiset{ls};
    } else {
      MarksRange(ex.markedSelector, given + assums);
      var sat := ex.slv.Solve(assums + [ls]);
      SameSolve(theory, units, assums, p, [ls]);
      if sat {
        ex.model := ex.slv.model;
        ModelsMeans(ex.model, ex.slv.theory, assums + [ls]);
        SameModels(AsAssignment(ex.model), theory, units, assums, p, [ls]);
        assums, mss, coMss, unknown, more, p := Accept(ex, ls, given, assums, mss, coMss, unknown, theory, units, p, model0);
        model := ex.model;
      } else {
        assums, coMss, more, p := RejectLit(ex, ls, optBackbone, given, assums, mss, coMss, unknown, theory, units, p, model0);
      }
    }
  }

  /** The selectors given at the start are enqueued, unless they are true already. */
  method EnqueueGiven(slv: Solver, given: seq<Lit>, ghost theory: Theory)
    requires slv.Idle() && slv.DecisionLevel() == 0 && slv.theory == theory
    requires (forall l :: l in given ==> l.v < |slv.assigns|) && Satisfiable(theory, given)
    modifies slv
    ensures slv.Idle() && slv.DecisionLevel() == 0 && slv.theory == theory + UnitClauses(Lits(given)) && |slv.assigns| == |old(slv.assigns)|
  {
    hide Solver.Idle, Satisfiable;
    var i := 0;
    NoUnits(theory);
    assert Lits(given[..0]) == {};
    while i < |given|
      invariant 0 <= i <= |given| && slv.Idle() && slv.DecisionLevel() == 0 && slv.theory == theory + UnitClauses(Lits(given[..i]))
      invariant |slv.assigns| == |old(slv.assigns)|
    {
      assert given[i] in given && given[..i + 1] == given[..i] + [given[i]];
      forall l | l in Lits(given[..i]) ensures l in given { }
      UnitsSatisfiable(theory, Lits(given[..i]), given);
      slv.NotRefuted([]);
      if slv.Value(given[i]) == LUndef {
        slv.EnqueueClause({given[i]}, given[i]);
      } else {
        NotFalse(slv, theory, Lits(given[..i]), given, given[i]);
        slv.NoteTrue(given[i]);
      }
      assert Lits(given[..i + 1]) == Lits(given[..i]) + {given[i]};
      assert UnitClauses(Lits(given[..i + 1])) == UnitClauses(Lits(given[..i])) + {{given[i]}};
      i := i + 1;
    }
    assert given[..i] == given;
  }

  /** A given literal is not false: all of them hold together. */
  lemma NotFalse(slv: Solver, theory: Theory, units: set<Lit>, given: seq<Lit>, l: Lit)
    requires slv.Idle() && slv.DecisionLevel() == 0 && slv.theory == theory + UnitClauses(units) && l.v < |slv.assigns|
    requires units <= Lits(given) && l in given && Satisfiable(theory, given) && slv.Value(l) != LUndef
    ensures IsTrue(slv.Snap(), l)
  {
    hide Solver.Idle;
    slv.TopValue(l);
    var m: Assignment :| IsModel(m, theory, given);
    UnitsTrue(m, theory, units);
    assert !Sat(m, {l.Not()});
  }

  lemma NoUnits(theory: Theory)
    ensures theory + UnitClauses({}) == theory
  {
  }

  /** The whole search, from selectors known to hold together and the others: they are partitioned into a
      maximal satisfiable part with the given ones, and the rest. */
  method Search(ex: Extractor, mss0: seq<Lit>, unknown0: seq<Lit>, optBackbone: bool) returns (mss: seq<Lit>, coMss: seq<Lit>, ghost model: seq<bool>)
    requires ex.Valid() && ex.strongAssums == [] && ex.slv.DecisionLevel() == 0
    requires multiset(mss0) + multiset(unknown0) == multiset(ex.selectors) && Together(ex.slv.theory, [], Lits(mss0))
    requires forall c, l :: c in ex.slv.theory && l in c ==> l.v < |ex.slv.assigns|
    requires |ex.markedSelector| == |ex.slv.assigns| && MarksOk(ex.markedSelector, mss0)
    modifies ex`markedSelector, ex`model, ex.slv
    ensures multiset(mss) + multiset(coMss) == multiset(ex.selectors) && mss0 <= mss
    ensures IsMss(old(ex.slv.theory), [], Lits(ex.selectors), Lits(mss))
    ensures forall l :: l in ex.selectors ==> (l in mss <==> l !in coMss) && (l in mss <==> SelSat(ex.stored, l, AsAssignment(model)))
    ensures Models(model, old(ex.slv.theory), [])
  {
    hide MarksOk, Extracting, FreshOk, Solver.Idle, Satisfiable, Models, Prefix, UnitClauses, IsModel;
    ghost var theory := ex.slv.theory;
    GivenSelectors(ex, mss0, unknown0);
    model := SomeValues(theory, |ex.slv.assigns|, mss0);
    StartGiven(theory, ex.stored, mss0, model);
    EnqueueGiven(ex.slv, mss0, theory);
    var unknown := unknown0;
    var assums: seq<Lit> := [];
    mss, coMss := mss0, [];
    ghost var units, p := Lits(mss0), mss0;
    NothingAssumed(mss0);
    assert Lits([]) == {} && mss0 + [] == mss0;
    while |unknown| > 0
      invariant Alone(ex, mss0, theory, assums, units, p, mss, coMss, unknown, model) && mss0 <= mss
      decreases |unknown|
    {
      var ls := unknown[|unknown| - 1];
      assert unknown == unknown[..|unknown| - 1] + [ls];
      unknown := unknown[..|unknown| - 1];
      assums, mss, coMss, unknown, units, p, model := Round(ex, ls, optBackbone, mss0, assums, mss, coMss, unknown, theory, units, p, model);
    }
    Finished(ex, mss0, theory, assums, units, p, mss, coMss, model);
  }

  lemma GivenSelectors(ex: Extractor, mss0: seq<Lit>, unknown0: seq<Lit>)
    requires ex.SelectorsOk() && multiset(mss0) + multiset(unknown0) == multiset(ex.selectors)
    ensures forall l :: l in mss0 ==> l.v < |ex.slv.assigns| && (l.v in ex.stored ==> !l.neg)
  {
    forall l | l in mss0 ensures l in ex.selectors {
      assert l in multiset(mss0) + multiset(unknown0);
      assert l in multiset(ex.selectors);
    }
  }

  lemma NothingAssumed(mss0: seq<Lit>)
    ensures Prefix(mss0, [], Lits(mss0))
  {
  }

  lemma StartGiven(theory: Theory, stored: map<nat, Clause>, mss0: seq<Lit>, model: seq<bool>)
    requires FreshOk(theory, stored, []) && IsModel(AsAssignment(model), theory, mss0) && forall l :: l in mss0 ==> l.v in stored ==> !l.neg
    ensures Extracting(theory, stored, [], mss0, Lits(mss0), {}, model) && Satisfiable(theory, mss0)
  {
    assert mss0 + [] == mss0;
    forall l | l in Lits(mss0) ensures SelSat(stored, l, AsAssignment(model)) {
      SelectedHolds(theory, stored, [], AsAssignment(model), l);
    }
  }

  /** Selectors that hold together in a theory over `n` variables do so for some `n` values. */
  lemma SomeValues(theory: Theory, n: nat, mss0: seq<Lit>) returns (model: seq<bool>)
    requires Together(theory, [], Lits(mss0)) && (forall c, l :: c in theory && l in c ==> l.v < n) && forall l :: l in mss0 ==> l.v < n
    ensures IsModel(AsAssignment(model), theory, mss0)
  {
    var m: Assignment :| IsModel(m, theory, []) && AllTrue(m, Lits(mss0));
    model := seq(n, v requires 0 <= v < n => m(v));
    forall c | c in theory ensures Sat(AsAssignment(model), c) {
      assert Sat(m, c);
      var l :| l in c && True(m, l);
      assert True(AsAssignment(model), l);
    }
    forall l | l in mss0 ensures True(AsAssignment(model), l) { assert l in Lits(mss0); }
  }

  lemma Finished(ex: Extractor, given: seq<Lit>, theory: Theory, assums: seq<Lit>, units: set<Lit>, p: seq<Lit>, mss: seq<Lit>, coMss: seq<Lit>, model: seq<bool>)
    requires Alone(ex, given, theory, assums, units, p, mss, coMss, [], model)
    ensures multiset(mss) + multiset(coMss) == multiset(ex.selectors)
    ensures IsMss(theory, [], Lits(ex.selectors), Lits(mss))
    ensures forall l :: l in ex.selectors ==> (l in mss <==> l !in coMss) && (l in mss <==> SelSat(ex.stored, l, AsAssignment(model)))
    ensures Models(model, theory, [])
  {
    hide Models, MarksOk, FreshOk, Solver.Idle, Satisfiable, IsMss, SelSat, IsModel, Extracting, Prefix, UnitClauses, Ranges;
    forall l | l in coMss ensures l.v in ex.stored ==> !l.neg { Popped(ex, mss, coMss, [], l); }
    forall l ensures l in ex.selectors <==> l in mss || l in coMss {
      assert l in multiset(ex.selectors) <==> l in ex.selectors;
    }
    assert Lits(mss) + Lits(coMss) == Lits(ex.selectors);
    Extracted(theory, ex.stored, [], p, Lits(mss), Lits(coMss), model);
    forall l | l in ex.selectors ensures (l in mss <==> l !in coMss) && (l in mss <==> SelSat(ex.stored, l, AsAssignment(model))) {
      assert l in Lits(mss) + Lits(coMss);
      assert l in coMss <==> l in Lits(coMss);
    }
  }
}
