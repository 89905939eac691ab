/** Maximal satisfiable sets of soft clauses, from the clauses of a weighted formula to the reports. */
module MssSolver {
  import opened Cnf
  import Trail
  import opened CdclSolver
  import opened Formulas
  import opened Selectors
  import opened SoftMss
  import opened CoMssExtractor
  import opened CoMssEnumerator

  lemma NothingStored(hard: Theory)
    ensures Represents(hard, map[], [], [], hard, []) && FreshOk(hard, map[], []) && IdsOk([], [], map[])
  {
    assert StoredClauses(map[]) == {};
  }

  /** A solver with `n` variables and the hard clauses; none when they are found unsatisfiable. */
  method LoadHard(n: nat, hards: seq<Clause>) returns (ok: bool, slv: Solver)
    requires ClausesBelow(hards, n)
    ensures fresh(slv) && (ok <==> Satisfiable(TheoryOf(hards), []))
    ensures ok ==> slv.Idle() && slv.DecisionLevel() == 0 && |slv.assigns| == n && slv.theory == TheoryOf(hards)
  {
    hide Solver.Idle, Satisfiable, TheoryOf;
    slv := new Solver();
    for i := 0 to n
      invariant slv.Idle() && slv.DecisionLevel() == 0 && |slv.assigns| == i && slv.theory == {} && slv.ok
    {
      var v := slv.NewVar();
    }
    TheoryOfNone(hards);
    var k := 0;
    ok := true;
    while k < |hards| && ok
      invariant 0 <= k <= |hards| && slv.Idle() && slv.DecisionLevel() == 0 && |slv.assigns| == n
      invariant slv.theory == TheoryOf(hards[..k]) && slv.ok == ok
      invariant k > 0 ==> slv.theory <= TheoryOf(hards)
    {
      assert hards[k] in hards;
      TheoryOfMore(hards, k);
      ok := slv.AddClause(hards[k]);
      k := k + 1;
    }
    if !ok {
      if Satisfiable(TheoryOf(hards), []) {
        FewerClauses(TheoryOf(hards), slv.theory);
        slv.NotRefuted([]);
      }
      return;
    }
    assert hards[..k] == hards;
    ok := slv.Solve([]);
  }

  /** The stored problem of hard and soft clauses; none when the hard clauses are unsatisfiable. */
  method Load(n: nat, hards: seq<Clause>, softs: seq<Clause>) returns (ok: bool, e: Extractor)
    requires ClausesBelow(hards, n) && ClausesBelow(softs, n) && forall c :: c in softs ==> |c| > 0
    ensures fresh(e) && fresh(e.slv) && (ok <==> Satisfiable(TheoryOf(hards), []))
    ensures ok ==> e.Built(TheoryOf(hards), softs) && |e.markedSelector| == |e.slv.assigns| >= n
    ensures ok ==> forall v :: v in e.stored ==> v >= n
  {
    hide Solver.Idle, Satisfiable, TheoryOf, Represents, FreshOk, IdsOk;
    var slv;
    ok, slv := LoadHard(n, hards);
    e := new Extractor(slv);
    if !ok { return; }
    ghost var hard := TheoryOf(hards);
    NothingStored(hard);
    HardBelow(hards, n);
    var k := 0;
    while k < |softs|
      invariant 0 <= k <= |softs| && e.Built(hard, softs[..k]) && |slv.assigns| >= n
      invariant forall v :: v in e.stored ==> v >= n
    {
      assert softs[k] in softs;
      assert softs[..k + 1] == softs[..k] + [softs[k]];
      e.AddSoft(softs[k], hard, softs[..k]);
      k := k + 1;
    }
    assert softs[..k] == softs;
    e.markedSelector := seq(|slv.assigns|, i => 0);
  }

  lemma HardBelow(hards: seq<Clause>, n: nat)
    requires ClausesBelow(hards, n)
    ensures VarsBelow(TheoryOf(hards), map[], [], n)
  {
    forall c, l | c in TheoryOf(hards) && l in c ensures l.v < n {
      var d :| d in hards && Lits(d) == c;
      assert l in d;
    }
  }

  // ----- the reports, in terms of soft clauses -----

  /** The indices of a maximal set of soft clauses, with a model that satisfies them. */
  datatype Mss = Mss(ids: seq<nat>, model: seq<bool>)

  function Ids(r: Mss): set<nat> {
    set i | i in r.ids
  }

  /** A maximal set of soft clauses; its model satisfies the hard clauses and exactly these soft clauses. */
  ghost predicate MssOk(hard: Theory, a: seq<Lit>, softs: seq<Clause>, r: Mss) {
    && IsSoftMss(hard, a, softs, Ids(r)) && Models(r.model, hard, a) && EachOnce(r.ids, |softs|)
    && forall i :: 0 <= i < |softs| ==> (i in r.ids <==> Sat(AsAssignment(r.model), Lits(softs[i])))
  }

  ghost predicate AllDifferent(out: seq<Mss>) {
    forall i, j :: 0 <= i < j < |out| ==> Ids(out[i]) != Ids(out[j])
  }

  /** Every maximal set of soft clauses is among the reports. */
  ghost predicate NothingMissed(hard: Theory, a: seq<Lit>, softs: seq<Clause>, out: seq<Mss>) {
    forall s :: IsSoftMss(hard, a, softs, s) ==> exists j :: 0 <= j < |out| && Ids(out[j]) == s
  }

  /** The soft clauses outside a set of indices. */
  method Others(ids: seq<nat>, n: nat) returns (out: seq<nat>)
    ensures forall i: nat :: i in out <==> i < n && i !in ids
    ensures forall i, j :: 0 <= i < j < |out| ==> out[i] < out[j]
  {
    out := [];
    for j := 0 to n
      invariant forall i: nat :: i in out <==> i < j && i !in ids
      invariant forall i, k :: 0 <= i < k < |out| ==> out[i] < out[k]
    {
      if j !in ids {
        assert forall i :: 0 <= i < |out| ==> out[i] in out;
        out := out + [j];
      }
    }
  }

  /** What a report of the enumerator says about the soft clauses. */
  lemma ReportMeans(theory: Theory, stored: map<nat, Clause>, selectors: seq<Lit>, orgID2in: seq<Option<Lit>>, hard: Theory, softs: seq<Clause>,
                    a: seq<Lit>, coMss: seq<Lit>, mss: Mss)
    requires Represents(theory, stored, selectors, orgID2in, hard, softs) && OverOriginal(Lits(a), stored)
    requires Lits(coMss) <= Lits(selectors) && IsMss(theory, a, Lits(selectors), Lits(selectors) - Lits(coMss))
    requires Models(mss.model, theory, a)
    requires forall l :: l in selectors ==> (l in coMss <==> !SelSat(stored, l, AsAssignment(mss.model)))
    requires forall i: nat :: i in mss.ids <==> i < |softs| && !(orgID2in[i].Some? && orgID2in[i].value in coMss)
    requires forall i, j :: 0 <= i < j < |mss.ids| ==> mss.ids[i] < mss.ids[j]
    ensures Ids(mss) == Chosen(orgID2in, Lits(selectors) - Lits(coMss))
    ensures MssOk(hard, a, softs, mss)
  {
    var sel := Lits(selectors) - Lits(coMss);
    assert Ids(mss) == Chosen(orgID2in, sel);
    MssIsSoftMss(theory, stored, selectors, orgID2in, hard, softs, a, sel);
    StoredIsHard(theory, stored, selectors, orgID2in, hard, softs, a, AsAssignment(mss.model));
    forall i | 0 <= i < |softs| ensures i in mss.ids <==> Sat(AsAssignment(mss.model), Lits(softs[i])) {
      assert SelectorMeans(theory, stored, softs[i], orgID2in[i]);
    }
  }

  /** `out` translates the reports one by one. */
  ghost predicate Translated(selectors: seq<Lit>, orgID2in: seq<Option<Lit>>, reports: seq<Report>, out: seq<Mss>) {
    && |out| <= |reports|
    && forall j :: 0 <= j < |out| ==> Ids(out[j]) == Chosen(orgID2in, Lits(selectors) - Lits(reports[j].coMss))
  }

  lemma TranslatedDistinct(theory: Theory, stored: map<nat, Clause>, selectors: seq<Lit>, orgID2in: seq<Option<Lit>>, hard: Theory, softs: seq<Clause>,
                           a: seq<Lit>, reports: seq<Report>, out: seq<Mss>)
    requires Represents(theory, stored, selectors, orgID2in, hard, softs) && Translated(selectors, orgID2in, reports, out)
    requires AllMss(theory, a, Lits(selectors), Sets(reports))
    ensures AllDifferent(out)
  {
    hide Represents, IsMss;
    var all := Lits(selectors);
    forall i, j | 0 <= i < j < |out| ensures Ids(out[i]) != Ids(out[j]) {
      var x, y := Lits(reports[i].coMss), Lits(reports[j].coMss);
      assert Sets(reports)[i] == x && Sets(reports)[j] == y;
      assert x == all - (all - x) && y == all - (all - y);
      if Ids(out[i]) == Ids(out[j]) {
        ChosenInjective(theory, stored, selectors, orgID2in, hard, softs, all - x, all - y);
      }
    }
  }

  lemma TranslatedAll(theory: Theory, stored: map<nat, Clause>, selectors: seq<Lit>, orgID2in: seq<Option<Lit>>, hard: Theory, softs: seq<Clause>,
                      a: seq<Lit>, reports: seq<Report>, out: seq<Mss>)
    requires Represents(theory, stored, selectors, orgID2in, hard, softs) && Translated(selectors, orgID2in, reports, out) && |out| == |reports|
    requires OverOriginal(Lits(a), stored) && AllMss(theory, a, Lits(selectors), Sets(reports)) && Exhausted(theory, a, Sets(reports))
    ensures NothingMissed(hard, a, softs, out)
  {
    hide Represents, IsMss, IsSoftMss, AllMss, Exhausted;
    forall s | IsSoftMss(hard, a, softs, s) ensures exists j :: 0 <= j < |out| && Ids(out[j]) == s {
      var sel := SoftMssChosen(theory, stored, selectors, orgID2in, hard, softs, a, s);
      MssIsSoftMss(theory, stored, selectors, orgID2in, hard, softs, a, sel);
      NoneMissed(theory, a, Lits(selectors), Sets(reports), sel);
      var j :| 0 <= j < |Sets(reports)| && Lits(selectors) - Sets(reports)[j] == sel;
      assert Ids(out[j]) == s;
    }
  }

  /** Computes the maximal sets of soft clauses under the assumptions, each once: all of them, or up to
      `max` unless that is 0. Not `ok` when the hard clauses are unsatisfiable. */
  method ComputeMsses(n: nat, hards: seq<Clause>, softs: seq<Clause>, assumps: seq<Lit>, max: nat) returns (ok: bool, out: seq<Mss>)
    requires ClausesBelow(hards, n) && ClausesBelow(softs, n) && ClausesBelow([assumps], n) && forall c :: c in softs ==> |c| > 0
    ensures ok <==> Satisfiable(TheoryOf(hards), [])
    ensures ok ==> AllDifferent(out) && forall r :: r in out ==> MssOk(TheoryOf(hards), assumps, softs, r)
    ensures ok ==> max == 0 || |out| < max ==> NothingMissed(TheoryOf(hards), assumps, softs, out)
    ensures max == 0 || |out| <= max
  {
    hide Solver.Idle, Satisfiable, TheoryOf, Represents, FreshOk, IdsOk, Exhausted, AllMss, IsMss, NothingMissed, MssOk, Models, AllDifferent;
    var e: Extractor;
    out := [];
    ok, e := Load(n, hards, softs);
    if !ok { return; }
    ghost var hard, theory := TheoryOf(hards), e.slv.theory;
    assert assumps in [assumps];
    AssumpsFresh(theory, e.stored, e.selectors, e.orgID2in, hard, softs, assumps, n);
    var enumerator := new Enumerator(e);
    var reports := enumerator.Run(assumps, max);
    while |out| < |reports|
      modifies {}
      invariant |out| <= |reports| && Translated(e.selectors, e.orgID2in, reports, out)
      invariant forall r :: r in out ==> MssOk(hard, assumps, softs, r)
    {
      var j := |out|;
      ReportParts(theory, assumps, Lits(e.selectors), reports, j);
      var ids := e.In2Ex(reports[j].coMss);
      var rest := Others(ids, |softs|);
      var r := Mss(rest, reports[j].model);
      ReportMeans(theory, e.stored, e.selectors, e.orgID2in, hard, softs, assumps, reports[j].coMss, r);
      out := out + [r];
    }
    TranslatedDistinct(theory, e.stored, e.selectors, e.orgID2in, hard, softs, assumps, reports, out);
    if max == 0 || |out| < max {
      TranslatedAll(theory, e.stored, e.selectors, e.orgID2in, hard, softs, assumps, reports, out);
    }
  }

  lemma AssumpsFresh(theory: Theory, stored: map<nat, Clause>, selectors: seq<Lit>, orgID2in: seq<Option<Lit>>, hard: Theory, softs: seq<Clause>,
                     a: seq<Lit>, n: nat)
    requires Represents(theory, stored, selectors, orgID2in, hard, softs)
    requires (forall v :: v in stored ==> v >= n) && forall l :: l in a ==> l.v < n
    ensures FreshOk(theory, stored, a) && OverOriginal(Lits(a), stored) && |orgID2in| == |softs|
  {
    hide SelectorMeans;
  }

  lemma ReportParts(theory: Theory, a: seq<Lit>, sel: set<Lit>, reports: seq<Report>, j: nat)
    requires AllMss(theory, a, sel, Sets(reports)) && j < |reports|
    ensures Lits(reports[j].coMss) <= sel && IsMss(theory, a, sel, sel - Lits(reports[j].coMss))
  {
    hide IsMss;
    assert Sets(reports)[j] == Lits(reports[j].coMss);
  }
}
