/** Enumeration of all coMSSes: extract one, block it, and go on while the formula stays satisfiable. */
module CoMssEnumerator {
  import opened Cnf
  import opened Trail
  import opened CdclSolver
  import opened Selectors
  import opened CoMssExtractor

  // ----- blocking, on the level of theories -----

  /** The models of `theory` are the models of `base` that satisfy some literal of each reported set. */
  ghost predicate Blocked(base: Theory, theory: Theory, reported: seq<set<Lit>>) {
    forall m: Assignment :: SatAll(m, theory) <==> SatAll(m, base) && forall j :: 0 <= j < |reported| ==> Sat(m, reported[j])
  }

  /** Every model of `base` and the assumptions falsifies some reported set. */
  ghost predicate Exhausted(base: Theory, a: seq<Lit>, reported: seq<set<Lit>>) {
    forall m: Assignment :: IsModel(m, base, a) ==> exists j :: 0 <= j < |reported| && !Sat(m, reported[j])
  }

  /** Each reported set is the complement of a maximal set of selectors, and none is reported twice. */
  ghost predicate AllMss(base: Theory, a: seq<Lit>, sel: set<Lit>, reported: seq<set<Lit>>) {
    && (forall j :: 0 <= j < |reported| ==> reported[j] <= sel && IsMss(base, a, sel, sel - reported[j]))
    && (forall i, j :: 0 <= i < j < |reported| ==> reported[i] != reported[j])
  }

  ghost predicate Meets(x: set<Lit>, y: set<Lit>) {
    exists l :: l in x && l in y
  }

  /** An extension of the blocked theory is maximal in the base theory too, and new. */
  lemma NewMss(base: Theory, theory: Theory, a: seq<Lit>, sel: set<Lit>, reported: seq<set<Lit>>, mss: set<Lit>)
    requires Blocked(base, theory, reported) && AllMss(base, a, sel, reported) && IsMss(theory, a, sel, mss)
    ensures AllMss(base, a, sel, reported + [sel - mss])
  {
    var m: Assignment :| IsModel(m, theory, a) && AllTrue(m, mss);
    forall j | 0 <= j < |reported| ensures Meets(reported[j], mss) {
      assert Sat(m, reported[j]);
      var l :| l in reported[j] && True(m, l);
      assert l !in mss ==> AllTrue(m, mss + {l});
    }
    forall l | l in sel && l !in mss ensures !Together(base, a, mss + {l}) {
      if Together(base, a, mss + {l}) {
        KeepsBlocked(base, theory, a, reported, mss, mss + {l});
      }
    }
    assert sel - (sel - mss) == mss;
    var r := reported + [sel - mss];
    forall i, j | 0 <= i < j < |r| ensures r[i] != r[j] {
      assert j == |reported| ==> Meets(reported[i], mss);
    }
  }

  lemma KeepsBlocked(base: Theory, theory: Theory, a: seq<Lit>, reported: seq<set<Lit>>, mss: set<Lit>, more: set<Lit>)
    requires Blocked(base, theory, reported) && mss <= more && Together(base, a, more)
    requires forall j :: 0 <= j < |reported| ==> Meets(reported[j], mss)
    ensures Together(theory, a, more)
  {
    var m: Assignment :| IsModel(m, base, a) && AllTrue(m, more);
    forall j | 0 <= j < |reported| ensures Sat(m, reported[j]) {
      assert Meets(reported[j], mss);
      var l :| l in reported[j] && l in mss;
    }
  }

  /** Once the reports are exhausted, every maximal set has been reported. */
  lemma NoneMissed(base: Theory, a: seq<Lit>, sel: set<Lit>, reported: seq<set<Lit>>, mss: set<Lit>)
    requires Exhausted(base, a, reported) && AllMss(base, a, sel, reported) && IsMss(base, a, sel, mss)
    ensures exists j :: 0 <= j < |reported| && sel - reported[j] == mss
  {
    hide IsMss, IsModel, Sat;
    var m := MssModel(base, a, sel, mss);
    var j :| 0 <= j < |reported| && !Sat(m, reported[j]);
    assert sel - (sel - reported[j]) == reported[j];
    SameMss(base, a, sel, sel - reported[j], mss, m);
  }

  lemma MssModel(base: Theory, a: seq<Lit>, sel: set<Lit>, mss: set<Lit>) returns (m: Assignment)
    requires IsMss(base, a, sel, mss)
    ensures IsModel(m, base, a) && AllTrue(m, mss)
  {
    m :| IsModel(m, base, a) && AllTrue(m, mss);
  }

  /** Two maximal sets coincide when a model of one falsifies everything outside the other. */
  lemma SameMss(base: Theory, a: seq<Lit>, sel: set<Lit>, other: set<Lit>, mss: set<Lit>, m: Assignment)
    requires IsMss(base, a, sel, other) && IsMss(base, a, sel, mss) && AllTrue(m, mss) && !Sat(m, sel - other)
    ensures other == mss
  {
    forall l | l in mss ensures l in other { }
    if l :| l in other && l !in mss {
      TogetherFewer(base, a, other, mss + {l});
    }
  }

  lemma BlockOne(base: Theory, theory: Theory, theory': Theory, reported: seq<set<Lit>>, coMss: set<Lit>)
    requires Blocked(base, theory, reported)
    requires forall m: Assignment :: SatAll(m, theory') <==> SatAll(m, theory) && Sat(m, coMss)
    ensures Blocked(base, theory', reported + [coMss])
  {
    var r := reported + [coMss];
    forall m: Assignment ensures SatAll(m, theory') <==> SatAll(m, base) && forall j :: 0 <= j < |r| ==> Sat(m, r[j]) {
      if SatAll(m, base) && forall j :: 0 <= j < |r| ==> Sat(m, r[j]) {
        forall j | 0 <= j < |reported| ensures Sat(m, reported[j]) { assert Sat(m, r[j]); }
        assert Sat(m, r[|reported|]);
      }
    }
  }

  lemma BlockedExhausts(base: Theory, theory: Theory, a: seq<Lit>, reported: seq<set<Lit>>)
    requires Blocked(base, theory, reported) && !Satisfiable(theory, a)
    ensures Exhausted(base, a, reported)
  {
    forall m: Assignment | IsModel(m, base, a) ensures exists j :: 0 <= j < |reported| && !Sat(m, reported[j]) {
      assert !IsModel(m, theory, a);
    }
  }

  lemma LastExhausts(base: Theory, theory: Theory, a: seq<Lit>, reported: seq<set<Lit>>, coMss: set<Lit>)
    requires Blocked(base, theory, reported)
    requires forall m: Assignment :: SatAll(m, theory) ==> !Sat(m, coMss)
    ensures Exhausted(base, a, reported + [coMss])
  {
    var r := reported + [coMss];
    forall m: Assignment | IsModel(m, base, a) ensures exists j :: 0 <= j < |r| && !Sat(m, r[j]) {
      if SatAll(m, theory) {
        assert !Sat(m, r[|reported|]);
      } else {
        var j :| 0 <= j < |reported| && !Sat(m, reported[j]);
        assert !Sat(m, r[j]);
      }
    }
  }

  ghost function Subsets(s: set<Lit>): set<set<Lit>> {
    set t | t <= s
  }

  // ----- the enumerator -----

  datatype Report = Report(coMss: seq<Lit>, model: seq<bool>)

  ghost function Sets(reports: seq<Report>): seq<set<Lit>> {
    seq(|reports|, j requires 0 <= j < |reports| => Lits(reports[j].coMss))
  }

  class Enumerator {
    const exttor: Extractor
    const slv: Solver

    constructor (e: Extractor)
      ensures exttor == e && slv == e.slv
    {
      exttor := e;
      slv := e.slv;
    }

    /** Excludes all subsets of the complement of `coMss`; `r` when its literals are all false at level 0. */
    method BlockDown(coMss: seq<Lit>, ghost mss: set<Lit>, ghost a: seq<Lit>, ghost sel: set<Lit>) returns (r: bool)
      requires slv.Idle() && slv.DecisionLevel() == 0 && IsMss(slv.theory, a, sel, mss)
      requires forall l :: l in coMss ==> l in sel && l !in mss && l.v < |slv.assigns|
      modifies slv
      ensures slv.Idle() && slv.DecisionLevel() == 0 && |slv.assigns| == |old(slv.assigns)|
      ensures r ==> slv.theory == old(slv.theory) && forall m: Assignment :: SatAll(m, slv.theory) ==> !Sat(m, Lits(coMss))
      ensures !r ==> forall m: Assignment :: SatAll(m, slv.theory) <==> SatAll(m, old(slv.theory)) && Sat(m, Lits(coMss))
      ensures !r ==> exists c :: c <= Lits(coMss) && slv.theory == old(slv.theory) + {c}
    {
      hide Solver.Idle, IsMss, SatAll, Entails;
      var coMss2: seq<Lit> := [];
      var i := 0;
      while i < |coMss|
        modifies {}
        invariant 0 <= i <= |coMss|
        invariant forall l :: l in coMss2 ==> l in coMss && l.v < |slv.assigns| && slv.assigns[l.v] == LUndef
        invariant forall k :: 0 <= k < i ==> coMss[k] in coMss2 || (IsFalse(slv.Snap(), coMss[k]) && Entails(slv.theory, {coMss[k].Not()}))
      {
        var l := coMss[i];
        assert l in coMss;
        slv.TopValue(l);
        if slv.Value(l) == LTrue { NotTrue(slv.theory, a, sel, mss, l); }
        if slv.Value(l) == LUndef {
          coMss2 := coMss2 + [l];
        }
        i := i + 1;
      }
      ghost var theory0 := slv.theory;
      forall l | l in coMss ensures l in coMss2 || Entails(theory0, {l.Not()}) { var k :| 0 <= k < |coMss| && coMss[k] == l; }
      if |coMss2| == 1 {
        assert coMss2[0] in coMss2;
        forall q | q in Lits(coMss) ensures q == coMss2[0] || IsFalse(slv.Snap(), q) { var k :| 0 <= k < |coMss| && coMss[k] == q; }
        NotRefutedMss(mss, a, sel);
        slv.EnqueueClause(Lits(coMss), coMss2[0]);
        AddedClause(theory0, Lits(coMss), Lits(coMss));
      } else if |coMss2| > 1 {
        var added := slv.AddClause(coMss2);
        AddedClause(theory0, Lits(coMss2), Lits(coMss));
      } else {
        AllFalse(theory0, Lits(coMss));
      }
      r := |coMss2| == 0;
    }

    /** The reports so far are exactly the blocked sets; each comes with a model that satisfies just
        the soft clauses outside it. */
    ghost predicate Enumerating(base: Theory, a: seq<Lit>, reports: seq<Report>)
      reads this, exttor, slv
    {
      && exttor.slv == slv && exttor.Valid() && exttor.strongAssums == a && |exttor.markedSelector| == |slv.assigns|
      && Blocked(base, slv.theory, Sets(reports))
      && AllMss(base, a, Lits(exttor.selectors), Sets(reports))
      && (forall j :: 0 <= j < |reports| ==> ReportOk(base, a, reports[j]))
    }

    ghost predicate ReportOk(base: Theory, a: seq<Lit>, r: Report)
      reads exttor
    {
      && Models(r.model, base, a)
      && forall l :: l in exttor.selectors ==> (l in r.coMss <==> !SelSat(exttor.stored, l, AsAssignment(r.model)))
    }

    /** One round: extracts a coMSS, reports it and blocks it. */
    method Round(ghost base: Theory, a: seq<Lit>, reports0: seq<Report>) returns (reports: seq<Report>, last: bool)
      requires Enumerating(base, a, reports0) && Satisfiable(slv.theory, a)
      modifies exttor`markedSelector, exttor`model, slv
      ensures |reports| == |reports0| + 1 && reports[..|reports0|] == reports0
      ensures AllMss(base, a, Lits(exttor.selectors), Sets(reports)) && forall j :: 0 <= j < |reports| ==> ReportOk(base, a, reports[j])
      ensures !last ==> Enumerating(base, a, reports) && slv.DecisionLevel() == 0
      ensures last ==> Exhausted(base, a, Sets(reports))
    {
      hide Solver.Idle, FreshOk, IsMss, Satisfiable, Blocked, AllMss, Models, SelSat, Exhausted;
      var coMss := exttor.Extract();
      BlockedModel(base, slv.theory, a, Sets(reports0), exttor.model);
      reports := reports0 + [Report(coMss, exttor.model)];
      ghost var sel := Lits(exttor.selectors);
      NewMss(base, slv.theory, a, sel, Sets(reports0), sel - Lits(coMss));
      assert sel - (sel - Lits(coMss)) == Lits(coMss);
      assert Sets(reports) == Sets(reports0) + [Lits(coMss)];
      ghost var theory0 := slv.theory;
      if |coMss| == 0 {
        assert Lits(coMss) == {};
        LastExhausts(base, slv.theory, a, Sets(reports0), {});
        return reports, true;
      }
      slv.Reset();
      CoMssRange(coMss);
      last := BlockDown(coMss, sel - Lits(coMss), a, sel);
      if last {
        LastExhausts(base, slv.theory, a, Sets(reports0), Lits(coMss));
      } else {
        BlockOne(base, theory0, slv.theory, Sets(reports0), Lits(coMss));
        ghost var c :| c <= Lits(coMss) && slv.theory == theory0 + {c};
        PositiveBlock(theory0, exttor.stored, a, c);
      }
    }

    lemma CoMssRange(coMss: seq<Lit>)
      requires exttor.slv == slv && exttor.SelectorsOk() && Lits(coMss) <= Lits(exttor.selectors)
      ensures forall l :: l in coMss ==> l in Lits(coMss) && l in exttor.selectors && l.v < |slv.assigns| && (l.v in exttor.stored ==> !l.neg)
    {
      hide FreshOk;
      forall l | l in coMss ensures l in exttor.selectors { assert l in Lits(coMss); }
    }

    /** Reports every coMSS of the theory under the assumptions once, up to `max` of them unless
        that is 0. */
    method Run(assumps: seq<Lit>, max: nat) returns (reports: seq<Report>)
      requires exttor.slv == slv && exttor.Valid() && FreshOk(slv.theory, exttor.stored, assumps)
      requires |exttor.markedSelector| == |slv.assigns| && forall l :: l in assumps ==> l.v < |slv.assigns|
      modifies exttor`strongAssums, exttor`markedSelector, exttor`model, slv
      ensures AllMss(old(slv.theory), assumps, Lits(exttor.selectors), Sets(reports))
      ensures forall j :: 0 <= j < |reports| ==> ReportOk(old(slv.theory), assumps, reports[j])
      ensures max == 0 || |reports| <= max
      ensures max == 0 || |reports| < max ==> Exhausted(old(slv.theory), assumps, Sets(reports))
    {
      hide Solver.Idle, FreshOk, IsMss, Satisfiable, Blocked, AllMss, ReportOk, Exhausted;
      reports := [];
      ghost var base := slv.theory;
      exttor.strongAssums := assumps;
      var res := slv.Solve(assumps + assumps);
      SameTwice(slv.theory, assumps);
      var last := false;
      StartRun(base, assumps, Lits(exttor.selectors));
      assert Sets(reports) == [];
      while res && !last
        invariant AllMss(base, assumps, Lits(exttor.selectors), Sets(reports))
        invariant forall j :: 0 <= j < |reports| ==> ReportOk(base, assumps, reports[j])
        invariant !last ==> Enumerating(base, assumps, reports) && (res <==> Satisfiable(slv.theory, assumps))
        invariant last ==> Exhausted(base, assumps, Sets(reports))
        invariant max == 0 || |reports| < max || (last && |reports| == max)
        decreases Subsets(Lits(exttor.selectors)) - Reported(reports), !last
      {
        ghost var reports0 := reports;
        reports, last := Round(base, assumps, reports);
        MoreReported(base, assumps, Lits(exttor.selectors), reports0, reports);
        if !last {
          res := slv.Solve(assumps + assumps);
          SameTwice(slv.theory, assumps);
          if max != 0 && |reports| == max {
            return;
          }
        }
      }
      if !last { BlockedExhausts(base, slv.theory, assumps, Sets(reports)); }
    }

    lemma NotRefutedMss(mss: set<Lit>, a: seq<Lit>, sel: set<Lit>)
      requires slv.Idle() && IsMss(slv.theory, a, sel, mss)
      ensures slv.ok
    {
      hide Solver.Idle;
      assert Satisfiable(slv.theory, a);
      slv.NotRefuted(a);
    }
  }

  lemma NotTrue(theory: Theory, a: seq<Lit>, sel: set<Lit>, mss: set<Lit>, l: Lit)
    requires IsMss(theory, a, sel, mss) && l in sel && l !in mss
    ensures !Entails(theory, {l})
  {
    var m: Assignment :| IsModel(m, theory, a) && AllTrue(m, mss);
    assert True(m, l) ==> AllTrue(m, mss + {l});
    assert !Sat(m, {l});
  }

  lemma AddedClause(theory: Theory, c: set<Lit>, coMss: set<Lit>)
    requires c <= coMss && forall l :: l in coMss ==> l in c || Entails(theory, {l.Not()})
    ensures forall m: Assignment :: SatAll(m, theory + {c}) <==> SatAll(m, theory) && Sat(m, coMss)
  {
    forall m: Assignment ensures SatAll(m, theory + {c}) <==> SatAll(m, theory) && Sat(m, coMss) {
      assert c in theory + {c};
      if SatAll(m, theory + {c}) {
        assert Sat(m, c);
        forall d | d in theory ensures Sat(m, d) { assert d in theory + {c}; }
      }
      if SatAll(m, theory) && Sat(m, coMss) {
        var l :| l in coMss && True(m, l);
        assert l !in c ==> Sat(m, {l.Not()});
      }
    }
  }

  lemma AllFalse(theory: Theory, coMss: set<Lit>)
    requires forall l :: l in coMss ==> Entails(theory, {l.Not()})
    ensures forall m: Assignment :: SatAll(m, theory) ==> !Sat(m, coMss)
  {
    forall m: Assignment, l | SatAll(m, theory) && l in coMss ensures !True(m, l) {
      assert Sat(m, {l.Not()});
    }
  }

  lemma BlockedModel(base: Theory, theory: Theory, a: seq<Lit>, reported: seq<set<Lit>>, model: seq<bool>)
    requires Blocked(base, theory, reported) && Models(model, theory, a)
    ensures Models(model, base, a)
  {
  }

  /** A block mentions fresh variables only positively. */
  lemma PositiveBlock(theory: Theory, stored: map<nat, Clause>, a: seq<Lit>, c: set<Lit>)
    requires FreshOk(theory, stored, a) && forall l :: l in c ==> l.v in stored ==> !l.neg
    ensures FreshOk(theory + {c}, stored, a)
  {
  }

  lemma SameTwice(theory: Theory, a: seq<Lit>)
    ensures Satisfiable(theory, a + a) <==> Satisfiable(theory, a)
  {
    forall m: Assignment ensures TrueAll(m, a + a) <==> TrueAll(m, a) { TrueAllSplit(m, a, a); }
    if Satisfiable(theory, a) {
      var m: Assignment :| IsModel(m, theory, a);
      assert IsModel(m, theory, a + a);
    }
    if Satisfiable(theory, a + a) {
      var m: Assignment :| IsModel(m, theory, a + a);
      assert IsModel(m, theory, a);
    }
  }

  lemma StartRun(base: Theory, a: seq<Lit>, sel: set<Lit>)
    ensures Blocked(base, base, []) && AllMss(base, a, sel, [])
  {
  }

  ghost function Reported(reports: seq<Report>): set<set<Lit>> {
    set j | 0 <= j < |reports| :: Lits(reports[j].coMss)
  }

  lemma MoreReported(base: Theory, a: seq<Lit>, sel: set<Lit>, reports0: seq<Report>, reports: seq<Report>)
    requires |reports| == |reports0| + 1 && reports[..|reports0|] == reports0 && AllMss(base, a, sel, Sets(reports))
    ensures Subsets(sel) - Reported(reports) < Subsets(sel) - Reported(reports0)
  {
    hide IsMss;
    var n := |reports0|;
    var latest := Sets(reports)[n];
    forall j | 0 <= j < n ensures Lits(reports0[j].coMss) != latest && reports0[j] == reports[j] {
      assert Sets(reports)[j] != Sets(reports)[n];
    }
    assert latest in Subsets(sel) && latest !in Reported(reports0);
    assert latest in Reported(reports) by { assert Lits(reports[n].coMss) == latest; }
    forall x | x in Reported(reports0) ensures x in Reported(reports) {
      var j :| 0 <= j < n && Lits(reports0[j].coMss) == x;
      assert reports[j] == reports0[j];
    }
  }
}
