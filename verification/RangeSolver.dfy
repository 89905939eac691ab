/** The run that lists all semi-stable or stage extensions. */
module RangeBasedSolver {
  import opened Cnf
  import opened Argumentation
  import opened AttackStore
  import opened Encoding
  import opened EncodingModels
  import opened EncodingBuilder
  import opened Encoders
  import opened Formulas
  import opened SoftMss
  import opened MssSolver
  import opened GroundedSemantics
  import opened PreferredSemantics
  import opened ModelEnumeration
  import opened ExtensionEnumeration
  import opened IdealSemantics
  import opened RangeSemantics

  /** What the enumeration of maximal ranges reports. */
  ghost predicate RangeReports(e: Enc, owner: seq<Owner>, n: nat, a: seq<Lit>, r: set<Attack>, complete: bool, msses: seq<Mss>) {
    && RangeQuery(e, owner, n, a, r, complete) && AllDifferent(msses)
    && (forall x :: x in msses ==> MssOk(TheoryOf(BaseEncoding(e, complete)), a, RangeSofts(e), x))
    && NothingMissed(TheoryOf(BaseEncoding(e, complete)), a, RangeSofts(e), msses)
  }

  ghost function ExtOf(e: Enc, model: seq<bool>): set<Arg> {
    Ext(e, AsAssignment(model))
  }

  ghost predicate Has(e: Enc, models: seq<seq<bool>>, s: set<Arg>) {
    exists j :: 0 <= j < |models| && ExtOf(e, models[j]) == s
  }

  lemma ReportHasRange(e: Enc, owner: seq<Owner>, n: nat, a: seq<Lit>, r: set<Attack>, complete: bool, msses: seq<Mss>, i: nat)
    requires RangeReports(e, owner, n, a, r, complete, msses) && i < |msses|
    ensures HasRange(e, r, complete, msses[i].ids, ExtOf(e, msses[i].model)) && MaxRange(At(e, r), complete, ExtOf(e, msses[i].model))
  {
    hide RangeQuery, MssOk, NothingMissed, Base, Range, AllDifferent;
    assert msses[i] in msses;
    ReportIsMaxRange(e, owner, n, a, r, complete, msses[i]);
    assert IdSet(msses[i].ids) == Ids(msses[i]);
  }

  /** A set has the range of at most one report. */
  lemma OneReport(e: Enc, owner: seq<Owner>, n: nat, a: seq<Lit>, r: set<Attack>, complete: bool, msses: seq<Mss>, i: nat, j: nat, s: set<Arg>)
    requires RangeReports(e, owner, n, a, r, complete, msses) && i < |msses| && j < |msses|
    requires HasRange(e, r, complete, msses[i].ids, s) && HasRange(e, r, complete, msses[j].ids, s)
    ensures i == j
  {
    hide MssOk, NothingMissed, Base, Range, Query, MergesBase, ArgVars;
    assert msses[i] in msses && msses[j] in msses;
    ReportIds(TheoryOf(BaseEncoding(e, complete)), a, e, msses[i]);
    ReportIds(TheoryOf(BaseEncoding(e, complete)), a, e, msses[j]);
    assert IdSet(msses[i].ids) == Ids(msses[i]) && IdSet(msses[j].ids) == Ids(msses[j]);
    forall k: nat ensures k in Ids(msses[i]) <==> k in Ids(msses[j]) {
      if k < |e.names| {
        NamesOfHas(e, Ids(msses[i]), k);
        NamesOfHas(e, Ids(msses[j]), k);
      }
    }
    assert Ids(msses[i]) == Ids(msses[j]);
  }

  lemma ReportIds(theory: Theory, a: seq<Lit>, e: Enc, x: Mss)
    requires MssOk(theory, a, RangeSofts(e), x)
    ensures forall k :: k in Ids(x) ==> k < |e.names|
  {
    hide SoftsTogether, Models;
    RangeSoftsLength(e);
  }

  // ----- what has been listed so far -----

  ghost predicate InSomeRange(e: Enc, r: set<Attack>, complete: bool, msses: seq<Mss>, s: set<Arg>) {
    exists i :: 0 <= i < |msses| && HasRange(e, r, complete, msses[i].ids, s)
  }

  ghost predicate Different(e: Enc, models: seq<seq<bool>>) {
    forall i, j :: 0 <= i < j < |models| ==> ExtOf(e, models[i]) != ExtOf(e, models[j])
  }

  /** Everything with one of the first `k` ranges is listed, and of the later ranges the report only. */
  ghost predicate Listing(e: Enc, r: set<Attack>, complete: bool, msses: seq<Mss>, k: nat, models: seq<seq<bool>>) {
    && k <= |msses| && Different(e, models)
    && (forall j :: 0 <= j < |models| ==> InSomeRange(e, r, complete, msses, ExtOf(e, models[j])))
    && (forall i :: 0 <= i < |msses| ==> Has(e, models, ExtOf(e, msses[i].model)))
    && (forall i, s :: 0 <= i < k && HasRange(e, r, complete, msses[i].ids, s) ==> Has(e, models, s))
    && (forall i, j :: k <= i < |msses| && 0 <= j < |models| && HasRange(e, r, complete, msses[i].ids, ExtOf(e, models[j]))
          ==> ExtOf(e, models[j]) == ExtOf(e, msses[i].model))
  }

  ghost function ModelsOf(msses: seq<Mss>): seq<seq<bool>> {
    seq(|msses|, i requires 0 <= i < |msses| => msses[i].model)
  }

  lemma StartListing(e: Enc, owner: seq<Owner>, n: nat, a: seq<Lit>, r: set<Attack>, complete: bool, msses: seq<Mss>)
    requires RangeReports(e, owner, n, a, r, complete, msses)
    ensures Listing(e, r, complete, msses, 0, ModelsOf(msses))
  {
    hide RangeReports, HasRange, ExtOf, MaxRange;
    var models := ModelsOf(msses);
    forall i | 0 <= i < |msses| ensures models[i] == msses[i].model && HasRange(e, r, complete, msses[i].ids, ExtOf(e, models[i])) {
      ReportHasRange(e, owner, n, a, r, complete, msses, i);
    }
    forall i, j | 0 <= i < |msses| && 0 <= j < |models| && HasRange(e, r, complete, msses[i].ids, ExtOf(e, models[j])) ensures i == j {
      OneReport(e, owner, n, a, r, complete, msses, i, j, ExtOf(e, models[j]));
    }
    forall i, j | 0 <= i < j < |models| ensures ExtOf(e, models[i]) != ExtOf(e, models[j]) {
      assert HasRange(e, r, complete, msses[i].ids, ExtOf(e, models[i]));
    }
    forall i | 0 <= i < |msses| ensures Has(e, models, ExtOf(e, msses[i].model)) {
      assert ExtOf(e, models[i]) == ExtOf(e, msses[i].model);
    }
  }

  lemma HasMore(e: Enc, models: seq<seq<bool>>, more: seq<seq<bool>>, s: set<Arg>)
    requires Has(e, models, s) || Has(e, more, s)
    ensures Has(e, models + more, s)
  {
    if Has(e, models, s) {
      var j :| 0 <= j < |models| && ExtOf(e, models[j]) == s;
      assert (models + more)[j] == models[j];
    } else {
      var j :| 0 <= j < |more| && ExtOf(e, more[j]) == s;
      assert (models + more)[|models| + j] == more[j];
    }
  }

  lemma NextListing(e: Enc, owner: seq<Owner>, n: nat, a: seq<Lit>, r: set<Attack>, complete: bool, msses: seq<Mss>, k: nat, models: seq<seq<bool>>, others: seq<seq<bool>>)
    requires RangeReports(e, owner, n, a, r, complete, msses) && k < |msses| && Listing(e, r, complete, msses, k, models)
    requires OthersOk(e, r, complete, msses[k].ids, msses[k].model, others)
    ensures Listing(e, r, complete, msses, k + 1, models + others)
  {
    hide RangeReports, HasRange, Ext;
    var all := models + others;
    OthersDiffer(e, r, complete, msses, k, models, others);
    forall j | 0 <= j < |all| ensures InSomeRange(e, r, complete, msses, ExtOf(e, all[j])) {
      assert j >= |models| ==> HasRange(e, r, complete, msses[k].ids, ExtOf(e, all[j]));
    }
    forall i | 0 <= i < |msses| ensures Has(e, all, ExtOf(e, msses[i].model)) { HasMore(e, models, others, ExtOf(e, msses[i].model)); }
    forall i, s | 0 <= i < k + 1 && HasRange(e, r, complete, msses[i].ids, s) ensures Has(e, all, s) {
      if i == k && s != ExtOf(e, msses[k].model) {
        var j :| 0 <= j < |others| && Ext(e, AsAssignment(others[j])) == s;
        assert Has(e, others, s) by { assert ExtOf(e, others[j]) == s; }
      }
      HasMore(e, models, others, s);
    }
    forall i, j | k + 1 <= i < |msses| && 0 <= j < |all| && HasRange(e, r, complete, msses[i].ids, ExtOf(e, all[j]))
      ensures ExtOf(e, all[j]) == ExtOf(e, msses[i].model)
    {
      if j >= |models| {
        assert HasRange(e, r, complete, msses[k].ids, ExtOf(e, all[j]));
        OneReport(e, owner, n, a, r, complete, msses, i, k, ExtOf(e, all[j]));
      }
    }
  }

  lemma OthersDiffer(e: Enc, r: set<Attack>, complete: bool, msses: seq<Mss>, k: nat, models: seq<seq<bool>>, others: seq<seq<bool>>)
    requires k < |msses| && Listing(e, r, complete, msses, k, models) && OthersOk(e, r, complete, msses[k].ids, msses[k].model, others)
    ensures Different(e, models + others)
  {
    hide HasRange, Ext, InSomeRange, Has;
    var all := models + others;
    forall i, j | 0 <= i < j < |all| ensures ExtOf(e, all[i]) != ExtOf(e, all[j]) {
      if i < |models| <= j {
        var y := others[j - |models|];
        assert HasRange(e, r, complete, msses[k].ids, Ext(e, AsAssignment(y))) && Ext(e, AsAssignment(y)) != ExtOf(e, msses[k].model);
        assert all[i] == models[i] && all[j] == y;
      } else if i >= |models| {
        assert all[i] == others[i - |models|] && all[j] == others[j - |models|];
      } else {
        assert all[i] == models[i] && all[j] == models[j];
      }
    }
  }

  /** Once all ranges are done, exactly the extensions of maximal range are listed. */
  lemma ListingDone(e: Enc, owner: seq<Owner>, n: nat, a: seq<Lit>, r: set<Attack>, complete: bool, msses: seq<Mss>, models: seq<seq<bool>>)
    requires RangeReports(e, owner, n, a, r, complete, msses) && Listing(e, r, complete, msses, |msses|, models)
    ensures ListsModels(e.names, e.varOf, models, RangeExts(At(e, r), complete))
  {
    hide HasRange, Ext, MaxRange, RangeQuery, MssOk, AllDifferent, NothingMissed, RangeExts, ModelArgs;
    var f := At(e, r);
    forall j | 0 <= j < |models| ensures ModelArgs(e.names, e.varOf, models[j]) == ExtOf(e, models[j]) && ExtOf(e, models[j]) in RangeExts(f, complete) {
      ModelArgsIs(e, models[j]);
      assert InSomeRange(e, r, complete, msses, ExtOf(e, models[j]));
      var i :| 0 <= i < |msses| && HasRange(e, r, complete, msses[i].ids, ExtOf(e, models[j]));
      ReportHasRange(e, owner, n, a, r, complete, msses, i);
      SameMaxRange(e, r, complete, msses[i].ids, ExtOf(e, msses[i].model), ExtOf(e, models[j]));
      MaxRangeIs(f, complete, ExtOf(e, models[j]));
    }
    forall s | s in RangeExts(f, complete) ensures exists j :: 0 <= j < |models| && ModelArgs(e.names, e.varOf, models[j]) == s {
      MaxRangeIs(f, complete, s);
      var i := RangeReported(e, owner, n, a, r, complete, msses, s);
      RangeIs(e, r, complete, msses[i], s);
      assert Has(e, models, s);
      var j :| 0 <= j < |models| && ExtOf(e, models[j]) == s;
    }
  }

  lemma RangeIs(e: Enc, r: set<Attack>, complete: bool, x: Mss, s: set<Arg>)
    requires MaxRange(At(e, r), complete, s) && NamesOf(e, Ids(x)) == Range(At(e, r), s)
    ensures HasRange(e, r, complete, x.ids, s)
  {
    assert IdSet(x.ids) == Ids(x);
  }

  lemma SameMaxRange(e: Enc, r: set<Attack>, complete: bool, ids: seq<nat>, s: set<Arg>, t: set<Arg>)
    requires MaxRange(At(e, r), complete, s) && HasRange(e, r, complete, ids, s) && HasRange(e, r, complete, ids, t)
    ensures MaxRange(At(e, r), complete, t)
  {
    hide Base, Range;
  }

  // ----- early stops -----

  /** The first report is alone when it is contained in every extension. */
  lemma FirstAlone(e: Enc, owner: seq<Owner>, n: nat, a: seq<Lit>, r: set<Attack>, complete: bool, msses: seq<Mss>)
    requires RangeReports(e, owner, n, a, r, complete, msses) && |msses| > 0
    requires forall t :: Base(At(e, r), complete, t) ==> ExtOf(e, msses[0].model) <= t
    ensures ListsModels(e.names, e.varOf, [msses[0].model], RangeExts(At(e, r), complete))
  {
    hide RangeReports, HasRange, Ext, MaxRange, RangeExts, ModelArgs, Base;
    var s := ExtOf(e, msses[0].model);
    ReportHasRange(e, owner, n, a, r, complete, msses, 0);
    OnlyMaxRange(At(e, r), complete, s);
    ModelArgsIs(e, msses[0].model);
    assert [msses[0].model][0] == msses[0].model;
  }

  /** An empty report is the first one. */
  lemma EmptyIsFirst(e: Enc, owner: seq<Owner>, n: nat, a: seq<Lit>, r: set<Attack>, complete: bool, msses: seq<Mss>, k: nat)
    requires RangeReports(e, owner, n, a, r, complete, msses) && k < |msses| && ExtOf(e, msses[k].model) == {}
    ensures k == 0
  {
    hide RangeReports, Ext, RangeExts, Base, Range;
    ReportHasRange(e, owner, n, a, r, complete, msses, k);
    ReportHasRange(e, owner, n, a, r, complete, msses, 0);
    EmptyMaxRange(At(e, r), complete);
    MaxRangeIs(At(e, r), complete, ExtOf(e, msses[0].model));
    OneReport(e, owner, n, a, r, complete, msses, 0, k, {});
  }

  /** Arguments forced without assumptions are in every base extension. */
  lemma ForcedInBase(e: Enc, owner: seq<Owner>, n: nat, a: seq<Lit>, r: set<Attack>, complete: bool, lits: seq<Lit>, t: set<Arg>)
    requires RangeQuery(e, owner, n, a, r, complete) && Forced(TheoryOf(BaseEncoding(e, complete)), [], Lits(lits)) && Base(At(e, r), complete, t)
    ensures In(e, Lits(lits)) <= t
  {
    hide Query, BaseEncoding, TheoryOf, Base, Holds, ArgVars;
    BaseUniform(e, At(e, r), complete, t);
    var m := BaseExtModel(e, owner, n, a, r, complete, t);
    HoldsTheory(m, BaseEncoding(e, complete));
    assert IsModel(m, TheoryOf(BaseEncoding(e, complete)), []);
    forall x | x in In(e, Lits(lits)) ensures x in t {
      assert True(m, Pos(e.X(x)));
      assert x in Ext(e, m);
    }
  }

  lemma SameAsForced(e: Enc, n: nat, model: seq<bool>, lits: seq<Lit>, propagated: seq<nat>)
    requires ArgVars(e, n) && (forall v :: v in propagated <==> Pos(v) in lits)
    requires forall v: nat :: v < n ==> (v in propagated <==> AsAssignment(model)(v))
    ensures ExtOf(e, model) == In(e, Lits(lits))
  {
    forall x | x in e.names ensures x in ExtOf(e, model) <==> x in In(e, Lits(lits)) { }
  }

  /** The model sets none of the first `n` variables. */
  predicate NoneSet(model: seq<bool>, n: nat) {
    forall v: nat :: v < n ==> !Val(model, v)
  }

  /** Whether a model sets no argument variable. */
  method IsEmpty(model: seq<bool>, n: nat) returns (empty: bool)
    ensures empty <==> NoneSet(model, n)
  {
    empty := true;
    var i := 0;
    while i < n && empty
      invariant 0 <= i <= n && (empty <==> NoneSet(model, i))
    {
      empty := !Val(model, i);
      i := i + 1;
    }
  }

  lemma EmptyExt(e: Enc, n: nat, model: seq<bool>)
    requires ArgVars(e, n)
    ensures NoneSet(model, n) <==> ExtOf(e, model) == {}
  {
    if NoneSet(model, n) {
      forall a | a in e.names ensures a !in ExtOf(e, model) { assert !Val(model, e.X(a)); }
    }
    if ExtOf(e, model) == {} {
      forall v: nat | v < n ensures !Val(model, v) {
        assert HasArg(e, v);
        var a :| a in e.names && e.X(a) == v;
        assert a !in ExtOf(e, model);
      }
    }
  }

  // ----- the run -----

  /** The encoding with one soft clause per argument. */
  method RangeEncode(names: seq<Arg>, varOf: map<Arg, nat>, nVars: nat, attacks: Attacks, complete: bool) returns (h: SatEncodingHelper)
    requires InputOk(names, varOf, nVars, attacks)
    ensures fresh(h) && h.names == names && h.varOf == varOf && Encoded(h, attacks, nVars)
    ensures h.clauses == BaseEncoding(h.EncNow(), complete) && h.softs == RangeSofts(h.EncNow())
  {
    hide AllOwned, Declared, Covers, AttackedEncoding, CompleteAll, ConflictFreeAll;
    h := EncodeAttacked(names, varOf, nVars, attacks);
    h.SetMaxRangeNeeded();
    if complete {
      h.CreateCompleteEncodingConstraints();
    } else {
      h.CreateConflictFreenessEncodingConstraints();
    }
    BaseIs(h.EncNow(), complete);
  }

  /** That encoding, the switches of the step, and what they mean. */
  method RangeStart(names: seq<Arg>, varOf: map<Arg, nat>, nVars: nat, attacks: Attacks, step: int, complete: bool)
    returns (h: SatEncodingHelper, assumps: seq<Lit>)
    requires InputOk(names, varOf, nVars, attacks) && -1 <= step < |attacks.dynAttacks|
    requires MergesBase(Plain(names, varOf), FrameworkAfter(names, attacks, step), complete)
    ensures fresh(h) && h.names == names && h.varOf == varOf && h.attacks == attacks && |h.owner| == h.nbVars
    ensures h.clauses == BaseEncoding(h.EncNow(), complete) && h.softs == RangeSofts(h.EncNow()) && nVars <= h.nbVars
    ensures RangeQuery(h.EncNow(), h.owner, nVars, assumps, Replay(attacks.initial, attacks.dynAttacks, step + 1), complete)
    ensures ClausesBelow(h.clauses, h.nbVars) && ClausesBelow(h.softs, h.nbVars) && ClausesBelow([assumps], h.nbVars)
  {
    hide AllOwned, Declared, Covers, CompleteEncoding, ConflictFreeEncoding, TrueAll, Switched, MergesBase, ArgVars, RangeSofts, ClausesBelow;
    h := RangeEncode(names, varOf, nVars, attacks, complete);
    ghost var e := h.EncNow();
    OwnedDyn(e, h.owner);
    ReplaySelects(e, attacks.dynAttacks, attacks.initial, step + 1);
    EncodingBelow(e, h.owner);
    assumps := h.DynAssumps(step, true);
    SoftsBelow(e, h.owner);
    OneBelow(assumps, h.nbVars);
    ArgVarsOf(h, attacks, nVars);
    MergesBasePlain(e, names, varOf, FrameworkAfter(names, attacks, step), complete);
  }

  lemma BaseIs(e: Enc, complete: bool)
    ensures BaseEncoding(e, complete) == AttackedEncoding(e) + if complete then CompleteAll(e) else ConflictFreeAll(e)
  {
  }

  lemma SoftsBelow(e: Enc, owner: seq<Owner>)
    requires AllOwned(e, owner, true)
    ensures ClausesBelow(RangeSofts(e), |owner|)
  {
    forall c, l | c in RangeSofts(e) && l in c ensures l.v < |owner| {
      var i: nat :| i < |e.names| && RangeSofts(e)[i] == c;
      assert e.names[i] in e.names;
    }
  }

  lemma MergesBasePlain(e: Enc, names: seq<Arg>, varOf: map<Arg, nat>, f: Framework, complete: bool)
    requires e.names == names && e.varOf == varOf && MergesBase(Plain(names, varOf), f, complete)
    ensures MergesBase(e, f, complete)
  {
    hide Base;
    forall s | Base(f, complete, s) ensures Uniform(e, s) {
      assert Uniform(Plain(names, varOf), s);
      assert forall a :: e.X(a) == Plain(names, varOf).X(a);
    }
  }

  lemma BaseSatisfiable(e: Enc, owner: seq<Owner>, n: nat, a: seq<Lit>, r: set<Attack>, complete: bool)
    requires RangeQuery(e, owner, n, a, r, complete)
    ensures Satisfiable(TheoryOf(BaseEncoding(e, complete)), [])
  {
    hide Query, BaseEncoding, TheoryOf, Holds, ArgVars, Grounded;
    var f := At(e, r);
    GroundedLeast(f);
    assert Base(f, complete, Grounded(f));
    BaseUniform(e, f, complete, Grounded(f));
    var m := BaseExtModel(e, owner, n, a, r, complete, Grounded(f));
    HoldsTheory(m, BaseEncoding(e, complete));
    assert IsModel(m, TheoryOf(BaseEncoding(e, complete)), []);
  }

  /** Goes through the reports as they come; stops when the first one is the propagated set or when
      one is empty. */
  method Collect(msses: seq<Mss>, propagated: seq<nat>, n: nat) returns (models: seq<seq<bool>>, stop: bool, ghost grounded: bool)
    ensures !stop ==> models == ModelsOf(msses)
    ensures stop ==> 0 < |models| <= |msses| && models == ModelsOf(msses)[..|models|]
    ensures stop && grounded ==> |models| == 1 && forall v: nat :: v < n ==> (v in propagated <==> AsAssignment(msses[0].model)(v))
    ensures stop && !grounded ==> NoneSet(models[|models| - 1], n)
  {
    models, stop, grounded := [], false, false;
    while |models| < |msses| && !stop
      invariant |models| <= |msses| && models == ModelsOf(msses)[..|models|]
      invariant (stop ==> 0 < |models|) && (grounded ==> stop)
      invariant stop && grounded ==> |models| == 1 && forall v: nat :: v < n ==> (v in propagated <==> AsAssignment(msses[0].model)(v))
      invariant stop && !grounded ==> NoneSet(models[|models| - 1], n)
    {
      var model := msses[|models|].model;
      if |models| == 0 {
        stop := SameAsPropagated(model, propagated, n);
        grounded := stop;
      }
      var empty := IsEmpty(model, n);
      stop := stop || empty;
      models := models + [model];
    }
  }

  /** One selector per argument, saying that it is in the range. */
  method AddSelectors(solver: SatFormula, e: Enc, n0: nat, ghost owner: seq<Owner>)
    requires solver.Valid() && solver.nVars == n0 == |owner| && AllOwned(e, owner, true)
    modifies solver
    ensures solver.Valid() && solver.nVars == n0 + |e.names| && solver.hards == old(solver.hards) + SelClauses(e, n0)
  {
    hide AllOwned;
    var i := 0;
    while i < |e.names|
      invariant 0 <= i <= |e.names| && solver.Valid() && solver.nVars == n0 + i
      invariant solver.hards == old(solver.hards) + SelClauses(e, n0)[..i]
    {
      assert e.names[i] in e.names;
      Encoders.VarsBelow(e, owner, e.names[i], e.names[i]);
      var sel := solver.AddSelectedClause([Pos(e.X(e.names[i])), Pos(e.P(e.names[i]))]);
      assert SelClauses(e, n0)[..i + 1] == SelClauses(e, n0)[..i] + [SelClauses(e, n0)[i]];
      i := i + 1;
    }
    assert SelClauses(e, n0)[..i] == SelClauses(e, n0);
  }

  /** After the maximal ranges, the remaining extensions of each. */
  method OthersOfAll(h: SatEncodingHelper, nVars: nat, assumps: seq<Lit>, ghost r: set<Attack>, complete: bool, msses: seq<Mss>, reported: seq<seq<bool>>)
    returns (models: seq<seq<bool>>)
    requires |h.owner| == h.nbVars && h.clauses == BaseEncoding(h.EncNow(), complete) && reported == ModelsOf(msses)
    requires ClausesBelow(h.clauses, h.nbVars) && ClausesBelow([assumps], h.nbVars)
    requires RangeReports(h.EncNow(), h.owner, nVars, assumps, r, complete, msses)
    ensures ListsModels(h.names, h.varOf, models, RangeExts(At(h.EncNow(), r), complete))
  {
    hide RangeQuery, BaseEncoding, TheoryOf, NothingMissed, AllDifferent, MssOk, ListsModels, RangeExts, ClausesBelow, ModelsOf, Listing, OthersOk, HasRange, Conservative, MaxRange, SelClauses;
    var e := h.EncNow();
    var n0 := h.nbVars;
    var solver := new SatFormula(h.nbVars, h.clauses);
    QueryOwned(e, h.owner, nVars, assumps, r, complete);
    AddSelectors(solver, e, n0, h.owner);
    assert solver.hards == RangeClauses(e, complete, n0);
    ConservativeSame(RangeClauses(e, complete, n0), n0 + |e.names|);
    models := reported;
    StartListing(e, h.owner, nVars, assumps, r, complete, msses);
    var k := 0;
    while k < |msses|
      modifies solver
      invariant 0 <= k <= |msses| && Listing(e, r, complete, msses, k, models)
      invariant solver.Valid() && n0 + |e.names| <= solver.nVars && Round(e, h.owner, nVars, assumps, r, complete, n0, solver.hards)
    {
      ReportHasRange(e, h.owner, nVars, assumps, r, complete, msses, k);
      var others := OthersWithRange(solver, e, nVars, assumps, n0, msses[k].ids, msses[k].model, h.owner, r, complete);
      NextListing(e, h.owner, nVars, assumps, r, complete, msses, k, models, others);
      models := models + others;
      k := k + 1;
    }
    ListingDone(e, h.owner, nVars, assumps, r, complete, msses, models);
    for i := 0 to |e.names|
      modifies solver
      invariant solver.Valid() && n0 + |e.names| <= solver.nVars
    {
      solver.AddClause([Neg(n0 + i)]);
    }
  }

  lemma QueryOwned(e: Enc, owner: seq<Owner>, n: nat, a: seq<Lit>, r: set<Attack>, complete: bool)
    requires RangeQuery(e, owner, n, a, r, complete)
    ensures AllOwned(e, owner, true)
  {
  }

  /** All semi-stable (`complete`) or stage extensions after a step, each once. */
  method AllRangeBased(names: seq<Arg>, varOf: map<Arg, nat>, nVars: nat, attacks: Attacks, step: int, complete: bool) returns (models: seq<seq<bool>>)
    requires InputOk(names, varOf, nVars, attacks) && -1 <= step < |attacks.dynAttacks|
    requires MergesBase(Plain(names, varOf), FrameworkAfter(names, attacks, step), complete)
    ensures ListsModels(names, varOf, models, RangeExts(FrameworkAfter(names, attacks, step), complete))
  {
    hide MergesBase, RangeQuery, BaseEncoding, TheoryOf, Satisfiable, NothingMissed, AllDifferent, MssOk, ListsModels, RangeExts, InputOk, ClausesBelow, Forced, ModelsOf;
    var h, assumps := RangeStart(names, varOf, nVars, attacks, step, complete);
    ghost var e, r := h.EncNow(), Replay(attacks.initial, attacks.dynAttacks, step + 1);
    var lits := PropagatedAtTop(h);
    var propagated := Positives(lits);
    SoftsNonempty(e);
    var ok, msses := ComputeMsses(h.nbVars, h.clauses, h.softs, assumps, 0);
    assert ok by { BaseSatisfiable(e, h.owner, nVars, assumps, r, complete); }
    var stop;
    ghost var grounded;
    models, stop, grounded := Collect(msses, propagated, nVars);
    if stop {
      Stopped(e, h.owner, nVars, assumps, r, complete, msses, lits, propagated, models, grounded);
    } else {
      models := OthersOfAll(h, nVars, assumps, r, complete, msses, models);
    }
  }

  lemma SoftsNonempty(e: Enc)
    ensures forall c :: c in RangeSofts(e) ==> |c| > 0
  {
  }

  lemma Stopped(e: Enc, owner: seq<Owner>, n: nat, a: seq<Lit>, r: set<Attack>, complete: bool, msses: seq<Mss>, lits: seq<Lit>, propagated: seq<nat>,
                models: seq<seq<bool>>, grounded: bool)
    requires RangeReports(e, owner, n, a, r, complete, msses) && Forced(TheoryOf(BaseEncoding(e, complete)), [], Lits(lits))
    requires (forall v :: v in propagated <==> Pos(v) in lits) && 0 < |models| <= |msses| && models == ModelsOf(msses)[..|models|]
    requires grounded ==> |models| == 1 && forall v: nat :: v < n ==> (v in propagated <==> AsAssignment(msses[0].model)(v))
    requires !grounded ==> NoneSet(models[|models| - 1], n)
    ensures ListsModels(e.names, e.varOf, models, RangeExts(At(e, r), complete))
  {
    hide MssOk, NothingMissed, AllDifferent, Forced, TheoryOf, BaseEncoding, ListsModels, RangeExts, Base, Query, MergesBase, Ext, AsAssignment;
    QueryArgs(e, owner, n, a, r, complete);
    var k := |models| - 1;
    assert models[k] == msses[k].model;
    if grounded {
      SameAsForced(e, n, msses[0].model, lits, propagated);
    } else {
      EmptyExt(e, n, models[k]);
      EmptyIsFirst(e, owner, n, a, r, complete, msses, k);
    }
    forall t | Base(At(e, r), complete, t) ensures ExtOf(e, msses[0].model) <= t {
      if grounded { ForcedInBase(e, owner, n, a, r, complete, lits, t); }
    }
    FirstAlone(e, owner, n, a, r, complete, msses);
    assert models == [msses[0].model];
  }
}
