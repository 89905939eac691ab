/** Preferred extensions as maximal satisfiable sets of unit soft clauses. */
module PreferredSemantics {
  import opened Cnf
  import opened Argumentation
  import opened AttackStore
  import opened Encoding
  import opened EncodingModels
  import opened EncodingBuilder
  import opened Encoders
  import opened Formulas
  import opened SoftMss
  import opened MssSolver
  import opened GroundedSemantics
  import opened ExtensionWorklist

  ghost function SetOf(e: Enc, ids: set<nat>): set<Arg> {
    set a | a in e.names && e.X(a) in ids
  }

  ghost function VarsOf(e: Enc, s: set<Arg>): set<nat> {
    set a | a in s && a in e.names :: e.X(a)
  }

  /** Arguments that share a variable belong to the same complete extensions. */
  ghost predicate Merges(e: Enc, f: Framework) {
    forall s :: Complete(f, s) ==> Uniform(e, s)
  }

  /** The encoding over `n` argument variables, with assumptions that select the attacks `r`. */
  ghost predicate Query(e: Enc, owner: seq<Owner>, n: nat, a: seq<Lit>, r: set<Attack>) {
    && AllOwned(e, owner, true) && Selects(e, r) && Declared(e)
    && n <= |owner| && (forall v :: 0 <= v < n ==> owner[v] == OfArg) && (forall x :: x in e.names ==> e.X(x) < n)
    && (forall m: Assignment :: TrueAll(m, a) <==> Switched(e, m, r))
  }

  lemma ArgOf(e: Enc, owner: seq<Owner>, n: nat, a: seq<Lit>, r: set<Attack>, v: nat) returns (x: Arg)
    requires Query(e, owner, n, a, r) && v < n
    ensures x in e.names && e.X(x) == v
  {
    assert owner[v] == OfArg;
    x :| x in e.names && e.X(x) == v;
  }

  lemma SetOfVarsOf(e: Enc, s: set<Arg>)
    requires Uniform(e, s) && s <= Names(e)
    ensures SetOf(e, VarsOf(e, s)) == s
  {
  }

  /** Models of the complete encoding under the assumptions are complete extensions, and back. */
  lemma ModelExt(e: Enc, owner: seq<Owner>, n: nat, a: seq<Lit>, r: set<Attack>, m: Assignment)
    requires Query(e, owner, n, a, r) && IsModel(m, TheoryOf(CompleteEncoding(e)), a)
    ensures Complete(At(e, r), Ext(e, m))
  {
    hide AllOwned, Selects, Declared, Switched, Holds, CompleteEncoding, TheoryOf, AttackedEncoding, CompleteAll;
    HoldsTheory(m, CompleteEncoding(e));
    CompleteIs(e);
    HoldsPlus(m, AttackedEncoding(e), CompleteAll(e));
    AttackedHolds(e, m);
    CompleteIff(e, m, r);
  }

  lemma ExtModel(e: Enc, owner: seq<Owner>, n: nat, a: seq<Lit>, r: set<Attack>, s: set<Arg>) returns (m: Assignment)
    requires Query(e, owner, n, a, r) && Complete(At(e, r), s) && Uniform(e, s)
    ensures IsModel(m, TheoryOf(CompleteEncoding(e)), a) && Ext(e, m) == s
  {
    hide AllOwned, Selects, Declared, Switched, Holds, CompleteEncoding, TheoryOf, Uniform;
    CompleteModels(e, owner, s, r);
    m :| Holds(m, CompleteEncoding(e)) && Switched(e, m, r) && Ext(e, m) == s;
    HoldsTheory(m, CompleteEncoding(e));
  }

  lemma UnitSoft(m: Assignment, n: nat, v: nat)
    requires v < n
    ensures Sat(m, Lits(ExtensionSofts(n)[v])) <==> m(v)
  {
    assert ExtensionSofts(n)[v] == [Pos(v)];
    SatIs(m, [Pos(v)]);
    assert Pos(v) in [Pos(v)];
  }

  /** Unit soft clauses hold together exactly when a complete extension contains their arguments. */
  lemma TogetherComplete(e: Enc, owner: seq<Owner>, n: nat, a: seq<Lit>, r: set<Attack>, ids: set<nat>)
    requires Query(e, owner, n, a, r) && Merges(e, At(e, r)) && forall v :: v in ids ==> v < n
    ensures SoftsTogether(TheoryOf(CompleteEncoding(e)), a, ExtensionSofts(n), ids)
      <==> exists s :: Complete(At(e, r), s) && SetOf(e, ids) <= s
  {
    hide Query, Complete, CompleteEncoding, TheoryOf, IsModel, Sat;
    if SoftsTogether(TheoryOf(CompleteEncoding(e)), a, ExtensionSofts(n), ids) {
      var m: Assignment :| IsModel(m, TheoryOf(CompleteEncoding(e)), a) && SatSofts(m, ExtensionSofts(n), ids);
      ModelExt(e, owner, n, a, r, m);
      forall x | x in SetOf(e, ids) ensures x in Ext(e, m) { UnitSoft(m, n, e.X(x)); }
    }
    if s :| Complete(At(e, r), s) && SetOf(e, ids) <= s {
      var m := ExtModel(e, owner, n, a, r, s);
      forall v | v in ids && v < n ensures Sat(m, Lits(ExtensionSofts(n)[v])) {
        UnitSoft(m, n, v);
        var x := ArgOf(e, owner, n, a, r, v);
        assert x in Ext(e, m);
      }
    }
  }

  /** The maximal sets of unit soft clauses are exactly the preferred extensions. */
  lemma MssIsPreferred(e: Enc, owner: seq<Owner>, n: nat, a: seq<Lit>, r: set<Attack>, ids: set<nat>)
    requires Query(e, owner, n, a, r) && Merges(e, At(e, r)) && forall v :: v in ids ==> v < n
    ensures IsSoftMss(TheoryOf(CompleteEncoding(e)), a, ExtensionSofts(n), ids) <==> Preferred(At(e, r), SetOf(e, ids))
  {
    hide Query, Complete, CompleteEncoding, TheoryOf, SoftsTogether, Preferred;
    var f := At(e, r);
    PreferredIsMaxComplete(f, SetOf(e, ids));
    TogetherComplete(e, owner, n, a, r, ids);
    if IsSoftMss(TheoryOf(CompleteEncoding(e)), a, ExtensionSofts(n), ids) {
      MssMaxComplete(e, owner, n, a, r, ids);
    }
    if MaxComplete(f, SetOf(e, ids)) {
      forall v: nat | v < |ExtensionSofts(n)| && v !in ids ensures !SoftsTogether(TheoryOf(CompleteEncoding(e)), a, ExtensionSofts(n), ids + {v}) {
        TogetherComplete(e, owner, n, a, r, ids + {v});
        var x := ArgOf(e, owner, n, a, r, v);
        assert x in SetOf(e, ids + {v}) && x !in SetOf(e, ids) && SetOf(e, ids) <= SetOf(e, ids + {v});
      }
    }
  }

  lemma MssMaxComplete(e: Enc, owner: seq<Owner>, n: nat, a: seq<Lit>, r: set<Attack>, ids: set<nat>)
    requires Query(e, owner, n, a, r) && Merges(e, At(e, r)) && forall v :: v in ids ==> v < n
    requires IsSoftMss(TheoryOf(CompleteEncoding(e)), a, ExtensionSofts(n), ids)
    ensures MaxComplete(At(e, r), SetOf(e, ids))
  {
    hide Query, Complete, CompleteEncoding, TheoryOf, SoftsTogether;
    var f := At(e, r);
    TogetherComplete(e, owner, n, a, r, ids);
    var s :| Complete(f, s) && SetOf(e, ids) <= s;
    forall t | Complete(f, t) && SetOf(e, ids) <= t ensures SetOf(e, ids) == t {
      InsideMss(e, owner, n, a, r, ids, t);
    }
    assert s == SetOf(e, ids);
  }

  /** A complete extension that contains a maximal set adds nothing to it. */
  lemma InsideMss(e: Enc, owner: seq<Owner>, n: nat, a: seq<Lit>, r: set<Attack>, ids: set<nat>, t: set<Arg>)
    requires Query(e, owner, n, a, r) && Merges(e, At(e, r)) && forall v :: v in ids ==> v < n
    requires IsSoftMss(TheoryOf(CompleteEncoding(e)), a, ExtensionSofts(n), ids)
    requires Complete(At(e, r), t) && SetOf(e, ids) <= t
    ensures SetOf(e, ids) == t
  {
    hide Query, CompleteEncoding, TheoryOf, SoftsTogether, Admissible;
    CompleteNames(e, r, t);
    forall x | x in t ensures x in SetOf(e, ids) {
      var v := e.X(x);
      XBelow(e, owner, n, a, r, x);
      TogetherComplete(e, owner, n, a, r, ids + {v});
      assert SetOf(e, ids + {v}) <= t;
    }
  }

  lemma XBelow(e: Enc, owner: seq<Owner>, n: nat, a: seq<Lit>, r: set<Attack>, x: Arg)
    requires Query(e, owner, n, a, r) && x in e.names
    ensures e.X(x) < n
  {
  }

  lemma CompleteNames(e: Enc, r: set<Attack>, t: set<Arg>)
    requires Complete(At(e, r), t)
    ensures t <= Names(e)
  {
  }

  /** A preferred extension is the set of a set of variables. */
  lemma PreferredIds(e: Enc, owner: seq<Owner>, n: nat, a: seq<Lit>, r: set<Attack>, s: set<Arg>) returns (ids: set<nat>)
    requires Query(e, owner, n, a, r) && Merges(e, At(e, r)) && Preferred(At(e, r), s)
    ensures SetOf(e, ids) == s && forall v :: v in ids ==> v < n
  {
    hide Query, Preferred, Complete;
    PreferredIsMaxComplete(At(e, r), s);
    CompleteNames(e, r, s);
    ids := VarsOf(e, s);
    SetOfVarsOf(e, s);
    forall v | v in ids ensures v < n {
      var x :| x in s && x in e.names && e.X(x) == v;
      XBelow(e, owner, n, a, r, x);
    }
  }

  // ----- the solver -----

  function Plain(names: seq<Arg>, varOf: map<Arg, nat>): Enc {
    Enc(names, varOf, map[], map[], [])
  }

  ghost function ArgsOf(names: seq<Arg>, varOf: map<Arg, nat>, ids: seq<nat>): set<Arg> {
    SetOf(Plain(names, varOf), set v | v in ids)
  }

  /** The sets of variables are those of `all`, each once. */
  ghost predicate ListsExactly(names: seq<Arg>, varOf: map<Arg, nat>, exts: seq<seq<nat>>, all: set<set<Arg>>) {
    && (forall j :: 0 <= j < |exts| ==> ArgsOf(names, varOf, exts[j]) in all)
    && (forall i, j :: 0 <= i < j < |exts| ==> ArgsOf(names, varOf, exts[i]) != ArgsOf(names, varOf, exts[j]))
    && (forall s :: s in all ==> exists j :: 0 <= j < |exts| && ArgsOf(names, varOf, exts[j]) == s)
  }

  ghost function PreferredExts(f: Framework): set<set<Arg>> {
    set s | s <= f.args && Preferred(f, s)
  }

  ghost function StableExts(f: Framework): set<set<Arg>> {
    set s | s <= f.args && Stable(f, s)
  }

  lemma MergesPlain(e: Enc, names: seq<Arg>, varOf: map<Arg, nat>, f: Framework)
    requires e.names == names && e.varOf == varOf && Merges(Plain(names, varOf), f)
    ensures Merges(e, f)
  {
    forall s | Complete(f, s) ensures Uniform(e, s) {
      assert Uniform(Plain(names, varOf), s);
      assert forall a :: e.X(a) == Plain(names, varOf).X(a);
    }
  }

  lemma GroundedUniform(e: Enc, f: Framework)
    requires Merges(e, f)
    ensures Uniform(e, Grounded(f))
  {
    GroundedLeast(f);
  }

  /** The encoded clauses with the unit soft clauses, the switches of the step, and what they mean. */
  method PreferredQuery(names: seq<Arg>, varOf: map<Arg, nat>, nVars: nat, attacks: Attacks, step: int) returns (h: SatEncodingHelper, assumps: seq<Lit>)
    requires InputOk(names, varOf, nVars, attacks) && -1 <= step < |attacks.dynAttacks|
    ensures fresh(h) && h.names == names && h.varOf == varOf && Encoded(h, attacks, nVars)
    ensures h.clauses == CompleteEncoding(h.EncNow()) && h.softs == ExtensionSofts(nVars) && nVars <= h.nbVars
    ensures Query(h.EncNow(), h.owner, nVars, assumps, Replay(attacks.initial, attacks.dynAttacks, step + 1))
    ensures ClausesBelow(h.clauses, h.nbVars) && ClausesBelow(h.softs, h.nbVars) && ClausesBelow([assumps], h.nbVars)
  {
    hide AllOwned, Declared, Covers, CompleteEncoding, TrueAll, Switched, ClausesBelow, ExtensionSofts, AttackedEncoding, CompleteAll;
    h := EncodeAttacked(names, varOf, nVars, attacks);
    h.SetMaxExtensionNeeded(nVars);
    h.CreateCompleteEncodingConstraints();
    CompleteIs(h.EncNow());
    OwnedDyn(h.EncNow(), h.owner);
    ReplaySelects(h.EncNow(), attacks.dynAttacks, attacks.initial, step + 1);
    EncodingBelow(h.EncNow(), h.owner);
    assumps := h.DynAssumps(step, true);
    UnitsBelow(nVars, h.nbVars);
    AssumpsBelow(assumps, h.nbVars);
  }

  lemma UnitsBelow(n: nat, m: nat)
    requires n <= m
    ensures ClausesBelow(ExtensionSofts(n), m) && forall c :: c in ExtensionSofts(n) ==> |c| > 0
  {
  }

  lemma AssumpsBelow(a: seq<Lit>, n: nat)
    requires forall l :: l in a ==> l.v < n
    ensures ClausesBelow([a], n)
  {
  }

  /** The reports of the enumeration are the preferred extensions. */
  lemma ReportsPreferred(e: Enc, owner: seq<Owner>, n: nat, a: seq<Lit>, r: set<Attack>, out: seq<Mss>, exts: seq<seq<nat>>)
    requires Query(e, owner, n, a, r) && Merges(e, At(e, r))
    requires AllDifferent(out) && NothingMissed(TheoryOf(CompleteEncoding(e)), a, ExtensionSofts(n), out)
    requires forall x :: x in out ==> MssOk(TheoryOf(CompleteEncoding(e)), a, ExtensionSofts(n), x)
    requires |exts| == |out| && forall j :: 0 <= j < |out| ==> exts[j] == out[j].ids
    ensures ListsExactly(e.names, e.varOf, exts, PreferredExts(At(e, r)))
  {
    hide Query, Preferred, CompleteEncoding, TheoryOf, IsSoftMss, Merges, SoftsTogether;
    var f := At(e, r);
    forall j | 0 <= j < |out|
      ensures ArgsOf(e.names, e.varOf, exts[j]) == SetOf(e, Ids(out[j])) && Preferred(f, SetOf(e, Ids(out[j])))
    {
      assert out[j] in out;
      MssIds(TheoryOf(CompleteEncoding(e)), a, n, Ids(out[j]));
      MssIsPreferred(e, owner, n, a, r, Ids(out[j]));
      SameSet(e, exts[j]);
    }
    forall i, j | 0 <= i < j < |exts| ensures ArgsOf(e.names, e.varOf, exts[i]) != ArgsOf(e.names, e.varOf, exts[j]) {
      assert out[i] in out && out[j] in out;
      MssIds(TheoryOf(CompleteEncoding(e)), a, n, Ids(out[i]));
      MssIds(TheoryOf(CompleteEncoding(e)), a, n, Ids(out[j]));
      SetOfInjective(e, owner, n, a, r, Ids(out[i]), Ids(out[j]));
    }
    forall s | s in PreferredExts(f) ensures exists j :: 0 <= j < |exts| && ArgsOf(e.names, e.varOf, exts[j]) == s {
      var ids := PreferredIds(e, owner, n, a, r, s);
      MssIsPreferred(e, owner, n, a, r, ids);
      var j :| 0 <= j < |out| && Ids(out[j]) == ids;
      assert ArgsOf(e.names, e.varOf, exts[j]) == s;
    }
    forall j | 0 <= j < |exts| ensures ArgsOf(e.names, e.varOf, exts[j]) in PreferredExts(f) { PreferredNames(f, SetOf(e, Ids(out[j]))); }
  }

  lemma PreferredNames(f: Framework, s: set<Arg>)
    requires Preferred(f, s)
    ensures s <= f.args
  {
  }

  lemma SameSet(e: Enc, ids: seq<nat>)
    ensures ArgsOf(e.names, e.varOf, ids) == SetOf(e, set v | v in ids)
  {
    assert forall a :: e.X(a) == Plain(e.names, e.varOf).X(a);
  }

  lemma MssIds(theory: Theory, a: seq<Lit>, n: nat, ids: set<nat>)
    requires IsSoftMss(theory, a, ExtensionSofts(n), ids)
    ensures forall v :: v in ids ==> v < n
  {
    hide SoftsTogether;
  }

  lemma SetOfInjective(e: Enc, owner: seq<Owner>, n: nat, a: seq<Lit>, r: set<Attack>, x: set<nat>, y: set<nat>)
    requires Query(e, owner, n, a, r) && (forall v :: v in x ==> v < n) && (forall v :: v in y ==> v < n) && x != y
    ensures SetOf(e, x) != SetOf(e, y)
  {
    hide Query;
    var v :| (v in x) != (v in y);
    var b := ArgOf(e, owner, n, a, r, v);
    assert b in SetOf(e, x) <==> b !in SetOf(e, y);
  }

  /** When the first report is the grounded extension, it is the only preferred one. */
  lemma GroundedAlone(f: Framework)
    requires Preferred(f, Grounded(f))
    ensures PreferredExts(f) == {Grounded(f)}
  {
    GroundedLeast(f);
    forall s | s in PreferredExts(f) ensures s == Grounded(f) {
      PreferredIsMaxComplete(f, s);
    }
  }

  /** Whether a model sets exactly the propagated argument variables. */
  method SameAsPropagated(model: seq<bool>, propagated: seq<nat>, n: nat) returns (same: bool)
    ensures same <==> forall v: nat :: v < n ==> (v in propagated <==> AsAssignment(model)(v))
  {
    var i := 0;
    while i < n
      invariant 0 <= i <= n && forall v: nat :: v < i ==> (v in propagated <==> AsAssignment(model)(v))
    {
      if (i in propagated) != AsAssignment(model)(i) { return false; }
      i := i + 1;
    }
    same := true;
  }

  /** The report equals the propagated set exactly when it is the grounded extension. */
  lemma FirstIsGrounded(e: Enc, n: nat, theory: Theory, a: seq<Lit>, x: Mss, lits: seq<Lit>, propagated: seq<nat>, f: Framework)
    requires MssOk(theory, a, ExtensionSofts(n), x) && In(e, Lits(lits)) == Grounded(f)
    requires forall v :: v in propagated <==> Pos(v) in lits
    requires forall v: nat :: v < n ==> (v in propagated <==> AsAssignment(x.model)(v))
    requires forall b :: b in e.names ==> e.X(b) < n
    ensures SetOf(e, Ids(x)) == Grounded(f)
  {
    hide IsSoftMss, Grounded, Models;
    forall b | b in e.names ensures b in SetOf(e, Ids(x)) <==> b in In(e, Lits(lits)) {
      UnitSoft(AsAssignment(x.model), n, e.X(b));
      assert e.X(b) in x.ids <==> Sat(AsAssignment(x.model), Lits(ExtensionSofts(n)[e.X(b)]));
    }
    forall b | b in Grounded(f) ensures b in SetOf(e, Ids(x)) { assert b in In(e, Lits(lits)); }
  }

  /** All preferred extensions after a step; the enumeration stops when its first report is the
      grounded extension. */
  method AllPreferred(names: seq<Arg>, varOf: map<Arg, nat>, nVars: nat, attacks: Attacks, step: int) returns (exts: seq<seq<nat>>)
    requires InputOk(names, varOf, nVars, attacks) && -1 <= step < |attacks.dynAttacks|
    requires Merges(Plain(names, varOf), FrameworkAfter(names, attacks, step))
    ensures ListsExactly(names, varOf, exts, PreferredExts(FrameworkAfter(names, attacks, step)))
    ensures forall x :: x in exts ==> EachOnce(x, nVars)
  {
    hide EachOnce, AllOwned, Declared, Covers, CompleteEncoding, TheoryOf, Query, Merges, NothingMissed, AllDifferent, MssOk, Satisfiable, Grounded, InputOk, Preferred, Uniform;
    ghost var f := FrameworkAfter(names, attacks, step);
    var h, assumps := PreferredQuery(names, varOf, nVars, attacks, step);
    ghost var e, r := h.EncNow(), Replay(attacks.initial, attacks.dynAttacks, step + 1);
    MergesPlain(e, names, varOf, f);
    GroundedUniform(e, f);
    var lits := PropagatedLits(h, nVars, step);
    var propagated := Positives(lits);
    var ok, msses := ComputeMsses(h.nbVars, h.clauses, h.softs, assumps, 0);
    assert ok by { QuerySatisfiable(e, h.owner, nVars, assumps, r); }
    exts := [];
    var stop := false;
    while |exts| < |msses| && !stop
      modifies {}
      invariant |exts| <= |msses| && forall j :: 0 <= j < |exts| ==> exts[j] == msses[j].ids
      invariant stop ==> |exts| == 1 && SetOf(e, Ids(msses[0])) == Grounded(f)
    {
      var x := msses[|exts|];
      assert x in msses;
      if |exts| == 0 {
        stop := SameAsPropagated(x.model, propagated, nVars);
        if stop { FirstIsGrounded(e, nVars, TheoryOf(CompleteEncoding(e)), assumps, x, lits, propagated, f); }
      }
      exts := exts + [x.ids];
    }
    ReportsOnce(TheoryOf(CompleteEncoding(e)), nVars, assumps, msses, exts);
    if stop {
      assert msses[0] in msses;
      StoppedAtGrounded(e, h.owner, nVars, assumps, r, msses[0], exts);
    } else {
      ReportsPreferred(e, h.owner, nVars, assumps, r, msses, exts);
    }
  }

  /** A report lists variables below `n`, each once. */
  lemma ReportsOnce(theory: Theory, n: nat, a: seq<Lit>, out: seq<Mss>, exts: seq<seq<nat>>)
    requires forall x :: x in out ==> MssOk(theory, a, ExtensionSofts(n), x)
    requires |exts| <= |out| && forall j :: 0 <= j < |exts| ==> exts[j] == out[j].ids
    ensures forall x :: x in exts ==> EachOnce(x, n)
  {
    hide IsSoftMss, Models, EachOnce;
    forall x | x in exts ensures EachOnce(x, n) {
      var j :| 0 <= j < |exts| && exts[j] == x;
      assert out[j] in out;
      assert |ExtensionSofts(n)| == n;
    }
  }

  lemma StoppedAtGrounded(e: Enc, owner: seq<Owner>, n: nat, a: seq<Lit>, r: set<Attack>, x: Mss, exts: seq<seq<nat>>)
    requires Query(e, owner, n, a, r) && Merges(e, At(e, r)) && MssOk(TheoryOf(CompleteEncoding(e)), a, ExtensionSofts(n), x)
    requires SetOf(e, Ids(x)) == Grounded(At(e, r)) && |exts| == 1 && exts[0] == x.ids
    ensures ListsExactly(e.names, e.varOf, exts, PreferredExts(At(e, r)))
  {
    hide Query, Preferred, CompleteEncoding, TheoryOf, IsSoftMss, Merges, Grounded, Models;
    MssIds(TheoryOf(CompleteEncoding(e)), a, n, Ids(x));
    MssIsPreferred(e, owner, n, a, r, Ids(x));
    GroundedAlone(At(e, r));
    SameSet(e, exts[0]);
    assert ArgsOf(e.names, e.varOf, exts[0]) == Grounded(At(e, r));
  }

  /** The encoding has a model, whatever the framework. */
  lemma QuerySatisfiable(e: Enc, owner: seq<Owner>, n: nat, a: seq<Lit>, r: set<Attack>)
    requires Query(e, owner, n, a, r) && Merges(e, At(e, r))
    ensures Satisfiable(TheoryOf(CompleteEncoding(e)), []) && Satisfiable(TheoryOf(CompleteEncoding(e)), a)
  {
    hide Query, CompleteEncoding, TheoryOf, Grounded, Merges;
    GroundedLeast(At(e, r));
    GroundedUniform(e, At(e, r));
    var m := ExtModel(e, owner, n, a, r, Grounded(At(e, r)));
    assert IsModel(m, TheoryOf(CompleteEncoding(e)), []);
  }
}
