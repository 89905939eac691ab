/** The ideal extension, from the preferred ones. */
module IdealSemantics {
  import opened Cnf
  import opened Argumentation
  import opened AttackStore
  import opened Encoding
  import opened EncodingModels
  import opened EncodingBuilder
  import opened Encoders
  import opened Formulas
  import opened CdclSolver
  import opened Derivation
  import opened SoftMss
  import opened MssSolver
  import Trail
  import opened GroundedSemantics
  import opened PreferredSemantics

  // ----- facts about the ideal extension -----

  /** Every cautious set is contained in an ideal one. */
  lemma CautiousToIdeal(f: Framework, s: set<Arg>) returns (i: set<Arg>)
    requires Cautious(f, s)
    ensures Ideal(f, i) && s <= i
    decreases f.args - s
  {
    hide Preferred;
    if t :| Cautious(f, t) && s < t {
      i := CautiousToIdeal(f, t);
    } else {
      MaximalCautiousIsIdeal(f, s);
      i := s;
    }
  }

  lemma IdealExists(f: Framework) returns (i: set<Arg>)
    ensures Ideal(f, i) && Complete(f, i) && Grounded(f) <= i && forall p :: Preferred(f, p) ==> i <= p
  {
    GroundedCautious(f);
    i := CautiousToIdeal(f, Grounded(f));
    IdealComplete(f, i);
  }

  /** The only preferred extension is the ideal one. */
  lemma OnlyPreferredIsIdeal(f: Framework, p: set<Arg>)
    requires Preferred(f, p) && forall q :: Preferred(f, q) ==> q == p
    ensures Ideal(f, p)
  {
  }

  // ----- maximal sets inside the allowed arguments -----

  /** The literals excluding the variables that are not allowed. */
  method Exclusions(allowed: seq<bool>) returns (lits: seq<Lit>)
    ensures forall l :: l in lits <==> l.neg && l.v < |allowed| && !allowed[l.v]
  {
    lits := [];
    var i := 0;
    while i < |allowed|
      invariant 0 <= i <= |allowed| && forall l :: l in lits <==> l.neg && l.v < i && !allowed[l.v]
    {
      if !allowed[i] { lits := lits + [Neg(i)]; }
      i := i + 1;
    }
  }

  ghost function AllowedArgs(e: Enc, allowed: seq<bool>): set<Arg> {
    set a | a in e.names && e.X(a) < |allowed| && allowed[e.X(a)]
  }

  /** Models that also exclude what is not allowed are the complete extensions inside what is. */
  lemma ModelWithin(e: Enc, owner: seq<Owner>, n: nat, a: seq<Lit>, r: set<Attack>, allowed: seq<bool>, lits: seq<Lit>, m: Assignment)
    requires Query(e, owner, n, a, r) && |allowed| == n && forall l :: l in lits <==> l.neg && l.v < n && !allowed[l.v]
    ensures IsModel(m, TheoryOf(CompleteEncoding(e)), lits + a)
      <==> IsModel(m, TheoryOf(CompleteEncoding(e)), a) && Ext(e, m) <= AllowedArgs(e, allowed)
  {
    hide CompleteEncoding, TheoryOf, SatAll, Query;
    forall x | x in e.names ensures e.X(x) < n { XBelow(e, owner, n, a, r, x); }
    if IsModel(m, TheoryOf(CompleteEncoding(e)), lits + a) {
      forall l | l in a ensures True(m, l) { assert l in lits + a; }
      forall x | x in Ext(e, m) ensures allowed[e.X(x)] { assert Neg(e.X(x)) in lits ==> Neg(e.X(x)) in lits + a; }
    }
    if IsModel(m, TheoryOf(CompleteEncoding(e)), a) && Ext(e, m) <= AllowedArgs(e, allowed) {
      forall l | l in lits ensures True(m, l) {
        var x := ArgOf(e, owner, n, a, r, l.v);
        assert m(l.v) ==> x in Ext(e, m);
      }
    }
  }

  lemma TogetherWithin(e: Enc, owner: seq<Owner>, n: nat, a: seq<Lit>, r: set<Attack>, allowed: seq<bool>, lits: seq<Lit>, ids: set<nat>)
    requires Query(e, owner, n, a, r) && Merges(e, At(e, r)) && |allowed| == n && forall l :: l in lits <==> l.neg && l.v < n && !allowed[l.v]
    requires forall v :: v in ids ==> v < n
    ensures SoftsTogether(TheoryOf(CompleteEncoding(e)), lits + a, ExtensionSofts(n), ids)
      <==> exists s :: Complete(At(e, r), s) && SetOf(e, ids) <= s <= AllowedArgs(e, allowed)
  {
    hide Query, Complete, CompleteEncoding, TheoryOf, IsModel, Sat;
    if SoftsTogether(TheoryOf(CompleteEncoding(e)), lits + a, ExtensionSofts(n), ids) {
      var m: Assignment :| IsModel(m, TheoryOf(CompleteEncoding(e)), lits + a) && SatSofts(m, ExtensionSofts(n), ids);
      ModelWithin(e, owner, n, a, r, allowed, lits, m);
      ModelExt(e, owner, n, a, r, m);
      forall x | x in SetOf(e, ids) ensures x in Ext(e, m) { UnitSoft(m, n, e.X(x)); }
    }
    if s :| Complete(At(e, r), s) && SetOf(e, ids) <= s <= AllowedArgs(e, allowed) {
      var m := ExtModel(e, owner, n, a, r, s);
      ModelWithin(e, owner, n, a, r, allowed, lits, m);
      forall v | v in ids && v < n ensures Sat(m, Lits(ExtensionSofts(n)[v])) {
        UnitSoft(m, n, v);
        var x := ArgOf(e, owner, n, a, r, v);
        assert x in Ext(e, m);
      }
    }
  }

  /** The allowed arguments are those in all preferred extensions. */
  ghost predicate AllowsAll(f: Framework, e: Enc, allowed: seq<bool>) {
    forall a :: a in AllowedArgs(e, allowed) <==> a in e.names && forall p :: Preferred(f, p) ==> a in p
  }

  /** A maximal set under the exclusions is the ideal extension. */
  lemma WithinIsIdeal(e: Enc, owner: seq<Owner>, n: nat, a: seq<Lit>, r: set<Attack>, allowed: seq<bool>, lits: seq<Lit>, ids: set<nat>)
    requires Query(e, owner, n, a, r) && Merges(e, At(e, r)) && |allowed| == n && forall l :: l in lits <==> l.neg && l.v < n && !allowed[l.v]
    requires AllowsAll(At(e, r), e, allowed) && IsSoftMss(TheoryOf(CompleteEncoding(e)), lits + a, ExtensionSofts(n), ids)
    ensures Ideal(At(e, r), SetOf(e, ids))
  {
    hide Query, Complete, CompleteEncoding, TheoryOf, SoftsTogether, Preferred, Admissible, Grounded;
    var f := At(e, r);
    MssIdsBelow(TheoryOf(CompleteEncoding(e)), lits + a, n, ids);
    TogetherWithin(e, owner, n, a, r, allowed, lits, ids);
    var s :| Complete(f, s) && SetOf(e, ids) <= s <= AllowedArgs(e, allowed);
    var i := IdealExists(f);
    CompleteWithinIsCautious(f, e, allowed, s);
    assert s <= i;
    IdealAllowed(f, e, allowed, i, r);
    forall x | x in i ensures x in SetOf(e, ids) {
      XBelow(e, owner, n, a, r, x);
      TogetherWithin(e, owner, n, a, r, allowed, lits, ids + {e.X(x)});
      AddMember(e, f, ids, i, x);
    }
    assert SetOf(e, ids) == i;
  }

  lemma MssIdsBelow(theory: Theory, a: seq<Lit>, n: nat, ids: set<nat>)
    requires IsSoftMss(theory, a, ExtensionSofts(n), ids)
    ensures forall v :: v in ids ==> v < n
    ensures forall v: nat :: v < n && v !in ids ==> !SoftsTogether(theory, a, ExtensionSofts(n), ids + {v})
    ensures SoftsTogether(theory, a, ExtensionSofts(n), ids)
  {
    hide SoftsTogether;
  }

  lemma CompleteWithinIsCautious(f: Framework, e: Enc, allowed: seq<bool>, s: set<Arg>)
    requires AllowsAll(f, e, allowed) && Complete(f, s) && s <= AllowedArgs(e, allowed)
    ensures Cautious(f, s)
  {
    hide Preferred;
  }

  lemma IdealAllowed(f: Framework, e: Enc, allowed: seq<bool>, i: set<Arg>, r: set<Attack>)
    requires AllowsAll(f, e, allowed) && f == At(e, r) && Complete(f, i) && forall p :: Preferred(f, p) ==> i <= p
    ensures i <= AllowedArgs(e, allowed) && i <= Names(e)
  {
    hide Preferred;
  }

  /** A member of a uniform superset can be added. */
  lemma AddMember(e: Enc, f: Framework, ids: set<nat>, i: set<Arg>, x: Arg)
    requires Merges(e, f) && Complete(f, i) && SetOf(e, ids) <= i && x in i && x in e.names
    ensures SetOf(e, ids + {e.X(x)}) <= i
    ensures e.X(x) in ids ==> x in SetOf(e, ids)
  {
    hide Complete;
    assert Uniform(e, i);
  }

  /** Every set of soft clauses that holds together is contained in a maximal one. */
  lemma SoftMssExists(hard: Theory, a: seq<Lit>, softs: seq<Clause>, s: set<nat>) returns (t: set<nat>)
    requires SoftsTogether(hard, a, softs, s) && forall i :: i in s ==> i < |softs|
    ensures IsSoftMss(hard, a, softs, t) && s <= t
    decreases Trail.UpTo(|softs|) - s
  {
    hide SoftsTogether;
    if i: nat :| i < |softs| && i !in s && SoftsTogether(hard, a, softs, s + {i}) {
      t := SoftMssExists(hard, a, softs, s + {i});
    } else {
      t := s;
    }
  }

  /** After `k` reports, the allowed variables are those in all of them. */
  ghost predicate AllowedSoFar(allowed: seq<bool>, n: nat, msses: seq<Mss>, k: nat)
    requires k <= |msses|
  {
    |allowed| == n && forall v :: 0 <= v < n ==> (allowed[v] <==> forall j :: 0 <= j < k ==> v in msses[j].ids)
  }

  /** Drops what is not in the report; tells whether only propagated variables are left. */
  method Restrict(allowed0: seq<bool>, ids: seq<nat>, grExt: seq<nat>) returns (allowed: seq<bool>, onlyGrAllowed: bool)
    ensures |allowed| == |allowed0| && forall v :: 0 <= v < |allowed| ==> (allowed[v] <==> allowed0[v] && v in ids)
    ensures onlyGrAllowed <==> forall v :: 0 <= v < |allowed| && allowed[v] ==> v in grExt
  {
    allowed, onlyGrAllowed := [], true;
    while |allowed| < |allowed0|
      invariant |allowed| <= |allowed0| && forall v :: 0 <= v < |allowed| ==> (allowed[v] <==> allowed0[v] && v in ids)
      invariant onlyGrAllowed <==> forall v :: 0 <= v < |allowed| && allowed[v] ==> v in grExt
    {
      var keep := allowed0[|allowed|] && |allowed| in ids;
      onlyGrAllowed := onlyGrAllowed && (!keep || |allowed| in grExt);
      allowed := allowed + [keep];
    }
  }

  lemma AllowedStep(allowed0: seq<bool>, allowed: seq<bool>, n: nat, msses: seq<Mss>, k: nat)
    requires k < |msses| && AllowedSoFar(allowed0, n, msses, k) && |allowed| == n
    requires forall v :: 0 <= v < n ==> (allowed[v] <==> allowed0[v] && v in msses[k].ids)
    ensures AllowedSoFar(allowed, n, msses, k + 1)
  {
  }

  /** What the reports of the enumeration are. */
  ghost predicate Reports(e: Enc, owner: seq<Owner>, n: nat, a: seq<Lit>, r: set<Attack>, msses: seq<Mss>) {
    && Query(e, owner, n, a, r) && Merges(e, At(e, r))
    && NothingMissed(TheoryOf(CompleteEncoding(e)), a, ExtensionSofts(n), msses)
    && forall x :: x in msses ==> MssOk(TheoryOf(CompleteEncoding(e)), a, ExtensionSofts(n), x)
  }

  lemma ReportIsPreferred(e: Enc, owner: seq<Owner>, n: nat, a: seq<Lit>, r: set<Attack>, msses: seq<Mss>, j: nat)
    requires Reports(e, owner, n, a, r, msses) && j < |msses|
    ensures Preferred(At(e, r), SetOf(e, Ids(msses[j])))
  {
    hide Query, Preferred, CompleteEncoding, TheoryOf, NothingMissed, Merges, IsSoftMss;
    assert msses[j] in msses;
    MssIds(TheoryOf(CompleteEncoding(e)), a, n, Ids(msses[j]));
    MssIsPreferred(e, owner, n, a, r, Ids(msses[j]));
  }

  lemma PreferredReported(e: Enc, owner: seq<Owner>, n: nat, a: seq<Lit>, r: set<Attack>, msses: seq<Mss>, p: set<Arg>) returns (j: nat)
    requires Reports(e, owner, n, a, r, msses) && Preferred(At(e, r), p)
    ensures j < |msses| && SetOf(e, Ids(msses[j])) == p
  {
    hide Query, Preferred, CompleteEncoding, TheoryOf, MssOk, Merges, IsSoftMss;
    var ids := PreferredIds(e, owner, n, a, r, p);
    MssIsPreferred(e, owner, n, a, r, ids);
    j :| 0 <= j < |msses| && Ids(msses[j]) == ids;
  }

  lemma AllowedMeans(e: Enc, owner: seq<Owner>, n: nat, a: seq<Lit>, r: set<Attack>, msses: seq<Mss>, k: nat, allowed: seq<bool>, x: Arg)
    requires Reports(e, owner, n, a, r, msses) && k <= |msses| && AllowedSoFar(allowed, n, msses, k) && x in e.names
    ensures x in AllowedArgs(e, allowed) <==> forall j :: 0 <= j < k ==> x in SetOf(e, Ids(msses[j]))
  {
    hide NothingMissed, MssOk, CompleteEncoding, TheoryOf, Merges, Query;
    XBelow(e, owner, n, a, r, x);
    forall j | 0 <= j < k ensures x in SetOf(e, Ids(msses[j])) <==> e.X(x) in msses[j].ids { }
  }

  /** With all preferred extensions reported, the allowed arguments are their intersection. */
  lemma AllAllowed(e: Enc, owner: seq<Owner>, n: nat, a: seq<Lit>, r: set<Attack>, msses: seq<Mss>, allowed: seq<bool>)
    requires Reports(e, owner, n, a, r, msses) && AllowedSoFar(allowed, n, msses, |msses|)
    ensures AllowsAll(At(e, r), e, allowed)
  {
    hide Reports, AllowedSoFar, Preferred;
    forall x | x in e.names ensures x in AllowedArgs(e, allowed) <==> forall p :: Preferred(At(e, r), p) ==> x in p {
      AllowedMeans(e, owner, n, a, r, msses, |msses|, allowed, x);
      if x in AllowedArgs(e, allowed) {
        forall p | Preferred(At(e, r), p) ensures x in p { var j := PreferredReported(e, owner, n, a, r, msses, p); }
      }
      if forall p :: Preferred(At(e, r), p) ==> x in p {
        forall j | 0 <= j < |msses| ensures x in SetOf(e, Ids(msses[j])) { ReportIsPreferred(e, owner, n, a, r, msses, j); }
      }
    }
  }

  /** When only arguments forced without any assumption are left, they are the ideal extension. */
  lemma OnlyForcedLeft(e: Enc, owner: seq<Owner>, n: nat, a: seq<Lit>, r: set<Attack>, msses: seq<Mss>, k: nat, allowed: seq<bool>, lits: seq<Lit>)
    requires Reports(e, owner, n, a, r, msses) && k <= |msses| && AllowedSoFar(allowed, n, msses, k)
    requires Forced(TheoryOf(CompleteEncoding(e)), [], Lits(lits))
    requires AllowedArgs(e, allowed) <= In(e, Lits(lits))
    ensures Ideal(At(e, r), In(e, Lits(lits)))
  {
    hide AllowedSoFar, Preferred, Grounded, MssOk, NothingMissed, CompleteEncoding, TheoryOf, Query, Merges, Complete;
    var f := At(e, r);
    var i := IdealExists(f);
    ForcedInside(e, owner, n, a, r, lits);
    GroundedLeast(f);
    CompleteNames(e, r, i);
    forall x | x in i ensures x in AllowedArgs(e, allowed) {
      AllowedMeans(e, owner, n, a, r, msses, k, allowed, x);
      forall j | 0 <= j < k ensures x in SetOf(e, Ids(msses[j])) { ReportIsPreferred(e, owner, n, a, r, msses, j); }
    }
    assert In(e, Lits(lits)) == i;
  }

  /** Arguments forced without assumptions are in the grounded extension after every step. */
  lemma ForcedInside(e: Enc, owner: seq<Owner>, n: nat, a: seq<Lit>, r: set<Attack>, lits: seq<Lit>)
    requires Query(e, owner, n, a, r) && Merges(e, At(e, r)) && Forced(TheoryOf(CompleteEncoding(e)), [], Lits(lits))
    ensures In(e, Lits(lits)) <= Grounded(At(e, r))
  {
    hide Query, CompleteEncoding, TheoryOf, Grounded, SatAll;
    GroundedLeast(At(e, r));
    GroundedUniform(e, At(e, r));
    var m := ExtModel(e, owner, n, a, r, Grounded(At(e, r)));
    assert IsModel(m, TheoryOf(CompleteEncoding(e)), []);
    forall x | x in In(e, Lits(lits)) ensures x in Grounded(At(e, r)) {
      assert True(m, Pos(e.X(x)));
      assert x in Ext(e, m);
    }
  }

  // ----- propagating without the switches can miss arguments -----

  /** Two arguments; `b` attacks `a` until the only change removes the attack. */
  ghost function TwoArgs(): Enc {
    Enc(["a", "b"], map["a" := 0, "b" := 1], map["a" := ["b"]], map["a" := 2, "b" := 3], [DynVar("b", "a", 4, 5, 6)])
  }

  ghost function TwoArgsOwner(): seq<Owner> {
    [OfArg, OfArg, OfDisj("a"), OfDisj("b"), OfRepl(0), OfNotAttacked(0), OfSwitch(0)]
  }

  ghost function TwoArgsChanges(): seq<Change> {
    [Change(false, "b", "a", true)]
  }

  lemma TwoArgsFacts()
    ensures forall a :: a in TwoArgs().names <==> a == "a" || a == "b"
    ensures TwoArgs().X("a") == 0 && TwoArgs().X("b") == 1 && TwoArgs().P("a") == 2 && TwoArgs().P("b") == 3
    ensures forall p :: p in Pairs(TwoArgs().attacks) <==> p == ("b", "a")
    ensures Find(TwoArgs().dyn, "b", "a").Some?
  {
    var e := TwoArgs();
    assert e.names[0] == "a" && e.names[1] == "b" && "a" != "b";
    forall p ensures p in Pairs(e.attacks) <==> p == ("b", "a") { PairsTo(e.attacks, p.0, p.1); }
    FindMeans(e.dyn, "b", "a");
    assert e.dyn[0] in e.dyn;
  }

  lemma TwoArgsArgs()
    ensures ArgsOwned(TwoArgs(), TwoArgsOwner())
  {
    TwoArgsFacts();
    var e, owner := TwoArgs(), TwoArgsOwner();
    forall v | 0 <= v < |owner| && owner[v] == OfArg ensures exists a :: a in e.names && e.X(a) == v {
      assert v == 0 || v == 1;
      assert e.X(if v == 0 then "a" else "b") == v;
    }
  }

  lemma TwoArgsDisj()
    ensures DisjOwned(TwoArgs(), TwoArgsOwner())
  {
    TwoArgsFacts();
    var e, owner := TwoArgs(), TwoArgsOwner();
    forall v | 0 <= v < |owner| && owner[v].OfDisj? ensures owner[v].a in e.names && e.P(owner[v].a) == v {
      assert v == 2 || v == 3;
    }
  }

  lemma TwoArgsDyn()
    ensures DynOwned(TwoArgs(), TwoArgsOwner(), true)
  {
  }

  lemma TwoArgsDeclared()
    ensures Declared(TwoArgs()) && Recorded(TwoArgs().attacks, TwoArgsChanges(), {("b", "a")})
  {
    TwoArgsFacts();
    assert TwoArgsChanges()[0].Pair() == ("b", "a");
  }

  ghost function TwoArgsAttacks(on: bool): set<Attack> {
    if on then {("b", "a")} else {}
  }

  lemma TwoArgsSwitched(on: bool, m: Assignment)
    ensures TrueAll(m, [SwitchLit(TwoArgs().dyn[0], on)]) <==> Switched(TwoArgs(), m, TwoArgsAttacks(on))
  {
    var e := TwoArgs();
    var a := [SwitchLit(e.dyn[0], on)];
    assert a[0] in a && e.dyn[0] in e.dyn;
  }

  /** The switch is one literal. */
  lemma TwoArgsQuery(on: bool)
    ensures Query(TwoArgs(), TwoArgsOwner(), 2, [SwitchLit(TwoArgs().dyn[0], on)], TwoArgsAttacks(on))
    ensures Merges(TwoArgs(), At(TwoArgs(), TwoArgsAttacks(on)))
  {
    hide ArgsOwned, DisjOwned, DynOwned, Declared, Switched, Complete, Pairs, Find;
    TwoArgsArgs();
    TwoArgsDisj();
    TwoArgsDyn();
    TwoArgsDeclared();
    TwoArgsFacts();
    forall m: Assignment ensures TrueAll(m, [SwitchLit(TwoArgs().dyn[0], on)]) <==> Switched(TwoArgs(), m, TwoArgsAttacks(on)) {
      TwoArgsSwitched(on, m);
    }
  }

  /** After the change everything is grounded, but whatever propagation derives without the switch
      leaves out `a`, which the attack still threatens. */
  lemma SwitchFreeMisses(lits: seq<Lit>)
    requires Forced(TheoryOf(CompleteEncoding(TwoArgs())), [], Lits(lits))
    ensures In(TwoArgs(), Lits(lits)) < Grounded(At(TwoArgs(), Replay({("b", "a")}, TwoArgsChanges(), 1)))
  {
    hide Query, CompleteEncoding, TheoryOf, Merges, Grounded;
    var e, owner := TwoArgs(), TwoArgsOwner();
    assert Replay({("b", "a")}, TwoArgsChanges(), 1) == {};
    TwoArgsQuery(true);
    TwoArgsQuery(false);
    var on, off := At(e, TwoArgsAttacks(true)), At(e, TwoArgsAttacks(false));
    ForcedInside(e, owner, 2, [SwitchLit(e.dyn[0], true)], TwoArgsAttacks(true), lits);
    ForcedInside(e, owner, 2, [SwitchLit(e.dyn[0], false)], TwoArgsAttacks(false), lits);
    GroundedLeast(on);
    GroundedLeast(off);
    TwoArgsFacts();
    assert Defends(off, Grounded(off), "a") && "a" in Grounded(off);
    assert Defends(on, Grounded(on), "b") && "b" in Grounded(on);
    assert Attacked(on, Grounded(on), "a") && "a" !in Grounded(on);
  }

  /** The literals propagated without any assumption. */
  method PropagatedAtTop(h: SatEncodingHelper) returns (lits: seq<Lit>)
    requires ClausesBelow(h.clauses, h.nbVars)
    ensures Forced(TheoryOf(h.clauses), [], Lits(lits)) && Derived(TheoryOf(h.clauses), [], Lits(lits))
    ensures Satisfiable(TheoryOf(h.clauses), []) ==> UnitClosed(TheoryOf(h.clauses), Lits(lits))
  {
    hide Solver.Idle, TheoryOf, UnitClosed, Forced, Derived, Given, DerivedFrom, Satisfiable;
    var slv := BuildSolver(h.nbVars, h.clauses);
    IdleIsValid(slv);
    ghost var ca0, t0 := slv.ca, slv.Snap();
    var confl;
    lits, confl := slv.PropagateUnder([]);
    GivenDerived(ca0, t0, TheoryOf(h.clauses), [], Lits(lits));
  }

  /** The variables below `n` that are propagated positively, in order. */
  method PropagatedBelow(propagated: seq<nat>, n: nat) returns (gr: seq<nat>)
    ensures (forall v :: v in gr <==> v in propagated && v < n) && EachOnce(gr, n)
  {
    gr := [];
    for i := 0 to n
      invariant (forall v :: v in gr <==> v in propagated && v < i) && EachOnce(gr, i)
    {
      if i in propagated { gr := gr + [i]; }
    }
  }

  /** Goes through the reports, stopping when only propagated variables are left. */
  method Intersect(msses: seq<Mss>, n: nat, grExt: seq<nat>) returns (allowed: seq<bool>, isGrounded: bool, ghost k: nat)
    ensures k <= |msses| && AllowedSoFar(allowed, n, msses, k)
    ensures isGrounded ==> forall v :: 0 <= v < n && allowed[v] ==> v in grExt
    ensures !isGrounded ==> k == |msses|
  {
    allowed, isGrounded := seq(n, i => true), false;
    var j := 0;
    while j < |msses| && !isGrounded
      invariant 0 <= j <= |msses| && AllowedSoFar(allowed, n, msses, j)
      invariant isGrounded ==> forall v :: 0 <= v < n && allowed[v] ==> v in grExt
    {
      var allowed0 := allowed;
      allowed, isGrounded := Restrict(allowed0, msses[j].ids, grExt);
      AllowedStep(allowed0, allowed, n, msses, j);
      j := j + 1;
    }
    k := j;
  }

  /** The ideal extension after a step: the propagated arguments when the preferred extensions have
      nothing else in common, the preferred extension when it is alone, and otherwise a maximal set
      inside the intersection of all preferred extensions. */
  method JustComputeOneExtension(names: seq<Arg>, varOf: map<Arg, nat>, nVars: nat, attacks: Attacks, step: int) returns (ids: seq<nat>)
    requires InputOk(names, varOf, nVars, attacks) && -1 <= step < |attacks.dynAttacks|
    requires Merges(Plain(names, varOf), FrameworkAfter(names, attacks, step))
    ensures Ideal(FrameworkAfter(names, attacks, step), ArgsOf(names, varOf, ids)) && EachOnce(ids, nVars)
  {
    hide EachOnce, AllOwned, Declared, Covers, CompleteEncoding, TheoryOf, Query, Merges, NothingMissed, AllDifferent, MssOk, Satisfiable, InputOk, Preferred, Ideal, AllowedSoFar, Forced, Encoded;
    ghost var f := FrameworkAfter(names, attacks, step);
    var h, assumps := PreferredQuery(names, varOf, nVars, attacks, step);
    ghost var e, r := h.EncNow(), Replay(attacks.initial, attacks.dynAttacks, step + 1);
    MergesPlain(e, names, varOf, f);
    var lits := PropagatedAtTop(h);
    var propagated := Positives(lits);
    var ok, msses := ComputeMsses(h.nbVars, h.clauses, h.softs, assumps, 0);
    assert ok by { QuerySatisfiable(e, h.owner, nVars, assumps, r); }
    var allowed, isGrounded;
    ghost var k;
    allowed, isGrounded, k := Intersect(msses, nVars, propagated);
    if isGrounded {
      ids := PropagatedBelow(propagated, nVars);
      GroundedExit(e, h.owner, nVars, assumps, r, msses, k, allowed, lits, propagated, ids);
    } else if |msses| == 1 {
      ids := msses[0].ids;
      ReportsOnce(TheoryOf(CompleteEncoding(e)), nVars, assumps, msses, [ids]);
      assert ids in [ids];
      AloneExit(e, h.owner, nVars, assumps, r, msses);
    } else {
      AllAllowed(e, h.owner, nVars, assumps, r, msses, allowed);
      ids := MaximalInside(h, nVars, assumps, r, allowed);
    }
  }

  lemma GroundedExit(e: Enc, owner: seq<Owner>, n: nat, a: seq<Lit>, r: set<Attack>, msses: seq<Mss>, k: nat, allowed: seq<bool>,
                     lits: seq<Lit>, propagated: seq<nat>, ids: seq<nat>)
    requires Reports(e, owner, n, a, r, msses) && k <= |msses| && AllowedSoFar(allowed, n, msses, k)
    requires Forced(TheoryOf(CompleteEncoding(e)), [], Lits(lits)) && forall v :: v in propagated <==> Pos(v) in lits
    requires forall v :: 0 <= v < n && allowed[v] ==> v in propagated
    requires forall v :: v in ids <==> v in propagated && v < n
    ensures Ideal(At(e, r), ArgsOf(e.names, e.varOf, ids))
  {
    hide Preferred, MssOk, NothingMissed, CompleteEncoding, TheoryOf, Query, Merges, Ideal, Forced;
    OnlyForcedLeft(e, owner, n, a, r, msses, k, allowed, lits);
    SameSet(e, ids);
    forall x | x in e.names ensures x in SetOf(e, set v | v in ids) <==> x in In(e, Lits(lits)) { XBelow(e, owner, n, a, r, x); }
    assert SetOf(e, set v | v in ids) == In(e, Lits(lits));
  }

  lemma AloneExit(e: Enc, owner: seq<Owner>, n: nat, a: seq<Lit>, r: set<Attack>, msses: seq<Mss>)
    requires Reports(e, owner, n, a, r, msses) && |msses| == 1
    ensures Ideal(At(e, r), ArgsOf(e.names, e.varOf, msses[0].ids))
  {
    hide Reports, Preferred;
    ReportIsPreferred(e, owner, n, a, r, msses, 0);
    forall q | Preferred(At(e, r), q) ensures q == SetOf(e, Ids(msses[0])) { var j := PreferredReported(e, owner, n, a, r, msses, q); }
    OnlyPreferredIsIdeal(At(e, r), SetOf(e, Ids(msses[0])));
    SameSet(e, msses[0].ids);
  }

  /** One maximal set under the exclusions. */
  method MaximalInside(h: SatEncodingHelper, nVars: nat, assumps: seq<Lit>, ghost r: set<Attack>, allowed: seq<bool>) returns (ids: seq<nat>)
    requires h.clauses == CompleteEncoding(h.EncNow()) && h.softs == ExtensionSofts(nVars) && nVars <= h.nbVars
    requires Query(h.EncNow(), h.owner, nVars, assumps, r) && Merges(h.EncNow(), At(h.EncNow(), r))
    requires ClausesBelow(h.clauses, h.nbVars) && ClausesBelow(h.softs, h.nbVars) && ClausesBelow([assumps], h.nbVars)
    requires |allowed| == nVars && AllowsAll(At(h.EncNow(), r), h.EncNow(), allowed)
    ensures Ideal(At(h.EncNow(), r), ArgsOf(h.names, h.varOf, ids)) && EachOnce(ids, nVars)
  {
    hide EachOnce, CompleteEncoding, TheoryOf, Query, Merges, NothingMissed, AllDifferent, Satisfiable, Preferred, Ideal, AllowsAll, IsSoftMss, Models;
    ghost var e := h.EncNow();
    var lits := Exclusions(allowed);
    assert assumps in [assumps];
    var ok, msses := ComputeMsses(h.nbVars, h.clauses, h.softs, lits + assumps, 1);
    assert ok by { QuerySatisfiable(e, h.owner, nVars, assumps, r); }
    ghost var some := IdealMss(e, h.owner, nVars, assumps, r, allowed, lits);
    assert |msses| == 1 by {
      if |msses| == 0 { NothingMissedHas(TheoryOf(CompleteEncoding(e)), lits + assumps, ExtensionSofts(nVars), msses, some); }
    }
    assert msses[0] in msses;
    ids := msses[0].ids;
    ReportsOnce(TheoryOf(CompleteEncoding(e)), nVars, lits + assumps, msses, [ids]);
    assert ids in [ids];
    WithinIsIdeal(e, h.owner, nVars, assumps, r, allowed, lits, Ids(msses[0]));
    SameSet(e, ids);
  }

  lemma NothingMissedHas(hard: Theory, a: seq<Lit>, softs: seq<Clause>, msses: seq<Mss>, s: set<nat>)
    requires NothingMissed(hard, a, softs, msses) && IsSoftMss(hard, a, softs, s)
    ensures |msses| > 0
  {
    hide IsSoftMss;
    var j :| 0 <= j < |msses| && Ids(msses[j]) == s;
  }

  /** The exclusions leave a maximal set. */
  lemma IdealMss(e: Enc, owner: seq<Owner>, n: nat, a: seq<Lit>, r: set<Attack>, allowed: seq<bool>, lits: seq<Lit>) returns (t: set<nat>)
    requires Query(e, owner, n, a, r) && Merges(e, At(e, r)) && |allowed| == n && forall l :: l in lits <==> l.neg && l.v < n && !allowed[l.v]
    requires AllowsAll(At(e, r), e, allowed)
    ensures IsSoftMss(TheoryOf(CompleteEncoding(e)), lits + a, ExtensionSofts(n), t)
  {
    hide Query, CompleteEncoding, TheoryOf, SoftsTogether, Preferred, Admissible, Grounded, IsSoftMss;
    var i := IdealExists(At(e, r));
    IdealAllowed(At(e, r), e, allowed, i, r);
    TogetherWithin(e, owner, n, a, r, allowed, lits, {});
    assert SetOf(e, {}) == {};
    t := SoftMssExists(TheoryOf(CompleteEncoding(e)), lits + a, ExtensionSofts(n), {});
  }
}
