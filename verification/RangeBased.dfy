/** Semi-stable and stage extensions: one per maximal range, then the others with the same range. */
module RangeSemantics {
  import opened Cnf
  import opened Argumentation
  import opened AttackStore
  import opened Encoding
  import opened EncodingModels
  import opened EncodingBuilder
  import opened Encoders
  import opened Formulas
  import opened SoftMss
  import opened MssSolver
  import opened GroundedSemantics
  import opened PreferredSemantics
  import opened ModelEnumeration
  import opened ExtensionEnumeration
  import opened IdealSemantics

  // ----- the base semantics: complete for semi-stable, conflict-free for stage -----

  ghost predicate Base(f: Framework, complete: bool, s: set<Arg>) {
    if complete then Complete(f, s) else ConflictFree(f, s)
  }

  function BaseEncoding(e: Enc, complete: bool): seq<Clause> {
    if complete then CompleteEncoding(e) else ConflictFreeEncoding(e)
  }

  ghost predicate MergesBase(e: Enc, f: Framework, complete: bool) {
    forall s :: Base(f, complete, s) ==> Uniform(e, s)
  }

  /** A base extension with maximal range. */
  ghost predicate MaxRange(f: Framework, complete: bool, s: set<Arg>) {
    Base(f, complete, s) && forall t :: Base(f, complete, t) && Range(f, s) <= Range(f, t) ==> Range(f, t) == Range(f, s)
  }

  ghost function RangeExts(f: Framework, complete: bool): set<set<Arg>> {
    set s | s <= f.args && if complete then SemiStable(f, s) else Stage(f, s)
  }

  lemma MaxRangeIs(f: Framework, complete: bool, s: set<Arg>)
    ensures s in RangeExts(f, complete) <==> MaxRange(f, complete, s)
  {
    if complete {
      assert forall t :: Base(f, complete, t) <==> Complete(f, t);
    } else {
      assert forall t :: Base(f, complete, t) <==> ConflictFree(f, t);
    }
  }

  lemma BaseConflictFree(f: Framework, complete: bool, s: set<Arg>)
    requires Base(f, complete, s)
    ensures ConflictFree(f, s) && s <= f.args
  {
  }

  // ----- models of the base encoding -----

  lemma BaseModelExt(e: Enc, owner: seq<Owner>, n: nat, a: seq<Lit>, r: set<Attack>, complete: bool, m: Assignment)
    requires Query(e, owner, n, a, r) && Holds(m, BaseEncoding(e, complete)) && TrueAll(m, a)
    ensures Base(At(e, r), complete, Ext(e, m))
    ensures forall x :: x in e.names ==> (m(e.P(x)) <==> Attacked(At(e, r), Ext(e, m), x))
  {
    hide AllOwned, Selects, Declared, Switched, Holds, AttackedEncoding, CompleteAll, ConflictFreeAll, Complete, ConflictFree, DynModel, DisjModel, TrueAll, Attacked;
    HoldsPlus(m, AttackedEncoding(e), if complete then CompleteAll(e) else ConflictFreeAll(e));
    AttackedHolds(e, m);
    if complete { CompleteIff(e, m, r); } else { ConflictFreeIff(e, m, r); }
    forall x | x in e.names ensures m(e.P(x)) <==> Attacked(At(e, r), Ext(e, m), x) {
      SomeAttackerMeans(e, m, r, x, true);
      DisjMeansAt(e, m, x);
    }
  }

  lemma DisjMeansAt(e: Enc, m: Assignment, x: Arg)
    requires DisjModel(e, m) && x in e.names
    ensures m(e.P(x)) <==> SomeAttacker(e, m, x)
  {
  }

  lemma BaseExtModel(e: Enc, owner: seq<Owner>, n: nat, a: seq<Lit>, r: set<Attack>, complete: bool, s: set<Arg>) returns (m: Assignment)
    requires Query(e, owner, n, a, r) && Base(At(e, r), complete, s) && Uniform(e, s)
    ensures Holds(m, BaseEncoding(e, complete)) && TrueAll(m, a) && Ext(e, m) == s
  {
    hide AllOwned, Selects, Declared, Switched, Holds, CompleteEncoding, ConflictFreeEncoding, Uniform, Complete, ConflictFree, TrueAll;
    if complete { CompleteModels(e, owner, s, r); } else { ConflictFreeModels(e, owner, s, r); }
    m :| Holds(m, BaseEncoding(e, complete)) && Switched(e, m, r) && Ext(e, m) == s;
  }

  // ----- ranges as sets of soft clauses -----

  /** The arguments numbered by `ids`. */
  ghost function NamesOf(e: Enc, ids: set<nat>): set<Arg> {
    set i | i in ids && i < |e.names| :: e.names[i]
  }

  lemma NamesOfHas(e: Enc, ids: set<nat>, i: nat)
    requires i < |e.names| && forall j, k :: 0 <= j < k < |e.names| ==> e.names[j] != e.names[k]
    ensures e.names[i] in NamesOf(e, ids) <==> i in ids
  {
  }

  lemma RangeSoft(e: Enc, r: set<Attack>, m: Assignment, i: nat)
    requires i < |e.names| && forall x :: x in e.names ==> (m(e.P(x)) <==> Attacked(At(e, r), Ext(e, m), x))
    ensures Sat(m, Lits(RangeSofts(e)[i])) <==> e.names[i] in Range(At(e, r), Ext(e, m))
  {
    SatTwo(m, RangeSofts(e)[i]);
    assert e.names[i] in e.names;
  }

  /** The setting of a run. */
  ghost predicate RangeQuery(e: Enc, owner: seq<Owner>, n: nat, a: seq<Lit>, r: set<Attack>, complete: bool) {
    && Query(e, owner, n, a, r) && MergesBase(e, At(e, r), complete) && ArgVars(e, n)
    && (forall j, k :: 0 <= j < k < |e.names| ==> e.names[j] != e.names[k])
  }

  /** Soft clauses hold together exactly when a base extension has their arguments in its range. */
  lemma TogetherRange(e: Enc, owner: seq<Owner>, n: nat, a: seq<Lit>, r: set<Attack>, complete: bool, ids: set<nat>)
    requires RangeQuery(e, owner, n, a, r, complete)
    ensures SoftsTogether(TheoryOf(BaseEncoding(e, complete)), a, RangeSofts(e), ids)
      <==> exists s :: Base(At(e, r), complete, s) && NamesOf(e, ids) <= Range(At(e, r), s)
  {
    hide Query, MergesBase, BaseEncoding, TheoryOf, Base, Holds, TrueAll, Sat, Range, RangeSofts, ArgVars;
    var f := At(e, r);
    if SoftsTogether(TheoryOf(BaseEncoding(e, complete)), a, RangeSofts(e), ids) {
      var m: Assignment :| IsModel(m, TheoryOf(BaseEncoding(e, complete)), a) && SatSofts(m, RangeSofts(e), ids);
      HoldsTheory(m, BaseEncoding(e, complete));
      BaseModelExt(e, owner, n, a, r, complete, m);
      forall x | x in NamesOf(e, ids) ensures x in Range(f, Ext(e, m)) {
        var i :| i in ids && i < |e.names| && e.names[i] == x;
        RangeSoftsLength(e);
        RangeSoft(e, r, m, i);
      }
    }
    if s :| Base(f, complete, s) && NamesOf(e, ids) <= Range(f, s) {
      BaseUniform(e, f, complete, s);
      var m := BaseExtModel(e, owner, n, a, r, complete, s);
      HoldsTheory(m, BaseEncoding(e, complete));
      BaseModelExt(e, owner, n, a, r, complete, m);
      forall i | i in ids && i < |RangeSofts(e)| ensures Sat(m, Lits(RangeSofts(e)[i])) {
        RangeSoftsLength(e);
        RangeSoft(e, r, m, i);
        assert e.names[i] in NamesOf(e, ids);
      }
      assert IsModel(m, TheoryOf(BaseEncoding(e, complete)), a) && SatSofts(m, RangeSofts(e), ids);
    }
  }

  lemma RangeSoftsLength(e: Enc)
    ensures |RangeSofts(e)| == |e.names|
  {
  }

  lemma BaseUniform(e: Enc, f: Framework, complete: bool, s: set<Arg>)
    requires MergesBase(e, f, complete) && Base(f, complete, s)
    ensures Uniform(e, s)
  {
  }

  lemma RangeNames(f: Framework, s: set<Arg>)
    ensures Range(f, s) <= f.args
  {
  }

  /** A report is an extension of maximal range together with this range. */
  lemma ReportIsMaxRange(e: Enc, owner: seq<Owner>, n: nat, a: seq<Lit>, r: set<Attack>, complete: bool, x: Mss)
    requires RangeQuery(e, owner, n, a, r, complete) && MssOk(TheoryOf(BaseEncoding(e, complete)), a, RangeSofts(e), x)
    ensures MaxRange(At(e, r), complete, Ext(e, AsAssignment(x.model)))
    ensures Range(At(e, r), Ext(e, AsAssignment(x.model))) == NamesOf(e, Ids(x))
  {
    hide Query, MergesBase, BaseEncoding, TheoryOf, Base, Holds, TrueAll, Sat, RangeSofts, SoftsTogether, AsAssignment, Range, ArgVars;
    var f, m := At(e, r), AsAssignment(x.model);
    HoldsTheory(m, BaseEncoding(e, complete));
    BaseModelExt(e, owner, n, a, r, complete, m);
    var s := Ext(e, m);
    RangeSoftsLength(e);
    forall i: nat | i < |e.names| ensures i in x.ids <==> e.names[i] in Range(f, s) { RangeSoft(e, r, m, i); }
    RangeNames(f, s);
    NamesAre(e, f, Ids(x), Range(f, s));
    forall t | Base(f, complete, t) && Range(f, s) <= Range(f, t) ensures Range(f, t) == Range(f, s) {
      RangeNames(f, t);
      forall y | y in Range(f, t) ensures y in Range(f, s) {
        var i: nat :| i < |e.names| && e.names[i] == y;
        TogetherRange(e, owner, n, a, r, complete, Ids(x) + {i});
        NamesOfMore(e, Ids(x), i);
      }
    }
  }

  lemma NamesOfMore(e: Enc, ids: set<nat>, i: nat)
    requires i < |e.names|
    ensures NamesOf(e, ids + {i}) == NamesOf(e, ids) + {e.names[i]}
  {
  }

  lemma NamesAre(e: Enc, f: Framework, ids: set<nat>, s: set<Arg>)
    requires s <= Names(e) && (forall i: nat :: i < |e.names| ==> (i in ids <==> e.names[i] in s))
    ensures NamesOf(e, ids) == s
  {
    forall y | y in s ensures y in NamesOf(e, ids) {
      var i: nat :| i < |e.names| && e.names[i] == y;
    }
  }

  /** Every maximal range is reported. */
  lemma RangeReported(e: Enc, owner: seq<Owner>, n: nat, a: seq<Lit>, r: set<Attack>, complete: bool, out: seq<Mss>, s: set<Arg>) returns (j: nat)
    requires RangeQuery(e, owner, n, a, r, complete) && NothingMissed(TheoryOf(BaseEncoding(e, complete)), a, RangeSofts(e), out)
    requires MaxRange(At(e, r), complete, s)
    ensures j < |out| && NamesOf(e, Ids(out[j])) == Range(At(e, r), s)
  {
    hide Query, MergesBase, BaseEncoding, TheoryOf, Base, RangeSofts, SoftsTogether, Range, ArgVars;
    var f := At(e, r);
    var ids := set i: nat | 0 <= i < |e.names| && e.names[i] in Range(f, s);
    RangeNames(f, s);
    NamesAre(e, f, ids, Range(f, s));
    RangeSoftsLength(e);
    TogetherRange(e, owner, n, a, r, complete, ids);
    forall i: nat | i < |RangeSofts(e)| && i !in ids ensures !SoftsTogether(TheoryOf(BaseEncoding(e, complete)), a, RangeSofts(e), ids + {i}) {
      TogetherRange(e, owner, n, a, r, complete, ids + {i});
      NamesOfMore(e, ids, i);
    }
    assert IsSoftMss(TheoryOf(BaseEncoding(e, complete)), a, RangeSofts(e), ids);
    j :| 0 <= j < |out| && Ids(out[j]) == ids;
  }

  // ----- when one report is enough -----

  /** If every base extension contains one of maximal range, that is the only one. */
  lemma OnlyMaxRange(f: Framework, complete: bool, s: set<Arg>)
    requires MaxRange(f, complete, s) && forall t :: Base(f, complete, t) ==> s <= t
    ensures RangeExts(f, complete) == {s}
  {
    hide Range, SemiStable, Stage;
    MaxRangeIs(f, complete, s);
    forall t | t in RangeExts(f, complete) ensures t == s {
      MaxRangeIs(f, complete, t);
      SameBase(f, complete, s, t);
    }
  }

  lemma SameBase(f: Framework, complete: bool, s: set<Arg>, t: set<Arg>)
    requires MaxRange(f, complete, s) && Base(f, complete, t) && s <= t
    ensures s == t
  {
    RangeMonotone(f, s, t);
    BaseConflictFree(f, complete, s);
    BaseConflictFree(f, complete, t);
    SameRangeAntichain(f, s, t);
  }

  /** An empty extension of maximal range is the only extension. */
  lemma EmptyMaxRange(f: Framework, complete: bool)
    requires MaxRange(f, complete, {})
    ensures RangeExts(f, complete) == {{}}
  {
    OnlyMaxRange(f, complete, {});
  }

  // ----- the other extensions with a given range -----

  /** Selector `n0 + i` says that argument number `i` is in the range. */
  function SelClauses(e: Enc, n0: nat): seq<Clause> {
    seq(|e.names|, i requires 0 <= i < |e.names| => [Pos(e.X(e.names[i])), Pos(e.P(e.names[i]))] + [Neg(n0 + i)])
  }

  /** The assumption for selector number `i`. */
  function SelLit(n0: nat, ids: seq<nat>, i: nat): Lit {
    Lit(n0 + i, i !in ids)
  }

  predicate IsExact(e: Enc, n0: nat, ids: seq<nat>, l: Lit, i: nat)
    requires i < |e.names|
  {
    l == SelLit(n0, ids, i) || (i !in ids && (l == Neg(e.X(e.names[i])) || l == Neg(e.P(e.names[i]))))
  }

  /** The range is exactly what the selectors say. */
  ghost predicate Exact(e: Enc, n0: nat, ids: seq<nat>, m: Assignment) {
    forall i: nat :: i < |e.names| ==> ExactAt(e, n0, ids, m, i)
  }

  ghost predicate ExactAt(e: Enc, n0: nat, ids: seq<nat>, m: Assignment, i: nat)
    requires i < |e.names|
  {
    (m(n0 + i) <==> i in ids) && (i !in ids ==> !m(e.X(e.names[i])) && !m(e.P(e.names[i])))
  }

  lemma ExactTrue(e: Enc, n0: nat, ids: seq<nat>, a: seq<Lit>, lits: seq<Lit>, m: Assignment)
    requires forall l :: l in lits <==> l in a || exists i: nat :: i < |e.names| && IsExact(e, n0, ids, l, i)
    ensures TrueAll(m, lits) <==> TrueAll(m, a) && Exact(e, n0, ids, m)
  {
    if TrueAll(m, lits) {
      forall i: nat | i < |e.names| ensures ExactAt(e, n0, ids, m, i) {
        assert IsExact(e, n0, ids, SelLit(n0, ids, i), i);
        assert SelLit(n0, ids, i) in lits;
        if i !in ids {
          assert IsExact(e, n0, ids, Neg(e.X(e.names[i])), i) && IsExact(e, n0, ids, Neg(e.P(e.names[i])), i);
          assert Neg(e.X(e.names[i])) in lits && Neg(e.P(e.names[i])) in lits;
        }
      }
    }
    if TrueAll(m, a) && Exact(e, n0, ids, m) {
      forall l | l in lits ensures True(m, l) {
        if l !in a {
          var i: nat :| i < |e.names| && IsExact(e, n0, ids, l, i);
          assert ExactAt(e, n0, ids, m, i);
        }
      }
    }
  }

  lemma SelMeans(e: Enc, n0: nat, m: Assignment, i: nat)
    requires i < |e.names|
    ensures Sat(m, Lits(SelClauses(e, n0)[i])) <==> m(e.X(e.names[i])) || m(e.P(e.names[i])) || !m(n0 + i)
  {
    SatThree(m, SelClauses(e, n0)[i]);
  }

  ghost function IdSet(ids: seq<nat>): set<nat> {
    set i | i in ids
  }

  /** A model under the exact assumptions has exactly the given range. */
  lemma ExactRange(e: Enc, owner: seq<Owner>, n: nat, a: seq<Lit>, r: set<Attack>, complete: bool, n0: nat, ids: seq<nat>, m: Assignment)
    requires RangeQuery(e, owner, n, a, r, complete)
    requires Holds(m, BaseEncoding(e, complete) + SelClauses(e, n0)) && TrueAll(m, a) && Exact(e, n0, ids, m)
    ensures Base(At(e, r), complete, Ext(e, m)) && Range(At(e, r), Ext(e, m)) == NamesOf(e, IdSet(ids))
  {
    hide Query, MergesBase, BaseEncoding, Base, TrueAll, ArgVars, Exact, Attacked;
    var f, s := At(e, r), Ext(e, m);
    HoldsPlus(m, BaseEncoding(e, complete), SelClauses(e, n0));
    BaseModelExt(e, owner, n, a, r, complete, m);
    forall i: nat | i < |e.names| ensures i in IdSet(ids) <==> e.names[i] in Range(f, s) {
      ExactIs(e, n0, ids, m, i);
      SelMeans(e, n0, m, i);
      assert SelClauses(e, n0)[i] in SelClauses(e, n0);
      assert e.names[i] in e.names;
    }
    RangeNames(f, s);
    NamesAre(e, f, IdSet(ids), Range(f, s));
  }

  lemma ExactIs(e: Enc, n0: nat, ids: seq<nat>, m: Assignment, i: nat)
    requires Exact(e, n0, ids, m) && i < |e.names|
    ensures ExactAt(e, n0, ids, m, i)
  {
  }

  ghost function WithSels(m: Assignment, n0: nat, ids: seq<nat>): Assignment {
    (v: nat) => if v >= n0 then v - n0 in ids else m(v)
  }

  /** Every base extension with the given range has a model under the exact assumptions. */
  lemma RangeExact(e: Enc, owner: seq<Owner>, n: nat, a: seq<Lit>, r: set<Attack>, complete: bool, n0: nat, ids: seq<nat>, s: set<Arg>) returns (m: Assignment)
    requires RangeQuery(e, owner, n, a, r, complete) && n0 == |owner| && Declared(e) && ClausesBelow([a], n0)
    requires Base(At(e, r), complete, s) && Range(At(e, r), s) == NamesOf(e, IdSet(ids))
    ensures Holds(m, BaseEncoding(e, complete) + SelClauses(e, n0)) && TrueAll(m, a) && Exact(e, n0, ids, m) && Ext(e, m) == s
  {
    hide Query, MergesBase, BaseEncoding, Base, TrueAll, ArgVars, Exact, Attacked, ClausesBelow, Uniform, Range, SelClauses;
    BaseUniform(e, At(e, r), complete, s);
    var m0 := BaseExtModel(e, owner, n, a, r, complete, s);
    m := WithSels(m0, n0, ids);
    assert Agree(m0, m, n0);
    BaseBelow(e, owner, n, a, r, complete);
    HoldsAgree(m0, m, n0, BaseEncoding(e, complete));
    TrueAllAgree(m0, m, n0, a);
    SameExt(e, owner, n, a, r, m0, m);
    BaseModelExt(e, owner, n, a, r, complete, m);
    SelLength(e, n0);
    forall i: nat | i < |e.names| ensures ExactAt(e, n0, ids, m, i) && Sat(m, Lits(SelClauses(e, n0)[i])) {
      InRangeIs(e, r, m, i);
      NamesOfHas(e, IdSet(ids), i);
      SelMeans(e, n0, m, i);
      assert m(n0 + i) <==> i in ids;
    }
    ExactAll(e, n0, ids, m);
    SelsHold(e, n0, m);
    HoldsPlus(m, BaseEncoding(e, complete), SelClauses(e, n0));
  }

  lemma SelLength(e: Enc, n0: nat)
    ensures |SelClauses(e, n0)| == |e.names|
  {
  }

  lemma InRangeIs(e: Enc, r: set<Attack>, m: Assignment, i: nat)
    requires i < |e.names| && forall x :: x in e.names ==> (m(e.P(x)) <==> Attacked(At(e, r), Ext(e, m), x))
    ensures e.names[i] in Range(At(e, r), Ext(e, m)) <==> m(e.X(e.names[i])) || m(e.P(e.names[i]))
  {
    assert e.names[i] in e.names;
  }

  lemma ExactAll(e: Enc, n0: nat, ids: seq<nat>, m: Assignment)
    requires forall i: nat :: i < |e.names| ==> ExactAt(e, n0, ids, m, i)
    ensures Exact(e, n0, ids, m)
  {
  }

  lemma SelsHold(e: Enc, n0: nat, m: Assignment)
    requires forall i: nat :: i < |e.names| ==> Sat(m, Lits(SelClauses(e, n0)[i]))
    ensures Holds(m, SelClauses(e, n0))
  {
    forall c | c in SelClauses(e, n0) ensures Sat(m, Lits(c)) {
      var i: nat :| i < |e.names| && SelClauses(e, n0)[i] == c;
    }
  }

  lemma BaseBelow(e: Enc, owner: seq<Owner>, n: nat, a: seq<Lit>, r: set<Attack>, complete: bool)
    requires Query(e, owner, n, a, r)
    ensures ClausesBelow(BaseEncoding(e, complete), |owner|) && n <= |owner|
  {
    hide AllOwned, Declared, CompleteEncoding, ConflictFreeEncoding, ClausesBelow;
    EncodingBelow(e, owner);
  }

  lemma SameExt(e: Enc, owner: seq<Owner>, n: nat, a: seq<Lit>, r: set<Attack>, m: Assignment, m': Assignment)
    requires Query(e, owner, n, a, r) && Agree(m, m', |owner|)
    ensures Ext(e, m) == Ext(e, m')
  {
    hide AllOwned, Declared, Selects, Switched, TrueAll;
    forall x | x in e.names ensures m(e.X(x)) <==> m'(e.X(x)) { XBelow(e, owner, n, a, r, x); }
  }

  // ----- excluding the known extension -----

  function OutClause(old_: seq<bool>, n: nat): Clause {
    if n == 0 then [] else OutClause(old_, n - 1) + if Val(old_, n - 1) then [] else [Pos(n - 1)]
  }

  lemma {:induction false} OutClauseHas(old_: seq<bool>, n: nat, l: Lit)
    ensures l in OutClause(old_, n) <==> !l.neg && l.v < n && !Val(old_, l.v)
  {
    if n > 0 { OutClauseHas(old_, n - 1, l); }
  }

  /** The known model neither includes nor is included in the set of `m`. */
  lemma OtherMeans(e: Enc, n: nat, known: seq<bool>, m: Assignment)
    requires ArgVars(e, n)
    ensures Sat(m, Lits(OutClause(known, n))) <==> !(Ext(e, m) <= Ext(e, AsAssignment(known)))
    ensures Sat(m, Lits(TrueNegs(known, n))) <==> !(Ext(e, AsAssignment(known)) <= Ext(e, m))
  {
    hide Ext;
    SupersetBlocked(m, known, n);
    IncludesExt(e, n, m, known);
    SatIs(m, OutClause(known, n));
    forall l ensures l in OutClause(known, n) <==> !l.neg && l.v < n && !Val(known, l.v) { OutClauseHas(known, n, l); }
    OutMeans(e, n, known, m);
  }

  lemma OutMeans(e: Enc, n: nat, known: seq<bool>, m: Assignment)
    requires ArgVars(e, n)
    ensures (exists l: Lit :: !l.neg && l.v < n && !Val(known, l.v) && True(m, l)) <==> !(Ext(e, m) <= Ext(e, AsAssignment(known)))
  {
    if l: Lit :| !l.neg && l.v < n && !Val(known, l.v) && True(m, l) {
      assert HasArg(e, l.v);
      var a :| a in e.names && e.X(a) == l.v;
      assert a in Ext(e, m) && a !in Ext(e, AsAssignment(known));
    }
    if !(Ext(e, m) <= Ext(e, AsAssignment(known))) {
      var a :| a in Ext(e, m) && a !in Ext(e, AsAssignment(known));
      assert True(m, Pos(e.X(a)));
    }
  }

  function OtherClauses(known: seq<bool>, n: nat, sel: nat): seq<Clause> {
    [OutClause(known, n) + [Neg(sel)], [Neg(sel)] + TrueNegs(known, n)]
  }

  lemma OtherHolds(known: seq<bool>, n: nat, sel: nat, m: Assignment)
    ensures Holds(m, OtherClauses(known, n, sel)) <==>
      !m(sel) || (Sat(m, Lits(OutClause(known, n))) && Sat(m, Lits(TrueNegs(known, n))))
  {
    var cs := OtherClauses(known, n, sel);
    SatPlus(m, OutClause(known, n), Neg(sel));
    SatMore(m, Neg(sel), TrueNegs(known, n));
    SatIs(m, TrueNegs(known, n));
    assert cs[0] in cs && cs[1] in cs;
    assert (exists k :: 0 <= k < |TrueNegs(known, n)| && True(m, TrueNegs(known, n)[k])) <==> Sat(m, Lits(TrueNegs(known, n)));
  }

  /** The literals for one round of other extensions. */
  method ExactAssumps(e: Enc, n0: nat, ids: seq<nat>, a: seq<Lit>) returns (lits: seq<Lit>)
    ensures forall l :: l in lits <==> l in a || exists i: nat :: i < |e.names| && IsExact(e, n0, ids, l, i)
  {
    lits := [];
    var i := 0;
    while i < |e.names|
      invariant 0 <= i <= |e.names| && |lits| == i
      invariant forall j :: 0 <= j < i ==> lits[j] == SelLit(n0, ids, j)
    {
      lits := lits + [SelLit(n0, ids, i)];
      i := i + 1;
    }
    forall l ensures l in lits <==> exists i: nat :: i < |e.names| && l == SelLit(n0, ids, i) {
      if l in lits { var j: nat :| j < |lits| && lits[j] == l; }
      if i: nat :| i < |e.names| && l == SelLit(n0, ids, i) { assert lits[i] == l; }
    }
    i := 0;
    ghost var sels := lits;
    while i < |e.names|
      invariant 0 <= i <= |e.names|
      invariant forall l :: l in lits <==> l in sels || exists j: nat :: j < i && j !in ids && (l == Neg(e.X(e.names[j])) || l == Neg(e.P(e.names[j])))
    {
      if i !in ids { lits := lits + [Neg(e.X(e.names[i])), Neg(e.P(e.names[i]))]; }
      i := i + 1;
    }
    lits := lits + a;
    forall l ensures l in lits <==> l in a || exists i: nat :: i < |e.names| && IsExact(e, n0, ids, l, i) {
      if l in sels {
        var j: nat :| j < |e.names| && l == SelLit(n0, ids, j);
        assert IsExact(e, n0, ids, l, j);
      }
      if j: nat :| j < |e.names| && j !in ids && (l == Neg(e.X(e.names[j])) || l == Neg(e.P(e.names[j]))) {
        assert IsExact(e, n0, ids, l, j);
      }
    }
  }

  lemma ConservativeDone(base: seq<Clause>, sel: nat, ds: seq<Clause>, n: nat, cs: seq<Clause>)
    requires ClausesBelow(base, sel) && (forall d :: d in ds ==> Neg(sel) in d) && sel < n && Conservative(base + ds, n, cs)
    ensures Conservative(base, sel, cs + [[Neg(sel)]])
  {
    hide ClausesBelow;
    forall m: Assignment | Holds(m, cs + [[Neg(sel)]]) ensures Holds(m, base) {
      HoldsPlus(m, cs, [[Neg(sel)]]);
      HoldsPlus(m, base, ds);
    }
    forall m: Assignment | Holds(m, base) ensures Extendable(m, sel, cs + [[Neg(sel)]]) {
      var m0 := With(m, sel, false);
      assert Agree(m, m0, sel);
      HoldsAgree(m, m0, sel, base);
      forall d | d in ds ensures Sat(m0, Lits(d)) { SatIs(m0, d); assert True(m0, Neg(sel)); }
      HoldsPlus(m0, base, ds);
      assert Extendable(m0, n, cs);
      var m': Assignment :| Agree(m0, m', n) && Holds(m', cs);
      OffAfter(m', cs, sel);
      assert Agree(m, m', sel);
    }
  }

  lemma OffAfter(m: Assignment, cs: seq<Clause>, sel: nat)
    requires Holds(m, cs) && !m(sel)
    ensures Holds(m, cs + [[Neg(sel)]])
  {
    SatIs(m, [Neg(sel)]);
    assert Neg(sel) in [Neg(sel)];
    HoldsOne(m, [Neg(sel)]);
    HoldsPlus(m, cs, [[Neg(sel)]]);
  }

  /** The clauses a run of other extensions starts from. */
  function RangeClauses(e: Enc, complete: bool, n0: nat): seq<Clause> {
    BaseEncoding(e, complete) + SelClauses(e, n0)
  }

  /** What one round works with: the argument variables, the selectors, and the clauses so far. */
  ghost predicate Round(e: Enc, owner: seq<Owner>, n: nat, a: seq<Lit>, r: set<Attack>, complete: bool, n0: nat, cs: seq<Clause>) {
    && RangeQuery(e, owner, n, a, r, complete) && n0 == |owner| && ClausesBelow([a], n0)
    && Conservative(RangeClauses(e, complete, n0), n0 + |e.names|, cs)
  }

  /** The base extensions with the given range. */
  ghost predicate HasRange(e: Enc, r: set<Attack>, complete: bool, ids: seq<nat>, s: set<Arg>) {
    Base(At(e, r), complete, s) && Range(At(e, r), s) == NamesOf(e, IdSet(ids))
  }

  /** `lits` say that the range is `ids`, and `sel` that the known extension is excluded. */
  ghost predicate RoundLits(e: Enc, n0: nat, ids: seq<nat>, a: seq<Lit>, lits: seq<Lit>) {
    forall l :: l in lits <==> l in a || exists i: nat :: i < |e.names| && IsExact(e, n0, ids, l, i)
  }

  lemma RoundLitsBelow(e: Enc, owner: seq<Owner>, n: nat, a: seq<Lit>, r: set<Attack>, complete: bool, n0: nat, ids: seq<nat>, lits: seq<Lit>)
    requires RangeQuery(e, owner, n, a, r, complete) && n0 == |owner| && ClausesBelow([a], n0) && RoundLits(e, n0, ids, a, lits)
    ensures ClausesBelow([lits], n0 + |e.names|)
  {
    forall l | l in lits ensures l.v < n0 + |e.names| {
      if l in a {
        assert a in [a];
      } else {
        var i: nat :| i < |e.names| && IsExact(e, n0, ids, l, i);
        Encoders.VarsBelow(e, owner, e.names[i], e.names[i]);
      }
    }
  }

  /** Models of the round are extensions with the range, other than the known one. */
  lemma OtherModel(e: Enc, owner: seq<Owner>, n: nat, a: seq<Lit>, r: set<Attack>, complete: bool, n0: nat, cs: seq<Clause>,
                   ids: seq<nat>, lits: seq<Lit>, known: seq<bool>, sel: nat, m: Assignment)
    requires Round(e, owner, n, a, r, complete, n0, cs) && RoundLits(e, n0, ids, a, lits)
    requires Holds(m, cs + OtherClauses(known, n, sel)) && TrueAll(m, lits + [Pos(sel)])
    ensures HasRange(e, r, complete, ids, Ext(e, m)) && Ext(e, m) != Ext(e, AsAssignment(known))
  {
    hide RangeQuery, Holds, TrueAll, Exact, Base, Range, OtherClauses, ClausesBelow, Sat, OutClause, TrueNegs, Ext, Extendable;
    HoldsPlus(m, cs, OtherClauses(known, n, sel));
    TrueAllPlus(m, lits, [Pos(sel)]);
    ExactTrue(e, n0, ids, a, lits, m);
    ExactRange(e, owner, n, a, r, complete, n0, ids, m);
    TrueOne(m, sel);
    OtherHolds(known, n, sel, m);
    QueryArgs(e, owner, n, a, r, complete);
    OtherMeans(e, n, known, m);
  }

  lemma TrueOne(m: Assignment, sel: nat)
    ensures TrueAll(m, [Pos(sel)]) <==> m(sel)
  {
    assert Pos(sel) in [Pos(sel)];
  }

  lemma QueryArgs(e: Enc, owner: seq<Owner>, n: nat, a: seq<Lit>, r: set<Attack>, complete: bool)
    requires RangeQuery(e, owner, n, a, r, complete)
    ensures ArgVars(e, n) && Query(e, owner, n, a, r) && Declared(e)
  {
  }

  /** Every other extension with the range has such a model. */
  lemma OtherExt(e: Enc, owner: seq<Owner>, n: nat, a: seq<Lit>, r: set<Attack>, complete: bool, n0: nat, cs: seq<Clause>,
                 ids: seq<nat>, lits: seq<Lit>, known: seq<bool>, sel: nat, s: set<Arg>) returns (m: Assignment)
    requires Round(e, owner, n, a, r, complete, n0, cs) && RoundLits(e, n0, ids, a, lits)
    requires ClausesBelow(cs, sel) && n0 + |e.names| <= sel
    requires HasRange(e, r, complete, ids, s) && HasRange(e, r, complete, ids, Ext(e, AsAssignment(known))) && s != Ext(e, AsAssignment(known))
    ensures Holds(m, cs + OtherClauses(known, n, sel)) && TrueAll(m, lits + [Pos(sel)]) && Ext(e, m) == s
  {
    hide RangeQuery, Holds, TrueAll, Exact, Base, Range, OtherClauses, ClausesBelow, Sat, OutClause, TrueNegs, Query, Declared, Ext, RoundLits, NamesOf;
    var n1 := n0 + |e.names|;
    QueryArgs(e, owner, n, a, r, complete);
    var m1 := RangeExact(e, owner, n, a, r, complete, n0, ids, s);
    assert Extendable(m1, n1, cs);
    var m2: Assignment :| Agree(m1, m2, n1) && Holds(m2, cs);
    m := With(m2, sel, true);
    assert Agree(m2, m, sel) && Agree(m1, m, n1) && Agree(m1, m, n0);
    HoldsAgree(m2, m, sel, cs);
    SameExt(e, owner, n, a, r, m1, m);
    ExactTrueFor(e, n0, ids, a, lits, m1);
    RoundLitsBelow(e, owner, n, a, r, complete, n0, ids, lits);
    TrueAllAgree(m1, m, n1, lits);
    TrueOne(m, sel);
    TrueAllPlus(m, lits, [Pos(sel)]);
    AntichainBoth(At(e, r), complete, s, Ext(e, AsAssignment(known)));
    OtherMeans(e, n, known, m);
    OtherHolds(known, n, sel, m);
    HoldsPlus(m, cs, OtherClauses(known, n, sel));
  }

  lemma ExactTrueFor(e: Enc, n0: nat, ids: seq<nat>, a: seq<Lit>, lits: seq<Lit>, m: Assignment)
    requires RoundLits(e, n0, ids, a, lits)
    ensures TrueAll(m, lits) <==> TrueAll(m, a) && Exact(e, n0, ids, m)
  {
    hide TrueAll, Exact;
    ExactTrue(e, n0, ids, a, lits, m);
  }

  lemma AntichainBoth(f: Framework, complete: bool, s: set<Arg>, t: set<Arg>)
    requires Base(f, complete, s) && Base(f, complete, t) && Range(f, s) == Range(f, t) && s != t
    ensures !(s <= t) && !(t <= s)
  {
    hide Range;
    BaseConflictFree(f, complete, s);
    BaseConflictFree(f, complete, t);
    if s <= t { SameRangeAntichain(f, s, t); }
    if t <= s { SameRangeAntichain(f, t, s); }
  }

  /** The other extensions with the range of the known one, each once. */
  ghost predicate OthersOk(e: Enc, r: set<Attack>, complete: bool, ids: seq<nat>, known: seq<bool>, others: seq<seq<bool>>) {
    && (forall j :: 0 <= j < |others| ==> HasRange(e, r, complete, ids, Ext(e, AsAssignment(others[j]))) && Ext(e, AsAssignment(others[j])) != Ext(e, AsAssignment(known)))
    && (forall i, j :: 0 <= i < j < |others| ==> Ext(e, AsAssignment(others[i])) != Ext(e, AsAssignment(others[j])))
    && (forall s :: HasRange(e, r, complete, ids, s) && s != Ext(e, AsAssignment(known)) ==> exists j :: 0 <= j < |others| && Ext(e, AsAssignment(others[j])) == s)
  }

  lemma EnumeratedOthers(e: Enc, owner: seq<Owner>, n: nat, a: seq<Lit>, r: set<Attack>, complete: bool, n0: nat, cs: seq<Clause>,
                         ids: seq<nat>, lits: seq<Lit>, known: seq<bool>, sel: nat, others: seq<seq<bool>>)
    requires Round(e, owner, n, a, r, complete, n0, cs) && RoundLits(e, n0, ids, a, lits)
    requires ClausesBelow(cs, sel) && n0 + |e.names| <= sel && HasRange(e, r, complete, ids, Ext(e, AsAssignment(known)))
    requires Enumerated(SupersetBlock(n), cs + OtherClauses(known, n, sel), lits + [Pos(sel)], others, 0)
    requires Finished(SupersetBlock(n), cs + OtherClauses(known, n, sel), lits + [Pos(sel)], others)
    ensures OthersOk(e, r, complete, ids, known, others)
  {
    hide Holds, TrueAll, Base, OtherClauses, ClausesBelow, Sat, SupersetBlock, RangeQuery, Ext, AsAssignment, RoundLits, Conservative, Includes, HasRange;
    RoundQuery(e, owner, n, a, r, complete, n0, cs);
    forall j | 0 <= j < |others|
      ensures HasRange(e, r, complete, ids, Ext(e, AsAssignment(others[j]))) && Ext(e, AsAssignment(others[j])) != Ext(e, AsAssignment(known))
    {
      OtherModel(e, owner, n, a, r, complete, n0, cs, ids, lits, known, sel, AsAssignment(others[j]));
    }
    forall i, j | 0 <= i < j < |others| ensures Ext(e, AsAssignment(others[i])) != Ext(e, AsAssignment(others[j])) {
      SupersetBlocked(AsAssignment(others[j]), others[i], n);
      IncludesExt(e, n, AsAssignment(others[j]), others[i]);
    }
    forall s | HasRange(e, r, complete, ids, s) && s != Ext(e, AsAssignment(known))
      ensures exists j :: 0 <= j < |others| && Ext(e, AsAssignment(others[j])) == s
    {
      var m := OtherExt(e, owner, n, a, r, complete, n0, cs, ids, lits, known, sel, s);
      assert !Unblocked(m, SupersetBlock(n), others);
      var i :| 0 <= i < |others| && !Sat(m, Lits(SupersetBlock(n)(others[i])));
      SupersetBlocked(m, others[i], n);
      IncludesExt(e, n, m, others[i]);
      SameRangeSame(e, r, complete, ids, Ext(e, AsAssignment(others[i])), s);
    }
  }

  lemma RoundQuery(e: Enc, owner: seq<Owner>, n: nat, a: seq<Lit>, r: set<Attack>, complete: bool, n0: nat, cs: seq<Clause>)
    requires Round(e, owner, n, a, r, complete, n0, cs)
    ensures ArgVars(e, n)
  {
  }

  lemma SameRangeSame(e: Enc, r: set<Attack>, complete: bool, ids: seq<nat>, s: set<Arg>, t: set<Arg>)
    requires HasRange(e, r, complete, ids, s) && HasRange(e, r, complete, ids, t) && s <= t
    ensures s == t
  {
    hide Base, Range;
    if s != t { AntichainBoth(At(e, r), complete, s, t); }
  }

  /** One round: the other extensions with the range of a reported one. */
  method OthersWithRange(solver: SatFormula, e: Enc, n: nat, a: seq<Lit>, n0: nat, ids: seq<nat>, known: seq<bool>,
                         ghost owner: seq<Owner>, ghost r: set<Attack>, complete: bool) returns (others: seq<seq<bool>>)
    requires solver.Valid() && n0 + |e.names| <= solver.nVars && Round(e, owner, n, a, r, complete, n0, solver.hards)
    requires HasRange(e, r, complete, ids, Ext(e, AsAssignment(known)))
    modifies solver
    ensures solver.Valid() && n0 + |e.names| <= solver.nVars && Round(e, owner, n, a, r, complete, n0, solver.hards)
    ensures OthersOk(e, r, complete, ids, known, others)
  {
    hide Conservative, RangeQuery, HasRange, Blocks, Enumerated, Finished, SupersetBlock, OthersOk, RangeClauses;
    ghost var cs := solver.hards;
    var lits := ExactAssumps(e, n0, ids, a);
    RoundLitsBelow(e, owner, n, a, r, complete, n0, ids, lits);
    OtherBelow(e, owner, n, a, r, complete, known, n0);
    assert lits in [lits];
    var sel := solver.AddSelectedClause(OutClause(known, n));
    solver.AddClause([Neg(sel)] + TrueNegs(known, n));
    assert solver.hards == cs + OtherClauses(known, n, sel);
    SupersetBlocks(n);
    others := solver.ComputeAllModels(SupersetBlock(n), lits + [Pos(sel)], None, n);
    EnumeratedOthers(e, owner, n, a, r, complete, n0, cs, ids, lits, known, sel, others);
    ghost var n2 := sel + 1;
    OtherSelected(known, n, sel);
    ConservativeDone(cs, sel, OtherClauses(known, n, sel), n2, solver.hards);
    solver.AddClause([Neg(sel)]);
    ConservativeTrans(RangeClauses(e, complete, n0), n0 + |e.names|, cs, sel, solver.hards);
  }

  lemma OtherSelected(known: seq<bool>, n: nat, sel: nat)
    ensures forall d :: d in OtherClauses(known, n, sel) ==> Neg(sel) in d
  {
    var cs := OtherClauses(known, n, sel);
    assert cs[0][|OutClause(known, n)|] == Neg(sel) && cs[1][0] == Neg(sel);
  }

  lemma OtherBelow(e: Enc, owner: seq<Owner>, n: nat, a: seq<Lit>, r: set<Attack>, complete: bool, known: seq<bool>, n0: nat)
    requires RangeQuery(e, owner, n, a, r, complete) && n0 == |owner|
    ensures n <= n0 && forall l :: l in OutClause(known, n) || l in TrueNegs(known, n) ==> l.v < n
  {
    forall l | l in OutClause(known, n) || l in TrueNegs(known, n) ensures l.v < n {
      OutClauseHas(known, n, l);
      TrueNegsHas(known, n, l);
    }
  }
}
