/** All complete and all stable extensions, by enumeration of models. */
module ExtensionEnumeration {
  import opened Cnf
  import opened Argumentation
  import opened AttackStore
  import opened Encoding
  import opened EncodingModels
  import opened EncodingBuilder
  import opened Encoders
  import opened Formulas
  import opened GroundedSemantics
  import opened PreferredSemantics
  import opened ModelEnumeration

  // ----- the two blocking functions -----

  function Val(model: seq<bool>, v: nat): bool {
    AsAssignment(model)(v)
  }

  /** Blocks the values of the first `n` variables. */
  function ValueBlock(n: nat): seq<bool> -> Clause {
    model => seq(n, i requires 0 <= i < n => Lit(i, Val(model, i)))
  }

  function TrueNegs(model: seq<bool>, n: nat): Clause {
    if n == 0 then [] else TrueNegs(model, n - 1) + if Val(model, n - 1) then [Neg(n - 1)] else []
  }

  /** Blocks every model that sets at least the same of the first `n` variables. */
  function SupersetBlock(n: nat): seq<bool> -> Clause {
    model => TrueNegs(model, n)
  }

  lemma {:induction false} TrueNegsHas(model: seq<bool>, n: nat, l: Lit)
    ensures l in TrueNegs(model, n) <==> l.neg && l.v < n && Val(model, l.v)
  {
    if n > 0 { TrueNegsHas(model, n - 1, l); }
  }

  lemma ValueBlocks(n: nat)
    ensures Blocks(ValueBlock(n), n)
  {
  }

  lemma SupersetBlocks(n: nat)
    ensures Blocks(SupersetBlock(n), n)
  {
    forall model, l | |model| >= n && l in SupersetBlock(n)(model) ensures l.v < n && !True(AsAssignment(model), l) {
      TrueNegsHas(model, n, l);
    }
  }

  lemma ValueBlocked(m: Assignment, model: seq<bool>, n: nat)
    ensures Sat(m, Lits(ValueBlock(n)(model))) <==> !Agree(m, AsAssignment(model), n)
  {
    var c := ValueBlock(n)(model);
    SatIs(m, c);
    forall i | 0 <= i < n ensures c[i] in c && (True(m, c[i]) <==> m(i) != Val(model, i)) { }
    if !Agree(m, AsAssignment(model), n) {
      var v: nat :| v < n && (m(v) != AsAssignment(model)(v));
      assert True(m, c[v]);
    }
  }

  /** Every variable of `model` below `n` is set in `m`. */
  ghost predicate Includes(m: Assignment, model: seq<bool>, n: nat) {
    forall v: nat :: v < n && Val(model, v) ==> m(v)
  }

  lemma SupersetBlocked(m: Assignment, model: seq<bool>, n: nat)
    ensures Sat(m, Lits(SupersetBlock(n)(model))) <==> !Includes(m, model, n)
  {
    var c := SupersetBlock(n)(model);
    SatIs(m, c);
    forall l ensures l in c <==> l.neg && l.v < n && Val(model, l.v) { TrueNegsHas(model, n, l); }
    if !Includes(m, model, n) {
      var v: nat :| v < n && Val(model, v) && !m(v);
      assert Neg(v) in c && True(m, Neg(v));
    }
  }

  // ----- models as sets of arguments -----

  ghost function ModelArgs(names: seq<Arg>, varOf: map<Arg, nat>, model: seq<bool>): set<Arg> {
    Ext(Plain(names, varOf), AsAssignment(model))
  }

  lemma ModelArgsIs(e: Enc, model: seq<bool>)
    ensures ModelArgs(e.names, e.varOf, model) == Ext(e, AsAssignment(model))
  {
    assert forall a :: e.X(a) == Plain(e.names, e.varOf).X(a);
  }

  /** The models describe the sets of `all`, each once. */
  ghost predicate ListsModels(names: seq<Arg>, varOf: map<Arg, nat>, models: seq<seq<bool>>, all: set<set<Arg>>) {
    && (forall j :: 0 <= j < |models| ==> ModelArgs(names, varOf, models[j]) in all)
    && (forall i, j :: 0 <= i < j < |models| ==> ModelArgs(names, varOf, models[i]) != ModelArgs(names, varOf, models[j]))
    && (forall s :: s in all ==> exists j :: 0 <= j < |models| && ModelArgs(names, varOf, models[j]) == s)
  }

  ghost function CompleteExts(f: Framework): set<set<Arg>> {
    set s | s <= f.args && Complete(f, s)
  }

  /** Every variable below `n` belongs to an argument. */
  ghost predicate ArgVars(e: Enc, n: nat) {
    && (forall a :: a in e.names ==> e.X(a) < n)
    && (forall v: nat :: v < n ==> HasArg(e, v))
  }

  ghost predicate HasArg(e: Enc, v: nat) {
    exists a :: a in e.names && e.X(a) == v
  }

  lemma OwnedArgVars(e: Enc, owner: seq<Owner>, n: nat)
    requires ArgsOwned(e, owner) && n <= |owner| && (forall v :: 0 <= v < n ==> owner[v] == OfArg) && forall a :: a in e.names ==> e.X(a) < n
    ensures ArgVars(e, n)
  {
    forall v: nat | v < n ensures HasArg(e, v) { assert owner[v] == OfArg; }
  }

  /** Agreeing on the argument variables is describing the same set. */
  lemma AgreeExt(e: Enc, n: nat, m: Assignment, m': Assignment)
    requires ArgVars(e, n)
    ensures Agree(m, m', n) <==> Ext(e, m) == Ext(e, m')
  {
    if Ext(e, m) == Ext(e, m') {
      forall v: nat | v < n ensures m(v) <==> m'(v) {
        assert HasArg(e, v);
        var a :| a in e.names && e.X(a) == v;
        assert a in Ext(e, m) <==> a in Ext(e, m');
      }
    }
  }

  lemma IncludesExt(e: Enc, n: nat, m: Assignment, model: seq<bool>)
    requires ArgVars(e, n)
    ensures Includes(m, model, n) <==> Ext(e, AsAssignment(model)) <= Ext(e, m)
  {
    if Ext(e, AsAssignment(model)) <= Ext(e, m) {
      forall v: nat | v < n && Val(model, v) ensures m(v) {
        assert HasArg(e, v);
        var a :| a in e.names && e.X(a) == v;
        assert a in Ext(e, AsAssignment(model));
      }
    }
    if Includes(m, model, n) {
      forall a | a in Ext(e, AsAssignment(model)) ensures a in Ext(e, m) { assert Val(model, e.X(a)); }
    }
  }

  // ----- complete extensions -----

  lemma EnumeratedComplete(e: Enc, owner: seq<Owner>, n: nat, a: seq<Lit>, r: set<Attack>, models: seq<seq<bool>>)
    requires Query(e, owner, n, a, r) && Merges(e, At(e, r)) && ArgVars(e, n) && |models| > 0
    requires Ext(e, AsAssignment(models[0])) == Grounded(At(e, r))
    requires Enumerated(ValueBlock(n), CompleteEncoding(e), a, models, 1) && Finished(ValueBlock(n), CompleteEncoding(e), a, models)
    ensures ListsModels(e.names, e.varOf, models, CompleteExts(At(e, r)))
  {
    hide Query, CompleteEncoding, Holds, TheoryOf, TrueAll, Grounded, ArgVars, Merges, Agree, Ext, Complete, ValueBlock, Sat, AsAssignment, ModelArgs;
    var f := At(e, r);
    GroundedLeast(f);
    forall j | 0 <= j < |models|
      ensures ModelArgs(e.names, e.varOf, models[j]) == Ext(e, AsAssignment(models[j])) && Complete(f, Ext(e, AsAssignment(models[j])))
    {
      ModelArgsIs(e, models[j]);
      if j > 0 {
        HoldsTheory(AsAssignment(models[j]), CompleteEncoding(e));
        ModelExt(e, owner, n, a, r, AsAssignment(models[j]));
      }
    }
    forall i, j | 0 <= i < j < |models| ensures ModelArgs(e.names, e.varOf, models[i]) != ModelArgs(e.names, e.varOf, models[j]) {
      ValueBlocked(AsAssignment(models[j]), models[i], n);
      AgreeExt(e, n, AsAssignment(models[j]), AsAssignment(models[i]));
    }
    forall s | s in CompleteExts(f) ensures exists j :: 0 <= j < |models| && ModelArgs(e.names, e.varOf, models[j]) == s {
      MergesUniform(e, f, s);
      var m := ExtModel(e, owner, n, a, r, s);
      HoldsTheory(m, CompleteEncoding(e));
      assert !Unblocked(m, ValueBlock(n), models);
      var i :| 0 <= i < |models| && !Sat(m, Lits(ValueBlock(n)(models[i])));
      ValueBlocked(m, models[i], n);
      AgreeExt(e, n, m, AsAssignment(models[i]));
      assert ModelArgs(e.names, e.varOf, models[i]) == s;
    }
    forall j | 0 <= j < |models| ensures ModelArgs(e.names, e.varOf, models[j]) in CompleteExts(f) { CompleteArgs(f, ModelArgs(e.names, e.varOf, models[j])); }
  }

  lemma MergesUniform(e: Enc, f: Framework, s: set<Arg>)
    requires Merges(e, f) && Complete(f, s)
    ensures Uniform(e, s)
  {
  }

  lemma CompleteArgs(f: Framework, s: set<Arg>)
    requires Complete(f, s)
    ensures s <= f.args
  {
  }

  /** The values of the first `n` variables, true when propagated. */
  method ToBoolModel(propagated: seq<nat>, n: nat) returns (model: seq<bool>)
    ensures |model| == n && forall v: nat :: v < n ==> (model[v] <==> v in propagated)
  {
    model := seq(n, i => false);
    var i := 0;
    while i < |propagated|
      invariant 0 <= i <= |propagated| && |model| == n
      invariant forall v: nat :: v < n ==> (model[v] <==> v in propagated[..i])
    {
      if propagated[i] < n { model := model[propagated[i] := true]; }
      i := i + 1;
    }
    assert propagated[..i] == propagated;
  }

  /** All complete extensions after a step, the propagated one first. */
  method AllComplete(names: seq<Arg>, varOf: map<Arg, nat>, nVars: nat, attacks: Attacks, step: int) returns (models: seq<seq<bool>>)
    requires InputOk(names, varOf, nVars, attacks) && -1 <= step < |attacks.dynAttacks|
    requires Merges(Plain(names, varOf), FrameworkAfter(names, attacks, step))
    ensures ListsModels(names, varOf, models, CompleteExts(FrameworkAfter(names, attacks, step)))
    ensures |models| > 0 && ModelArgs(names, varOf, models[0]) == Grounded(FrameworkAfter(names, attacks, step))
  {
    hide AllOwned, Declared, Covers, CompleteEncoding, TheoryOf, Query, Merges, Grounded, InputOk, Uniform, Blocks, ListsModels, Enumerated, Finished, ValueBlock, Complete, ClausesBelow, ModelArgs, Ext, Conservative;
    ghost var f := FrameworkAfter(names, attacks, step);
    var h, assumps := PreferredQuery(names, varOf, nVars, attacks, step);
    ghost var e, r := h.EncNow(), Replay(attacks.initial, attacks.dynAttacks, step + 1);
    MergesPlain(e, names, varOf, f);
    GroundedUniform(e, f);
    ArgVarsOf(h, attacks, nVars);
    var lits := PropagatedLits(h, nVars, step);
    var propagated := Positives(lits);
    var grExt := ToBoolModel(propagated, nVars);
    BoolModelIsGrounded(e, nVars, lits, propagated, grExt);
    var solver := new SatFormula(h.nbVars, h.clauses);
    ValueBlocks(nVars);
    models := solver.ComputeAllModels(ValueBlock(nVars), assumps, Some(grExt), nVars);
    EnumeratedComplete(e, h.owner, nVars, assumps, r, models);
    ModelArgsIs(e, models[0]);
  }

  lemma ArgVarsOf(h: SatEncodingHelper, attacks: Attacks, n: nat)
    requires Encoded(h, attacks, n)
    ensures ArgVars(h.EncNow(), n)
  {
    OwnedArgVars(h.EncNow(), h.owner, n);
  }

  lemma BoolModelIsGrounded(e: Enc, n: nat, lits: seq<Lit>, propagated: seq<nat>, model: seq<bool>)
    requires ArgVars(e, n) && (forall v :: v in propagated <==> Pos(v) in lits)
    requires |model| == n && forall v: nat :: v < n ==> (model[v] <==> v in propagated)
    ensures Ext(e, AsAssignment(model)) == In(e, Lits(lits))
  {
    forall a | a in e.names ensures a in Ext(e, AsAssignment(model)) <==> a in In(e, Lits(lits)) { }
  }

  // ----- stable extensions -----

  /** Arguments that share a variable belong to the same stable extensions. */
  ghost predicate MergesStable(e: Enc, f: Framework) {
    forall s :: Stable(f, s) ==> Uniform(e, s)
  }

  ghost predicate StableQuery(e: Enc, owner: seq<Owner>, a: seq<Lit>, r: set<Attack>) {
    && AllOwned(e, owner, false) && Selects(e, r) && Declared(e)
    && (forall m: Assignment :: TrueAll(m, a) <==> Switched(e, m, r))
  }

  lemma StableModelExt(e: Enc, owner: seq<Owner>, a: seq<Lit>, r: set<Attack>, m: Assignment)
    requires StableQuery(e, owner, a, r) && Holds(m, StableEncoding(e)) && TrueAll(m, a)
    ensures Stable(At(e, r), Ext(e, m))
  {
    hide AllOwned, Selects, Declared, Switched, Holds, DynMeans, AllDyn, StableAll, TrueAll;
    HoldsPlus(m, AllDyn(e, e.dyn, false), StableAll(e));
    DynHolds(e, m, e.dyn, false);
    DynModelIs(e, m, false);
    StableIff(e, m, r);
  }

  lemma StableExtModel(e: Enc, owner: seq<Owner>, a: seq<Lit>, r: set<Attack>, s: set<Arg>) returns (m: Assignment)
    requires StableQuery(e, owner, a, r) && Stable(At(e, r), s) && Uniform(e, s)
    ensures Holds(m, StableEncoding(e)) && TrueAll(m, a) && Ext(e, m) == s
  {
    hide AllOwned, Selects, Declared, Switched, Holds, StableEncoding, Uniform, TrueAll;
    StableModels(e, owner, s, r);
    m :| Holds(m, StableEncoding(e)) && Switched(e, m, r) && Ext(e, m) == s;
  }

  lemma StableAntichain(f: Framework, s: set<Arg>, t: set<Arg>)
    requires Stable(f, s) && Stable(f, t) && s <= t
    ensures s == t
  {
    forall a | a in t ensures a in s { assert Attacked(f, s, a) ==> Attacked(f, t, a); }
  }

  /** Blocking supersets loses no stable extension. */
  lemma EnumeratedStable(e: Enc, owner: seq<Owner>, n: nat, a: seq<Lit>, r: set<Attack>, models: seq<seq<bool>>)
    requires StableQuery(e, owner, a, r) && MergesStable(e, At(e, r)) && ArgVars(e, n)
    requires Enumerated(SupersetBlock(n), StableEncoding(e), a, models, 0) && Finished(SupersetBlock(n), StableEncoding(e), a, models)
    ensures ListsModels(e.names, e.varOf, models, StableExts(At(e, r)))
  {
    hide StableQuery, StableEncoding, Holds, TrueAll, ArgVars, Ext, Stable, SupersetBlock, Sat, AsAssignment, ModelArgs, Includes, Uniform;
    var f := At(e, r);
    forall j | 0 <= j < |models|
      ensures ModelArgs(e.names, e.varOf, models[j]) == Ext(e, AsAssignment(models[j])) && Stable(f, Ext(e, AsAssignment(models[j])))
    {
      ModelArgsIs(e, models[j]);
      StableModelExt(e, owner, a, r, AsAssignment(models[j]));
    }
    forall i, j | 0 <= i < j < |models| ensures ModelArgs(e.names, e.varOf, models[i]) != ModelArgs(e.names, e.varOf, models[j]) {
      SupersetBlocked(AsAssignment(models[j]), models[i], n);
      IncludesExt(e, n, AsAssignment(models[j]), models[i]);
    }
    forall s | s in StableExts(f) ensures exists j :: 0 <= j < |models| && ModelArgs(e.names, e.varOf, models[j]) == s {
      var m := StableExtModel(e, owner, a, r, s);
      assert !Unblocked(m, SupersetBlock(n), models);
      var i :| 0 <= i < |models| && !Sat(m, Lits(SupersetBlock(n)(models[i])));
      SupersetBlocked(m, models[i], n);
      IncludesExt(e, n, m, models[i]);
      StableAntichain(f, Ext(e, AsAssignment(models[i])), s);
      assert ModelArgs(e.names, e.varOf, models[i]) == s;
    }
    forall j | 0 <= j < |models| ensures ModelArgs(e.names, e.varOf, models[j]) in StableExts(f) { StableArgs(f, ModelArgs(e.names, e.varOf, models[j])); }
  }

  lemma StableArgs(f: Framework, s: set<Arg>)
    requires Stable(f, s)
    ensures s <= f.args
  {
  }

  lemma StableBelow(e: Enc, owner: seq<Owner>)
    requires AllOwned(e, owner, false) && Declared(e)
    ensures ClausesBelow(StableEncoding(e), |owner|)
  {
    hide StableClauses, DynClauses;
    forall a | a in e.names ensures AllBelow(StableClauses(e, a), |owner|) { StableArgBelow(e, owner, a); }
    AllAllBelow(e.names, a => StableClauses(e, a), |owner|);
    StableDynBelow(e, owner, e.dyn);
  }

  lemma StableArgBelow(e: Enc, owner: seq<Owner>, a: Arg)
    requires AllOwned(e, owner, false) && Declared(e) && a in e.names
    ensures AllBelow(StableClauses(e, a), |owner|)
  {
    var n, bs := |owner|, To(e.attacks, a);
    forall b | b in bs ensures e.Attacker(b, a) < n {
      PairsTo(e.attacks, b, a);
      FindMeans(e.dyn, b, a);
      if Find(e.dyn, b, a).Some? {
        var k :| 0 <= k < |e.dyn| && e.dyn[k] == Find(e.dyn, b, a).value;
      }
    }
    StableClausesBelow(e, a, n);
  }

  lemma StableClausesBelow(e: Enc, a: Arg, n: nat)
    requires e.X(a) < n && forall b :: b in To(e.attacks, a) ==> e.Attacker(b, a) < n
    ensures AllBelow(StableClauses(e, a), n)
  {
    var bs := To(e.attacks, a);
    forall l | l in OtherAttackers(e, a, bs) ensures l.v < n { OtherAttackersHas(e, a, bs, l); }
    assert Below([Pos(e.X(a))] + OtherAttackers(e, a, bs), n);
    forall c | c in ExcludeClauses(e, a, bs) ensures Below(c, n) {
      var i :| 0 <= i < |bs| && ExcludeClauses(e, a, bs)[i] == c;
      assert bs[i] in bs;
    }
  }

  lemma {:induction false} StableDynBelow(e: Enc, owner: seq<Owner>, dyn: seq<DynVar>)
    requires AllOwned(e, owner, false) && Declared(e) && forall d :: d in dyn ==> d in e.dyn
    ensures AllBelow(AllDyn(e, dyn, false), |owner|)
  {
    if dyn != [] {
      StableDynBelow(e, owner, dyn[..|dyn| - 1]);
      var d := dyn[|dyn| - 1];
      assert d in dyn;
      var k :| 0 <= k < |e.dyn| && e.dyn[k] == d;
      ReplBelow(e, d, |owner|);
    }
  }

  lemma ReplBelow(e: Enc, d: DynVar, n: nat)
    requires d.fromRepl < n && d.assump < n && e.X(d.from) < n
    ensures AllBelow(DynClauses(e, d, false), n)
  {
    assert DynClauses(e, d, false) == ReplClauses(e, d);
    forall i | 0 <= i < 3 ensures Below(ReplClauses(e, d)[i], n) { }
  }

  lemma FreshOwned(e: Enc, owner: seq<Owner>)
    requires VarMapOk(e.names, e.varOf, |owner|) && (forall v :: 0 <= v < |owner| ==> owner[v] == OfArg) && e.dyn == []
    ensures AllOwned(e, owner, false)
  {
    ArgsOwnedFresh(e, owner);
  }

  lemma OwnedDynStable(e: Enc, owner: seq<Owner>)
    requires AllOwned(e, owner, false)
    ensures DynOwned(e, owner, false) && ArgsOwned(e, owner)
  {
  }

  /** The stable encoding, and the switches of the step. */
  method StableStart(names: seq<Arg>, varOf: map<Arg, nat>, nVars: nat, attacks: Attacks, step: int) returns (h: SatEncodingHelper, assumps: seq<Lit>)
    requires InputOk(names, varOf, nVars, attacks) && -1 <= step < |attacks.dynAttacks|
    ensures fresh(h) && h.names == names && h.varOf == varOf && h.clauses == StableEncoding(h.EncNow()) && nVars <= h.nbVars && h.attacks == attacks
    ensures Covers(h.dynVars, attacks.dynAttacks, |attacks.dynAttacks|)
    ensures StableQuery(h.EncNow(), h.owner, assumps, Replay(attacks.initial, attacks.dynAttacks, step + 1)) && ArgVars(h.EncNow(), nVars)
    ensures ClausesBelow(h.clauses, h.nbVars) && ClausesBelow([assumps], h.nbVars)
  {
    hide AllOwned, Declared, Covers, StableEncoding, ClausesBelow, TrueAll, Switched, ArgVars;
    h := new SatEncodingHelper(names, varOf, nVars, attacks);
    FreshOwned(h.EncNow(), h.owner);
    ghost var owner0 := h.owner;
    h.CreateStableEncodingConstraints();
    ghost var e := h.EncNow();
    assert h.clauses == StableEncoding(e);
    DeclaredEnc(e, attacks.initial, attacks.dynAttacks);
    OwnedDynStable(e, h.owner);
    ReplaySelects(e, attacks.dynAttacks, attacks.initial, step + 1);
    StableBelow(e, h.owner);
    assumps := h.DynAssumps(step, false);
    assert forall v :: 0 <= v < nVars ==> h.owner[v] == owner0[v];
    OwnedArgVars(e, h.owner, nVars);
    OneBelow(assumps, h.nbVars);
  }

  /** All stable extensions after a step. */
  method AllStable(names: seq<Arg>, varOf: map<Arg, nat>, nVars: nat, attacks: Attacks, step: int) returns (models: seq<seq<bool>>)
    requires InputOk(names, varOf, nVars, attacks) && -1 <= step < |attacks.dynAttacks|
    requires MergesStable(Plain(names, varOf), FrameworkAfter(names, attacks, step))
    ensures ListsModels(names, varOf, models, StableExts(FrameworkAfter(names, attacks, step)))
  {
    hide StableEncoding, StableQuery, ArgVars, MergesStable, Blocks, ListsModels, Enumerated, Finished, SupersetBlock, ClausesBelow, Conservative, InputOk;
    ghost var f := FrameworkAfter(names, attacks, step);
    var h, assumps := StableStart(names, varOf, nVars, attacks, step);
    ghost var e := h.EncNow();
    MergesStablePlain(e, names, varOf, f);
    var solver := new SatFormula(h.nbVars, h.clauses);
    SupersetBlocks(nVars);
    models := solver.ComputeAllModels(SupersetBlock(nVars), assumps, None, nVars);
    EnumeratedStable(e, h.owner, nVars, assumps, Replay(attacks.initial, attacks.dynAttacks, step + 1), models);
  }

  lemma OneBelow(c: Clause, n: nat)
    requires forall l :: l in c ==> l.v < n
    ensures ClausesBelow([c], n)
  {
  }

  lemma MergesStablePlain(e: Enc, names: seq<Arg>, varOf: map<Arg, nat>, f: Framework)
    requires e.names == names && e.varOf == varOf && MergesStable(Plain(names, varOf), f)
    ensures MergesStable(e, f)
  {
    forall s | Stable(f, s) ensures Uniform(e, s) {
      assert Uniform(Plain(names, varOf), s);
      assert forall a :: e.X(a) == Plain(names, varOf).X(a);
    }
  }
}
