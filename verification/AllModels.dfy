/** Enumeration of all models by blocking clauses that can be switched off again. */
module ModelEnumeration {
  import opened Cnf
  import opened Encoding
  import opened Formulas
  import opened CdclSolver
  import opened GroundedSemantics

  ghost predicate Agree(m: Assignment, m': Assignment, n: nat) {
    forall v: nat :: v < n ==> (m(v) <==> m'(v))
  }

  lemma SatAgree(m: Assignment, m': Assignment, n: nat, c: Clause)
    requires Agree(m, m', n) && forall l :: l in c ==> l.v < n
    ensures Sat(m, Lits(c)) <==> Sat(m', Lits(c))
  {
    SatIs(m, c);
    SatIs(m', c);
    forall l | l in c ensures True(m, l) <==> True(m', l) { }
  }

  lemma HoldsAgree(m: Assignment, m': Assignment, n: nat, cs: seq<Clause>)
    requires Agree(m, m', n) && ClausesBelow(cs, n)
    ensures Holds(m, cs) <==> Holds(m', cs)
  {
    forall c | c in cs ensures Sat(m, Lits(c)) <==> Sat(m', Lits(c)) { SatAgree(m, m', n, c); }
  }

  /** `cs` restricts the first `n` variables exactly as `base` does. */
  ghost predicate Conservative(base: seq<Clause>, n: nat, cs: seq<Clause>) {
    && (forall m: Assignment :: Holds(m, cs) ==> Holds(m, base))
    && (forall m: Assignment :: Holds(m, base) ==> Extendable(m, n, cs))
  }

  ghost predicate Extendable(m: Assignment, n: nat, cs: seq<Clause>) {
    exists m': Assignment :: Agree(m, m', n) && Holds(m', cs)
  }

  lemma ConservativeSame(base: seq<Clause>, n: nat)
    ensures Conservative(base, n, base)
  {
    forall m: Assignment | Holds(m, base) ensures Extendable(m, n, base) { assert Agree(m, m, n); }
  }

  lemma ExtendMore(m: Assignment, n: nat, cs: seq<Clause>, n': nat, ds: seq<Clause>)
    requires Extendable(m, n, cs) && n <= n' && forall m': Assignment :: Holds(m', cs) ==> Extendable(m', n', ds)
    ensures Extendable(m, n, ds)
  {
    hide Holds;
    var m': Assignment :| Agree(m, m', n) && Holds(m', cs);
    assert Extendable(m', n', ds);
    var m'': Assignment :| Agree(m', m'', n') && Holds(m'', ds);
    assert Agree(m, m'', n);
  }

  lemma ConservativeTrans(base: seq<Clause>, n: nat, cs: seq<Clause>, n': nat, ds: seq<Clause>)
    requires Conservative(base, n, cs) && Conservative(cs, n', ds) && n <= n'
    ensures Conservative(base, n, ds)
  {
    hide Holds, Extendable, Agree;
    forall m: Assignment | Holds(m, base) ensures Extendable(m, n, ds) {
      ExtendMore(m, n, cs, n', ds);
    }
  }

  ghost function With(m: Assignment, v: nat, b: bool): Assignment {
    (u: nat) => if u == v then b else m(u)
  }

  /** Clauses that a new selector switches on: with the selector off nothing changes. */
  lemma ConservativeSelected(base: seq<Clause>, n: nat, ds: seq<Clause>)
    requires ClausesBelow(base, n)
    requires forall d :: d in ds ==> Neg(n) in d
    ensures Conservative(base, n, base + ds)
  {
    forall m: Assignment | Holds(m, base + ds) ensures Holds(m, base) { HoldsPlus(m, base, ds); }
    forall m: Assignment | Holds(m, base) ensures Extendable(m, n, base + ds) {
      var m' := With(m, n, false);
      HoldsAgree(m, m', n, base);
      forall d | d in ds ensures Sat(m', Lits(d)) { SatIs(m', d); assert True(m', Neg(n)); }
      HoldsPlus(m', base, ds);
      assert Agree(m, m', n);
    }
  }

  // ----- blocking -----

  /** The clause blocking a model mentions the first `n` variables only, and the model falsifies it. */
  ghost predicate Blocks(block: seq<bool> -> Clause, n: nat) {
    forall model :: |model| >= n ==> (forall l :: l in block(model) ==> l.v < n && !True(AsAssignment(model), l))
  }

  /** `m` satisfies the clauses blocking the models. */
  ghost predicate Unblocked(m: Assignment, block: seq<bool> -> Clause, models: seq<seq<bool>>) {
    forall i :: 0 <= i < |models| ==> Sat(m, Lits(block(models[i])))
  }

  /** What an enumeration reports: models of the clauses and the assumptions, each satisfying the blocks
      of the earlier ones, until no such model is left. */
  ghost predicate Enumerated(block: seq<bool> -> Clause, cs: seq<Clause>, a: seq<Lit>, models: seq<seq<bool>>, first: nat) {
    && (forall i :: first <= i < |models| ==> Holds(AsAssignment(models[i]), cs) && TrueAll(AsAssignment(models[i]), a))
    && (forall i, j :: 0 <= i < j < |models| && first <= j ==> Sat(AsAssignment(models[j]), Lits(block(models[i]))))
  }

  ghost predicate Finished(block: seq<bool> -> Clause, cs: seq<Clause>, a: seq<Lit>, models: seq<seq<bool>>) {
    forall m: Assignment :: Holds(m, cs) && TrueAll(m, a) ==> !Unblocked(m, block, models)
  }

  /** Clauses and assumptions with a switched-on blocking clause per model. */
  ghost predicate Blocking(block: seq<bool> -> Clause, cs: seq<Clause>, n: nat, a: seq<Lit>, models: seq<seq<bool>>, cs': seq<Clause>, a': seq<Lit>) {
    && cs' == cs + BlockClauses(block, n, models) && a' == a + Sels(n, |models|)
  }

  ghost function BlockClauses(block: seq<bool> -> Clause, n: nat, models: seq<seq<bool>>): seq<Clause> {
    seq(|models|, i requires 0 <= i < |models| => block(models[i]) + [Neg(n + i)])
  }

  ghost function Sels(n: nat, k: nat): seq<Lit> {
    seq(k, i requires 0 <= i < k => Pos(n + i))
  }

  lemma SatPlus(m: Assignment, c: Clause, l: Lit)
    ensures Sat(m, Lits(c + [l])) <==> Sat(m, Lits(c)) || True(m, l)
  {
    SatIs(m, c);
    SatIs(m, c + [l]);
    assert (c + [l])[|c|] == l;
    forall q ensures q in c + [l] <==> q in c || q == l { }
  }

  lemma TrueAllPlus(m: Assignment, a: seq<Lit>, b: seq<Lit>)
    ensures TrueAll(m, a + b) <==> TrueAll(m, a) && TrueAll(m, b)
  {
  }

  predicate On(m: Assignment, n: nat, i: nat) {
    m(n + i)
  }

  lemma TrueSels(m: Assignment, n: nat, k: nat)
    ensures TrueAll(m, Sels(n, k)) <==> forall i: nat :: i < k ==> On(m, n, i)
  {
    var s := Sels(n, k);
    forall i: nat | i < k ensures s[i] == Pos(n + i) && s[i] in s { }
    if TrueAll(m, s) {
      forall i: nat | i < k ensures On(m, n, i) { assert s[i] in s; }
    }
    if forall i: nat :: i < k ==> On(m, n, i) {
      forall l | l in s ensures True(m, l) {
        var i: nat :| i < k && s[i] == l;
        assert On(m, n, i);
      }
    }
  }

  /** With the selectors on, the switched clauses are the blocking clauses. */
  lemma BlockedHolds(block: seq<bool> -> Clause, n: nat, models: seq<seq<bool>>, m: Assignment)
    requires forall i: nat :: i < |models| ==> On(m, n, i)
    ensures Holds(m, BlockClauses(block, n, models)) <==> Unblocked(m, block, models)
  {
    var bs := BlockClauses(block, n, models);
    forall i: nat | i < |models| ensures Sat(m, Lits(bs[i])) <==> Sat(m, Lits(block(models[i]))) {
      SatPlus(m, block(models[i]), Neg(n + i));
      assert On(m, n, i);
    }
    forall i: nat | i < |models| ensures bs[i] in bs { }
    if Holds(m, bs) {
      forall i | 0 <= i < |models| ensures Sat(m, Lits(block(models[i]))) { assert Sat(m, Lits(bs[i])); }
    }
    if Unblocked(m, block, models) {
      forall c | c in bs ensures Sat(m, Lits(c)) { var i: nat :| i < |bs| && bs[i] == c; }
    }
  }

  /** A model of the switched clauses is a model that no earlier report blocks. */
  lemma ModelUnblocked(block: seq<bool> -> Clause, cs: seq<Clause>, n: nat, a: seq<Lit>, models: seq<seq<bool>>, cs': seq<Clause>, a': seq<Lit>, m: Assignment)
    requires Blocking(block, cs, n, a, models, cs', a') && Holds(m, cs') && TrueAll(m, a')
    ensures Holds(m, cs) && TrueAll(m, a) && Unblocked(m, block, models)
  {
    hide Holds, TrueAll;
    HoldsPlus(m, cs, BlockClauses(block, n, models));
    TrueAllPlus(m, a, Sels(n, |models|));
    TrueSels(m, n, |models|);
    BlockedHolds(block, n, models, m);
  }

  /** And every such model can be extended by the selectors. */
  lemma UnblockedModel(block: seq<bool> -> Clause, cs: seq<Clause>, n: nat, a: seq<Lit>, models: seq<seq<bool>>, cs': seq<Clause>, a': seq<Lit>, m: Assignment, b: nat)
    requires Blocking(block, cs, n, a, models, cs', a') && ClausesBelow(cs, n) && ClausesBelow([a], n) && Blocks(block, b) && b <= n
    requires forall i :: 0 <= i < |models| ==> |models[i]| >= b
    requires Holds(m, cs) && TrueAll(m, a) && Unblocked(m, block, models)
    ensures Satisfiable(TheoryOf(cs'), a')
  {
    hide Holds, TheoryOf, TrueAll, Blocks;
    var m': Assignment := (v: nat) => v >= n || m(v);
    assert Agree(m, m', n);
    HoldsAgree(m, m', n, cs);
    TrueAllAgree(m, m', n, a);
    forall i | 0 <= i < |models| ensures Sat(m', Lits(block(models[i]))) {
      BlockBelow(block, b, models[i]);
      SatAgree(m, m', n, block(models[i]));
    }
    BlockedHolds(block, n, models, m');
    HoldsPlus(m', cs, BlockClauses(block, n, models));
    TrueAllPlus(m', a, Sels(n, |models|));
    TrueSels(m', n, |models|);
    HoldsTheory(m', cs');
    assert IsModel(m', TheoryOf(cs'), a');
  }

  lemma BlockBelow(block: seq<bool> -> Clause, b: nat, model: seq<bool>)
    requires Blocks(block, b) && |model| >= b
    ensures forall l :: l in block(model) ==> l.v < b && !True(AsAssignment(model), l)
  {
  }

  lemma TrueAllAgree(m: Assignment, m': Assignment, n: nat, a: seq<Lit>)
    requires Agree(m, m', n) && ClausesBelow([a], n)
    ensures TrueAll(m, a) <==> TrueAll(m', a)
  {
    assert a in [a];
    forall l | l in a ensures True(m, l) <==> True(m', l) { }
  }

  lemma BlockingNext(block: seq<bool> -> Clause, cs: seq<Clause>, n: nat, a: seq<Lit>, models: seq<seq<bool>>, cs': seq<Clause>, a': seq<Lit>, model: seq<bool>)
    requires Blocking(block, cs, n, a, models, cs', a')
    ensures Blocking(block, cs, n, a, models + [model], cs' + [block(model) + [Neg(n + |models|)]], a' + [Pos(n + |models|)])
  {
    var models' := models + [model];
    assert BlockClauses(block, n, models') == BlockClauses(block, n, models) + [block(model) + [Neg(n + |models|)]];
    assert Sels(n, |models'|) == Sels(n, |models|) + [Pos(n + |models|)];
  }

  // ----- distinct projections, for termination -----

  ghost function Vectors(n: nat): set<seq<bool>> {
    if n == 0 then {[]} else (set s | s in Vectors(n - 1) :: s + [false]) + (set s | s in Vectors(n - 1) :: s + [true])
  }

  lemma {:induction false} VectorsAll(s: seq<bool>)
    ensures s in Vectors(|s|)
  {
    if |s| > 0 {
      var t := s[..|s| - 1];
      VectorsAll(t);
      assert s == t + [s[|s| - 1]] && |t| == |s| - 1;
      if s[|s| - 1] {
        assert s == t + [true];
      } else {
        assert s == t + [false];
      }
    }
  }

  ghost function Seen(models: seq<seq<bool>>, b: nat): set<seq<bool>> {
    set i | 0 <= i < |models| && |models[i]| >= b :: models[i][..b]
  }

  /** A model that no report blocks has a new projection. */
  lemma NewProjection(block: seq<bool> -> Clause, b: nat, models: seq<seq<bool>>, model: seq<bool>)
    requires Blocks(block, b) && |model| >= b && (forall i :: 0 <= i < |models| ==> |models[i]| >= b)
    requires Unblocked(AsAssignment(model), block, models)
    ensures model[..b] in Vectors(b) && model[..b] !in Seen(models, b)
  {
    VectorsAll(model[..b]);
    forall i | 0 <= i < |models| ensures models[i][..b] != model[..b] {
      var c := block(models[i]);
      SatIs(AsAssignment(model), c);
      assert Sat(AsAssignment(model), Lits(c));
      var l :| l in c && True(AsAssignment(model), l);
      BlockBelow(block, b, models[i]);
      assert l.v < b && model[l.v] == model[..b][l.v] && models[i][l.v] == models[i][..b][l.v];
      assert model[l.v] != models[i][l.v];
    }
  }

  lemma SeenMore(models: seq<seq<bool>>, b: nat, model: seq<bool>)
    requires |model| >= b
    ensures Seen(models + [model], b) == Seen(models, b) + {model[..b]}
  {
    var models' := models + [model];
    assert models'[|models|] == model;
    forall x | x in Seen(models, b) ensures x in Seen(models', b) {
      var i :| 0 <= i < |models| && |models[i]| >= b && models[i][..b] == x;
      assert models'[i] == models[i];
    }
  }

  // ----- the solver -----

  class SatFormula {
    var nVars: nat
    var hards: seq<Clause>

    constructor (n: nat, cs: seq<Clause>)
      requires ClausesBelow(cs, n)
      ensures nVars == n && hards == cs && Valid()
    {
      nVars, hards := n, cs;
    }

    predicate Valid()
      reads this
    {
      ClausesBelow(hards, nVars)
    }

    method AddClause(c: Clause)
      requires Valid() && forall l :: l in c ==> l.v < nVars
      modifies this`hards
      ensures Valid() && hards == old(hards) + [c]
    {
      hards := hards + [c];
    }

    /** Adds a clause that holds only while the new variable is true. */
    method AddSelectedClause(c: Clause) returns (sel: nat)
      requires Valid() && forall l :: l in c ==> l.v < nVars
      modifies this
      ensures Valid() && sel == old(nVars) && nVars == sel + 1 && hards == old(hards) + [c + [Neg(sel)]]
      ensures Conservative(old(hards), sel, hards)
    {
      ConservativeSelected(hards, nVars, [c + [Neg(nVars)]]);
      sel := nVars;
      nVars := nVars + 1;
      hards := hards + [c + [Neg(sel)]];
    }

    method ComputeModel(assumps: seq<Lit>) returns (model: Option<seq<bool>>)
      requires Valid() && ClausesBelow([assumps], nVars)
      ensures model.Some? <==> Satisfiable(TheoryOf(hards), assumps)
      ensures model.Some? ==> |model.value| == nVars && Holds(AsAssignment(model.value), hards) && TrueAll(AsAssignment(model.value), assumps)
    {
      hide Solver.Idle, TheoryOf, Satisfiable;
      var slv := BuildSolver(nVars, hards);
      assert assumps in [assumps];
      var sat := slv.Solve(assumps);
      if sat {
        ModelsMeans(slv.model, slv.theory, assumps);
        HoldsTheory(AsAssignment(slv.model), hards);
        return Some(slv.model);
      }
      return None;
    }

    /** Adds one more blocking clause, for `model`. */
    method Block(block: seq<bool> -> Clause, model: seq<bool>, assumps0: seq<Lit>, ghost b: nat, ghost cs: seq<Clause>, ghost n: nat, ghost a: seq<Lit>,
                 ghost models: seq<seq<bool>>) returns (assumps: seq<Lit>)
      requires Valid() && Blocks(block, b) && b <= nVars && |model| >= b && nVars == n + |models|
      requires Blocking(block, cs, n, a, models, hards, assumps0) && ClausesBelow([assumps0], nVars)
      modifies this
      ensures Valid() && nVars == old(nVars) + 1
      ensures Blocking(block, cs, n, a, models + [model], hards, assumps) && ClausesBelow([assumps], nVars)
    {
      hide Blocking;
      BlockBelow(block, b, model);
      BlockingNext(block, cs, n, a, models, hards, assumps0, model);
      var sel := AddSelectedClause(block(model));
      assumps := assumps0 + [Pos(sel)];
      assert assumps0 in [assumps0];
    }

    /** Reports every model under the assumptions up to the blocking function, starting from `known`
        when it is given, and leaves the formula meaning what it did. */
    method ComputeAllModels(block: seq<bool> -> Clause, a: seq<Lit>, known: Option<seq<bool>>, ghost b: nat) returns (models: seq<seq<bool>>)
      requires Valid() && ClausesBelow([a], nVars) && Blocks(block, b) && b <= nVars && (known.Some? ==> |known.value| >= b)
      modifies this
      ensures Valid() && nVars >= old(nVars) && Conservative(old(hards), old(nVars), hards)
      ensures known.Some? ==> |models| > 0 && models[0] == known.value
      ensures forall i :: 0 <= i < |models| ==> |models[i]| >= b
      ensures Enumerated(block, old(hards), a, models, if known.Some? then 1 else 0) && Finished(block, old(hards), a, models)
    {
      hide Holds, TheoryOf, Satisfiable, Conservative, TrueAll, Blocks, Blocking, ClausesBelow, Unblocked, Seen;
      ghost var cs := hards;
      var n := nVars;
      ghost var first := if known.Some? then 1 else 0;
      models := [];
      var assumps := a;
      NothingBlocked(block, cs, n, a);
      assert Valid();
      if known.Some? {
        assumps := Block(block, known.value, assumps, b, cs, n, a, models);
        models := models + [known.value];
      }
      var more := true;
      while more
        invariant Valid() && nVars == n + |models| && (known.Some? ==> |models| > 0 && models[0] == known.value)
        invariant Blocking(block, cs, n, a, models, hards, assumps) && ClausesBelow([assumps], nVars)
        invariant forall i :: 0 <= i < |models| ==> |models[i]| >= b
        invariant Enumerated(block, cs, a, models, first)
        invariant more || !Satisfiable(TheoryOf(hards), assumps)
        decreases Vectors(b) - Seen(models, b), more
      {
        var model := ComputeModel(assumps);
        if model.None? {
          more := false;
        } else {
          ModelUnblocked(block, cs, n, a, models, hards, assumps, AsAssignment(model.value));
          NewProjection(block, b, models, model.value);
          SeenMore(models, b, model.value);
          EnumeratedMore(block, cs, a, models, first, model.value);
          assumps := Block(block, model.value, assumps, b, cs, n, a, models);
          models := models + [model.value];
        }
      }
      forall m: Assignment | Holds(m, cs) && TrueAll(m, a) ensures !Unblocked(m, block, models) {
        if Unblocked(m, block, models) { UnblockedModel(block, cs, n, a, models, hards, assumps, m, b); }
      }
      SwitchOff(block, cs, a, models, assumps, n, b);
    }

    /** Switches all blocking clauses off. */
    method SwitchOff(block: seq<bool> -> Clause, ghost cs: seq<Clause>, ghost a: seq<Lit>, models: seq<seq<bool>>, ghost assumps: seq<Lit>, n: nat, ghost b: nat)
      requires Valid() && nVars == n + |models| && Blocking(block, cs, n, a, models, hards, assumps) && ClausesBelow(cs, n)
      modifies this`hards
      ensures Valid() && Conservative(cs, n, hards)
    {
      var i := 0;
      while i < |models|
        invariant 0 <= i <= |models| && Valid()
        invariant hards == old(hards) + OffClauses(n, i)
      {
        AddClause([Neg(n + i)]);
        assert OffClauses(n, i + 1) == OffClauses(n, i) + [[Neg(n + i)]];
        i := i + 1;
      }
      ConservativeOff(block, cs, n, models, hards);
    }
  }

  ghost function OffClauses(n: nat, k: nat): seq<Clause> {
    seq(k, i requires 0 <= i < k => [Neg(n + i)])
  }

  lemma ConservativeOff(block: seq<bool> -> Clause, cs: seq<Clause>, n: nat, models: seq<seq<bool>>, hards: seq<Clause>)
    requires ClausesBelow(cs, n) && hards == cs + BlockClauses(block, n, models) + OffClauses(n, |models|)
    ensures Conservative(cs, n, hards)
  {
    var bs, os := BlockClauses(block, n, models), OffClauses(n, |models|);
    assert hards == cs + (bs + os);
    forall m: Assignment | Holds(m, hards) ensures Holds(m, cs) { HoldsPlus(m, cs, bs + os); }
    forall m: Assignment | Holds(m, cs) ensures Extendable(m, n, hards) {
      var m': Assignment := (v: nat) => v < n && m(v);
      assert Agree(m, m', n);
      HoldsAgree(m, m', n, cs);
      forall c | c in bs + os ensures Sat(m', Lits(c)) {
        SatIs(m', c);
        if c in bs {
          var i: nat :| i < |bs| && bs[i] == c;
          assert c[|block(models[i])|] == Neg(n + i) && True(m', Neg(n + i));
        } else {
          var i: nat :| i < |os| && os[i] == c;
          assert c[0] == Neg(n + i) && True(m', Neg(n + i));
        }
      }
      HoldsPlus(m', cs, bs + os);
    }
  }

  lemma NothingBlocked(block: seq<bool> -> Clause, cs: seq<Clause>, n: nat, a: seq<Lit>)
    ensures Blocking(block, cs, n, a, [], cs, a)
  {
    assert BlockClauses(block, n, []) == [] && Sels(n, 0) == [];
  }

  lemma EnumeratedMore(block: seq<bool> -> Clause, cs: seq<Clause>, a: seq<Lit>, models: seq<seq<bool>>, first: nat, model: seq<bool>)
    requires Enumerated(block, cs, a, models, first)
    requires Holds(AsAssignment(model), cs) && TrueAll(AsAssignment(model), a) && Unblocked(AsAssignment(model), block, models)
    ensures Enumerated(block, cs, a, models + [model], first)
  {
    hide Holds, TrueAll, Sat;
  }
}
