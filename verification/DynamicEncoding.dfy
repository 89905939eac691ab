/** Frameworks that change: the models of one encoding, under the assumptions of a step, are the complete
    extensions after replaying the changes up to that step. */
module DynamicEncoding {
  import opened Cnf
  import opened Argumentation
  import opened AttackStore
  import opened Encoding
  import opened EncodingModels
  import opened EncodingBuilder
  import opened Encoders
  import opened Formulas
  import opened GroundedSemantics
  import ModelEnumeration

  /** Values of the first `n` variables that satisfy the clauses and the assumptions. */
  ghost predicate IsVector(n: nat, cs: seq<Clause>, assumps: seq<Lit>, v: seq<bool>) {
    |v| == n && IsModel(AsAssignment(v), TheoryOf(cs), assumps)
  }

  /** The arguments whose variables are true. */
  ghost function Described(names: seq<Arg>, varOf: map<Arg, nat>, v: seq<bool>): set<Arg> {
    set a | a in names && a in varOf && varOf[a] < |v| && v[varOf[a]]
  }

  /** Reading off the true arguments maps the models one-to-one onto the complete extensions. */
  ghost predicate OneToOne(n: nat, cs: seq<Clause>, assumps: seq<Lit>, names: seq<Arg>, varOf: map<Arg, nat>, f: Framework) {
    && (forall v :: IsVector(n, cs, assumps, v) ==> Complete(f, Described(names, varOf, v)))
    && (forall v, w :: IsVector(n, cs, assumps, v) && IsVector(n, cs, assumps, w) && Described(names, varOf, v) == Described(names, varOf, w) ==> v == w)
    && (forall s :: Complete(f, s) ==> exists v :: IsVector(n, cs, assumps, v) && Described(names, varOf, v) == s)
  }

  /** An encoding with the assumptions for the attacks `r`. */
  ghost predicate Selected(e: Enc, owner: seq<Owner>, assumps: seq<Lit>, r: set<Attack>) {
    && AllOwned(e, owner, true) && Declared(e) && Selects(e, r) && Injective(e.names, e.varOf)
    && (forall a :: a in e.names ==> a in e.varOf)
    && forall m: Assignment :: TrueAll(m, assumps) <==> Switched(e, m, r)
  }

  lemma DescribedIs(e: Enc, owner: seq<Owner>, v: seq<bool>)
    requires ArgsOwned(e, owner) && |v| == |owner| && forall a :: a in e.names ==> a in e.varOf
    ensures Described(e.names, e.varOf, v) == Ext(e, AsAssignment(v))
  {
    forall a | a in e.names ensures e.X(a) == e.varOf[a] < |owner| { }
  }

  lemma VectorMeans(e: Enc, owner: seq<Owner>, assumps: seq<Lit>, r: set<Attack>, v: seq<bool>)
    requires Selected(e, owner, assumps, r) && IsVector(|owner|, CompleteEncoding(e), assumps, v)
    ensures Holds(AsAssignment(v), CompleteEncoding(e)) && Holds(AsAssignment(v), AttackedEncoding(e)) && Switched(e, AsAssignment(v), r)
    ensures Described(e.names, e.varOf, v) == Ext(e, AsAssignment(v))
  {
    hide CompleteEncoding, AttackedEncoding, TheoryOf, Holds, Switched, SatAll, Declared, Selects, Described, DynOwned, DisjOwned;
    DescribedIs(e, owner, v);
    HoldsTheory(AsAssignment(v), CompleteEncoding(e));
    CompleteIs(e);
    HoldsPlus(AsAssignment(v), AttackedEncoding(e), CompleteAll(e));
  }

  lemma InjectiveUniform(e: Enc, s: set<Arg>)
    requires Injective(e.names, e.varOf) && forall a :: a in e.names ==> a in e.varOf
    ensures Uniform(e, s)
  {
  }

  lemma VectorComplete(e: Enc, owner: seq<Owner>, assumps: seq<Lit>, r: set<Attack>, v: seq<bool>)
    requires Selected(e, owner, assumps, r) && IsVector(|owner|, CompleteEncoding(e), assumps, v)
    ensures Complete(At(e, r), Described(e.names, e.varOf, v))
  {
    hide CompleteEncoding, AttackedEncoding, Holds, Switched, Complete, IsVector, Uniform, Described, Injective, AllOwned;
    VectorMeans(e, owner, assumps, r, v);
    InjectiveUniform(e, Ext(e, AsAssignment(v)));
    CompleteModels(e, owner, Ext(e, AsAssignment(v)), r);
  }

  lemma VectorUnique(e: Enc, owner: seq<Owner>, assumps: seq<Lit>, r: set<Attack>, v: seq<bool>, w: seq<bool>)
    requires Selected(e, owner, assumps, r)
    requires IsVector(|owner|, CompleteEncoding(e), assumps, v) && IsVector(|owner|, CompleteEncoding(e), assumps, w)
    requires Described(e.names, e.varOf, v) == Described(e.names, e.varOf, w)
    ensures v == w
  {
    hide CompleteEncoding, AttackedEncoding, Holds, Switched, Described, AllOwned, Injective, IsModel;
    VectorMeans(e, owner, assumps, r, v);
    VectorMeans(e, owner, assumps, r, w);
    forall k: nat | k < |owner| ensures v[k] == w[k] {
      OneModel(e, owner, AsAssignment(v), AsAssignment(w), r, k);
      assert AsAssignment(v)(k) == v[k] && AsAssignment(w)(k) == w[k];
    }
  }

  lemma VectorExists(e: Enc, owner: seq<Owner>, assumps: seq<Lit>, r: set<Attack>, s: set<Arg>) returns (v: seq<bool>)
    requires Selected(e, owner, assumps, r) && Complete(At(e, r), s)
    ensures IsVector(|owner|, CompleteEncoding(e), assumps, v) && Described(e.names, e.varOf, v) == s
  {
    hide CompleteEncoding, TheoryOf, Holds, Switched, Complete, Uniform, Described, Injective, AllOwned, Ext, SatAll;
    InjectiveUniform(e, s);
    CompleteModels(e, owner, s, r);
    var m: Assignment :| Holds(m, CompleteEncoding(e)) && Switched(e, m, r) && Ext(e, m) == s;
    v := seq(|owner|, k requires 0 <= k < |owner| => m(k));
    var m' := AsAssignment(v);
    assert ModelEnumeration.Agree(m, m', |owner|);
    EncodingBelow(e, owner);
    ModelEnumeration.HoldsAgree(m, m', |owner|, CompleteEncoding(e));
    HoldsTheory(m', CompleteEncoding(e));
    SameSwitches(e, owner, m, m', r);
    OwnedArgs(e, owner);
    DescribedIs(e, owner, v);
    SameExt(e, owner, m, m');
  }

  lemma OwnedArgs(e: Enc, owner: seq<Owner>)
    requires AllOwned(e, owner, true)
    ensures ArgsOwned(e, owner)
  {
  }

  lemma SameSwitches(e: Enc, owner: seq<Owner>, m: Assignment, m': Assignment, r: set<Attack>)
    requires AllOwned(e, owner, true) && ModelEnumeration.Agree(m, m', |owner|) && Switched(e, m, r)
    ensures Switched(e, m', r)
  {
    forall d | d in e.dyn ensures m'(d.assump) <==> (d.from, d.to) in r {
      var k :| 0 <= k < |e.dyn| && e.dyn[k] == d;
      assert m(d.assump) <==> (d.from, d.to) in r;
    }
  }

  lemma SameExt(e: Enc, owner: seq<Owner>, m: Assignment, m': Assignment)
    requires ArgsOwned(e, owner) && ModelEnumeration.Agree(m, m', |owner|)
    ensures Ext(e, m') == Ext(e, m)
  {
  }

  /** The correspondence, for any initial attacks, any changes and any step of theirs. */
  lemma ModelsAreExtensions(e: Enc, owner: seq<Owner>, assumps: seq<Lit>, r: set<Attack>)
    requires Selected(e, owner, assumps, r)
    ensures OneToOne(|owner|, CompleteEncoding(e), assumps, e.names, e.varOf, At(e, r))
  {
    hide Selected, IsVector, Described, CompleteEncoding, Complete;
    forall v | IsVector(|owner|, CompleteEncoding(e), assumps, v) ensures Complete(At(e, r), Described(e.names, e.varOf, v)) {
      VectorComplete(e, owner, assumps, r, v);
    }
    forall v, w | IsVector(|owner|, CompleteEncoding(e), assumps, v) && IsVector(|owner|, CompleteEncoding(e), assumps, w)
      && Described(e.names, e.varOf, v) == Described(e.names, e.varOf, w) ensures v == w
    {
      VectorUnique(e, owner, assumps, r, v, w);
    }
    forall s | Complete(At(e, r), s) ensures exists v :: IsVector(|owner|, CompleteEncoding(e), assumps, v) && Described(e.names, e.varOf, v) == s {
      var v := VectorExists(e, owner, assumps, r, s);
    }
  }

  /** The complete encoding of a framework that may change. */
  method EncodeComplete(names: seq<Arg>, varOf: map<Arg, nat>, nVars: nat, attacks: Attacks) returns (h: SatEncodingHelper)
    requires InputOk(names, varOf, nVars, attacks)
    ensures fresh(h) && h.names == names && h.varOf == varOf && Encoded(h, attacks, nVars)
    ensures h.clauses == CompleteEncoding(h.EncNow())
  {
    hide AllOwned, Declared, Covers, CompleteEncoding;
    h := EncodeAttacked(names, varOf, nVars, attacks);
    h.CreateCompleteEncodingConstraints();
    CompleteIs(h.EncNow());
  }

  /** From arguments, attacks and changes to clauses and the assumptions of a step. */
  method EncodeStep(names: seq<Arg>, varOf: map<Arg, nat>, nVars: nat, attacks: Attacks, step: int)
    returns (n: nat, clauses: seq<Clause>, assumps: seq<Lit>)
    requires InputOk(names, varOf, nVars, attacks) && Injective(names, varOf) && -1 <= step < |attacks.dynAttacks|
    ensures OneToOne(n, clauses, assumps, names, varOf, FrameworkAfter(names, attacks, step))
  {
    hide AllOwned, Declared, Covers, CompleteEncoding, OneToOne, Switched, Recorded, Selects, Injective, TrueAll, SwitchLit, DynOwned;
    var h := EncodeComplete(names, varOf, nVars, attacks);
    ghost var e, r := h.EncNow(), Replay(attacks.initial, attacks.dynAttacks, step + 1);
    OwnedDyn(e, h.owner);
    ReplaySelects(e, attacks.dynAttacks, attacks.initial, step + 1);
    assumps := h.DynAssumps(step, true);
    ModelsAreExtensions(e, h.owner, assumps, r);
    n, clauses := h.nbVars, h.clauses;
    assert FrameworkAfter(names, attacks, step) == At(e, r);
  }
}
