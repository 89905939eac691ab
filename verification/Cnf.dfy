/** Literals, clauses and their meaning under total truth assignments. */
module Cnf {
  datatype Option<+T> = None | Some(value: T)

  /** A literal: variable `v`, negated when `neg`. */
  datatype Lit = Lit(v: nat, neg: bool) {
    function Not(): Lit {
      Lit(v, !neg)
    }
  }

  type Clause = seq<Lit>

  type Assignment = nat -> bool

  function Lits(c: Clause): set<Lit> {
    set l | l in c
  }

  predicate True(m: Assignment, l: Lit) {
    m(l.v) != l.neg
  }

  /** Some literal of `ls` is true under `m`. */
  ghost predicate Sat(m: Assignment, ls: set<Lit>) {
    exists l :: l in ls && True(m, l)
  }

  ghost predicate SatAll(m: Assignment, theory: set<set<Lit>>) {
    forall c :: c in theory ==> Sat(m, c)
  }

  /** A list of numbers below `n`, each once. */
  ghost predicate EachOnce(ids: seq<nat>, n: nat) {
    (forall v :: v in ids ==> v < n) && forall i, j :: 0 <= i < j < |ids| ==> ids[i] != ids[j]
  }

  /** Every literal of the sequence is true under `m`. */
  ghost predicate TrueAll(m: Assignment, ls: seq<Lit>) {
    forall l :: l in ls ==> True(m, l)
  }

  /** The disjunction `ls` holds in every model of `theory`. */
  ghost predicate Entails(theory: set<set<Lit>>, ls: set<Lit>) {
    forall m: Assignment :: SatAll(m, theory) ==> Sat(m, ls)
  }

  ghost predicate IsModel(m: Assignment, theory: set<set<Lit>>, assumps: seq<Lit>) {
    SatAll(m, theory) && TrueAll(m, assumps)
  }

  ghost predicate Satisfiable(theory: set<set<Lit>>, assumps: seq<Lit>) {
    exists m: Assignment :: IsModel(m, theory, assumps)
  }

  predicate DistinctVars(c: Clause) {
    forall i, j :: 0 <= i < j < |c| ==> c[i].v != c[j].v
  }

  lemma EntailsWeaken(theory: set<set<Lit>>, small: set<Lit>, big: set<Lit>)
    requires Entails(theory, small) && small <= big
    ensures Entails(theory, big)
  {
    forall m: Assignment | SatAll(m, theory) ensures Sat(m, big) {
      assert Sat(m, small);
    }
  }

  lemma EntailsMore(theory: set<set<Lit>>, c: set<Lit>, ls: set<Lit>)
    requires Entails(theory, ls)
    ensures Entails(theory + {c}, ls)
  {
    forall m: Assignment | SatAll(m, theory + {c}) ensures Sat(m, ls) {
      assert SatAll(m, theory) by {
        forall d | d in theory ensures Sat(m, d) { assert d in theory + {c}; }
      }
    }
  }

  /** Literals whose negation is entailed can be dropped from an entailed disjunction. */
  lemma EntailsDrop(theory: set<set<Lit>>, ls: set<Lit>, kept: set<Lit>)
    requires Entails(theory, ls)
    requires forall l :: l in ls ==> l in kept || Entails(theory, {l.Not()})
    ensures Entails(theory, kept)
  {
    forall m: Assignment | SatAll(m, theory) ensures Sat(m, kept) {
      var l :| l in ls && True(m, l);
      assert l !in kept ==> Sat(m, {l.Not()});
    }
  }

  /** The literals `t` leave no clause with all literals false, and none with a single literal
      that is not false and no true one. */
  ghost predicate UnitClosed(theory: set<set<Lit>>, t: set<Lit>) {
    forall c :: c in theory ==>
      || (exists l :: l in c && (l in t || l.Not() in c))
      || (exists a, b :: a in c && b in c && a != b && a.Not() !in t && b.Not() !in t)
  }

  /** Each of `ls` holds in every model of the theory and the assumptions. */
  ghost predicate Forced(theory: set<set<Lit>>, assumps: seq<Lit>, ls: set<Lit>) {
    forall m: Assignment, l :: IsModel(m, theory, assumps) && l in ls ==> True(m, l)
  }

  /** The truth assignment read off a vector of values; variables outside it count as true. */
  function AsAssignment(model: seq<bool>): Assignment {
    (v: nat) => if v < |model| then model[v] else true
  }

  /** The values `model` satisfy the theory and the assumptions. */
  ghost predicate Models(model: seq<bool>, theory: set<set<Lit>>, assumps: seq<Lit>) {
    IsModel(AsAssignment(model), theory, assumps)
  }

  lemma ModelsSatisfy(model: seq<bool>, theory: set<set<Lit>>, assumps: seq<Lit>)
    requires Models(model, theory, assumps)
    ensures Satisfiable(theory, assumps)
  {
  }

  lemma ModelsMeans(model: seq<bool>, theory: set<set<Lit>>, assumps: seq<Lit>)
    requires Models(model, theory, assumps)
    ensures IsModel(AsAssignment(model), theory, assumps)
  {
  }
}
