/** Merging arguments that unit propagation shows to be equivalent, before the real encoding is built. */
module ProblemReducer {
  import opened Cnf
  import opened Argumentation
  import opened AttackStore
  import opened Encoding
  import opened EncodingModels
  import opened EncodingBuilder
  import opened Encoders
  import opened Formulas
  import opened Derivation
  import opened CdclSolver
  import opened GroundedSemantics
  import opened ExtensionWorklist
  import opened PreferredSemantics
  import opened ExtensionEnumeration
  import opened RangeSemantics
  import opened RangeBasedSolver
  import opened TriathlonSolver

  // ----- equivalence of variables -----

  /** Every model of the clauses that sets `u` sets `v`. */
  ghost predicate Implies(cs: seq<Clause>, u: nat, v: nat) {
    forall m: Assignment :: Holds(m, cs) && m(u) ==> m(v)
  }

  ghost predicate Equivalent(cs: seq<Clause>, u: nat, v: nat) {
    forall m: Assignment :: Holds(m, cs) ==> (m(u) <==> m(v))
  }

  /** Unit resolution derives `v` from `u`: it is in every set with `u` that is closed under the clauses. */
  ghost predicate Leads(cs: seq<Clause>, u: nat, v: nat) {
    Derived(TheoryOf(cs), [Pos(u)], {Pos(v)})
  }

  ghost predicate Mutual(cs: seq<Clause>, u: nat, v: nat) {
    Leads(cs, u, v) && Leads(cs, v, u)
  }

  /** Unit resolution meets a conflict when `u` is set. */
  ghost predicate Clashing(cs: seq<Clause>, u: nat) {
    UnitConflict(TheoryOf(cs), [Pos(u)])
  }

  /** Unit resolution gives `u` a value. */
  ghost predicate Sets(cs: seq<Clause>, u: nat, neg: bool) {
    Derived(TheoryOf(cs), [], {Lit(u, neg)})
  }

  lemma LeadsIn(cs: seq<Clause>, u: nat, v: nat, ts: iset<Lit>)
    requires Leads(cs, u, v) && ClosedAll(ts, TheoryOf(cs)) && Pos(u) in ts
    ensures Pos(v) in ts
  {
    hide ClosedAll, TheoryOf;
    assert Pos(v) in {Pos(v)};
  }

  lemma LeadsTrans(cs: seq<Clause>, u: nat, v: nat, w: nat)
    requires Leads(cs, u, v) && Leads(cs, v, w)
    ensures Leads(cs, u, w)
  {
    hide ClosedAll, TheoryOf;
    forall ts: iset<Lit> | ClosedAll(ts, TheoryOf(cs)) && (forall l :: l in [Pos(u)] ==> l in ts) ensures forall l :: l in {Pos(w)} ==> l in ts {
      assert Pos(u) in [Pos(u)];
      LeadsIn(cs, u, v, ts);
      LeadsIn(cs, v, w, ts);
    }
  }

  lemma MutualTrans(cs: seq<Clause>, u: nat, v: nat, w: nat)
    requires Mutual(cs, v, u) && Mutual(cs, v, w)
    ensures Mutual(cs, u, w) && Mutual(cs, w, u) && Mutual(cs, u, v)
  {
    hide Leads;
    LeadsTrans(cs, u, v, w);
    LeadsTrans(cs, w, v, u);
  }

  lemma LeadsSelf(cs: seq<Clause>, u: nat)
    ensures Mutual(cs, u, u)
  {
    assert Pos(u) in [Pos(u)];
  }

  /** Variables that derive each other meet a conflict together. */
  lemma MutualClash(cs: seq<Clause>, u: nat, v: nat)
    requires Mutual(cs, u, v) && Clashing(cs, u)
    ensures Clashing(cs, v)
  {
    hide ClosedAll, TheoryOf, Inconsistent, Leads;
    forall ts: iset<Lit> | {} !in TheoryOf(cs) && ClosedAll(ts, TheoryOf(cs)) && (forall l :: l in [Pos(v)] ==> l in ts) ensures Inconsistent(ts) {
      assert Pos(v) in [Pos(v)];
      LeadsIn(cs, v, u, ts);
    }
  }

  lemma ForcedImplies(cs: seq<Clause>, u: nat, lits: seq<Lit>, v: nat)
    requires Forced(TheoryOf(cs), [Pos(u)], Lits(lits)) && Pos(v) in lits
    ensures Implies(cs, u, v)
  {
    forall m: Assignment | Holds(m, cs) && m(u) ensures m(v) {
      HoldsTheory(m, cs);
      assert IsModel(m, TheoryOf(cs), [Pos(u)]);
      assert Pos(v) in Lits(lits) && True(m, Pos(v));
    }
  }

  lemma ForcedFewer(cs: seq<Clause>, assumps: seq<Lit>, lits: seq<Lit>, ls: seq<Lit>)
    requires Forced(TheoryOf(cs), assumps, Lits(lits)) && forall l :: l in ls ==> l in lits
    ensures Forced(TheoryOf(cs), assumps, Lits(ls))
  {
  }

  /** Variables with the same forced value are equivalent. */
  lemma ForcedEquivalent(cs: seq<Clause>, lits: seq<Lit>, a: Lit, b: Lit)
    requires Forced(TheoryOf(cs), [], Lits(lits)) && a in lits && b in lits && a.neg == b.neg
    ensures Equivalent(cs, a.v, b.v)
  {
    forall m: Assignment | Holds(m, cs) ensures m(a.v) <==> m(b.v) {
      HoldsTheory(m, cs);
      assert IsModel(m, TheoryOf(cs), []);
      assert True(m, a) && True(m, b);
    }
  }

  // ----- classes -----

  ghost predicate InClass(classes: seq<seq<nat>>, u: nat) {
    exists k :: 0 <= k < |classes| && u in classes[k]
  }

  ghost predicate Distinct(c: seq<nat>) {
    forall i, j :: 0 <= i < j < |c| ==> c[i] != c[j]
  }

  /** No variable is listed twice. */
  ghost predicate Disjoint(classes: seq<seq<nat>>) {
    && (forall k :: 0 <= k < |classes| ==> Distinct(classes[k]))
    && (forall k, l, u :: 0 <= k < l < |classes| && u in classes[k] ==> u !in classes[l])
  }

  /** The members of a class are equivalent to its first, and point to it; unless their value is fixed,
      the first is the least. */
  ghost predicate ClassOk(cs: seq<Clause>, n: nat, c: seq<nat>, equivalentTo: seq<nat>, fixed: seq<bool>) {
    && |c| > 0 && |equivalentTo| == |fixed| == n && c[0] < n
    && forall i :: 0 <= i < |c| ==>
      && c[i] < n && Equivalent(cs, c[0], c[i]) && equivalentTo[c[i]] == c[0]
      && (i > 0 && !fixed[c[0]] ==> c[0] < c[i])
  }

  lemma MoreClasses(classes: seq<seq<nat>>, c: seq<nat>, u: nat)
    ensures InClass(classes + [c], u) <==> InClass(classes, u) || u in c
  {
    var all := classes + [c];
    if InClass(classes, u) {
      var k :| 0 <= k < |classes| && u in classes[k];
      assert u in all[k];
    }
    assert all[|classes|] == c;
  }

  lemma MoreDisjoint(classes: seq<seq<nat>>, c: seq<nat>)
    requires Disjoint(classes) && Distinct(c) && forall u :: u in c ==> !InClass(classes, u)
    ensures Disjoint(classes + [c])
  {
    var all := classes + [c];
    forall k, l, u | 0 <= k < l < |all| && u in all[k] ensures u !in all[l] {
      assert l == |classes| ==> InClass(classes, u);
    }
  }

  /** Every variable that is not fixed points to the first of its class, which it derives and is derived by. */
  ghost predicate HeadsOk(cs: seq<Clause>, fixed: seq<bool>, to: seq<nat>, i: nat) {
    && |fixed| == |to|
    && forall x :: 0 <= x < |to| && !fixed[x] ==>
      && to[x] <= x && !fixed[to[x]] && to[to[x]] == to[x] && Mutual(cs, to[x], x) && (to[x] != x ==> to[x] < i)
  }

  /** Variables that derive each other without a conflict are in one class, once one of them was looked at. */
  ghost predicate AllMerged(cs: seq<Clause>, fixed: seq<bool>, to: seq<nat>, i: nat) {
    && |fixed| == |to|
    && forall a, b :: 0 <= a < |to| && a < i && 0 <= b < |to| && !fixed[a] && !fixed[b] && !Clashing(cs, a) && Mutual(cs, a, b) ==> to[a] == to[b]
  }

  /** The fixed variables point to a fixed one with their value, those with the same value to the same one. */
  ghost predicate FixedHeads(fixed: seq<bool>, fixedVal: seq<bool>, to: seq<nat>) {
    && |fixed| == |fixedVal| == |to|
    && (forall u :: 0 <= u < |to| && fixed[u] ==> to[u] < |to| && fixed[to[u]] && fixedVal[to[u]] == fixedVal[u])
    && forall u, v :: 0 <= u < |to| && 0 <= v < |to| && fixed[u] && fixed[v] && fixedVal[u] == fixedVal[v] ==> to[u] == to[v]
  }

  lemma StartMerging(cs: seq<Clause>, fixed: seq<bool>, to: seq<nat>)
    requires |fixed| == |to| && forall x :: 0 <= x < |to| && !fixed[x] ==> to[x] == x
    ensures HeadsOk(cs, fixed, to, 0) && AllMerged(cs, fixed, to, 0)
  {
    hide Mutual;
    forall x | 0 <= x < |to| && !fixed[x] ensures Mutual(cs, to[x], x) { LeadsSelf(cs, x); }
  }

  /** A fixed variable, or one that has a class already, changes nothing. */
  lemma SkipMerged(cs: seq<Clause>, fixed: seq<bool>, to: seq<nat>, u: nat)
    requires HeadsOk(cs, fixed, to, u) && AllMerged(cs, fixed, to, u) && u < |to| && (fixed[u] || to[u] != u)
    ensures HeadsOk(cs, fixed, to, u + 1) && AllMerged(cs, fixed, to, u + 1)
  {
    hide Mutual, Clashing;
    forall b | 0 <= b < |to| && !fixed[u] && !fixed[b] && !Clashing(cs, u) && Mutual(cs, u, b) ensures to[u] == to[b] {
      SameHead(cs, fixed, to, u, u, b);
    }
  }

  /** What derives a merged variable is in the class of its first. */
  lemma SameHead(cs: seq<Clause>, fixed: seq<bool>, to: seq<nat>, i: nat, x: nat, b: nat)
    requires HeadsOk(cs, fixed, to, i) && AllMerged(cs, fixed, to, i) && x < |to| && b < |to| && !fixed[x] && !fixed[b]
    requires to[x] < i && !Clashing(cs, x) && Mutual(cs, x, b)
    ensures to[b] == to[x]
  {
    hide Mutual, Clashing;
    var w := to[x];
    MutualTrans(cs, w, x, b) by { MutualSwap(cs, w, x); }
    if Clashing(cs, w) { MutualClash(cs, w, x); }
  }

  lemma MutualSwap(cs: seq<Clause>, u: nat, v: nat)
    requires Mutual(cs, u, v)
    ensures Mutual(cs, v, u)
  {
  }

  /** The class of a first variable `u` is added. */
  lemma MergeClass(cs: seq<Clause>, fixed: seq<bool>, to: seq<nat>, to': seq<nat>, u: nat, c: seq<nat>)
    requires HeadsOk(cs, fixed, to, u) && AllMerged(cs, fixed, to, u) && u < |to| == |to'| && !fixed[u] && to[u] == u && u in c
    requires forall v :: 0 <= v < |to| ==> to'[v] == if v in c then u else to[v]
    requires forall v :: v in c && v != u ==> u < v < |to| && !fixed[v] && to[v] == v && Mutual(cs, u, v)
    requires !Clashing(cs, u) ==> forall v: nat :: u < v < |to| && !fixed[v] && to[v] == v && Mutual(cs, u, v) ==> v in c
    ensures HeadsOk(cs, fixed, to', u + 1) && AllMerged(cs, fixed, to', u + 1)
  {
    hide Mutual, Clashing;
    LeadsSelf(cs, u);
    forall a, b | 0 <= a < u && 0 <= b < |to| && !fixed[a] && !fixed[b] && !Clashing(cs, a) && Mutual(cs, a, b) ensures to'[a] == to'[b] {
      assert a !in c && to[b] == to[a] && to[a] <= a;
    }
    forall b | 0 <= b < |to| && !fixed[b] && !Clashing(cs, u) && Mutual(cs, u, b) ensures to'[b] == u {
      MergesWith(cs, fixed, to, u, b);
    }
  }

  lemma MergesWith(cs: seq<Clause>, fixed: seq<bool>, to: seq<nat>, u: nat, b: nat)
    requires HeadsOk(cs, fixed, to, u) && AllMerged(cs, fixed, to, u) && u < |to| && !fixed[u] && to[u] == u
    requires b < |to| && !fixed[b] && !Clashing(cs, u) && Mutual(cs, u, b)
    ensures b == u || (u < b && to[b] == b)
  {
    hide Mutual, Clashing;
    if b != u && (b < u || to[b] != b) {
      MutualSwap(cs, u, b);
      if Clashing(cs, b) { MutualClash(cs, b, u); }
      SameHead(cs, fixed, to, u, b, u);
    }
  }

  ghost predicate SameClass(classes: seq<seq<nat>>, u: nat, v: nat) {
    exists k :: 0 <= k < |classes| && u in classes[k] && v in classes[k]
  }

  // ----- the reducer -----

  class SatProblemReducer {
    /** The number of arguments, and the encoding over them. */
    const nVars: nat
    const nTotal: nat
    const clauses: seq<Clause>
    var fixed: seq<bool>
    var fixedVal: seq<bool>
    var equivalentTo: seq<nat>
    var eqClasses: seq<seq<nat>>
    /** What propagation derives from each variable, once computed: signed literals, as the solver returns them. */
    var propagated: seq<Option<seq<Lit>>>

    constructor (nVars: nat, nTotal: nat, clauses: seq<Clause>)
      requires ClausesBelow(clauses, nTotal) && nVars <= nTotal
      ensures this.nVars == nVars && this.nTotal == nTotal && this.clauses == clauses
    {
      this.nVars, this.nTotal, this.clauses := nVars, nTotal, clauses;
      fixed, fixedVal, equivalentTo, eqClasses, propagated := [], [], [], [], [];
    }

    ghost predicate ClassesOk()
      reads this
    {
      && |fixed| == |equivalentTo| == nVars && Disjoint(eqClasses)
      && forall k :: 0 <= k < |eqClasses| ==> ClassOk(clauses, nVars, eqClasses[k], equivalentTo, fixed)
    }

    /** Fixed variables and those below `i` have a class; of the others, exactly the merged ones. */
    ghost predicate ClassedUpTo(i: nat)
      reads this
    {
      |fixed| == |equivalentTo| == nVars && forall u :: 0 <= u < nVars ==>
        && (fixed[u] || u < i ==> InClass(eqClasses, u))
        && (!fixed[u] && u >= i ==> (InClass(eqClasses, u) <==> equivalentTo[u] != u))
    }

    ghost predicate CacheOk()
      reads this
    {
      |propagated| == nVars && forall u :: 0 <= u < nVars && propagated[u].Some? ==> PropagatedOk(u, propagated[u].value)
    }

    /** Only positive literals are listed: those derived from `u`, and without a conflict all of them. */
    ghost predicate PropagatedOk(u: nat, ls: seq<Lit>) {
      && DistinctVars(ls) && (forall l :: l in ls ==> !l.neg && Implies(clauses, u, l.v) && Leads(clauses, u, l.v))
      && (!Clashing(clauses, u) ==> forall v: nat :: Leads(clauses, u, v) ==> Pos(v) in ls)
    }

    /** The literals unit resolution derives, and, without a conflict, all of them. */
    method Propagate(assumps: seq<Lit>) returns (lits: seq<Lit>)
      requires ClausesBelow(clauses, nTotal) && forall l :: l in assumps ==> l.v < nTotal
      ensures Forced(TheoryOf(clauses), assumps, Lits(lits)) && DistinctVars(lits)
      ensures forall l :: l in lits ==> Derived(TheoryOf(clauses), assumps, {l})
      ensures !UnitConflict(TheoryOf(clauses), assumps) ==> forall l :: Derived(TheoryOf(clauses), assumps, {l}) ==> l in lits
    {
      hide Solver.Idle, TheoryOf, UnitClosed, Forced, UnitConflict, Clashes, Given, DerivedFrom, Derived, DistinctVars;
      var slv := BuildSolver(nTotal, clauses);
      IdleIsValid(slv);
      ghost var ca0, t0, ok0 := slv.ca, slv.Snap(), slv.ok;
      var confl;
      lits, confl := slv.PropagateUnder(assumps);
      GivenDerived(ca0, t0, TheoryOf(clauses), assumps, Lits(lits));
      EachDerived(TheoryOf(clauses), assumps, lits);
      if !confl {
        FoundAll(TheoryOf(clauses), assumps, lits);
      } else if ok0 {
        GivenConflict(ca0, t0, TheoryOf(clauses), assumps);
      } else {
        ConflictMore(TheoryOf(clauses), TheoryOf(clauses), assumps);
      }
    }

    /** The literals propagated, without the negative ones unless they are asked for. */
    method PropagatedLits(assumps: seq<Lit>, includeNegLits: bool) returns (ls: seq<Lit>)
      requires ClausesBelow(clauses, nTotal) && forall l :: l in assumps ==> l.v < nTotal
      ensures Forced(TheoryOf(clauses), assumps, Lits(ls)) && DistinctVars(ls)
      ensures forall l :: l in ls ==> Derived(TheoryOf(clauses), assumps, {l}) && (!l.neg || includeNegLits)
      ensures !UnitConflict(TheoryOf(clauses), assumps) ==>
        forall l :: Derived(TheoryOf(clauses), assumps, {l}) && (!l.neg || includeNegLits) ==> l in ls
    {
      hide TheoryOf, Forced, Derived, UnitConflict;
      var lits := Propagate(assumps);
      ls := [];
      var i := 0;
      while i < |lits|
        invariant 0 <= i <= |lits| && (forall l :: l in ls <==> l in lits[..i] && (!l.neg || includeNegLits)) && DistinctVars(ls)
      {
        assert lits[..i + 1] == lits[..i] + [lits[i]];
        if !lits[i].neg || includeNegLits {
          NotBefore(lits, i);
          ApartFrom(ls, lits, i);
          ls := ls + [lits[i]];
        }
        i := i + 1;
      }
      assert lits[..i] == lits;
      ForcedFewer(clauses, assumps, lits, ls);
    }

    lemma ApartFrom(ls: seq<Lit>, lits: seq<Lit>, i: nat)
      requires i < |lits| && DistinctVars(lits) && DistinctVars(ls) && forall l :: l in ls ==> l in lits[..i]
      ensures DistinctVars(ls + [lits[i]])
    {
      forall k | 0 <= k < |ls| ensures ls[k].v != lits[i].v {
        assert ls[k] in lits[..i];
        var j :| 0 <= j < i && lits[j] == ls[k];
      }
    }

    method ComputePropagationsOf(u: nat)
      requires CacheOk() && u < nVars <= nTotal && ClausesBelow(clauses, nTotal)
      modifies this`propagated
      ensures CacheOk() && propagated[u].Some?
    {
      hide TheoryOf, Forced, DistinctVars, Derived, UnitConflict, Implies;
      if propagated[u].Some? { return; }
      var ls := PropagatedLits([Pos(u)], false);
      forall l | l in ls ensures Implies(clauses, u, l.v) && Leads(clauses, u, l.v) {
        assert l == Pos(l.v);
        ForcedImplies(clauses, u, ls, l.v);
      }
      propagated := propagated[u := Some(ls)];
    }

    /** Whether `from` derives `u`. The scan also stops at the negation of `u`, which never happens. */
    method Derives(from: nat, u: nat) returns (eq: bool, negated: bool)
      requires CacheOk() && from < nVars && propagated[from].Some?
      ensures eq <==> Pos(u) in propagated[from].value
      ensures (eq ==> Leads(clauses, from, u)) && (!Clashing(clauses, from) ==> (eq <==> Leads(clauses, from, u)))
      ensures !negated
    {
      hide Implies, DistinctVars, Leads, Clashing;
      var ls := propagated[from].value;
      eq, negated := false, false;
      var j := 0;
      while j < |ls|
        invariant 0 <= j <= |ls| && !eq && !negated && Pos(u) !in ls[..j]
      {
        assert ls[j] in ls && ls[..j + 1] == ls[..j] + [ls[j]];
        if ls[j] == Pos(u) {
          return true, false;
        } else if ls[j] == Neg(u) {
          return false, true;
        }
        j := j + 1;
      }
      assert ls[..j] == ls;
    }

    /** `vs` are the argument variables on the list with the given sign. */
    ghost predicate SignedIn(vs: seq<nat>, lits: seq<Lit>, neg: bool) {
      Distinct(vs) && forall v: nat :: v in vs <==> v < nVars && Lit(v, neg) in lits
    }

    /** Marks the fixed variables and sorts them by value. */
    method CollectFixed(lits: seq<Lit>) returns (fixedTrue: seq<nat>, fixedFalse: seq<nat>)
      requires DistinctVars(lits) && |fixed| == |fixedVal| == nVars && forall u :: 0 <= u < nVars ==> !fixed[u]
      modifies this`fixed, this`fixedVal
      ensures |fixed| == |fixedVal| == nVars && SignedIn(fixedTrue, lits, false) && SignedIn(fixedFalse, lits, true)
      ensures forall u: nat :: u < nVars ==> (fixed[u] <==> u in fixedTrue || u in fixedFalse)
      ensures forall u: nat :: u < nVars && fixed[u] ==> (fixedVal[u] <==> u in fixedTrue)
    {
      hide DistinctVars;
      fixedTrue, fixedFalse := [], [];
      var i := 0;
      while i < |lits|
        invariant 0 <= i <= |lits| && |fixed| == |fixedVal| == nVars
        invariant SignedIn(fixedTrue, lits[..i], false) && SignedIn(fixedFalse, lits[..i], true)
        invariant forall u: nat :: u < nVars ==> (fixed[u] <==> u in fixedTrue || u in fixedFalse)
        invariant forall u: nat :: u < nVars && fixed[u] ==> (fixedVal[u] <==> u in fixedTrue)
      {
        assert lits[..i + 1] == lits[..i] + [lits[i]];
        var l := lits[i];
        NotBefore(lits, i);
        assert l == Lit(l.v, false) || l == Lit(l.v, true);
        if l.v < nVars {
          fixed := fixed[l.v := true];
          fixedVal := fixedVal[l.v := !l.neg];
          if !l.neg { fixedTrue := fixedTrue + [l.v]; } else { fixedFalse := fixedFalse + [l.v]; }
        }
        i := i + 1;
      }
      assert lits[..i] == lits;
    }

    /** The fixed variables have values that unit resolution derives; unless it meets a conflict, it derives no others. */
    ghost predicate FixedExactly()
      reads this`fixed, this`fixedVal
    {
      && |fixed| == |fixedVal| == nVars
      && (forall u :: 0 <= u < nVars && fixed[u] ==> Sets(clauses, u, !fixedVal[u]))
      && (!UnitConflict(TheoryOf(clauses), []) ==> forall u, neg :: 0 <= u < nVars && Sets(clauses, u, neg) ==> fixed[u] && fixedVal[u] == !neg)
    }

    lemma AllFixed(lits: seq<Lit>, fixedTrue: seq<nat>, fixedFalse: seq<nat>)
      requires |fixed| == |fixedVal| == nVars && SignedIn(fixedTrue, lits, false) && SignedIn(fixedFalse, lits, true)
      requires forall u: nat :: u < nVars ==> (fixed[u] <==> u in fixedTrue || u in fixedFalse)
      requires forall u: nat :: u < nVars && fixed[u] ==> (fixedVal[u] <==> u in fixedTrue)
      requires Forced(TheoryOf(clauses), [], Lits(lits)) && DistinctVars(lits) && forall l :: l in lits ==> Derived(TheoryOf(clauses), [], {l})
      requires !UnitConflict(TheoryOf(clauses), []) ==> forall l :: Derived(TheoryOf(clauses), [], {l}) ==> l in lits
      ensures FixedExactly() && forall u :: 0 <= u < nVars && fixed[u] ==> FixedTo(clauses, u, fixedVal[u])
    {
      hide TheoryOf, Forced, FixedTo, Distinct, Derived, UnitConflict, DistinctVars;
      forall u: nat | u < nVars && fixed[u] ensures FixedTo(clauses, u, fixedVal[u]) && Sets(clauses, u, !fixedVal[u]) {
        assert Lit(u, u !in fixedTrue) in lits;
        FixedValue(clauses, lits, Lit(u, u !in fixedTrue));
      }
      BothFixed(lits, fixedTrue, fixedFalse);
      if !UnitConflict(TheoryOf(clauses), []) {
        forall u, neg | 0 <= u < nVars && Sets(clauses, u, neg) ensures fixed[u] && fixedVal[u] == !neg { assert Lit(u, neg) in lits; }
      }
    }

    /** One class for each value. */
    method FixedClasses(ghost lits: seq<Lit>, fixedTrue: seq<nat>, fixedFalse: seq<nat>)
      requires |fixed| == |fixedVal| == |equivalentTo| == nVars && eqClasses == []
      requires forall u :: 0 <= u < nVars ==> equivalentTo[u] == u
      requires Forced(TheoryOf(clauses), [], Lits(lits)) && SignedIn(fixedTrue, lits, false) && SignedIn(fixedFalse, lits, true)
      requires forall u: nat :: u < nVars ==> (fixed[u] <==> u in fixedTrue || u in fixedFalse)
      requires forall u: nat :: u < nVars && fixed[u] ==> (fixedVal[u] <==> u in fixedTrue)
      requires forall v :: v in fixedTrue ==> v !in fixedFalse
      modifies this`equivalentTo, this`eqClasses
      ensures ClassesOk() && ClassedUpTo(0) && FixedHeads(fixed, fixedVal, equivalentTo)
      ensures forall u :: 0 <= u < nVars && !fixed[u] ==> equivalentTo[u] == u
    {
      hide TheoryOf, Forced, ClassOk, InClass, Distinct, FixedHeads, Equivalent;
      equivalentTo := PointTo(equivalentTo, fixedTrue);
      equivalentTo := PointTo(equivalentTo, fixedFalse);
      FixedClass(clauses, nVars, lits, false, fixedTrue, equivalentTo, fixed);
      FixedClass(clauses, nVars, lits, true, fixedFalse, equivalentTo, fixed);
      HeadsFixed(fixedTrue, fixedFalse);
      if |fixedTrue| > 0 { eqClasses := eqClasses + [fixedTrue]; }
      if |fixedFalse| > 0 { eqClasses := eqClasses + [fixedFalse]; }
      forall u ensures InClass(eqClasses, u) <==> u in fixedTrue || u in fixedFalse { TwoClasses(eqClasses, fixedTrue, fixedFalse, u); }
    }

    /** The variables whose value propagation fixes, one class for each value. */
    method PropagateAtDecisionLvlZero()
      requires ClausesBelow(clauses, nTotal) && |fixed| == |fixedVal| == |equivalentTo| == nVars && eqClasses == []
      requires forall u :: 0 <= u < nVars ==> !fixed[u] && equivalentTo[u] == u
      modifies this`fixed, this`fixedVal, this`equivalentTo, this`eqClasses
      ensures ClassesOk() && ClassedUpTo(0) && |fixedVal| == nVars
      ensures forall u :: 0 <= u < nVars && fixed[u] ==> FixedTo(clauses, u, fixedVal[u])
      ensures FixedExactly() && FixedHeads(fixed, fixedVal, equivalentTo) && forall u :: 0 <= u < nVars && !fixed[u] ==> equivalentTo[u] == u
    {
      hide TheoryOf, Forced, DistinctVars, FixedTo, ClassOk, InClass, Distinct, Derived, UnitConflict, FixedExactly, FixedHeads, Disjoint;
      var lits := PropagatedLits([], true);
      var fixedTrue, fixedFalse := CollectFixed(lits);
      BothFixed(lits, fixedTrue, fixedFalse);
      AllFixed(lits, fixedTrue, fixedFalse);
      FixedClasses(lits, fixedTrue, fixedFalse);
    }

    lemma HeadsFixed(fixedTrue: seq<nat>, fixedFalse: seq<nat>)
      requires |fixed| == |fixedVal| == |equivalentTo| == nVars && forall v :: v in fixedTrue || v in fixedFalse ==> v < nVars
      requires forall u: nat :: u < nVars ==> (fixed[u] <==> u in fixedTrue || u in fixedFalse)
      requires forall u: nat :: u < nVars && fixed[u] ==> (fixedVal[u] <==> u in fixedTrue)
      requires forall v :: v in fixedTrue ==> v !in fixedFalse && equivalentTo[v] == fixedTrue[0]
      requires forall v :: v in fixedFalse ==> equivalentTo[v] == fixedFalse[0]
      ensures FixedHeads(fixed, fixedVal, equivalentTo)
    {
      assert |fixedTrue| > 0 ==> fixedTrue[0] in fixedTrue;
      assert |fixedFalse| > 0 ==> fixedFalse[0] in fixedFalse;
    }

    /** What the classes say once the variables below `i` have been looked at. */
    ghost predicate Merging(i: nat)
      reads this
    {
      HeadsOk(clauses, fixed, equivalentTo, i) && AllMerged(clauses, fixed, equivalentTo, i) && FixedHeads(fixed, fixedVal, equivalentTo)
    }

    /** The members of the class that starts with `u`: what it derives and what derives it. */
    method LookForEquivalencesOf(u: nat)
      requires ClassesOk() && ClassedUpTo(u) && CacheOk() && u < nVars <= nTotal && !fixed[u] && ClausesBelow(clauses, nTotal)
      requires Merging(u)
      modifies this`equivalentTo, this`eqClasses, this`propagated
      ensures ClassesOk() && ClassedUpTo(u + 1) && CacheOk()
      ensures Merging(u + 1)
    {
      hide Implies, Disjoint, InClass, ClassOk, HeadsOk, AllMerged, FixedHeads, Leads, Mutual, Clashing, Equivalent;
      if equivalentTo[u] != u {
        SkipMerged(clauses, fixed, equivalentTo, u);
        return;
      }
      ComputePropagationsOf(u);
      var equivalencies: seq<nat> := [u];
      var derived := propagated[u].value;
      var i := 0;
      while i < |derived|
        modifies this`propagated
        invariant 0 <= i <= |derived| && CacheOk()
        invariant |equivalencies| > 0 && equivalencies[0] == u && Distinct(equivalencies)
        invariant forall k :: 1 <= k < |equivalencies| ==> Joins(u, equivalencies[k]) && Pos(equivalencies[k]) in derived[..i]
        invariant Collected(u, derived, i, equivalencies)
      {
        var prop := derived[i];
        assert prop in derived && derived[..i + 1] == derived[..i] + [prop];
        assert prop == Pos(prop.v);
        if !(prop.neg || prop.v <= u || prop.v >= nVars || fixed[prop.v] || equivalentTo[prop.v] != prop.v) {
          ComputePropagationsOf(prop.v);
          var eq, negated := Derives(prop.v, u);
          DerivesBack(u, prop.v, eq);
          if eq {
            BothWays(clauses, u, prop.v) by { assert Pos(u) in propagated[prop.v].value; }
            NewMember(equivalencies, derived, i, u);
            equivalencies := equivalencies + [prop.v];
          }
        }
        i := i + 1;
      }
      AddClass(u, derived, equivalencies);
    }

    /** Without a conflict all variables that can join and that the first `i` derived literals name have been collected. */
    ghost predicate Collected(u: nat, derived: seq<Lit>, i: nat, c: seq<nat>)
      reads this
    {
      !Clashing(clauses, u) ==> forall v: nat :: Pos(v) in derived[..if i <= |derived| then i else |derived|] && Candidate(u, v) && Mutual(clauses, u, v) ==> v in c
    }

    /** `v` is a later unfixed variable, not merged yet. */
    ghost predicate Candidate(u: nat, v: nat)
      reads this
    {
      u < v < nVars && v < |fixed| && v < |equivalentTo| && !fixed[v] && equivalentTo[v] == v
    }

    lemma DerivesBack(u: nat, v: nat, eq: bool)
      requires Leads(clauses, u, v) && (eq ==> Leads(clauses, v, u)) && (!Clashing(clauses, v) ==> (eq <==> Leads(clauses, v, u)))
      ensures eq ==> Mutual(clauses, u, v)
      ensures !Clashing(clauses, u) && Mutual(clauses, u, v) ==> eq
    {
      hide Leads, Clashing;
      if Mutual(clauses, u, v) && Clashing(clauses, v) { MutualClash(clauses, v, u); }
    }

    /** The collected variables become a class. */
    method AddClass(u: nat, ghost derived: seq<Lit>, c: seq<nat>)
      requires ClassesOk() && ClassedUpTo(u) && CacheOk() && u < nVars && !fixed[u] && equivalentTo[u] == u
      requires |c| > 0 && c[0] == u && Distinct(c) && forall k :: 1 <= k < |c| ==> Joins(u, c[k])
      requires Merging(u) && PropagatedOk(u, derived) && Collected(u, derived, |derived|, c)
      modifies this`equivalentTo, this`eqClasses
      ensures ClassesOk() && ClassedUpTo(u + 1) && CacheOk() && Merging(u + 1)
    {
      hide Implies, Disjoint, InClass, ClassOk, HeadsOk, AllMerged, FixedHeads, Leads, Clashing, Equivalent, Mutual;
      NewClass(u, c);
      ghost var equivalentTo0 := equivalentTo;
      equivalentTo := PointTo(equivalentTo, c);
      assert Pointed(equivalentTo0, c, equivalentTo);
      JoinAll(u, equivalentTo0, derived, c);
      eqClasses := eqClasses + [c];
    }

    lemma JoinAll(u: nat, to: seq<nat>, derived: seq<Lit>, c: seq<nat>)
      requires HeadsOk(clauses, fixed, to, u) && AllMerged(clauses, fixed, to, u) && |fixed| == |to| == nVars && u < nVars && !fixed[u] && to[u] == u
      requires |c| > 0 && c[0] == u && Pointed(to, c, equivalentTo) && PropagatedOk(u, derived) && FixedHeads(fixed, fixedVal, to)
      requires forall k :: 1 <= k < |c| ==> u < c[k] < nVars && !fixed[c[k]] && to[c[k]] == c[k] && Mutual(clauses, u, c[k])
      requires !Clashing(clauses, u) ==> forall v: nat :: Pos(v) in derived && u < v < nVars && !fixed[v] && to[v] == v && Mutual(clauses, u, v) ==> v in c
      ensures Merging(u + 1)
    {
      hide Implies, HeadsOk, AllMerged, Leads, Clashing, Equivalent;
      assert u in c;
      forall v | v in c && v != u ensures u < v < nVars && !fixed[v] && to[v] == v && Mutual(clauses, u, v) {
        var k :| 0 <= k < |c| && c[k] == v;
      }
      MergeClass(clauses, fixed, to, equivalentTo, u, c);
    }

    /** `v` can join the class of `u`: they derive each other. */
    ghost predicate Joins(u: nat, v: nat)
      reads this
    {
      Candidate(u, v) && Equivalent(clauses, u, v) && Mutual(clauses, u, v)
    }

    lemma NewMember(c: seq<nat>, derived: seq<Lit>, i: nat, u: nat)
      requires i < |derived| && DistinctVars(derived) && |c| > 0 && c[0] == u && u < derived[i].v && Distinct(c)
      requires forall k :: 1 <= k < |c| ==> Pos(c[k]) in derived[..i]
      ensures Distinct(c + [derived[i].v])
    {
      forall k | 0 <= k < |c| ensures c[k] != derived[i].v {
        if k > 0 {
          assert Pos(c[k]) in derived[..i];
          var j :| 0 <= j < i && derived[j] == Pos(c[k]);
        }
      }
    }

    /** What adding the new class does. */
    lemma NewClass(u: nat, c: seq<nat>)
      requires ClassesOk() && ClassedUpTo(u) && u < nVars && !fixed[u] && equivalentTo[u] == u
      requires |c| > 0 && c[0] == u && Distinct(c) && forall k :: 1 <= k < |c| ==> Joins(u, c[k])
      ensures forall v :: v in c ==> v < |equivalentTo| && equivalentTo[v] == v
      ensures forall equivalentTo' :: Pointed(equivalentTo, c, equivalentTo') ==> Extended(u, c, equivalentTo')
    {
      forall v: nat | v in c ensures v < |equivalentTo| && equivalentTo[v] == v && !fixed[v] && v >= u && !InClass(eqClasses, v) {
        var k: nat :| k < |c| && c[k] == v;
        assert k > 0 ==> Joins(u, c[k]);
      }
      MoreDisjoint(eqClasses, c);
      forall equivalentTo' | Pointed(equivalentTo, c, equivalentTo') ensures Extended(u, c, equivalentTo') {
        var all := eqClasses + [c];
        forall k | 0 <= k < |all| ensures ClassOk(clauses, nVars, all[k], equivalentTo', fixed) {
          if k < |eqClasses| {
            assert ClassOk(clauses, nVars, eqClasses[k], equivalentTo, fixed);
            forall i | 0 <= i < |all[k]| ensures equivalentTo'[all[k][i]] == equivalentTo[all[k][i]] { assert InClass(eqClasses, all[k][i]); }
          } else {
            SelfEquivalent(clauses, u);
            forall i | 0 <= i < |c| ensures equivalentTo'[c[i]] == u && Equivalent(clauses, u, c[i]) { assert c[i] in c; }
          }
        }
        forall v: nat | v < nVars ensures (fixed[v] || v < u + 1 ==> InClass(all, v)) && (!fixed[v] && v >= u + 1 ==> (InClass(all, v) <==> equivalentTo'[v] != v)) {
          MoreClasses(eqClasses, c, v);
          assert u in c;
        }
      }
    }

    ghost predicate Pointed(equivalentTo0: seq<nat>, c: seq<nat>, equivalentTo': seq<nat>) {
      && |equivalentTo'| == |equivalentTo0|
      && forall v :: 0 <= v < |equivalentTo'| ==> equivalentTo'[v] == if v in c then (if |c| > 0 then c[0] else v) else equivalentTo0[v]
    }

    /** The classes with one more are still fine. */
    ghost predicate Extended(u: nat, c: seq<nat>, equivalentTo': seq<nat>)
      reads this
    {
      var all := eqClasses + [c];
      && |fixed| == |equivalentTo'| == nVars && Disjoint(all)
      && (forall k :: 0 <= k < |all| ==> ClassOk(clauses, nVars, all[k], equivalentTo', fixed))
      && forall v: nat :: v < nVars ==>
        && (fixed[v] || v < u + 1 ==> InClass(all, v))
        && (!fixed[v] && v >= u + 1 ==> (InClass(all, v) <==> equivalentTo'[v] != v))
    }

    /** Finds all classes. */
    method Search()
      requires ClausesBelow(clauses, nTotal) && nVars <= nTotal
      modifies this
      ensures ClassesOk() && forall u: nat :: u < nVars ==> InClass(eqClasses, u)
      ensures |fixedVal| == nVars && forall u :: 0 <= u < nVars && fixed[u] ==> FixedTo(clauses, u, fixedVal[u])
      ensures FixedExactly() && ClassesExact()
    {
      hide Holds, Disjoint, InClass, ClassOk, FixedTo, HeadsOk, AllMerged, FixedHeads, Sets;
      fixed := seq(nVars, i => false);
      fixedVal := seq(nVars, i => false);
      equivalentTo := seq(nVars, i requires 0 <= i < nVars => i);
      eqClasses := [];
      PropagateAtDecisionLvlZero();
      propagated := seq(nVars, i => None);
      StartMerging(clauses, fixed, equivalentTo);
      var i := 0;
      while i < nVars
        modifies this`equivalentTo, this`eqClasses, this`propagated
        invariant 0 <= i <= nVars && ClassesOk() && ClassedUpTo(i) && CacheOk() && Merging(i) && FixedExactly()
      {
        if !fixed[i] { LookForEquivalencesOf(i); } else { SkipMerged(clauses, fixed, equivalentTo, i); }
        i := i + 1;
      }
      ExactClasses();
    }

    /** Of the variables that are not fixed, those in one class derive each other; and those that do are in one class unless
        setting them leads to a conflict. The fixed ones are in one class exactly with those of the same value. */
    ghost predicate ClassesExact()
      reads this
    {
      && |fixed| == |fixedVal| == nVars
      && (forall u, v :: 0 <= u < nVars && 0 <= v < nVars && fixed[u] ==> (SameClass(eqClasses, u, v) <==> fixed[v] && fixedVal[v] == fixedVal[u]))
      && forall u, v :: 0 <= u < nVars && 0 <= v < nVars && !fixed[u] && !fixed[v] ==>
        && (SameClass(eqClasses, u, v) ==> Mutual(clauses, u, v))
        && (!Clashing(clauses, u) ==> (SameClass(eqClasses, u, v) <==> Mutual(clauses, u, v)))
    }

    lemma ExactClasses()
      requires ClassesOk() && Merging(nVars) && forall u: nat :: u < nVars ==> InClass(eqClasses, u)
      ensures ClassesExact()
    {
      hide Mutual, Clashing, Disjoint;
      forall u: nat, v: nat | u < nVars && v < nVars && fixed[u] ensures SameClass(eqClasses, u, v) <==> fixed[v] && fixedVal[v] == fixedVal[u] {
        SameClassTo(u, v);
      }
      forall u: nat, v: nat | u < nVars && v < nVars && !fixed[u] && !fixed[v]
        ensures SameClass(eqClasses, u, v) ==> Mutual(clauses, u, v)
        ensures !Clashing(clauses, u) ==> (SameClass(eqClasses, u, v) <==> Mutual(clauses, u, v))
      {
        SameClassTo(u, v);
        if equivalentTo[u] == equivalentTo[v] { MutualTrans(clauses, u, equivalentTo[u], v); }
      }
    }

    lemma SameClassTo(u: nat, v: nat)
      requires ClassesOk() && u < nVars && v < nVars && InClass(eqClasses, u) && InClass(eqClasses, v)
      ensures SameClass(eqClasses, u, v) <==> equivalentTo[u] == equivalentTo[v]
    {
      hide Equivalent;
      var k :| 0 <= k < |eqClasses| && u in eqClasses[k];
      var l :| 0 <= l < |eqClasses| && v in eqClasses[l];
      PointsToFirst(k, u);
      PointsToFirst(l, v);
      if equivalentTo[u] == equivalentTo[v] {
        assert eqClasses[k][0] in eqClasses[k] && eqClasses[l][0] in eqClasses[l];
        assert k == l;
      }
      if j :| 0 <= j < |eqClasses| && u in eqClasses[j] && v in eqClasses[j] {
        PointsToFirst(j, u);
        PointsToFirst(j, v);
      }
    }

    lemma PointsToFirst(k: nat, u: nat)
      requires ClassesOk() && k < |eqClasses| && u in eqClasses[k]
      ensures u < nVars && |eqClasses[k]| > 0 && equivalentTo[u] == eqClasses[k][0]
    {
      assert ClassOk(clauses, nVars, eqClasses[k], equivalentTo, fixed);
      var i :| 0 <= i < |eqClasses[k]| && eqClasses[k][i] == u;
    }

    /** The variable of each argument after merging: the number of its class. */
    method TranslateVarMap(nameOf: seq<Arg>) returns (reduced: map<Arg, nat>)
      requires ClassesOk() && |nameOf| == nVars && (forall i, j :: 0 <= i < j < nVars ==> nameOf[i] != nameOf[j])
      ensures forall k, i :: 0 <= k < |eqClasses| && 0 <= i < |eqClasses[k]| ==> MapsTo(nameOf, reduced, eqClasses[k][i], k)
    {
      hide ClassOk, Disjoint;
      reduced := map[];
      var k := 0;
      while k < |eqClasses|
        invariant 0 <= k <= |eqClasses|
        invariant forall l, i :: 0 <= l < k && 0 <= i < |eqClasses[l]| ==> MapsTo(nameOf, reduced, eqClasses[l][i], l)
      {
        var j := 0;
        while j < |eqClasses[k]|
          invariant 0 <= j <= |eqClasses[k]|
          invariant forall l, i :: 0 <= l < k && 0 <= i < |eqClasses[l]| ==> MapsTo(nameOf, reduced, eqClasses[l][i], l)
          invariant forall i :: 0 <= i < j ==> MapsTo(nameOf, reduced, eqClasses[k][i], k)
        {
          ApartMembers(k, j);
          reduced := reduced[nameOf[eqClasses[k][j]] := k];
          j := j + 1;
        }
        k := k + 1;
      }
    }

    ghost predicate MapsTo(nameOf: seq<Arg>, reduced: map<Arg, nat>, u: nat, k: nat) {
      u < |nameOf| && nameOf[u] in reduced && reduced[nameOf[u]] == k
    }

    lemma ApartMembers(k: nat, j: nat)
      requires ClassesOk() && k < |eqClasses| && j < |eqClasses[k]|
      ensures eqClasses[k][j] < nVars
      ensures forall l, i :: 0 <= l < k && 0 <= i < |eqClasses[l]| ==> eqClasses[l][i] != eqClasses[k][j]
      ensures forall i :: 0 <= i < j ==> eqClasses[k][i] != eqClasses[k][j]
    {
      assert ClassOk(clauses, nVars, eqClasses[k], equivalentTo, fixed);
      forall l, i | 0 <= l < k && 0 <= i < |eqClasses[l]| ensures eqClasses[l][i] != eqClasses[k][j] {
        assert eqClasses[l][i] in eqClasses[l] && eqClasses[k][j] in eqClasses[k];
      }
    }

    /** Arguments have the same variable when their old ones are in one class. */
    lemma SameVariable(nameOf: seq<Arg>, reduced: map<Arg, nat>, u: nat, v: nat)
      requires u < nVars == |nameOf| && v < nVars && InClass(eqClasses, u) && InClass(eqClasses, v)
      requires forall k, i :: 0 <= k < |eqClasses| && 0 <= i < |eqClasses[k]| ==> MapsTo(nameOf, reduced, eqClasses[k][i], k)
      ensures nameOf[u] in reduced && nameOf[v] in reduced
      ensures reduced[nameOf[u]] == reduced[nameOf[v]] <==> SameClass(eqClasses, u, v)
    {
      InVariable(nameOf, reduced, u);
      InVariable(nameOf, reduced, v);
      if k :| 0 <= k < |eqClasses| && u in eqClasses[k] && v in eqClasses[k] {
        var i :| 0 <= i < |eqClasses[k]| && eqClasses[k][i] == u;
        var j :| 0 <= j < |eqClasses[k]| && eqClasses[k][j] == v;
        assert MapsTo(nameOf, reduced, eqClasses[k][i], k) && MapsTo(nameOf, reduced, eqClasses[k][j], k);
      }
    }

    lemma InVariable(nameOf: seq<Arg>, reduced: map<Arg, nat>, u: nat)
      requires u < nVars == |nameOf| && InClass(eqClasses, u)
      requires forall k, i :: 0 <= k < |eqClasses| && 0 <= i < |eqClasses[k]| ==> MapsTo(nameOf, reduced, eqClasses[k][i], k)
      ensures nameOf[u] in reduced && reduced[nameOf[u]] < |eqClasses| && u in eqClasses[reduced[nameOf[u]]]
    {
      var k :| 0 <= k < |eqClasses| && u in eqClasses[k];
      var i :| 0 <= i < |eqClasses[k]| && eqClasses[k][i] == u;
      assert MapsTo(nameOf, reduced, eqClasses[k][i], k);
    }

    /** Exactly the arguments that unit resolution shows to be equivalent are merged. */
    lemma Exactly(nameOf: seq<Arg>, reduced: map<Arg, nat>)
      requires FixedExactly() && ClassesExact() && (forall u: nat :: u < nVars ==> InClass(eqClasses, u)) && |nameOf| == nVars
      requires forall k, i :: 0 <= k < |eqClasses| && 0 <= i < |eqClasses[k]| ==> MapsTo(nameOf, reduced, eqClasses[k][i], k)
      ensures MergesExactly(clauses, nameOf, reduced)
    {
      hide Mutual, Clashing, Sets, InClass, SameClass, UnitConflict;
      forall u: nat, v: nat | u < nVars && v < nVars
        ensures nameOf[u] in reduced && nameOf[v] in reduced && (reduced[nameOf[u]] == reduced[nameOf[v]] <==> SameClass(eqClasses, u, v))
      {
        SameVariable(nameOf, reduced, u, v);
      }
      forall u: nat | u < nVars && fixed[u] ensures !Unfixed(clauses, u) { assert Sets(clauses, u, !fixedVal[u]); }
    }

    /** Only equivalent arguments are merged, and every argument has a variable. */
    lemma Merged(nameOf: seq<Arg>, reduced: map<Arg, nat>)
      requires ClassesOk() && (forall u: nat :: u < nVars ==> InClass(eqClasses, u)) && |nameOf| == nVars
      requires forall k, i :: 0 <= k < |eqClasses| && 0 <= i < |eqClasses[k]| ==> MapsTo(nameOf, reduced, eqClasses[k][i], k)
      ensures MergesEquivalent(clauses, nameOf, reduced) && VarMapOk(nameOf, reduced, |eqClasses|)
    {
      hide Equivalent, Disjoint;
      forall u: nat | u < nVars ensures nameOf[u] in reduced && reduced[nameOf[u]] < |eqClasses| && u in eqClasses[reduced[nameOf[u]]] {
        assert InClass(eqClasses, u);
        var k: nat :| k < |eqClasses| && u in eqClasses[k];
        var i: nat :| i < |eqClasses[k]| && eqClasses[k][i] == u;
        assert MapsTo(nameOf, reduced, eqClasses[k][i], k);
      }
      forall u: nat, v: nat | u < nVars && v < nVars && reduced[nameOf[u]] == reduced[nameOf[v]] ensures Equivalent(clauses, u, v) {
        var c := eqClasses[reduced[nameOf[u]]];
        assert ClassOk(clauses, nVars, c, equivalentTo, fixed);
        var i :| 0 <= i < |c| && c[i] == u;
        var j :| 0 <= j < |c| && c[j] == v;
        EquivalentVia(clauses, c[0], u, v);
      }
      forall k: nat | k < |eqClasses| ensures IsVariable(nameOf, reduced, k) {
        assert ClassOk(clauses, nVars, eqClasses[k], equivalentTo, fixed);
        assert MapsTo(nameOf, reduced, eqClasses[k][0], k);
        assert nameOf[eqClasses[k][0]] in nameOf;
      }
      forall a | a in nameOf ensures a in reduced && reduced[a] < |eqClasses| { var u: nat :| u < nVars && nameOf[u] == a; }
    }
  }

  /** Unit resolution gives `u` no value. */
  ghost predicate Unfixed(cs: seq<Clause>, u: nat) {
    !Sets(cs, u, false) && !Sets(cs, u, true)
  }

  /** Two arguments without a value get the same variable when they derive each other, and only then, unless setting them
      leads to a conflict; and so do two arguments with the same value. */
  ghost predicate MergesExactly(cs: seq<Clause>, nameOf: seq<Arg>, reduced: map<Arg, nat>) {
    && (forall u :: 0 <= u < |nameOf| ==> nameOf[u] in reduced)
    && (forall u: nat, v: nat :: u < |nameOf| && v < |nameOf| && Unfixed(cs, u) && Unfixed(cs, v) && !Clashing(cs, u) ==>
          (reduced[nameOf[u]] == reduced[nameOf[v]] <==> Mutual(cs, u, v)))
    && (!UnitConflict(TheoryOf(cs), []) ==> forall u: nat, v: nat, neg :: u < |nameOf| && v < |nameOf| && Sets(cs, u, neg) && Sets(cs, v, neg) ==>
          reduced[nameOf[u]] == reduced[nameOf[v]])
  }

  lemma SelfEquivalent(cs: seq<Clause>, u: nat)
    ensures Equivalent(cs, u, u)
  {
  }

  lemma BothWays(cs: seq<Clause>, u: nat, v: nat)
    requires Implies(cs, u, v) && Implies(cs, v, u)
    ensures Equivalent(cs, u, v)
  {
  }

  lemma NotBefore(lits: seq<Lit>, i: nat)
    requires DistinctVars(lits) && i < |lits|
    ensures Pos(lits[i].v) !in lits[..i] && Neg(lits[i].v) !in lits[..i]
  {
  }

  lemma BothFixed(lits: seq<Lit>, fixedTrue: seq<nat>, fixedFalse: seq<nat>)
    requires DistinctVars(lits) && (forall v :: v in fixedTrue ==> Pos(v) in lits) && (forall v :: v in fixedFalse ==> Neg(v) in lits)
    ensures forall v :: v in fixedTrue ==> v !in fixedFalse
  {
    forall v | v in fixedTrue ensures v !in fixedFalse {
      var i :| 0 <= i < |lits| && lits[i] == Pos(v);
      forall j | 0 <= j < |lits| ensures lits[j] != Neg(v) { }
    }
  }

  /** Every model gives the variable this value. */
  ghost predicate FixedTo(cs: seq<Clause>, v: nat, b: bool) {
    forall m: Assignment :: Holds(m, cs) ==> (m(v) <==> b)
  }

  lemma FixedValue(cs: seq<Clause>, lits: seq<Lit>, l: Lit)
    requires Forced(TheoryOf(cs), [], Lits(lits)) && l in lits
    ensures FixedTo(cs, l.v, !l.neg)
  {
    forall m: Assignment | Holds(m, cs) ensures m(l.v) <==> !l.neg {
      HoldsTheory(m, cs);
      assert IsModel(m, TheoryOf(cs), []);
      assert l in Lits(lits) && True(m, l);
    }
  }

  /** All members of the class point to its first. */
  method PointTo(equivalentTo0: seq<nat>, c: seq<nat>) returns (equivalentTo: seq<nat>)
    requires forall v :: v in c ==> v < |equivalentTo0| && equivalentTo0[v] == v
    ensures |equivalentTo| == |equivalentTo0|
    ensures forall u :: 0 <= u < |equivalentTo| ==> equivalentTo[u] == if u in c then c[0] else equivalentTo0[u]
  {
    equivalentTo := equivalentTo0;
    var i := 1;
    while i < |c|
      invariant 1 <= i && (i <= |c| || |c| == 0) && |equivalentTo| == |equivalentTo0|
      invariant forall u :: 0 <= u < |equivalentTo| ==> equivalentTo[u] == if |c| > 0 && u in c[1..i] then c[0] else equivalentTo0[u]
    {
      assert c[i] in c;
      assert c[1..i + 1] == c[1..i] + [c[i]];
      equivalentTo := equivalentTo[c[i] := c[0]];
      i := i + 1;
    }
    if |c| > 0 { assert c == [c[0]] + c[1..i] && c[0] in c; }
  }

  lemma FixedClass(cs: seq<Clause>, n: nat, lits: seq<Lit>, neg: bool, c: seq<nat>, equivalentTo: seq<nat>, fixed: seq<bool>)
    requires Forced(TheoryOf(cs), [], Lits(lits)) && |equivalentTo| == |fixed| == n
    requires forall v :: v in c ==> v < n && Lit(v, neg) in lits && equivalentTo[v] == c[0] && fixed[v]
    ensures |c| > 0 ==> ClassOk(cs, n, c, equivalentTo, fixed)
  {
    hide Forced, TheoryOf, Equivalent;
    forall i | 0 <= i < |c| ensures c[i] < n && Equivalent(cs, c[0], c[i]) && equivalentTo[c[i]] == c[0] {
      assert c[i] in c && c[0] in c;
      ForcedEquivalent(cs, lits, Lit(c[0], neg), Lit(c[i], neg));
    }
    assert |c| > 0 ==> c[0] in c;
  }

  lemma TwoClasses(classes: seq<seq<nat>>, a: seq<nat>, b: seq<nat>, u: nat)
    requires classes == (if |a| > 0 then [a] else []) + (if |b| > 0 then [b] else [])
    ensures InClass(classes, u) <==> u in a || u in b
  {
    if u in a { assert u in classes[0]; }
    if u in b { assert u in classes[|classes| - 1]; }
  }

  lemma EquivalentVia(cs: seq<Clause>, a: nat, u: nat, v: nat)
    requires Equivalent(cs, a, u) && Equivalent(cs, a, v)
    ensures Equivalent(cs, u, v)
  {
  }

  /** Arguments with the same new variable had equivalent old ones. */
  ghost predicate MergesEquivalent(cs: seq<Clause>, nameOf: seq<Arg>, reduced: map<Arg, nat>) {
    && (forall u :: 0 <= u < |nameOf| ==> nameOf[u] in reduced)
    && (forall u: nat, v: nat :: u < |nameOf| && v < |nameOf| && reduced[nameOf[u]] == reduced[nameOf[v]] ==> Equivalent(cs, u, v))
  }

  // ----- what merging means for extensions -----

  /** A set described by a model of the clauses is a union of merged arguments. */
  lemma ModelUniform(e: Enc, varOf: map<Arg, nat>, cs: seq<Clause>, reduced: map<Arg, nat>, m: Assignment, s: set<Arg>)
    requires Numbered(e.names, varOf) && e.varOf == varOf && MergesEquivalent(cs, e.names, reduced)
    requires Holds(m, cs) && Ext(e, m) == s
    ensures Uniform(Plain(e.names, reduced), s)
  {
    var p := Plain(e.names, reduced);
    forall a, b | a in e.names && b in e.names && p.X(a) == p.X(b) ensures a in s <==> b in s {
      var u: nat :| u < |e.names| && e.names[u] == a;
      var v: nat :| v < |e.names| && e.names[v] == b;
      assert e.X(a) == u && e.X(b) == v;
      assert Equivalent(cs, u, v);
      assert m(u) <==> m(v);
      assert a in Ext(e, m) <==> m(e.X(a));
      assert b in Ext(e, m) <==> m(e.X(b));
    }
  }

  lemma NumberedUniform(e: Enc, varOf: map<Arg, nat>, s: set<Arg>)
    requires Numbered(e.names, varOf) && e.varOf == varOf
    ensures Uniform(e, s)
  {
    forall a, b | a in e.names && b in e.names && e.X(a) == e.X(b) ensures a == b {
      var u :| 0 <= u < |e.names| && e.names[u] == a;
      var v :| 0 <= v < |e.names| && e.names[v] == b;
    }
  }

  /** Merging by the complete or the conflict-free encoding respects the extensions of every step. */
  lemma ReducedMergesBase(h: SatEncodingHelper, varOf: map<Arg, nat>, attacks: Attacks, n: nat, complete: bool, reduced: map<Arg, nat>, step: int)
    requires Encoded(h, attacks, n) && Numbered(h.names, varOf) && h.varOf == varOf && -1 <= step < |attacks.dynAttacks|
    requires MergesEquivalent(BaseEncoding(h.EncNow(), complete), h.names, reduced)
    ensures MergesBase(Plain(h.names, reduced), FrameworkAfter(h.names, attacks, step), complete)
  {
    hide AllOwned, Selects, Declared, Covers, CompleteEncoding, ConflictFreeEncoding, MergesEquivalent, Holds, Uniform, Complete, ConflictFree, Numbered;
    var e, r := h.EncNow(), Replay(attacks.initial, attacks.dynAttacks, step + 1);
    ReplaySelects(e, attacks.dynAttacks, attacks.initial, step + 1);
    forall s | Base(At(e, r), complete, s) ensures Uniform(Plain(h.names, reduced), s) {
      NumberedUniform(e, varOf, s);
      if complete { CompleteModels(e, h.owner, s, r); } else { ConflictFreeModels(e, h.owner, s, r); }
      var m: Assignment :| Holds(m, BaseEncoding(e, complete)) && Switched(e, m, r) && Ext(e, m) == s;
      ModelUniform(e, varOf, BaseEncoding(e, complete), reduced, m, s);
    }
  }

  lemma BaseMergesComplete(e: Enc, f: Framework)
    requires MergesBase(e, f, true)
    ensures Merges(e, f)
  {
    forall s | Complete(f, s) ensures Uniform(e, s) { assert Base(f, true, s); }
  }

  /** The encoding over these arguments, with one variable each, their attacks and their changes. */
  ghost predicate EncodedFrom(e: Enc, nameOf: seq<Arg>, varOf: map<Arg, nat>, attacks: Attacks)
    reads attacks
  {
    e.names == nameOf && e.varOf == varOf && e.attacks == attacks.attacks && Covers(e.dyn, attacks.dynAttacks, |attacks.dynAttacks|)
  }

  /** Merges arguments before solving: encodes with one variable each, looks for equivalences, and
      gives every class one variable. */
  method ReduceBase(nameOf: seq<Arg>, varOf: map<Arg, nat>, attacks: Attacks, complete: bool) returns (reduced: map<Arg, nat>, n: nat, ghost e: Enc)
    requires Numbered(nameOf, varOf) && attacks.Valid() && DeclaredIn(nameOf, attacks.initial, attacks.dynAttacks)
    ensures InputOk(nameOf, reduced, n, attacks)
    ensures forall step :: -1 <= step < |attacks.dynAttacks| ==> MergesBase(Plain(nameOf, reduced), FrameworkAfter(nameOf, attacks, step), complete)
    ensures EncodedFrom(e, nameOf, varOf, attacks) && MergesExactly(BaseEncoding(e, complete), nameOf, reduced)
  {
    hide AllOwned, Declared, Covers, BaseEncoding, MergesEquivalent, MergesExactly, InClass, MergesBase, RangeSofts, ClausesBelow,
      SatProblemReducer.FixedExactly, SatProblemReducer.ClassesExact;
    NumberedInput(nameOf, varOf);
    var h := RangeEncode(nameOf, varOf, |nameOf|, attacks, complete);
    EncodingBelow(h.EncNow(), h.owner);
    BaseIsOne(h.EncNow(), complete);
    var reducer := new SatProblemReducer(|nameOf|, h.nbVars, h.clauses);
    reducer.Search();
    reduced := reducer.TranslateVarMap(nameOf);
    reducer.Merged(nameOf, reduced);
    reducer.Exactly(nameOf, reduced);
    n, e := |reducer.eqClasses|, h.EncNow();
    forall step | -1 <= step < |attacks.dynAttacks| ensures MergesBase(Plain(nameOf, reduced), FrameworkAfter(nameOf, attacks, step), complete) {
      ReducedMergesBase(h, varOf, attacks, |nameOf|, complete, reduced, step);
    }
  }

  lemma BaseIsOne(e: Enc, complete: bool)
    ensures BaseEncoding(e, complete) == if complete then CompleteEncoding(e) else ConflictFreeEncoding(e)
  {
  }

  lemma ReducedMergesStable(e: Enc, owner: seq<Owner>, varOf: map<Arg, nat>, attacks: Attacks, reduced: map<Arg, nat>, step: int)
    requires AllOwned(e, owner, false) && Declared(e) && Covers(e.dyn, attacks.dynAttacks, |attacks.dynAttacks|) && e.attacks == attacks.attacks
    requires attacks.Valid() && Numbered(e.names, varOf) && e.varOf == varOf && -1 <= step < |attacks.dynAttacks|
    requires MergesEquivalent(StableEncoding(e), e.names, reduced)
    ensures MergesStable(Plain(e.names, reduced), FrameworkAfter(e.names, attacks, step))
  {
    hide AllOwned, Selects, Declared, Covers, StableEncoding, MergesEquivalent, Holds, Uniform, Stable, Numbered;
    var r := Replay(attacks.initial, attacks.dynAttacks, step + 1);
    ReplaySelects(e, attacks.dynAttacks, attacks.initial, step + 1);
    forall s | Stable(At(e, r), s) ensures Uniform(Plain(e.names, reduced), s) {
      NumberedUniform(e, varOf, s);
      StableModels(e, owner, s, r);
      var m: Assignment :| Holds(m, StableEncoding(e)) && Switched(e, m, r) && Ext(e, m) == s;
      ModelUniform(e, varOf, StableEncoding(e), reduced, m, s);
    }
  }

  method ReduceStable(nameOf: seq<Arg>, varOf: map<Arg, nat>, attacks: Attacks) returns (reduced: map<Arg, nat>, n: nat, ghost e: Enc)
    requires Numbered(nameOf, varOf) && attacks.Valid() && DeclaredIn(nameOf, attacks.initial, attacks.dynAttacks)
    ensures InputOk(nameOf, reduced, n, attacks)
    ensures forall step :: -1 <= step < |attacks.dynAttacks| ==> MergesStable(Plain(nameOf, reduced), FrameworkAfter(nameOf, attacks, step))
    ensures EncodedFrom(e, nameOf, varOf, attacks) && MergesExactly(StableEncoding(e), nameOf, reduced)
  {
    hide AllOwned, Declared, Covers, StableEncoding, MergesEquivalent, MergesExactly, InClass, MergesStable, ClausesBelow, Selects,
      SatProblemReducer.FixedExactly, SatProblemReducer.ClassesExact;
    NumberedInput(nameOf, varOf);
    var h, unused := StableStart(nameOf, varOf, |nameOf|, attacks, -1);
    var reducer := new SatProblemReducer(|nameOf|, h.nbVars, h.clauses);
    reducer.Search();
    reduced := reducer.TranslateVarMap(nameOf);
    reducer.Merged(nameOf, reduced);
    reducer.Exactly(nameOf, reduced);
    n, e := |reducer.eqClasses|, h.EncNow();
    forall step | -1 <= step < |attacks.dynAttacks| ensures MergesStable(Plain(nameOf, reduced), FrameworkAfter(nameOf, attacks, step)) {
      ReducedMergesStable(h.EncNow(), h.owner, varOf, attacks, reduced, step);
    }
  }
}
