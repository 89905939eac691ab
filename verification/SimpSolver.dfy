/** The simplifier: clauses added under the values known already, backward subsumption, and elimination of variables. */
module Simplifier {
  import opened Cnf
  import opened Subsumption
  import opened VariableElimination
  import T = Trail
  import C = Clauses

  // ----- clauses and values -----

  /** The trail has each variable with a value once, with that value. */
  ghost predicate TrailFits(values: seq<T.LBool>, trail: seq<Lit>) {
    && DistinctVars(trail)
    && (forall l :: l in trail ==> l.v < |values| && values[l.v] == ValueFor(l))
    && forall v :: 0 <= v < |values| && values[v] != T.LUndef ==> exists l :: l in trail && l.v == v
  }

  /** The stored clauses have two literals or more, over different variables below `n`; `refs` lists them. */
  ghost predicate StoredOk(ca: map<nat, Clause>, refs: seq<nat>, n: nat) {
    forall r :: r in ca ==> r in refs && |ca[r]| >= 2 && DistinctVars(ca[r]) && forall l :: l in ca[r] ==> l.v < n
  }

  /** What is left says nothing about the first `k` literals of the trail. */
  ghost predicate CleanTo(ca: map<nat, Clause>, trail: seq<Lit>, k: nat) {
    forall i, r :: 0 <= i < k && i < |trail| && r in ca ==> !Mentions(ca[r], trail[i].v)
  }

  ghost function Units(trail: seq<Lit>): set<Clause> {
    set l | l in trail :: [l]
  }

  /** The stored clauses and the known values, as clauses. */
  ghost function FormulaOf(ca: map<nat, Clause>, trail: seq<Lit>): set<Clause> {
    (set r | r in ca :: ca[r]) + Units(trail)
  }

  lemma StoredIn(ca: map<nat, Clause>, trail: seq<Lit>, r: nat)
    requires r in ca
    ensures ca[r] in FormulaOf(ca, trail)
  {
  }

  lemma UnitIn(ca: map<nat, Clause>, trail: seq<Lit>, l: Lit)
    requires l in trail
    ensures [l] in FormulaOf(ca, trail)
  {
    assert [l] in Units(trail);
  }

  lemma FormulaHas(ca: map<nat, Clause>, trail: seq<Lit>, c: Clause)
    ensures c in FormulaOf(ca, trail) <==> (exists r :: r in ca && ca[r] == c) || (exists l :: l in trail && c == [l])
  {
  }

  lemma UnitSat(m: Assignment, l: Lit)
    ensures Sat(m, Lits([l])) <==> True(m, l)
  {
    assert l in Lits([l]);
  }

  lemma TrueIn(values: seq<T.LBool>, trail: seq<Lit>, l: Lit)
    requires TrailFits(values, trail)
    ensures Val(values, l) == T.LTrue ==> l in trail
    ensures Val(values, l) == T.LFalse ==> l.Not() in trail
  {
    if Val(values, l) != T.LUndef {
      var q :| q in trail && q.v == l.v;
      assert q == l || q == l.Not();
    }
  }

  /** A model of the formula agrees with the values. */
  lemma ValueHolds(m: Assignment, ca: map<nat, Clause>, values: seq<T.LBool>, trail: seq<Lit>, l: Lit)
    requires AllSat(m, FormulaOf(ca, trail)) && TrailFits(values, trail)
    ensures Val(values, l) == T.LTrue ==> True(m, l)
    ensures Val(values, l) == T.LFalse ==> !True(m, l)
  {
    hide TrailFits, Val;
    TrueIn(values, trail, l);
    if l in trail {
      UnitIn(ca, trail, l);
      UnitSat(m, l);
    }
    if l.Not() in trail {
      UnitIn(ca, trail, l.Not());
      UnitSat(m, l.Not());
    }
  }

  /** All literals of the clause are false. */
  predicate AllFalse(values: seq<T.LBool>, c: Clause) {
    forall l :: l in c ==> Val(values, l) == T.LFalse
  }

  /** The literal has no value, and all others of the clause are false. */
  predicate OnlyOpen(values: seq<T.LBool>, c: Clause, l: Lit) {
    l in c && Val(values, l) == T.LUndef && forall q :: q in c && q != l ==> Val(values, q) == T.LFalse
  }

  /** A clause with only false literals has no model together with the formula. */
  lemma FalseRefutes(ca: map<nat, Clause>, values: seq<T.LBool>, trail: seq<Lit>, f: set<Clause>, c: set<Lit>)
    requires TrailFits(values, trail) && forall l :: l in c ==> Val(values, l) == T.LFalse
    requires forall m: Assignment :: AllSat(m, f) ==> AllSat(m, FormulaOf(ca, trail)) && Sat(m, c)
    ensures !HasModel(f)
  {
    hide TrailFits, FormulaOf, AllSat, Val;
    forall m: Assignment ensures !AllSat(m, f) {
      if AllSat(m, f) {
        var l :| l in c && True(m, l);
        ValueHolds(m, ca, values, trail, l);
      }
    }
  }

  /** The only literal that is not false holds in every model. */
  lemma OpenHolds(m: Assignment, ca: map<nat, Clause>, values: seq<T.LBool>, trail: seq<Lit>, c: set<Lit>, l: Lit)
    requires AllSat(m, FormulaOf(ca, trail)) && TrailFits(values, trail) && Sat(m, c)
    requires forall q :: q in c && q != l ==> Val(values, q) == T.LFalse
    ensures True(m, l)
  {
    hide TrailFits, FormulaOf, AllSat, Val;
    var q :| q in c && True(m, q);
    ValueHolds(m, ca, values, trail, q);
  }

  lemma NewUnit(ca: map<nat, Clause>, trail: seq<Lit>, l: Lit)
    ensures FormulaOf(ca, trail + [l]) == FormulaOf(ca, trail) + {[l]}
  {
    forall c ensures c in Units(trail + [l]) <==> c in Units(trail) || c == [l] {
      if c in Units(trail + [l]) {
        var q :| q in trail + [l] && c == [q];
      }
      if c in Units(trail) {
        var q :| q in trail && c == [q];
        assert q in trail + [l];
      }
      assert l in trail + [l];
    }
  }

  lemma NewValue(values: seq<T.LBool>, trail: seq<Lit>, l: Lit)
    requires TrailFits(values, trail) && l.v < |values| && Val(values, l) == T.LUndef
    ensures TrailFits(values[l.v := ValueFor(l)], trail + [l])
  {
    var values', trail' := values[l.v := ValueFor(l)], trail + [l];
    forall q | q in trail' ensures q.v < |values'| && values'[q.v] == ValueFor(q) { assert q in trail || q == l; }
    DistinctPush(trail, l);
    forall v | 0 <= v < |values'| && values'[v] != T.LUndef ensures exists q :: q in trail' && q.v == v {
      if v == l.v {
        assert l in trail';
      } else {
        var q :| q in trail && q.v == v;
        assert q in trail';
      }
    }
  }

  lemma TrailShort(values: seq<T.LBool>, trail: seq<Lit>)
    requires TrailFits(values, trail)
    ensures |trail| <= |values|
  {
    VarsCount(trail);
    BelowCount(Vars(trail), |values|);
  }

  lemma BelowCount(s: set<nat>, n: nat)
    requires forall v :: v in s ==> v < n
    ensures |s| <= n
  {
    if n == 0 {
      assert s == {};
    } else {
      BelowCount(s - {n - 1}, n - 1);
    }
  }

  lemma CleanMore(ca: map<nat, Clause>, trail: seq<Lit>, l: Lit, k: nat)
    requires CleanTo(ca, trail, k) && k <= |trail|
    ensures CleanTo(ca, trail + [l], k)
  {
    forall i | 0 <= i < k ensures (trail + [l])[i] == trail[i] { }
  }

  /** A clause over variables without a value is clean. */
  lemma CleanNew(ca: map<nat, Clause>, values: seq<T.LBool>, trail: seq<Lit>, k: nat, r: nat, c: Clause)
    requires CleanTo(ca, trail, k) && TrailFits(values, trail) && forall l :: l in c ==> Val(values, l) == T.LUndef
    ensures CleanTo(ca[r := c], trail, k)
  {
    forall i | 0 <= i < k && i < |trail| ensures !Mentions(c, trail[i].v) {
      assert trail[i] in trail;
    }
  }

  // ----- the size of what is left -----

  ghost function Size(ca: map<nat, Clause>, refs: seq<nat>): nat {
    if refs == [] then 0 else Size(ca, refs[..|refs| - 1]) + if refs[|refs| - 1] in ca then |ca[refs[|refs| - 1]]| else 0
  }

  /** Every clause has lost literals or gone. */
  ghost predicate Shrunk(ca: map<nat, Clause>, ca': map<nat, Clause>) {
    forall r :: r in ca' ==> r in ca && |ca'[r]| <= |ca[r]| && Lits(ca'[r]) <= Lits(ca[r])
  }

  lemma {:induction false} SizeShrunk(ca: map<nat, Clause>, ca': map<nat, Clause>, refs: seq<nat>)
    requires Shrunk(ca, ca')
    ensures Size(ca', refs) <= Size(ca, refs)
  {
    if refs != [] { SizeShrunk(ca, ca', refs[..|refs| - 1]); }
  }

  lemma {:induction false} SizeLess(ca: map<nat, Clause>, ca': map<nat, Clause>, refs: seq<nat>, r: nat)
    requires Shrunk(ca, ca') && r in refs && r in ca && |ca[r]| > 0 && (r in ca' ==> |ca'[r]| < |ca[r]|)
    ensures Size(ca', refs) < Size(ca, refs)
  {
    var front := refs[..|refs| - 1];
    SizeShrunk(ca, ca', front);
    assert refs == front + [refs[|refs| - 1]];
    if refs[|refs| - 1] != r { SizeLess(ca, ca', front, r); }
  }

  lemma ShrunkTrans(a: map<nat, Clause>, b: map<nat, Clause>, c: map<nat, Clause>)
    requires Shrunk(a, b) && Shrunk(b, c)
    ensures Shrunk(a, c)
  {
  }

  lemma ShrunkOk(ca: map<nat, Clause>, ca': map<nat, Clause>, refs: seq<nat>, n: nat)
    requires StoredOk(ca, refs, n) && Shrunk(ca, ca') && forall r :: r in ca' ==> |ca'[r]| >= 2 && DistinctVars(ca'[r])
    ensures StoredOk(ca', refs, n)
  {
    forall r, l | r in ca' && l in ca'[r] ensures l.v < n {
      assert l in Lits(ca'[r]);
      assert l in Lits(ca[r]);
    }
  }

  lemma ShrunkClean(ca: map<nat, Clause>, ca': map<nat, Clause>, trail: seq<Lit>, k: nat)
    requires CleanTo(ca, trail, k) && Shrunk(ca, ca')
    ensures CleanTo(ca', trail, k)
  {
    forall i, r | 0 <= i < k && i < |trail| && r in ca' ensures !Mentions(ca'[r], trail[i].v) {
      assert !Mentions(ca[r], trail[i].v);
      forall l | l in ca'[r] ensures l.v != trail[i].v {
        assert l in Lits(ca'[r]);
        assert l in Lits(ca[r]);
      }
    }
  }

  // ----- clauses added, shrunk and removed -----

  lemma GrownFormula(ca: map<nat, Clause>, trail: seq<Lit>, r: nat, c: Clause)
    requires r !in ca
    ensures FormulaOf(ca[r := c], trail) == FormulaOf(ca, trail) + {c}
  {
    var ca' := ca[r := c];
    forall x ensures x in FormulaOf(ca', trail) <==> x in FormulaOf(ca, trail) + {c} {
      FormulaHas(ca, trail, x);
      FormulaHas(ca', trail, x);
      if q :| q in ca && ca[q] == x { assert q in ca' && ca'[q] == x; }
      assert ca'[r] == c;
    }
  }

  lemma LessFormula(ca: map<nat, Clause>, trail: seq<Lit>, r: nat)
    requires r in ca
    ensures FormulaOf(ca - {r}, trail) <= FormulaOf(ca, trail) <= FormulaOf(ca - {r}, trail) + {ca[r]}
  {
    var ca' := ca - {r};
    forall x | x in FormulaOf(ca, trail) ensures x in FormulaOf(ca', trail) + {ca[r]} {
      FormulaHas(ca, trail, x);
      FormulaHas(ca', trail, x);
      if q :| q in ca && ca[q] == x && q != r { assert q in ca' && ca'[q] == x; }
    }
    forall x | x in FormulaOf(ca', trail) ensures x in FormulaOf(ca, trail) {
      FormulaHas(ca, trail, x);
      FormulaHas(ca', trail, x);
      if q :| q in ca' && ca'[q] == x { assert q in ca && ca[q] == x; }
    }
  }

  lemma ChangedFormula(ca: map<nat, Clause>, trail: seq<Lit>, r: nat, c: Clause)
    requires r in ca
    ensures FormulaOf(ca[r := c], trail) <= FormulaOf(ca, trail) + {c} && FormulaOf(ca, trail) <= FormulaOf(ca[r := c], trail) + {ca[r]}
    ensures c in FormulaOf(ca[r := c], trail)
  {
    var ca' := ca - {r};
    LessFormula(ca, trail, r);
    GrownFormula(ca', trail, r, c);
    assert ca'[r := c] == ca[r := c];
  }

  /** A clause is added; under the known values only `out` is left of it. */
  lemma AddedFormula(ca: map<nat, Clause>, values: seq<T.LBool>, trail: seq<Lit>, ps: Clause, out: Clause)
    requires TrailFits(values, trail) && Lits(out) <= Lits(ps) && forall l :: l in ps ==> l in out || Val(values, l) == T.LFalse
    ensures Stronger(FormulaOf(ca, trail) + {ps}, FormulaOf(ca, trail) + {out})
  {
    hide TrailFits, FormulaOf, Sat;
    var f := FormulaOf(ca, trail);
    forall m: Assignment | AllSat(m, f + {ps}) ensures Sat(m, Lits(out)) {
      assert AllSat(m, f) && Sat(m, Lits(ps));
      LeftHolds(m, ca, values, trail, ps, out);
    }
    forall m: Assignment | AllSat(m, f + {ps}) ensures AllSat(m, f + {out}) { }
    forall c | c in f + {ps} ensures Inside(f + {out}, Lits(c)) {
      if c in f { assert c in f + {out}; } else { assert out in f + {out}; }
    }
  }

  lemma LeftHolds(m: Assignment, ca: map<nat, Clause>, values: seq<T.LBool>, trail: seq<Lit>, ps: Clause, out: Clause)
    requires TrailFits(values, trail) && forall l :: l in ps ==> l in out || Val(values, l) == T.LFalse
    requires AllSat(m, FormulaOf(ca, trail)) && Sat(m, Lits(ps))
    ensures Sat(m, Lits(out))
  {
    hide TrailFits, FormulaOf, Val, AllSat;
    var l :| l in Lits(ps) && True(m, l);
    ValueHolds(m, ca, values, trail, l);
    assert l in Lits(out);
  }

  /** A clause with a true literal says nothing new. */
  lemma TrueFormula(ca: map<nat, Clause>, values: seq<T.LBool>, trail: seq<Lit>, ps: Clause, l: Lit)
    requires TrailFits(values, trail) && l in ps && Val(values, l) == T.LTrue
    ensures Stronger(FormulaOf(ca, trail) + {ps}, FormulaOf(ca, trail))
  {
    hide Sat;
    TrueIn(values, trail, l);
    UnitIn(ca, trail, l);
    assert Lits([l]) <= Lits(ps);
    DropSubsumed(FormulaOf(ca, trail) + {ps}, FormulaOf(ca, trail), [l], ps);
  }

  ghost predicate Tautology(c: Clause) {
    exists l :: l in c && l.Not() in c
  }

  /** The old clauses stay, and a new one has literals of `ls` only. */
  ghost predicate GrownBy(ca: map<nat, Clause>, ca': map<nat, Clause>, ls: set<Lit>) {
    && (forall r :: r in ca ==> r in ca' && ca'[r] == ca[r])
    && forall r :: r in ca' && r !in ca ==> Lits(ca'[r]) <= ls
  }

  // ----- what backward subsumption has tried -----

  /** The clause is not too large to be tested. */
  predicate Below(lim: int, c: Clause) {
    lim == -1 || |c| < lim
  }

  /** A clause that is new, was queued or has changed since `ca0` neither subsumes nor strengthens another one. */
  ghost predicate Settled(ca0: map<nat, Clause>, ca: map<nat, Clause>, queue0: seq<nat>) {
    forall x, q :: x in ca && (x !in ca0 || x in queue0 || ca[x] != ca0[x]) && q in ca && q != x ==> Related(ca[x], ca[q], Unrelated)
  }

  lemma NothingQueued(ca: map<nat, Clause>, queue: seq<nat>)
    ensures NewQueued(ca, ca, queue, queue)
  {
  }

  lemma QueuedTrans(a: map<nat, Clause>, b: map<nat, Clause>, c: map<nat, Clause>, p: seq<nat>, q: seq<nat>, r: seq<nat>)
    requires NewQueued(a, b, p, q) && NewQueued(b, c, q, r)
    ensures NewQueued(a, c, p, r)
  {
  }

  /** The resolvents `ca1`, less some removed ones, were settled. */
  lemma SettledSince(ca0: map<nat, Clause>, ca1: map<nat, Clause>, ca2: map<nat, Clause>, ca: map<nat, Clause>, queue0: seq<nat>, queue: seq<nat>, ls: set<Lit>)
    requires GrownBy(ca0, ca1, ls) && NewQueued(ca0, ca1, queue0, queue) && Shrunk(ca2, ca) && Settled(ca2, ca, queue)
    requires forall r :: r in ca2 ==> r in ca1 && ca2[r] == ca1[r]
    ensures Settled(ca0, ca, queue0)
  {
    hide Related;
  }

  /** `c` has been tried on the clauses: it neither subsumes nor strengthens any other one that was below the limit in `ca0`. */
  ghost predicate Tried(ca0: map<nat, Clause>, ca: map<nat, Clause>, c: Clause, self: Option<nat>, lim: int) {
    forall q :: q in ca && q in ca0 && Some(q) != self && Below(lim, ca0[q]) ==> Related(c, ca[q], Unrelated)
  }

  /** The clauses queued or changed since `ca0` have been tried, but for those still in the queue. */
  ghost predicate QueueTried(ca0: map<nat, Clause>, ca: map<nat, Clause>, queue0: seq<nat>, queue: seq<nat>, lim: int) {
    forall x :: x in ca && x in ca0 && (x in queue0 || ca[x] != ca0[x]) && x !in queue ==> Tried(ca0, ca, ca[x], Some(x), lim)
  }

  /** The values `from..to` of the trail have been tried. */
  ghost predicate ValuesTried(ca0: map<nat, Clause>, ca: map<nat, Clause>, trail: seq<Lit>, from: nat, to: nat, lim: int) {
    forall i :: from <= i < to && i < |trail| ==> Tried(ca0, ca, [trail[i]], None, lim)
  }

  /** A new clause is queued, and nothing leaves the queue. */
  ghost predicate NewQueued(ca: map<nat, Clause>, ca': map<nat, Clause>, queue: seq<nat>, queue': seq<nat>) {
    queue <= queue' && forall x :: x in ca' && x !in ca ==> x in queue'
  }

  /** A changed clause is queued, and nothing leaves the queue. */
  ghost predicate Requeued(ca: map<nat, Clause>, ca': map<nat, Clause>, queue: seq<nat>, queue': seq<nat>) {
    && (forall x :: x in ca' && x in ca ==> ca'[x] == ca[x] || x in queue')
    && forall x :: x in queue ==> x in queue'
  }

  lemma RequeuedTrans(a: map<nat, Clause>, b: map<nat, Clause>, c: map<nat, Clause>, p: seq<nat>, q: seq<nat>, r: seq<nat>)
    requires Requeued(a, b, p, q) && Requeued(b, c, q, r) && Shrunk(b, c)
    ensures Requeued(a, c, p, r)
  {
  }

  /** A clause that is unrelated to another stays so when that one loses literals. */
  lemma UnrelatedLess(c: Clause, d: Clause, e: Clause)
    requires Related(c, d, Unrelated) && Lits(e) <= Lits(d)
    ensures Related(c, e, Unrelated)
  {
    forall l | l in e ensures l in d { assert l in Lits(e) && l in Lits(d); }
    forall p ensures !ShrinksBy(c, e, p) {
      assert ShrinksBy(c, e, p) ==> ShrinksBy(c, d, p);
    }
  }

  /** A clause has nothing left to do with the one it has strengthened. */
  lemma StrengthenedUnrelated(c: Clause, d: Clause, e: Clause, p: Lit)
    requires DistinctVars(d) && ShrinksBy(c, d, p) && Lits(e) == Lits(d) - {p.Not()}
    ensures Related(c, e, Unrelated)
  {
    OneSign(d, p.Not());
    assert p !in Lits(e) && p.Not() !in Lits(e) && p in Lits(c);
    assert p !in e && p.Not() !in e;
  }

  /** A clause is unrelated to those without one of its variables. */
  lemma ElsewhereUnrelated(c: Clause, d: Clause, v: nat)
    requires Mentions(c, v) && !Mentions(d, v)
    ensures Related(c, d, Unrelated)
  {
    var l :| l in c && l.v == v;
    assert l in Lits(c) && l !in Lits(d);
  }

  lemma UnitUnrelated(l: Lit, d: Clause)
    ensures Related([l], d, Unrelated) <==> !Mentions(d, l.v)
  {
    assert Lits([l]) == {l};
    if Related([l], d, Unrelated) {
      assert l !in Lits(d) && !ShrinksBy([l], d, l);
      forall q | q in d ensures q.v != l.v { assert q == l || q == l.Not() || q.v != l.v; }
    } else {
      assert l in Lits(d) ==> l in d;
    }
  }

  lemma TriedLess(ca0: map<nat, Clause>, ca: map<nat, Clause>, ca': map<nat, Clause>, c: Clause, self: Option<nat>, lim: int)
    requires Tried(ca0, ca, c, self, lim) && Shrunk(ca, ca')
    ensures Tried(ca0, ca', c, self, lim)
  {
    hide Related;
    forall q | q in ca' && q in ca0 && Some(q) != self && Below(lim, ca0[q]) ensures Related(c, ca'[q], Unrelated) {
      UnrelatedLess(c, ca[q], ca'[q]);
    }
  }

  lemma TriedEarlier(ca0: map<nat, Clause>, ca: map<nat, Clause>, ca': map<nat, Clause>, c: Clause, self: Option<nat>, lim: int)
    requires Tried(ca, ca', c, self, lim) && Shrunk(ca0, ca) && Shrunk(ca, ca')
    ensures Tried(ca0, ca', c, self, lim)
  {
  }

  /** `c` has been tried on the first `j` of the listed clauses. */
  ghost predicate TriedTo(ca0: map<nat, Clause>, ca: map<nat, Clause>, c: Clause, self: Option<nat>, cs: seq<nat>, j: nat, lim: int) {
    forall k :: 0 <= k < j && k < |cs| && cs[k] in ca && cs[k] in ca0 && Some(cs[k]) != self && Below(lim, ca0[cs[k]]) ==> Related(c, ca[cs[k]], Unrelated)
  }

  lemma NothingTried(ca: map<nat, Clause>, queue: seq<nat>)
    ensures Shrunk(ca, ca) && Requeued(ca, ca, queue, queue)
  {
  }

  lemma TriedNext(ca0: map<nat, Clause>, ca: map<nat, Clause>, ca': map<nat, Clause>, c: Clause, self: Option<nat>, cs: seq<nat>, j: nat, lim: int)
    requires TriedTo(ca0, ca, c, self, cs, j, lim) && j < |cs| && Shrunk(ca0, ca) && Shrunk(ca, ca')
    requires cs[j] in ca' && Some(cs[j]) != self && Below(lim, ca[cs[j]]) ==> Related(c, ca'[cs[j]], Unrelated)
    ensures TriedTo(ca0, ca', c, self, cs, j + 1, lim)
  {
    hide Related;
    forall k | 0 <= k < j + 1 && cs[k] in ca' && cs[k] in ca0 && Some(cs[k]) != self && Below(lim, ca0[cs[k]]) ensures Related(c, ca'[cs[k]], Unrelated) {
      if k < j { UnrelatedLess(c, ca[cs[k]], ca'[cs[k]]); }
    }
  }

  /** Trying the clauses with one variable of `c` is enough. */
  lemma TriedBy(ca0: map<nat, Clause>, ca: map<nat, Clause>, c: Clause, self: Option<nat>, cs: seq<nat>, best: nat, lim: int)
    requires TriedTo(ca0, ca, c, self, cs, |cs|, lim) && Shrunk(ca0, ca) && Mentions(c, best)
    requires forall r :: r in ca0 && Mentions(ca0[r], best) ==> r in cs
    ensures Tried(ca0, ca, c, self, lim)
  {
    hide Related, Mentions;
    forall q | q in ca && q in ca0 && Some(q) != self && Below(lim, ca0[q]) ensures Related(c, ca[q], Unrelated) {
      if q in cs {
        var k :| 0 <= k < |cs| && cs[k] == q;
      } else {
        ElsewhereUnrelated(c, ca0[q], best);
        UnrelatedLess(c, ca0[q], ca[q]);
      }
    }
  }

  lemma StartTrying(ca: map<nat, Clause>, queue: seq<nat>, trail: seq<Lit>, k: nat, lim: int)
    ensures Shrunk(ca, ca) && QueueTried(ca, ca, queue, queue, lim) && ValuesTried(ca, ca, trail, k, k, lim)
  {
  }

  /** One turn: the clause `self` was tried, if any. */
  lemma QueueTurn(ca0: map<nat, Clause>, ca: map<nat, Clause>, ca': map<nat, Clause>, queue0: seq<nat>, queue: seq<nat>, queue1: seq<nat>, queue': seq<nat>, self: Option<nat>, lim: int)
    requires QueueTried(ca0, ca, queue0, queue, lim) && Shrunk(ca0, ca) && Shrunk(ca, ca') && Requeued(ca, ca', queue1, queue')
    requires forall x :: x in queue ==> Some(x) == self || x in queue1
    requires self.Some? && self.value in ca' ==> Tried(ca, ca', ca'[self.value], self, lim)
    ensures QueueTried(ca0, ca', queue0, queue', lim)
  {
    hide Tried;
    forall x | x in ca' && x in ca0 && (x in queue0 || ca'[x] != ca0[x]) && x !in queue' ensures Tried(ca0, ca', ca'[x], Some(x), lim) {
      assert ca'[x] == ca[x];
      if Some(x) == self {
        TriedEarlier(ca0, ca, ca', ca'[x], self, lim);
      } else {
        TriedLess(ca0, ca, ca', ca[x], Some(x), lim);
      }
    }
  }

  lemma ValuesLess(ca0: map<nat, Clause>, ca: map<nat, Clause>, ca': map<nat, Clause>, trail: seq<Lit>, trail': seq<Lit>, from: nat, to: nat, lim: int)
    requires ValuesTried(ca0, ca, trail, from, to, lim) && Shrunk(ca, ca') && trail <= trail' && to <= |trail|
    ensures ValuesTried(ca0, ca', trail', from, to, lim)
  {
    hide Tried;
    forall i | from <= i < to && i < |trail'| ensures Tried(ca0, ca', [trail'[i]], None, lim) {
      assert trail'[i] == trail[i];
      TriedLess(ca0, ca, ca', [trail[i]], None, lim);
    }
  }

  lemma ValuesNext(ca0: map<nat, Clause>, ca: map<nat, Clause>, ca': map<nat, Clause>, trail: seq<Lit>, from: nat, to: nat, lim: int)
    requires ValuesTried(ca0, ca', trail, from, to, lim) && to < |trail| && Shrunk(ca0, ca) && Shrunk(ca, ca')
    requires Tried(ca, ca', [trail[to]], None, lim)
    ensures ValuesTried(ca0, ca', trail, from, to + 1, lim)
  {
    hide Tried;
    TriedEarlier(ca0, ca, ca', [trail[to]], None, lim);
  }

  // ----- a run of eliminations -----

  /** The state between two eliminations. */
  datatype Stage = Stage(ca: map<nat, Clause>, clauses: seq<nat>, values: seq<T.LBool>, trail: seq<Lit>, eliminated: seq<bool>)

  /** The check for subsumption has been made: smaller clauses that say the same, and none of the queued ones or the new
      values has anything left to do. */
  ghost predicate Checked(a: Stage, queue: seq<nat>, from: nat, b: Stage, lim: int) {
    && b.eliminated == a.eliminated && a.trail <= b.trail && Shrunk(a.ca, b.ca)
    && Stronger(FormulaOf(a.ca, a.trail), FormulaOf(b.ca, b.trail))
    && QueueTried(a.ca, b.ca, queue, [], lim) && ValuesTried(a.ca, b.ca, b.trail, from, |b.trail|, lim)
  }

  /** The variable stays because it has gone already, got a value, is frozen, or would leave too many or too large resolvents. */
  ghost predicate Stays(a: Stage, v: nat, frozen: set<nat>, grow: nat, clauseLim: int) {
    || v >= |a.eliminated| || a.eliminated[v] || v >= |a.values| || a.values[v] != T.LUndef || v in frozen
    || TooBig(Occ(a.ca, a.clauses, Lit(v, false)), Occ(a.ca, a.clauses, Lit(v, true)), v, grow, clauseLim)
  }

  /** One variable of a run: nothing happens, or it is eliminated. */
  ghost predicate Turned(a: Stage, v: nat, frozen: set<nat>, b: Stage, grow: nat, clauseLim: int) {
    if Stays(a, v, frozen, grow, clauseLim) then b == a
    else b.eliminated == a.eliminated[v := true] && Eliminated(FormulaOf(a.ca, a.trail), v, FormulaOf(b.ca, b.trail))
  }

  class SimpSolver {
    const nVars: nat
    /** How many more clauses an elimination may leave, the largest resolvent allowed, and the largest clause tested
        for subsumption (-1 for any). */
    const grow: nat
    const clauseLim: int
    const subsumptionLim: int
    var ca: map<nat, Clause>
    var nextRef: nat
    /** The references given out, also of clauses that have gone. */
    var clauses: seq<nat>
    var values: seq<T.LBool>
    var trail: seq<Lit>
    var ok: bool
    /** The clauses that may subsume others, and how many values have been tried on the clauses. */
    var queue: seq<nat>
    var bwdsubAssigns: nat
    /** The stored clauses, flat: each is its literals followed by their number. */
    var elimclauses: seq<nat>
    var eliminated: seq<bool>
    var model: seq<T.LBool>
    ghost var original: set<Clause>
    ghost var history: seq<Step>

    constructor (n: nat, grow: nat, clauseLim: int, subsumptionLim: int)
      ensures Valid() && Formula() == original == {} && nVars == n && history == []
    {
      nVars, this.grow, this.clauseLim, this.subsumptionLim := n, grow, clauseLim, subsumptionLim;
      ca, nextRef, clauses, values, trail, ok := map[], 0, [], seq(n, i => T.LUndef), [], true;
      queue, bwdsubAssigns, elimclauses, eliminated, model := [], 0, [], seq(n, i => false), [];
      original, history := {}, [];
      new;
      assert Formula() == {};
      StrongerRefl({});
    }

    ghost function Formula(): set<Clause>
      reads this
    {
      FormulaOf(ca, trail)
    }

    /** No clause is too large to be tested. */
    predicate NoLimit() {
      subsumptionLim == -1 || nVars < subsumptionLim
    }

    /** Clauses and values fit together; what has been tried on the clauses is not in them any more. */
    ghost predicate StoreOk()
      reads this
    {
      && |values| == nVars && TrailFits(values, trail) && StoredOk(ca, clauses, nVars)
      && (forall r :: r in clauses ==> r < nextRef) && bwdsubAssigns <= |trail|
      && (NoLimit() ==> CleanTo(ca, trail, bwdsubAssigns))
    }

    ghost predicate Valid()
      reads this
    {
      && StoreOk() && ok && Chain(history, original, Formula(), nVars)
      && (forall r, l :: r in ca && l in ca[r] ==> !Gone(history, l.v))
      && elimclauses == Flat(AllEntries(history)) && EntriesIn(AllEntries(history), nVars)
      && |eliminated| == nVars && forall v :: 0 <= v < nVars ==> (eliminated[v] <==> Gone(history, v))
    }

    // ----- values -----

    method Enqueue(l: Lit)
      requires StoreOk() && l.v < nVars && Val(values, l) == T.LUndef
      modifies this`values, this`trail
      ensures StoreOk() && trail == old(trail) + [l] && values == old(values)[l.v := ValueFor(l)]
      ensures Formula() == old(Formula()) + {[l]}
    {
      hide TrailFits, StoredOk, CleanTo, FormulaOf;
      NewValue(values, trail, l);
      NewUnit(ca, trail, l);
      if NoLimit() { CleanMore(ca, trail, l, bwdsubAssigns); }
      values := values[l.v := ValueFor(l)];
      trail := trail + [l];
    }

    /** Propagates values through the clauses. How far is left open: a clause shrunk in place may be watched by a literal
        that is false already, and then it is not looked at before its false literals are dropped. */
    method Propagate() returns (confl: bool)
      requires StoreOk()
      modifies this`values, this`trail
      ensures StoreOk() && old(trail) <= trail
      ensures !confl ==> Stronger(old(Formula()), Formula())
      ensures confl ==> !HasModel(old(Formula()))
    {
      hide TrailFits, StoredOk, CleanTo, FormulaOf, Stronger, HasModel, AllSat, Sat;
      confl := false;
      ghost var f := Formula();
      StrongerRefl(f);
      TrailShort(values, trail);
      var more: bool := *;
      while more
        invariant StoreOk() && old(trail) <= trail && Stronger(f, Formula()) && |trail| <= nVars
        decreases nVars - |trail|
      {
        if r: nat :| r in ca && AllFalse(values, ca[r]) {
          StoredRefutes(f, r);
          return true;
        }
        if r: nat, l: Lit :| r in ca && l in ca[r] && OnlyOpen(values, ca[r], l) {
          OpenImplied(r, l);
          StoredBelow(ca, clauses, nVars, r);
          Enqueue(l);
          StrongerTrans(f, FormulaOf(ca, trail[..|trail| - 1]), Formula());
          TrailShort(values, trail);
        } else {
          return;
        }
        more := *;
      }
    }

    lemma StoredRefutes(f: set<Clause>, r: nat)
      requires StoreOk() && r in ca && AllFalse(values, ca[r]) && Stronger(f, Formula())
      ensures !HasModel(f)
    {
      hide TrailFits, StoredOk, CleanTo, FormulaOf;
      StoredIn(ca, trail, r);
      FalseRefutes(ca, values, trail, f, Lits(ca[r]));
    }

    lemma OpenImplied(r: nat, l: Lit)
      requires StoreOk() && r in ca && OnlyOpen(values, ca[r], l)
      ensures Stronger(Formula(), Formula() + {[l]})
    {
      hide TrailFits, StoredOk, CleanTo, FormulaOf;
      StoredIn(ca, trail, r);
      forall m: Assignment | AllSat(m, Formula()) ensures Sat(m, Lits([l])) {
        OpenHolds(m, ca, values, trail, Lits(ca[r]), l);
        UnitSat(m, l);
      }
      AddImplied(Formula(), [l]);
    }

    // ----- adding a clause -----

    /** Drops repeated and false literals; `done` when the clause is satisfied or a tautology. */
    method Normalise(ps0: Clause) returns (done: bool, out: Clause)
      requires |values| == nVars && forall l :: l in ps0 ==> l.v < nVars
      ensures done ==> (exists l :: l in ps0 && Val(values, l) == T.LTrue) || Tautology(ps0)
      ensures !done ==> DistinctVars(out) && Lits(out) <= Lits(ps0) && forall l :: l in ps0 ==> l in out || Val(values, l) == T.LFalse
      ensures !done ==> forall l :: l in out ==> l.v < nVars && Val(values, l) == T.LUndef
    {
      hide C.LitsSorted, C.NormalisedTo, Val, T.IsFalse, Tautology, DistinctVars, Lits;
      var ps := Sorted(ps0);
      ghost var t := StateOf(values);
      out, done := [], false;
      var i := 0;
      C.StartNormalise(t, ps);
      while i < |ps|
        invariant 0 <= i <= |ps| && C.NormalisedTo(t, ps, i, out)
      {
        var l := ps[i];
        assert l in ps;
        ValueIs(values, l);
        if Val(values, l) == T.LTrue {
          return true, out;
        }
        if |out| > 0 && l == out[|out| - 1].Not() {
          C.NormaliseLast(t, ps, i, out);
          TautologyIs(ps0, l);
          return true, out;
        }
        if Val(values, l) != T.LFalse && !(|out| > 0 && out[|out| - 1] == l) {
          C.NormalisePush(t, ps, i, out);
          out := out + [l];
        } else {
          C.NormaliseSkip(t, ps, i, out);
        }
        i := i + 1;
      }
      C.Normalised(t, ps, out);
      NormalisedValues(values, ps0, ps, out);
    }

    method Sorted(ps0: Clause) returns (ps: Clause)
      ensures C.LitsSorted(ps) && Lits(ps) == Lits(ps0) && forall l :: l in ps <==> l in ps0
    {
      hide C.LitsSorted;
      C.SortedSame(ps0);
      ps := C.SortLits(ps0);
      forall l ensures l in ps <==> l in ps0 { assert l in Lits(ps) <==> l in Lits(ps0); }
    }

    /** Adds a clause at level 0: not when it holds already, as a value when one literal is left, and otherwise as a
        stored clause that may subsume others. False when the clause refutes the formula. */
    method Add(ps: Clause) returns (r: bool)
      requires StoreOk() && ok && forall l :: l in ps ==> l.v < nVars
      modifies this`ca, this`nextRef, this`clauses, this`values, this`trail, this`ok, this`queue
      ensures StoreOk() && (r <==> ok) && old(trail) <= trail && GrownBy(old(ca), ca, Lits(ps))
      ensures NewQueued(old(ca), ca, old(queue), queue)
      ensures r && !Tautology(ps) ==> Stronger(old(Formula()) + {ps}, Formula())
      ensures r && Tautology(ps) ==> Stronger(old(Formula()), Formula())
      ensures !r ==> !HasModel(old(Formula()) + {ps})
    {
      hide TrailFits, StoredOk, CleanTo, FormulaOf, Stronger, HasModel, AllSat, Sat, Tautology, DistinctVars;
      ghost var f := Formula();
      StrongerRefl(f);
      var done, out := Normalise(ps);
      if done {
        if l :| l in ps && Val(values, l) == T.LTrue { TrueFormula(ca, values, trail, ps, l); }
        return true;
      }
      AddedFormula(ca, values, trail, ps, out);
      if |out| == 0 {
        EmptyLeft(f, ps);
        ok := false;
      } else if |out| == 1 {
        assert out == [out[0]] && out[0] in out;
        Enqueue(out[0]);
        ghost var g := Formula();
        var confl := Propagate();
        ok := !confl;
        if confl { NoModelBack(f + {ps}, g); } else { StrongerTrans(f + {ps}, g, Formula()); }
      } else {
        Store(out);
      }
      if ok { OnlyAdded(f, ps); }
      r := ok;
    }

    lemma OnlyAdded(f: set<Clause>, ps: Clause)
      requires Stronger(f + {ps}, Formula())
      ensures Tautology(ps) ==> Stronger(f, Formula())
    {
      hide Inside;
      if Tautology(ps) {
        forall m: Assignment | AllSat(m, f) ensures AllSat(m, Formula()) {
          TautologySat(m, ps);
          assert AllSat(m, f + {ps});
        }
        forall c | c in f ensures Inside(Formula(), Lits(c)) { assert c in f + {ps}; }
      }
    }

    lemma EmptyLeft(f: set<Clause>, ps: Clause)
      requires StoreOk() && f == Formula() && forall l :: l in ps ==> Val(values, l) == T.LFalse
      ensures !HasModel(f + {ps})
    {
      hide TrailFits, StoredOk, CleanTo, FormulaOf, Sat;
      FalseRefutes(ca, values, trail, f + {ps}, Lits(ps));
    }

    /** Adds a clause of the problem, now or between eliminations; a tautology says nothing. */
    method AddClause(ps: Clause) returns (r: bool)
      requires Valid() && forall l :: l in ps ==> l.v < nVars && !eliminated[l.v]
      modifies this
      ensures original == old(original) + if Tautology(ps) then {} else {ps}
      ensures eliminated == old(eliminated) && elimclauses == old(elimclauses)
      ensures r ==> Valid()
      ensures GrownBy(old(ca), ca, Lits(ps)) && NewQueued(old(ca), ca, old(queue), queue)
      ensures !r ==> !HasModel(old(Formula()) + {ps})
    {
      hide TrailFits, StoredOk, CleanTo, FormulaOf, Stronger, Gone, GrownBy, Chain, AllEntries;
      ghost var f, ca0 := Formula(), ca;
      r := Add(ps);
      if !r {
        original := original + if Tautology(ps) then {} else {ps};
        return;
      }
      GrownLits(ca0, ca, ps, history);
      if Tautology(ps) {
        ChainStronger(history, original, f, Formula(), nVars);
      } else {
        ghost var d := Deduped(ps);
        forall l | l in d ensures l.v < nVars && !Gone(history, l.v) {
          assert l in Lits(d);
          assert l in Lits(ps);
        }
        ChainAdd(history, original, f, nVars, ps, d);
        SameStronger(f, ps, d, Formula());
        ChainStronger(AddTo(history, d), original + {ps}, f + {d}, Formula(), nVars);
        original := original + {ps};
        history := AddTo(history, d);
      }
    }

    /** Stores what is left of a clause. */
    method Store(out: Clause)
      requires StoreOk() && |out| >= 2 && DistinctVars(out) && forall l :: l in out ==> l.v < nVars && Val(values, l) == T.LUndef
      modifies this`ca, this`nextRef, this`clauses, this`queue
      ensures StoreOk() && Formula() == old(Formula()) + {out} && GrownBy(old(ca), ca, Lits(out))
      ensures NewQueued(old(ca), ca, old(queue), queue)
    {
      hide TrailFits, CleanTo, FormulaOf, DistinctVars;
      var cr := nextRef;
      assert cr !in ca;
      GrownFormula(ca, trail, cr, out);
      if NoLimit() { CleanNew(ca, values, trail, bwdsubAssigns, cr, out); }
      ca := ca[cr := out];
      clauses := clauses + [cr];
      nextRef := nextRef + 1;
      queue := queue + [cr];
    }

    // ----- backward subsumption -----

    /** Removes a clause that another clause of the formula is inside of. */
    method RemoveClause(cr: nat, ghost c: Clause)
      requires StoreOk() && cr in ca && Lits(c) <= Lits(ca[cr]) && c in FormulaOf(ca - {cr}, trail)
      modifies this`ca
      ensures StoreOk() && ca == old(ca) - {cr} && Stronger(old(Formula()), Formula())
    {
      hide TrailFits, CleanTo, FormulaOf, Stronger;
      LessFormula(ca, trail, cr);
      DropSubsumed(Formula(), FormulaOf(ca - {cr}, trail), c, ca[cr]);
      ShrunkOk(ca, ca - {cr}, clauses, nVars);
      if NoLimit() { ShrunkClean(ca, ca - {cr}, trail, bwdsubAssigns); }
      ca := ca - {cr};
    }

    /** Drops the literal `l`, without which the clause follows as well; a clause of two literals becomes a value. */
    method StrengthenClause(cr: nat, l: Lit) returns (r: bool)
      requires StoreOk() && cr in ca && l in ca[cr]
      requires forall m: Assignment :: AllSat(m, Formula()) ==> Sat(m, Lits(ca[cr]) - {l})
      modifies this`ca, this`queue, this`values, this`trail
      ensures StoreOk() && old(trail) <= trail && Shrunk(old(ca), ca) && queue == old(queue) + [cr]
      ensures (cr in ca ==> |ca[cr]| < |old(ca)[cr]| && Lits(ca[cr]) == Lits(old(ca)[cr]) - {l})
      ensures forall q :: q in old(ca) && q != cr ==> q in ca && ca[q] == old(ca)[q]
      ensures r ==> Stronger(old(Formula()), Formula())
      ensures !r ==> !HasModel(old(Formula()))
    {
      hide TrailFits, CleanTo, FormulaOf, Stronger, HasModel, AllSat, Sat, StoredOk;
      ghost var f := Formula();
      queue := queue + [cr];
      var c := ca[cr];
      StoredBelow(ca, clauses, nVars, cr);
      var e := RemoveLit(c, l);
      if |c| > 2 {
        Shorten(cr, e);
        return true;
      }
      var q := e[0];
      assert e == [q] && q in Lits(e);
      ghost var g := FormulaOf(ca - {cr}, trail);
      UnitLeft(f, g, cr, e);
      RemovedOk(ca, clauses, nVars, cr);
      if NoLimit() { ShrunkClean(ca, ca - {cr}, trail, bwdsubAssigns); }
      ca := ca - {cr};
      if Val(values, q) == T.LFalse {
        FalseLeft(f, g, q);
        return false;
      }
      if Val(values, q) == T.LUndef {
        Enqueue(q);
      } else {
        TrueLeft(g, q);
      }
      var confl := Propagate();
      if confl { NoModelBack(f, g + {e}); } else { StrongerTrans(f, g + {e}, Formula()); }
      r := !confl;
    }

    /** The clause keeps two literals or more. */
    method Shorten(cr: nat, e: Clause)
      requires StoreOk() && cr in ca && |e| >= 2 && |e| < |ca[cr]| && DistinctVars(e) && Lits(e) <= Lits(ca[cr])
      requires forall m: Assignment :: AllSat(m, Formula()) ==> Sat(m, Lits(e))
      modifies this`ca
      ensures StoreOk() && ca == old(ca)[cr := e] && Shrunk(old(ca), ca) && Stronger(old(Formula()), Formula())
    {
      hide TrailFits, CleanTo, FormulaOf, Stronger, AllSat, Sat, DistinctVars;
      ChangedFormula(ca, trail, cr, e);
      ReplaceSmaller(Formula(), FormulaOf(ca[cr := e], trail), ca[cr], e);
      ShrunkOk(ca, ca[cr := e], clauses, nVars);
      if NoLimit() { ShrunkClean(ca, ca[cr := e], trail, bwdsubAssigns); }
      ca := ca[cr := e];
    }

    /** A clause of two literals is replaced by its only literal left. */
    lemma UnitLeft(f: set<Clause>, g: set<Clause>, cr: nat, e: Clause)
      requires cr in ca && f == Formula() && g == FormulaOf(ca - {cr}, trail) && Lits(e) <= Lits(ca[cr])
      requires forall m: Assignment :: AllSat(m, f) ==> Sat(m, Lits(e))
      ensures Stronger(f, g + {e})
    {
      hide FormulaOf, Stronger, AllSat, Sat;
      LessFormula(ca, trail, cr);
      ReplaceSmaller(f, g + {e}, ca[cr], e);
    }

    lemma FalseLeft(f: set<Clause>, g: set<Clause>, q: Lit)
      requires StoreOk() && g == Formula() && Val(values, q) == T.LFalse && Stronger(f, g + {[q]})
      ensures !HasModel(f)
    {
      hide TrailFits, CleanTo, FormulaOf, StoredOk, Stronger;
      EmptyLeft(g, [q]);
      NoModelBack(f, g + {[q]});
    }

    lemma TrueLeft(g: set<Clause>, q: Lit)
      requires StoreOk() && g == Formula() && Val(values, q) == T.LTrue
      ensures g + {[q]} == g
    {
      hide TrailFits, CleanTo, StoredOk, FormulaOf;
      TrueIn(values, trail, q);
      UnitIn(ca, trail, q);
    }

    /** The clauses with a variable. */
    method Occurrences(v: nat) returns (cs: seq<nat>)
      requires StoreOk()
      ensures forall r :: r in cs ==> r in ca && Mentions(ca[r], v)
      ensures forall r :: r in ca && Mentions(ca[r], v) ==> r in cs
      ensures Occ(ca, cs, Lit(v, false)) == Occ(ca, clauses, Lit(v, false)) && Occ(ca, cs, Lit(v, true)) == Occ(ca, clauses, Lit(v, true))
    {
      hide TrailFits, CleanTo, StoredOk, Occ, Mentions;
      cs := [];
      var i := 0;
      while i < |clauses|
        invariant 0 <= i <= |clauses|
        invariant forall r :: r in cs ==> r in ca && Mentions(ca[r], v)
        invariant forall r :: r in clauses[..i] && r in ca && Mentions(ca[r], v) ==> r in cs
        invariant SameOcc(ca, cs, clauses[..i], v)
      {
        var r := clauses[i];
        assert clauses[..i + 1] == clauses[..i] + [r];
        var here := false;
        if r in ca {
          EitherLit(ca[r], v);
          here := Lit(v, false) in ca[r] || Lit(v, true) in ca[r];
        }
        OccStep(ca, cs, clauses[..i], v, r, here);
        if here { cs := cs + [r]; }
        i := i + 1;
      }
      assert clauses[..i] == clauses;
      forall r | r in ca ensures r in clauses { StoredBelow(ca, clauses, nVars, r); }
    }

    /** The variable of the clause with the fewest clauses. */
    method Best(c: Clause) returns (cs: seq<nat>, ghost best: nat)
      requires StoreOk() && |c| > 0
      ensures Mentions(c, best)
      ensures forall r :: r in cs ==> r in ca
      ensures forall r :: r in ca && Mentions(ca[r], best) ==> r in cs
    {
      hide TrailFits, CleanTo, StoredOk;
      best := c[0].v;
      cs := Occurrences(c[0].v);
      var i := 1;
      while i < |c|
        invariant 1 <= i <= |c| && Mentions(c, best)
        invariant (forall r :: r in cs ==> r in ca) && forall r :: r in ca && Mentions(ca[r], best) ==> r in cs
      {
        var ds := Occurrences(c[i].v);
        if |ds| < |cs| {
          cs, best := ds, c[i].v;
        }
        i := i + 1;
      }
    }

    /** What `c` stands for: a stored clause, or a known value. */
    ghost predicate Subsumer(c: Clause, self: Option<nat>)
      reads this
    {
      DistinctVars(c) && if self.Some? then self.value in ca && ca[self.value] == c else |c| == 1 && c[0] in trail
    }

    /** Tries the clause on one other. */
    method BackwardOn(c: Clause, self: Option<nat>, cand: nat) returns (r: bool)
      requires StoreOk() && Subsumer(c, self) && cand in ca && self != Some(cand)
      modifies this`ca, this`queue, this`values, this`trail
      ensures StoreOk() && old(trail) <= trail && Shrunk(old(ca), ca) && Subsumer(c, self)
      ensures r ==> Stronger(old(Formula()), Formula())
      ensures !r ==> !HasModel(old(Formula()))
      ensures (queue == old(queue) && trail == old(trail) && ca == old(ca)) || Size(ca, clauses) < Size(old(ca), clauses)
      ensures r && cand in ca ==> Related(c, ca[cand], Unrelated)
      ensures Requeued(old(ca), ca, old(queue), queue)
    {
      hide TrailFits, CleanTo, FormulaOf, Stronger, HasModel, AllSat, Sat, StoredOk, DistinctVars, Size, Related;
      ghost var ca0, d := ca, ca[cand];
      StoredBelow(ca, clauses, nVars, cand);
      StrongerRefl(Formula());
      var rel := Compare(c, ca[cand]);
      RelatedMeans(c, d, rel);
      match rel
      case Unrelated =>
        r := true;
      case Subsumes =>
        SubsumerIn(c, self, cand);
        RemoveClause(cand, c);
        SizeLess(ca0, ca, clauses, cand);
        r := true;
      case Strengthens(p) =>
        forall m: Assignment | AllSat(m, Formula()) ensures Sat(m, Lits(d) - {p.Not()}) { SubsumerShrinks(m, c, self, cand, p); }
        r := StrengthenClause(cand, p.Not());
        SizeLess(ca0, ca, clauses, cand);
        if r && cand in ca { StrengthenedUnrelated(c, d, ca[cand], p); }
    }

    lemma SubsumerIn(c: Clause, self: Option<nat>, cand: nat)
      requires Subsumer(c, self) && self != Some(cand)
      ensures c in FormulaOf(ca - {cand}, trail)
    {
      hide DistinctVars;
      FormulaHas(ca - {cand}, trail, c);
      if self.Some? {
        assert self.value in ca - {cand} && (ca - {cand})[self.value] == c;
      } else {
        assert c == [c[0]];
      }
    }

    lemma SubsumerShrinks(m: Assignment, c: Clause, self: Option<nat>, cand: nat, p: Lit)
      requires Subsumer(c, self) && cand in ca && self != Some(cand) && ShrinksBy(c, ca[cand], p) && AllSat(m, Formula())
      ensures Sat(m, Lits(ca[cand]) - {p.Not()})
    {
      hide DistinctVars, FormulaOf, Sat;
      FormulaHas(ca, trail, c);
      if self.None? { assert c == [c[0]]; }
      StoredIn(ca, trail, cand);
      ShrunkHolds(m, c, ca[cand], p);
    }

    /** Tries the clause on all others with the best of its variables. */
    method BackwardBy(c: Clause, self: Option<nat>) returns (r: bool)
      requires StoreOk() && Subsumer(c, self) && |c| > 0
      modifies this`ca, this`queue, this`values, this`trail
      ensures StoreOk() && old(trail) <= trail && Shrunk(old(ca), ca) && Subsumer(c, self)
      ensures r ==> Stronger(old(Formula()), Formula())
      ensures !r ==> !HasModel(old(Formula()))
      ensures (queue == old(queue) && trail == old(trail) && ca == old(ca)) || Size(ca, clauses) < Size(old(ca), clauses)
      ensures Requeued(old(ca), ca, old(queue), queue)
      ensures r ==> Tried(old(ca), ca, c, self, subsumptionLim)
    {
      hide TrailFits, CleanTo, FormulaOf, Stronger, HasModel, StoredOk, DistinctVars, Size, Related, Requeued, Shrunk, Mentions;
      ghost var f, ca0 := Formula(), ca;
      StrongerRefl(f);
      NothingTried(ca, queue);
      var cs;
      ghost var best;
      cs, best := Best(c);
      var j := 0;
      while j < |cs|
        invariant 0 <= j <= |cs| && StoreOk() && Subsumer(c, self) && old(trail) <= trail && Shrunk(ca0, ca) && Stronger(f, Formula())
        invariant (queue == old(queue) && trail == old(trail) && ca == ca0) || Size(ca, clauses) < Size(ca0, clauses)
        invariant Requeued(ca0, ca, old(queue), queue) && TriedTo(ca0, ca, c, self, cs, j, subsumptionLim)
      {
        ghost var ca1, queue1, g := ca, queue, Formula();
        var cand := cs[j];
        if cand in ca && self != Some(cand) && (subsumptionLim == -1 || |ca[cand]| < subsumptionLim) {
          r := BackwardOn(c, self, cand);
          ShrunkTrans(ca0, ca1, ca);
          RequeuedTrans(ca0, ca1, ca, old(queue), queue1, queue);
          if !r {
            NoModelBack(f, g);
            return;
          }
          StrongerTrans(f, g, Formula());
        } else {
          NothingTried(ca, queue);
        }
        TriedNext(ca0, ca1, ca, c, self, cs, j, subsumptionLim);
        j := j + 1;
      }
      r := true;
      TriedBy(ca0, ca, c, self, cs, best, subsumptionLim);
    }

    /** Without a limit a value that has been tried is in no clause. */
    lemma TriedClean(ca0: map<nat, Clause>, l: Lit)
      requires StoredOk(ca0, clauses, nVars) && Shrunk(ca0, ca) && NoLimit() && Tried(ca0, ca, [l], None, subsumptionLim)
      ensures forall q :: q in ca ==> !Mentions(ca[q], l.v)
    {
      hide Related, DistinctVars;
      forall q | q in ca ensures !Mentions(ca[q], l.v) {
        VarsCount(ca0[q]);
        BelowCount(Vars(ca0[q]), nVars);
        UnitUnrelated(l, ca[q]);
      }
    }

    /** Goes through the clauses that may subsume others, and the new values. Afterwards none of them, and no clause changed
        on the way, subsumes or strengthens another clause that was below the limit. */
    method BackwardSubsumptionCheck() returns (r: bool)
      requires StoreOk()
      modifies this`ca, this`queue, this`values, this`trail, this`bwdsubAssigns
      ensures StoreOk() && old(trail) <= trail && Shrunk(old(ca), ca)
      ensures r ==> Stronger(old(Formula()), Formula()) && queue == [] && bwdsubAssigns == |trail|
      ensures r ==> QueueTried(old(ca), ca, old(queue), [], subsumptionLim)
      ensures r ==> ValuesTried(old(ca), ca, trail, old(bwdsubAssigns), |trail|, subsumptionLim)
      ensures r && NoLimit() ==> Settled(old(ca), ca, old(queue))
      ensures r && NoLimit() ==> forall q, l :: q in ca && l in ca[q] ==> Val(values, l) == T.LUndef
      ensures !r ==> !HasModel(old(Formula()))
    {
      hide TrailFits, FormulaOf, Stronger, HasModel, StoredOk, DistinctVars, Size, CleanTo, Related, Settled, QueueTried, ValuesTried, Shrunk, Tried, Requeued;
      ghost var f, ca0, queue0 := Formula(), ca, queue;
      StrongerRefl(f);
      TrailShort(values, trail);
      StartTrying(ca, queue, trail, bwdsubAssigns, subsumptionLim);
      while |queue| > 0 || bwdsubAssigns < |trail|
        invariant StoreOk() && old(trail) <= trail && Shrunk(ca0, ca) && Stronger(f, Formula()) && |trail| <= nVars
        invariant QueueTried(ca0, ca, queue0, queue, subsumptionLim) && old(bwdsubAssigns) <= bwdsubAssigns
        invariant ValuesTried(ca0, ca, trail, old(bwdsubAssigns), bwdsubAssigns, subsumptionLim)
        decreases Size(ca, clauses), nVars - bwdsubAssigns, |queue|
      {
        ghost var ca1, g := ca, Formula();
        StrongerRefl(g);
        if |queue| == 0 {
          r := TryValue(ca0, queue0, old(bwdsubAssigns));
        } else {
          r := TryClause(ca0, queue0, old(bwdsubAssigns));
        }
        TrailShort(values, trail);
        ShrunkTrans(ca0, ca1, ca);
        if !r {
          NoModelBack(f, g);
          return;
        }
        StrongerTrans(f, g, Formula());
      }
      r := true;
      assert queue == [];
      if NoLimit() {
        AllClean(ca, values, trail);
        AllTried(ca0, queue0);
      }
    }

    /** Tries the next value on the clauses. */
    method TryValue(ghost ca0: map<nat, Clause>, ghost queue0: seq<nat>, ghost from: nat) returns (r: bool)
      requires StoreOk() && queue == [] && bwdsubAssigns < |trail| && Shrunk(ca0, ca)
      requires QueueTried(ca0, ca, queue0, queue, subsumptionLim) && ValuesTried(ca0, ca, trail, from, bwdsubAssigns, subsumptionLim)
      modifies this`ca, this`queue, this`values, this`trail, this`bwdsubAssigns
      ensures StoreOk() && old(trail) <= trail && Shrunk(old(ca), ca)
      ensures bwdsubAssigns == old(bwdsubAssigns) + if r then 1 else 0
      ensures r ==> Stronger(old(Formula()), Formula())
      ensures !r ==> !HasModel(old(Formula()))
      ensures r ==> QueueTried(ca0, ca, queue0, queue, subsumptionLim) && ValuesTried(ca0, ca, trail, from, bwdsubAssigns, subsumptionLim)
      ensures r ==> (queue == [] && trail == old(trail) && ca == old(ca)) || Size(ca, clauses) < Size(old(ca), clauses)
    {
      hide TrailFits, FormulaOf, Stronger, HasModel, StoredOk, DistinctVars, Size, CleanTo, Related, QueueTried, ValuesTried, Shrunk, Tried, Requeued;
      ghost var ca1, trail1, k := ca, trail, bwdsubAssigns;
      var l := trail[bwdsubAssigns];
      OneDistinct(l);
      r := BackwardBy([l], None);
      if r {
        if NoLimit() {
          TriedClean(ca1, l);
          CleanNext(ca, trail, k);
        }
        bwdsubAssigns := bwdsubAssigns + 1;
        QueueTurn(ca0, ca1, ca, queue0, [], [], queue, None, subsumptionLim);
        ValuesLess(ca0, ca1, ca, trail1, trail, from, k, subsumptionLim);
        ValuesNext(ca0, ca1, ca, trail, from, k, subsumptionLim);
      }
    }

    /** Takes a clause off the queue and tries it on the others. */
    method TryClause(ghost ca0: map<nat, Clause>, ghost queue0: seq<nat>, ghost from: nat) returns (r: bool)
      requires StoreOk() && |queue| > 0 && Shrunk(ca0, ca)
      requires QueueTried(ca0, ca, queue0, queue, subsumptionLim) && ValuesTried(ca0, ca, trail, from, bwdsubAssigns, subsumptionLim)
      modifies this`ca, this`queue, this`values, this`trail
      ensures StoreOk() && old(trail) <= trail && Shrunk(old(ca), ca)
      ensures r ==> Stronger(old(Formula()), Formula())
      ensures !r ==> !HasModel(old(Formula()))
      ensures r ==> QueueTried(ca0, ca, queue0, queue, subsumptionLim) && ValuesTried(ca0, ca, trail, from, bwdsubAssigns, subsumptionLim)
      ensures r ==> (queue == old(queue)[1..] && trail == old(trail) && ca == old(ca)) || Size(ca, clauses) < Size(old(ca), clauses)
    {
      hide TrailFits, FormulaOf, Stronger, HasModel, StoredOk, DistinctVars, Size, CleanTo, Related, QueueTried, ValuesTried, Shrunk, Tried, Requeued;
      ghost var ca1, trail1, queue1 := ca, trail, queue[1..];
      StrongerRefl(Formula());
      var cr := queue[0];
      assert queue == [cr] + queue[1..];
      queue := queue[1..];
      NothingTried(ca, queue);
      r := true;
      if cr in ca {
        StoredBelow(ca, clauses, nVars, cr);
        r := BackwardBy(ca[cr], Some(cr));
      }
      if r {
        QueueTurn(ca0, ca1, ca, queue0, old(queue), queue1, queue, Some(cr), subsumptionLim);
        ValuesLess(ca0, ca1, ca, trail1, trail, from, bwdsubAssigns, subsumptionLim);
      }
    }

    /** Without a limit every clause was below it. */
    lemma AllTried(ca0: map<nat, Clause>, queue0: seq<nat>)
      requires StoredOk(ca0, clauses, nVars) && Shrunk(ca0, ca) && NoLimit() && QueueTried(ca0, ca, queue0, [], subsumptionLim)
      ensures Settled(ca0, ca, queue0)
    {
      hide Related, DistinctVars;
      forall x, q | x in ca && (x !in ca0 || x in queue0 || ca[x] != ca0[x]) && q in ca && q != x ensures Related(ca[x], ca[q], Unrelated) {
        assert Tried(ca0, ca, ca[x], Some(x), subsumptionLim);
        VarsCount(ca0[q]);
        BelowCount(Vars(ca0[q]), nVars);
      }
    }

    // ----- extending models -----

    /** Replays the stored clauses backwards over the model: a model of the reduced clauses becomes
        one of the original ones, in which every variable has a value. */
    method ExtendModel()
      requires Valid() && |model| == nVars
      modifies this`model
      ensures model == Replay(AllEntries(history), old(model)) && |model| == nVars
      ensures Reduced(old(model)) ==> SatisfiesAll(model, original) && forall v :: 0 <= v < nVars ==> model[v] != T.LUndef
    {
      hide Chain, SatisfiesAll, RestOpen, TrailFits, StoredOk, CleanTo, FormulaOf, Gone;
      if Reduced(model) { ReplayHistory(history, original, Formula(), model); }
      RunReplay();
    }

    /** A model of the clauses that are left, with a value for every variable not eliminated. */
    ghost predicate Reduced(model0: seq<T.LBool>)
      reads this
    {
      |model0| == nVars && SatisfiesAll(model0, Formula()) && |eliminated| == nVars
      && forall v :: 0 <= v < nVars && !eliminated[v] ==> model0[v] != T.LUndef
    }

    /** The loop over the flat buffer. */
    method RunReplay()
      requires Valid() && |model| == nVars
      modifies this`model
      ensures model == Replay(AllEntries(history), old(model)) && |model| == nVars
    {
      hide Chain, RestOpen, TrailFits, StoredOk, CleanTo, FormulaOf, Gone;
      ghost var entries := AllEntries(history);
      ghost var k := |entries|;
      assert entries[..k] == entries;
      var i: int := |elimclauses| - 1;
      while i > 0
        invariant 0 <= k <= |entries| && i == |Flat(entries[..k])| - 1 && |model| == nVars
        invariant Replay(entries[..k], model) == Replay(entries, old(model))
        decreases k
      {
        EntryThere(entries, k);
        ghost var e, start := entries[k - 1], |Flat(entries[..k - 1])|;
        i := ReplayEntry(i, e, start);
        assert entries[..k][..k - 1] == entries[..k - 1];
        k := k - 1;
      }
      EntriesDone(entries, k);
    }

    /** Replays the entry that ends at `i0`; the result is where the one before it ends. */
    method ReplayEntry(i0: int, ghost e: Clause, ghost start: nat) returns (i: int)
      requires i0 == start + |e| < |elimclauses| && |e| > 0 && elimclauses[i0] == |e| && e[0].v < |model|
      requires forall q :: 0 <= q < |e| ==> elimclauses[start + q] == ToInt(e[q])
      modifies this`model
      ensures i == start - 1 && model == ReplayOne(e, old(model)) && |model| == |old(model)|
    {
      i := i0;
      var j := elimclauses[i];
      i := i - 1;
      var open := false;
      while j > 1 && !open
        invariant 1 <= j <= |e| && i == start + j - 1 && model == old(model)
        invariant forall q :: j <= q < |e| ==> Val(model, e[q]) == T.LFalse
        invariant open ==> RestOpen(model, e)
        decreases j, !open
      {
        LitInt(e[j - 1]);
        if Val(model, ToLit(elimclauses[i])) != T.LFalse {
          open := true;
        } else {
          j := j - 1;
          i := i - 1;
        }
      }
      if !open {
        LitInt(e[0]);
        var x := ToLit(elimclauses[i]);
        model := model[x.v := ValueFor(x)];
      }
      i := i - j;
    }

    lemma EntryThere(entries: seq<Clause>, k: nat)
      requires EntriesIn(entries, nVars) && k <= |entries| && |Flat(entries[..k])| > 1 && elimclauses == Flat(entries)
      ensures k > 0
      ensures var e, start := entries[k - 1], |Flat(entries[..k - 1])|;
        && |Flat(entries[..k])| - 1 == start + |e| < |elimclauses| && |e| > 0 && elimclauses[start + |e|] == |e| && e[0].v < nVars
        && forall q :: 0 <= q < |e| ==> elimclauses[start + q] == ToInt(e[q])
    {
      assert entries[..0] == [];
      FlatParts(entries, k);
      FlatPrefix(entries, k);
      var f, g := Flat(entries[..k]), Flat(entries);
      forall q | 0 <= q < |f| ensures g[q] == f[q] { assert g[..|f|][q] == f[q]; }
    }

    lemma EntriesDone(entries: seq<Clause>, k: nat)
      requires EntriesIn(entries, nVars) && k <= |entries| && |Flat(entries[..k])| <= 1
      ensures k == 0 && entries[..k] == []
    {
      if k > 0 { FlatParts(entries, k); }
    }

    /** Stores a single literal. */
    method MkElimUnit(x: Lit)
      modifies this`elimclauses
      ensures elimclauses == old(elimclauses) + Ints([x]) + [1]
    {
      elimclauses := elimclauses + [ToInt(x)];
      elimclauses := elimclauses + [1];
      assert Ints([x]) == [ToInt(x)];
    }

    /** Stores a clause with its literal of `x.v` first. */
    method MkElimClause(x: Lit, c: Clause) returns (ghost e: Clause)
      requires DistinctVars(c) && x in c
      modifies this`elimclauses
      ensures EntryFor(e, x) && Lits(e) == Lits(c) && elimclauses == old(elimclauses) + Ints(e) + [|e|]
    {
      var first := |elimclauses|;
      var vPos := 0;
      var i := 0;
      while i < |c|
        invariant 0 <= i <= |c| && elimclauses == old(elimclauses) + Ints(c)[..i]
        invariant x in c[..i] ==> vPos < i && c[vPos] == x
      {
        assert c[..i + 1] == c[..i] + [c[i]];
        elimclauses := elimclauses + [ToInt(c[i])];
        if c[i].v == x.v {
          OnlyOne(c, x);
          vPos := i;
        }
        i := i + 1;
      }
      assert c[..i] == c && Ints(c)[..i] == Ints(c);
      elimclauses := elimclauses[first + vPos := elimclauses[first]][first := elimclauses[first + vPos]];
      e := c[vPos := c[0]][0 := c[vPos]];
      assert elimclauses == old(elimclauses) + Ints(e);
      elimclauses := elimclauses + [|c|];
      Swapped(c, vPos, e, x);
    }

    /** Whether the resolvents are too many or too large. */
    method TooMany(pos: seq<Clause>, neg: seq<Clause>, v: nat) returns (r: bool)
      requires forall c :: c in pos || c in neg ==> DistinctVars(c) && Mentions(c, v)
      ensures r <==> TooBig(pos, neg, v, grow, clauseLim)
    {
      hide DistinctVars, Clash, LargePair, Without, Mentions;
      MentionsIs(v);
      var cnt, i := 0, 0;
      while i < |pos|
        invariant 0 <= i <= |pos| && cnt == Count(pos, neg, v, i) <= |pos| + |neg| + grow
        invariant forall k, l :: 0 <= k < i && 0 <= l < |neg| ==> !LargePair(pos[k], neg[l], v, clauseLim)
      {
        var j := 0;
        while j < |neg|
          invariant 0 <= j <= |neg| && cnt == Count(pos, neg, v, i) + RowCount(pos[i], neg, v, j) <= |pos| + |neg| + grow
          invariant forall l :: 0 <= l < j ==> !LargePair(pos[i], neg[l], v, clauseLim)
        {
          assert pos[i] in pos && neg[j] in neg;
          var ok, size := MergeSize(pos[i], neg[j], v);
          if ok {
            cnt := cnt + 1;
            if cnt > |pos| + |neg| + grow || (clauseLim != -1 && size > clauseLim) {
              RowGrows(pos[i], neg, v, j + 1, |neg|);
              CountGrows(pos, neg, v, i + 1, |pos|);
              if clauseLim != -1 && size > clauseLim { LargeIs(pos[i], neg[j], v, clauseLim); }
              return true;
            }
          }
          NotLarge(pos[i], neg[j], v, clauseLim);
          j := j + 1;
        }
        i := i + 1;
      }
      r := false;
    }

    /** Stores the clauses with `x` and the opposite default. */
    method StoreAll(x: Lit, cs: seq<Clause>, ghost before: set<Clause>) returns (ghost entries: seq<Clause>)
      requires forall c :: c in cs ==> DistinctVars(c) && x in c
      requires forall c :: c in cs <==> c in before && x in c
      modifies this`elimclauses
      ensures StoredFor(before, x, entries)
      ensures forall stored :: old(elimclauses) == Flat(stored) ==> elimclauses == Flat(stored + entries)
      ensures EntriesIn(entries, x.v + 1)
    {
      entries := [];
      forall stored: seq<Clause> ensures stored + entries == stored { }
      var i := 0;
      while i < |cs|
        invariant 0 <= i <= |cs| && |entries| == i
        invariant forall k :: 0 <= k < i ==> EntryFor(entries[k], x) && Lits(entries[k]) == Lits(cs[k])
        invariant forall stored :: old(elimclauses) == Flat(stored) ==> elimclauses == Flat(stored + entries)
      {
        assert cs[i] in cs;
        ghost var e := MkElimClause(x, cs[i]);
        FlatMore(old(elimclauses), entries, e);
        entries := entries + [e];
        i := i + 1;
      }
      MkElimUnit(x.Not());
      FlatMore(old(elimclauses), entries, [x.Not()]);
      ghost var all := entries + [[x.Not()]];
      StoredIs(before, x, cs, entries);
      entries := all;
    }

    // ----- eliminating a variable -----

    /** The clauses of the list that contain a literal. */
    method With(cls: seq<nat>, l: Lit) returns (out: seq<Clause>)
      requires forall r :: r in cls ==> r in ca
      ensures out == Occ(ca, cls, l)
    {
      out := [];
      var i := 0;
      while i < |cls|
        invariant 0 <= i <= |cls| && out == Occ(ca, cls[..i], l)
      {
        assert cls[..i + 1][..i] == cls[..i];
        assert cls[i] in cls;
        if l in ca[cls[i]] { out := out + [ca[cls[i]]]; }
        i := i + 1;
      }
      assert cls[..i] == cls;
    }

    /** Adds all resolvents; false when that refutes the formula. */
    method CrossProduct(pos: seq<Clause>, neg: seq<Clause>, v: nat) returns (r: bool, ghost rs: set<Clause>)
      requires StoreOk() && ok && (forall c :: c in pos || c in neg ==> c in Formula() && DistinctVars(c) && forall l :: l in c ==> l.v < nVars)
      requires (forall c :: c in pos ==> Lit(v, false) in c) && (forall c :: c in neg ==> Lit(v, true) in c)
      requires forall c :: c in Formula() ==> DistinctVars(c)
      modifies this`ca, this`nextRef, this`clauses, this`values, this`trail, this`ok, this`queue
      ensures StoreOk() && (r <==> ok) && old(trail) <= trail && GrownBy(old(ca), ca, OtherLits(pos + neg, v)) && NewQueued(old(ca), ca, old(queue), queue)
      ensures r ==> ProductOf(pos, neg, v, rs, |pos|, 0) && Stronger(old(Formula()) + rs, Formula())
      ensures !r ==> !HasModel(old(Formula()))
    {
      hide TrailFits, StoredOk, CleanTo, FormulaOf, Stronger, HasModel, AllSat, Sat, Tautology, DistinctVars, Clash, ProductOf, Without, GrownBy, OtherLits, NewQueued;
      ghost var f, ca0, ls := Formula(), ca, OtherLits(pos + neg, v);
      rs := {};
      r := true;
      NothingYet(f, pos, neg, v, ca, ls);
      NothingQueued(ca, queue);
      var i := 0;
      while i < |pos|
        invariant 0 <= i <= |pos| && StoreOk() && ok && old(trail) <= trail && GrownBy(ca0, ca, ls) && NewQueued(ca0, ca, old(queue), queue)
        invariant ProductOf(pos, neg, v, rs, i, 0) && Stronger(f + rs, Formula())
      {
        var j := 0;
        while j < |neg|
          invariant 0 <= j <= |neg| && StoreOk() && ok && old(trail) <= trail && GrownBy(ca0, ca, ls) && NewQueued(ca0, ca, old(queue), queue)
          invariant ProductOf(pos, neg, v, rs, i, j) && Stronger(f + rs, Formula())
        {
          assert pos[i] in pos && neg[j] in neg;
          ghost var g, ca1, queue1, rs0 := Formula(), ca, queue, rs;
          var merged, resolvent := Merge(pos[i], neg[j], v);
          if merged {
            PairLits(pos, neg, v, i, j, resolvent, nVars);
            r := Add(resolvent);
            GrownTrans(ca0, ca1, ca, Lits(resolvent), ls);
            QueuedTrans(ca0, ca1, ca, old(queue), queue1, queue);
            if !r {
              ProductRefuted(f, pos, neg, v, rs, i, j, resolvent, g);
              return;
            }
            StrongerAdd(f + rs, g, resolvent, Formula());
            assert f + rs + {resolvent} == f + (rs + {resolvent});
            rs := rs + {resolvent};
          }
          ProductNext(pos, neg, v, rs0, i, j, merged, resolvent);
          j := j + 1;
        }
        ProductRow(pos, neg, v, rs, i);
        i := i + 1;
      }
    }

    /** Removes the listed clauses. */
    method RemoveAll(cls: seq<nat>)
      requires StoreOk()
      modifies this`ca
      ensures StoreOk() && (forall r :: r in ca <==> r in old(ca) && r !in cls) && Shrunk(old(ca), ca)
      ensures forall r :: r in ca ==> ca[r] == old(ca)[r]
    {
      hide TrailFits, StoredOk, CleanTo;
      var i := 0;
      while i < |cls|
        invariant 0 <= i <= |cls| && StoreOk() && Shrunk(old(ca), ca)
        invariant (forall r :: r in ca <==> r in old(ca) && r !in cls[..i]) && forall r :: r in ca ==> ca[r] == old(ca)[r]
      {
        assert cls[..i + 1] == cls[..i] + [cls[i]];
        RemovedOk(ca, clauses, nVars, cls[i]);
        if NoLimit() { ShrunkClean(ca, ca - {cls[i]}, trail, bwdsubAssigns); }
        ca := ca - {cls[i]};
        i := i + 1;
      }
      assert cls[..i] == cls;
    }

    /** Eliminates a variable unless that would grow the clauses too much: stores the clauses of its smaller side, adds
        all resolvents, removes its clauses, and drops what has become superfluous. False when the formula is refuted. */
    method EliminateVar(v: nat) returns (r: bool)
      requires Valid() && v < nVars && !eliminated[v] && values[v] == T.LUndef
      modifies this
      ensures original == old(original) && (!r ==> !HasModel(old(Formula())))
      ensures r ==> Valid()
      ensures old(TooMuch(v)) ==>
        r && Now() == old(Now()) && history == old(history) && elimclauses == old(elimclauses)
      ensures r && !old(TooMuch(v)) ==>
        && Eliminated(old(Formula()), v, Formula()) && eliminated == old(eliminated)[v := true]
        && queue == [] && bwdsubAssigns == |trail|
        && (NoLimit() ==> forall q, l :: q in ca && l in ca[q] ==> Val(values, l) == T.LUndef)
        && (NoLimit() ==> Settled(old(ca), ca, old(queue)))
      ensures r && !old(TooMuch(v)) ==> |history| == |old(history)| + 1 && old(history) <= history && history[|history| - 1].x == old(SmallerSide(v))
    {
      hide Chain, Eliminated, HasModel, Gone, TooBig, Occ, TrailFits, StoredOk, CleanTo, FormulaOf, Settled;
      var cls := Occurrences(v);
      var pos := With(cls, Lit(v, false));
      var neg := With(cls, Lit(v, true));
      Sides(cls, v, pos, neg);
      var tooMany := TooMany(pos, neg, v);
      if tooMany { return true; }
      r := ReplaceByResolvents(v, cls, pos, neg);
    }

    /** The two sides of a variable. */
    ghost predicate SidesOf(v: nat, cls: seq<nat>, pos: seq<Clause>, neg: seq<Clause>)
      reads this
    {
      && (forall r :: r in cls <==> r in ca && Mentions(ca[r], v))
      && (forall c :: c in pos <==> c in Formula() && Lit(v, false) in c) && (forall c :: c in neg <==> c in Formula() && Lit(v, true) in c)
      && (forall c :: c in pos || c in neg ==> DistinctVars(c) && Mentions(c, v) && forall l :: l in c ==> l.v < nVars)
      && forall c :: c in pos || c in neg ==> exists r :: r in ca && ca[r] == c
    }

    lemma Sides(cls: seq<nat>, v: nat, pos: seq<Clause>, neg: seq<Clause>)
      requires StoreOk() && v < nVars && values[v] == T.LUndef
      requires (forall r :: r in cls ==> r in ca && Mentions(ca[r], v)) && forall r :: r in ca && Mentions(ca[r], v) ==> r in cls
      requires pos == Occ(ca, cls, Lit(v, false)) && neg == Occ(ca, cls, Lit(v, true))
      ensures SidesOf(v, cls, pos, neg)
    {
      hide TrailFits, StoredOk, CleanTo, FormulaOf, DistinctVars, Occ;
      OccHas(ca, cls, Lit(v, false));
      OccHas(ca, cls, Lit(v, true));
      forall c: Clause, l: Lit | l.v == v ensures c in FormulaOf(ca, trail) && l in c <==> exists r :: r in cls && r in ca && ca[r] == c && l in c {
        FormulaHas(ca, trail, c);
        if q :| q in trail && c == [q] && l in c { NoTrailLit(values, trail, q, v); }
        if r :| r in ca && ca[r] == c && l in c { assert Mentions(ca[r], v); }
      }
      forall c | c in pos || c in neg ensures DistinctVars(c) && Mentions(c, v) && forall l :: l in c ==> l.v < nVars {
        var r :| r in cls && r in ca && ca[r] == c;
        StoredBelow(ca, clauses, nVars, r);
      }
    }

    /** The formula says nothing about eliminated variables but their values. */
    lemma FormulaNow()
      requires StoreOk() && forall r, l :: r in ca && l in ca[r] ==> !Gone(history, l.v)
      ensures Current(Formula(), history, nVars)
    {
      hide Gone, DistinctVars, CleanTo, FormulaOf;
      forall c | c in Formula() ensures DistinctVars(c) && forall l :: l in c ==> l.v < nVars && (|c| == 1 || !Gone(history, l.v)) {
        FormulaHas(ca, trail, c);
        if q :| q in trail && c == [q] { OneDistinct(q); }
      }
    }

    /** Adds the resolvents, removes the clauses of the variable, and drops what has become superfluous. */
    method ResolveOut(v: nat, cls: seq<nat>, pos: seq<Clause>, neg: seq<Clause>) returns (r: bool)
      requires StoreOk() && ok && v < nVars && SidesOf(v, cls, pos, neg) && forall c :: c in Formula() ==> DistinctVars(c)
      modifies this`ca, this`nextRef, this`clauses, this`values, this`trail, this`ok, this`queue, this`bwdsubAssigns
      ensures StoreOk() && (!r ==> !HasModel(old(Formula()))) && (r ==> ok)
      ensures r ==> Eliminated(old(Formula()), v, Formula()) && LitsOf(ca) <= LitsOf(old(ca)) && forall l :: l in LitsOf(ca) ==> l.v != v
      ensures r ==> queue == [] && bwdsubAssigns == |trail|
      ensures r && NoLimit() ==> Settled(old(ca), ca, old(queue))
      ensures r && NoLimit() ==> forall q, l :: q in ca && l in ca[q] ==> Val(values, l) == T.LUndef
    {
      hide DistinctVars, Eliminated, Clash, ProductOf, HasModel, Mentions, Stronger,
        TrailFits, StoredOk, CleanTo, FormulaOf, GrownBy, OtherLits, LitsOf, Shrunk, NewQueued, Settled, QueueTried, ValuesTried;
      ghost var f, ca0 := Formula(), ca;
      ghost var rs;
      r, rs := CrossProduct(pos, neg, v);
      if !r { return; }
      ghost var added, ca1, queue1 := Formula(), ca, queue;
      RemoveAll(cls);
      ghost var g, ca2 := Formula(), ca;
      ProductAll(f, v, pos, neg, rs);
      RemovedFormula(ca0, ca1, ca2, cls, v, trail, OtherLits(pos + neg, v));
      ResolveAndRemove(f, v, rs, added, g);
      LeftLits(ca0, ca1, ca2, cls, v, pos, neg);
      r := BackwardSubsumptionCheck();
      ShrunkLits(ca2, ca);
      if r && NoLimit() { SettledSince(ca0, ca1, ca2, ca, old(queue), queue1, OtherLits(pos + neg, v)); }
      if r { EliminatedStronger(f, v, g, Formula()); } else { EliminatedRefuted(f, v, g); }
    }

    /** Stores the clauses of the smaller side, and replaces all clauses of the variable by their resolvents. */
    method ReplaceByResolvents(v: nat, cls: seq<nat>, pos: seq<Clause>, neg: seq<Clause>) returns (r: bool)
      requires Valid() && v < nVars && !eliminated[v] && values[v] == T.LUndef && SidesOf(v, cls, pos, neg)
      modifies this
      ensures original == old(original) && (!r ==> !HasModel(old(Formula())))
      ensures r ==> Valid() && Eliminated(old(Formula()), v, Formula()) && eliminated == old(eliminated)[v := true]
      ensures r ==> |history| == |old(history)| + 1 && old(history) <= history && history[|history| - 1].x == Lit(v, |pos| > |neg|)
      ensures r ==> queue == [] && bwdsubAssigns == |trail|
      ensures r && NoLimit() ==> Settled(old(ca), ca, old(queue))
      ensures r && NoLimit() ==> forall q, l :: q in ca && l in ca[q] ==> Val(values, l) == T.LUndef
    {
      hide Chain, DistinctVars, Eliminated, StoredFor, EntriesIn, HasModel, Gone, AllEntries, Current, Mentions,
        TrailFits, StoredOk, CleanTo, FormulaOf, LitsOf, Settled;
      ghost var f, ls, entries0 := Formula(), LitsOf(ca), AllEntries(history);
      FormulaNow();
      CurrentDistinct(f, history, nVars);
      NotGone(ca, history);
      ghost var x, entries := StoreSide(v, pos, neg, f, entries0);
      eliminated := eliminated[v := true];
      r := ResolveOut(v, cls, pos, neg);
      if !r { return; }
      ghost var s := Step(x, f, entries);
      StoreStep(history, original, f, Formula(), nVars, s);
      EntriesPlus(entries0, entries, nVars, v + 1);
      StillNotGone(ca, ls, history, s);
      history := history + [s];
    }

    /** Stores the smaller side, and the other literal as default. */
    method StoreSide(v: nat, pos: seq<Clause>, neg: seq<Clause>, ghost before: set<Clause>, ghost entries0: seq<Clause>) returns (ghost x: Lit, ghost entries: seq<Clause>)
      requires (forall c :: c in pos <==> c in before && Lit(v, false) in c) && (forall c :: c in neg <==> c in before && Lit(v, true) in c)
      requires (forall c :: c in before ==> DistinctVars(c)) && elimclauses == Flat(entries0)
      modifies this`elimclauses
      ensures x == Lit(v, |pos| > |neg|) && StoredFor(before, x, entries) && EntriesIn(entries, v + 1) && elimclauses == Flat(entries0 + entries)
    {
      hide StoredFor, EntriesIn, DistinctVars;
      var y := Lit(v, |pos| > |neg|);
      if |pos| > |neg| {
        entries := StoreAll(y, neg, before);
      } else {
        entries := StoreAll(y, pos, before);
      }
      x := y;
    }

    /** What a run looks at between two eliminations. */
    ghost function Now(): Stage
      reads this
    {
      Stage(ca, clauses, values, trail, eliminated)
    }

    /** A whole run over the variables in the given order, with a check for subsumption first; `run` has the states between
        the variables. A variable is eliminated unless it is frozen, has gone or got a value, or its resolvents are too many
        or too large then. False means that the original clauses have no model; otherwise they have one exactly if what is
        left has. */
    method Eliminate(order: seq<nat>, frozen: set<nat>) returns (r: bool, ghost run: seq<Stage>)
      requires Valid() && forall v :: v in order ==> v < nVars
      modifies this
      ensures original == old(original)
      ensures r ==> Valid() && (HasModel(original) <==> HasModel(Formula())) && forall v :: v in frozen && v < nVars ==> eliminated[v] == old(eliminated)[v]
      ensures r ==> |run| == |order| + 1 && run[|order|] == Now() && Checked(old(Now()), old(queue), old(bwdsubAssigns), run[0], subsumptionLim)
      ensures r ==> forall i :: 0 <= i < |order| ==> Turned(run[i], order[i], frozen, run[i + 1], grow, clauseLim)
      ensures !r ==> !HasModel(original)
    {
      hide TrailFits, StoredOk, CleanTo, FormulaOf, Chain, Gone, HasModel, AllEntries, EntriesIn, Eliminated, Turned, Checked;
      r := Subsume();
      run := [Now()];
      var i := 0;
      while i < |order| && r
        invariant 0 <= i <= |order| && original == old(original) && |old(eliminated)| == nVars
        invariant r ==> Valid() && forall v :: v in frozen && v < nVars ==> eliminated[v] == old(eliminated)[v]
        invariant r ==> |run| == i + 1 && run[i] == Now() && Checked(old(Now()), old(queue), old(bwdsubAssigns), run[0], subsumptionLim)
        invariant r ==> forall k :: 0 <= k < i ==> Turned(run[k], order[k], frozen, run[k + 1], grow, clauseLim)
        invariant !r ==> !HasModel(original)
        decreases |order| - i, r
      {
        assert order[i] in order;
        r := EliminateNext(order[i], frozen);
        run := run + [Now()];
        i := i + 1;
      }
      if r {
        FormulaNow();
        Equisatisfiable(history, original, Formula(), nVars);
      }
    }

    /** One turn of the run. */
    method EliminateNext(v: nat, frozen: set<nat>) returns (r: bool)
      requires Valid() && v < nVars
      modifies this
      ensures original == old(original) && |old(eliminated)| == nVars
      ensures r ==> Valid() && Turned(old(Now()), v, frozen, Now(), grow, clauseLim)
      ensures r ==> forall u :: 0 <= u < nVars && (u != v || u in frozen) ==> eliminated[u] == old(eliminated)[u]
      ensures !r ==> !HasModel(original)
    {
      hide TrailFits, StoredOk, CleanTo, FormulaOf, Chain, Gone, HasModel, AllEntries, EntriesIn, Eliminated, TooBig, Occ;
      r := true;
      if !eliminated[v] && values[v] == T.LUndef && v !in frozen {
        ghost var h, f := history, Formula();
        r := EliminateVar(v);
        if !r { RefutedBack(h, original, f, nVars); }
      }
    }

    /** The check for subsumption between eliminations. */
    method Subsume() returns (r: bool)
      requires Valid()
      modifies this`ca, this`queue, this`values, this`trail, this`bwdsubAssigns
      ensures r ==> Valid() && Stronger(old(Formula()), Formula())
      ensures r ==> Checked(old(Now()), old(queue), old(bwdsubAssigns), Now(), subsumptionLim)
      ensures !r ==> !HasModel(original)
    {
      hide TrailFits, StoredOk, CleanTo, FormulaOf, Chain, Gone, HasModel, AllEntries, Stronger, Shrunk, LitsOf, QueueTried, ValuesTried, Related;
      ghost var f, ca0 := Formula(), ca;
      NotGone(ca, history);
      r := BackwardSubsumptionCheck();
      if r {
        ChainStronger(history, original, f, Formula(), nVars);
        ShrunkLits(ca0, ca);
        NotGoneBack(ca, history, LitsOf(ca0));
      } else {
        RefutedBack(history, original, f, nVars);
      }
    }

    /** The literal with fewer clauses, the positive one when there is none. */
    ghost function SmallerSide(v: nat): Lit
      reads this
    {
      Lit(v, |Occ(ca, clauses, Lit(v, false))| > |Occ(ca, clauses, Lit(v, true))|)
    }

    /** The resolvents are too many or too large. */
    ghost predicate TooMuch(v: nat)
      reads this
    {
      TooBig(Occ(ca, clauses, Lit(v, false)), Occ(ca, clauses, Lit(v, true)), v, grow, clauseLim)
    }
  }

  /** The clauses of the list with a literal. */
  function Occ(ca: map<nat, Clause>, refs: seq<nat>, l: Lit): seq<Clause> {
    if refs == [] then []
    else
      var r := refs[|refs| - 1];
      Occ(ca, refs[..|refs| - 1], l) + if r in ca && l in ca[r] then [ca[r]] else []
  }

  /** Two lists have the same clauses with the variable, in the same order. */
  ghost predicate SameOcc(ca: map<nat, Clause>, cs: seq<nat>, refs: seq<nat>, v: nat) {
    Occ(ca, cs, Lit(v, false)) == Occ(ca, refs, Lit(v, false)) && Occ(ca, cs, Lit(v, true)) == Occ(ca, refs, Lit(v, true))
  }

  lemma OccStep(ca: map<nat, Clause>, cs: seq<nat>, refs: seq<nat>, v: nat, r: nat, here: bool)
    requires SameOcc(ca, cs, refs, v) && (here <==> r in ca && (Lit(v, false) in ca[r] || Lit(v, true) in ca[r]))
    ensures SameOcc(ca, if here then cs + [r] else cs, refs + [r], v)
  {
    assert (refs + [r])[..|refs|] == refs && (cs + [r])[..|cs|] == cs;
  }

  lemma {:induction false} OccHas(ca: map<nat, Clause>, refs: seq<nat>, l: Lit)
    ensures forall c :: c in Occ(ca, refs, l) <==> exists r :: r in refs && r in ca && ca[r] == c && l in c
  {
    if refs != [] {
      var front, r := refs[..|refs| - 1], refs[|refs| - 1];
      OccHas(ca, front, l);
      assert refs == front + [r];
    }
  }

  /** The literals of the stored clauses. */
  ghost function LitsOf(ca: map<nat, Clause>): set<Lit> {
    set r, l | r in ca && l in ca[r] :: l
  }

  lemma ShrunkLits(ca: map<nat, Clause>, ca': map<nat, Clause>)
    requires Shrunk(ca, ca')
    ensures LitsOf(ca') <= LitsOf(ca)
  {
    forall r, l | r in ca' && l in ca'[r] ensures l in LitsOf(ca) {
      assert l in Lits(ca'[r]);
      assert l in Lits(ca[r]);
    }
  }

  lemma NotGone(ca: map<nat, Clause>, history: seq<Step>)
    requires forall r, l :: r in ca && l in ca[r] ==> !Gone(history, l.v)
    ensures forall l :: l in LitsOf(ca) ==> !Gone(history, l.v)
  {
  }

  lemma StillNotGone(ca: map<nat, Clause>, ls: set<Lit>, history: seq<Step>, s: Step)
    requires LitsOf(ca) <= ls && (forall l :: l in ls ==> !Gone(history, l.v)) && forall l :: l in LitsOf(ca) ==> l.v != s.x.v
    ensures forall r, l :: r in ca && l in ca[r] ==> !Gone(history + [s], l.v)
  {
    hide Gone;
    forall r, l | r in ca && l in ca[r] ensures !Gone(history + [s], l.v) {
      assert l in LitsOf(ca);
      GoneMore(history, s, l.v);
    }
  }

  /** What is left after the removal: everything without the variable. */
  lemma RemovedFormula(ca0: map<nat, Clause>, ca1: map<nat, Clause>, ca2: map<nat, Clause>, cls: seq<nat>, v: nat, trail: seq<Lit>, ls: set<Lit>)
    requires (forall r :: r in cls <==> r in ca0 && Mentions(ca0[r], v)) && GrownBy(ca0, ca1, ls)
    requires (forall r :: r in ca2 <==> r in ca1 && r !in cls) && forall r :: r in ca2 ==> ca2[r] == ca1[r]
    ensures FormulaOf(ca2, trail) <= FormulaOf(ca1, trail)
    ensures forall c :: c in FormulaOf(ca1, trail) && !Mentions(c, v) ==> c in FormulaOf(ca2, trail)
  {
    hide Mentions, FormulaOf, Lits;
    forall c | c in FormulaOf(ca2, trail) ensures c in FormulaOf(ca1, trail) {
      FormulaHas(ca2, trail, c);
      FormulaHas(ca1, trail, c);
      if r :| r in ca2 && ca2[r] == c { assert r in ca1 && ca1[r] == c; }
    }
    forall c | c in FormulaOf(ca1, trail) && !Mentions(c, v) ensures c in FormulaOf(ca2, trail) {
      FormulaHas(ca2, trail, c);
      FormulaHas(ca1, trail, c);
      if r :| r in ca1 && ca1[r] == c {
        assert r in ca0 ==> ca1[r] == ca0[r];
        assert r in ca2 && ca2[r] == c;
      }
    }
  }

  lemma LeftLits(ca0: map<nat, Clause>, ca1: map<nat, Clause>, ca2: map<nat, Clause>, cls: seq<nat>, v: nat, pos: seq<Clause>, neg: seq<Clause>)
    requires (forall r :: r in cls <==> r in ca0 && Mentions(ca0[r], v)) && GrownBy(ca0, ca1, OtherLits(pos + neg, v))
    requires (forall r :: r in ca2 <==> r in ca1 && r !in cls) && forall r :: r in ca2 ==> ca2[r] == ca1[r]
    requires forall c :: c in pos || c in neg ==> exists r :: r in ca0 && ca0[r] == c
    ensures LitsOf(ca2) <= LitsOf(ca0) && forall l :: l in LitsOf(ca2) ==> l.v != v
  {
    forall r, l | r in ca2 && l in ca2[r] ensures l in LitsOf(ca0) && l.v != v {
      if r in ca0 {
        assert !Mentions(ca0[r], v);
      } else {
        assert l in Lits(ca1[r]);
        assert l in OtherLits(pos + neg, v);
        var c :| c in pos + neg && l in c && l.v != v;
        var q :| q in ca0 && ca0[q] == c;
      }
    }
  }

  lemma EliminatedRefuted(f: set<Clause>, v: nat, g: set<Clause>)
    requires Eliminated(f, v, g) && !HasModel(g)
    ensures !HasModel(f)
  {
    hide AllSat, Inside, Clash, Mentions;
  }

  lemma NotGoneBack(ca: map<nat, Clause>, history: seq<Step>, ls: set<Lit>)
    requires LitsOf(ca) <= ls && forall l :: l in ls ==> !Gone(history, l.v)
    ensures forall r, l :: r in ca && l in ca[r] ==> !Gone(history, l.v)
  {
    hide Gone;
    forall r, l | r in ca && l in ca[r] ensures !Gone(history, l.v) { assert l in LitsOf(ca); }
  }

  lemma RefutedBack(history: seq<Step>, original: set<Clause>, f: set<Clause>, n: nat)
    requires Chain(history, original, f, n) && !HasModel(f)
    ensures !HasModel(original)
  {
    hide Chain, AllSat;
    forall m: Assignment ensures !AllSat(m, original) {
      if AllSat(m, original) { HistoryKeeps(history, original, f, n, m); }
    }
  }

  lemma NoTrailLit(values: seq<T.LBool>, trail: seq<Lit>, q: Lit, v: nat)
    requires TrailFits(values, trail) && q in trail && v < |values| && values[v] == T.LUndef
    ensures q.v != v
  {
  }

  lemma CurrentDistinct(cs: set<Clause>, history: seq<Step>, n: nat)
    requires Current(cs, history, n)
    ensures forall c :: c in cs ==> DistinctVars(c)
  {
  }

  lemma NothingYet(f: set<Clause>, pos: seq<Clause>, neg: seq<Clause>, v: nat, ca: map<nat, Clause>, ls: set<Lit>)
    ensures Stronger(f + {}, f) && ProductOf(pos, neg, v, {}, 0, 0) && GrownBy(ca, ca, ls)
  {
    assert f + {} == f;
    StrongerRefl(f);
  }

  lemma PairLits(pos: seq<Clause>, neg: seq<Clause>, v: nat, i: nat, j: nat, r: Clause, n: nat)
    requires i < |pos| && j < |neg| && Lits(r) == Without(pos[i], v) + Without(neg[j], v) && DistinctVars(r) && !Clash(pos[i], neg[j], v)
    requires (forall c :: c in pos || c in neg ==> forall l :: l in c ==> l.v < n) && Lit(v, false) in pos[i] && Lit(v, true) in neg[j]
    ensures (forall l :: l in r ==> l.v < n) && Lits(r) <= OtherLits(pos + neg, v) && !Tautology(r) && FromPair(pos, neg, v, r)
  {
    var p, q := pos[i], neg[j];
    assert p in pos && q in neg && p in pos + neg && q in pos + neg && Resolves(p, q, v, r);
    forall l | l in r ensures l.v < n && l in OtherLits(pos + neg, v) && l.Not() !in r {
      assert l in Lits(r);
      OneSign(r, l);
    }
  }

  lemma GrownTrans(a: map<nat, Clause>, b: map<nat, Clause>, c: map<nat, Clause>, ls: set<Lit>, all: set<Lit>)
    requires GrownBy(a, b, all) && GrownBy(b, c, ls) && ls <= all
    ensures GrownBy(a, c, all)
  {
  }

  lemma StrongerAdd(f: set<Clause>, g: set<Clause>, c: Clause, h: set<Clause>)
    requires Stronger(f, g) && Stronger(g + {c}, h)
    ensures Stronger(f + {c}, h)
  {
    hide Sat;
    forall m: Assignment | AllSat(m, f + {c}) ensures AllSat(m, h) {
      assert AllSat(m, f);
      assert AllSat(m, g + {c});
    }
    forall x | x in f + {c} ensures Inside(h, Lits(x)) {
      if x in f {
        assert Inside(g, Lits(x));
        var d :| d in g && Lits(d) <= Lits(x);
        assert d in g + {c};
        assert Inside(h, Lits(d));
      }
    }
  }

  lemma ReachedSat(m: Assignment, f: set<Clause>, rs: set<Clause>, r: Clause, g: set<Clause>)
    requires AllSat(m, f + (rs + {r})) && Stronger(f + rs, g)
    ensures AllSat(m, g + {r})
  {
    hide Sat, Inside;
    assert AllSat(m, f + rs);
  }

  /** When a resolvent refutes what has been reached, the clauses before have no model. */
  lemma ProductRefuted(f: set<Clause>, pos: seq<Clause>, neg: seq<Clause>, v: nat, rs: set<Clause>, i: nat, j: nat, r: Clause, g: set<Clause>)
    requires (forall c :: c in f ==> DistinctVars(c)) && (forall c :: c in pos || c in neg ==> c in f)
    requires ProductOf(pos, neg, v, rs, i, j) && FromPair(pos, neg, v, r) && Stronger(f + rs, g) && !HasModel(g + {r})
    ensures !HasModel(f)
  {
    hide DistinctVars, Sat, Clash, HasResolvent, Resolves;
    forall c | c in rs + {r} ensures IsResolvent(f, v, c) {
      assert FromPair(pos, neg, v, c);
      var p, q :| p in pos && q in neg && Resolves(p, q, v, c);
      assert p in f && q in f;
    }
    forall m: Assignment ensures !AllSat(m, f) {
      if AllSat(m, f) {
        EliminationKeeps(f, v, rs + {r}, m);
        ReachedSat(m, f, rs, r, g);
      }
    }
  }

  /** Literals of the clauses over other variables. */
  ghost function OtherLits(cs: seq<Clause>, v: nat): set<Lit> {
    set c, l | c in cs && l in c && l.v != v :: l
  }

  lemma OneDistinct(l: Lit)
    ensures DistinctVars([l])
  {
  }

  lemma RemovedOk(ca: map<nat, Clause>, refs: seq<nat>, n: nat, r: nat)
    requires StoredOk(ca, refs, n)
    ensures StoredOk(ca - {r}, refs, n) && Shrunk(ca, ca - {r})
  {
  }

  lemma RelatedMeans(c: Clause, d: Clause, r: Relation)
    requires Related(c, d, r)
    ensures r.Subsumes? ==> Lits(c) <= Lits(d)
    ensures r.Strengthens? ==> ShrinksBy(c, d, r.p) && r.p.Not() in d && r.p in c
  {
  }

  lemma CleanNext(ca: map<nat, Clause>, trail: seq<Lit>, k: nat)
    requires CleanTo(ca, trail, k) && k < |trail| && forall q :: q in ca ==> !Mentions(ca[q], trail[k].v)
    ensures CleanTo(ca, trail, k + 1)
  {
  }

  lemma AllClean(ca: map<nat, Clause>, values: seq<T.LBool>, trail: seq<Lit>)
    requires TrailFits(values, trail) && CleanTo(ca, trail, |trail|)
    ensures forall q, l :: q in ca && l in ca[q] ==> Val(values, l) == T.LUndef
  {
    forall q, l | q in ca && l in ca[q] ensures Val(values, l) == T.LUndef {
      forall p | p in trail ensures p.v != l.v {
        var i :| 0 <= i < |trail| && trail[i] == p;
        assert !Mentions(ca[q], trail[i].v);
      }
    }
  }

  ghost function StateOf(values: seq<T.LBool>): T.State {
    T.State(values, [], [], [], [], 0)
  }

  lemma ValueIs(values: seq<T.LBool>, l: Lit)
    requires l.v < |values|
    ensures Val(values, l) == T.LFalse <==> T.IsFalse(StateOf(values), l)
    ensures Val(values, l) == T.LUndef <==> values[l.v] == T.LUndef
  {
  }

  lemma NormalisedValues(values: seq<T.LBool>, ps0: Clause, ps: Clause, out: Clause)
    requires (forall l :: l in ps0 ==> l.v < |values|) && (forall l :: l in ps <==> l in ps0)
    requires (forall l :: l in ps ==> l in out || T.IsFalse(StateOf(values), l)) && forall l :: l in out ==> l.v < |values| && values[l.v] == T.LUndef
    ensures (forall l :: l in ps0 ==> l in out || Val(values, l) == T.LFalse) && forall l :: l in out ==> Val(values, l) == T.LUndef
  {
    hide Val, T.IsFalse;
    forall l | l in ps0 ensures l in out || Val(values, l) == T.LFalse { ValueIs(values, l); }
    forall l | l in out ensures Val(values, l) == T.LUndef { ValueIs(values, l); }
  }

  lemma TautologyIs(c: Clause, l: Lit)
    requires l in c && l.Not() in c
    ensures Tautology(c)
  {
  }

  lemma GrownLits(ca: map<nat, Clause>, ca': map<nat, Clause>, ps: Clause, history: seq<Step>)
    requires GrownBy(ca, ca', Lits(ps)) && (forall r, l :: r in ca && l in ca[r] ==> !Gone(history, l.v)) && forall l :: l in ps ==> !Gone(history, l.v)
    ensures forall r, l :: r in ca' && l in ca'[r] ==> !Gone(history, l.v)
  {
    hide Gone;
    forall r, l | r in ca' && l in ca'[r] ensures !Gone(history, l.v) {
      if r !in ca { assert l in Lits(ca'[r]); }
    }
  }

  /** The clause without repetitions. */
  lemma {:induction false} Deduped(ps: Clause) returns (d: Clause)
    requires !Tautology(ps)
    ensures DistinctVars(d) && Lits(d) == Lits(ps)
  {
    if ps == [] {
      d := [];
    } else {
      var front, l := ps[..|ps| - 1], ps[|ps| - 1];
      assert ps == front + [l];
      forall q | q in front ensures q.Not() !in front { assert q in ps; }
      d := Deduped(front);
      if l !in d {
        forall q | q in d ensures q.v != l.v {
          assert q in Lits(d);
          assert q in front && q in ps && l in ps;
          assert q.v == l.v ==> q == l || q == l.Not();
        }
        DistinctPush(d, l);
        d := d + [l];
      }
      forall q ensures q in d <==> q in ps { assert q in Lits(front) <==> q in front; }
    }
  }

  lemma SameStronger(f: set<Clause>, c: Clause, d: Clause, h: set<Clause>)
    requires Stronger(f + {c}, h) && Lits(d) == Lits(c)
    ensures Stronger(f + {d}, h)
  {
    hide Sat;
    forall m: Assignment | AllSat(m, f + {d}) ensures AllSat(m, h) {
      assert AllSat(m, f + {c});
    }
    forall x | x in f + {d} ensures Inside(h, Lits(x)) {
      if x in f { assert x in f + {c}; } else { assert c in f + {c}; }
    }
  }

  lemma TautologySat(m: Assignment, c: Clause)
    requires Tautology(c)
    ensures Sat(m, Lits(c))
  {
    var l :| l in c && l.Not() in c;
    assert l in Lits(c) && l.Not() in Lits(c);
    assert True(m, l) || True(m, l.Not());
  }

  lemma NoModelBack(f: set<Clause>, g: set<Clause>)
    requires Stronger(f, g) && !HasModel(g)
    ensures !HasModel(f)
  {
    hide AllSat;
  }

  lemma StoredBelow(ca: map<nat, Clause>, refs: seq<nat>, n: nat, r: nat)
    requires StoredOk(ca, refs, n) && r in ca
    ensures r in refs && |ca[r]| >= 2 && DistinctVars(ca[r]) && forall l :: l in ca[r] ==> l.v < n
  {
  }
}
