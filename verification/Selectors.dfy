/** Maximal satisfiable subsets over selector literals: a soft clause of two or more literals is
    stored together with the negation of a fresh variable, and that variable selects it. */
module Selectors {
  import opened Cnf

  type Theory = set<set<Lit>>

  ghost predicate AllTrue(m: Assignment, ls: set<Lit>) {
    forall l :: l in ls ==> True(m, l)
  }

  /** Some model of the theory and the assumptions makes all of `ls` true. */
  ghost predicate Together(theory: Theory, a: seq<Lit>, ls: set<Lit>) {
    exists m: Assignment :: IsModel(m, theory, a) && AllTrue(m, ls)
  }

  /** A maximal set of selectors that can be true together. */
  ghost predicate IsMss(theory: Theory, a: seq<Lit>, sel: set<Lit>, mss: set<Lit>) {
    && mss <= sel && Together(theory, a, mss)
    && forall l :: l in sel && l !in mss ==> !Together(theory, a, mss + {l})
  }

  /** A literal of `c` over another variable than `v` is true. */
  ghost predicate OtherTrue(c: Clause, v: nat, m: Assignment) {
    exists q :: q in c && q.v != v && True(m, q)
  }

  /** Fresh variables: `stored[v]` is the stored soft clause of `v`, and the only clause of the
      theory where `v` occurs negatively. The assumptions speak of original variables only. */
  ghost predicate FreshOk(theory: Theory, stored: map<nat, Clause>, a: seq<Lit>) {
    && (forall v :: v in stored ==>
          && Lit(v, true) in stored[v] && Lits(stored[v]) in theory
          && (forall q :: q in stored[v] ==> q == Lit(v, true) || q.v !in stored)
          && (forall c :: c in theory && Lit(v, true) in c ==> c == Lits(stored[v])))
    && (forall l :: l in a ==> l.v !in stored)
  }

  /** Raises every fresh variable whose soft clause holds. */
  ghost function Lift(m: Assignment, stored: map<nat, Clause>): Assignment {
    (v: nat) => if v in stored then OtherTrue(stored[v], v, m) else m(v)
  }

  /** The soft clause that `l` selects holds. */
  ghost predicate SelSat(stored: map<nat, Clause>, l: Lit, m: Assignment) {
    if l.v in stored && !l.neg then OtherTrue(stored[l.v], l.v, m) else True(m, l)
  }

  lemma LiftTrue(stored: map<nat, Clause>, l: Lit, m: Assignment)
    requires l.v in stored ==> !l.neg
    ensures True(Lift(m, stored), l) <==> SelSat(stored, l, m)
  {
  }

  lemma SelectedHolds(theory: Theory, stored: map<nat, Clause>, a: seq<Lit>, m: Assignment, l: Lit)
    requires FreshOk(theory, stored, a) && SatAll(m, theory) && True(m, l) && (l.v in stored ==> !l.neg)
    ensures SelSat(stored, l, m)
  {
    if l.v in stored {
      assert Sat(m, Lits(stored[l.v]));
      var q :| q in Lits(stored[l.v]) && True(m, q);
      assert q.v != l.v;
    }
  }

  /** Lifting keeps models. */
  lemma LiftModel(theory: Theory, stored: map<nat, Clause>, a: seq<Lit>, m: Assignment)
    requires FreshOk(theory, stored, a) && IsModel(m, theory, a)
    ensures IsModel(Lift(m, stored), theory, a)
    ensures forall l :: True(m, l) && (l.v in stored ==> !l.neg) ==> True(Lift(m, stored), l)
  {
    var m' := Lift(m, stored);
    forall l | True(m, l) && (l.v in stored ==> !l.neg) ensures True(m', l) {
      SelectedHolds(theory, stored, a, m, l);
    }
    forall c | c in theory ensures Sat(m', c) {
      assert Sat(m, c);
      var l :| l in c && True(m, l);
      if l.v in stored && l.neg {
        if OtherTrue(stored[l.v], l.v, m) {
          var q :| q in stored[l.v] && q.v != l.v && True(m, q);
          assert c == Lits(stored[l.v]) by { assert l == Lit(l.v, true); }
          assert q in c && True(m', q);
        } else {
          assert True(m', l);
        }
      } else {
        assert True(m', l);
      }
    }
    forall l | l in a ensures True(m', l) { }
  }

  // ----- the state of the extraction loop -----

  predicate Mark(l: Lit, k: nat) {
    k == if l.neg then 2 else 1
  }

  /** `marked` records the signs of the literals of `p`. */
  ghost predicate MarksOk(marked: seq<nat>, p: seq<Lit>) {
    && (forall l :: l in p ==> l.v < |marked| && Mark(l, marked[l.v]))
    && (forall v :: 0 <= v < |marked| && marked[v] != 0 ==> exists l :: l in p && l.v == v)
  }

  /** The assumption prefix `p` adds nothing to the selectors `mss`. */
  ghost predicate Implied(theory: Theory, a: seq<Lit>, mss: set<Lit>, p: seq<Lit>) {
    forall m: Assignment :: IsModel(m, theory, a) && AllTrue(m, mss) ==> TrueAll(m, p)
  }

  ghost predicate Excluded(theory: Theory, a: seq<Lit>, mss: set<Lit>, coMss: set<Lit>) {
    forall l :: l in coMss ==> !Together(theory, a, mss + {l})
  }

  /** The invariant of the linear search over the selectors: `p` is satisfiable and implied by
      the selectors kept, and the rejected ones are incompatible with them. */
  ghost predicate Extracting(theory: Theory, stored: map<nat, Clause>, a: seq<Lit>, p: seq<Lit>, mss: set<Lit>, coMss: set<Lit>, model: seq<bool>) {
    && FreshOk(theory, stored, a)
    && Satisfiable(theory, p + a)
    && (forall l :: l in mss ==> l in p)
    && (forall l :: l in mss ==> l.v in stored ==> !l.neg)
    && Implied(theory, a, mss, p)
    && Excluded(theory, a, mss, coMss)
    && IsModel(AsAssignment(model), theory, a)
    && (forall l :: l in mss ==> SelSat(stored, l, AsAssignment(model)))
  }

  lemma TrueAllSplit(m: Assignment, a: seq<Lit>, b: seq<Lit>)
    ensures TrueAll(m, a + b) <==> TrueAll(m, a) && TrueAll(m, b)
  {
    forall l | TrueAll(m, a + b) && l in a ensures True(m, l) { assert l in a + b; }
    forall l | TrueAll(m, a + b) && l in b ensures True(m, l) { assert l in a + b; }
  }

  lemma StartExtracting(theory: Theory, stored: map<nat, Clause>, a: seq<Lit>, model: seq<bool>)
    requires FreshOk(theory, stored, a) && IsModel(AsAssignment(model), theory, a)
    ensures Extracting(theory, stored, a, [], {}, {}, model)
  {
    assert [] + a == a;
    assert IsModel(AsAssignment(model), theory, [] + a);
  }

  lemma TogetherFewer(theory: Theory, a: seq<Lit>, big: set<Lit>, small: set<Lit>)
    requires Together(theory, a, big) && small <= big
    ensures Together(theory, a, small)
  {
    var m: Assignment :| IsModel(m, theory, a) && AllTrue(m, big);
    assert AllTrue(m, small);
  }

  lemma ExcludedMore(theory: Theory, a: seq<Lit>, mss: set<Lit>, mss': set<Lit>, coMss: set<Lit>)
    requires Excluded(theory, a, mss, coMss) && mss <= mss'
    ensures Excluded(theory, a, mss', coMss)
  {
    forall l | l in coMss ensures !Together(theory, a, mss' + {l}) {
      if Together(theory, a, mss' + {l}) { TogetherFewer(theory, a, mss' + {l}, mss + {l}); }
    }
  }

  /** A selector whose negation is in the prefix is rejected. */
  lemma RejectMarked(theory: Theory, stored: map<nat, Clause>, a: seq<Lit>, p: seq<Lit>, mss: set<Lit>, coMss: set<Lit>, model: seq<bool>, ls: Lit)
    requires Extracting(theory, stored, a, p, mss, coMss, model) && ls.Not() in p
    ensures Extracting(theory, stored, a, p, mss, coMss + {ls}, model)
  {
    forall m: Assignment | IsModel(m, theory, a) && AllTrue(m, mss + {ls}) ensures false {
      assert ls in mss + {ls} && AllTrue(m, mss);
    }
  }

  /** The solver found the prefix and `ls` satisfiable, with the values `model'`; `moved` holds
      selectors of the prefix or selectors whose clauses hold in that model. */
  lemma AcceptMoved(theory: Theory, stored: map<nat, Clause>, a: seq<Lit>, p: seq<Lit>, mss: set<Lit>, coMss: set<Lit>, model: seq<bool>,
                    ls: Lit, model': seq<bool>, moved: seq<Lit>)
    requires Extracting(theory, stored, a, p, mss, coMss, model)
    requires IsModel(AsAssignment(model'), theory, p + (a + [ls])) && (ls.v in stored ==> !ls.neg)
    requires forall l :: l in moved ==> (l.v in stored ==> !l.neg) && (l in p + [ls] || SelSat(stored, l, AsAssignment(model')))
    ensures Extracting(theory, stored, a, p + [ls] + moved, mss + {ls} + Lits(moved), coMss, model')
  {
    var m := AsAssignment(model');
    var m' := Lift(m, stored);
    var mss' := mss + {ls} + Lits(moved);
    var p' := p + [ls] + moved;
    TrueAllSplit(m, p, a + [ls]);
    TrueAllSplit(m, a, [ls]);
    LiftModel(theory, stored, a, m);
    forall l | l in mss' ensures SelSat(stored, l, m) && (l.v in stored ==> !l.neg) && l in p' {
      if l in mss { assert l in p && l in p'; } else if l == ls { assert p'[|p|] == ls; } else { assert l in moved; }
      if l in p + [ls] { assert True(m, l); SelectedHolds(theory, stored, a, m, l); }
    }
    forall l | l in mss' ensures True(m', l) { LiftTrue(stored, l, m); }
    ImpliedMore(theory, a, mss, p, mss', ls, moved);
    assert AllTrue(m', mss') && TrueAll(m', p');
    TrueAllSplit(m', p', a);
    assert IsModel(m', theory, p' + a);
    ExcludedMore(theory, a, mss, mss', coMss);
  }

  lemma ImpliedMore(theory: Theory, a: seq<Lit>, mss: set<Lit>, p: seq<Lit>, mss': set<Lit>, ls: Lit, moved: seq<Lit>)
    requires Implied(theory, a, mss, p) && mss' == mss + {ls} + Lits(moved)
    ensures Implied(theory, a, mss', p + [ls] + moved)
  {
    forall m: Assignment | IsModel(m, theory, a) && AllTrue(m, mss') ensures TrueAll(m, p + [ls] + moved) {
      assert AllTrue(m, mss);
      forall l | l in p + [ls] + moved ensures True(m, l) {
        if l in p { } else if l == ls { assert ls in mss'; } else { assert l in mss'; }
      }
    }
  }

  /** The solver found the prefix and `ls` contradictory: `ls` is rejected and its negation implied. */
  lemma Reject(theory: Theory, stored: map<nat, Clause>, a: seq<Lit>, p: seq<Lit>, mss: set<Lit>, coMss: set<Lit>, model: seq<bool>, ls: Lit)
    requires Extracting(theory, stored, a, p, mss, coMss, model)
    requires !Satisfiable(theory, p + (a + [ls]))
    ensures Extracting(theory, stored, a, p + [ls.Not()], mss, coMss + {ls}, model)
  {
    forall m: Assignment | IsModel(m, theory, a) && AllTrue(m, mss) ensures !True(m, ls) {
      TrueAllSplit(m, p, a + [ls]);
      TrueAllSplit(m, a, [ls]);
      assert True(m, ls) ==> IsModel(m, theory, p + (a + [ls]));
    }
    assert !Together(theory, a, mss + {ls}) by {
      forall m: Assignment | IsModel(m, theory, a) && AllTrue(m, mss + {ls}) ensures false {
        assert ls in mss + {ls} && AllTrue(m, mss);
      }
    }
    ImpliedOne(theory, stored, a, p, mss, coMss + {ls}, model, ls.Not());
  }

  /** Pushing a literal that the selectors imply. */
  lemma ImpliedOne(theory: Theory, stored: map<nat, Clause>, a: seq<Lit>, p: seq<Lit>, mss: set<Lit>, coMss: set<Lit>, model: seq<bool>, l: Lit)
    requires FreshOk(theory, stored, a) && Satisfiable(theory, p + a)
    requires (forall q :: q in mss ==> q in p) && (forall q :: q in mss ==> q.v in stored ==> !q.neg)
    requires Implied(theory, a, mss, p) && Excluded(theory, a, mss, coMss)
    requires IsModel(AsAssignment(model), theory, a) && (forall q :: q in mss ==> SelSat(stored, q, AsAssignment(model)))
    requires forall m: Assignment :: IsModel(m, theory, a) && AllTrue(m, mss) ==> True(m, l)
    ensures Extracting(theory, stored, a, p + [l], mss, coMss, model)
  {
    var m: Assignment :| IsModel(m, theory, p + a);
    TrueAllSplit(m, p, a);
    assert AllTrue(m, mss);
    TrueAllSplit(m, p + [l], a);
    assert IsModel(m, theory, (p + [l]) + a);
  }

  /** Once a fresh selector is rejected, every literal of its soft clause is implied false. */
  lemma Backbone(theory: Theory, stored: map<nat, Clause>, a: seq<Lit>, p: seq<Lit>, mss: set<Lit>, coMss: set<Lit>, model: seq<bool>, ls: Lit, q: Lit)
    requires Extracting(theory, stored, a, p, mss, coMss, model) && ls in coMss
    requires ls.v in stored && !ls.neg && q in stored[ls.v] && q.v != ls.v
    ensures Extracting(theory, stored, a, p + [q.Not()], mss, coMss, model)
  {
    var c := stored[ls.v];
    forall m: Assignment | IsModel(m, theory, a) && AllTrue(m, mss) ensures True(m, q.Not()) {
      LiftModel(theory, stored, a, m);
      var m' := Lift(m, stored);
      assert AllTrue(m', mss);
      LiftTrue(stored, ls, m);
      assert True(m, q) ==> OtherTrue(c, ls.v, m);
      assert True(m', ls) ==> AllTrue(m', mss + {ls});
      assert !Together(theory, a, mss + {ls});
    }
    ImpliedOne(theory, stored, a, p, mss, coMss, model, q.Not());
  }

  /** When no selector is left, the kept ones are maximal and the model satisfies exactly their clauses. */
  lemma Extracted(theory: Theory, stored: map<nat, Clause>, a: seq<Lit>, p: seq<Lit>, mss: set<Lit>, coMss: set<Lit>, model: seq<bool>)
    requires Extracting(theory, stored, a, p, mss, coMss, model)
    requires forall l :: l in coMss ==> l.v in stored ==> !l.neg
    ensures IsMss(theory, a, mss + coMss, mss) && Models(model, theory, a)
    ensures forall l :: l in coMss ==> l !in mss
    ensures forall l :: l in mss + coMss ==> (l in mss <==> SelSat(stored, l, AsAssignment(model)))
  {
    var m: Assignment :| IsModel(m, theory, p + a);
    TrueAllSplit(m, p, a);
    assert AllTrue(m, mss);
    forall l | l in coMss ensures l !in mss {
      assert l in mss ==> mss + {l} == mss;
      assert Together(theory, a, mss);
    }
    var v := AsAssignment(model);
    LiftModel(theory, stored, a, v);
    forall l | l in mss ensures True(Lift(v, stored), l) { LiftTrue(stored, l, v); }
    forall l | l in coMss ensures !SelSat(stored, l, v) {
      LiftTrue(stored, l, v);
      assert True(Lift(v, stored), l) ==> AllTrue(Lift(v, stored), mss + {l});
    }
  }

  lemma MarkedMeans(marked: seq<nat>, p: seq<Lit>, l: Lit)
    requires MarksOk(marked, p) && l.v < |marked| && marked[l.v] != 0
    ensures if Mark(l, marked[l.v]) then l in p else l.Not() in p
  {
    var q :| q in p && q.v == l.v;
    assert q == l || q == l.Not();
  }

  lemma MarkAgain(marked: seq<nat>, p: seq<Lit>, l: Lit)
    requires MarksOk(marked, p) && l in p
    ensures MarksOk(marked, p + [l])
  {
    forall v | 0 <= v < |marked| && marked[v] != 0 ensures exists q :: q in p + [l] && q.v == v {
      var q :| q in p && q.v == v;
      assert q in p + [l];
    }
  }

  lemma NewMark(marked: seq<nat>, p: seq<Lit>, l: Lit)
    requires MarksOk(marked, p) && l.v < |marked| && marked[l.v] == 0
    ensures MarksOk(marked[l.v := if l.neg then 2 else 1], p + [l])
  {
    var marked' := marked[l.v := if l.neg then 2 else 1];
    assert l in p + [l];
    forall v | 0 <= v < |marked'| && marked'[v] != 0 ensures exists q :: q in p + [l] && q.v == v {
      if v != l.v {
        var q :| q in p && q.v == v;
        assert q in p + [l];
      }
    }
    forall q | q in p + [l] ensures q.v < |marked'| && Mark(q, marked'[q.v]) {
      if q in p { assert Mark(q, marked[q.v]); }
    }
  }

  lemma {:induction false} RejectAll(theory: Theory, stored: map<nat, Clause>, a: seq<Lit>, p: seq<Lit>, mss: set<Lit>, coMss: set<Lit>, model: seq<bool>, rejected: seq<Lit>)
    requires Extracting(theory, stored, a, p, mss, coMss, model) && forall l :: l in rejected ==> l.Not() in p
    ensures Extracting(theory, stored, a, p, mss, coMss + Lits(rejected), model)
  {
    if rejected == [] {
      assert coMss + Lits(rejected) == coMss;
    } else {
      var l, rest := rejected[0], rejected[1..];
      hide Extracting;
      RejectAll(theory, stored, a, p, mss, coMss, model, rest);
      RejectMarked(theory, stored, a, p, mss, coMss + Lits(rest), model, l);
      assert coMss + Lits(rest) + {l} == coMss + Lits(rejected);
    }
  }

  /** A selector of the prefix cannot be refused. */
  lemma NotForced(theory: Theory, stored: map<nat, Clause>, a: seq<Lit>, p: seq<Lit>, mss: set<Lit>, coMss: set<Lit>, model: seq<bool>, marked: seq<nat>, ls: Lit)
    requires Extracting(theory, stored, a, p, mss, coMss, model) && MarksOk(marked, p) && ls.v < |marked|
    requires marked[ls.v] == 0 || Mark(ls, marked[ls.v])
    requires !Satisfiable(theory, p + (a + [ls]))
    ensures marked[ls.v] == 0
  {
    if marked[ls.v] != 0 {
      MarkedMeans(marked, p, ls);
      var m: Assignment :| IsModel(m, theory, p + a);
      TrueAllSplit(m, p, a);
      TrueAllSplit(m, a, [ls]);
      TrueAllSplit(m, p, a + [ls]);
      assert IsModel(m, theory, p + (a + [ls]));
    }
  }

  lemma MarksRange(marked: seq<nat>, p: seq<Lit>)
    requires MarksOk(marked, p)
    ensures forall l :: l in p ==> l.v < |marked|
  {
  }

  lemma NoMarks(marked: seq<nat>)
    requires forall v :: 0 <= v < |marked| ==> marked[v] == 0
    ensures MarksOk(marked, [])
  {
  }
}
