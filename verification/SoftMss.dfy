/** From soft clauses to selectors and back: maximal sets of selectors of the stored problem are
    the maximal sets of soft clauses of the original one. */
module SoftMss {
  import opened Cnf
  import opened Selectors

  /** `m` satisfies the soft clauses with indices in `s`. */
  ghost predicate SatSofts(m: Assignment, softs: seq<Clause>, s: set<nat>) {
    forall i :: i in s && i < |softs| ==> Sat(m, Lits(softs[i]))
  }

  ghost predicate SoftsTogether(hard: Theory, a: seq<Lit>, softs: seq<Clause>, s: set<nat>) {
    exists m: Assignment :: IsModel(m, hard, a) && SatSofts(m, softs, s)
  }

  /** A maximal set of soft clauses satisfiable together with the hard clauses and the assumptions. */
  ghost predicate IsSoftMss(hard: Theory, a: seq<Lit>, softs: seq<Clause>, s: set<nat>) {
    && (forall i :: i in s ==> i < |softs|)
    && SoftsTogether(hard, a, softs, s)
    && forall i: nat :: i < |softs| && i !in s ==> !SoftsTogether(hard, a, softs, s + {i})
  }

  ghost function StoredClauses(stored: map<nat, Clause>): Theory {
    set v | v in stored :: Lits(stored[v])
  }

  ghost predicate OverOriginal(c: set<Lit>, stored: map<nat, Clause>) {
    forall l :: l in c ==> l.v !in stored
  }

  /** What the selector of soft clause `c` means; without a selector the clause always holds. */
  ghost predicate SelectorMeans(theory: Theory, stored: map<nat, Clause>, c: Clause, sel: Option<Lit>) {
    forall m: Assignment :: SatAll(m, theory) ==>
      (Sat(m, Lits(c)) <==> sel.None? || SelSat(stored, sel.value, m))
  }

  /** The stored problem represents hard and soft clauses; `orgID2in` gives each soft clause its selector. */
  ghost predicate Represents(theory: Theory, stored: map<nat, Clause>, selectors: seq<Lit>, orgID2in: seq<Option<Lit>>,
                             hard: Theory, softs: seq<Clause>) {
    && theory == hard + StoredClauses(stored)
    && FreshOk(theory, stored, [])
    && (forall c :: c in hard ==> OverOriginal(c, stored))
    && |orgID2in| == |softs|
    && (forall i :: 0 <= i < |softs| ==> OverOriginal(Lits(softs[i]), stored) && SelectorMeans(theory, stored, softs[i], orgID2in[i]))
    && (forall i :: 0 <= i < |softs| && orgID2in[i].Some? ==> orgID2in[i].value in selectors)
    && (forall l :: l in selectors ==> (l.v in stored ==> !l.neg) && exists i :: 0 <= i < |softs| && orgID2in[i] == Some(l))
  }

  /** The soft clauses selected by `sel`, with those that need no selector. */
  ghost function Chosen(orgID2in: seq<Option<Lit>>, sel: set<Lit>): set<nat> {
    set i | 0 <= i < |orgID2in| && (orgID2in[i].None? || orgID2in[i].value in sel)
  }

  lemma SameOutside(stored: map<nat, Clause>, m: Assignment, c: set<Lit>)
    requires OverOriginal(c, stored)
    ensures Sat(Lift(m, stored), c) <==> Sat(m, c)
  {
    forall l | l in c ensures True(Lift(m, stored), l) <==> True(m, l) { }
  }

  /** Every model of the hard clauses lifts to a model of the stored problem. */
  lemma LiftHard(theory: Theory, stored: map<nat, Clause>, selectors: seq<Lit>, orgID2in: seq<Option<Lit>>, hard: Theory, softs: seq<Clause>,
                 a: seq<Lit>, m: Assignment)
    requires Represents(theory, stored, selectors, orgID2in, hard, softs) && OverOriginal(Lits(a), stored) && IsModel(m, hard, a)
    ensures IsModel(Lift(m, stored), theory, a)
  {
    var m' := Lift(m, stored);
    forall c | c in theory ensures Sat(m', c) {
      if c in hard {
        assert Sat(m, c);
        SameOutside(stored, m, c);
      } else {
        var v :| v in stored && c == Lits(stored[v]);
        if OtherTrue(stored[v], v, m) {
          var q :| q in stored[v] && q.v != v && True(m, q);
          assert q in c && True(m', q);
        } else {
          assert Lit(v, true) in c && True(m', Lit(v, true));
        }
      }
    }
    forall l | l in a ensures True(m', l) { assert l in Lits(a); }
  }

  lemma StoredIsHard(theory: Theory, stored: map<nat, Clause>, selectors: seq<Lit>, orgID2in: seq<Option<Lit>>, hard: Theory, softs: seq<Clause>,
                     a: seq<Lit>, m: Assignment)
    requires Represents(theory, stored, selectors, orgID2in, hard, softs) && IsModel(m, theory, a)
    ensures IsModel(m, hard, a)
  {
    forall c | c in hard ensures Sat(m, c) { assert c in theory; }
  }

  /** Selectors can be true together exactly when the soft clauses they choose can hold together. */
  lemma TogetherSofts(theory: Theory, stored: map<nat, Clause>, selectors: seq<Lit>, orgID2in: seq<Option<Lit>>, hard: Theory, softs: seq<Clause>,
                      a: seq<Lit>, sel: set<Lit>)
    requires Represents(theory, stored, selectors, orgID2in, hard, softs) && OverOriginal(Lits(a), stored) && sel <= Lits(selectors)
    ensures Together(theory, a, sel) <==> SoftsTogether(hard, a, softs, Chosen(orgID2in, sel))
  {
    var s := Chosen(orgID2in, sel);
    if Together(theory, a, sel) {
      var m: Assignment :| IsModel(m, theory, a) && AllTrue(m, sel);
      StoredIsHard(theory, stored, selectors, orgID2in, hard, softs, a, m);
      forall i | i in s && i < |softs| ensures Sat(m, Lits(softs[i])) {
        assert SelectorMeans(theory, stored, softs[i], orgID2in[i]);
        if orgID2in[i].Some? { SelectedHolds(theory, stored, [], m, orgID2in[i].value); }
      }
    }
    if SoftsTogether(hard, a, softs, s) {
      var m: Assignment :| IsModel(m, hard, a) && SatSofts(m, softs, s);
      LiftHard(theory, stored, selectors, orgID2in, hard, softs, a, m);
      LiftedSelectors(theory, stored, selectors, orgID2in, hard, softs, a, m, sel);
    }
  }

  lemma LiftedSelectors(theory: Theory, stored: map<nat, Clause>, selectors: seq<Lit>, orgID2in: seq<Option<Lit>>, hard: Theory, softs: seq<Clause>,
                        a: seq<Lit>, m: Assignment, sel: set<Lit>)
    requires Represents(theory, stored, selectors, orgID2in, hard, softs) && sel <= Lits(selectors)
    requires IsModel(Lift(m, stored), theory, a) && SatSofts(m, softs, Chosen(orgID2in, sel))
    ensures AllTrue(Lift(m, stored), sel)
  {
    var m' := Lift(m, stored);
    forall l | l in sel ensures True(m', l) {
      assert l in selectors;
      var i :| 0 <= i < |softs| && orgID2in[i] == Some(l);
      assert i in Chosen(orgID2in, sel);
      SameOutside(stored, m, Lits(softs[i]));
      assert SelectorMeans(theory, stored, softs[i], orgID2in[i]);
      assert SelSat(stored, l, m');
      if l.v in stored {
        var q :| q in stored[l.v] && q.v != l.v && True(m', q);
        assert q != Lit(l.v, true) && True(m, q);
        assert OtherTrue(stored[l.v], l.v, m);
      }
    }
  }

  lemma ChosenMore(orgID2in: seq<Option<Lit>>, sel: set<Lit>, l: Lit, i: nat)
    requires i < |orgID2in| && orgID2in[i] == Some(l)
    ensures Chosen(orgID2in, sel) + {i} <= Chosen(orgID2in, sel + {l})
  {
  }

  lemma FewerSofts(hard: Theory, a: seq<Lit>, softs: seq<Clause>, big: set<nat>, small: set<nat>)
    requires SoftsTogether(hard, a, softs, big) && small <= big
    ensures SoftsTogether(hard, a, softs, small)
  {
    var m: Assignment :| IsModel(m, hard, a) && SatSofts(m, softs, big);
    assert SatSofts(m, softs, small);
  }

  /** Maximal sets of selectors choose maximal sets of soft clauses, and only they do. */
  lemma MssIsSoftMss(theory: Theory, stored: map<nat, Clause>, selectors: seq<Lit>, orgID2in: seq<Option<Lit>>, hard: Theory, softs: seq<Clause>,
                     a: seq<Lit>, sel: set<Lit>)
    requires Represents(theory, stored, selectors, orgID2in, hard, softs) && OverOriginal(Lits(a), stored) && sel <= Lits(selectors)
    ensures IsMss(theory, a, Lits(selectors), sel) <==> IsSoftMss(hard, a, softs, Chosen(orgID2in, sel))
  {
    var s := Chosen(orgID2in, sel);
    TogetherSofts(theory, stored, selectors, orgID2in, hard, softs, a, sel);
    if IsMss(theory, a, Lits(selectors), sel) {
      forall i: nat | i < |softs| && i !in s ensures !SoftsTogether(hard, a, softs, s + {i}) {
        var l := orgID2in[i].value;
        if SoftsTogether(hard, a, softs, s + {i}) {
          OneMoreSoft(theory, stored, selectors, orgID2in, hard, softs, a, sel, i);
        }
      }
    }
    if IsSoftMss(hard, a, softs, s) {
      forall l | l in selectors && l !in sel ensures !Together(theory, a, sel + {l}) {
        if Together(theory, a, sel + {l}) {
          var i: nat :| i < |softs| && orgID2in[i] == Some(l);
          TogetherSofts(theory, stored, selectors, orgID2in, hard, softs, a, sel + {l});
          ChosenMore(orgID2in, sel, l, i);
          FewerSofts(hard, a, softs, Chosen(orgID2in, sel + {l}), s + {i});
        }
      }
    }
  }

  lemma OneMoreSoft(theory: Theory, stored: map<nat, Clause>, selectors: seq<Lit>, orgID2in: seq<Option<Lit>>, hard: Theory, softs: seq<Clause>,
                    a: seq<Lit>, sel: set<Lit>, i: nat)
    requires Represents(theory, stored, selectors, orgID2in, hard, softs) && OverOriginal(Lits(a), stored) && sel <= Lits(selectors)
    requires i < |softs| && orgID2in[i].Some? && SoftsTogether(hard, a, softs, Chosen(orgID2in, sel) + {i})
    ensures Together(theory, a, sel + {orgID2in[i].value})
  {
    var l := orgID2in[i].value;
    var m: Assignment :| IsModel(m, hard, a) && SatSofts(m, softs, Chosen(orgID2in, sel) + {i});
    LiftHard(theory, stored, selectors, orgID2in, hard, softs, a, m);
    assert SatSofts(m, softs, Chosen(orgID2in, sel));
    LiftedSelectors(theory, stored, selectors, orgID2in, hard, softs, a, m, sel);
    LiftedOne(theory, stored, selectors, orgID2in, hard, softs, a, m, i);
    assert AllTrue(Lift(m, stored), sel + {l});
  }

  lemma LiftedOne(theory: Theory, stored: map<nat, Clause>, selectors: seq<Lit>, orgID2in: seq<Option<Lit>>, hard: Theory, softs: seq<Clause>,
                  a: seq<Lit>, m: Assignment, i: nat)
    requires Represents(theory, stored, selectors, orgID2in, hard, softs) && i < |softs| && orgID2in[i].Some?
    requires IsModel(Lift(m, stored), theory, a) && Sat(m, Lits(softs[i]))
    ensures True(Lift(m, stored), orgID2in[i].value)
  {
    var m', l := Lift(m, stored), orgID2in[i].value;
    SameOutside(stored, m, Lits(softs[i]));
    assert SelectorMeans(theory, stored, softs[i], orgID2in[i]);
    if l.v in stored {
      var q :| q in stored[l.v] && q.v != l.v && True(m', q);
      assert q != Lit(l.v, true) && True(m, q);
      assert OtherTrue(stored[l.v], l.v, m);
    }
  }

  /** Different sets of selectors choose different sets of soft clauses. */
  lemma ChosenInjective(theory: Theory, stored: map<nat, Clause>, selectors: seq<Lit>, orgID2in: seq<Option<Lit>>, hard: Theory, softs: seq<Clause>,
                        x: set<Lit>, y: set<Lit>)
    requires Represents(theory, stored, selectors, orgID2in, hard, softs) && x <= Lits(selectors) && y <= Lits(selectors)
    requires Chosen(orgID2in, x) == Chosen(orgID2in, y)
    ensures x == y
  {
    forall l | l in selectors ensures l in x <==> l in y {
      var i :| 0 <= i < |softs| && orgID2in[i] == Some(l);
      assert i in Chosen(orgID2in, x) <==> i in Chosen(orgID2in, y);
    }
    forall l ensures l in x <==> l in y { assert (l in x || l in y) ==> l in Lits(selectors); }
  }

  /** Every maximal set of soft clauses is chosen by some set of selectors. */
  lemma SoftMssChosen(theory: Theory, stored: map<nat, Clause>, selectors: seq<Lit>, orgID2in: seq<Option<Lit>>, hard: Theory, softs: seq<Clause>,
                      a: seq<Lit>, s: set<nat>) returns (sel: set<Lit>)
    requires Represents(theory, stored, selectors, orgID2in, hard, softs) && OverOriginal(Lits(a), stored) && IsSoftMss(hard, a, softs, s)
    ensures sel <= Lits(selectors) && Chosen(orgID2in, sel) == s
  {
    var m: Assignment :| IsModel(m, hard, a) && SatSofts(m, softs, s);
    LiftHard(theory, stored, selectors, orgID2in, hard, softs, a, m);
    var m' := Lift(m, stored);
    sel := set l | l in selectors && True(m', l);
    forall i: nat | i < |softs| ensures i in Chosen(orgID2in, sel) <==> Sat(m, Lits(softs[i])) {
      SameOutside(stored, m, Lits(softs[i]));
      assert SelectorMeans(theory, stored, softs[i], orgID2in[i]);
      if orgID2in[i].Some? {
        if Sat(m, Lits(softs[i])) { LiftedOne(theory, stored, selectors, orgID2in, hard, softs, a, m, i); }
        if True(m', orgID2in[i].value) { SelectedHolds(theory, stored, [], m', orgID2in[i].value); }
      }
    }
    var all := Chosen(orgID2in, sel);
    forall i | i in all ensures i in s {
      if i !in s { assert SatSofts(m, softs, s + {i}); }
    }
  }

  // ----- adding a soft clause -----

  function WithSelector(selectors: seq<Lit>, sel: Option<Lit>): seq<Lit> {
    if sel.None? || sel.value in selectors then selectors else selectors + [sel.value]
  }

  lemma AddSelected(theory: Theory, stored: map<nat, Clause>, selectors: seq<Lit>, orgID2in: seq<Option<Lit>>, hard: Theory, softs: seq<Clause>,
                    c: Clause, sel: Option<Lit>)
    requires Represents(theory, stored, selectors, orgID2in, hard, softs)
    requires OverOriginal(Lits(c), stored) && SelectorMeans(theory, stored, c, sel)
    requires sel.Some? ==> sel.value.v in stored ==> !sel.value.neg
    ensures Represents(theory, stored, WithSelector(selectors, sel), orgID2in + [sel], hard, softs + [c])
  {
    var orgID2in', softs' := orgID2in + [sel], softs + [c];
    forall l | l in WithSelector(selectors, sel) ensures exists i :: 0 <= i < |softs'| && orgID2in'[i] == Some(l) {
      if l in selectors {
        var i :| 0 <= i < |softs| && orgID2in[i] == Some(l);
        assert orgID2in'[i] == Some(l);
      } else {
        assert orgID2in'[|softs|] == Some(l);
      }
    }
  }

  /** Variable `v` occurs nowhere in the stored problem. */
  ghost predicate Unused(theory: Theory, stored: map<nat, Clause>, selectors: seq<Lit>, softs: seq<Clause>, v: nat) {
    && v !in stored
    && (forall c, l :: c in theory && l in c ==> l.v != v)
    && (forall l :: l in selectors ==> l.v != v)
    && (forall i :: 0 <= i < |softs| ==> forall l :: l in softs[i] ==> l.v != v)
  }

  lemma StoredMore(stored: map<nat, Clause>, v: nat, d: Clause)
    requires v !in stored
    ensures StoredClauses(stored[v := d]) == StoredClauses(stored) + {Lits(d)}
  {
    var stored' := stored[v := d];
    assert forall u :: u in stored ==> stored'[u] == stored[u];
    assert Lits(d) == Lits(stored'[v]);
    forall x | x in StoredClauses(stored) ensures x in StoredClauses(stored') {
      var u :| u in stored && x == Lits(stored[u]);
      assert u in stored' && x == Lits(stored'[u]);
    }
  }

  /** A new stored clause leaves the meaning of the other selectors alone. */
  lemma MeansMore(theory: Theory, stored: map<nat, Clause>, c: Clause, sel: Option<Lit>, v: nat, d: Clause)
    requires SelectorMeans(theory, stored, c, sel) && v !in stored && (sel.Some? ==> sel.value.v != v)
    ensures SelectorMeans(theory + {Lits(d)}, stored[v := d], c, sel)
  {
    forall m: Assignment | SatAll(m, theory + {Lits(d)}) ensures SatAll(m, theory) {
      forall x | x in theory ensures Sat(m, x) { assert x in theory + {Lits(d)}; }
    }
  }

  /** Storing a soft clause with a new selector variable. */
  lemma AddFresh(theory: Theory, stored: map<nat, Clause>, selectors: seq<Lit>, orgID2in: seq<Option<Lit>>, hard: Theory, softs: seq<Clause>,
                 c: Clause, v: nat)
    requires Represents(theory, stored, selectors, orgID2in, hard, softs) && Unused(theory, stored, selectors, softs, v)
    requires OverOriginal(Lits(c), stored) && forall l :: l in c ==> l.v != v
    ensures Represents(theory + {Lits(c + [Lit(v, true)])}, stored[v := c + [Lit(v, true)]], selectors, orgID2in, hard, softs)
  {
    hide SelectorMeans, FreshOk, StoredClauses, SatAll;
    var d := c + [Lit(v, true)];
    var stored', theory' := stored[v := d], theory + {Lits(d)};
    assert Lit(v, true) in d && forall l :: l in d <==> l in c || l == Lit(v, true);
    StoredMore(stored, v, d);
    assert theory' == hard + StoredClauses(stored');
    forall l | l in c ensures l.v !in stored { assert l in Lits(c); }
    FreshMore(theory, stored, d, v);
    forall i | 0 <= i < |softs|
      ensures OverOriginal(Lits(softs[i]), stored') && SelectorMeans(theory', stored', softs[i], orgID2in[i])
    {
      MeansMore(theory, stored, softs[i], orgID2in[i], v, d);
    }
    forall x | x in hard ensures OverOriginal(x, stored') { assert x in theory; }
  }

  /** The new selector stands for the new soft clause. */
  lemma FreshMeans(theory: Theory, stored: map<nat, Clause>, c: Clause, v: nat)
    requires v in stored && stored[v] == c + [Lit(v, true)] && OverOriginal(Lits(c), stored)
    ensures SelectorMeans(theory, stored, c, Some(Lit(v, false)))
  {
    var d := stored[v];
    assert d[|c|] == Lit(v, true);
    forall m: Assignment ensures Sat(m, Lits(c)) <==> OtherTrue(d, v, m) {
      if OtherTrue(d, v, m) { var q :| q in d && q.v != v && True(m, q); assert q in Lits(c); }
      if Sat(m, Lits(c)) { var q :| q in Lits(c) && True(m, q); assert q in d && q.v != v; }
    }
  }

  lemma FreshMore(theory: Theory, stored: map<nat, Clause>, d: Clause, v: nat)
    requires FreshOk(theory, stored, []) && v !in stored && forall x, l :: x in theory && l in x ==> l.v != v
    requires Lit(v, true) in d && forall l :: l in d ==> l == Lit(v, true) || (l.v !in stored && l.v != v)
    ensures FreshOk(theory + {Lits(d)}, stored[v := d], [])
  {
    var theory', stored' := theory + {Lits(d)}, stored[v := d];
    forall u | u in stored'
      ensures Lit(u, true) in stored'[u] && Lits(stored'[u]) in theory'
      ensures forall q :: q in stored'[u] ==> q == Lit(u, true) || q.v !in stored'
      ensures forall c :: c in theory' && Lit(u, true) in c ==> c == Lits(stored'[u])
    {
      if u != v {
        assert Lits(stored[u]) in theory;
        forall q | q in stored[u] ensures q == Lit(u, true) || q.v !in stored' { assert q in Lits(stored[u]); }
      }
    }
  }

  lemma RepresentsFresh(theory: Theory, stored: map<nat, Clause>, selectors: seq<Lit>, orgID2in: seq<Option<Lit>>, hard: Theory, softs: seq<Clause>)
    requires Represents(theory, stored, selectors, orgID2in, hard, softs)
    ensures FreshOk(theory, stored, [])
  {
  }

  // ----- the maps between soft clauses and selectors -----

  ghost predicate AllSelectedBy(orgID2in: seq<Option<Lit>>, ids: seq<nat>, l: Lit) {
    forall k :: 0 <= k < |ids| ==> ids[k] < |orgID2in| && orgID2in[ids[k]] == Some(l)
  }

  /** `mapIdxClause` inverts `orgID2in`, and its keys are the selectors. */
  ghost predicate IdsOk(selectors: seq<Lit>, orgID2in: seq<Option<Lit>>, mapIdxClause: map<Lit, seq<nat>>) {
    && (forall l :: l in mapIdxClause <==> l in selectors)
    && (forall l :: l in mapIdxClause ==> AllSelectedBy(orgID2in, mapIdxClause[l], l))
    && (forall i: nat :: i < |orgID2in| && orgID2in[i].Some? ==> orgID2in[i].value in mapIdxClause && i in mapIdxClause[orgID2in[i].value])
  }

  ghost function IdsOf(mapIdxClause: map<Lit, seq<nat>>, l: Lit): seq<nat> {
    if l in mapIdxClause then mapIdxClause[l] else []
  }

  lemma UsedMore(selectors: seq<Lit>, orgID2in: seq<Option<Lit>>, mapIdxClause: map<Lit, seq<nat>>, l: Lit)
    requires IdsOk(selectors, orgID2in, mapIdxClause)
    ensures IdsOk(WithSelector(selectors, Some(l)), orgID2in + [Some(l)], mapIdxClause[l := IdsOf(mapIdxClause, l) + [|orgID2in|]])
  {
    var map', ids := mapIdxClause[l := IdsOf(mapIdxClause, l) + [|orgID2in|]], orgID2in + [Some(l)];
    forall q | q in map' ensures AllSelectedBy(ids, map'[q], q) {
      assert q in mapIdxClause ==> AllSelectedBy(orgID2in, mapIdxClause[q], q);
      assert q == l ==> AllSelectedBy(orgID2in, IdsOf(mapIdxClause, l), l);
    }
    forall i: nat | i < |ids| && ids[i].Some? ensures ids[i].value in map' && i in map'[ids[i].value] {
      if i == |orgID2in| {
        assert map'[l][|IdsOf(mapIdxClause, l)|] == i;
      } else {
        assert orgID2in[i] == ids[i];
        assert i in IdsOf(mapIdxClause, ids[i].value);
      }
    }
  }

  lemma KeysAreSelectors(selectors: seq<Lit>, orgID2in: seq<Option<Lit>>, mapIdxClause: map<Lit, seq<nat>>, l: Lit)
    requires IdsOk(selectors, orgID2in, mapIdxClause)
    ensures l in mapIdxClause <==> l in selectors
  {
  }

  lemma IdsNone(selectors: seq<Lit>, orgID2in: seq<Option<Lit>>, mapIdxClause: map<Lit, seq<nat>>)
    requires IdsOk(selectors, orgID2in, mapIdxClause)
    ensures IdsOk(selectors, orgID2in + [None], mapIdxClause)
  {
    var ids := orgID2in + [None];
    forall q | q in mapIdxClause ensures AllSelectedBy(ids, mapIdxClause[q], q) {
      assert AllSelectedBy(orgID2in, mapIdxClause[q], q);
    }
    forall i: nat | i < |ids| && ids[i].Some? ensures ids[i].value in mapIdxClause && i in mapIdxClause[ids[i].value] {
      assert ids[i] == orgID2in[i];
    }
  }

  /** The variables of the stored problem are below `n`. */
  ghost predicate VarsBelow(theory: Theory, stored: map<nat, Clause>, softs: seq<Clause>, n: nat) {
    && (forall c, l :: c in theory && l in c ==> l.v < n)
    && (forall i :: 0 <= i < |softs| ==> forall l :: l in softs[i] ==> l.v < n)
    && (forall v :: v in stored ==> v < n)
  }

  lemma InRangeMore(theory: Theory, stored: map<nat, Clause>, softs: seq<Clause>, soft: Clause, n: nat)
    requires VarsBelow(theory, stored, softs, n) && forall l :: l in soft ==> l.v < n
    ensures VarsBelow(theory, stored, softs + [soft], n)
  {
  }

  lemma InRangeFresh(theory: Theory, stored: map<nat, Clause>, softs: seq<Clause>, d: Clause, v: nat)
    requires VarsBelow(theory, stored, softs, v) && forall l :: l in d ==> l.v <= v
    ensures VarsBelow(theory + {Lits(d)}, stored[v := d], softs, v + 1)
  {
  }

  lemma UnusedVar(theory: Theory, stored: map<nat, Clause>, selectors: seq<Lit>, softs: seq<Clause>, v: nat)
    requires VarsBelow(theory, stored, softs, v) && forall l :: l in selectors ==> l.v < v
    ensures Unused(theory, stored, selectors, softs, v)
  {
  }

  // ----- what the selector means in each case -----

  lemma UnitMeans(theory: Theory, stored: map<nat, Clause>, soft: Clause)
    requires |soft| == 1 && soft[0].v !in stored
    ensures SelectorMeans(theory, stored, soft, Some(soft[0]))
  {
    assert Lits(soft) == {soft[0]};
  }

  lemma SatisfiedMeans(theory: Theory, stored: map<nat, Clause>, soft: Clause)
    requires Entails(theory, Lits(soft))
    ensures SelectorMeans(theory, stored, soft, None)
  {
  }

  lemma FalseMeans(theory: Theory, stored: map<nat, Clause>, soft: Clause)
    requires |soft| > 0 && soft[0].v !in stored && forall l :: l in soft ==> Entails(theory, {l.Not()})
    ensures SelectorMeans(theory, stored, soft, Some(soft[0]))
  {
    assert soft[0] in soft;
    forall m: Assignment, l | SatAll(m, theory) && l in soft ensures !True(m, l) { assert Sat(m, {l.Not()}); }
  }

  lemma LeftMeans(theory: Theory, stored: map<nat, Clause>, soft: Clause, l: Lit)
    requires l in soft && l.v !in stored && forall q :: q in soft ==> q == l || Entails(theory, {q.Not()})
    ensures SelectorMeans(theory, stored, soft, Some(l))
  {
    forall m: Assignment, q | SatAll(m, theory) && q in soft && q != l ensures !True(m, q) { assert Sat(m, {q.Not()}); }
  }

  lemma TrueOrTautology(theory: Theory, c: set<Lit>, l: Lit)
    requires l in c && (Entails(theory, {l}) || l.Not() in c)
    ensures Entails(theory, c)
  {
    forall m: Assignment | SatAll(m, theory) ensures Sat(m, c) {
      if l.Not() in c { assert True(m, l) || True(m, l.Not()); } else { assert Sat(m, {l}); }
    }
  }
}
