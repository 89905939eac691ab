/** Attaching and removing clauses, and how decisions follow the assumptions. */
module Clauses {
  import opened Cnf
  import opened Trail
  import opened Watch
  import opened Database
  import opened Analysis

  /** All references in use are older than `next`. */
  ghost predicate RefsBelow(ca: map<CRef, Clause>, watches: Watches, next: CRef) {
    && (forall cr :: cr in ca ==> cr < next)
    && (forall p, i :: p in watches && 0 <= i < |watches[p]| ==> watches[p][i].cref < next)
  }

  function Attach(watches: Watches, cr: CRef, c: Clause): Watches
    requires |c| >= 2 && c[0].Not() in watches && c[1].Not() in watches
  {
    var w1 := watches[c[0].Not() := watches[c[0].Not()] + [Watcher(cr, c[1])]];
    w1[c[1].Not() := w1[c[1].Not()] + [Watcher(cr, c[0])]]
  }

  lemma {:induction false} CleanSame(ca: map<CRef, Clause>, ca': map<CRef, Clause>, ws: seq<Watcher>)
    requires forall i :: 0 <= i < |ws| ==> (ws[i].cref in ca <==> ws[i].cref in ca')
    ensures Clean(ca, ws) == Clean(ca', ws)
  {
    if ws != [] { CleanSame(ca, ca', ws[..|ws| - 1]); }
  }

  lemma CleanPush(ca: map<CRef, Clause>, ws: seq<Watcher>, w: Watcher)
    requires w.cref in ca
    ensures Clean(ca, ws + [w]) == Clean(ca, ws) + [w]
  {
    assert (ws + [w])[..|ws|] == ws;
  }

  lemma {:induction false} CleanFacts(ca: map<CRef, Clause>, ws: seq<Watcher>)
    ensures forall w :: w in Clean(ca, ws) <==> w in ws && w.cref in ca
  {
    if ws != [] {
      CleanFacts(ca, ws[..|ws| - 1]);
      assert ws == ws[..|ws| - 1] + [ws[|ws| - 1]];
    }
  }

  ghost predicate DistinctRefs(ws: seq<Watcher>) {
    forall i, j :: 0 <= i < j < |ws| ==> ws[i].cref != ws[j].cref
  }

  lemma {:induction false} CleanTwice(ca: map<CRef, Clause>, ca': map<CRef, Clause>, ws: seq<Watcher>)
    requires ca'.Keys <= ca.Keys && DistinctRefs(Clean(ca, ws))
    ensures DistinctRefs(Clean(ca', ws))
  {
    if ws != [] {
      var front, w := ws[..|ws| - 1], ws[|ws| - 1];
      var r := Clean(ca, front);
      assert DistinctRefs(r) by {
        forall i, j | 0 <= i < j < |r| ensures r[i].cref != r[j].cref {
          assert Clean(ca, ws)[i] == r[i] && Clean(ca, ws)[j] == r[j];
        }
      }
      CleanTwice(ca, ca', front);
      CleanFacts(ca, front);
      CleanFacts(ca', front);
      var r' := Clean(ca', front);
      if w.cref in ca' {
        forall i | 0 <= i < |r'| ensures r'[i].cref != w.cref {
          assert r'[i] in Clean(ca, front);
          var k :| 0 <= k < |r| && r[k] == r'[i];
          assert Clean(ca, ws)[k] == r[k] && Clean(ca, ws)[|r|] == w;
        }
      }
    }
  }

  lemma RemoveList(ca: map<CRef, Clause>, ca': map<CRef, Clause>, p: Lit, ws: seq<Watcher>)
    requires ListOk(ca, p, Clean(ca, ws)) && ca'.Keys <= ca.Keys && forall cr :: cr in ca' ==> ca'[cr] == ca[cr]
    ensures ListOk(ca', p, Clean(ca', ws))
  {
    var r, r' := Clean(ca, ws), Clean(ca', ws);
    CleanTwice(ca, ca', ws);
    CleanFacts(ca, ws);
    CleanFacts(ca', ws);
    forall i | 0 <= i < |r'| ensures WatcherOk(ca', p, r'[i]) {
      assert r'[i] in r;
      var k :| 0 <= k < |r| && r[k] == r'[i];
      assert WatcherOk(ca, p, r[k]);
    }
  }

  lemma StillWatched(ca: map<CRef, Clause>, ca': map<CRef, Clause>, ws: seq<Watcher>, d: CRef)
    requires Watched(Clean(ca, ws), d) && d in ca'
    ensures Watched(Clean(ca', ws), d)
  {
    var i :| 0 <= i < |Clean(ca, ws)| && Clean(ca, ws)[i].cref == d;
    CleanFacts(ca, ws);
    CleanFacts(ca', ws);
    assert Clean(ca, ws)[i] in Clean(ca', ws);
  }

  /** Removing a clause leaves stale watchers that the next cleaning deletes. */
  lemma RemoveLazy(ca: map<CRef, Clause>, watches: Watches, n: nat, cr: CRef)
    requires WatchesLazy(ca, watches, n)
    ensures WatchesLazy(ca - {cr}, watches, n)
  {
    hide ListOk, Watched, Clean;
    var ca' := ca - {cr};
    var W, W' := CleanAll(ca, watches), CleanAll(ca', watches);
    forall p | p in W' ensures ListOk(ca', p, W'[p]) {
      assert ListOk(ca, p, W[p]);
      RemoveList(ca, ca', p, watches[p]);
    }
    forall d, q | d in ca' && q in {ca'[d][0].Not(), ca'[d][1].Not()} ensures Watched(W'[q], d) {
      assert Watched(W[q], d);
      StillWatched(ca, ca', watches[q], d);
    }
  }

  lemma AttachClean(ca: map<CRef, Clause>, watches: Watches, cr: CRef, c: Clause, p: Lit)
    requires RefsBelow(ca, watches, cr) && p in watches
    requires |c| >= 2 && c[0].Not() in watches && c[1].Not() in watches && c[0].v != c[1].v
    ensures var ws, ws' := Clean(ca, watches[p]), Clean(ca[cr := c], Attach(watches, cr, c)[p]);
      && (p == c[0].Not() ==> ws' == ws + [Watcher(cr, c[1])])
      && (p == c[1].Not() ==> ws' == ws + [Watcher(cr, c[0])])
      && (p != c[0].Not() && p != c[1].Not() ==> ws' == ws)
  {
    var ca' := ca[cr := c];
    CleanSame(ca, ca', watches[p]);
    CleanPush(ca', watches[p], Watcher(cr, c[1]));
    CleanPush(ca', watches[p], Watcher(cr, c[0]));
  }

  lemma WatchedMore(ws: seq<Watcher>, w: Watcher, d: CRef)
    requires Watched(ws, d) || w.cref == d
    ensures Watched(ws + [w], d)
  {
    if Watched(ws, d) {
      var i :| 0 <= i < |ws| && ws[i].cref == d;
      assert (ws + [w])[i].cref == d;
    } else {
      assert (ws + [w])[|ws|].cref == d;
    }
  }

  lemma AttachRefs(ca: map<CRef, Clause>, watches: Watches, cr: CRef, c: Clause)
    requires RefsBelow(ca, watches, cr) && |c| >= 2 && c[0].Not() in watches && c[1].Not() in watches
    ensures RefsBelow(ca[cr := c], Attach(watches, cr, c), cr + 1) && Attach(watches, cr, c).Keys == watches.Keys
  {
    var watches': Watches := Attach(watches, cr, c);
    forall p: Lit, i: nat | p in watches' && i < |watches'[p]| ensures watches'[p][i].cref < cr + 1 {
      if i < |watches[p]| { assert watches[p][i].cref < cr; }
    }
  }

  lemma AttachWatched(ca: map<CRef, Clause>, watches: Watches, cr: CRef, c: Clause, q: Lit, d: CRef)
    requires RefsBelow(ca, watches, cr) && q in watches
    requires |c| >= 2 && c[0].Not() in watches && c[1].Not() in watches && c[0].v != c[1].v
    requires if d == cr then q == c[0].Not() || q == c[1].Not() else Watched(Clean(ca, watches[q]), d)
    ensures Watched(Clean(ca[cr := c], Attach(watches, cr, c)[q]), d)
  {
    hide RefsBelow, Watched, Clean, Attach;
    AttachClean(ca, watches, cr, c, q);
    var ws := Clean(ca, watches[q]);
    if q == c[0].Not() { WatchedMore(ws, Watcher(cr, c[1]), d); }
    if q == c[1].Not() { WatchedMore(ws, Watcher(cr, c[0]), d); }
  }

  lemma AttachListClean(ca: map<CRef, Clause>, watches: Watches, cr: CRef, c: Clause, p: Lit)
    requires RefsBelow(ca, watches, cr) && p in watches && ListOk(ca, p, Clean(ca, watches[p]))
    requires |c| >= 2 && c[0].Not() in watches && c[1].Not() in watches && c[0].v != c[1].v
    ensures ListOk(ca[cr := c], p, Clean(ca[cr := c], Attach(watches, cr, c)[p]))
  {
    AttachClean(ca, watches, cr, c, p);
    CrNotIn(ca, watches, cr);
    AttachList(ca, p, Clean(ca, watches[p]), cr, c);
  }

  lemma AttachAllWatched(ca: map<CRef, Clause>, watches: Watches, cr: CRef, c: Clause)
    requires AllWatched(ca, CleanAll(ca, watches)) && RefsBelow(ca, watches, cr)
    requires |c| >= 2 && c[0].Not() in watches && c[1].Not() in watches && c[0].v != c[1].v
    ensures AllWatched(ca[cr := c], CleanAll(ca[cr := c], Attach(watches, cr, c)))
  {
    hide Watched, Clean, RefsBelow, Attach;
    AttachRefs(ca, watches, cr, c);
    var ca': map<CRef, Clause> := ca[cr := c];
    var W := CleanAll(ca, watches);
    forall d, q | d in ca' && q in {ca'[d][0].Not(), ca'[d][1].Not()}
      ensures q in watches && Watched(Clean(ca', Attach(watches, cr, c)[q]), d)
    {
      assert d != cr ==> q in W && Watched(W[q], d);
      AttachWatched(ca, watches, cr, c, q, d);
    }
  }

  lemma AttachLists(ca: map<CRef, Clause>, watches: Watches, cr: CRef, c: Clause)
    requires ListsOk(ca, CleanAll(ca, watches)) && RefsBelow(ca, watches, cr)
    requires |c| >= 2 && c[0].Not() in watches && c[1].Not() in watches && c[0].v != c[1].v
    ensures ListsOk(ca[cr := c], CleanAll(ca[cr := c], Attach(watches, cr, c)))
  {
    hide ListOk, Clean, RefsBelow, Attach;
    AttachRefs(ca, watches, cr, c);
    var W := CleanAll(ca, watches);
    forall p | p in watches ensures ListOk(ca[cr := c], p, Clean(ca[cr := c], Attach(watches, cr, c)[p])) {
      assert ListOk(ca, p, W[p]);
      AttachListClean(ca, watches, cr, c, p);
    }
  }

  lemma AttachLazy(ca: map<CRef, Clause>, watches: Watches, n: nat, cr: CRef, c: Clause)
    requires WatchesLazy(ca, watches, n) && RefsBelow(ca, watches, cr)
    requires |c| >= 2 && c[0].v < n && c[1].v < n && c[0].v != c[1].v
    ensures c[0].Not() in watches && c[1].Not() in watches
    ensures WatchesLazy(ca[cr := c], Attach(watches, cr, c), n)
  {
    hide ListsOk, AllWatched, RefsBelow, Clean;
    var W := CleanAll(ca, watches);
    assert c[0].Not() in W && c[1].Not() in W;
    AttachRefs(ca, watches, cr, c);
    AttachLists(ca, watches, cr, c);
    AttachAllWatched(ca, watches, cr, c);
  }

  lemma CrNotIn(ca: map<CRef, Clause>, watches: Watches, cr: CRef)
    requires RefsBelow(ca, watches, cr)
    ensures cr !in ca
  {
  }

  lemma AttachList(ca: map<CRef, Clause>, p: Lit, ws: seq<Watcher>, cr: CRef, c: Clause)
    requires ListOk(ca, p, ws) && cr !in ca && |c| >= 2
    ensures ListOk(ca[cr := c], p, ws)
    ensures forall b :: b in c && (p == c[0].Not() || p == c[1].Not()) ==> ListOk(ca[cr := c], p, ws + [Watcher(cr, b)])
  {
    forall i | 0 <= i < |ws| ensures WatcherOk(ca[cr := c], p, ws[i]) && ws[i].cref != cr {
      assert WatcherOk(ca, p, ws[i]);
    }
  }

  lemma LazyRefs(ca: map<CRef, Clause>, watches: Watches, n: nat, next: CRef)
    requires WatchesOk(ca, watches, n) && forall cr :: cr in ca ==> cr < next
    ensures RefsBelow(ca, watches, next)
  {
    forall p, i | p in watches && 0 <= i < |watches[p]| ensures watches[p][i].cref < next {
      WatcherFacts(ca, watches, n, p, i);
    }
  }

  // ----- the learnt clause after backtracking -----

  lemma LearntAfterCancel(theory: Theory, t: State, c: Clause, bt: nat)
    requires Wf(t) && Learnt(theory, t, c, bt)
    ensures var t' := CancelTo(t, bt);
      && c[0].v < |t'.assigns| && t'.assigns[c[0].v] == LUndef
      && (forall i :: 1 <= i < |c| ==> IsFalse(t', c[i]) && 0 < t'.vardata[c[i].v].level <= bt)
      && (|c| > 1 ==> t'.vardata[c[1].v].level == bt)
  {
    CancelKeeps(t, bt, c[0]);
    CancelKeeps(t, bt, c[0].Not());
    forall i | 1 <= i < |c| ensures IsFalse(CancelTo(t, bt), c[i]) {
      CancelKeeps(t, bt, c[i]);
    }
  }

  /** Storing a clause whose first literal is enqueued right away at the level of its second. */
  lemma LearntPropagated(ca: map<CRef, Clause>, t: State, cr: CRef, c: Clause)
    requires Wf(t) && PropagatedTo(ca, t, |t.trail|) && |c| >= 2 && cr !in ca
    requires c[0].v < |t.assigns| && t.assigns[c[0].v] == LUndef
    requires IsFalse(t, c[1]) && t.vardata[c[1].v].level == |t.lim| && c[0].v != c[1].v
    ensures PropagatedTo(ca[cr := c], Enq(t, c[0], Some(cr)), |t.trail|)
  {
    var t' := Enq(t, c[0], Some(cr));
    EnqPropagated(ca, t, c[0], Some(cr), |t.trail|, c[0], []);
    NoExemption(ca, t', |t.trail|, c[0]);
    assert IsTrue(t', c[0]) && t'.vardata[c[0].v].level <= t'.vardata[c[1].v].level;
    assert SatisfiedBy(t', c, t'.vardata[c[1].v].level);
  }

  lemma MoreClausesReasons(ca: map<CRef, Clause>, t: State, cr: CRef, c: Clause)
    requires ReasonsOk(ca, t) && cr !in ca
    ensures ReasonsOk(ca[cr := c], t)
  {
    var ca' := ca[cr := c];
    forall i | 0 <= i < |t.trail| ensures ReasonOk(ca', t, i) { assert ReasonOk(ca, t, i); }
  }

  /** A clause that implies no trail literal can go. */
  lemma RemoveReasons(ca: map<CRef, Clause>, t: State, cr: CRef)
    requires ReasonsOk(ca, t) && cr in ca && |ca[cr]| > 0
    requires !(IsTrue(t, ca[cr][0]) && t.vardata[ca[cr][0].v].reason == Some(cr))
    ensures ReasonsOk(ca - {cr}, t)
  {
    var ca' := ca - {cr};
    forall i | 0 <= i < |t.trail| ensures ReasonOk(ca', t, i) { assert ReasonOk(ca, t, i) && IsTrue(t, t.trail[i]); }
  }

  /** Forgetting the reason of a level-0 literal. */
  lemma DropReason(ca: map<CRef, Clause>, t: State, v: nat)
    requires ReasonsOk(ca, t) && v < |t.vardata| && t.vardata[v].level == 0
    ensures ReasonsOk(ca, t.(vardata := t.vardata[v := VarData(None, 0)]))
  {
    var t' := t.(vardata := t.vardata[v := VarData(None, 0)]);
    forall i | 0 <= i < |t.trail|
      ensures IsTrue(t', t'.trail[i]) && t'.pos[t'.trail[i].v] == i && LevelFits(t', i, t'.vardata[t'.trail[i].v].level)
    {
      assert IsTrue(t, t.trail[i]) && LevelFits(t, i, t.vardata[t.trail[i].v].level);
    }
    assert Wf(t');
    forall i | 0 <= i < |t.trail| ensures ReasonOk(ca, t', i) {
      assert ReasonOk(ca, t, i);
      var d := t.vardata[t.trail[i].v];
      if t.trail[i].v != v && d.reason.Some? {
        var c := ca[d.reason.value];
        forall k | 1 <= k < |c| ensures IsFalse(t', c[k]) && t'.pos[c[k].v] < i { assert IsFalse(t, c[k]); }
      }
    }
  }

  lemma DropReasonRest(theory: Theory, ca: map<CRef, Clause>, clauses: seq<CRef>, t: State, v: nat, q: nat)
    requires Wf(t) && v < |t.vardata| && t.vardata[v].level == 0
    requires Sound(theory, ca, t) && Covered(theory, ca, clauses, t) && PropagatedTo(ca, t, q)
    ensures var t' := t.(vardata := t.vardata[v := VarData(None, 0)]);
      Sound(theory, ca, t') && Covered(theory, ca, clauses, t') && PropagatedTo(ca, t', q)
  {
    var t' := t.(vardata := t.vardata[v := VarData(None, 0)]);
    assert forall l :: TopTrue(t', l) <==> TopTrue(t, l);
    CoveredGrows(theory, ca, ca, clauses, clauses, t, t');
    forall cr, w | cr in ca && |ca[cr]| >= 2 && w in {ca[cr][0], ca[cr][1]} ensures WatchFine(t', ca[cr], w, q) {
      assert WatchFine(t, ca[cr], w, q);
      if IsFalse(t, w) && t.floor <= t.pos[w.v] < q {
        var k :| 0 <= k < |ca[cr]| && IsTrue(t, ca[cr][k]) && t.vardata[ca[cr][k].v].level <= t.vardata[w.v].level;
        assert IsTrue(t', ca[cr][k]) && t'.vardata[ca[cr][k].v].level <= t'.vardata[w.v].level;
      }
    }
  }

  // ----- decisions follow the assumptions -----

  /** The assumption of each open level is true by that level, and decisions on assumption levels
      are the assumptions. */
  ghost predicate Follows(t: State, a: seq<Lit>) {
    DecisionsFirst(t) && LevelsTrue(t, a) && DecisionsAssumed(t, a)
  }

  ghost predicate LevelsTrue(t: State, a: seq<Lit>) {
    && |t.assigns| <= |t.vardata|
    && forall k :: 0 <= k < |t.lim| && k < |a| ==> IsTrue(t, a[k]) && t.vardata[a[k].v].level <= k + 1
  }

  ghost predicate DecisionsAssumed(t: State, a: seq<Lit>) {
    forall i :: 0 <= i < |t.trail| && t.trail[i].v < |t.vardata| ==>
      var d := t.vardata[t.trail[i].v];
      d.reason.None? && 0 < d.level <= |a| ==> t.trail[i] == a[d.level - 1]
  }

  lemma FollowsDecisions(t: State, a: seq<Lit>)
    requires Follows(t, a)
    ensures DecisionsFirst(t)
  {
  }

  lemma EnqFollows(t: State, a: seq<Lit>, l: Lit, from: Option<CRef>)
    requires Wf(t) && Follows(t, a) && l.v < |t.assigns| && t.assigns[l.v] == LUndef
    requires from.None? && |t.lim| > 0 ==> t.lim[|t.lim| - 1] == |t.trail| && (|t.lim| > |a| || l == a[|t.lim| - 1])
    ensures Follows(Enq(t, l, from), a)
  {
    EnqDecisions(t, l, from);
    var t' := Enq(t, l, from);
    hide DecisionsFirst;
    forall i | 0 <= i < |t.trail| ensures t'.vardata[t.trail[i].v] == t.vardata[t.trail[i].v] {
      assert IsTrue(t, t.trail[i]);
    }
  }

  lemma ExtendsFollows(t: State, t': State, a: seq<Lit>)
    requires Wf(t) && Wf(t') && Extends(t, t') && Follows(t, a)
    ensures Follows(t', a)
  {
    forall i | 0 <= i < |t.trail| ensures t'.vardata[t.trail[i].v] == t.vardata[t.trail[i].v] && t'.trail[i] == t.trail[i] {
      assert IsTrue(t, t.trail[i]);
    }
  }

  lemma CancelFollows(t: State, a: seq<Lit>, level: nat)
    requires Wf(t) && Follows(t, a) && level < |t.lim|
    ensures Follows(CancelTo(t, level), a)
  {
    hide Wf, CancelTo;
    CancelDecisions(t, a, level);
    CancelLevels(t, a, level);
  }

  lemma CancelDecisions(t: State, a: seq<Lit>, level: nat)
    requires Wf(t) && DecisionsFirst(t) && DecisionsAssumed(t, a) && level < |t.lim|
    ensures DecisionsFirst(CancelTo(t, level)) && DecisionsAssumed(CancelTo(t, level), a)
  {
    var t' := CancelTo(t, level);
    forall i | 0 <= i < |t'.trail| ensures t'.trail[i] == t.trail[i] && t.vardata[t.trail[i].v].level <= level {
      assert LevelFits(t, i, t.vardata[t.trail[i].v].level);
    }
  }

  lemma CancelLevels(t: State, a: seq<Lit>, level: nat)
    requires Wf(t) && LevelsTrue(t, a) && level < |t.lim|
    ensures LevelsTrue(CancelTo(t, level), a)
  {
    var t' := CancelTo(t, level);
    forall k | 0 <= k < |t'.lim| && k < |a| ensures IsTrue(t', a[k]) && t'.vardata[a[k].v].level <= k + 1 {
      assert IsTrue(t, a[k]);
      CancelKeeps(t, level, a[k]);
    }
  }

  lemma NewLevelFollows(t: State, a: seq<Lit>)
    requires Wf(t) && Follows(t, a)
    requires |t.lim| < |a| ==> IsTrue(t, a[|t.lim|])
    ensures Follows(NewLevel(t), a)
  {
    if |t.lim| < |a| { LevelBound(t, a[|t.lim|]); }
  }

  lemma SamePrefixFollows(t: State, a: seq<Lit>, b: seq<Lit>)
    requires Wf(t) && Follows(t, a) && |t.lim| <= |a| && |t.lim| <= |b| && a[..|t.lim|] == b[..|t.lim|]
    ensures Follows(t, b)
  {
    forall k | 0 <= k < |t.lim| ensures a[k] == b[k] { assert a[..|t.lim|][k] == b[..|t.lim|][k]; }
    forall i | 0 <= i < |t.trail| ensures t.vardata[t.trail[i].v].level <= |t.lim| {
      assert LevelFits(t, i, t.vardata[t.trail[i].v].level);
    }
  }

  /** While only assumption levels are open, every trail literal holds in all models of the
      theory and the assumptions. */
  lemma {:induction false} TrailForced(theory: Theory, ca: map<CRef, Clause>, t: State, a: seq<Lit>, m: Assignment, i: nat)
    requires ReasonsOk(ca, t) && Sound(theory, ca, t) && Follows(t, a) && |t.lim| <= |a|
    requires IsModel(m, theory, a) && i < |t.trail|
    ensures True(m, t.trail[i])
    decreases i
  {
    var l := t.trail[i];
    var d := t.vardata[l.v];
    assert ReasonOk(ca, t, i) && LevelFits(t, i, d.level);
    if d.level == 0 {
      assert TopTrue(t, l);
      assert Sat(m, {l});
    } else if d.reason.None? {
      assert a[d.level - 1] in a;
    } else {
      var c := ca[d.reason.value];
      forall k | 1 <= k < |c| ensures !True(m, c[k]) {
        TrueFacts(t, c[k]);
        TrailForced(theory, ca, t, a, m, t.pos[c[k].v]);
      }
      assert Sat(m, Lits(c));
    }
  }

  lemma FalseAssumption(theory: Theory, ca: map<CRef, Clause>, t: State, a: seq<Lit>, p: Lit)
    requires ReasonsOk(ca, t) && Sound(theory, ca, t) && Follows(t, a) && |t.lim| <= |a| && p in a && IsFalse(t, p)
    ensures !Satisfiable(theory, a)
  {
    forall m: Assignment | IsModel(m, theory, a) ensures false {
      TrueFacts(t, p);
      TrailForced(theory, ca, t, a, m, t.pos[p.v]);
    }
  }

  lemma RefsFacts(ca: map<CRef, Clause>, watches: Watches, next: CRef)
    requires RefsBelow(ca, watches, next)
    ensures forall cr :: cr in ca ==> cr < next
  {
  }

  lemma SameKeys(ca: map<CRef, Clause>, ca': map<CRef, Clause>)
    requires SameClauses(ca, ca')
    ensures forall cr :: cr in ca <==> cr in ca'
  {
    assert forall cr :: cr in ca <==> cr in ca.Keys;
  }

  lemma LearntFacts(theory: Theory, t: State, c: Clause, bt: nat)
    requires Learnt(theory, t, c, bt)
    ensures |c| >= 1 && DistinctVars(c) && Entails(theory, Lits(c)) && bt < |t.lim| && (|c| == 1 ==> bt == 0)
  {
  }

  lemma LimFacts(t: State, k: nat)
    requires Wf(t) && k < |t.lim|
    ensures t.lim[k] <= t.lim[|t.lim| - 1] <= |t.trail|
    ensures k > 0 ==> t.lim[k - 1] <= t.lim[k]
  {
  }

  lemma ReasonsWf(ca: map<CRef, Clause>, t: State)
    requires ReasonsOk(ca, t)
    ensures Wf(t)
  {
  }

  lemma DropReasonFollows(t: State, a: seq<Lit>, v: nat)
    requires Follows(t, a) && v < |t.vardata| && t.vardata[v].level == 0
    ensures Follows(t.(vardata := t.vardata[v := VarData(None, 0)]), a)
  {
  }

  lemma RemoveRest(theory: Theory, ca: map<CRef, Clause>, clauses: seq<CRef>, t: State, cr: CRef, q: nat)
    requires Sound(theory, ca, t) && Covered(theory, ca, clauses, t) && PropagatedTo(ca, t, q) && cr !in clauses
    ensures Sound(theory, ca - {cr}, t) && Covered(theory, ca - {cr}, clauses, t) && PropagatedTo(ca - {cr}, t, q)
  {
    CoveredGrows(theory, ca, ca - {cr}, clauses, clauses, t, t);
  }

  lemma RemoveRefs(ca: map<CRef, Clause>, watches: Watches, next: CRef, cr: CRef)
    requires RefsBelow(ca, watches, next)
    ensures RefsBelow(ca - {cr}, watches, next)
  {
  }

  /** Deciding the next assumption, or freely once all assumptions have a level. */
  lemma DecideFollows(t: State, a: seq<Lit>, l: Lit)
    requires Wf(t) && Wf(NewLevel(t)) && Follows(t, a) && l.v < |t.assigns| && t.assigns[l.v] == LUndef
    requires |t.lim| < |a| ==> l == a[|t.lim|]
    ensures Follows(Enq(NewLevel(t), l, None), a)
  {
    hide DecisionsFirst, LevelsTrue, DecisionsAssumed;
    NewLevelDecisions(t);
    EnqDecisions(NewLevel(t), l, None);
    DecideLevels(t, a, l);
    DecideAssumed(t, a, l);
  }

  lemma DecideLevels(t: State, a: seq<Lit>, l: Lit)
    requires Wf(t) && LevelsTrue(t, a) && l.v < |t.assigns| && t.assigns[l.v] == LUndef
    requires |t.lim| < |a| ==> l == a[|t.lim|]
    ensures LevelsTrue(Enq(NewLevel(t), l, None), a)
  {
    assert IsTrue(Enq(NewLevel(t), l, None), l);
  }

  lemma DecideAssumed(t: State, a: seq<Lit>, l: Lit)
    requires Wf(t) && DecisionsAssumed(t, a) && l.v < |t.assigns| && t.assigns[l.v] == LUndef
    requires |t.lim| < |a| ==> l == a[|t.lim|]
    ensures DecisionsAssumed(Enq(NewLevel(t), l, None), a)
  {
    var t' := Enq(NewLevel(t), l, None);
    forall i | 0 <= i < |t.trail| ensures t'.vardata[t.trail[i].v] == t.vardata[t.trail[i].v] {
      assert IsTrue(t, t.trail[i]);
    }
  }

  lemma FullTrailModels(theory: Theory, ca: map<CRef, Clause>, clauses: seq<CRef>, t: State, a: seq<Lit>, model: seq<bool>)
    requires Wf(t) && ClausesOk(ca, |t.assigns|) && PropagatedTo(ca, t, |t.trail|) && t.floor == 0
    requires Covered(theory, ca, clauses, t) && AgreesWith(model, t)
    requires forall v :: 0 <= v < |t.assigns| ==> t.assigns[v] != LUndef
    requires Follows(t, a) && |t.lim| >= |a|
    ensures Models(model, theory, a)
  {
    FullTrailIsModel(theory, ca, clauses, t, model);
    var m := AsAssignment(model);
    forall l | l in a ensures True(m, l) {
      var k :| 0 <= k < |a| && a[k] == l;
      assert IsTrue(t, a[k]);
    }
  }

  // ----- a new variable -----

  lemma GrowState(theory: Theory, ca: map<CRef, Clause>, clauses: seq<CRef>, t: State, q: nat, covered: bool)
    requires ReasonsOk(ca, t) && ClausesOk(ca, |t.assigns|) && Sound(theory, ca, t)
    ensures var t' := State(t.assigns + [LUndef], t.vardata + [VarData(None, 0)], t.trail, t.lim, t.pos + [0], t.floor);
      && Wf(t') && ReasonsOk(ca, t') && ClausesOk(ca, |t'.assigns|) && Sound(theory, ca, t')
      && (covered && Covered(theory, ca, clauses, t) ==> Covered(theory, ca, clauses, t'))
      && (PropagatedTo(ca, t, q) ==> PropagatedTo(ca, t', q))
  {
    var t' := State(t.assigns + [LUndef], t.vardata + [VarData(None, 0)], t.trail, t.lim, t.pos + [0], t.floor);
    GrowWf(t);
    forall i | 0 <= i < |t.trail| ensures ReasonOk(ca, t', i) {
      assert ReasonOk(ca, t, i) && IsTrue(t, t.trail[i]);
      var d := t.vardata[t.trail[i].v];
      if d.reason.Some? {
        forall k | 1 <= k < |ca[d.reason.value]| ensures IsFalse(t', ca[d.reason.value][k]) && t'.pos[ca[d.reason.value][k].v] < i {
          assert IsFalse(t, ca[d.reason.value][k]);
        }
      }
    }
    forall l ensures TopTrue(t', l) <==> TopTrue(t, l) { }
    if Covered(theory, ca, clauses, t) { CoveredGrows(theory, ca, ca, clauses, clauses, t, t'); }
    if PropagatedTo(ca, t, q) {
      forall cr, w | cr in ca && |ca[cr]| >= 2 && w in {ca[cr][0], ca[cr][1]} ensures WatchFine(t', ca[cr], w, q) {
        assert WatchFine(t, ca[cr], w, q);
        if IsFalse(t', w) && t.floor <= t'.pos[w.v] < q {
          assert IsFalse(t, w);
          var k :| 0 <= k < |ca[cr]| && IsTrue(t, ca[cr][k]) && t.vardata[ca[cr][k].v].level <= t.vardata[w.v].level;
          assert IsTrue(t', ca[cr][k]) && t'.vardata[ca[cr][k].v].level <= t'.vardata[w.v].level;
        }
      }
    }
  }

  lemma GrowWf(t: State)
    requires Wf(t)
    ensures Wf(State(t.assigns + [LUndef], t.vardata + [VarData(None, 0)], t.trail, t.lim, t.pos + [0], t.floor))
  {
    var t' := State(t.assigns + [LUndef], t.vardata + [VarData(None, 0)], t.trail, t.lim, t.pos + [0], t.floor);
    forall i | 0 <= i < |t'.trail|
      ensures IsTrue(t', t'.trail[i]) && t'.pos[t'.trail[i].v] == i && LevelFits(t', i, t'.vardata[t'.trail[i].v].level)
    {
      assert IsTrue(t, t.trail[i]) && LevelFits(t, i, t.vardata[t.trail[i].v].level);
    }
  }

  lemma GrowWatches(ca: map<CRef, Clause>, watches: Watches, v: nat, next: CRef)
    requires WatchesLazy(ca, watches, v) && RefsBelow(ca, watches, next)
    ensures var watches' := watches[Lit(v, false) := []][Lit(v, true) := []];
      WatchesLazy(ca, watches', v + 1) && RefsBelow(ca, watches', next)
  {
    hide WatchesLazy, RefsBelow;
    GrowLists(ca, watches, v);
    GrowRefs(ca, watches, v, next);
  }

  lemma GrowRefs(ca: map<CRef, Clause>, watches: Watches, v: nat, next: CRef)
    requires RefsBelow(ca, watches, next)
    ensures RefsBelow(ca, watches[Lit(v, false) := []][Lit(v, true) := []], next)
  {
  }

  lemma GrowLists(ca: map<CRef, Clause>, watches: Watches, v: nat)
    requires WatchesLazy(ca, watches, v)
    ensures WatchesLazy(ca, watches[Lit(v, false) := []][Lit(v, true) := []], v + 1)
  {
    hide ListOk, AllWatched;
    var watches' := watches[Lit(v, false) := []][Lit(v, true) := []];
    var W, W' := CleanAll(ca, watches), CleanAll(ca, watches');
    assert forall p :: p in W ==> p in W' && W'[p] == W[p] && p.v < v;
    forall p | p in W' ensures ListOk(ca, p, W'[p]) {
      if p in W {
        assert ListOk(ca, p, W[p]);
      } else {
        EmptyList(ca, p);
      }
    }
    AllWatchedMore(ca, W, W');
  }

  lemma EmptyList(ca: map<CRef, Clause>, p: Lit)
    ensures ListOk(ca, p, [])
  {
  }

  lemma AllWatchedMore(ca: map<CRef, Clause>, watches: Watches, watches': Watches)
    requires AllWatched(ca, watches) && forall p :: p in watches ==> p in watches' && watches'[p] == watches[p]
    ensures AllWatched(ca, watches')
  {
  }

  // ----- sorting the literals of a clause -----

  predicate Before(a: Lit, b: Lit) {
    a.v < b.v || (a.v == b.v && (!a.neg || b.neg))
  }

  predicate LitsSorted(c: Clause) {
    forall i, j :: 0 <= i < j < |c| ==> Before(c[i], c[j])
  }

  function InsertLit(l: Lit, c: Clause): (r: Clause)
    ensures multiset(r) == multiset(c) + multiset{l}
  {
    if c == [] then [l]
    else if Before(l, c[0]) then [l] + c
    else
      assert c == [c[0]] + c[1..];
      [c[0]] + InsertLit(l, c[1..])
  }

  function SortLits(c: Clause): (r: Clause)
    ensures multiset(r) == multiset(c)
  {
    if c == [] then [] else
    assert c == [c[0]] + c[1..];
    InsertLit(c[0], SortLits(c[1..]))
  }

  lemma {:induction false} InsertSorted(l: Lit, c: Clause)
    requires LitsSorted(c)
    ensures LitsSorted(InsertLit(l, c))
  {
    if c != [] && !Before(l, c[0]) {
      InsertSorted(l, c[1..]);
      var rest := InsertLit(l, c[1..]);
      forall j | 0 <= j < |rest| ensures Before(c[0], rest[j]) {
        assert rest[j] in multiset(rest);
        assert rest[j] in multiset(c[1..]) || rest[j] == l;
        if rest[j] in c[1..] { var k :| 0 <= k < |c[1..]| && c[1..][k] == rest[j]; }
      }
    }
  }

  lemma {:induction false} SortSorted(c: Clause)
    ensures LitsSorted(SortLits(c))
  {
    if c != [] {
      SortSorted(c[1..]);
      InsertSorted(c[0], SortLits(c[1..]));
    }
  }

  lemma SortedSame(c: Clause)
    ensures Lits(SortLits(c)) == Lits(c) && LitsSorted(SortLits(c))
  {
    SortSorted(c);
    forall l ensures l in c <==> l in SortLits(c) {
      assert l in c <==> l in multiset(c);
      assert l in SortLits(c) <==> l in multiset(SortLits(c));
    }
  }

  // ----- removing false and repeated literals of a sorted clause -----

  /** `out` is what is left of `ps[..i]`, in strictly increasing variable order. */
  ghost predicate NormalisedTo(t: State, ps: Clause, i: nat, out: Clause) {
    && i <= |ps| && LitsSorted(ps)
    && (forall k :: 0 <= k < |out| ==> out[k] in ps[..i] && out[k].v < |t.assigns| && t.assigns[out[k].v] == LUndef)
    && (forall j, k :: 0 <= j < k < |out| ==> out[j].v < out[k].v)
    && (forall k :: 0 <= k < i ==> ps[k] in out || IsFalse(t, ps[k]))
  }

  lemma StartNormalise(t: State, ps: Clause)
    requires LitsSorted(ps)
    ensures NormalisedTo(t, ps, 0, [])
  {
  }

  lemma NormaliseLast(t: State, ps: Clause, i: nat, out: Clause)
    requires NormalisedTo(t, ps, i, out) && |out| > 0 && i < |ps|
    ensures out[|out| - 1] in ps && Before(out[|out| - 1], ps[i])
  {
    assert out[|out| - 1] in ps[..i];
    var k :| 0 <= k < i && ps[k] == out[|out| - 1];
  }

  lemma NormalisePush(t: State, ps: Clause, i: nat, out: Clause)
    requires NormalisedTo(t, ps, i, out) && i < |ps| && ps[i].v < |t.assigns| && t.assigns[ps[i].v] == LUndef
    requires |out| > 0 ==> ps[i] != out[|out| - 1] && ps[i] != out[|out| - 1].Not()
    ensures NormalisedTo(t, ps, i + 1, out + [ps[i]])
  {
    hide LitsSorted;
    var out' := out + [ps[i]];
    if |out| > 0 { NormaliseLast(t, ps, i, out); }
    forall k | 0 <= k < |out'| ensures out'[k] in ps[..i + 1] {
      if k < |out| {
        assert out[k] in ps[..i];
        var j :| 0 <= j < i && ps[j] == out[k];
        assert ps[..i + 1][j] == out'[k];
      } else {
        assert ps[..i + 1][i] == out'[k];
      }
    }
    forall k | 0 <= k < i + 1 ensures ps[k] in out' || IsFalse(t, ps[k]) {
      assert out'[|out|] == ps[i];
    }
  }

  lemma NormaliseSkip(t: State, ps: Clause, i: nat, out: Clause)
    requires NormalisedTo(t, ps, i, out) && i < |ps|
    requires IsFalse(t, ps[i]) || (|out| > 0 && ps[i] == out[|out| - 1])
    ensures NormalisedTo(t, ps, i + 1, out)
  {
    forall k | 0 <= k < |out| ensures out[k] in ps[..i + 1] {
      assert out[k] in ps[..i];
      var j :| 0 <= j < i && ps[j] == out[k];
      assert ps[..i + 1][j] == out[k];
    }
  }

  lemma Normalised(t: State, ps: Clause, out: Clause)
    requires NormalisedTo(t, ps, |ps|, out)
    ensures DistinctVars(out) && Lits(out) <= Lits(ps)
    ensures forall l :: l in ps ==> l in out || IsFalse(t, l)
    ensures forall l :: l in out ==> l.v < |t.assigns| && t.assigns[l.v] == LUndef
  {
    forall l | l in out ensures l in ps && l.v < |t.assigns| && t.assigns[l.v] == LUndef {
      var k :| 0 <= k < |out| && out[k] == l;
      assert l in ps[..|ps|];
    }
    forall l | l in ps ensures l in out || IsFalse(t, l) {
      var k :| 0 <= k < |ps| && ps[k] == l;
    }
  }

  // ----- unit propagation under assumptions sharing one level -----

  /** Literals above level 0 without a reason are among `a`. */
  ghost predicate OnlyAssumed(t: State, a: seq<Lit>) {
    |t.assigns| == |t.vardata| && forall i :: 0 <= i < |t.trail| && t.trail[i].v < |t.vardata| ==>
      var d := t.vardata[t.trail[i].v];
      d.reason.None? && d.level > 0 ==> t.trail[i] in a
  }

  lemma EnqAssumed(t: State, a: seq<Lit>, l: Lit)
    requires Wf(t) && OnlyAssumed(t, a) && l.v < |t.assigns| && t.assigns[l.v] == LUndef && l in a
    ensures OnlyAssumed(Enq(t, l, None), a)
  {
    var t' := Enq(t, l, None);
    forall i | 0 <= i < |t.trail| ensures t'.vardata[t.trail[i].v] == t.vardata[t.trail[i].v] {
      assert IsTrue(t, t.trail[i]);
    }
  }

  lemma ExtendsAssumed(t: State, t': State, a: seq<Lit>)
    requires Wf(t) && Wf(t') && Extends(t, t') && OnlyAssumed(t, a)
    ensures OnlyAssumed(t', a)
  {
    forall i | 0 <= i < |t.trail| ensures t'.vardata[t.trail[i].v] == t.vardata[t.trail[i].v] && t'.trail[i] == t.trail[i] {
      assert IsTrue(t, t.trail[i]);
    }
  }

  lemma TopAssumed(t: State, a: seq<Lit>)
    requires Wf(t) && |t.lim| == 0
    ensures OnlyAssumed(NewLevel(t), a)
  {
    forall i | 0 <= i < |t.trail| ensures t.vardata[t.trail[i].v].level == 0 {
      assert LevelFits(t, i, t.vardata[t.trail[i].v].level);
    }
  }

  lemma {:induction false} AssumedForced(theory: Theory, ca: map<CRef, Clause>, t: State, a: seq<Lit>, m: Assignment, i: nat)
    requires ReasonsOk(ca, t) && Sound(theory, ca, t) && OnlyAssumed(t, a)
    requires IsModel(m, theory, a) && i < |t.trail|
    ensures True(m, t.trail[i])
    decreases i
  {
    var l := t.trail[i];
    var d := t.vardata[l.v];
    assert ReasonOk(ca, t, i) && IsTrue(t, l);
    if d.level == 0 {
      assert TopTrue(t, l);
      assert Sat(m, {l});
    } else if d.reason.Some? {
      var c := ca[d.reason.value];
      forall k | 1 <= k < |c| ensures !True(m, c[k]) {
        TrueFacts(t, c[k]);
        AssumedForced(theory, ca, t, a, m, t.pos[c[k].v]);
      }
      assert Sat(m, Lits(c));
    }
  }

  lemma TrailAssumed(theory: Theory, ca: map<CRef, Clause>, t: State, a: seq<Lit>)
    requires ReasonsOk(ca, t) && Sound(theory, ca, t) && OnlyAssumed(t, a)
    ensures Forced(theory, a, Lits(t.trail))
  {
    forall m: Assignment, l | IsModel(m, theory, a) && l in Lits(t.trail) ensures True(m, l) {
      var i :| 0 <= i < |t.trail| && t.trail[i] == l;
      AssumedForced(theory, ca, t, a, m, i);
    }
  }

  lemma ConflictRefutes(theory: Theory, ca: map<CRef, Clause>, t: State, a: seq<Lit>, cr: CRef)
    requires Wf(t) && Sound(theory, ca, t) && Forced(theory, a, Lits(t.trail)) && cr in ca
    requires forall k :: 0 <= k < |ca[cr]| ==> IsFalse(t, ca[cr][k])
    ensures !Satisfiable(theory, a)
  {
    forall l | l in Lits(ca[cr]) ensures l.Not() in Lits(t.trail) {
      TrueFacts(t, l);
    }
    forall m: Assignment | IsModel(m, theory, a) ensures false {
    }
  }

  /** After propagation the trail is closed under unit resolution with the theory's own clauses. */
  lemma TrailClosed(theory: Theory, ca: map<CRef, Clause>, clauses: seq<CRef>, t: State)
    requires Wf(t) && ClausesOk(ca, |t.assigns|) && PropagatedTo(ca, t, |t.trail|) && t.floor == 0 && Covered(theory, ca, clauses, t)
    ensures UnitClosed(theory, Lits(t.trail))
  {
    PropagatedIsQuiet(ca, t);
    forall c | c in theory
      ensures (exists l :: l in c && (l in Lits(t.trail) || l.Not() in c))
        || (exists a, b :: a in c && b in c && a != b && a.Not() !in Lits(t.trail) && b.Not() !in Lits(t.trail))
    {
      if l :| l in c && TopTrue(t, l) {
        TrueFacts(t, l);
      } else if l :| l in c && l.Not() in c {
      } else {
        var cr :| cr in clauses && cr in ca && Lits(ca[cr]) <= c && forall l :: l in c && l !in Lits(ca[cr]) ==> TopFalse(t, l);
        QuietClause(ca, t, cr, c);
      }
    }
  }

  lemma QuietClause(ca: map<CRef, Clause>, t: State, cr: CRef, c: set<Lit>)
    requires Wf(t) && Quiet(ca, t) && cr in ca && Lits(ca[cr]) <= c && DistinctVars(ca[cr])
    ensures (exists l :: l in c && l in Lits(t.trail))
      || (exists a, b :: a in c && b in c && a != b && a.Not() !in Lits(t.trail) && b.Not() !in Lits(t.trail))
  {
    var d := ca[cr];
    if k :| 0 <= k < |d| && IsTrue(t, d[k]) {
      TrueFacts(t, d[k]);
      assert d[k] in Lits(d) && d[k] in Lits(t.trail);
    } else {
      var i, j :| 0 <= i < j < |d| && !IsFalse(t, d[i]) && !IsFalse(t, d[j]);
      hide Quiet;
      assert d[i] in Lits(d) && d[j] in Lits(d) && d[i].v != d[j].v;
      NotOnTrail(t, d[i]);
      NotOnTrail(t, d[j]);
    }
  }

  lemma NotOnTrail(t: State, l: Lit)
    requires Wf(t) && !IsFalse(t, l)
    ensures l.Not() !in Lits(t.trail)
  {
    forall k | 0 <= k < |t.trail| ensures t.trail[k] != l.Not() {
      assert IsTrue(t, t.trail[k]);
    }
  }

  lemma RefutedForced(theory: Theory, a: seq<Lit>, ls: set<Lit>)
    requires !Satisfiable(theory, a)
    ensures Forced(theory, a, ls)
  {
  }

  lemma ClashRefutes(theory: Theory, t0: State, t: State, a: seq<Lit>)
    requires Wf(t0) && Wf(t) && Extends(t0, t) && Forced(theory, a, Lits(t.trail))
    requires exists l :: l in a && IsFalse(t0, l)
    ensures !Satisfiable(theory, a)
  {
    var l :| l in a && IsFalse(t0, l);
    TrueFacts(t0, l);
    assert t.trail[t0.pos[l.v]] == l.Not();
    assert l.Not() in Lits(t.trail);
    forall m: Assignment | IsModel(m, theory, a) ensures false {
    }
  }

  lemma AllOnTrail(t0: State, t: State, a: seq<Lit>)
    requires Wf(t0) && Extends(t0, t) && forall l :: l in a ==> IsTrue(t0, l)
    ensures forall l :: l in a ==> l in t.trail
  {
    forall l | l in a ensures l in t.trail {
      TrueFacts(t0, l);
      assert t.trail[t0.pos[l.v]] == l;
    }
  }

  /** Where the propagated part of the trail begins matters for propagation only. */
  lemma NewFloor(theory: Theory, ca: map<CRef, Clause>, clauses: seq<CRef>, t: State, f: nat, a: seq<Lit>)
    requires Wf(t) && ReasonsOk(ca, t) && Sound(theory, ca, t) && Follows(t, a)
    ensures var t' := t.(floor := f);
      Wf(t') && ReasonsOk(ca, t') && Sound(theory, ca, t') && Follows(t', a) && (Covered(theory, ca, clauses, t) ==> Covered(theory, ca, clauses, t'))
  {
    var t' := t.(floor := f);
    assert forall i, lev :: LevelFits(t', i, lev) <==> LevelFits(t, i, lev);
    forall i | 0 <= i < |t.trail| ensures ReasonOk(ca, t', i) { assert ReasonOk(ca, t, i); }
    assert forall l :: TopTrue(t', l) <==> TopTrue(t, l);
    if Covered(theory, ca, clauses, t) { CoveredGrows(theory, ca, ca, clauses, clauses, t, t'); }
  }

  lemma EmptyState()
    ensures var t := State([], [], [], [], [], 0);
      && Wf(t) && ReasonsOk(map[], t) && ClausesOk(map[], 0) && Sound({}, map[], t) && Covered({}, map[], [], t)
      && WatchesLazy(map[], map[], 0) && PropagatedTo(map[], t, 0) && RefsBelow(map[], map[], 0)
  {
    assert CleanAll(map[], map[]) == map[];
  }
}
